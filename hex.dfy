/** Byte-level field normalisation: `hexToUint8Array` and `numToUint8Array`
    of src/test-batch.ts, over Node's hex decoder. */
module Hex {
  import opened Numerals

  newtype Byte = x: int | 0 <= x < 256

  /** Node's hex decoder accepts both letter cases. */
  predicate IsHexDigit(c: char) {
    IsLowerHexChar(c) || 'A' <= c <= 'F'
  }

  function HexDigitValue(c: char): (d: nat)
    requires IsHexDigit(c)
    ensures d < 16
    ensures IsLowerHexChar(c) ==> d == DigitValue(c)
  {
    if 'A' <= c <= 'F' then c as int - 'A' as int + 10 else DigitValue(c)
  }

  predicate AllHexDigits(s: string) {
    forall i :: 0 <= i < |s| ==> IsHexDigit(s[i])
  }

  function PairValue(hi: char, lo: char): (b: Byte)
    requires IsHexDigit(hi) && IsHexDigit(lo)
  {
    (16 * HexDigitValue(hi) + HexDigitValue(lo)) as Byte
  }

  /** `Buffer.from(s, 'hex')`: digits are read two at a time; decoding stops
      at the first pair holding a non-hex character, and a lone trailing digit
      is dropped. Nothing is rejected. */
  function DecodeHex(s: string): (r: seq<Byte>)
    ensures |r| <= |s| / 2
    decreases |s|
  {
    if |s| < 2 || !IsHexDigit(s[0]) || !IsHexDigit(s[1]) then []
    else [PairValue(s[0], s[1])] + DecodeHex(s[2..])
  }

  /** Lowercase hex rendering of bytes, two digits per byte (the inverse
      direction, used to state round trips). */
  function EncodeHex(b: seq<Byte>): (s: string)
    ensures |s| == 2 * |b| && AllLowerHex(s)
  {
    if b == [] then []
    else [DigitChar(b[0] as nat / 16), DigitChar(b[0] as nat % 16)] + EncodeHex(b[1..])
  }

  /** JavaScript's `s.replace('0x', '')`: removes the FIRST occurrence of
      "0x" wherever it stands, not only a leading one. */
  function ReplaceFirst0x(s: string): (r: string)
    ensures |s| - 2 <= |r| <= |s|
  {
    if |s| < 2 then s
    else if s[0] == '0' && s[1] == 'x' then s[2..]
    else [s[0]] + ReplaceFirst0x(s[1..])
  }

  /** `hexToUint8Array` (src/test-batch.ts:137-140). */
  function HexToBytes(hex: string): (r: seq<Byte>)
    ensures |r| <= |hex| / 2
    ensures |hex| >= 2 && hex[..2] == "0x" ==> r == DecodeHex(hex[2..])
  {
    DecodeHex(ReplaceFirst0x(hex))
  }

  /** Left-pads a digit string with one '0' when its length is odd
      (src/test-batch.ts:144-146): the shortest zero-padding to even length. */
  function PadEven(h: string): (r: string)
    ensures |r| % 2 == 0 && |h| <= |r| <= |h| + 1
    ensures r[|r| - |h|..] == h
    ensures |r| > |h| ==> r[0] == '0'
  {
    if |h| % 2 == 1 then "0" + h else h
  }

  /** `numToUint8Array` (src/test-batch.ts:142-148). */
  function NumToBytes(num: int): (r: seq<Byte>)
    ensures num >= 0 ==> r == MinimalBytes(num)
    ensures num < 0 ==> r == []
  {
    var bytes := HexToBytes(PadEven(IntToHex(num)));
    assert num >= 0 ==> bytes == MinimalBytes(num) by {
      if num >= 0 { PaddedHexOfNatDecodesMinimal(num); }
    }
    assert num < 0 ==> bytes == [] by {
      if num < 0 { PaddedHexOfNegativeDecodesEmpty(num); }
    }
    bytes
  }

  /** The number a big-endian byte string denotes. */
  function BigEndianValue(b: seq<Byte>): nat {
    if b == [] then 0 else BigEndianValue(b[..|b| - 1]) * 256 + b[|b| - 1] as nat
  }

  /** Reference encoding: the shortest big-endian bytes of n, one zero byte for zero. */
  function MinimalBytes(n: nat): (r: seq<Byte>)
    ensures |r| >= 1 && (|r| == 1 || r[0] != 0)
    ensures BigEndianValue(r) == n
    decreases n
  {
    if n < 256 then
      var r := [n as Byte];
      assert r[..0] == [];
      r
    else
      var p := MinimalBytes(n / 256);
      var r := p + [(n % 256) as Byte];
      assert r[..|r| - 1] == p;
      assert p[0] != 0 by {
        if |p| == 1 { assert p[..0] == []; }
      }
      r
  }

  // ---------------------------------------------------------------------
  // Hex decoding

  lemma {:induction false} DecodeHexOfDigits(s: string)
    requires AllHexDigits(s)
    ensures |DecodeHex(s)| == |s| / 2
    ensures forall i :: 0 <= i < |s| / 2 ==> DecodeHex(s)[i] == PairValue(s[2 * i], s[2 * i + 1])
    decreases |s|
  {
    if |s| >= 2 {
      var t := s[2..];
      DecodeHexOfDigits(t);
      forall i | 1 <= i < |s| / 2
        ensures DecodeHex(s)[i] == PairValue(s[2 * i], s[2 * i + 1])
      {
        assert DecodeHex(s)[i] == DecodeHex(t)[i - 1];
        assert t[2 * (i - 1)] == s[2 * i] && t[2 * (i - 1) + 1] == s[2 * i + 1];
      }
    }
  }

  /** Appending one digit pair to a run of digits appends one byte. */
  lemma {:induction false} DecodeHexSnoc(p: string, hi: char, lo: char)
    requires AllHexDigits(p) && |p| % 2 == 0 && IsHexDigit(hi) && IsHexDigit(lo)
    ensures DecodeHex(p + [hi, lo]) == DecodeHex(p) + [PairValue(hi, lo)]
    decreases |p|
  {
    if p != [] {
      assert (p + [hi, lo])[2..] == p[2..] + [hi, lo];
      DecodeHexSnoc(p[2..], hi, lo);
    }
  }

  /** Decoding the rendering of any bytes gives the bytes back. */
  lemma {:induction false} EncodeThenDecode(b: seq<Byte>)
    ensures DecodeHex(EncodeHex(b)) == b
  {
    if b != [] {
      var hi, lo := DigitChar(b[0] as nat / 16), DigitChar(b[0] as nat % 16);
      assert EncodeHex(b)[2..] == EncodeHex(b[1..]);
      EncodeThenDecode(b[1..]);
    }
  }

  /** Rendering the decoding of an even-length lowercase digit string gives the digits back. */
  lemma {:induction false} DecodeThenEncode(s: string)
    requires AllLowerHex(s) && |s| % 2 == 0
    ensures EncodeHex(DecodeHex(s)) == s
    decreases |s|
  {
    if s != [] {
      DecodeThenEncode(s[2..]);
      var v := PairValue(s[0], s[1]) as nat;
      assert v / 16 == DigitValue(s[0]) && v % 16 == DigitValue(s[1]);
      DigitCharOfValue(s[0]);
      DigitCharOfValue(s[1]);
      assert s == [s[0], s[1]] + s[2..];
    }
  }

  /** An odd-length string whose full pairs are all digits loses its last
      character, digit or not: the reason numbers are padded before decoding. */
  lemma {:induction false} DecodeHexDropsLoneDigit(s: string)
    requires |s| % 2 == 1 && AllHexDigits(s[..|s| - 1])
    ensures DecodeHex(s) == DecodeHex(s[..|s| - 1])
    decreases |s|
  {
    if |s| > 1 {
      var p := s[..|s| - 1];
      assert IsHexDigit(p[0]) && IsHexDigit(p[1]);
      var t := s[2..];
      assert t[..|t| - 1] == p[2..];
      var u := t[..|t| - 1];
      forall i | 0 <= i < |u| ensures IsHexDigit(u[i]) {
        assert u[i] == p[i + 2];
      }
      DecodeHexDropsLoneDigit(t);
    }
  }

  /** A lone trailing non-digit is dropped as well: "12z" gives the single byte 0x12. */
  lemma HexToBytesDropsLoneCharacter()
    ensures HexToBytes("12z") == [0x12]
  {
    DecodeHexDropsLoneDigit("12z");
    assert "12z"[..2] == "12";
  }

  /** Decoding stops at the first pair holding a non-hex character: everything
      from that pair on is ignored. */
  lemma {:induction false} DecodeHexStopsAtBadPair(s: string, k: nat)
    requires 2 * k + 1 < |s| && AllHexDigits(s[..2 * k])
    requires !IsHexDigit(s[2 * k]) || !IsHexDigit(s[2 * k + 1])
    ensures DecodeHex(s) == DecodeHex(s[..2 * k])
    decreases k
  {
    if k > 0 {
      var t := s[2..];
      assert t[..2 * (k - 1)] == s[..2 * k][2..];
      var u := t[..2 * (k - 1)];
      forall i | 0 <= i < |u| ensures IsHexDigit(u[i]) {
        assert u[i] == s[..2 * k][i + 2];
      }
      assert IsHexDigit(s[..2 * k][0]) && IsHexDigit(s[..2 * k][1]);
      DecodeHexStopsAtBadPair(t, k - 1);
    }
  }

  /** A stray character ends the decoding: "0x12zz34" gives the single byte 0x12. */
  lemma HexToBytesStopsAtBadPair()
    ensures HexToBytes("0x12zz34") == [0x12]
  {
    DecodeHexStopsAtBadPair("12zz34", 1);
  }

  // ---------------------------------------------------------------------
  // Prefix removal

  /** A string in which "0x" does not occur is left unchanged. */
  lemma {:induction false} ReplaceFirst0xAbsent(s: string)
    requires forall j :: 0 <= j < |s| - 1 ==> !(s[j] == '0' && s[j + 1] == 'x')
    ensures ReplaceFirst0x(s) == s
    decreases |s|
  {
    if |s| >= 2 {
      var t := s[1..];
      forall j | 0 <= j < |t| - 1 ensures !(t[j] == '0' && t[j + 1] == 'x') {
        assert t[j] == s[j + 1] && t[j + 1] == s[j + 2];
      }
      ReplaceFirst0xAbsent(t);
    }
  }

  /** In particular a string without 'x' (any rendering of a number) is left unchanged. */
  lemma ReplaceFirst0xNoX(s: string)
    requires forall i :: 0 <= i < |s| ==> s[i] != 'x'
    ensures ReplaceFirst0x(s) == s
  {
    ReplaceFirst0xAbsent(s);
  }

  /** `replace('0x', '')` removes the first "0x" wherever it stands: when k is
      the first index at which "0x" occurs, the two characters there are cut out
      and nothing else changes. */
  lemma {:induction false} ReplaceFirst0xAt(s: string, k: nat)
    requires k + 1 < |s| && s[k] == '0' && s[k + 1] == 'x'
    requires forall j :: 0 <= j < k ==> !(s[j] == '0' && s[j + 1] == 'x')
    ensures ReplaceFirst0x(s) == s[..k] + s[k + 2..]
    decreases k
  {
    if k > 0 {
      assert !(s[0] == '0' && s[1] == 'x');
      var t := s[1..];
      forall j | 0 <= j < k - 1 ensures !(t[j] == '0' && t[j + 1] == 'x') {
        assert t[j] == s[j + 1] && t[j + 1] == s[j + 2];
      }
      ReplaceFirst0xAt(t, k - 1);
      assert ReplaceFirst0x(s) == [s[0]] + (t[..k - 1] + t[k + 1..]);
      assert s[..k] == [s[0]] + t[..k - 1];
      assert t[k + 1..] == s[k + 2..];
      assert [s[0]] + (t[..k - 1] + t[k + 1..]) == ([s[0]] + t[..k - 1]) + t[k + 1..];
    }
  }

  /** A "0x" inside the string is removed too: "ab0xcd" decodes as "abcd". */
  lemma HexToBytesInnerPrefix()
    ensures HexToBytes("ab0xcd") == [0xab, 0xcd]
  {
    ReplaceFirst0xAt("ab0xcd", 2);
    assert "ab0xcd"[..2] + "ab0xcd"[4..] == "abcd";
  }

  lemma ReplaceFirst0xPrefix(s: string)
    ensures ReplaceFirst0x("0x" + s) == s
  {
  }

  /** `hexToUint8Array` on an even-length lowercase hex string, with or without
      the "0x" prefix: half as many bytes as digits, and re-encoding the bytes
      gives back the digits. */
  lemma HexToBytesRoundTrip(d: string)
    requires AllLowerHex(d) && |d| % 2 == 0
    ensures HexToBytes("0x" + d) == HexToBytes(d)
    ensures |HexToBytes(d)| == |d| / 2
    ensures EncodeHex(HexToBytes(d)) == d
  {
    ReplaceFirst0xNoX(d);
    ReplaceFirst0xPrefix(d);
    DecodeHexOfDigits(d);
    DecodeThenEncode(d);
  }

  /** The empty payload "0x" decodes to no bytes. */
  lemma HexToBytesEmpty()
    ensures HexToBytes("0x") == []
  {
  }

  /** `hexToUint8Array` inverts rendering bytes as "0x"-prefixed lowercase hex. */
  lemma HexToBytesOfEncoding(b: seq<Byte>)
    ensures HexToBytes("0x" + EncodeHex(b)) == b
  {
  }

  // ---------------------------------------------------------------------
  // numToUint8Array

  /** The string handed to the decoder is always of even length, and for a
      non-negative number it consists of hex digits only. */
  lemma NumToBytesDecoderInput(num: int)
    ensures |PadEven(IntToHex(num))| % 2 == 0
    ensures num >= 0 ==> |PadEven(IntToHex(num))| >= 2 && AllLowerHex(PadEven(IntToHex(num)))
  {
    if num >= 0 {
      var h := IntToHex(num);
      var r := PadEven(h);
      forall i | 0 <= i < |r| ensures IsLowerHexChar(r[i]) {
        if |r| > |h| && i == 0 {
        } else {
          assert r[i] == r[|r| - |h|..][i - (|r| - |h|)];
        }
      }
    }
  }

  lemma {:induction false} PadEvenSnoc(h: string, x: char, y: char)
    ensures PadEven(h + [x, y]) == PadEven(h) + [x, y]
  {
  }

  lemma Radix16Split(n: nat)
    requires n >= 256
    ensures ToRadix(n, 16) == ToRadix(n / 256, 16) + [DigitChar(n / 16 % 16), DigitChar(n % 16)]
  {
    assert n / 16 / 16 == n / 256;
  }

  lemma ByteSplit(n: nat)
    ensures 16 * (n / 16 % 16) + n % 16 == n % 256
  {
  }

  lemma SmallPaddedHex(n: nat)
    requires n < 256
    ensures DecodeHex(PadEven(ToRadix(n, 16))) == [n as Byte]
  {
    if n < 16 {
      var d := DigitChar(n);
      assert PadEven(ToRadix(n, 16)) == ['0', d];
      assert PairValue('0', d) as int == n;
    } else {
      var hi, lo := DigitChar(n / 16), DigitChar(n % 16);
      DivBounds(n, 16);
      assert ToRadix(n, 16) == ToRadix(n / 16, 16) + [lo];
      assert ToRadix(n / 16, 16) == [hi];
      assert PairValue(hi, lo) as int == 16 * (n / 16) + n % 16 == n;
    }
  }

  /** Hex digits of n, padded to even length and decoded, are the minimal
      big-endian bytes of n. */
  lemma {:induction false} PaddedHexIsMinimal(n: nat)
    ensures DecodeHex(PadEven(ToRadix(n, 16))) == MinimalBytes(n)
    decreases n
  {
    if n < 256 {
      SmallPaddedHex(n);
    } else {
      var h := ToRadix(n / 256, 16);
      var hi, lo := DigitChar(n / 16 % 16), DigitChar(n % 16);
      Radix16Split(n);
      PadEvenSnoc(h, hi, lo);
      NumToBytesDecoderInput(n / 256);
      DecodeHexSnoc(PadEven(h), hi, lo);
      assert PairValue(hi, lo) as int == n % 256 by { ByteSplit(n); }
      PaddedHexIsMinimal(n / 256);
    }
  }

  /** For any n >= 0, the padded hex digits of n decode to the minimal
      big-endian encoding of n: at least one byte, no leading zero byte unless
      n is zero. */
  lemma PaddedHexOfNatDecodesMinimal(n: nat)
    ensures HexToBytes(PadEven(IntToHex(n))) == MinimalBytes(n)
    ensures |MinimalBytes(n)| >= 1 && BigEndianValue(MinimalBytes(n)) == n
  {
    var h := PadEven(IntToHex(n));
    NumToBytesDecoderInput(n);
    ReplaceFirst0xNoX(h);
    PaddedHexIsMinimal(n);
  }

  /** A negative number renders with a leading '-', so decoding stops at the
      first pair and nothing is produced. */
  lemma PaddedHexOfNegativeDecodesEmpty(num: int)
    requires num < 0
    ensures HexToBytes(PadEven(IntToHex(num))) == []
  {
    var r := PadEven(IntToHex(num));
    SignedDigitsPadded(IntToHex(num));
    ReplaceFirst0xNoX(r);
  }

  /** Padding '-' followed by digits puts the '-' in the first pair and adds no 'x'. */
  lemma SignedDigitsPadded(h: string)
    requires |h| >= 2 && h[0] == '-' && AllLowerHex(h[1..])
    ensures var r := PadEven(h); r[0] == '-' || r[1] == '-'
    ensures var r := PadEven(h); forall i :: 0 <= i < |r| ==> r[i] != 'x'
  {
    var d := h[1..];
    var sign := if |h| % 2 == 1 then "0-" else "-";
    var r := PadEven(h);
    assert h == "-" + d;
    assert r == sign + d;
    forall i | 0 <= i < |r| ensures r[i] != 'x' {
      if i >= |sign| {
        assert r[i] == d[i - |sign|];
      }
    }
  }

  /** `numToUint8Array(10)` is the single byte 0x0a (the odd digit count is
      padded, not rejected) and `numToUint8Array(0)` is the single byte 0x00. */
  lemma NumToBytesExamples()
    ensures NumToBytes(10) == [0x0a]
    ensures NumToBytes(0) == [0x00]
    ensures NumToBytes(1) == [0x01]
  {
  }
}
