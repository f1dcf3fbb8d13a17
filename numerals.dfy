/** Positional numerals as JavaScript renders integers with `toString(radix)`:
    lowercase digits, most significant first, no leading zero, "0" for zero. */
module Numerals {

  /** A lowercase digit of some radix up to 16. */
  predicate IsLowerHexChar(c: char) {
    '0' <= c <= '9' || 'a' <= c <= 'f'
  }

  function DigitValue(c: char): (d: nat)
    requires IsLowerHexChar(c)
    ensures d < 16
    ensures ('0' <= c <= '9') == (d < 10)
  {
    if '0' <= c <= '9' then c as int - '0' as int else c as int - 'a' as int + 10
  }

  /** The digit character `toString(radix)` emits for the digit value d. */
  function DigitChar(d: nat): (c: char)
    requires d < 16
    ensures IsLowerHexChar(c) && DigitValue(c) == d
  {
    if d < 10 then ('0' as int + d) as char else ('a' as int + d - 10) as char
  }

  lemma DigitCharOfValue(c: char)
    requires IsLowerHexChar(c)
    ensures DigitChar(DigitValue(c)) == c
  {
  }

  predicate IsDigitOf(c: char, base: nat) {
    IsLowerHexChar(c) && DigitValue(c) < base
  }

  predicate AllLowerHex(s: string) {
    forall i :: 0 <= i < |s| ==> IsLowerHexChar(s[i])
  }

  /** A non-empty string of digits of the given radix. */
  predicate IsNumeral(s: string, base: nat) {
    |s| >= 1 && forall i :: 0 <= i < |s| ==> IsDigitOf(s[i], base)
  }

  /** The form `toString(radix)` produces: no leading zero unless the number is zero. */
  predicate IsCanonical(s: string, base: nat) {
    IsNumeral(s, base) && (|s| == 1 || s[0] != '0')
  }

  /** The number a numeral denotes, read most significant digit first. */
  function NumeralValue(s: string, base: nat): nat
    requires AllLowerHex(s)
  {
    if s == [] then 0 else NumeralValue(s[..|s| - 1], base) * base + DigitValue(s[|s| - 1])
  }

  /** `n.toString(base)` for a non-negative integer n. */
  function ToRadix(n: nat, base: nat): (s: string)
    requires 2 <= base <= 16
    ensures IsCanonical(s, base) && NumeralValue(s, base) == n
    decreases n
  {
    if n < base then
      var s := [DigitChar(n)];
      SnocValue([], s[0], base);
      assert [] + [s[0]] == s;
      s
    else
      DivBounds(n, base);
      var p := ToRadix(n / base, base);
      var d := DigitChar(n % base);
      assert NumeralValue(p + [d], base) == n by {
        SnocValue(p, d, base);
        DivModValue(n, base, NumeralValue(p, base), DigitValue(d));
      }
      assert p[0] != '0' by {
        if |p| == 1 {
          SnocValue([], p[0], base);
          assert [] + [p[0]] == p;
        }
      }
      SnocNumeral(p, d, base);
      p + [d]
  }

  lemma DivBounds(n: nat, b: nat)
    requires 2 <= b <= n
    ensures 1 <= n / b < n && n % b < b
  {
  }

  lemma DivUnique(n: nat, b: nat, q: nat, r: nat)
    requires 1 <= q && r < b && n == q * b + r
    ensures n / b == q && n % b == r && n >= b
  {
    MulAtLeast(b, q);
    var q', r' := n / b, n % b;
    assert n == q' * b + r' && r' < b;
    if q > q' {
      MulAtLeast(b, q - q');
    } else if q < q' {
      MulAtLeast(b, q' - q);
    }
  }

  lemma DivModValue(n: nat, b: nat, q: nat, r: nat)
    requires b >= 1 && q == n / b && r == n % b
    ensures q * b + r == n
  {
  }

  lemma SnocValue(p: string, d: char, base: nat)
    requires AllLowerHex(p) && IsLowerHexChar(d)
    ensures AllLowerHex(p + [d])
    ensures NumeralValue(p + [d], base) == NumeralValue(p, base) * base + DigitValue(d)
  {
    assert (p + [d])[..|p|] == p;
  }

  lemma SnocNumeral(p: string, d: char, base: nat)
    requires IsCanonical(p, base) && p[0] != '0' && IsDigitOf(d, base)
    ensures IsCanonical(p + [d], base)
  {
    var s := p + [d];
    forall i | 0 <= i < |s| ensures IsDigitOf(s[i], base) {
      if i < |p| { assert s[i] == p[i]; }
    }
  }

  /** `toString(16)` of a JavaScript integer: a minus sign before the digits of a negative one. */
  function IntToHex(n: int): (s: string)
    ensures n >= 0 ==> IsCanonical(s, 16) && NumeralValue(s, 16) == n
    ensures n < 0 ==> |s| >= 2 && s[0] == '-' && IsCanonical(s[1..], 16) && NumeralValue(s[1..], 16) == -n
  {
    if n < 0 then "-" + ToRadix(-n, 16) else ToRadix(n, 16)
  }

  lemma {:induction false} LeadingDigitBound(s: string, base: nat)
    requires 2 <= base && IsNumeral(s, base)
    ensures NumeralValue(s, base) >= DigitValue(s[0])
    decreases |s|
  {
    if |s| > 1 {
      var p := s[..|s| - 1];
      assert IsNumeral(p, base) && p[0] == s[0];
      LeadingDigitBound(p, base);
      MulAtLeast(NumeralValue(p, base), base);
    }
  }

  lemma MulAtLeast(x: nat, b: nat)
    requires b >= 1
    ensures x * b >= x
  {
  }

  /** Reading a canonical numeral and rendering the number again gives back the numeral. */
  lemma {:induction false} CanonicalRoundTrip(s: string, base: nat)
    requires 2 <= base <= 16 && IsCanonical(s, base)
    ensures ToRadix(NumeralValue(s, base), base) == s
    decreases |s|
  {
    var n := NumeralValue(s, base);
    var c := s[|s| - 1];
    DigitCharOfValue(c);
    if |s| == 1 {
      SnocValue([], c, base);
      assert [] + [c] == s;
    } else {
      var p := s[..|s| - 1];
      assert IsCanonical(p, base) by { assert p[0] == s[0]; }
      LeadingDigitBound(p, base);
      var q := NumeralValue(p, base);
      assert q >= 1 by { assert s[0] != '0'; }
      assert n == q * base + DigitValue(c) by { SnocValue(p, c, base); assert p + [c] == s; }
      DivUnique(n, base, q, DigitValue(c));
      CanonicalRoundTrip(p, base);
      assert s == p + [c];
    }
  }
}
