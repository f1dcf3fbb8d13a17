/** The assembler `wrapEvmTxnsIntoCosmosTxn` (src/test-batch.ts:81-128):
    signed Ethereum transactions become one Cosmos-SDK `Tx` whose body holds one
    `MsgEthereumTx` per input, in input order. */
module Batch {
  import opened Numerals
  import opened Hex
  import opened Proto

  /** The signature of a parsed transaction; r and s are "0x"-prefixed hex. */
  datatype Signature = Signature(r: string, s: string, v: int)

  /** A signed transaction as ethers' `Transaction.from` presents it. Integers
      are arbitrary-precision; `data` is "0x"-prefixed hex. */
  datatype EvmTransaction = EvmTransaction(
    chainId: nat,
    nonce: nat,
    gasPrice: nat,
    gasLimit: nat,
    to: string,
    value: nat,
    data: string,
    signature: Signature,
    hash: string)

  /** The fee denomination of the target chain (src/test-batch.ts:116). */
  const FeeDenom := "basecro"

  /** The recovery-id correction of src/test-batch.ts:92: the parsed signature
      reports v as 27 or 28, while an EIP-2930 transaction carries the y-parity
      0 or 1 (the comment at src/test-batch.ts:52 blames the parser). Nothing
      checks that v is at least 27. */
  function YParity(v: int): (p: int)
    ensures v == 27 ==> p == 0
    ensures v == 28 ==> p == 1
    ensures p >= 0 <==> v >= 27
  {
    v - 27
  }

  /** `BigInt.toString()`: the decimal rendering. */
  function Decimal(n: nat): string {
    ToRadix(n, 10)
  }

  /** The per-transaction payload (src/test-batch.ts:83-95). The numeric
      fields are canonical decimal renderings of the inputs' integers; nonce,
      gas and recipient are copied; the access list is empty; v >= 27 is sent
      as the minimal big-endian bytes of v - 27, and v < 27 silently as no
      bytes at all. */
  function ToAccessListTx(t: EvmTransaction): (tx: AccessListTx)
    ensures IsCanonical(tx.chainId, 10) && NumeralValue(tx.chainId, 10) == t.chainId
    ensures IsCanonical(tx.gasPrice, 10) && NumeralValue(tx.gasPrice, 10) == t.gasPrice
    ensures IsCanonical(tx.value, 10) && NumeralValue(tx.value, 10) == t.value
    ensures tx.nonce == t.nonce && tx.gas == t.gasLimit && tx.to == t.to
    ensures tx.accesses == []
    ensures t.signature.v >= 27 ==> tx.v == MinimalBytes(t.signature.v - 27)
    ensures t.signature.v < 27 ==> tx.v == []
  {
    AccessListTx(
      chainId := Decimal(t.chainId),
      nonce := t.nonce,
      gasPrice := Decimal(t.gasPrice),
      gas := t.gasLimit,
      to := t.to,
      value := Decimal(t.value),
      data := HexToBytes(t.data),
      accesses := [],
      v := NumToBytes(YParity(t.signature.v)),
      r := HexToBytes(t.signature.r),
      s := HexToBytes(t.signature.s))
  }

  /** One `MsgEthereumTx` (src/test-batch.ts:96-102): the input's hash, size 0,
      an empty sender, and a payload the receiver unpacks to the input's
      access-list transaction. */
  function WrapEvmTxn(t: EvmTransaction): (m: MsgEthereumTx)
    ensures m.hash == t.hash && m.size == 0 && m.from == ""
    ensures UnpackAny(m.data) == Some(AccessListTxMessage(ToAccessListTx(t)))
  {
    var anyLegacyTx := CreateAnyMessage(ToMessageGenerated(AccessListTxMessage(ToAccessListTx(t))));
    MsgEthereumTx(data := anyLegacyTx, size := 0, hash := t.hash, from := "")
  }

  function GasFee(t: EvmTransaction): nat {
    t.gasLimit * t.gasPrice
  }

  function GasLimit(t: EvmTransaction): nat {
    t.gasLimit
  }

  /** `reduce((acc, t) => acc + f(t), 0n)`: a left fold, so the last element
      is added last. */
  function Total(ts: seq<EvmTransaction>, f: EvmTransaction -> nat): (r: nat)
    ensures forall i :: 0 <= i < |ts| ==> f(ts[i]) <= r
    ensures ts == [] ==> r == 0
  {
    if ts == [] then 0 else Total(ts[..|ts| - 1], f) + f(ts[|ts| - 1])
  }

  /** Σ gasLimit * gasPrice (src/test-batch.ts:113). */
  function TotalGasFee(ts: seq<EvmTransaction>): (r: nat)
    ensures forall i :: 0 <= i < |ts| ==> ts[i].gasLimit * ts[i].gasPrice <= r
  {
    Total(ts, GasFee)
  }

  /** Σ gasLimit (src/test-batch.ts:114). */
  function TotalGasLimit(ts: seq<EvmTransaction>): (r: nat)
    ensures forall i :: 0 <= i < |ts| ==> ts[i].gasLimit <= r
  {
    Total(ts, GasLimit)
  }

  /** The single, empty extension option (src/test-batch.ts:107-109), which
      the receiver unpacks as an `ExtensionOptionsEthereumTx`. */
  function ExtensionOptionsAny(): (a: Any)
    ensures UnpackAny(a) == Some(ExtensionOptionsEthereumTxMessage)
  {
    CreateAnyMessage(ToMessageGenerated(ExtensionOptionsEthereumTxMessage))
  }

  /** `wrapEvmTxnsIntoCosmosTxn` (src/test-batch.ts:81-128). An empty input is
      not rejected: it gives an empty message list and a zero fee. */
  function WrapEvmTxnsIntoCosmosTxn(ts: seq<EvmTransaction>): (tx: Tx)
    ensures |tx.body.messages| == |ts|
    ensures tx.body.extensionOptions == [ExtensionOptionsAny()] && tx.body.nonCriticalExtensionOptions == []
    ensures tx.authInfo.fee.gasLimit == TotalGasLimit(ts)
    ensures tx.authInfo.signerInfos == [] && tx.signatures == []
  {
    var msgEthereumTxs := seq(|ts|, i requires 0 <= i < |ts| => WrapEvmTxn(ts[i]));
    var generated := seq(|ts|, i requires 0 <= i < |ts| => ToMessageGenerated(MsgEthereumTxMessage(msgEthereumTxs[i])));
    var txBody := CreateBodyWithMultipleMessages(generated, "");
    var body := txBody.(extensionOptions := [ExtensionOptionsAny()]);
    var fee := CreateFee(Decimal(TotalGasFee(ts)), FeeDenom, TotalGasLimit(ts));
    Tx(body := body, authInfo := AuthInfo(signerInfos := [], fee := fee), signatures := [])
  }

  // ---------------------------------------------------------------------
  // What a receiving node reads back from a body entry

  /** The body entry `a`, unpacked through the type registry, is a
      `MsgEthereumTx` for `t`: its hash, size 0, empty sender, and an
      access-list payload that unpacks to `t`'s normalised fields. */
  predicate CarriesTransaction(a: Any, t: EvmTransaction) {
    match UnpackAny(a)
    case Some(MsgEthereumTxMessage(m)) =>
      && m.hash == t.hash
      && m.size == 0
      && m.from == ""
      && UnpackAny(m.data) == Some(AccessListTxMessage(ToAccessListTx(t)))
    case _ => false
  }

  /** The body holds exactly one message per input, the i-th for input i. */
  lemma BodyFollowsInputOrder(ts: seq<EvmTransaction>)
    ensures |WrapEvmTxnsIntoCosmosTxn(ts).body.messages| == |ts|
    ensures forall i :: 0 <= i < |ts| ==> CarriesTransaction(WrapEvmTxnsIntoCosmosTxn(ts).body.messages[i], ts[i])
  {
  }

  /** Whatever the inputs, the body has exactly one extension option, the empty
      `ExtensionOptionsEthereumTx`, no non-critical options, and an empty memo. */
  lemma ExactlyOneExtensionOption(ts: seq<EvmTransaction>)
    ensures |WrapEvmTxnsIntoCosmosTxn(ts).body.extensionOptions| == 1
    ensures UnpackAny(WrapEvmTxnsIntoCosmosTxn(ts).body.extensionOptions[0]) == Some(ExtensionOptionsEthereumTxMessage)
    ensures WrapEvmTxnsIntoCosmosTxn(ts).body.nonCriticalExtensionOptions == []
    ensures WrapEvmTxnsIntoCosmosTxn(ts).body.memo == ""
  {
  }

  /** The fee is one "basecro" coin whose amount is the exact decimal rendering
      of the sum of gasLimit * gasPrice, its gas limit is the exact sum of gas
      limits, and there are no signer infos and no top-level signatures. */
  lemma EnvelopeFee(ts: seq<EvmTransaction>)
    ensures var fee := WrapEvmTxnsIntoCosmosTxn(ts).authInfo.fee;
      && |fee.amount| == 1
      && fee.amount[0].denom == "basecro"
      && IsCanonical(fee.amount[0].amount, 10)
      && NumeralValue(fee.amount[0].amount, 10) == TotalGasFee(ts)
      && fee.gasLimit == TotalGasLimit(ts)
    ensures WrapEvmTxnsIntoCosmosTxn(ts).authInfo.signerInfos == []
    ensures WrapEvmTxnsIntoCosmosTxn(ts).signatures == []
  {
  }

  // ---------------------------------------------------------------------
  // Sums

  /** Totals add up over a split of the inputs. */
  lemma {:induction false} TotalAppend(a: seq<EvmTransaction>, b: seq<EvmTransaction>, f: EvmTransaction -> nat)
    ensures Total(a + b, f) == Total(a, f) + Total(b, f)
    decreases |b|
  {
    if b == [] {
      assert a + b == a;
    } else {
      var b' := b[..|b| - 1];
      assert (a + b)[..|a + b| - 1] == a + b';
      TotalAppend(a, b', f);
    }
  }

  /** The total is any one element's term plus the total over the others. */
  lemma {:induction false} TotalRemove(ts: seq<EvmTransaction>, i: nat, f: EvmTransaction -> nat)
    requires i < |ts|
    ensures Total(ts, f) == f(ts[i]) + Total(ts[..i] + ts[i + 1..], f)
    decreases |ts|
  {
    var init := ts[..|ts| - 1];
    if i == |ts| - 1 {
      assert ts[..i] + ts[i + 1..] == init;
    } else {
      var rest := ts[..i] + ts[i + 1..];
      assert rest[..|rest| - 1] == init[..i] + init[i + 1..];
      assert rest[|rest| - 1] == ts[|ts| - 1];
      assert init[i] == ts[i];
      TotalRemove(init, i, f);
    }
  }

  /** Totals do not depend on the order of the inputs. */
  lemma {:induction false} TotalPermutation(a: seq<EvmTransaction>, b: seq<EvmTransaction>, f: EvmTransaction -> nat)
    requires multiset(a) == multiset(b)
    ensures Total(a, f) == Total(b, f)
    decreases |a|
  {
    if a != [] {
      var x := a[|a| - 1];
      var a' := a[..|a| - 1];
      assert a == a' + [x];
      assert x in multiset(b);
      var j :| 0 <= j < |b| && b[j] == x;
      var b' := b[..j] + b[j + 1..];
      assert multiset(a') == multiset(a) - multiset{x};
      MultisetWithout(b, j);
      TotalRemove(b, j, f);
      TotalPermutation(a', b', f);
    } else {
      assert |b| == |multiset(b)| == 0;
    }
  }

  lemma MultisetWithout(b: seq<EvmTransaction>, j: nat)
    requires j < |b|
    ensures multiset(b[..j] + b[j + 1..]) == multiset(b) - multiset{b[j]}
  {
    assert b == b[..j] + [b[j]] + b[j + 1..];
    assert multiset(b) == multiset(b[..j]) + multiset([b[j]]) + multiset(b[j + 1..]);
  }

  /** Reordering the inputs leaves the fee, the gas limit and the rest of the
      auth info unchanged, while the body messages follow the new order. */
  lemma FeeIndependentOfOrder(ts: seq<EvmTransaction>, us: seq<EvmTransaction>)
    requires multiset(ts) == multiset(us)
    ensures TotalGasFee(ts) == TotalGasFee(us) && TotalGasLimit(ts) == TotalGasLimit(us)
    ensures WrapEvmTxnsIntoCosmosTxn(ts).authInfo == WrapEvmTxnsIntoCosmosTxn(us).authInfo
    ensures forall i :: 0 <= i < |us| ==> CarriesTransaction(WrapEvmTxnsIntoCosmosTxn(us).body.messages[i], us[i])
  {
    TotalPermutation(ts, us, GasFee);
    TotalPermutation(ts, us, GasLimit);
    BodyFollowsInputOrder(us);
  }

  /** Swapping two transactions with different hashes changes the body but not
      the fee. */
  lemma SwapReordersMessagesOnly(a: EvmTransaction, b: EvmTransaction)
    requires a.hash != b.hash
    ensures WrapEvmTxnsIntoCosmosTxn([a, b]).authInfo == WrapEvmTxnsIntoCosmosTxn([b, a]).authInfo
    ensures WrapEvmTxnsIntoCosmosTxn([a, b]).body.messages != WrapEvmTxnsIntoCosmosTxn([b, a]).body.messages
  {
    assert multiset([a, b]) == multiset([b, a]);
    FeeIndependentOfOrder([a, b], [b, a]);
    BodyFollowsInputOrder([a, b]);
    BodyFollowsInputOrder([b, a]);
    assert WrapEvmTxnsIntoCosmosTxn([a, b]).body.messages[0] != WrapEvmTxnsIntoCosmosTxn([b, a]).body.messages[0];
  }

  /** The fee over a concatenation of two batches is the sum of their fees. */
  lemma FeeOfConcatenation(ts: seq<EvmTransaction>, us: seq<EvmTransaction>)
    ensures TotalGasFee(ts + us) == TotalGasFee(ts) + TotalGasFee(us)
    ensures TotalGasLimit(ts + us) == TotalGasLimit(ts) + TotalGasLimit(us)
  {
    TotalAppend(ts, us, GasFee);
    TotalAppend(ts, us, GasLimit);
  }

  // ---------------------------------------------------------------------
  // Per-transaction fields

  /** The recovery-id correction: v = 27 is sent as the byte 0x00 and v = 28
      as 0x01. */
  lemma RecoveryIdCorrection(t: EvmTransaction)
    ensures t.signature.v == 27 ==> ToAccessListTx(t).v == [0x00]
    ensures t.signature.v == 28 ==> ToAccessListTx(t).v == [0x01]
  {
  }

  /** When r, s and data arrive as "0x" followed by an even number of lowercase
      hex digits, the payload holds exactly the bytes those digits spell. */
  lemma AccessListTxBytes(t: EvmTransaction, r: string, s: string, data: string)
    requires t.signature.r == "0x" + r && AllLowerHex(r) && |r| % 2 == 0
    requires t.signature.s == "0x" + s && AllLowerHex(s) && |s| % 2 == 0
    requires t.data == "0x" + data && AllLowerHex(data) && |data| % 2 == 0
    ensures var tx := ToAccessListTx(t);
      && |tx.r| == |r| / 2 && EncodeHex(tx.r) == r
      && |tx.s| == |s| / 2 && EncodeHex(tx.s) == s
      && |tx.data| == |data| / 2 && EncodeHex(tx.data) == data
  {
    HexToBytesRoundTrip(r);
    HexToBytesRoundTrip(s);
    HexToBytesRoundTrip(data);
  }

  // ---------------------------------------------------------------------
  // Scenarios

  /** An empty batch is not rejected: no messages, a zero fee and gas limit,
      and still the one extension option. */
  lemma EmptyBatch()
    ensures WrapEvmTxnsIntoCosmosTxn([]).body.messages == []
    ensures WrapEvmTxnsIntoCosmosTxn([]).authInfo.fee == Fee([Coin("basecro", "0")], 0)
    ensures WrapEvmTxnsIntoCosmosTxn([]).body.extensionOptions == [ExtensionOptionsAny()]
  {
  }

  /** Two transfers of 21000 gas at 4800 and 10000 gwei: a gas limit of 42000,
      a fee of 21000 * 14800 gwei, and two messages in input order. */
  lemma TwoTransferBatch(t0: EvmTransaction, t1: EvmTransaction)
    requires t0.gasLimit == 21000 && t0.gasPrice == 4800 * 1000000000
    requires t1.gasLimit == 21000 && t1.gasPrice == 10000 * 1000000000
    ensures var tx := WrapEvmTxnsIntoCosmosTxn([t0, t1]);
      && tx.authInfo.fee.gasLimit == 42000
      && tx.authInfo.fee.amount[0].denom == "basecro"
      && NumeralValue(tx.authInfo.fee.amount[0].amount, 10) == 310800000000000000
      && |tx.body.messages| == 2
      && CarriesTransaction(tx.body.messages[0], t0)
      && CarriesTransaction(tx.body.messages[1], t1)
  {
    var ts := [t0, t1];
    assert TotalGasFee(ts) == 310800000000000000 && TotalGasLimit(ts) == 42000 by {
      assert ts[..1] == [t0] && [t0][..0] == [];
      assert Total([t0], GasFee) == GasFee(t0) == 100800000000000000;
      assert Total([t0], GasLimit) == 21000;
      assert GasFee(t1) == 210000000000000000;
    }
    EnvelopeFee(ts);
    BodyFollowsInputOrder(ts);
  }
}
