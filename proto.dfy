/** The protobuf messages the assembler builds, as values. Binary
    serialisation stays abstract: an `Any` carries its type path and the
    message itself rather than the message's bytes. */
module Proto {
  import opened Hex

  datatype Option<T> = None | Some(value: T)

  /** ethermint.evm.v1.AccessTuple. */
  datatype AccessTuple = AccessTuple(address: string, storageKeys: seq<string>)

  /** ethermint.evm.v1.AccessListTx: the EIP-2930 transaction payload. */
  datatype AccessListTx = AccessListTx(
    chainId: string,
    nonce: nat,
    gasPrice: string,
    gas: nat,
    to: string,
    value: string,
    data: seq<Byte>,
    accesses: seq<AccessTuple>,
    v: seq<Byte>,
    r: seq<Byte>,
    s: seq<Byte>)

  /** ethermint.evm.v1.MsgEthereumTx: wraps one transaction payload. */
  datatype MsgEthereumTx = MsgEthereumTx(data: Any, size: nat, hash: string, from: string)

  /** The closed set of message kinds this core puts inside an `Any`. */
  datatype Message =
    | AccessListTxMessage(tx: AccessListTx)
    | MsgEthereumTxMessage(msg: MsgEthereumTx)
    | ExtensionOptionsEthereumTxMessage

  /** google.protobuf.Any, with the payload kept as a message value. */
  datatype Any = Any(typePath: string, message: Message)

  datatype MessageKind = AccessListTxKind | MsgEthereumTxKind | ExtensionOptionsEthereumTxKind

  function KindOf(m: Message): MessageKind {
    match m
    case AccessListTxMessage(_) => AccessListTxKind
    case MsgEthereumTxMessage(_) => MsgEthereumTxKind
    case ExtensionOptionsEthereumTxMessage => ExtensionOptionsEthereumTxKind
  }

  /** The fully-qualified protobuf type name of each kind (`getType().typeName`). */
  function TypeName(k: MessageKind): string {
    match k
    case AccessListTxKind => "ethermint.evm.v1.AccessListTx"
    case MsgEthereumTxKind => "ethermint.evm.v1.MsgEthereumTx"
    case ExtensionOptionsEthereumTxKind => "ethermint.evm.v1.ExtensionOptionsEthereumTx"
  }

  /** The receiving chain's registry: which message kind a type path names. */
  function LookupTypeName(path: string): (k: Option<MessageKind>)
    ensures k.Some? ==> TypeName(k.value) == path
  {
    if path == TypeName(AccessListTxKind) then Some(AccessListTxKind)
    else if path == TypeName(MsgEthereumTxKind) then Some(MsgEthereumTxKind)
    else if path == TypeName(ExtensionOptionsEthereumTxKind) then Some(ExtensionOptionsEthereumTxKind)
    else None
  }

  /** @evmos/proto's MessageGenerated: a message with its type path. */
  datatype MessageGenerated = MessageGenerated(message: Message, path: string)

  /** `toMessageGenerated` (src/test-batch.ts:130-135): the path it attaches is
      the name the receiving chain resolves back to the message's own kind. */
  function ToMessageGenerated(m: Message): (g: MessageGenerated)
    ensures g.message == m
    ensures LookupTypeName(g.path) == Some(KindOf(m))
  {
    MessageGenerated(m, TypeName(KindOf(m)))
  }

  /** `createAnyMessage`: packs a message under its path. The receiver accepts
      the packed message, as itself, exactly when the path resolves to the
      message's own kind. */
  function CreateAnyMessage(g: MessageGenerated): (a: Any)
    ensures UnpackAny(a).Some? <==> LookupTypeName(g.path) == Some(KindOf(g.message))
    ensures UnpackAny(a).Some? ==> UnpackAny(a).value == g.message
  {
    Any(g.path, g.message)
  }

  /** What the receiving chain does with an `Any`: resolve the path and accept
      the payload only as a message of that kind. */
  function UnpackAny(a: Any): (r: Option<Message>)
    ensures r.Some? ==> r.value == a.message && TypeName(KindOf(a.message)) == a.typePath
  {
    match LookupTypeName(a.typePath)
    case Some(k) => if k == KindOf(a.message) then Some(a.message) else None
    case None => None
  }

  /** Every message packed with its own type path is accepted as itself. */
  lemma PackThenUnpack(m: Message)
    ensures UnpackAny(CreateAnyMessage(ToMessageGenerated(m))) == Some(m)
  {
  }

  /** Packing with a path other than the message's registered name is refused. */
  lemma UnpackRejectsWrongPath(path: string, m: Message)
    requires path != TypeName(KindOf(m))
    ensures UnpackAny(Any(path, m)) == None
  {
  }

  /** cosmos.tx.v1beta1.TxBody. */
  datatype TxBody = TxBody(
    messages: seq<Any>,
    memo: string,
    timeoutHeight: nat,
    extensionOptions: seq<Any>,
    nonCriticalExtensionOptions: seq<Any>)

  /** `createBodyWithMultipleMessages`: every message packed into an `Any`, in
      order, with the given memo and no extension options yet. */
  function CreateBodyWithMultipleMessages(ms: seq<MessageGenerated>, memo: string): (b: TxBody)
    ensures |b.messages| == |ms|
    ensures forall i :: 0 <= i < |ms| ==> b.messages[i] == CreateAnyMessage(ms[i])
    ensures b.memo == memo && b.extensionOptions == [] && b.nonCriticalExtensionOptions == []
  {
    TxBody(seq(|ms|, i requires 0 <= i < |ms| => CreateAnyMessage(ms[i])), memo, 0, [], [])
  }

  /** cosmos.base.v1beta1.Coin: an amount as a decimal string. */
  datatype Coin = Coin(denom: string, amount: string)

  /** cosmos.tx.v1beta1.Fee. */
  datatype Fee = Fee(amount: seq<Coin>, gasLimit: nat)

  /** `createFee`: a single coin of the given denomination. */
  function CreateFee(amount: string, denom: string, gasLimit: nat): (f: Fee)
    ensures |f.amount| == 1 && f.amount[0].denom == denom && f.amount[0].amount == amount
    ensures f.gasLimit == gasLimit
  {
    Fee([Coin(denom, amount)], gasLimit)
  }

  /** cosmos.tx.v1beta1.SignerInfo (this core only ever builds an empty list of them). */
  datatype SignerInfo = SignerInfo(publicKey: Option<Any>, sequence: nat)

  /** cosmos.tx.v1beta1.AuthInfo. */
  datatype AuthInfo = AuthInfo(signerInfos: seq<SignerInfo>, fee: Fee)

  /** cosmos.tx.v1beta1.Tx: the envelope that is serialised and broadcast. */
  datatype Tx = Tx(body: TxBody, authInfo: AuthInfo, signatures: seq<seq<Byte>>)
}
