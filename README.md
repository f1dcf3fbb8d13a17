# cosmos-batch-tx: batching signed Ethereum transactions into one Cosmos `Tx`

This project models, in Dafny, the translation that `src/test-batch.ts`
performs before broadcasting: a list of signed EIP-2930 (type 1) Ethereum
transactions becomes a single Cosmos-SDK `Tx` envelope for an Ethermint-based
chain. The model has four modules:

- `Numerals` (numerals.dfy): JavaScript's `toString(radix)` of an integer
  (`ToRadix`, `IntToHex`), and the value a numeral denotes (`NumeralValue`),
  which is its partner in every round trip.
- `Hex` (hex.dfy): `hexToUint8Array` (`HexToBytes`) and `numToUint8Array`
  (`NumToBytes`). They run over a model of Node's `Buffer.from(s, 'hex')`
  (`DecodeHex`) and of `s.replace('0x', '')` (`ReplaceFirst0x`). `EncodeHex`
  renders bytes as lowercase hex, and `MinimalBytes` is a reference minimal
  big-endian encoding.
- `Proto` (proto.dfy): the protobuf messages as datatypes. `Any` is a
  (type path, message) pair over a closed variant of the three message kinds
  used here. `toMessageGenerated` is `ToMessageGenerated`. `UnpackAny` is the
  receiving node's side: it resolves a type path through the registry of
  names and accepts the payload only as that kind.
- `Batch` (batch.dfy): the per-transaction payload (`ToAccessListTx`), its
  `MsgEthereumTx` wrapper (`WrapEvmTxn`), the left-fold fee sums (`Total`),
  and `wrapEvmTxnsIntoCosmosTxn` itself (`WrapEvmTxnsIntoCosmosTxn`).

Integers are unbounded, as the source's `bigint` values are. The code
validates none of its inputs, and the model keeps that:

- An empty input list is not rejected. It yields no messages, a fee of "0"
  and a gas limit of 0 (`Batch.EmptyBatch`).
- A recovery value `v` below 27 is not rejected. `(v - 27).toString(16)`
  starts with '-', so Node's decoder stops at once and `v` becomes an empty
  byte string (`Batch.RecoveryIdCorrection`).
- `r` and `s` are not shortened to a minimal encoding. They are decoded
  digit for digit, so leading zero bytes stay (`Batch.AccessListTxBytes`).
  Only `v` goes through the minimal encoding.
- Malformed hex is not reported. Decoding stops at the first bad pair and
  drops a lone trailing digit (`Hex.DecodeHex`, `Hex.DecodeHexDropsLoneDigit`).

## Model

| member | source | states |
|---|---|---|
| `Numerals.ToRadix` | src/test-batch.ts:84-90 | `toString` of a non-negative integer is a canonical numeral (digits of the radix, no leading zero unless it is "0") whose value is the integer |
| `Numerals.IntToHex` | src/test-batch.ts:143 | `toString(16)` of a negative integer is '-' followed by the canonical hex numeral of its magnitude; of a non-negative one, the canonical numeral itself |
| `Numerals.CanonicalRoundTrip` | src/test-batch.ts:84-90 | rendering the value of any canonical numeral gives back that numeral, so the decimal strings in the payload and the fee are the only canonical renderings of their numbers |
| `Hex.DecodeHex` | src/test-batch.ts:138 | `Buffer.from(s, 'hex')` yields at most half as many bytes as there are characters; what it yields is pinned down by `Hex.DecodeHexOfDigits`, `Hex.DecodeHexStopsAtBadPair` and `Hex.DecodeHexDropsLoneDigit` |
| `Hex.DecodeHexOfDigits` | src/test-batch.ts:138 | on a string of hex digits, the decoder yields exactly half as many bytes as digits, byte i being the value of digits 2i and 2i+1 |
| `Hex.DecodeHexSnoc` | src/test-batch.ts:138 | appending one digit pair to an even run of digits appends exactly one byte |
| `Hex.EncodeThenDecode` | src/test-batch.ts:138 | decoding the lowercase hex rendering of any bytes gives the bytes back |
| `Hex.DecodeThenEncode` | src/test-batch.ts:138 | re-encoding the decoding of an even-length lowercase hex string gives back the string |
| `Hex.DecodeHexStopsAtBadPair` | src/test-batch.ts:138 | when pair k is the first pair holding a non-hex character, the decoding is that of the first k pairs alone: everything from the bad pair on is ignored, nothing is rejected |
| `Hex.HexToBytesStopsAtBadPair` | src/test-batch.ts:137-140 | "0x12zz34" decodes to the single byte 0x12 |
| `Hex.DecodeHexDropsLoneDigit` | src/test-batch.ts:138 | an odd-length string whose full pairs are all hex digits loses its last character in decoding, digit or not; for a digit string this is the loss the padding at lines 144-146 prevents |
| `Hex.HexToBytesDropsLoneCharacter` | src/test-batch.ts:137-140 | "12z" decodes to the single byte 0x12 |
| `Hex.ReplaceFirst0x` | src/test-batch.ts:138 | removing the first "0x" shortens the string by at most two characters; which two is stated by `Hex.ReplaceFirst0xAt` |
| `Hex.ReplaceFirst0xAt` | src/test-batch.ts:138 | when k is the first index at which "0x" occurs, `replace('0x', '')` cuts out exactly the two characters at k and keeps everything else in order, wherever k is |
| `Hex.HexToBytesInnerPrefix` | src/test-batch.ts:137-140 | a "0x" inside the string is removed too: "ab0xcd" decodes to [0xab, 0xcd] |
| `Hex.ReplaceFirst0xAbsent` | src/test-batch.ts:138 | a string in which "0x" does not occur is left unchanged by `replace('0x', '')` (so "1x" is kept) |
| `Hex.ReplaceFirst0xNoX` | src/test-batch.ts:138 | in particular a string without 'x', such as any rendering of a number, is left unchanged |
| `Hex.ReplaceFirst0xPrefix` | src/test-batch.ts:138 | a leading "0x" is what `replace('0x', '')` removes |
| `Hex.HexToBytes` | src/test-batch.ts:137-140 | at most half as many bytes as characters; for a "0x"-prefixed string, the decoding of what follows the prefix (round trips in `Hex.HexToBytesRoundTrip` and `Hex.HexToBytesOfEncoding`) |
| `Hex.HexToBytesRoundTrip` | src/test-batch.ts:137-140 | for an even-length lowercase hex string, with or without "0x": the same bytes, half as many as digits, and re-encoding them gives back the digits |
| `Hex.HexToBytesEmpty` | src/test-batch.ts:137-140 | "0x" decodes to no bytes |
| `Hex.HexToBytesOfEncoding` | src/test-batch.ts:137-140 | `hexToUint8Array` inverts rendering bytes as "0x"-prefixed lowercase hex |
| `Hex.PadEven` | src/test-batch.ts:144-146 | the result has even length and is the digit string with at most one '0' in front, added only when the length was odd |
| `Hex.NumToBytesDecoderInput` | src/test-batch.ts:142-148 | the string handed to the decoder always has even length; for n >= 0 it is at least two lowercase hex digits |
| `Hex.MinimalBytes` | src/test-batch.ts:142-148 | reference encoding: at least one byte, no leading zero byte unless it is the only one, big-endian value n |
| `Hex.PaddedHexIsMinimal` | src/test-batch.ts:143-147 | padding the hex digits of n to even length and decoding gives exactly the minimal big-endian bytes of n |
| `Hex.PaddedHexOfNatDecodesMinimal` | src/test-batch.ts:142-148 | for every n >= 0, the padded `toString(16)` of n decodes to the minimal big-endian encoding of n: at least one byte, with value n |
| `Hex.PaddedHexOfNegativeDecodesEmpty` | src/test-batch.ts:142-148 | for a negative number, the padded `toString(16)` decodes to no bytes (the '-' stops the decoder) |
| `Hex.NumToBytes` | src/test-batch.ts:142-148 | `numToUint8Array(n)` is the minimal big-endian encoding of n (reference `Hex.MinimalBytes`) for n >= 0, and no bytes for n < 0 |
| `Hex.NumToBytesExamples` | src/test-batch.ts:142-148 | 10 encodes as [0x0a] (padded, not rejected), 0 as [0x00], 1 as [0x01] |
| `Proto.ToMessageGenerated` | src/test-batch.ts:130-135 | keeps the message, and its path is the registered name that resolves back to the message's own kind |
| `Proto.CreateAnyMessage` | src/test-batch.ts:96 | the receiver accepts the packed message exactly when its path resolves to the message's own kind, and then accepts it as itself |
| `Proto.PackThenUnpack` | src/test-batch.ts:96 | every message packed under the path `toMessageGenerated` gives it is accepted by the receiver as itself |
| `Proto.UnpackRejectsWrongPath` | src/test-batch.ts:130-135 | a message packed under any other path is refused |
| `Proto.CreateBodyWithMultipleMessages` | src/test-batch.ts:105 | one packed `Any` per generated message, in order, memo as given, no extension options yet |
| `Proto.CreateFee` | src/test-batch.ts:116 | one coin with the given denomination and amount, and the given gas limit |
| `Batch.YParity` | src/test-batch.ts:92 | v = 27 gives parity 0, v = 28 gives 1, and the result is negative exactly when v < 27 |
| `Batch.ToAccessListTx` | src/test-batch.ts:83-95 | chain id, gas price and value are canonical decimals of the inputs' integers; nonce, gas and recipient are copied; the access list is empty; v >= 27 is sent as the minimal bytes of v - 27 and v < 27 as no bytes |
| `Batch.WrapEvmTxn` | src/test-batch.ts:96-102 | the input's hash, size 0, empty `from`, and a payload the receiver unpacks to the input's `AccessListTx` |
| `Batch.Total` | src/test-batch.ts:113-114 | the reduce sum is 0 for no inputs and bounds every term; it adds up over splits and ignores order (`Batch.TotalAppend`, `Batch.TotalPermutation`) |
| `Batch.TotalGasFee` | src/test-batch.ts:113 | the fee sum bounds every transaction's gasLimit * gasPrice |
| `Batch.TotalGasLimit` | src/test-batch.ts:114 | the gas sum bounds every transaction's gas limit |
| `Batch.ExtensionOptionsAny` | src/test-batch.ts:107-109 | the packed extension option unpacks at the receiver to the empty `ExtensionOptionsEthereumTx` |
| `Batch.WrapEvmTxnsIntoCosmosTxn` | src/test-batch.ts:81-128 | one body message per input, the single extension option, no non-critical options, the summed gas limit, no signer infos and no signatures; the rest in `Batch.BodyFollowsInputOrder`, `Batch.ExactlyOneExtensionOption` and `Batch.EnvelopeFee` |
| `Batch.BodyFollowsInputOrder` | src/test-batch.ts:82-105 | the body holds exactly one message per input; the i-th unpacks to a `MsgEthereumTx` with input i's hash, size 0, empty `from`, and a payload that unpacks to input i's `AccessListTx` |
| `Batch.ExactlyOneExtensionOption` | src/test-batch.ts:107-111 | for any inputs, exactly one extension option, which unpacks to the empty `ExtensionOptionsEthereumTx`; no non-critical options; memo "" |
| `Batch.EnvelopeFee` | src/test-batch.ts:113-127 | one "basecro" coin whose amount is the canonical decimal of the sum of gasLimit * gasPrice, gas limit the sum of gas limits, no signer infos, no signatures |
| `Batch.TotalAppend` | src/test-batch.ts:113-114 | the reduce sums add up over a split of the inputs |
| `Batch.TotalRemove` | src/test-batch.ts:113-114 | the reduce sum is one element's term plus the sum over the others |
| `Batch.TotalPermutation` | src/test-batch.ts:113-114 | the reduce sums do not depend on the order of the inputs |
| `Batch.FeeIndependentOfOrder` | src/test-batch.ts:105-116 | reordering the inputs leaves fee, gas limit and auth info unchanged, while the body messages follow the new order |
| `Batch.SwapReordersMessagesOnly` | src/test-batch.ts:105-116 | swapping two transactions with different hashes changes the message list but not the auth info |
| `Batch.FeeOfConcatenation` | src/test-batch.ts:113-114 | fee and gas limit of two concatenated batches are the sums of theirs |
| `Batch.RecoveryIdCorrection` | src/test-batch.ts:92 | v = 27 is sent as [0x00] and v = 28 as [0x01] |
| `Batch.AccessListTxBytes` | src/test-batch.ts:91-94 | for "0x"-prefixed even-length lowercase hex r, s and data, the payload holds exactly the bytes those digits spell, half as many as digits |
| `Batch.EmptyBatch` | src/test-batch.ts:81-127 | an empty input gives no messages, fee [("basecro", "0")] with gas limit 0, and still the one extension option |
| `Batch.TwoTransferBatch` | src/test-batch.ts:18-36 | two 21000-gas transfers at 4800 and 10000 gwei give gas limit 42000, a "basecro" fee of 310800000000000000, and two messages in input order |

## Left out

- `main` (src/test-batch.ts:8-79): environment loading, the provider and wallets, nonce lookup, signing, broadcasting, the HTTP call to the Cosmos RPC, and logging. All of it is I/O.
- Parsing a signed transaction, computing its hash and producing its signature belong to the ethers library. The model takes the parsed transaction as an input record.
- Missing fields are not modelled: the input record always has `gasPrice`, `to`, `signature` and `hash`. The non-null assertions (`!`) check nothing at run time. A missing `gasPrice` or `signature` makes the source throw at the `.toString()`, `.v`, `.r` or `.s` that follows (src/test-batch.ts:87, 92-94). A null `hash` is passed on into the `MsgEthereumTx` (src/test-batch.ts:100).
- `Batch.ToAccessListTx`: `to` is a `string`, so contract-creation transactions, for which ethers reports `to` as null and the source passes that null into the `AccessListTx` (src/test-batch.ts:89), are not covered.
- Binary serialisation (`toBinary()`) and base64 encoding. An `Any` holds its message value, not the message's bytes.
- The library's rendering of a type path into a type URL inside `createAnyMessage` is not modelled. The path itself is kept.
- `Batch.EnvelopeFee`: the gas limit is the exact sum. The source passes it through `Number(...)`, which rounds sums above 2^53.
- `Batch.ToAccessListTx`: the protobuf `uint64` range of `nonce` and `gas` is not enforced. Both are unbounded `nat`s.
- `Batch.RecoveryIdCorrection`: `signature.v` is a JavaScript number. Only integer values are modelled, not arbitrary doubles.
- The debug JSON path `evmTxToCosmosTxJson`, `hexToBase64` and `numToBase64` (src/test-batch.ts:150-207) is not used by the batch path.
