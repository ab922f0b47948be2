# bitcointest core, modelled in Dafny

This project is a Dafny model of the deterministic core of `bitcointest`. That library drives a
regtest network of `bitcoind` nodes from JavaScript. The model has three parts.

- **The hex wire codec** (`parser.js`, `transaction.js`, `block.js`).
  - `Parser` is a cursor over a hex string. Every size is counted in hex characters, so
    `SZ_HEX32 = 8` and a header is 160 characters.
  - `Serializer` appends to an accumulated hex string.
  - The legacy transaction layout, the 80-byte block header and the block sit on top of both.
  - The pure readers `ReadText`, `ReadInt`, `ReadVarInt`, `ReadTx`, `ReadHeader` and
    `ReadBlock` take the unread text and give back the value and the rest.
  - The pure writers `IntText`, `VarIntText`, `TxText` and `BlockText` give the text that is
    appended.
  - The cursor and serializer classes are proved against these readers and writers. The
    round trips are proved on top of them.
- **Proof-of-work helpers** (`block.js`).
  - `setNonceInBuffer` and `setTimeInBuffer` work on a byte array in place.
  - `cmpbufs` compares two 32-byte digests from byte 31 downwards.
  - The `performPoW` search loop takes the double SHA-256 as a function parameter and an
    iteration bound in place of the wall-clock deadline.
- **Peer bookkeeping and small rules** (`node.js`, `net.js`, `utils.js`).
  - Each `Node` keeps a list of `"host:port"` references. `connect` and `disconnect` update
    it before the RPC.
  - `apply` runs a list of items in series and stops at the first error.
  - `BitcoinNet` allocates ports, draws star connections and cuts two groups apart.
  - Also modelled: `removeOneByValue`, the `Barrier` join and `validateScriptPubKey`.
  - Also modelled: the output rewrite of `createDoubleSpendTransaction` and the reply
    classification of `waitUntilReady`.

An RPC is an oracle, `rpc: RpcCall -> Reply`. Its answer to each call is an input to the model.

The codec is modelled as written, not as the Bitcoin standard has it.

- `nextVarInt` reads 6, 10 or 18 characters after the prefixes `fd`, `fe` and `ff`.
- `writeVarInt` hands its prefix to `write` as a number. Its decimal text `"253"`, `"254"` or
  `"255"` therefore lands in the output.
- So the exact round trips hold when every count and every script length is below `0xfd`.
  They are stated under that precondition. `HexCodec.VarIntLongMisread` proves what happens
  above it.

JavaScript numbers are modelled as unbounded integers with explicit bounds.
`writeInt32LE`'s two's-complement storage is written out as `v % 2^32`.

Three behaviours of the code are easy to misread, and the model keeps each as written.

- **The `Barrier` end callback.** A handler keeps a truthy error in `this.err`
  (`utils.js:26`). Yet the end callback fired by the handler call that brings the count to
  zero receives that call's own argument (`utils.js:27`), not `this.err`. Only `wait` passes
  the stored error on (`utils.js:32`). `Utils.EndCallbackGetsOwnError` shows the two differing
  on one run.
- **`waitUntilReady` errors.** The iteratee ends the loop with an error for a rejected login
  (`node.js:87-90`) and for any other unexpected error, which the comment at `node.js:110`
  calls "FATAL". The final callback of `async.whilst` drops that error: see Findings.
- **The `performPoW` time bump.** The time is bumped when `nonce === noncePoint`
  (`block.js:164-168`). `noncePoint` is 0 and the nonce is compared only after it has been
  incremented from 0, so the branch can never run and is not modelled.

Layout:

| file | module | models |
|---|---|---|
| `wrappers.dfy` | `Wrappers` | `Option` |
| `jstext.dfy` | `JsText` | `toString(16)`, `String(n)`, `parseInt(_, 16)`, `substr`, `substring`, `indexOf` |
| `parser.dfy` | `HexCodec` | `parser.js` |
| `transaction.dfy` | `Transactions` | `transaction.js` |
| `block.dfy` | `Blocks` | the header and block codec of `block.js` |
| `pow.dfy` | `ProofOfWork` | `setNonceInBuffer`, `setTimeInBuffer`, `cmpbufs`, `performPoW` |
| `buffer.dfy` | `HeaderBuffer` | `Buffer.from(hex, 'hex')` of a header and where the PoW stores land in it |
| `utils.dfy` | `Utils` | `removeOneByValue`, `Barrier` |
| `node.dfy` | `Nodes`, `NodeScripts` | `node.js` |
| `net.dfy` | `Net` | `net.js` |

## Model

| member | source | states |
|---|---|---|
| `JsText.ParseHex` | parser.js:37 | for a text made entirely of hex digits, `parseInt(_, 16)` is the number they denote; the model reads no other text (None) |
| `JsText.HexTextDigits` | parser.js:63 | `i.toString(16)` is at least one lower-case hex digit and denotes i |
| `JsText.Substr` | parser.js:32 | `substr(start, count)` inside the string is the count characters at start; it is never longer than count |
| `JsText.Substring` | parser.js:48 | `substring(a, b)` with a <= b <= length is exactly the characters from a up to b |
| `JsText.DecimalDigits` | net.js:28 | `String(port)` is at least one decimal digit and denotes the port |
| `JsText.DecimalInjective` | net.js:28 | distinct ports have distinct decimal texts (so distinct data directories) |
| `HexCodec.HexSwapEndian` | parser.js:7-13 | the descending two-step loop returns the byte pairs of s from last to first (a leading odd character is dropped) |
| `HexCodec.SwapPairsLength` | parser.js:7-13 | the swap keeps every whole pair: the length drops only by an odd leftover character |
| `HexCodec.SwapPairsInvolution` | parser.js:7-13 | on even-length text the swap keeps the length and applying it twice gives the text back |
| `HexCodec.SwapPairsAppend` | parser.js:7-13 | swapping a + b gives swap(b) followed by swap(a) when b has even length |
| `HexCodec.SwapPairsPair` | parser.js:7-13 | pair k of the output is pair n-1-k of the input |
| `HexCodec.SwapPairsHex` | parser.js:7-13 | swapping keeps hex text hex and lower-case text lower-case |
| `HexCodec.PaddedHexDigits` | parser.js:23-24 | zero padding followed by keeping the last width characters gives exactly width lower-case digits holding n mod 16^width |
| `HexCodec.PaddedHexUnique` | parser.js:63-64 | a lower-case digit string of the cut width is the padded text of its own value |
| `HexCodec.SwapIntEndian` | parser.js:22-26 | `swapIntEndian(sz, i)` is NaN for 0 bytes and a number for 1 to 8 bytes; for up to 6 bytes that number is below 256^sz |
| `HexCodec.SwapIntEndianInvolution` | parser.js:22-26 | for 1 to 6 bytes, where `parseInt` reads the reversed value exactly, `swapIntEndian(sz, i)` is a number below 256^sz and applying it twice gives i mod 256^sz |
| `HexCodec.SwapPaddedInvolution` | parser.js:22-26 | for padded widths up to 12 digits (values below 2^53), reversing a padded text, reading its value, padding it and reversing again restores the padded text |
| `HexCodec.ReadText` | parser.js:31-35 | `next(count)` succeeds exactly when count characters remain; it then moves past exactly count characters and an unswapped read returns them verbatim |
| `HexCodec.Parser.constructor` | parser.js:15-20 | a new parser holds s, cursor 0, its length and no storage marks |
| `HexCodec.Parser.Next` | parser.js:31-35 | the cursor advances by exactly count; the result is the clamped `substr`, byte-reversed only when hexSwap is set and count > 2; in range it agrees with `ReadText` |
| `HexCodec.ReadIntLayout` | parser.js:36-38 | `nextInt(sz)` succeeds exactly when sz hex characters remain; it consumes them and returns the value of their byte-reversed text (a little-endian read) |
| `HexCodec.Parser.NextInt` | parser.js:36-38 | the cursor method consumes what `ReadInt` consumes from the unread text and returns its value |
| `JsText.IndexOf` | parser.js:42 | `Array.indexOf` is -1 exactly for an absent value, and otherwise the first position holding it |
| `HexCodec.LongWidthIndexOf` | parser.js:42 | the width read after a prefix is `6 + 4 * [0xfd, 0xfe, 0x00, 0xff].indexOf(prefix)` |
| `HexCodec.ReadVarIntLayout` | parser.js:39-43 | a prefix below 0xfd is the value after 2 characters; prefixes 0xfd, 0xfe and 0xff then read 6, 10 and 18 characters |
| `HexCodec.Parser.NextVarInt` | parser.js:39-43 | the cursor method consumes what `ReadVarInt` consumes and returns its value |
| `HexCodec.Parser.PushStorageContext` | parser.js:44-46 | the current cursor is pushed on the mark stack |
| `HexCodec.Parser.PopStorageContext` | parser.js:47-51 | returns exactly s[mark..cursor] for the last mark and pops it; with no mark the text is s[0..cursor] (`substring(undefined, i)`) |
| `HexCodec.NestedContexts` | parser.js:44-51 | nested marks work LIFO: the inner pop gives the inner slice, the outer pop the whole slice, and the mark stack ends as it began |
| `HexCodec.Serializer.constructor` | parser.js:54-56 | a new serializer holds the empty string |
| `HexCodec.Serializer.Write` | parser.js:59-61 | appends hex, byte-reversed only when hexSwap is set and the text is longer than 2 |
| `HexCodec.Serializer.WriteInt` | parser.js:62-66 | appends the `writeInt(sz, i)` text |
| `HexCodec.IntTextLayout` | parser.js:62-66 | `writeInt(sz, i)` appends exactly sz lower-case characters whose byte reversal holds i mod 16^sz |
| `HexCodec.IntRoundTrip` | parser.js:36-66 | `nextInt(sz)` over `writeInt(sz, i)` followed by anything gives i back (i < 16^sz) and leaves what follows |
| `HexCodec.IntReencode` | parser.js:36-66 | when the value `nextInt` read from lower-case text is below 2^53, re-writing it gives back exactly the text it consumed |
| `HexCodec.Serializer.WriteVarInt` | parser.js:67-74 | appends the `writeVarInt(i)` text |
| `HexCodec.VarIntShortRoundTrip` | parser.js:39-68 | for i < 0xfd, `writeVarInt` appends exactly 2 characters and `nextVarInt` over them gives i |
| `HexCodec.VarIntLongMisread` | parser.js:39-73 | for i >= 0xfd the output is "253", "254" or "255" followed by `writeInt(4, 8 or 16, i)`, and `nextVarInt` over it reads 0x25, never i |
| `Transactions.ReadMany` | transaction.js:20-31 | a read of count items yields exactly count items |
| `Transactions.ManySnoc` | transaction.js:20-31 | one more turn of a decode loop extends the items read so far by one, in wire order |
| `Transactions.ReadInputSteps` | transaction.js:22-30 | a decoded input is: 64 hash characters verbatim, n (8, little-endian), the script length (varint), 2*length script characters verbatim, sequence (8), in that order |
| `Transactions.ReadInputParts` | transaction.js:22-30 | conversely, those five reads in sequence are a decoded input |
| `Transactions.ReadOutputSteps` | transaction.js:35-39 | a decoded output is: amount (16), the script length (varint), 2*length script characters verbatim |
| `Transactions.ReadTxSteps` | transaction.js:15-42 | a decoded transaction is: version (8), input count, that many inputs, output count, that many outputs, lockTime (8), in that order |
| `Transactions.ReadTxParts` | transaction.js:15-42 | conversely, those six reads in sequence are a decoded transaction |
| `Transactions.InputRoundTrip` | transaction.js:20-53 | an input with a 64-character hash, 32-bit n and sequence and an even script shorter than 0xfd bytes decodes back from its encoding |
| `Transactions.InputsRoundTrip` | transaction.js:19-53 | the encoded input list decodes back to the same list, whatever follows |
| `Transactions.OutputRoundTrip` | transaction.js:34-59 | an output with an amount below 2^53 and an even script shorter than 0xfd bytes decodes back from its encoding |
| `Transactions.OutputsRoundTrip` | transaction.js:33-59 | the encoded output list decodes back to the same list, whatever follows |
| `Transactions.TxRoundTrip` | transaction.js:15-62 | `decode(encode(tx)) == tx` for every transaction with counts below 0xfd and canonical inputs, outputs, version and lockTime, leaving whatever follows |
| `Transactions.TxReencode` | transaction.js:15-62 | for lower-case text whose counts and script lengths are below 0xfd and whose amounts are below 2^53: the re-encoding is no longer than what decode consumed, and `encode(decode(x))` followed by the rest is x exactly when the two lengths agree |
| `Transactions.InputReadVerbatim` | transaction.js:24-28 | decode takes the hash from characters 0..64 and the script from characters 74.. verbatim, never byte-swapped |
| `Transactions.InputTextVerbatim` | transaction.js:48-51 | encode writes the hash and the script verbatim at those same positions |
| `Transactions.Transaction.FromHex` | transaction.js:3-11 | `new Transaction(hex)` keeps hex and holds the fields decode reads from it |
| `Transactions.Transaction.FromParser` | transaction.js:4-7 | on a shared parser: the fields are those read at the cursor, the cursor ends just past the transaction, hex is exactly the text consumed, and the mark stack ends as it began |
| `Transactions.Transaction.Decode` | transaction.js:15-42 | `decode(p)` reads from p (or from a fresh parser over hex when p is null) exactly what `ReadTx` reads |
| `Transactions.Transaction.DecodeFields` | transaction.js:17-41 | the field assignments of `decode` consume what `ReadTx` consumes and store its value |
| `Transactions.DecodeInputs` | transaction.js:19-31 | the input loop reads exactly vins inputs, in wire order |
| `Transactions.DecodeInput` | transaction.js:22-30 | one turn of the input loop reads one input |
| `Transactions.DecodeOutputs` | transaction.js:33-40 | the output loop reads exactly vouts outputs, in wire order |
| `Transactions.DecodeOutput` | transaction.js:35-39 | one turn of the output loop reads one output |
| `Transactions.Transaction.Encode` | transaction.js:43-62 | with a serializer, appends the transaction text to it and returns everything accumulated; without one, returns the transaction text |
| `Transactions.Transaction.EncodeFields` | transaction.js:45-60 | the writes of `encode` append exactly the transaction text |
| `Transactions.WriteInputs` | transaction.js:47-53 | the input loop appends the inputs' texts in order |
| `Transactions.WriteInput` | transaction.js:48-52 | one input: hash, n, `scriptSig.length / 2`, script, sequence |
| `Transactions.WriteOutputs` | transaction.js:55-59 | the output loop appends the outputs' texts in order |
| `Transactions.WriteOutput` | transaction.js:56-58 | one output: amount, `scriptPubKey.length / 2`, script |
| `Transactions.EncodeDecodeRoundTrip` | transaction.js:3-62 | an object decoded from the encoding of a canonical transaction holds that transaction, and encoding it again gives the same text |
| `Blocks.ReadHeaderSteps` | block.js:15-20 | a decoded header is version, prevBlock (64 verbatim), merkleRoot (64 verbatim), timestamp, bits, nonce, in that order |
| `Blocks.ReadHeaderParts` | block.js:15-20 | conversely, those six reads in sequence are a decoded header |
| `Blocks.HeaderLayout` | block.js:15-20 | header decode consumes exactly 160 characters, with the fields at byte offsets 0, 4, 36, 68, 72 and 76 |
| `Blocks.HeaderRoundTrip` | block.js:13-31 | header encode is exactly 160 characters and decodes back to the header for 64-character hashes and 32-bit fields |
| `Blocks.HeaderReencode` | block.js:13-31 | re-encoding a header read from lower-case text gives back exactly the text consumed |
| `Blocks.BlockHeader.Empty` | block.js:7-10 | `new BlockHeader()` has empty hex and no decoded fields (zeros here) |
| `Blocks.BlockHeader.FromHex` | block.js:7-10 | `new BlockHeader(hex)` keeps hex and holds what decode reads |
| `Blocks.BlockHeader.Decode` | block.js:13-21 | `decode(p)` reads from p (or a fresh parser over hex) exactly what `ReadHeader` reads |
| `Blocks.BlockHeader.DecodeFields` | block.js:15-20 | the six field assignments consume what `ReadHeader` consumes and store its value |
| `Blocks.BlockHeader.Encode` | block.js:22-31 | appends the header text to a given serializer and returns everything accumulated, or returns the header text |
| `Blocks.BlockHeader.EncodeFields` | block.js:24-29 | the six writes append exactly the header text |
| `Blocks.ReadBlockSteps` | block.js:61-69 | a decoded block is a header, a varint count, then exactly that many transactions |
| `Blocks.ReadBlockParts` | block.js:61-69 | conversely, those reads in sequence are a decoded block |
| `Blocks.TxsRoundTrip` | block.js:64-76 | the joined texts of canonical transactions decode back to the same list |
| `Blocks.BlockRoundTrip` | block.js:61-78 | a block with a canonical header, fewer than 0xfd transactions and canonical transactions decodes back from its encoding, whatever follows |
| `Blocks.ExactBlockRoundTrip` | block.js:61-78 | such a block decodes from exactly its own encoding with nothing left over |
| `Blocks.Block.FromHex` | block.js:54-58 | `new Block(hex)` holds the decoded block; its transactions' texts joined, plus the rest, are the transaction area of hex, and they tile that area: each object's hex is exactly the text its transaction was read from |
| `Blocks.Block.Decode` | block.js:61-69 | `decode` stores what `ReadBlock` reads, and the transaction objects tile the transaction area: each one's hex is the exact slice it was read from, and it holds what was read there |
| `Blocks.DecodeTxs` | block.js:65-68 | the block loop builds exactly k transactions on the shared parser: their fields are what `ReadMany` reads, their joined texts are what the loop consumed, and each object's hex is the slice it was read from, in order |
| `Blocks.TilesJoined` | block.js:65-68 | when the objects tile a text, their fields are what `ReadMany` reads from it and their texts, one after the other, are that text up to the rest |
| `Blocks.Block.Encode` | block.js:70-78 | `encode` is the header, `writeVarInt(vtx.length)`, then each transaction's encoding |
| `Blocks.WriteTxs` | block.js:74-76 | the encode loop appends each transaction's text in order |
| `Blocks.EncodeDecodeRoundTrip` | block.js:54-78 | a block object decoded from the encoding of a canonical block holds that block, and encoding it again gives the same text |
| `ProofOfWork.LE32Value` | block.js:104 | the four bytes `writeInt32LE(v)` stores hold v mod 2^32, least significant first |
| `ProofOfWork.WriteInt32LEFacts` | block.js:103-109 | a store writes those four bytes at its offset and changes no other byte |
| `ProofOfWork.WriteTwice` | block.js:103-109 | a second store at the same offset overrides the first |
| `ProofOfWork.WritesCommute` | block.js:103-109 | stores at non-overlapping offsets (time at 68, nonce at 76) commute |
| `ProofOfWork.StoreInt32LE` | block.js:104 | the in-place store changes the array exactly as `WriteInt32LE` says |
| `ProofOfWork.SetNonceInBuffer` | block.js:103-105 | stores the nonce at byte 76 in place, nothing else changes |
| `ProofOfWork.SetTimeInBuffer` | block.js:107-109 | stores the time at byte 68 in place, nothing else changes |
| `ProofOfWork.CompareBuffers` | block.js:111-118 | the descending loop from byte 31 returns `CmpBufs` |
| `ProofOfWork.CmpFromOrder` | block.js:111-118 | the comparison is negative exactly when the first buffer's little-endian value is smaller, and zero exactly when the values are equal |
| `ProofOfWork.CmpFromMismatch` | block.js:111-118 | a non-zero result is the byte difference at the highest mismatching index, with every byte above it equal |
| `ProofOfWork.CmpBufsFacts` | block.js:111-118 | `cmpbufs(a, a) == 0`; swapping the arguments flips the sign; zero exactly when bytes 0..31 agree; negative exactly when a's 256-bit little-endian value is smaller; bytes past 31 are ignored |
| `ProofOfWork.CmpBufsTransitive` | block.js:111-118 | the comparison is transitive, strictly when either step is strict |
| `ProofOfWork.StampStart` | block.js:141-144 | before the loop the buffer holds nonce 0 and the start time |
| `ProofOfWork.Progress` | block.js:154-160 | lowest is replaced only by a strictly smaller hash, and stays the least of all hashes so far |
| `ProofOfWork.PerformPoW` | block.js:134-184 | the buffer ends stamped with the start time and the final nonce, and hash is its digest. `solved` holds exactly when the hash is below the target, and otherwise the bound was reached. Every earlier nonce's hash was not below the target. `lowest` is the least hash seen before the final nonce |
| `HeaderBuffer.BufferFields` | block.js:15-20 | the 80-byte buffer of a header text holds version, timestamp, bits and nonce as little-endian 32-bit values at bytes 0, 68, 72 and 76 |
| `HeaderBuffer.StampedHeader` | block.js:103-109 | storing a time and a nonce into a header's buffer gives the buffer of the same header with those two fields replaced (mod 2^32) |
| `Utils.LastIndexOf` | utils.js:4-5 | the backward scan stops at -1 exactly when v is absent, otherwise at an index holding v with no v after it |
| `Utils.RemoveOneByValue` | utils.js:3-8 | the backward scan splices out the last element equal to v, or leaves the list alone |
| `Utils.WithoutLastFacts` | utils.js:3-7 | an absent v leaves the list unchanged; the length drops by one exactly when v is present, and then one copy of v and nothing else goes |
| `Utils.WithoutLastOrder` | utils.js:3-6 | the other elements keep their order: those before the removed index stay in place, those after move down by one |
| `Utils.WithoutLastNoDuplicates` | utils.js:3-6 | removing from a duplicate-free list keeps it duplicate-free and leaves no v behind |
| `Utils.Barrier.constructor` | utils.js:10-12 | a new barrier has count 0, no error and no end callback |
| `Utils.Barrier.Tick` | utils.js:22-23 | `tick()` raises the count by one |
| `Utils.Barrier.Handler` | utils.js:24-28 | a handler call lowers the count by one. A truthy error overwrites the error slot and a falsy one leaves it. When the count reaches 0 with an end callback registered, that callback gets the handler's own argument |
| `Utils.Barrier.Wait` | utils.js:30-33 | `wait(cb)` registers cb and calls it at once with the stored error when the count is already 0 |
| `Utils.Barrier.Clear` | utils.js:34-37 | `clear()` drops the end callback and the error but keeps the count |
| `Utils.HandlersState` | utils.js:24-27 | after a run of handler calls the count has dropped by the run's length, the error slot holds the last truthy error (or the earlier one), and the end callback is kept |
| `Utils.FiresOnceAtEnd` | utils.js:27 | with n pending and a callback registered, n handler calls fire the callback once, at the last call, with that call's argument |
| `Utils.EndCallbackGetsOwnError` | utils.js:27 | a failing handler then a succeeding one: the stored error is the failure, yet the end callback receives no error |
| `Utils.WaitFacts` | utils.js:30-33 | `wait` keeps the count and the error, registers the callback, and fires exactly when the count is 0, with the stored error |
| `Utils.ClearSilences` | utils.js:34-37 | after `clear`, the count is kept, the error is gone and no handler call fires anything |
| `Utils.Silent` | utils.js:27 | with no end callback registered, handler calls never fire |
| `Utils.TickThenHandler` | utils.js:22-28 | a tick followed by its handler call leaves the count where it was |
| `Nodes.RefOfInjective` | node.js:174 | two nodes on the same host have the same `"host:port"` reference only when their ports are equal |
| `Nodes.ApplyAllSucceed` | node.js:146-158 | when every item succeeds, `apply` ends without error and collects one result per item |
| `Nodes.ApplyFirstError` | node.js:146-158 | a failing `apply` stopped at its first failing item k: nothing after k ran, the items before k succeeded, and only their results were collected |
| `Nodes.ApplyPreserves` | node.js:146-158 | a property every step keeps holds of the state `apply` leaves |
| `Nodes.ConnectRunFacts` | node.js:179-189 | connecting a list keeps the references duplicate-free, loses none and adds only listed ones; when every `addNode` succeeds there is no error and the references are exactly the old ones plus the listed ones |
| `Nodes.ConnectRecordsAll` | node.js:179-189 | when every `addNode` succeeds, every listed node is recorded afterwards |
| `Nodes.DisconnectRunFacts` | node.js:190-198 | disconnecting a list keeps the references duplicate-free, adds none, and removes nothing outside the dropped set; when every `disconnectNode` succeeds no listed reference remains |
| `Nodes.DisconnectDropsAll` | node.js:190-198 | when every `disconnectNode` succeeds, no listed reference is left and no new one appears |
| `Nodes.ReadyOnlyOnAnswer` | node.js:114-117 | the wait ends ready only at a reply that carried no error |
| `Nodes.ReadyAfterTransients` | node.js:80-117 | retryable failures (refused connection, -9, -10, -28) followed by a good reply end ready |
| `Nodes.ExpiresAfterTransients` | node.js:77-123 | when every reply before the deadline is retryable, the wait expires |
| `Nodes.StopIsFinal` | node.js:77-78 | once the loop has stopped, later replies change nothing |
| `Nodes.StopErrors` | node.js:82-113 | a wait that stops with an error stops with "404 unauthorized" or the unknown-error message |
| `Nodes.UnauthorizedAfterRefusal` | node.js:86-92 | the 401 message is fatal on the first connection failure only; after one refused connection it is retried until the deadline |
| `Nodes.FatalReportedAsReady` | node.js:120-126 | as written, a 401 reply and an unknown error both reach the caller as success, while the corrected report passes the error on |
| `Nodes.ReportedMeansReady` | node.js:77-126 | with the corrected report, success means some reply had no error, and any error is "timeout", "404 unauthorized" or the unknown-error message |
| `Nodes.Node.constructor` | node.js:11-22 | a new node keeps its path, data directory, host and ports, and has no connections |
| `Nodes.Node.IsConnected` | node.js:163-166 | holds exactly when node's `"host:port"` reference is in this node's connections or, with `bidirectionalCheck` set, this node's reference is in node's connections |
| `Nodes.Node.WaitUntilReady` | node.js:69-128 | the polling loop, with its flags, returns the corrected report of the replies it was given |
| `Nodes.ConnectedIn` | node.js:171-178 | the nodes `getConnected` lists come from the given nodes and are recorded in the connection list |
| `Nodes.ConnectedInMembers` | node.js:171-178 | a node is listed exactly when it is among the given nodes and its reference is recorded |
| `Nodes.Node.GetConnected` | node.js:171-178 | the loop returns the recorded nodes in input order (`ConnectedIn`) |
| `Nodes.Node.Connect` | node.js:181-188 | a recorded peer changes nothing and issues no RPC. Otherwise the reference is appended before `addNode(ref, 'onetry')` is called, whatever its reply. A duplicate-free list stays duplicate-free |
| `Nodes.Node.Disconnect` | node.js:192-197 | an unrecorded peer changes nothing and issues no RPC; otherwise the reference is removed before `disconnectNode(ref)` is called; duplicate-freedom is kept |
| `Nodes.Node.ConnectAll` | node.js:180 | `connect(array)` is `apply` over the nodes' references with the single-node step |
| `Nodes.Node.DisconnectAll` | node.js:191 | `disconnect(array)` is `apply` over the nodes' references with the single-node step |
| `NodeScripts.ValidateScriptPubKey` | node.js:254-261 | accepts exactly 50-character scripts with "76" at 0, "a9" at 2 and "88ac" at 46; too short exactly below 50 characters and too long exactly above, checked first |
| `NodeScripts.PayToPubKeyHashAccepted` | node.js:254-261 | every `76a914 <40 characters> 88ac` script is accepted |
| `NodeScripts.PushOpcodeNotChecked` | node.js:257-259 | the push byte at 4 is not checked: a script with 00 there is accepted too |
| `NodeScripts.RedirectFirst` | node.js:321-329 | the rewrite fails exactly when no output has the first script, and otherwise keeps the number of outputs |
| `NodeScripts.RedirectFirstAt` | node.js:321-328 | only the first output whose script matches is changed, and only its script; the amount and every other output stay |
| `NodeScripts.RedirectOutput` | node.js:321-328 | the in-place loop over `tx1.vout` finds a match exactly when `RedirectFirst` does, and leaves vout as `RedirectFirst` says |
| `NodeScripts.DoubleSpendCopy` | node.js:319-330 | decoding rawtx1, rewriting and encoding gives the text of the same transaction with only vout rewritten, or the not-found error and no text |
| `NodeScripts.DoubleSpendDecodes` | node.js:319-330 | for a canonical funded transaction and a short new script, the copy decodes back to itself: same version, inputs (so the same `vin[0].prevout`) and lockTime |
| `NodeScripts.RedirectKeepsCanonical` | node.js:322-327 | rewriting one script to another short script keeps the transaction canonical |
| `Net.BitcoinNet.constructor` | net.js:4-10 | a new network keeps path and prefix, starts both counters at the given ports and has no nodes |
| `Net.BitcoinNet.LaunchBatch` | net.js:25-33 | count new nodes in order, node k on port nextport + 10k and RPC port nextrpcport + 10k, data directory `${cfgprefix}/${port}`, on 127.0.0.1, appended to `nodes` and to the batch; both counters advance by 10*count |
| `Net.BitcoinNet.DistinctRefs` | net.js:28-32 | the registered nodes have pairwise distinct references |
| `Net.BitcoinNet.ConnectNodes` | net.js:47-51 | only `nodes[0]` changes, by connecting to each of `nodes[1..]` in order; when every `addNode` succeeds it is connected to all of them |
| `Net.BitcoinNet.DisconnectGroups` | net.js:52-61 | every node in A or B keeps a duplicate-free list, gains nothing and loses only references of the other group; when every `disconnectNode` succeeds no node of A is connected to a node of B in either direction |
| `Net.BitcoinNet.DisconnectFrom` | net.js:53-56 | one loop of `disconnectGroups`: each node of the group loses only the other group's references, and all of them when the disconnects succeed |
| `Net.BitcoinNet.DisconnectMember` | net.js:54-55 | `a.disconnect(a.getConnected(others))` loses only references of others, and all of them when the disconnects succeed |
| `Net.UntouchedWithoutCross` | net.js:52-61 | a node with no cross-group reference ends `disconnectGroups` with its list unchanged |

## Left out

- Process lifecycle is I/O and is not modelled: `start`, `stop`, `execFile`, `remove`/`mkdirp` and `shutdown`. `Net.BitcoinNet.LaunchBatch` models registration and port allocation only. The `node.start` series and its callback are left out.
- The RPC client (`bcrpc`) is an oracle parameter, `rpc: RpcCall -> Reply`. What a reply carries is an input. `Nodes.Node.Connect` passes the raw `addNode` info on, and `Nodes.Node.Disconnect` passes the reply's result (`deinfo`). Both appear here as the reply's result.
- `disconnectGroups` calls `disconnect` with no callback, and `apply` ends by calling `cb(err, v)` (`node.js:155`). For a non-empty list this happens once the last RPC has answered, and the undefined `cb` throws a TypeError there.
- `Net.BitcoinNet.DisconnectGroups`: when `getConnected` returns `[]`, `async.eachSeries` calls its final callback at once. The TypeError is then thrown synchronously inside the loops of `net.js:53-60`, and the remaining nodes of both loops are never visited. After `connectNodes` has drawn a star, this is the case for every node except `nodes[0]`. The model goes on past this throw and visits every node.
- `Net.BitcoinNet.DisconnectGroups` runs each node's chain of disconnect calls to completion, in order, and assumes every call completes. The asynchronous interleaving of the chains is not modelled. A node that sits in both groups runs two chains on one list in JavaScript; the model runs the second after the first.
- `Net.BitcoinNet.ConnectNodes` requires at least one node. On an empty list `nodes[0]` is undefined and `connector.connect` throws a TypeError (`net.js:50`), a path that is not modelled.
- `Nodes.Node.WaitUntilReady`: the wall-clock deadline, the `setTimeout` delays and the `timeout` argument are replaced by the finite sequence of replies that arrive before the deadline. The delays appear only as the `Retry(ms)` action of the classification step. The console messages and their print-once flags are left out.
- `createDoubleSpendTransaction` is modelled from the decoded first transaction onwards: the rewrite, the not-found error and the re-encoding. Its RPC steps are left out: `getNewAddress`, `getScriptPubKey`, `fundTransaction` and `decodeRawTransaction`. `NodeScripts.DoubleSpendCopy` requires a well-formed `rawtx1`, which the funding RPC supplies.
- `hash256` (double SHA-256 through `crypto`) is a function parameter of `ProofOfWork.PerformPoW`. The wall-clock expiry is replaced by an iteration bound, and the progress and console output are left out.
- `ProofOfWork.PerformPoW`: the `nonce === noncePoint` time bump (`block.js:164-168`) is not modelled. The nonce starts at 0 and only grows, so the branch never runs. The bound keeps the nonce within `writeInt32LE`'s signed 32-bit range.
- `ProofOfWork.SetNonceInBuffer` and `ProofOfWork.SetTimeInBuffer` require a signed 32-bit value. Node's `writeInt32LE` throws a RangeError outside that range, and that error path is not modelled.
- `HexCodec.Parser.NextInt`, `HexCodec.Parser.NextVarInt` and the decoders built on them require the text at the cursor to be well formed. On malformed or truncated text JavaScript goes on with NaN or short strings, and that garbage is not modelled. `HexCodec.Parser.Next` is total and models `substr`'s clamping.
- `HexCodec.ReadInt` treats a field containing a non-hex character as unreadable. JavaScript's `parseInt` would read its leading hex digits instead.
- `JsText.ParseHex` reads only texts made entirely of hex digits. JavaScript's `parseInt(_, 16)` also skips leading whitespace, takes a sign and a `0x` prefix, and stops at the first other character (`parseInt('1g', 16)` is 1). Every text the model's writers produce is plain hex, so no modelled decode depends on the difference.
- `Transactions.Transaction.Encode` writes the script length as `|script| / 2` rounded down. For an odd-length script JavaScript's `length / 2` is a fraction: `writeVarInt(1.5)` writes `(1.5).toString(16)`, which is `"1.8"`, so `".8"` lands in the output. The model writes `"01"` instead. Decoding only ever yields even-length scripts, so every round trip is unaffected.
- `Transactions.WriteInput` has the same gap for `scriptSig.length / 2` (`transaction.js:50`).
- `Transactions.WriteOutput` has the same gap for `scriptPubKey.length / 2` (`transaction.js:57`).
- Integers are unbounded. JavaScript numbers lose precision above 2^53, which matters for 64-bit amounts (`transaction.js:36`, `transaction.js:56`) and for 7- and 8-byte fields in general. Every lemma that states what the program itself would compute bounds its values accordingly: `decode(encode(tx))` needs amounts below 2^53 (`Transactions.CanonicalOutput`), `Transactions.TxReencode` needs decoded amounts below 2^53, `HexCodec.IntReencode` a value below 2^53, `HexCodec.SwapIntEndianInvolution` at most 6 bytes and `HexCodec.SwapPaddedInvolution` widths of at most 12 digits.
- `HexCodec.ReadInt`: the decoders read an exact value where `parseInt` on more than 13 hex digits can round it, so above 2^53 the model's value is the one intended, not the one JavaScript computes.
- `HexCodec.SwapIntEndian`: for 7 and 8 bytes the function returns the exact reversed value; JavaScript returns that value rounded to the nearest double.
- `Blocks.BlockHeader.Empty`: the fields JavaScript leaves undefined are zero here.
- `new Block()` without a hex string (an empty block object) is not modelled. `Blocks.Block.FromHex` covers the decoding constructor.
- `Utils.RemoveOneByValue` returns the new list, and the caller stores it back into `connections`. The array that `splice` or the method itself returns is not modelled, because no modelled caller uses it.
- `Parser.swapHex` is `hexSwapEndian` itself and has no separate member.
- Only the deterministic core listed above is modelled. These are out of scope:
  - `fetchFromNode` and `toBuffer` (RPC and Node's `Buffer`);
  - `DeasyncObject` and the `deasync` wrappers (thread blocking);
  - `graph.js` (console rendering);
  - `waitForNodes`, `waitForBalanceChange` and the other polling waiters (timers);
  - the RPC pass-throughs of `node.js`.
- `partition`, `merge`, `sync`, UTXO spending and funding are called from `tests.js`. The files that define them are not part of this model.

## Findings

| source | as written | input that shows it | evidently intended | confidence | as-written member | corrected member |
|---|---|---|---|---|---|---|
| node.js:120-126 | The final callback of `async.whilst` ignores the error the iteratee passed to `cb`. A fatal stop has already set `waitForBitcoind` to false, so it reaches `mcb()` as success. | A single reply `{message: 'bitcoin JSON-RPC connection rejected: 401 unauthorized'}` with no result. A reply with error code -1. | The caller receives `'404 unauthorized'` or the unknown-error message. The iteratee hands these to `cb` to end the loop (node.js:89, node.js:112), and the comment at node.js:110 calls the second one "FATAL". | not executed | `Nodes.FatalReportedAsReady` (over `Nodes.ReportedAsWritten`) | `Nodes.ReportedMeansReady` (over `Nodes.Reported`, which `Nodes.Node.WaitUntilReady` uses) |
