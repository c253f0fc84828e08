# A verified model of the node's block exchange

The repository is a small IPFS node in TypeScript. This project models the parts of it in which the
protocol lives and proves what they promise:

- **The Bitswap wire stack.** Varints over JavaScript's 32-bit integers, the nested protobuf messages of
  Bitswap 1.2.0, the length-prefixed frames, and the read loop that rebuilds messages from chunks cut
  anywhere. The DAG-PB reader shares the same layer. `Varints`, `Wire`, `Cids`, `Codec`, `CodecLaws`,
  `MessageTrees`, `MessageMeaning`, `Framing`, `FramingAsWritten`, `DagPb`.
- **The state machine of `SimpleBitswap`.** Wants and the handlers of messages (`Wants`), the stream pool
  and `_sendMessage` (`Pool`), both together with read loops and serving (`Node`, `NodeLaws`), the class
  itself with a method per stretch of code between two awaits (`Bitswap`), two such nodes joined by byte
  streams (`Exchange`, `ExchangeExample`), what its steps owe (`Duties`, `Keeping`), and the node exactly as
  the code has it (`AsWritten`).
- **The stores above it.** The LRU layer (`Cache`, `CacheDuties`, and `CacheOverlap` for calls that overlap), staged
  retrieval over the network (`NetworkStore`, `NetworkTrace` for what it asks and in which order, `Race`
  for its wants over Bitswap), both layers together (`StoreStack`), and the backup peers a node saves round
  after round (`Backup`).

## How it is modelled

Code that updates something in loops is a method with loop invariants, proved to compute a specification
function; the laws are lemmas about that function. `SimpleBitswap`, `LRUBlockstore`,
`NetworkAwareBlockstore` and the closure of `startBackupBootstrapLoop` are classes. The methods of
`SimpleBitswap` that stand for a stretch of code perform exactly a step of the machine in `Node`, or the
run of its steps that the stretch amounts to, and keep its invariant, so that the theorems about all runs
and all interleavings are theorems about the class; helpers perform a part of one. Two of them,
`OnAbortByKey` and `OnChunkAsWritten`, perform steps of the machine in `AsWritten` instead, the node with
the first two departures listed below, and keep the invariant when the step is harmless.

An object that promises, handlers or streams refer to (a deferred, a stream record, a call of
`_sendMessage`, a run of `_serveBlockOnStream`) is an entry of a sequence kept for good, and its index is
its identity. The outside world is nondeterministic: dials, sends, puts, aborts and the arrival of chunks
are steps that may come at any time, or outcomes passed as arguments. A broadcast and the `onConnect` hook
start calls of `_sendMessage` in one stretch; in the machine these are `SendStart` steps, which may fire at
any time for any peer and message, so that its runs include those of the class.

`Library` stands for SHA-256 and the CID library. `Lawful` states all that is assumed: `CID.decode` undoes
`cid.bytes` on CIDs that can be constructed, `toString` is injective, a digest has 32 bytes. Collisions are
not excluded, except for the one block of the two-node theorem, where the conclusion needs it.

Where the code departs from its evident intent, both forms are modelled and compared exactly:

- `src/bitswap.ts:320-338` slices the buffer twice when a chunk finishes a frame and leaves part of the
  next. `Framing` has the single slice, `FramingAsWritten` the double one and exactly when it matters.
  `AsWritten` has both this and the next departure in one node: `RunAgreesIff`, `TwoNodeExchangeAsWritten`.
- `src/bitswap.ts:138-141` removes the pending entry by key when an abort fires, whoever owns it by then.
  `Wants.AfterAbort` removes only its own, `Wants.DoByKey` is the machine as written;
  `RunByKeyConservesIff` says exactly which of its runs keep every want, `AbortByKeyLosesAWant` gives one
  after which a want is never settled, and `EveryRunByKeyIsSafe` keeps content-address safety for all.
- `src/blockstore-network.ts:67-68` announces that IPNI is tried when both racing stages have timed out,
  but `Promise.race` settles with the first. The model follows the code; `NetworkStore.RaceLosesIff` and
  `Race.RaceLosesIff` are the cost. Nor does losing the race stop the look-up; `GetInOrderIff` says what becomes of the order.
- `src/bitswap-codec.ts:25` builds its result with signed operators, so that values from 2^31 on read as
  negative. `ReadBack`, `BlockIdentity` and `NodeReadsBackIff` say exactly what this does.
- `src/bitswap.ts:387-389` casts the result of `blockstore.get` to bytes, while the other stores yield from
  a generator. It is taken as giving the bytes of the block.

## Model

| member | source | states |
|---|---|---|
| Varints.AppendVarint | src/bitswap-codec.ts:7-13 | pushes, behind what the caller's array holds, exactly the varint of any number, also one `>>>` truncates |
| Varints.ReadVarint | src/bitswap-codec.ts:19-30 | the value and byte count of the varint at any offset, also past the end, where the missing byte is counted |
| Varints.ReadBack | src/bitswap-codec.ts:7-30 | for every n and any suffix, what was appended reads back as ToInt32(n), as n itself below 2^31, with the exact count, at most 5 |
| Varints.ReadComplete | src/bitswap-codec.ts:19-30 | a varint of any length and redundancy is read to its last byte whatever follows |
| Varints.BitsInside | src/bitswap-codec.ts:19-30 | a read that ends inside the buffer does not depend on the bytes behind it |
| Varints.NegativeStays | src/bitswap-codec.ts:19-30 | a cut varint always counts past the end once continued, and one that reads as negative stays so |
| Varints.SixthByteWraps | src/bitswap-codec.ts:24-27 | the shift count wraps round at 32: the sixth byte of a varint lands on bit 3 |
| Varints.ReadVarintTen | src/api/dag-pb.ts:4-15 | the ten-byte reader: its value and count at any offset |
| Varints.TenBytesAtMost | src/api/dag-pb.ts:8-13 | it never counts more than ten bytes, and exactly ten when all of them carry the continuation bit |
| Varints.ReadersAgree | src/api/dag-pb.ts:4-15 | the repository's two readers give the same result on every varint of at most ten bytes |
| Wire.WriteVarintField | src/bitswap-codec.ts:35-40 | for every field number and value, the tag as 32-bit shifts compute it and the value; below field 2^28, one whole varint field |
| Wire.WriteLenField | src/bitswap-codec.ts:45-51 | for every field number and payload, tag, length and payload; below field 2^28, one whole length-delimited field |
| Wire.ConcatBytes | src/bitswap-codec.ts:56-65 | the parts in order, filling a buffer of the summed length exactly |
| Wire.TokensOfField | src/bitswap-codec.ts:109-255 | at each of the six field loops, a field before any suffix is consumed whole and the suffix is left |
| Wire.TokensOfAll | src/bitswap-codec.ts:109-255 | each field loop sees exactly the fields that were written, for every list of fields it consumes |
| Wire.TokensFit | src/bitswap-codec.ts:109-255 | for any input with non-negative lengths, all payloads together are no longer than the input |
| Codec.EncodeWantBlock | src/bitswap-codec.ts:70-82 | the want message of a CID, byte for byte |
| Codec.EncodeBlock | src/bitswap-codec.ts:87-99 | the block message of a CID and its data, byte for byte |
| Codec.DecodeWantEntry | src/bitswap-codec.ts:183-222 | ends, and yields what the tokens of the entry mean, on every input without a negative length |
| Codec.DecodeWantlist | src/bitswap-codec.ts:148-178 | ends, and pushes the CIDs of the live block wants behind those already there, on every input without a negative length |
| Codec.DecodePayloadBlock | src/bitswap-codec.ts:227-255 | ends, and yields the last prefix and data or no block when either is missing, on every input without a negative length |
| Codec.DecodeMessage | src/bitswap-codec.ts:109-143 | ends, and yields wants and blocks in the order of the fields, on every input without a negative length |
| Codec.PrefixToCid | src/bitswap-codec.ts:260-274 | any CID rebuilt from a received block names that block's data, whatever the prefix says |
| Codec.ReadPrefix | src/bitswap-codec.ts:260-274 | the three varints of the prefix and the digest of the data give the CID, none for another hash |
| CodecLaws.LastFieldWins | src/bitswap-codec.ts:183-222 | in an entry the last block, cancel and wantType field decide, wherever they stand |
| MessageMeaning.MessageMeans | src/bitswap-codec.ts:109-255 | a whole message, fields in any order and unknown ones among them, yields in order exactly the CIDs of entries whose last cancel and wantType are zero and exactly the blocks of payloads with prefix and data |
| MessageMeaning.OnlyLiveEntries | src/bitswap-codec.ts:164-170 | a wantlist of any entries for any CIDs yields exactly those whose last wantType is 0 and last cancel 0: cancels and want-haves are not wants |
| MessageMeaning.OtherWireTypes | src/bitswap-codec.ts:136-139 | at a tag of any wire type but 0 and 2 the top level and both DAG-PB loops stop, and the other three go on right behind it |
| MessageMeaning.CutPayload | src/bitswap-codec.ts:125-126 | a message cut inside a payload yields the part of the payload that is there |
| MessageMeaning.WantLayout | src/bitswap-codec.ts:70-82 | the want message, byte for byte, as the Bitswap 1.2.0 wire format has it |
| MessageMeaning.BlockLayout | src/bitswap-codec.ts:87-99 | the block message, byte for byte, the prefix being version, codec, hash code and digest length |
| MessageMeaning.PrefixMeans | src/bitswap-codec.ts:260-274 | of any version, codec and hash in a prefix, only SHA-256 gives a CID and only version 0 one of version 0 |
| CodecLaws.ForwardCompatible | src/bitswap-codec.ts:109-255 | at each of the four levels by itself, any number of unknown fields the loop consumes, anywhere, change nothing |
| MessageTrees.UnknownFieldsChangeNothing | src/bitswap-codec.ts:109-255 | a whole message with unknown fields among its own fields, in wantlists, entries and payloads at once, of the kinds the loop there consumes or passes over, lengths re-encoded around them, decodes to what it does without them |
| MessageTrees.PassedOverIff | src/bitswap-codec.ts:232-252 | a varint field of a payload is passed over, whatever follows it, if and only if its value is not 2 modulo 8 |
| MessageTrees.PayloadVarintLosesBlock | src/bitswap-codec.ts:232-252 | the harm otherwise: a varint of value 10 behind any block empties its prefix, and the block is lost |
| MessageTrees.WantlistReadsOn | src/bitswap-codec.ts:150-177 | the length and bytes of a length-delimited wantlist field other than 1 are read as further fields |
| MessageTrees.NewerWantIsUnderstood | src/bitswap-codec.ts:70-143 | whatever such fields a newer peer adds to the want message of a CID, exactly that CID is asked for |
| CodecLaws.StopsAtVarint | src/bitswap-codec.ts:136-139 | a varint field at the top level ends the message: nothing behind it is decoded, all before it is |
| CodecLaws.PartReadBack | src/bitswap-codec.ts:70-143 | one encoded want or block contributes exactly itself before any suffix, well formed or not |
| CodecLaws.DecodesParts | src/bitswap-codec.ts:70-143 | decoding is a homomorphism: any list of encoded wants and blocks gives those wants and those blocks in order |
| CodecLaws.DecodedFits | src/bitswap-codec.ts:109-255 | the prefixes and data a message yields are together no longer than the message |
| CodecLaws.BlockIdentity | src/bitswap-codec.ts:87-99 | the prefix sent rebuilds the CID, version 0 or 1, if and only if its codec is below 2^31 |
| CodecLaws.LargeCodecIsLost | src/bitswap-codec.ts:87-99 | a block whose identity is lost: codec 2^31 comes back as -2^31 |
| CodecLaws.BlockSurvivesTheWire | src/bitswap-codec.ts:87-143 | a block message decodes to its one block and that block rebuilds its CID |
| CodecLaws.WantSurvivesTheWire | src/bitswap-codec.ts:70-143 | a want message decodes to its one CID and nothing else |
| Framing.EncodeWithLengthPrefix | src/bitswap-codec.ts:279-284 | the frame of a message |
| Framing.TakeMessages | src/bitswap.ts:311-331 | on a buffer without a negative length, one pass takes every whole message and stops at the first byte of the partial one |
| Framing.ReadLoop | src/bitswap.ts:300-339 | the loop over chunks with one slice each, up to a negative length |
| Framing.FrameIsComplete | src/bitswap.ts:317-328 | a frame followed by any bytes is taken with exactly its own extent |
| Framing.CutFrameIsIncomplete | src/bitswap.ts:317-324 | every non-empty strict prefix of a frame waits for more, also one cut inside its length |
| Framing.SplitExtends | src/bitswap.ts:302-339 | bytes that arrive later continue exactly where the pass over the earlier ones stopped |
| Framing.ChunkInvariance | src/bitswap.ts:302-339 | for every byte stream and every way to cut it, the loop delivers and keeps what one pass over the whole would |
| Framing.MessagesSurviveChunking | src/bitswap.ts:302-339 | framed, concatenated and cut anywhere, messages below 2^31 bytes arrive whole, in order, with an empty buffer left |
| FramingAsWritten.ReadChunkTwice | src/bitswap.ts:312-338 | as written, a pass that consumes k bytes and leaves r keeps max(0, r-k), all of them when k is 0 |
| FramingAsWritten.ReadLoopTwice | src/bitswap.ts:300-339 | the loop over chunks as written |
| FramingAsWritten.SameWithoutLoss | src/bitswap.ts:312-338 | on any stream, the loop as written is the intended one unless some pass both consumes a frame and leaves part of the next |
| FramingAsWritten.VarintShortest | src/bitswap-codec.ts:7-30 | no sequence of bytes that reads as a length is shorter than the one written for it |
| Framing.SplitOfPrefix | src/bitswap.ts:312-331 | a pass over any prefix of a stream of frames takes exactly the frames that are whole in it |
| FramingAsWritten.AsWrittenDeliversIff | src/bitswap.ts:302-339 | the loop as written delivers a stream whole if and only if no chunk both finishes a frame and leaves part of the next |
| FramingAsWritten.TwoMessagesAreLost | src/bitswap.ts:320-338 | for any two messages, the second not empty, two chunks that the loop as written does not deliver |
| DagPb.DecodeLink | src/api/dag-pb.ts:56-83 | ends, and yields the last hash, name and size, on every input without a negative length |
| DagPb.DecodeDagPB | src/api/dag-pb.ts:28-93 | ends, and yields the links in order and the last data, on every input without a negative length |
| DagPb.ReadsItems | src/api/dag-pb.ts:28-93 | wherever data and unknown fields stand among the links, the block reads as its links in order and its last data |
| DagPb.LinkMeans | src/api/dag-pb.ts:56-83 | a link of any fields in any order, unknown ones among them, shows its last hash, name and size |
| DagPb.NodeReadsBackIff | src/api/dag-pb.ts:28-93 | a serialised node with sizes of up to 64 bits, data first or last, reads back as itself if and only if all sizes are below 2^31 |
| DagPb.SizeShownIff | src/api/dag-pb.ts:4-15 | a 64-bit size is shown as it is if and only if it is below 2^31 |
| DagPb.SizeShowsNegative | src/api/dag-pb.ts:28-93 | a node that does not read back: a link of 2^31 bytes shows -2^31 |
| Wants.StepKeeps | src/bitswap.ts:110-147 | each step keeps pending entries, handlers and settled promises consistent |
| Wants.EveryRunIsSafe | src/bitswap.ts:110-371 | over every interleaving: each value a want resolves with and each pair put hashes to its CID's digest, and each deferred is in exactly one place |
| Wants.StepKeepsStore | src/bitswap.ts:355-371 | what a node puts never makes its store dishonest about a SHA-256 CID |
| Wants.EveryRunByKeyIsSafe | src/bitswap.ts:110-371 | over every run of the code as written, each value a want resolves with and each pair put hashes to its CID's digest |
| Wants.AbortByKeyConservesIff | src/bitswap.ts:138-141 | one abort by key keeps every want in a place if and only if no newer want owns the key |
| Wants.RunByKeyConservesIff | src/bitswap.ts:110-147 | over all runs of the code as written, every want has its place at every step if and only if no abort fires while a newer want owns its key |
| Wants.LostForever | src/bitswap.ts:110-147 | a want that is in no place stays unsettled through any run of the code as written without its own abort, stops included |
| Wants.AbortByKeyLosesAWant | src/bitswap.ts:138-141 | a run of the code as written, for any data, that ends with such a want, whatever follows |
| Wants.AnsweringThroughout | src/bitswap.ts:122-147 | a live want keeps its answer on the way through every run without its abort and without a stop |
| Wants.AnsweredWhenRead | src/bitswap.ts:355-371 | when a handler that had the block is through and no put for the want is awaited, the want is resolved |
| Pool.StepKeeps | src/bitswap.ts:185-294 | each step keeps the pool free of closed streams and every call within its dials and sends |
| Pool.EveryRunIsDisciplined | src/bitswap.ts:185-294 | over all runs: no pooled stream is closed, at most two dials a call, one send of its framed message exactly when it returned, none when it threw |
| Pool.InboundNeverDisplaces | src/bitswap.ts:240-254 | over every run, a pooled outbound stream gives way to no inbound one until the peer has been without a pooled stream |
| Pool.CleanupIsLocal | src/bitswap.ts:401-421 | cleaning up one peer leaves every other peer's stream pooled and open |
| Duties.DialsIff | src/bitswap.ts:185-199 | a call begins with a dial if and only if its peer has no open pooled stream |
| Duties.ReusesOpenStream | src/bitswap.ts:190-194 | with an open pooled stream, the message goes out framed and once on exactly that stream, without a dial or a new stream, whatever happens before the call resumes |
| Duties.DialledStreamCarries | src/bitswap.ts:204-222 | a dial that succeeds opens, pools and reads one outbound stream, and the call's message goes out on it |
| Duties.FirstFailureRetries | src/bitswap.ts:271-283 | a first failure closes and drops the peer's pooled stream and dials exactly once more |
| Duties.SecondFailureThrows | src/bitswap.ts:285-292 | a second failure throws, with nothing sent and nothing else changed |
| Duties.RetryDelivers | src/bitswap.ts:263-294 | a failed send whose second dial succeeds has sent the message once, on the stream of that dial |
| Duties.DialFails | src/bitswap.ts:223-234 | a dial that fails opens nothing, and marks its peer exactly when the protocol is unsupported |
| Duties.UnsupportedIff | src/bitswap.ts:224-229 | over all runs, a peer counts as unsupported if and only if a dial found it so after the last clearing |
| Duties.InboundIsUsed | src/bitswap.ts:240-258 | an inbound stream is read, and pooled exactly when no outbound one is; the next message to the peer goes out on the pooled stream |
| Duties.EndedStreamIsDropped | src/bitswap.ts:401-421 | after a disconnection or the end of a read loop the peer's pooled stream is closed and dropped, others stay, and the next message dials |
| Duties.ClosedForGood | src/bitswap.ts:401-421 | over every run a closed stream stays closed |
| Duties.StopEndsAll | src/bitswap.ts:94-114 | after a stop nothing is pooled or pending, exactly the pooled streams are closed and exactly the pending wants rejected |
| Duties.AbortRejects | src/bitswap.ts:138-141 | an abort rejects its unsettled want for good, frees its own entry and touches no other |
| Duties.BroadcastAsks | src/bitswap.ts:152-179 | a broadcast begins exactly one call per connection to a peer not known as unsupported, in order and with multiplicity, each with the message |
| Duties.RequestsAsk | src/bitswap.ts:73-78 | on connection one call begins for each pending want, with the message that asks for its CID |
| Keeping.HashStartsPut | src/bitswap.ts:355-364 | a block that answers a pending want is put under its rebuilt CID and its want taken out, any other is passed over |
| Keeping.PutStores | src/bitswap.ts:363-369 | a put that ended well has stored the block and nothing else, a failed one nothing; the want is resolved in both cases |
| Keeping.OnlyPutsStore | src/bitswap.ts:52-431 | no other step of the node changes its store |
| Keeping.StoredForGood | src/bitswap.ts:363-369 | over all runs, what a put stored is still in the store, with data its CID names |
| Keeping.AnsweredNodeServes | src/bitswap.ts:351-396 | a node whose put for a want ended well holds the block and serves a third node that asks for it |
| Keeping.CancelsAreNotServed | src/bitswap.ts:373-379 | a message of only cancels and want-haves starts no run of _serveBlockOnStream |
| Keeping.GetServesOrSkips | src/bitswap.ts:385-396 | a read that finds the block and a send that succeeds put exactly its frame on the handler's stream, anything else sends nothing |
| Keeping.ThroughMeansReplied | src/bitswap.ts:373-379 | whenever a handler gets through its blocks it serves on the stream pooled for its peer at that moment, or not at all |
| NodeLaws.Projects | src/bitswap.ts:52-431 | a step of the node is a run of its want half and a run of its pool half, side by side |
| NodeLaws.RunGrows | src/bitswap.ts:52-431 | no run takes back a delivered message, a handler, a reply or a message sent |
| NodeLaws.RunKeeps | src/bitswap.ts:52-431 | every interleaving keeps the invariant that ties loops, handlers, serves and the wire together |
| NodeLaws.EveryNodeRunIsSafe | src/bitswap.ts:52-431 | over all runs of a node: both halves' promises, each loop delivered exactly what it received, each block served is one its CID names |
| Exchange.LoopDelivers | src/bitswap.ts:300-339 | a loop that has received any part of what was sent on a stream has delivered the messages whole in it, in order |
| Exchange.NeverSkips | src/bitswap.ts:385-396 | a stored block that one message asked for is not skipped while its own reads and sends succeed, whatever else fails |
| Exchange.WantIsAnswered | src/bitswap.ts:122-371 | a live want whose block message is delivered during a run and has been read is resolved with data its CID names, whatever else is under way |
| Exchange.RequestIsServed | src/bitswap.ts:351-396 | a delivered want message for a stored block, its own handler and serve being done, puts the frame of a block message for it on the pooled stream |
| Exchange.TwoNodeExchange | src/bitswap.ts:122-396 | A's live want is resolved with exactly B's data, at nodes that are busy and fail elsewhere, over byte streams that bring what was sent in order, cut anywhere |
| AsWritten.StepAgreesIff | src/bitswap.ts:52-431 | a step of the node as written is the intended one if and only if it is not an abort of another want's entry nor a chunk after which a pass finishes a frame and leaves part of the next |
| AsWritten.RunAgreesIff | src/bitswap.ts:52-431 | over all runs, the node as written goes through the intended node's states if and only if every step is harmless |
| AsWritten.HarmlessRunKeeps | src/bitswap.ts:52-431 | every harmless run of the node as written keeps the whole invariant |
| AsWritten.TwoNodeExchangeAsWritten | src/bitswap.ts:122-396 | the two-node exchange for the code as written, over harmless runs |
| ExchangeExample.ExchangeHappens | src/bitswap.ts:122-396 | the theorem's assumptions are met, for every CID and data, by an actual pair of runs, which begin with a want at a node with one connection |
| Bitswap.SimpleBitswap.constructor | src/bitswap.ts:52-61 | a new node is at the start of the machine, and valid |
| Bitswap.SimpleBitswap.Register | src/bitswap.ts:122-135 | registers or shares; the returned deferred is pending under the CID's key, for that CID, unsettled |
| Bitswap.SimpleBitswap.Want | src/bitswap.ts:122-147 | a new want is broadcast over every connection whose peer is not known as unsupported, a shared one is not |
| Bitswap.SimpleBitswap.BroadcastWant | src/bitswap.ts:152-179 | exactly one call of _sendMessage with the encoded want begins per such connection, in order and with multiplicity, and none for any other |
| Bitswap.SimpleBitswap.OnConnect | src/bitswap.ts:73-78 | each pending want is sent to the new peer exactly once, none to an unsupported one |
| Bitswap.SimpleBitswap.OnAbort | src/bitswap.ts:138-141 | the abort step, removing only its own entry |
| Bitswap.SimpleBitswap.OnAbortByKey | src/bitswap.ts:138-141 | the abort step as written; it keeps the invariant when the key is unowned or its own |
| Bitswap.SimpleBitswap.HandleMessage | src/bitswap.ts:351-355 | a message is decoded and its handler starts |
| Bitswap.SimpleBitswap.OnChunk | src/bitswap.ts:305-339 | the step of the machine in which a chunk without a negative length is split and its messages handled in order |
| Bitswap.SimpleBitswap.OnChunkAsWritten | src/bitswap.ts:305-339 | the same with both slices; it keeps the invariant when no pass cuts a frame |
| Bitswap.SimpleBitswap.AfterHash | src/bitswap.ts:356-364 | look-up, delete and start of the put happen in one step |
| Bitswap.SimpleBitswap.AfterPut | src/bitswap.ts:364-371 | the want is resolved whether or not the put succeeded, and the handler goes on |
| Bitswap.SimpleBitswap.ServeWants | src/bitswap.ts:374-379 | one serving run per want, on the stream pooled at that moment, none without one |
| Bitswap.SimpleBitswap.AfterGet | src/bitswap.ts:385-396 | the block read is framed and sent on the handler's stream, or silently skipped |
| Bitswap.SimpleBitswap.SendMessage | src/bitswap.ts:185-199 | a healthy pooled stream is reused, otherwise a dial begins |
| Bitswap.SimpleBitswap.AfterDial | src/bitswap.ts:204-235 | a dial that succeeds pools its stream and starts a loop; an unsupported peer is remembered |
| Bitswap.SimpleBitswap.ResumeSend | src/bitswap.ts:263-294 | frame, send and return; or clean up and dial once more; or throw |
| Bitswap.SimpleBitswap.OnInboundStream | src/bitswap.ts:240-258 | pooled unless an outbound stream is; a loop starts either way |
| Bitswap.SimpleBitswap.OnLoopEnd | src/bitswap.ts:342-344 | the loop ends and whatever stream its peer has pooled is cleaned up |
| Bitswap.SimpleBitswap.CleanupStream | src/bitswap.ts:401-421 | the peer's pooled stream is marked closed and leaves the pool |
| Bitswap.SimpleBitswap.OnDisconnect | src/bitswap.ts:79-81 | cleans up the peer's stream |
| Bitswap.SimpleBitswap.ClearUnsupportedPeers | src/bitswap.ts:427-429 | forgets the unsupported peers and nothing else |
| Bitswap.SimpleBitswap.Stop | src/bitswap.ts:94-114 | closes every pooled stream, rejects every pending want, empties both maps |
| Cache.StepRefines | src/blockstore-cache.ts:29-99 | one operation answers as the inner store alone and keeps every cached entry present and equal inside |
| Cache.CacheRefinesStore | src/blockstore-cache.ts:29-99 | so does any sequence of operations, under any evictions and inner failures, when a value is determined by its CID |
| CacheDuties.ReadsLastWrite | src/blockstore-cache.ts:29-99 | after any operations, evictions and failures, a get answers the last put that succeeded and nothing after a delete that succeeded, and has agrees |
| CacheDuties.FailuresAreReported | src/blockstore-cache.ts:29-99 | a put or delete returns normally exactly when the inner one did; a bulk put yields what went in and ends normally only after all of it |
| CacheDuties.CacheComesFirst | src/blockstore-cache.ts:44-49 | a cached block is answered from the cache whatever the inner store holds |
| CacheDuties.CacheIsFilled | src/blockstore-cache.ts:32-55 | a put and a get that missed leave their block cached, unless evicted at once |
| CacheDuties.UninterruptedGet | src/blockstore-cache.ts:41-57 | the steps of a get in a row are the get of the cached store, same cache and answer |
| CacheDuties.UninterruptedPut | src/blockstore-cache.ts:29-36 | the same of a put, failing or not |
| CacheDuties.UninterruptedDelete | src/blockstore-cache.ts:75-81 | the same of a delete, failing or not |
| Cache.PutManyCoherentIff | src/blockstore-cache.ts:95-99 | a bulk put past the cache keeps it coherent if and only if the last pair taken for each cached block brings the cached value |
| Cache.PutManyLeavesStale | src/blockstore-cache.ts:95-99 | a bulk put after which the cache answers the old value and the store has the new one |
| StoreStack.RunCoherentIff | src/index.ts:35-40 | with the LRU layer over the network store over S3, the cache agrees with S3 throughout a run if and only if each get that missed, and is kept, stored the block it fetched or yielded nothing but what S3 holds |
| CacheDuties.StackWithoutNetwork | src/index.ts:35-40 | without help from the network, the stack is the LRU layer over S3 |
| CacheDuties.StackFetches | src/index.ts:35-40 | a block that is not cached is fetched and stored as the network store does it |
| StoreStack.FetchedOnlyIntoCache | src/index.ts:35-40 | a get that does not: its put fails, and the top store has a block that S3 lacks |
| CacheOverlap.RunCoherentIff | src/blockstore-cache.ts:29-81 | over all runs of calls that overlap at their awaits, the cache is coherent at every step if and only if changes of the store find the block uncached or equal and kept entries come from calls whose block has not changed since |
| CacheOverlap.LateSetCoherentIff | src/blockstore-cache.ts:52-56 | a get that sets its entry late keeps the cache coherent if and only if the last put or delete of the block that ended in between was a put of the value read |
| CacheOverlap.WithoutDeletesCoherent | src/blockstore-cache.ts:29-81 | with content-determined values, however calls overlap, only a delete that takes effect can make the cache incoherent |
| CacheOverlap.DeletedIsAnswered | src/blockstore-cache.ts:41-81 | a run, for any block, after which a deleted block is answered |
| Cache.LRUBlockstore.Put | src/blockstore-cache.ts:29-36 | inner store first, then cache; on failure neither changes |
| Cache.LRUBlockstore.Get | src/blockstore-cache.ts:41-57 | answers as the inner store would |
| Cache.LRUBlockstore.Has | src/blockstore-cache.ts:62-70 | answers as the inner store would |
| Cache.LRUBlockstore.Delete | src/blockstore-cache.ts:75-81 | the entry leaves the cache even when the inner delete fails |
| Cache.LRUBlockstore.PutMany | src/blockstore-cache.ts:95-99 | goes past the cache, up to the pair at which the inner store fails |
| NetworkStore.DialAny | src/blockstore-network.ts:42-49 | dials addresses in order up to the first that accepts |
| NetworkTrace.DialsWhen | src/blockstore-network.ts:42-49 | an address is dialled if and only if all before it refused |
| NetworkTrace.AsksWhen | src/blockstore-network.ts:41-55 | a provider is asked if and only if all before it were asked in vain |
| NetworkTrace.IPNIWantsWhen | src/blockstore-network.ts:135-158 | an IPNI provider is wanted from if and only if all before it failed and the budget has not run out by its turn |
| NetworkStore.TryDHTRetrieval | src/blockstore-network.ts:32-60 | the first provider whose want succeeds, in the order found, and everything dialled and asked on the way |
| NetworkStore.TryIPNI | src/blockstore-network.ts:135-158 | the same over IPNI providers, within the shared budget |
| NetworkStore.NetworkAwareBlockstore.Get | src/blockstore-network.ts:86-197 | the result, the store after it and the trace of all dials, wants and fetches until it ends, those of a look-up that lost the race woven in, for any behaviour of store and network |
| NetworkStore.NetworkAwareBlockstore.Has | src/blockstore-network.ts:202-208 | true exactly for a stored block and a store that answers |
| NetworkStore.NetworkAwareBlockstore.Put | src/blockstore-network.ts:213-216 | stores the block or fails and changes nothing |
| NetworkStore.NetworkAwareBlockstore.Delete | src/blockstore-network.ts:221-223 | removes the block or fails and changes nothing |
| NetworkTrace.WeaveCovers | src/blockstore-network.ts:109-197 | every interleaving of the get's asks with those of the look-up is one that the trace can be |
| NetworkTrace.StrandsOfGet | src/blockstore-network.ts:109-197 | the get's own asks are all in the trace, and of the look-up's a prefix, all of them when it settles first |
| NetworkTrace.GetAsksInStages | src/blockstore-network.ts:86-197 | nothing is asked unless the local read is a miss; get and look-up each ask in order, provider by provider, address by address, nothing twice; IPNI and the gateway exactly when all before them brought nothing |
| NetworkTrace.GetInOrderIff | src/blockstore-network.ts:109-186 | the asks come stage by stage as a whole if and only if none of the look-up stands behind the fetch of IPNI |
| NetworkTrace.LookupOvertaken | src/blockstore-network.ts:109-186 | gets for which they do not: one address still hangs when the broadcast times out, and the next is dialled after IPNI, or after the gateway has brought the block |
| NetworkTrace.NothingAfterSuccess | src/blockstore-network.ts:109-186 | strand by strand: once something the get, or the look-up, asked has brought the block, it asks nothing more |
| NetworkTrace.YieldsTheLastAnswer | src/blockstore-network.ts:109-186 | the block yielded is the answer to the last ask of the strand that won, whatever the other asks later |
| NetworkStore.GetStoresWhatItYields | src/blockstore-network.ts:86-197 | a get changes the store only after asking the network, only at its CID, only to what it yields; it fails exactly when no stage brings a block |
| NetworkStore.BitswapIsNamed | src/blockstore-network.ts:16-26 | a value that a want resolved with in some run of Bitswap hashes to the CID's digest |
| NetworkStore.EveryGetIsNamed | src/blockstore-network.ts:86-197 | after any run of operations, all a get yields is data its CID names, given only that what wants bring came from runs of Bitswap |
| NetworkStore.FetchedIsKept | src/blockstore-network.ts:114-122 | a block fetched and stored is read locally from then on, with nothing asked of the network, through any gets and operations on other blocks |
| NetworkStore.PutIsRead | src/blockstore-network.ts:213-216 | a put that succeeded is read locally, through any operations that do not put or delete the block |
| NetworkStore.DeleteIsMiss | src/blockstore-network.ts:221-223 | after a delete that succeeded the local read is a miss, through any operations on other blocks |
| NetworkStore.OnlyItsBlock | src/blockstore-network.ts:213-223 | a put or delete that failed says so and changes nothing, one that succeeded changes no other block |
| NetworkStore.LocalReadDecides | src/blockstore-network.ts:86-104 | an error of the local read other than a miss is thrown on with nothing asked or stored, a hit is yielded, only a miss asks the network |
| NetworkStore.RaceLosesIff | src/blockstore-network.ts:109-113 | for any outcomes of the wants, the race loses a block bitswap would have had if and only if the provider look-up settles first with nothing |
| Race.FailedMeansTaken | src/blockstore-network.ts:41-55 | while the broadcast's want is unsettled, a want of the look-up can only fail when a handler had already taken the broadcast's, awaiting the put of its block |
| Race.RaceLosesIff | src/blockstore-network.ts:109-113 | with the wants those of one Bitswap, and no such put awaited, the race loses a block if and only if the look-up ends first without having found a provider |
| Race.SlowPutLosesTheRace | src/blockstore-network.ts:109-113 | the exception: a slow put, during which a want of the look-up times out before the broadcast's is resolved |
| NetworkStore.RaceLosesABlock | src/blockstore-network.ts:109-113 | such a get, for any block: it is not found although a peer has it |
| Backup.SelectPeersToSave | src/backup-bootstrap/selector.ts:16-70 | the selection for any order the shuffle gives |
| Backup.ExactCount | src/backup-bootstrap/selector.ts:35-69 | the result has min(max, filtered + distinct saved ids not among them) entries; backfilled ids are distinct and new |
| Backup.FilterKeeps | src/backup-bootstrap/selector.ts:38-42 | the filter keeps exactly the connections that are not official, as often as they occur |
| Backup.NoConnectionsNothing | src/backup-bootstrap/selector.ts:22-24 | without a connection nothing is selected |
| Backup.SavesOfficialIff | src/backup-bootstrap/index.ts:101-167 | some run saves an official bootstrap peer if and only if the initial list has one within reach of a backfill |
| Backup.CleanStartStaysClean | src/backup-bootstrap/index.ts:101-167 | from a list without official peers, no run ever saves one |
| Backup.SavesAreShort | src/backup-bootstrap/index.ts:101-144 | no run saves more than twenty entries |
| Backup.SaveFeedsNextRound | src/backup-bootstrap/index.ts:123-133 | until another save or load ends, every round selects from the list saved last, whether or not the datastore took it |
| Backup.StoredIsLoaded | src/backup-bootstrap/storage.ts:13-43 | a list the datastore took is what a later load brings, a failed load brings none |
| Backup.StopEndsRounds | src/backup-bootstrap/index.ts:101-102 | after a stop no round hands anything over |
| Backup.BackupLoop.SaveBackupPeersRound | src/backup-bootstrap/index.ts:101-129 | a round hands its selection to the datastore unless stopped |
| Backup.BackupLoop.OnSaveEnded | src/backup-bootstrap/index.ts:132-133 | the round's list feeds the next, whether or not the datastore took it |
| Backup.BackupLoop.LoadBackupPeers | src/backup-bootstrap/storage.ts:13-26 | reads the datastore's list, empty on any error |
| Backup.BackupLoop.OnLoadEnded | src/backup-bootstrap/index.ts:161-162 | the loaded list replaces the previously saved one |
| Backup.BackupLoop.StopLoop | src/backup-bootstrap/index.ts:169-176 | marks the loop stopped and keeps all lists; a round that starts later hands nothing over |

## Left out

- Lengths that read as negative, 2^31 and above: the code's offset then moves backwards and its loops need not end. The members that stop there instead are the next nine.
- Codec.DecodeWantEntry: answers `None` at a negative length.
- Codec.DecodeWantlist: answers that it failed at a negative length.
- Codec.DecodePayloadBlock: answers `None` at a negative length.
- Codec.DecodeMessage: answers `None` at a negative length, also when earlier fields were decoded.
- DagPb.DecodeLink: answers `None` at a negative length.
- DagPb.DecodeDagPB: answers `None` at a negative length.
- Framing.TakeMessages: answers that it failed at a negative length; the messages in front of it in the same buffer are returned but `Split` says nothing of them.
- Framing.ReadLoop: ends at a negative length.
- Bitswap.SimpleBitswap.OnChunk: at a negative length the loop makes no more progress, and the messages in front of it in the same chunk are not delivered.
- A wire type other than 0 and 2 below the top level: the code reads on right behind the tag, and so does the model, but forward compatibility covers only fields the loop consumes whole, and the varint fields that a payload passes over. Fields of the top level other than length-delimited end the message; length-delimited fields of a wantlist other than 1 are read on into.
- Exchange.TwoNodeExchange: states that the want is resolved once the request and its answer have arrived and been read; that a network or an event loop gets there is assumed, not proved.
- NetworkStore.EveryGetIsNamed: takes the gateway, and chunks of a local read that breaks off, as honest.
- NetworkStore.NetworkAwareBlockstore.Get: the trace ends with the get; what the look-up goes on to ask after that is not in it. In this class and in `StoreStack` operations run one after the other, and `w.stored` is the only write during a get: Bitswap's puts into the same S3 store, and other writers of it, are not modelled there.
- Race.RaceLosesIff: over Bitswap with the abort listener as intended, and for wants that the get itself makes.
- Cache.CacheRefinesStore: calls run one after the other; overlaps are the subject of `CacheOverlap`. Blocks are not empty, the inner `get` yields one chunk, and a read of the inner store does not fail for a passing reason.
- Backup.SavesOfficialIff: a save may be said to end more than once and the load to be read again, which only adds runs to those the theorem covers; the run that shows the other direction does neither.
- The insides of libp2p, the DHT, IPNI, the gateway, S3 and `lru-cache` are outcomes of steps or arguments; which entries the cache keeps is arbitrary.
- SHA-256 and the CID library are functions with the assumptions of `Library.Lawful`; a digest that fails, and what the library makes of a negative codec, are not modelled.
- `broadcastedTo`, `lastUsed`, `createdAt`, logs and metrics, which influence no result proved here.
- The same peer's two connections each get a send in a broadcast, as in the code; `broadcastedTo` is empty when a want is new.
- Stream records of inbound streams that are not pooled exist in the model and not in the code; nothing refers to them.
- `getMany`, `getAll`, `deleteMany` and `putMany` of the network store, which pass calls on.
- Puts to the block store by other parts of a node while its Bitswap runs.
- The dialling of backup peers (`bootstrapRound`) and the timers, which keep no state that matters here.
- Turning a link's name into text, and `unixFSType`, which reads two bytes.
- The HTTP API, the user interface, authentication, start-up and reprovide loops: plumbing with facts about one branch each.
