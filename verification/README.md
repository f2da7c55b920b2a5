# SeptemCPP, modelled and verified in Dafny

Five components of the library are modelled here with the properties they exist for:

* **Buffer search** (`BufferSearch.dfy`): the optimised Knuth-Morris-Pratt table, built in place
  while it is being read, the search that uses it, and the plain scan for a 32-bit syncword.
* **Packets** (`ServoPacket.dfy`, `ServoFraming.dfy`, `StaticPacket.dfy`): memory layout, XOR seal,
  encoder and the decoders that find a frame in a stream, for packets with a byte body and for
  packets with a fixed-size object.
* **Graphs** (`GraphKeys.dfy`, `GraphModel.dfy`, `GraphStream.dfy`, `GraphRuns.dfy`,
  `DirectedGraph.dfy`): packed edge
  keys, the directed graph, the parent index of the backward graph, and the binary serializer.
* **Task thread** (`TaskThread.dfy`): pushers, one worker and threads that stop, clear or pop, as
  interleaved atomic steps.
* **Recycle pool** (`RecyclePool.dfy`): a stack of free objects shared by many clients.

`Bytes.dfy` and `Bits.dfy` hold what they share: the XOR fold of a block, little-endian integers, and bitwise
operations in arithmetic.

Classes follow the source's classes, method by method. Each method is proved against a function on
values (`Parse` and `AfterParse` for the decoders, `WithEdge` and `Rebuilt` for the graph, `Step` for
the thread, `Taken`, `ReturnedBy` and so on for the pool), and the lemmas are about those functions and
about every sequence of steps. A (pointer, length) pair that is only read is a `seq`; what is written
in place is an array. Bytes are `bv8`; wider integers are `int` restricted to their C++ range, and
their bytes are written out.

## What was found

* `BufferBufferSyncword` stops one position early (SeptemBuffer.cpp:22). A syncword in the last four
  bytes is missed; no decoder result depends on it (`ScanMissesOnlyTheLastPosition`,
  `LastPositionDoesNotMatter`).
* The comment at SeptemBuffer.h:52 has the inequality the wrong way round: `fail[j] < j`, and the
  step bounds rest on that.
* `OnSeal` folds the old fastcode in. A sealed packet whose head carries the decoder's syncword and, when
  its uid is non-zero, the length of its body is accepted by the decoders exactly when its fastcode was 0
  before; sealing twice undoes the seal.
* `CheckIntegrity` does not test what the decoders test: it succeeds exactly when the bytes other than
  the fastcode fold to 0. After `OnSeal`, or in `AllocHeartbeat`, it
  therefore fails for all others, a heartbeat with the default
  syncword at midnight of 17 September 2019 among them.
* The static decoder ignores the announced body size; only `IsValid` and the decoder that is given the
  head look at it. `StaticParseAgrees` says exactly when the static and the dynamic decoder agree.
* `Deseriallize` restores a graph when the vertex array is emptied first. With `vector::resize`, which is
  what is built, it restores only a graph without vertices, and leaves a backward graph with its old parent
  index, which is too short for twice the vertices: `AddEdge` then accepts edges for which it indexes
  `ParentEdges` out of bounds (`ResizedIndexIsOverrun`).
* Two pairs of ids share a packed key exactly when they have the same end id and either that is negative
  or the start ids are equal too. The key of a valid edge is therefore shared with no other pair.
* A `StopThread` that comes before line 149 of SeptemThread.hpp is overwritten by the starting thread.
* `i_ThreadState` never becomes 4, although its comment lists that value.
* The pool does not check who returns what. Ownership stays exclusive, throughout a run, exactly when every
  object that comes back comes from the client that holds it at that time. That it is handed out is not
  enough: a stale second return takes it away from its next holder (`StaleReturnSharesTheObject`).

## Model

| member | source | states |
|---|---|---|
| `BufferSearch.FirstOccurrence` | Core/Algorithm/SeptemBuffer.h:59-70 | the result a search promises: the least position of the pattern, or -1 exactly when there is none |
| `BufferSearch.StrongFailUnique` | Core/Algorithm/SeptemBuffer.h:22-27 | the table entry is determined: longest border of the prefix whose next element differs, or -1 |
| `BufferSearch.FallBack` | Core/Algorithm/SeptemBuffer.h:51-54 | falling back through the half-built strong table loses no border that could still be extended |
| `BufferSearch.Advance` | Core/Algorithm/SeptemBuffer.h:40-43 | when the candidate extends, it is the longest border of the longer prefix |
| `BufferSearch.NewEntry` | Core/Algorithm/SeptemBuffer.h:43-49 | the entry written in either branch is the strong failure entry |
| `BufferSearch.BufferFailArray` | Core/Algorithm/SeptemBuffer.h:28-57 | fills the whole table with strong failure entries, in at most 2*length iterations |
| `BufferSearch.OverlapIsBorder` | Core/Algorithm/SeptemBuffer.h:88-99 | an occurrence that overlaps the matched text does so in a border of it |
| `BufferSearch.JumpSkipsNothing` | Core/Algorithm/SeptemBuffer.h:95-98 | the jump `j = Fail[j]` skips no occurrence |
| `BufferSearch.BufferBuffer` | Core/Algorithm/SeptemBuffer.h:70-107 | returns the first occurrence or -1 (always -1 for an empty pattern), in at most 2*MLength iterations |
| `BufferSearch.BufferBufferSyncword` | Core/Algorithm/SeptemBuffer.cpp:19-33 | returns the first occurrence of the word's four bytes in the buffer without its last byte: what `BufferBuffer` returns there |
| `BufferSearch.ScanMissesOnlyTheLastPosition` | Core/Algorithm/SeptemBuffer.cpp:22-32 | the scan differs from a full search exactly when the first occurrence is at the last position |
| `Bytes.XorFoldConcat` | Servo/Protocol/ServoProtocol.cpp:47-53 | the XOR of two blocks in a row is the XOR of their XORs |
| `Bytes.XorFoldDamaged` | Servo/Protocol/ServoProtocol.cpp:126-134 | a block that folds to 0 no longer does after any change to one byte |
| `Bytes.LeBytesOfValue` | Servo/Protocol/ServoProtocol.h:126-139 | little-endian bytes and value determine each other (bytes to value and back) |
| `Bytes.WordIsItsBytes` | Core/Algorithm/SeptemBuffer.cpp:25-26 | comparing a word read from memory is comparing its four bytes |
| `ServoPacket.HeadReadBack` | Servo/Protocol/ServoProtocol.h:38-59 | a head copied to 16 bytes and back is the same head |
| `ServoPacket.HeadFillsItsBytes` | Servo/Protocol/ServoProtocol.cpp:74-83 | the head is packed: any 16 bytes read as a head are that head's bytes |
| `ServoPacket.FootFillsItsBytes` | Servo/Protocol/ServoProtocol.cpp:422-431 | the same for the 8-byte foot |
| `ServoPacket.HeadIsLaidOut` | Servo/Protocol/ServoProtocol.h:37-49 | the packed head, byte by byte: syncword at 0..4, version at 4, fastcode at 5, uid at 6..8, size at 8..12, reserved at 12..16, least significant byte first, two's complement |
| `ServoPacket.FrameIsLaidOut` | Servo/Protocol/ServoProtocol.cpp:378-391 | a frame is those 16 bytes, the body if uid is non-zero, and the 8 bytes of the clock |
| `Bits.BitAndOnes` | Servo/Protocol/ServoProtocol.cpp:111-114 | masking with k ones, bit by bit, is the remainder modulo 2^k |
| `ServoPacket.SessionIsRemainder` | Servo/Protocol/ServoProtocol.cpp:111-114 | the masked `reserved` is its remainder modulo 2^22 |
| `ServoPacket.SessionIsLow22Bits` | Servo/Protocol/ServoProtocol.cpp:111-114 | nothing of the high ten bits gets into the session number |
| `ServoPacket.XorLoop` | Servo/Protocol/ServoProtocol.cpp:90-100 | the byte loop computes the XOR fold (head, foot, FastIntegrity) |
| `ServoPacket.FSNetBufferBody.MemRead` | Servo/Protocol/ServoProtocol.cpp:24-40 | succeeds iff 0 <= length <= available, then holds exactly those bytes, else keeps the old ones |
| `ServoPacket.FSNetBufferBody.XOR` | Servo/Protocol/ServoProtocol.cpp:47-53 | the XOR fold of the body |
| `ServoPacket.FSNetBufferBody.Reset` | Servo/Protocol/ServoProtocol.cpp:55-66 | empties the body |
| `ServoPacket.FSNetBufferBody.GetInt32` | Servo/Protocol/ServoProtocol.h:126-139 | succeeds iff four bytes are there, and yields the value of those four bytes in two's complement, the first the least significant |
| `ServoPacket.FSNetPacket.Construct` | Servo/Protocol/ServoProtocol.cpp:167-230 | the parsing constructor does what ReUse does to a blank packet |
| `ServoPacket.FSNetPacket.OnSeal` | Servo/Protocol/ServoProtocol.cpp:143-156 | new state: fastcode is the fold of all segments on the wire, the packet counts as valid, nothing else changes |
| `ServoPacket.FSNetPacket.CheckIntegrity` | Servo/Protocol/ServoProtocol.cpp:158-165 | verdict, and nothing else changed |
| `ServoPacket.FSNetPacket.ReUseAsHeartbeat` | Servo/Protocol/ServoProtocol.cpp:408-415 | new state: blank head, no body, the given clock, sealed |
| `ServoPacket.FSNetPacket.ReUse` | Servo/Protocol/ServoProtocol.cpp:252-315 | new state of every field and BytesRead for every buffer, failures included; the head is the 16 bytes at the syncword, offset by offset |
| `ServoPacket.FSNetPacket.ReUseWithHead` | Servo/Protocol/ServoProtocol.cpp:317-364 | the same for the decoder that is given the head |
| `ServoPacket.FSNetPacket.ReadRest` | Servo/Protocol/ServoProtocol.cpp:280-314 | the part both decoders share |
| `ServoPacket.FSNetPacket.WriteToArray` | Servo/Protocol/ServoProtocol.cpp:366-392 | the vector becomes exactly the frame, whatever it held: each field at its offset |
| `ServoFraming.FoldOfFrame` | Servo/Protocol/ServoProtocol.cpp:143-156 | the segment-wise fold is one fold over the frame, and splits into covered bytes and fastcode |
| `ServoFraming.SealClearsTotal` | Servo/Protocol/ServoProtocol.cpp:143-156 | after sealing the frame folds to the old fastcode: to 0 iff that was 0 |
| `ServoFraming.SealTwiceRestores` | Servo/Protocol/ServoProtocol.cpp:143-156 | sealing twice restores the head |
| `ServoFraming.CheckIntegrityMeans` | Servo/Protocol/ServoProtocol.cpp:158-165 | succeeds iff the bytes other than the fastcode fold to 0 |
| `ServoFraming.CheckAfterSeal` | Servo/Protocol/ServoProtocol.cpp:143-165 | OnSeal then CheckIntegrity succeeds exactly for those packets |
| `ServoFraming.HeartbeatChecksOut` | Servo/Protocol/ServoProtocol.cpp:541-550 | the check in AllocHeartbeat succeeds iff syncword and clock have the same fold |
| `ServoFraming.SealedButNotChecked` | Servo/Protocol/ServoProtocol.h:14-16 | it fails for the default syncword at a timestamp of September 2019 |
| `ServoFraming.ResyncRoundTrip` | Servo/Protocol/ServoProtocol.cpp:252-315 | behind any garbage in which no syncword starts and before any bytes, the sent packet is recovered field by field, its session number the low 22 bits of `reserved`, read to its exact end, and accepted iff its frame folds to 0 |
| `ServoFraming.SessionArrives` | Servo/Protocol/ServoProtocol.cpp:312-312 | a session number below 2^22 put into `reserved` comes out as `sid`, whatever the high ten bits are |
| `ServoFraming.SealedRoundTrip` | Servo/Protocol/ServoProtocol.cpp:143-156 | a packet sealed by OnSeal is accepted on arrival iff its fastcode was 0 before |
| `ServoFraming.HeartbeatRoundTrip` | Servo/Protocol/ServoProtocol.cpp:408-415 | a heartbeat is a 24-byte frame that is always accepted, with session 0 |
| `ServoFraming.Drain` | Servo/Protocol/ServoProtocol.cpp:252-315 | decoding behind what was read terminates on every buffer; only the last result can be a failure |
| `ServoFraming.DrainReturnsTheFrames` | Servo/Protocol/ServoProtocol.cpp:252-315 | any stream of frames, noise between them and any bytes behind them allowed, decodes to exactly those frames and then what the rest decodes to, even with syncwords in bodies |
| `ServoFraming.StreamVerdicts` | Servo/Protocol/ServoProtocol.cpp:309-310 | each frame of the stream is accepted iff it folds to 0 |
| `ServoFraming.SealedStreamVerdicts` | Servo/Protocol/ServoProtocol.cpp:143-156 | for packets sealed by OnSeal: iff their fastcode was 0 before |
| `ServoFraming.FramesAloneAreSilent` | Servo/Protocol/ServoProtocol.cpp:366-392 | a plain concatenation of frames meets the silence condition of the stream rows |
| `ServoFraming.PrefixIsRejected` | Servo/Protocol/ServoProtocol.cpp:252-302 | every strict prefix of a frame is read to its end and rejected |
| `ServoFraming.DecodedReencodes` | Servo/Protocol/ServoProtocol.cpp:252-392 | whatever a decoder reads to the end is, byte for byte, the frame of the packet it leaves |
| `ServoFraming.DecodesByBytes` | Servo/Protocol/ServoProtocol.cpp:252-315 | on every buffer, what ReUse leaves in every field, its BytesRead and its verdict, stated on the bytes of the buffer alone |
| `ServoFraming.RestDecodesByBytes` | Servo/Protocol/ServoProtocol.cpp:317-364 | the same for the decoder that is given the head |
| `ServoFraming.VerdictIsOneFold` | Servo/Protocol/ServoProtocol.cpp:276-310 | the verdict is whether the consumed frame folds to 0 |
| `ServoFraming.DamageKeepsFraming` | Servo/Protocol/ServoProtocol.cpp:252-315 | one changed byte outside syncword, uid and size moves neither start nor end of the frame |
| `ServoFraming.DamageIsDetected` | Servo/Protocol/ServoProtocol.cpp:252-315 | such a change to an accepted frame is always rejected, with the same BytesRead |
| `ServoFraming.SplitRefinesWhole` | Servo/Protocol/ServoProtocol.cpp:317-364 | head first, then the rest: same packet as in one go, BytesRead smaller by 16, failures included |
| `ServoFraming.LastPositionDoesNotMatter` | Servo/Protocol/ServoProtocol.cpp:258-275 | the position the scan omits changes no decoder result |
| `StaticPacket.TSNetPacket.Construct` | Servo/Protocol/ServoStaticProtocol.hpp:49-115 | every field it sets on every path; BytesRead is BufferSize + 1 iff parsing failed, and then session and verdict keep what memory held (but for a heartbeat cut off in its foot, which sets the session) |
| `StaticPacket.TSNetPacket.ReUse` | Servo/Protocol/ServoStaticProtocol.hpp:249-314 | new state and BytesRead for every buffer |
| `StaticPacket.TSNetPacket.ReUseWithHead` | Servo/Protocol/ServoStaticProtocol.hpp:316-372 | the same with the size check first: a head of the wrong size changes head, session and verdict only |
| `StaticPacket.TSNetPacket.Decode` | Servo/Protocol/ServoStaticProtocol.hpp:255-313 | the steps ReUse shares with the parsing constructor; a failure leaves foot and verdict, and for a body the session, as they were |
| `StaticPacket.TSNetPacket.WriteToArray` | Servo/Protocol/ServoStaticProtocol.hpp:374-406 | the vector becomes the frame of the same packet with the object as its bytes, each field at its offset |
| `StaticPacket.StaticParseAgrees` | Servo/Protocol/ServoStaticProtocol.hpp:249-314 | on every buffer the two ReUse members parse alike iff there is no whole head, or it has uid 0, or it announces the object's size, or the bytes behind it suffice for neither size |
| `StaticPacket.StaticAgreesWithDynamic` | Servo/Protocol/ServoStaticProtocol.hpp:249-314 | under that condition and for a lawful body type, they agree in every field, failures included |
| `StaticPacket.StaticSplitAgrees` | Servo/Protocol/ServoStaticProtocol.hpp:316-372 | the two decoders that are given the head parse alike iff its uid is 0, or it announces the object's size, or the bytes do not suffice for the announced size; then they agree in every field and in BytesRead |
| `StaticPacket.SizesDecideTheEnd` | Servo/Protocol/ServoStaticProtocol.hpp:286-287 | frames both read to the end have the same end iff the announced size is the object's (or there is no body) |
| `StaticPacket.StaticValidity` | Servo/Protocol/ServoStaticProtocol.hpp:227-231 | IsValid after ReUse iff the dynamic decoder accepts and the announced size fits |
| `StaticPacket.StaticSplitValidity` | Servo/Protocol/ServoStaticProtocol.hpp:334-343 | the same for the decoder that is given the head |
| `StaticPacket.StaticRoundTrip` | Servo/Protocol/StaticNetBodyBase.cpp:12-35 | an object sent behind garbage is recovered, whatever size its head announces |
| `StaticPacket.StaticDecodesByBytes` | Servo/Protocol/ServoStaticProtocol.hpp:249-314 | on every buffer, what the static ReUse does, stated on the bytes alone, with the object's size in place of the announced one |
| `StaticPacket.StaticSplitDecodesByBytes` | Servo/Protocol/ServoStaticProtocol.hpp:316-372 | the same for the decoder that is given a head of that size or one without a body |
| `GraphKeys.KeyValue` | Core/Templates/DirectedGraph.hpp:270-274 | what the bitwise key is for all int32 pairs: the sign-extended end id if negative, else (start mod 2^32) * 2^32 + end |
| `GraphKeys.KeyOfValidIds` | Core/Templates/DirectedGraph.hpp:270-274 | the bitwise key of valid ids is start * 2^32 + end |
| `GraphKeys.KeyOfNegativeIds` | Core/Templates/DirectedGraph.hpp:221-223 | a sign-extended negative id sets the top bit of the key |
| `GraphKeys.KeysCollideExactly` | Core/Templates/DirectedGraph.hpp:270-274 | two int32 pairs share a key iff they have the same end id, and that is negative or the start ids are the same |
| `GraphKeys.KeysAreExact` | Core/Templates/DirectedGraph.hpp:270-274 | no other pair of int32s has the key of a pair of valid ids |
| `GraphKeys.NegativeKeysCollide` | Core/Templates/DirectedGraph.hpp:270-274 | (0, -1) and (1, -1): a failing input, from the exact condition above |
| `GraphModel.LookupFindsTheEdge` | Core/Templates/DirectedGraph.hpp:221-229 | a key lookup answers whether the edge is there, for all int32 pairs |
| `GraphModel.VertexKeepsConsistent` | Core/Templates/BackwardGraph.hpp:60-82 | AddVertex keeps the class invariant: numbered vertices, edges under their keys, exact parent index |
| `GraphModel.EdgeKeepsConsistent` | Core/Templates/BackwardGraph.hpp:84-96 | AddEdge keeps it, parent total included, and never leaves the parent index |
| `GraphRuns.Run` | Core/Templates/BackwardGraph.hpp:60-107 | the invariant holds after every sequence, however long, of AddVertex, AddEdge, Reset and emptying Deseriallize that never has more than 2^31-1 vertices at once; vertex count and flag are what the run says |
| `GraphRuns.LoadedEdges` | Core/Templates/DirectedGraph.hpp:434-445 | after an emptying Deseriallize there are exactly the edges the stream lists that the graph can take |
| `GraphRuns.ValidEdgeMeansAdded` | Core/Templates/DirectedGraph.hpp:135-159 | in every graph reachable so, for all int32 pairs, IsValidEdge iff some AddEdge or load named that pair when both were vertices (and differed, or loops were allowed), and nothing has erased it since |
| `GraphRuns.FirstWeightStays` | Core/Templates/DirectedGraph.hpp:135-159 | in every graph reachable so, an edge has the weight of the first AddEdge or stream entry that could bring it since the last Reset or load |
| `GraphRuns.SecondEdgeIsRefused` | Core/Templates/DirectedGraph.hpp:151-152 | adding an edge between vertices that have one changes nothing, whatever its weight |
| `GraphRuns.FirstEntryCounts` | Core/Templates/DirectedGraph.hpp:440-445 | of the entries of a stream that name one edge the first counts |
| `GraphRuns.VerticesAreThoseAdded` | Core/Templates/DirectedGraph.hpp:105-132 | in every graph reachable so, the vertices are the values added since the last Reset or load, in order, numbered from 0 |
| `GraphRuns.ParentsMeanAdded` | Core/Templates/BackwardGraph.hpp:84-96 | in every backward graph reachable so, u is listed as a parent of v iff an edge from u to v was added and not erased |
| `GraphStream.EncodedLength` | Core/Templates/DirectedGraph.hpp:292-292 | the size formula is the number of bytes written |
| `GraphStream.SortedKeysAscend` | Core/Templates/DirectedGraph.hpp:199-208 | the keys come in ascending order |
| `GraphStream.StreamOfIsStreamOf` | Core/Templates/DirectedGraph.hpp:312-346 | what is written: flag, vertices, exactly the keys of the map in ascending order, and for each key its edge |
| `GraphStream.EncodedIsLaidOut` | Core/Templates/DirectedGraph.hpp:276-346 | where each of these lies: every count, index, key and id, value by value, at its offset, least significant byte first |
| `GraphStream.EdgesKeepConsistent` | Core/Templates/DirectedGraph.hpp:440-445 | adding any edges at all keeps a graph consistent |
| `GraphStream.RebuiltIsConsistent` | Core/Templates/DirectedGraph.hpp:361-446 | with the array emptied first, any stream gives a consistent graph, parent index included |
| `GraphStream.RoundTrip` | Core/Templates/DirectedGraph.hpp:386-386 | with the array emptied first, a serialized graph comes back: flag, vertices, edges, weights, parents |
| `GraphStream.ResizedRoundTrip` | Core/Templates/DirectedGraph.hpp:388-388 | with resize: n blank vertices of index 0, the originals re-indexed n..2n-1, the same flag, edges and parent index |
| `GraphStream.ResizedRoundTripExact` | Core/Templates/DirectedGraph.hpp:388-388 | that is the original graph iff it has no vertices; otherwise a backward graph's parent index no longer fits |
| `GraphStream.ResizedIndexIsOverrun` | Core/Templates/BackwardGraph.hpp:84-96 | then there is an edge that AddEdge accepts and for which it looks beyond the end of the parent index |
| `DirectedGraph.TDirectedGraph.AddVertex` | Core/Templates/BackwardGraph.hpp:60-82 | the new vertex behind the others, with their number as its index; new state, and the invariant is kept |
| `DirectedGraph.TDirectedGraph.AddEdge` | Core/Templates/BackwardGraph.hpp:84-96 | accepts iff ids are valid, there is no such edge yet and it is no forbidden loop; a refusal changes nothing, and no call changes an edge that is there; new state; the invariant is kept |
| `DirectedGraph.TDirectedGraph.AddToMap` | Core/Templates/DirectedGraph.hpp:135-159 | the base class's AddEdge |
| `DirectedGraph.TDirectedGraph.Reset` | Core/Templates/BackwardGraph.hpp:99-107 | everything is cleared but the flag |
| `DirectedGraph.TDirectedGraph.IsValidEdge` | Core/Templates/DirectedGraph.hpp:221-229 | answers whether the edge is in the graph, for all int32 pairs |
| `DirectedGraph.TDirectedGraph.GetEdgeKeys` | Core/Templates/DirectedGraph.hpp:199-208 | all keys, ascending, and their count |
| `DirectedGraph.TDirectedGraph.Seriallize` | Core/Templates/DirectedGraph.hpp:288-348 | the buffer starts with the encoding of the graph, each record at its offset and the keys exactly those of the map in ascending order; the rest of it is untouched; with bAllocBuffer all of it is |
| `DirectedGraph.TDirectedGraph.Deseriallize` | Core/Templates/DirectedGraph.hpp:362-446 | rebuilds the graph from any stream that stands in the buffer, for both container branches |
| `DirectedGraph.CopyThroughBuffer` | Core/Templates/DirectedGraph.hpp:287-446 | Seriallize then Deseriallize (emptying branch) copies any consistent graph |
| `TaskThread.TTaskThread.PushTaskTest` | Core/Thread/SeptemThread.hpp:182-186 | first step of PushTask, the unlocked test: goes on iff bRunning |
| `TaskThread.TTaskThread.PushTaskEnqueue` | Core/Thread/SeptemThread.hpp:186-188 | second step, the locked enqueue, at the back |
| `TaskThread.TTaskThread.PopTask` | Core/Thread/SeptemThread.hpp:202-213 | takes the front, or leaves queue and out-pointer alone |
| `TaskThread.TTaskThread.PopTaskByOther` | Core/Thread/SeptemThread.hpp:202-213 | the same, called by another thread than the worker |
| `TaskThread.TTaskThread.ClearTaskQueue` | Core/Thread/SeptemThread.hpp:216-220 | takes everything out, front to back, and touches nothing else |
| `TaskThread.TTaskThread.StopThread` | Core/Thread/SeptemThread.hpp:121-124 | clears bRunning, nothing else |
| `TaskThread.TTaskThread.WorkerAdvance` | Core/Thread/SeptemThread.hpp:143-174 | the next step of ThreadRun and Run |
| `TaskThread.StepKeepsInvariant` | Core/Thread/SeptemThread.hpp:143-220 | every step keeps FIFO, exactly-once and the published state |
| `TaskThread.PushGetsIn` | Core/Thread/SeptemThread.hpp:182-188 | a push that finds the thread running gets its task to the back of the queue, whatever happens before it takes the lock; one that does not, does nothing |
| `TaskThread.OnlyPushesAreAccepted` | Core/Thread/SeptemThread.hpp:182-188 | no other step puts anything into the queue |
| `TaskThread.NothingBeforeStart` | Core/Thread/SeptemThread.hpp:143-150 | on every run, until line 149 has been executed every push is turned away |
| `TaskThread.AcceptedIsRemovedThenQueued` | Core/Thread/SeptemThread.hpp:182-220 | on every run: accepted tasks = removed tasks, then the queue |
| `TaskThread.ExecutedExactlyOnce` | Core/Thread/SeptemThread.hpp:163-174 | on every run: OnDoTask is called on the non-null tasks the worker popped, each once, in order |
| `TaskThread.StopIsBounded` | Core/Thread/SeptemThread.hpp:121-199 | stopped after line 149: at most one more OnDoTask, finished within six worker steps, and the later enqueues are, one for one, the tasks of different pushes that were past the test |
| `TaskThread.StopHoldsExactlyAfterStart` | Core/Thread/SeptemThread.hpp:121-149 | a stop keeps the thread stopped, whatever follows, iff line 149 has been executed |
| `TaskThread.QueueIsServed` | Core/Thread/SeptemThread.hpp:163-174 | undisturbed, the worker pops all n queued tasks within 4n + 3 of its steps |
| `TaskThread.PhaseOnlyRises` | Core/Thread/SeptemThread.hpp:74-81 | i_ThreadState never decreases and never exceeds 3 |
| `RecyclePool.TSharedRecyclePool.Reset` | Core/Templates/SeptemRecyclePool.hpp:50-62 | new objects on top until there are enough; the old ones stay where they are |
| `RecyclePool.TSharedRecyclePool.Resize` | Core/Templates/SeptemRecyclePool.hpp:68-89 | exactly the asked number, from the bottom of the stack |
| `RecyclePool.TSharedRecyclePool.TakeTop` | Core/Templates/SeptemRecyclePool.hpp:106-115 | the locked half of Alloc |
| `RecyclePool.TSharedRecyclePool.CreateNew` | Core/Templates/SeptemRecyclePool.hpp:116-116 | the unlocked half of Alloc |
| `RecyclePool.TSharedRecyclePool.Dealloc` | Core/Templates/SeptemRecyclePool.hpp:133-141 | pushes any non-null pointer, whoever returns it; only the caller's own claim ends |
| `RecyclePool.ResetKeepsExclusive` | Core/Templates/SeptemRecyclePool.hpp:50-62 | exclusive ownership is kept; size becomes max(old, n) |
| `RecyclePool.ResizeKeepsExclusive` | Core/Templates/SeptemRecyclePool.hpp:68-89 | exclusive ownership is kept; size becomes n |
| `RecyclePool.TakenKeepsExclusive` | Core/Templates/SeptemRecyclePool.hpp:101-117 | Alloc hands out an object nobody holds |
| `RecyclePool.ReturnedKeepsExclusive` | Core/Templates/SeptemRecyclePool.hpp:123-141 | Dealloc keeps ownership exclusive iff the client that calls it holds the object |
| `RecyclePool.RunKeepsExclusive` | Core/Templates/SeptemRecyclePool.hpp:50-141 | on every run, with anybody returning anything: ownership is exclusive throughout (no duplicates on the stack, no object in two places or claimed twice, created = free + held + dropped) iff every object comes back from its holder |
| `RecyclePool.HeldUntilGivenUp` | Core/Templates/SeptemRecyclePool.hpp:101-141 | on every run, of any length, a claim lasts until its client gives the object back or forgets it, and it is the only one if all returns are by holders |
| `RecyclePool.TwiceReturnedIsTwiceHeld` | Core/Templates/SeptemRecyclePool.hpp:133-141 | a held object returned twice is handed to the next two clients, the second while the first still has it |
| `RecyclePool.StaleReturnSharesTheObject` | Core/Templates/SeptemRecyclePool.hpp:133-141 | a failing input: a client that returns an object again after it went to another makes the pool hand it to a third |

## Left out

- Negative lengths and lengths that differ from the buffer's: a read-only buffer is a `seq`, which has one length; the decoders only pass such a length on, and the searches return -1 for a negative one.
- `BufferSearch.BufferBuffer`: the table is declared before the length guard (SeptemBuffer.h:75); here it is allocated behind it.
- `ServoPacket.FSNetBufferBody.GetInt32`: does not cover a negative index, which the source would read out of bounds, nor the overflow of `InIndex + 3` for an index within 3 of the largest int32.
- `ServoPacket.FSNetPacket.ReUseAsHeartbeat`: the clock is a parameter.
- `DirectedGraph.TDirectedGraph.Deseriallize`: requires the whole stream to be in the buffer, its counts to be non-negative and its flag byte to be 0 or 1, because the source ignores `InSize` and checks none of these; for a backward graph and the resize branch also that no edge ends at a vertex without a parent entry, which the source would index out of bounds.
- Container sizes are taken to be below 2^31.
- Vertex values, weights and static bodies are opaque values of fixed size with a copy law, alignment padding counted as part of their bytes; host byte order is fixed to little-endian, unaligned reads are plain reads.
- GetVertex and GetEdge hand out references; writing through them, and the default insert on a missing key, are not modelled.
- One class stands for the directed and the backward graph, with the dynamic type as a flag, in place of inheritance.
- `TaskThread.TTaskThread.WorkerAdvance`: Init, Destory and OnDoTask do not touch the modelled fields and return; unlocked accesses to `bRunning` are taken to be atomic and immediately visible; CreateThread is called once. DelayStopThread is StopThread followed by a join.
- `RecyclePool.TSharedRecyclePool.Resize`: n >= 0; for a negative n the source pops from an empty stack.
- Copies of a pointer that Alloc handed out count as the same client's; shared_ptr counting, mutex and pthread internals, allocation failures and leaks.
- OnStampSeal (OnSeal once the clock is read), OnDealloc, OnAlloc, GetTimestamp, ordering by timestamp, GetFloat: easy members.
- NetPacketPool, the Push and Pop half of the two protocol singletons, singletons and factory, sockets and zmq wrappers: pointer plumbing and I/O in which nothing hard is decided.
- SERVO_PROTOCOL_SIGNATURE is compiled out.
