# Verified model of the ByeDPI and BadVPN core

This project models the parts of the repository that carry the most intricate state, and proves what they are for.

- `KavlTree.dfy`, `Kavl.dfy`: the order-statistic AVL tree of `kavl.h`, on the heap, with its 64-entry path and
  direction arrays, cached sizes and balance bytes. The tree is described as a value (`Tree`) and a position in it as
  a path back to the root (`Ctx`); `Shape` and `ShapeCtx` say that the nodes on the heap have that form.
- `Bytes.dfy`, `Mpool.dfy`, `Hosts.dfy`: the string pool built on the tree, and the host lists built on the pool.
- `Fragment.dfy`, `FragmentClock.dfy`, `FragmentStream.dfy`, `FragmentShuffle.dfy`, `FragmentCalm.dfy`: FragmentProto
  on values: wire format, exact cover, clock, in-order and out-of-order delivery. `FragmentAssembler.dfy` and
  `FragmentDisassembler.dfy` are the two sides with their slots, lists, buffers and timers; `FragmentLink.dfy` joins
  them.
- `BProto.dfy`, `BProtoWriter.dfy`, `BProtoParser.dfy`, `BProtoLink.dfy`: the writers and two-pass parsers that the
  BProto generator emits, for any schema.
- `MacTable.dfy`, `Multicast.dfy`, `GroupTable.dfy`, `FrameDecider.dfy`: the MAC index, the multicast index with its
  linked lists and the iterator over them, and the decision where a frame goes.
- `Conev.dfy`: the epoll event pool. `TlsRecord.dfy`: the in-place splitting of a TLS record.
- `Relay.dfy`, `RelayClient.dfy`: the relay bookkeeping of `client.c`; `Setup.dfy`, `SetupEndpoint.dfy`: the
  bind/connect handshake with its resets and retries, on top of the relay bookkeeping. A run there is one attempt; as
  it may start from any state of the two sides, the theorems hold again for the attempt after a retry.

Code that changes state is a class or a method over arrays and fields, tied to values by its contract; what the code
promises is proved about these values. The system's answers (a timer that fires, a bind that works, the entries that
are ready, the random secrets) are parameters. Some predicates take a last parameter `w` or `k` that only wraps the
definition (`Open` and `Close` lemmas get through it), so that methods can carry them along by name.

Where the code says something else than one may expect, the model follows the code:

- A part option of record splitting with a negative position counts from the grown size and has `5 * i` added twice
  (`TlsRecord.Offset`).
- `parse_hosts` warns about bytes that do not belong into a host name, and keeps the word nevertheless.
- The chunk count that `fragmentproto.h` computes is larger than needed for some lengths; the exact bound is
  `FragmentStream.ChunkBound`.
- A side of the handshake that has run out of bind addresses keeps the link of its last refused offer until the other
  side makes it connect or ask for a relay (`Setup.Bind`).
- For a cut that lies behind the first TLS record, `part_tls` reports success and does nothing, and the loop counts
  five bytes more (`TlsRecord.CutBehind`).
- An entry of the event pool that is paired with itself would lead `del_event` to a null pointer (`Conev.ChainOrLoop`).
- Two groups of a peer may share a signature, and then a multicast frame names that peer twice.

`dafny verify dfyconfig.toml` checks the project.

## Model

| member | source | states |
|---|---|---|
| `Bytes.ScmpAntisymmetric` | app/src/main/cpp/byedpi/mpool.c:7-13 | the key order (length first, then bytes) reverses when its arguments swap, and is zero for equal strings only |
| `Bytes.ScmpTransitive` | app/src/main/cpp/byedpi/mpool.c:7-13 | the key order is transitive, so with the row above it is a strict total order |
| `Bytes.ScmpExact` | app/src/main/cpp/byedpi/mpool.c:7-13 | a string is below another exactly if it is shorter, or as long with the less byte at the first difference |
| `Kavl.Handle.Find` | app/src/main/cpp/byedpi/kavl.h:81-95 | returns the node with the key, or null when no node has it; the count is the number of stored keys not above it |
| `Kavl.Handle.Insert` | app/src/main/cpp/byedpi/kavl.h:129-173 | with the key present: that node is returned and nothing changes; otherwise exactly x is added, in its place in the order, and order, balance bytes and size fields are right again; the count is the number of keys not above x |
| `Kavl.Handle.Erase` | app/src/main/cpp/byedpi/kavl.h:175-256 | takes out exactly the node with the key, or the least node, returns its rank, and leaves order, balance bytes and size fields right; an absent key changes nothing |
| `Kavl.InsertFrom` | app/src/main/cpp/byedpi/kavl.h:129-173 | insertion on the root pointer, with path and direction arrays of 64 entries that are never overrun while the count fits 32 bits |
| `Kavl.EraseFrom` | app/src/main/cpp/byedpi/kavl.h:175-256 | erasure on the root pointer, by key or of the first node, with the same arrays |
| `Kavl.FindSlot` | app/src/main/cpp/byedpi/kavl.h:137-152 | the search of the insertion: an equal node, or the free slot together with the deepest uneven ancestor and the recorded path below it |
| `Kavl.Grow` | app/src/main/cpp/byedpi/kavl.h:157-160 | the loops after linking: sizes along the whole path are one up and the balance bytes from the uneven ancestor on lean towards the new leaf |
| `Kavl.Rotate1` | app/src/main/cpp/byedpi/kavl.h:97-108 | the pointer version of a single rotation leaves the shape of the rotated tree, cached sizes included |
| `Kavl.Rotate2` | app/src/main/cpp/byedpi/kavl.h:109-127 | the same for the double rotation, with its three balance cases |
| `Kavl.FindErased` | app/src/main/cpp/byedpi/kavl.h:183-195 | the search of the erasure: path, directions and rank of the node with the key |
| `Kavl.FindFirst` | app/src/main/cpp/byedpi/kavl.h:196-200 | the search for the least node, down the left edge |
| `Kavl.SpliceOut` | app/src/main/cpp/byedpi/kavl.h:203-232 | the three splice cases put the right subtree, the right child or the successor in the place of the erased node, on the heap and on the recorded path |
| `Kavl.Rebalance` | app/src/main/cpp/byedpi/kavl.h:233-253 | the upward loop, also when it stops early, ends with a valid tree that lists the same nodes in the same order |
| `KavlTree.RotationKeeps` | app/src/main/cpp/byedpi/kavl.h:97-108 | a single rotation keeps the order and the set of the nodes, their number and right sizes |
| `KavlTree.DoubleRotationKeeps` | app/src/main/cpp/byedpi/kavl.h:109-127 | a double rotation keeps the order and the set of the nodes, their number and right sizes |
| `KavlTree.SingleRotation` | app/src/main/cpp/byedpi/kavl.h:97-108 | where one side is two higher, a single rotation restores balance, and its height tells whether the height of the subtree has changed |
| `KavlTree.DoubleRotation` | app/src/main/cpp/byedpi/kavl.h:109-127 | the double rotation restores balance in the other case and lowers the height by one |
| `KavlTree.InsertedBalanced` | app/src/main/cpp/byedpi/kavl.h:158-171 | repairing only the subtree of the deepest uneven ancestor balances the whole tree |
| `KavlTree.InsertedValid` | app/src/main/cpp/byedpi/kavl.h:129-173 | the tree after an insertion is valid and lists x between the keys below and above it |
| `KavlTree.SpliceBalance` | app/src/main/cpp/byedpi/kavl.h:203-232 | after a splice the tree is balanced except that one subtree on the path is one lower than its balance byte says |
| `KavlTree.ShrinkBalance` | app/src/main/cpp/byedpi/kavl.h:233-253 | one turn of the rebalancing loop either restores the old height, and stops, or passes the loss on |
| `KavlTree.ShrinkStep` | app/src/main/cpp/byedpi/kavl.h:233-253 | one turn keeps order and sizes, and stops exactly when the whole tree is balanced again |
| `KavlTree.FibBound` | app/src/main/cpp/byedpi/kavl.h:69-79 | a balanced tree of height h has at least Fib(h + 2) - 1 nodes |
| `KavlTree.HeightBound` | app/src/main/cpp/byedpi/kavl.h:69-79 | with a count that fits the 32-bit size field the height is at most 45, below the constant 64 |
| `Mpool.Pool.Get` | app/src/main/cpp/byedpi/mpool.c:28-36 | a lookup in a finite map from byte strings to elements |
| `Mpool.Pool.Add` | app/src/main/cpp/byedpi/mpool.c:39-65 | the element stored for the string, or a new one: the map changes at this key only, and not at all if it was there |
| `Mpool.Pool.Delete` | app/src/main/cpp/byedpi/mpool.c:68-84 | the key leaves the map; no other does |
| `Mpool.Pool.Destroy` | app/src/main/cpp/byedpi/mpool.c:87-101 | taking out the least element until the root is null empties the map |
| `Hosts.LowerAt` | app/src/main/cpp/byedpi/main.c:261-276 | an upper-case letter becomes lower-case in place, nothing else changes, and the result says whether the byte belongs into a host name |
| `Hosts.FoldsCase` | app/src/main/cpp/byedpi/main.c:261-276 | lower-casing takes two bytes together exactly if they are the same letter or the same byte, and leaves no upper-case letter |
| `Hosts.ParseHosts` | app/src/main/cpp/byedpi/main.c:279-308 | the pool holds exactly the maximal runs of non-separators of the text, lower-cased, and the text has been lower-cased in place |
| `Hosts.WordsExact` | app/src/main/cpp/byedpi/main.c:279-308 | the words of a list are the runs between blanks, line feeds and carriage returns, with A to Z moved to a to z, byte by byte |
| `Hosts.CheckHost` | app/src/main/cpp/byedpi/extend.c:146-167 | succeeds exactly when the host, or a non-empty part of it that starts right after a dot, is in the pool |
| `Hosts.LoadAndCheck` | app/src/main/cpp/byedpi/extend.c:146-167 | loading a list and then asking succeeds exactly when the host or such a part of it is one of the lower-cased words of the list |
| `Fragment.ParseEncoded` | app/src/main/jni/badvpn/protocol/fragmentproto.h:56-79 | a written chunk is read back whatever follows it, and reading goes on where it ended |
| `Fragment.ParseAllEncoded` | app/src/main/jni/badvpn/protocol/fragmentproto.h:36-40 | a packet of chunks parses to exactly these chunks |
| `Fragment.ChunkBytes` | app/src/main/jni/badvpn/protocol/fragmentproto.h:56-79 | the bytes of a chunk: id, start and length in two bytes each, the low one first, the last-chunk flag, the data |
| `Fragment.ProcessChunkKeeps` | app/src/main/jni/badvpn/client/FragmentProtoAssembler.c:154-283 | whatever chunk comes: ids stay unique, and every frame held has pairwise disjoint chunks inside its bounds whose lengths add up to less than its length |
| `Fragment.ChunkExact` | app/src/main/jni/badvpn/client/FragmentProtoAssembler.c:154-283 | what one chunk does, without the code's own tests: outside the largest frame nothing; otherwise its frame, or a fresh one if that is older than the number of slots, is dropped if the chunk does not agree with it, sent if all is there, dropped if its slots are used up, and else keeps the chunk at the time of the clock; the other frames stay, and the oldest goes only to make room |
| `Fragment.SumBounded` | app/src/main/jni/badvpn/client/FragmentProtoAssembler.c:239-268 | disjoint chunks inside a frame never sum to more than its length, and at equality every position is covered |
| `Fragment.ExactCover` | app/src/main/jni/badvpn/client/FragmentProtoAssembler.c:268-276 | when the sum reaches the length, each byte position was written by exactly one chunk |
| `Fragment.AssembledUnique` | app/src/main/jni/badvpn/client/FragmentProtoAssembler.c:253-276 | any buffer that agrees with each chunk on its range is the assembled frame |
| `Fragment.DeliveredExactly` | app/src/main/jni/badvpn/client/FragmentProtoAssembler.c:268-278 | a frame that is sent consists of exactly the chunks accepted for it, the last of them the current one |
| `FragmentClock.ReduceTimesExact` | app/src/main/jni/badvpn/client/FragmentProtoAssembler.c:117-152 | takes out exactly the frames older than the number of slots, keeps order, contents and age of all others, and at the end of the clock range brings the clock below it whenever a frame is left |
| `FragmentClock.SurvivorsOrder` | app/src/main/jni/badvpn/client/FragmentProtoAssembler.c:119-134 | the frames that are left stay in order |
| `FragmentClock.TickExact` | app/src/main/jni/badvpn/client/FragmentProtoAssembler.c:326-339 | the end of a packet: the clock goes on by one and nothing else changes, except at its maximum, where the frames that are too old go, the others become one older on a clock on which the oldest stands at 0, and with none left the clock is 0 |
| `FragmentClock.TickKeeps` | app/src/main/jni/badvpn/client/FragmentProtoAssembler.c:326-339 | the clock stays a 32-bit number and the invariant survives the end of a packet |
| `FragmentClock.ClockRefinesUnbounded` | app/src/main/jni/badvpn/client/FragmentProtoAssembler.c:117-152 | for every sequence of chunks and packet ends, the 32-bit clock sends the frames that a clock without bounds sends that purges at the same points |
| `FragmentAssembler.Assembler.constructor` | app/src/main/jni/badvpn/client/FragmentProtoAssembler.c:370-445 | all slots free, nothing held |
| `FragmentAssembler.Assembler.FreeFrame` | app/src/main/jni/badvpn/client/FragmentProtoAssembler.c:46-55 | the slot moves from the used to the free list and leaves the tree; the lists still partition the slots and the tree indexes exactly the used ones |
| `FragmentAssembler.Assembler.FreeOldestFrame` | app/src/main/jni/badvpn/client/FragmentProtoAssembler.c:57-68 | the least recently used frame is freed |
| `FragmentAssembler.Assembler.AllocateNewFrame` | app/src/main/jni/badvpn/client/FragmentProtoAssembler.c:70-103 | a fresh frame with the id goes to the end of the used list, the oldest making room if all are used |
| `FragmentAssembler.OverlapsAny` | app/src/main/jni/badvpn/client/FragmentProtoAssembler.c:197-204 | the loop over the chunk table finds out whether the new chunk clashes with any accepted one |
| `FragmentAssembler.CheckChunk` | app/src/main/jni/badvpn/client/FragmentProtoAssembler.c:197-226 | a chunk is accepted exactly if it fits the known length or reach of its frame and overlaps nothing |
| `FragmentAssembler.AddChunk` | app/src/main/jni/badvpn/client/FragmentProtoAssembler.c:230-254 | chunk table, buffer, sum, length and time of the slot afterwards |
| `FragmentAssembler.Assembler.ProcessChunk` | app/src/main/jni/badvpn/client/FragmentProtoAssembler.c:154-283 | slots, lists, tree and output after a chunk are those of the value model, and the result says whether a frame was sent |
| `FragmentAssembler.Assembler.DropTimedOut` | app/src/main/jni/badvpn/client/FragmentProtoAssembler.c:119-134 | the first loop of reduce_times: the survivors in order, and one with the least time |
| `FragmentAssembler.Assembler.ReduceTimes` | app/src/main/jni/badvpn/client/FragmentProtoAssembler.c:117-152 | the whole of reduce_times on slots and clock |
| `FragmentAssembler.Assembler.EndPacket` | app/src/main/jni/badvpn/client/FragmentProtoAssembler.c:326-345 | clock step at the end of a packet |
| `FragmentAssembler.Assembler.ProcessInput` | app/src/main/jni/badvpn/client/FragmentProtoAssembler.c:285-346 | the chunks of the packet up to the first that completes a frame, and where to go on |
| `FragmentAssembler.Assembler.InputHandlerSend` | app/src/main/jni/badvpn/client/FragmentProtoAssembler.c:348-360 | a packet from the lower layer, up to the first complete frame |
| `FragmentAssembler.InputIsRun` | app/src/main/jni/badvpn/client/FragmentProtoAssembler.c:285-368 | stopping at each complete frame and going on when it has been taken comes to one run over the packet |
| `FragmentAssembler.Assembler.ReceivePacket` | app/src/main/jni/badvpn/client/FragmentProtoAssembler.c:285-368 | a packet with an output that takes each frame: state and output of the run over its chunks |
| `FragmentDisassembler.Disassembler.constructor` | app/src/main/jni/badvpn/client/FragmentProtoDisassembler.c:164-199 | nothing taken, written or pending |
| `FragmentDisassembler.Disassembler.WriteLoop` | app/src/main/jni/badvpn/client/FragmentProtoDisassembler.c:48-70 | the do-while loop: chunks in order until the frame is used up or the packet is full, each as large as limits and room allow |
| `FragmentDisassembler.Disassembler.WriteChunks` | app/src/main/jni/badvpn/client/FragmentProtoDisassembler.c:39-102 | the packet under way gains chunks that cut up the frame; it is sent exactly if the latency is negative or no room for a byte of data is left, and otherwise it is kept and its timer runs; something of the frame is left over only if the packet is full; nothing sent before changes |
| `FragmentDisassembler.Disassembler.InputHandlerSend` | app/src/main/jni/badvpn/client/FragmentProtoDisassembler.c:104-120 | the frame joins the frames taken; without a packet buffer it waits and nothing is sent, and with one it is written into the packet, which is sent or kept as WriteChunks says |
| `FragmentDisassembler.Disassembler.OutputHandlerRecv` | app/src/main/jni/badvpn/client/FragmentProtoDisassembler.c:134-149 | the new buffer is kept empty when no frame waits, and otherwise the frame at hand is written on into it, and the packet is sent or kept as WriteChunks says |
| `FragmentDisassembler.Disassembler.TimerHandler` | app/src/main/jni/badvpn/client/FragmentProtoDisassembler.c:151-162 | the packet under way is what is sent next, with its chunks, and nothing else |
| `FragmentLink.SentInOrder` | app/src/main/jni/badvpn/client/FragmentProtoDisassembler.c:39-162 | whatever was called when, the packets sent hold chunks that cut up the frames in order, and all of them once nothing is held back; each chunk ends its frame, has the longest length, or fills its packet |
| `FragmentStream.SpreadIsFew` | app/src/main/jni/badvpn/protocol/fragmentproto.h:82-98 | without a chunk limit a frame of length L takes at most 1 + ceil((L - 1) / (mtu - header)) chunks, hence at most what the header computes |
| `FragmentStream.BoundsExact` | app/src/main/jni/badvpn/protocol/fragmentproto.h:82-98 | both bounds are the least numbers of chunks: all but one of them, filled, hold the frame, and for the exact one the frame but its first byte |
| `FragmentStream.FrameIdCounts` | app/src/main/jni/badvpn/client/FragmentProtoDisassembler.c:73-82 | frame ids count up from 0 and start again after 0xFFFF |
| `FragmentLink.EnoughChunks` | app/src/main/jni/badvpn/protocol/fragmentproto.h:92-98 | what the header computes is enough slots for any history of a disassembler |
| `FragmentStream.InOrderDelivers` | app/src/main/jni/badvpn/client/FragmentProtoAssembler.c:285-346 | in order and without loss the frames come out again, each with its last chunk, for any packing, id wrap-around and clock value |
| `FragmentLink.Transfer` | app/src/main/jni/badvpn/client/FragmentProtoAssembler.c:285-346 | disassembler to assembler: the output is the sequence of frames, empty ones included, and all of them once nothing is held back |
| `FragmentShuffle.StreamCutsUp` | app/src/main/jni/badvpn/client/FragmentProtoDisassembler.c:48-82 | the chunks between two frame ends of an in-order stream are what one frame is cut up into |
| `FragmentShuffle.PermutationDelivers` | app/src/main/jni/badvpn/client/FragmentProtoAssembler.c:195-278 | the chunks of a frame in any permutation, with any other traffic between that neither evicts nor outlives it: one delivery, of that frame, at the last chunk |
| `FragmentCalm.CalmDelivers` | app/src/main/jni/badvpn/client/FragmentProtoAssembler.c:195-278 | the same under a condition on the events alone: while the frame is gathered fewer other ids turn up than there are slots, and between two of its chunks no more packets end than there are slots |
| `FragmentCalm.AloneDelivers` | app/src/main/jni/badvpn/client/FragmentProtoAssembler.c:195-278 | with no other traffic the chunks of a frame deliver it once, at the last of them, in whatever order they come |
| `BProto.SplitEncoded` | app/src/main/jni/badvpn/bproto_generator/bproto_functions.php:348-412 | a sequence of encoded fields is split into the same fields |
| `BProto.EncodedSplit` | app/src/main/jni/badvpn/bproto_generator/bproto_functions.php:457-575 | bytes that split into fields are the encoding of those fields |
| `BProto.MessageExact` | app/src/main/jni/badvpn/bproto_generator/bproto_functions.php:421-610 | a text is a message exactly if it is the encoding of fields of the schema of which each required entry has one, each optional one at most, each required and repeated one at least |
| `BProto.FieldBytes` | app/src/main/jni/badvpn/bproto_generator/bproto_functions.php:348-412 | the bytes of a field: id and type code (1 to 4 for integers of 1, 2, 4 and 8 bytes, 5 and 6 for data) in two bytes each, the low one first, then the integer, or the length in four bytes and the data |
| `BProto.NumberBytes` | app/src/main/jni/badvpn/bproto/BProto.h:55-78 | integers have their lowest byte first |
| `BProtoWriter.Writer.constructor` | app/src/main/jni/badvpn/bproto_generator/bproto_functions.php:303-318 | nothing written, all counts zero |
| `BProtoWriter.Writer.AddUInt` | app/src/main/jni/badvpn/bproto_generator/bproto_functions.php:348-371 | the field joins the message: it is the next value of its entry and no other entry gains one |
| `BProtoWriter.Writer.AddData` | app/src/main/jni/badvpn/bproto_generator/bproto_functions.php:373-412 | the same for data fields, with room left for the caller |
| `BProtoWriter.CountExact` | app/src/main/jni/badvpn/bproto_generator/bproto_functions.php:584-596 | what an Add asserts of a count, and being there where it must, is what Init asks of an entry |
| `BProtoWriter.Writer.Fill` | app/src/main/jni/badvpn/bproto_generator/bproto_functions.php:380-396 | filling the room that an Add returned, right away or after more Adds, makes the payload the value of that field and changes no other |
| `BProtoWriter.Writer.Finish` | app/src/main/jni/badvpn/bproto_generator/bproto_functions.php:320-337 | what is handed out is a message of the schema: the encoding of exactly the fields added, each entry as often as its cardinality says |
| `BProtoParser.Parser.Init` | app/src/main/jni/badvpn/bproto_generator/bproto_functions.php:421-610 | accepts arbitrary bytes exactly if they encode fields of the schema, each entry as often as its cardinality says (exactly once, at most once, at least once, any number); then every entry has its written values to be got |
| `BProtoParser.Parser.Get` | app/src/main/jni/badvpn/bproto_generator/bproto_functions.php:648-759 | returns the next value of its entry, fails exactly when none is left and then stands at the span; no read goes out of bounds and no other entry moves |
| `BProtoParser.Parser.Reset` | app/src/main/jni/badvpn/bproto_generator/bproto_functions.php:761-764 | all values of the entry are to be got again |
| `BProtoParser.Parser.Forward` | app/src/main/jni/badvpn/bproto_generator/bproto_functions.php:766-769 | none is |
| `BProtoParser.Parser.GotEverything` | app/src/main/jni/badvpn/bproto_generator/bproto_functions.php:612-637 | true exactly if nothing is left of any entry |
| `BProtoParser.Parser.DrainedAtSpan` | app/src/main/jni/badvpn/bproto_generator/bproto_functions.php:654-656 | the position is at the span exactly if nothing is left, however the Gets were interleaved |
| `BProtoLink.Transfer` | app/src/main/jni/badvpn/bproto_generator/bproto_functions.php:320-610 | for every schema and every sequence of Adds that Finish accepts, Init accepts and each entry has exactly its written values, in order |
| `BProtoLink.Drain` | app/src/main/jni/badvpn/bproto_generator/bproto_functions.php:648-759 | repeated Gets return exactly what was left, in order |
| `MacTable.MacIndex.Lookup` | app/src/main/jni/badvpn/client/FrameDecider.c:498-504 | the unique owner of the address, or none; no address is listed twice and no peer has too many |
| `MacTable.LearnExact` | app/src/main/jni/badvpn/client/FrameDecider.c:69-118 | after an address is learned it is the learner's alone and its most recent one; every other address stays where it was and in its order, except the oldest of a full list that did not hold the new one |
| `MacTable.MacIndex.AddMacToPeer` | app/src/main/jni/badvpn/client/FrameDecider.c:69-118 | the address leaves whoever had it, the oldest of a full list makes room, and it goes to the end of the list of the learner |
| `MacTable.MacIndex.AddPeer` | app/src/main/jni/badvpn/client/FrameDecider.c:558-593 | a peer with no address and all its entries free |
| `MacTable.MacIndex.RemovePeer` | app/src/main/jni/badvpn/client/FrameDecider.c:650-668 | the addresses of the peer are gone from the tree, all others stay |
| `Multicast.InitAfter` | app/src/main/jni/badvpn/structure/LinkedList3.h:204-215 | a node is linked in right after another one |
| `Multicast.FreeNode` | app/src/main/jni/badvpn/structure/LinkedList3.h:237-242 | a node is taken out of its list, and the rest stays linked in order |
| `Multicast.GroupIndex.FreeEntry` | app/src/main/jni/badvpn/structure/LinkedList3.h:230-243 | an iterator that stands on the node moves to the next one first, then the node is taken out; the other lists stay |
| `Multicast.FirstNode` | app/src/main/jni/badvpn/structure/LinkedList3.h:282-289 | the first node of the list of a node |
| `Multicast.GroupIndex.AddToMulticast` | app/src/main/jni/badvpn/client/FrameDecider.c:133-164 | the entry joins the list of its signature, or starts one as its master; the index fits the entries in use |
| `Multicast.GroupIndex.RemoveFromMulticast` | app/src/main/jni/badvpn/client/FrameDecider.c:166-197 | the entry leaves the list; if it was the master, a neighbour is elected or the signature disappears; the index fits the entries in use, and an iteration under way visits the others as before |
| `Multicast.GroupIndex.Elect` | app/src/main/jni/badvpn/client/FrameDecider.c:166-197 | the new master is in the tree and marked, and no other mark has changed |
| `Multicast.GroupIndex.OneMaster` | app/src/main/jni/badvpn/client/FrameDecider.c:133-197 | of the entries in use with a signature exactly one is marked as master, and it is the one in the tree |
| `Multicast.GroupIndex.RingFacts` | app/src/main/jni/badvpn/client/FrameDecider.c:133-197 | the list of a signature holds exactly the entries in use with that signature, each once |
| `Multicast.GroupIndex.NoRing` | app/src/main/jni/badvpn/client/FrameDecider.c:133-197 | a signature without master has no entry in use |
| `Multicast.GroupIndex.Advance` | app/src/main/jni/badvpn/structure/LinkedList3.h:333-360 | the iterator hands out the first of the entries it has yet to visit, and the others are left |
| `GroupTable.JoinExact` | app/src/main/jni/badvpn/client/FrameDecider.c:199-279 | who is in which group after a join and after an expiry: only this membership comes or goes, except that a join into a full list drops the group joined longest ago; the others keep their order |
| `GroupTable.Groups.AddGroupToPeer` | app/src/main/jni/badvpn/client/FrameDecider.c:199-252 | the group goes to the end of the LRU list of the peer, the oldest making room; this membership lasts for the membership interval from now, and every other as long as before |
| `GroupTable.Groups.RemoveGroupEntry` | app/src/main/jni/badvpn/client/FrameDecider.c:254-279 | the entry leaves list, trees and multicast index, and an iteration under way; everything else stays |
| `GroupTable.Groups.LowerGroupTimers` | app/src/main/jni/badvpn/client/FrameDecider.c:281-314 | exactly the entries of the group have their time left lowered to the last member query time |
| `GroupTable.Groups.AddPeer` | app/src/main/jni/badvpn/client/FrameDecider.c:595-614 | a peer in no group and with all its entries free |
| `GroupTable.Groups.RemovePeer` | app/src/main/jni/badvpn/client/FrameDecider.c:639-648 | the memberships of the peer are gone, from an iteration under way too; all others stay |
| `GroupTable.Groups.DestinationsExact` | app/src/main/jni/badvpn/client/FrameDecider.c:481-496 | the peers in the list of a signature are exactly those with a group of that signature |
| `FrameDecider.SigOfMappedMac` | app/src/main/jni/badvpn/client/FrameDecider.c:120-131 | a group and the address it is mapped to (section 6.4 of RFC 1112) have the same signature |
| `FrameDecider.SigExact` | app/src/main/jni/badvpn/client/FrameDecider.c:120-131 | both signatures are the low 23 bits, byte by byte |
| `FrameDecider.FrameDecider.AddPeer` | app/src/main/jni/badvpn/client/FrameDecider.c:558-624 | both tables and the list of peers grow by one, in step |
| `FrameDecider.FrameDecider.Analyze` | app/src/main/jni/badvpn/client/FrameDecider.c:671-795 | the source address is learned, the reported groups are joined in order and last for the membership interval from now, and all other memberships last as before |
| `FrameDecider.JoinAllExact` | app/src/main/jni/badvpn/client/FrameDecider.c:671-795 | a report changes the groups of its peer only, and the group reported last is the latest one |
| `FrameDecider.FrameDecider.FreePeer` | app/src/main/jni/badvpn/client/FrameDecider.c:626-669 | the peer leaves both tables and the list, and any decision under way, multicast included, names the other peers as before |
| `FrameDecider.NamedExcept` | app/src/main/jni/badvpn/client/FrameDecider.c:626-669 | what a decision names once the peer has gone is what it named before, in the same order, without that peer |
| `FrameDecider.FrameDecider.Expire` | app/src/main/jni/badvpn/client/FrameDecider.c:254-279 | an expired membership leaves the group table and a multicast decision under way; the addresses and every other timer stay |
| `FrameDecider.FrameDecider.AnalyzeAndDecide` | app/src/main/jni/badvpn/client/FrameDecider.c:361-510 | IGMP and broadcast are flooded, multicast goes to the list of the signature or nowhere, an owned address to its owner, an unknown one is flooded; a query lowers the timers of its group and no others |
| `FrameDecider.FrameDecider.NextDestination` | app/src/main/jni/badvpn/client/FrameDecider.c:512-556 | the next of the destinations decided, or the end |
| `FrameDecider.FrameDecider.Drain` | app/src/main/jni/badvpn/client/client.c:2671-2681 | draining returns all destinations decided, in order |
| `FrameDecider.FrameDecider.Destinations` | app/src/main/jni/badvpn/client/client.c:2666-2682 | deciding and draining: the destinations of the frame, and no decision pending |
| `FrameDecider.FrameDecider.MulticastExact` | app/src/main/jni/badvpn/client/FrameDecider.c:481-496 | a multicast frame goes to exactly the peers with a group that shares the low 23 bits of its address |
| `FrameDecider.FrameDecider.UnicastExact` | app/src/main/jni/badvpn/client/FrameDecider.c:498-504 | a frame to an address that a peer owns goes to that peer alone |
| `FrameDecider.FrameDecider.DecidesExact` | app/src/main/jni/badvpn/client/FrameDecider.c:472-510 | where a frame goes, by the bytes of its address: IGMP and FF:FF:FF:FF:FF:FF to all, 01:00:5E to the peers with a group of the same low 23 bits, an owned address to its owner, any other to all |
| `Conev.Pool.constructor` | app/src/main/cpp/byedpi/conev.c:9-40 | every slot linked once, none live; only the first slot is cleared, the others may hold anything |
| `Conev.Pool.AddEvent` | app/src/main/cpp/byedpi/conev.c:43-73 | fails exactly when full or refused; otherwise the slot behind the live ones is opened and no other entry changes; links stay a permutation with right indices |
| `Conev.SwappedOut` | app/src/main/cpp/byedpi/conev.c:95-107 | a swap-delete takes exactly the one entry out of the live ones |
| `Conev.Pool.CloseOne` | app/src/main/cpp/byedpi/conev.c:82-107 | exactly this entry stops being live, and the indices are right again |
| `Conev.Pool.DelEvent` | app/src/main/cpp/byedpi/conev.c:76-117 | closes exactly the chain or ring of pairs it started in, each entry once, wherever the last pair points, and terminates; everything else stays, and so does what is known about the batch |
| `Conev.ChainOrLoop` | app/src/main/cpp/byedpi/conev.c:108-115 | del_event comes through from a live entry exactly if its pairs do not lead to an entry that is paired with itself |
| `Conev.Pool.NextEvent` | app/src/main/cpp/byedpi/conev.c:146-169 | as long as the batch has an event whose entry has not been closed or opened since, the last such event is handed out and those before it are left; only then a new batch is polled; what is handed out is live and still the connection that was polled |
| `Conev.Pool.HandOut` | app/src/main/cpp/byedpi/conev.c:146-169 | calling it as long as something is pending hands out exactly the pending events of the batch, each once, from the last on |
| `Conev.Pool.Poll` | app/src/main/cpp/byedpi/conev.c:151-167 | a new batch starts with its last entry, which cannot be stale |
| `TlsRecord.PartTls` | app/src/main/cpp/byedpi/packets.c:405-421 | one record becomes two with the same type and version, cut after pos bytes; else the text is unchanged and the result tells why |
| `TlsRecord.RecordBytes` | app/src/main/cpp/byedpi/packets.c:410-420 | the bytes of a record: three of prefix, the length with the high byte first, the payload |
| `TlsRecord.FourWritesParted` | app/src/main/cpp/byedpi/packets.c:415-419 | the overlapping memmove and memcpy writes come to exactly the two records |
| `TlsRecord.SplitLoop` | app/src/main/cpp/byedpi/desync.c:454-479 | the loop counts 5 bytes for each option up to the first that cannot be met and stays within the buffer; the text has been cut as counted exactly if all these cuts lie in the first record, and if only the last lies behind it then all but that one are made |
| `TlsRecord.CutExact` | app/src/main/cpp/byedpi/desync.c:456-478 | each cut is where its option says: from the start, from the host name, or from the end of what has been written by then; cuts do not go back and fit text and buffer |
| `TlsRecord.CutsStop` | app/src/main/cpp/byedpi/desync.c:466-473 | the option behind the last cut goes back, or text or buffer are too short for it |
| `TlsRecord.NoneBehind` | app/src/main/cpp/byedpi/desync.c:454-479 | with one complete or partial record and nothing behind it, all counted cuts lie in the record |
| `TlsRecord.CutBehind` | app/src/main/cpp/byedpi/packets.c:411-414 | an empty record with more bytes behind it: a cut after the first of them is counted, but cannot have been made |
| `TlsRecord.SplitRecords` | app/src/main/cpp/byedpi/desync.c:454-479 | k cuts leave k + 1 back-to-back records of the original type and version whose payloads concatenate to the original (section 5.1 of RFC 8446) |
| `TlsRecord.CutsRise` | app/src/main/cpp/byedpi/desync.c:464-477 | the cuts rise, lie inside the record and never need more than the buffer |
| `Relay.RunKeeps` | app/src/main/jni/badvpn/client/client.c:1729-1898 | over every run of handlers: each peer is at most one of linked, relayed, waiting; relays are linked; the user list of a relay holds exactly the peers that name it; nobody waits while there is a relay |
| `Relay.RunExact` | app/src/main/jni/badvpn/client/client.c:1729-1898 | over every run the events alone say who is there, linked, asking and relaying: linked exactly if the last event that settled how the peer is connected was a fresh link, asking exactly if it was a request, relaying exactly if it has come up as a relay server since and not gone down |
| `Relay.RelaysOffered` | app/src/main/jni/badvpn/client/client.c:2626-2645 | whoever relays has come up as a relay server |
| `Relay.UpExact` | app/src/main/jni/badvpn/client/client.c:2626-2637 | a peer that comes up becomes a relay exactly if it offers to be one, the last in the list, and serves all who waited, in order; nothing else changes |
| `Relay.DownExact` | app/src/main/jni/badvpn/client/client.c:2638-2645 | a peer that goes down relays no more, its users are handed over, and nobody's request is lost |
| `Relay.LeavesExact` | app/src/main/jni/badvpn/client/client.c:1729-1748 | a fresh link, a reset and a removal: the peer has a link, or none, or is gone, and asks for and serves nothing; everyone else has what they had, but for its users, who are handed over |
| `Relay.NeedExact` | app/src/main/jni/badvpn/client/client.c:1847-1868 | a request: the first relay serves the peer, behind its other users, or else the peer waits behind the rest |
| `Relay.RelayGone` | app/src/main/jni/badvpn/client/client.c:1771-1800 | the users of a relay that goes down move, in order, behind the users of the first other relay, or else wait; no request is lost and nobody else is touched |
| `Relay.AssignedNext` | app/src/main/jni/badvpn/client/client.c:2684-2709 | one round of assign_relays moves the first waiting peer to the first relay, keeps the invariant and what the rest of the loop comes to |
| `Relay.AssignedSound` | app/src/main/jni/badvpn/client/client.c:2684-2709 | assign_relays keeps the invariant and leaves nobody waiting while there is a relay |
| `Relay.ApplySound` | app/src/main/jni/badvpn/client/client.c:1729-1898 | each handler keeps the invariant |
| `RelayClient.Client.AssignRelays` | app/src/main/jni/badvpn/client/client.c:2684-2709 | terminates, and gives everyone who waits to the first relay, in order |
| `RelayClient.Client.EnableRelayProvider` | app/src/main/jni/badvpn/client/client.c:1750-1769 | a linked peer becomes the last relay, and relays are assigned |
| `RelayClient.Client.DisableRelayProvider` | app/src/main/jni/badvpn/client/client.c:1771-1800 | terminates, and all the users are handed over as RelayGone says |
| `RelayClient.Client.InstallRelaying` | app/src/main/jni/badvpn/client/client.c:1802-1822 | both sides of a relaying are entered |
| `RelayClient.Client.FreeRelaying` | app/src/main/jni/badvpn/client/client.c:1824-1845 | both sides of a relaying are taken back |
| `RelayClient.Client.CleanupConnections` | app/src/main/jni/badvpn/client/client.c:1729-1748 | the peer is neither linked nor relayed nor waiting nor a relay, and the invariant holds |
| `RelayClient.Client.NeedRelay` | app/src/main/jni/badvpn/client/client.c:1847-1868 | the peer has no link and is relayed or waits |
| `RelayClient.Client.FreshLink` | app/src/main/jni/badvpn/client/client.c:2348-2355 | a fresh link and nothing else, or, when there is none to be had, no link, relay or request left |
| `RelayClient.Client.AddPeer` | app/src/main/jni/badvpn/client/client.c:1452-1475 | a new peer that is none of linked, relayed, waiting and relay |
| `RelayClient.Client.RemovePeer` | app/src/main/jni/badvpn/client/client.c:1509-1524 | nothing names the peer any more |
| `RelayClient.Client.DataprotoHandler` | app/src/main/jni/badvpn/client/client.c:2626-2645 | a peer that comes up is a relay afterwards exactly if it was one or offers to be one, and one that goes down is not; the tables as UpExact and DownExact say |
| `Setup.RunStops` | app/src/main/jni/badvpn/client/client.c:2087-2122 | whatever the two sides have been doing before, every run over reliable FIFO channels stops: at most two deliveries for each bind address of either side and two more, and never more than one message under way |
| `Setup.RunAgrees` | app/src/main/jni/badvpn/client/client.c:2001-2122 | where a run stops, either the decisive attempt has failed and the master waits for its retry, or the sides have met at the first decisive address of the master, else at that of the slave, or else each asks for a relay, unless it serves as one and has tried no bind |
| `Setup.MetExact` | app/src/main/jni/badvpn/client/client.c:2342-2403 | where they have met: the binder is bound to the first port of the range that binds, or listens, and the other side has connected to the first external address in a scope it knows, moved by as many ports, with the secret of the binder; neither relays or asks for a relay |
| `Setup.DecisiveExact` | app/src/main/jni/badvpn/client/client.c:2301-2340 | an address is decisive exactly if it has external addresses and either no link is to be had for it, or a port of it binds and the other side knows one of its scopes |
| `Setup.FailsExact` | app/src/main/jni/badvpn/client/client.c:2405-2440 | an attempt fails exactly if there is no link for it or the other side cannot connect to where it leads |
| `Setup.UnservedExact` | app/src/main/jni/badvpn/client/client.c:2322-2340 | a side that met nobody has no link and asks for a relay, unless it is one and has no external address to bind |
| `Setup.YouConnectExact` | app/src/main/jni/badvpn/client/client.c:2001-2085 | any YOUCONNECT: refused without a readable address in a known scope, dropped if a garbled one comes first or the secret is missing, else connected to the first such address, or reset |
| `Setup.StrayMessages` | app/src/main/jni/badvpn/client/client.c:2087-2122 | a refusal outside binding, a YOURETRY to a slave and a CANNOTBIND for a peer that relays change nothing |
| `Setup.OneOutcome` | app/src/main/jni/badvpn/client/client.c:2301-2440 | the configurations alone decide between these outcomes: who binds, and where, whether the attempt fails there, or that no address decides |
| `Setup.StepAt` | app/src/main/jni/badvpn/client/client.c:2001-2440 | each delivery, in any order of the two channels, moves the run on and lowers the measure |
| `Setup.OfferMet` | app/src/main/jni/badvpn/client/client.c:2001-2085 | an offer is refused exactly if the receiver knows none of its scopes; otherwise the two have met as MetExact says, or the receiver is reset because it cannot connect |
| `Setup.BindGoesOn` | app/src/main/jni/badvpn/client/client.c:2301-2340 | from its current address on a side offers the next one that has external addresses and binds, is reset where no link is to be had, or gives up |
| `SetupEndpoint.Endpoint.constructor` | app/src/main/jni/badvpn/client/client.c:1452-1475 | a new peer in its own place of the bookkeeping, and a side with nothing going on |
| `SetupEndpoint.Endpoint.Reset` | app/src/main/jni/badvpn/client/client.c:1900-1914 | link, relay and request are given up; the master sets its retry timer, the slave asks the master to retry |
| `SetupEndpoint.Endpoint.ResetTimerHandler` | app/src/main/jni/badvpn/client/client.c:2283-2291 | the retry starts binding from the first address |
| `SetupEndpoint.Endpoint.Bind` | app/src/main/jni/badvpn/client/client.c:2301-2340 | the loop over the bind addresses: link, messages and relay state afterwards |
| `SetupEndpoint.Endpoint.BindOneAddress` | app/src/main/jni/badvpn/client/client.c:2342-2403 | without a link the peer is reset; otherwise the first port of the range that binds, and the offer for it; or the next address is to be tried |
| `SetupEndpoint.Endpoint.StartBinding` | app/src/main/jni/badvpn/client/client.c:2293-2299 | binding starts from the first address |
| `SetupEndpoint.Endpoint.Connect` | app/src/main/jni/badvpn/client/client.c:2405-2440 | a fresh link that talks to the address, or a reset when there is no link or the connection cannot be started |
| `SetupEndpoint.Endpoint.MsgYouConnect` | app/src/main/jni/badvpn/client/client.c:2001-2085 | the first readable address in a known scope is connected to, or the offer is refused; a garbled address message before that, or a missing key or password, and the whole message is dropped |
| `SetupEndpoint.Endpoint.MsgCannotConnect` | app/src/main/jni/badvpn/client/client.c:2087-2104 | binding goes on with the next address; outside binding nothing happens |
| `SetupEndpoint.Endpoint.MsgCannotBind` | app/src/main/jni/badvpn/client/client.c:2106-2122 | the slave starts to bind, the master asks for a relay unless the peer is one |
| `SetupEndpoint.Endpoint.MsgYouRetry` | app/src/main/jni/badvpn/client/client.c:2222-2237 | the master is reset; the slave ignores the message |
| `SetupEndpoint.Converse` | app/src/main/jni/badvpn/client/client.c:1955-1999 | two sides with the real handlers, on top of the relay bookkeeping, stop within the bound and agree, from any state with nothing on the way |
| `SetupEndpoint.Meet` | app/src/main/jni/badvpn/client/client.c:1452-1475 | two machines that hear of each other make their sides, which share nothing, and these agree |

## Left out

- Allocation failures, `stat` flags of pools and the copies or aliases they decide: keys are values, which the code guarantees by never writing to a word again once it has been added.
- kavl iterators and the free macros; `x == 0` with an empty tree, which reads before the path array.
- Hosts.ParseHosts: a list is shorter than 2^32 bytes, so that the node count fits the size field.
- Finding the host name in a packet (`parse_tls`, `parse_http`): `check_host` starts from the name.
- LinkedList1 and SAvl, which are sequences and maps here; of LinkedList3 the forward iterator is modelled, and one at a time, as the decider uses it.
- `input_handler_requestcancel` of the disassembler, which drops a frame without using up its id; round trips are for runs without it.
- FragmentShuffle.PermutationDelivers: for runs in which the frame is neither evicted nor timed out while it is gathered, as the protocol intends for its slots and tolerance; `FragmentCalm.CalmDelivers` says when the events alone make sure of that.
- FrameDecider.FrameDecider.AnalyzeAndDecide: IPv4 and IGMP headers are not parsed (a frame is its destination, whether it is IGMP, and the group of a query), and with a multicast decision pending the code returns without deciding; callers drain first, as the device handler does.
- `FrameDeciderPeer_Init` and `FrameDeciderPeer_Free` as one struct: a peer is two objects, one for addresses and one for groups, tied by position.
- GroupTable.Groups.LowerGroupTimers: the time is read once, not once for each entry.
- The poll() variant of the event pool and the wrap-around of `iters`.
- Conev.Pool.DelEvent: at least one live entry is left outside the chain, which the code asserts, and the pairs do not lead to an entry that is paired with itself, for which the code would follow a null pointer; `Conev.ChainOrLoop` says that this is the only exception.
- Resuming record splitting after a partial send, and overflow of `long`. After a cut that lies behind the record, `TlsRecord.SplitLoop` says only how many bytes are counted, and when just the last cut does, also what the buffer holds.
- BProto entries that share an id, except where the emitted switches still compile; the string-building helpers of the generator; signed overflow of `int` lengths.
- Message bytes of the handshake: messages are values there, and BProto is modelled on its own. Messages that do not parse as a whole are dropped by the code and not modelled, nor are oversized ones, seeds and keys, chat errors, link errors that reset a peer in the middle of an attempt, and server traffic.
- Sockets, epoll, timers, TLS, ciphers, logging and option parsing; DataProto, DPRelay, SPProto, StreamPeerIO; BDHCPClientCore, BArpProbe, BPending, SimpleStreamBuffer, LineBuffer and StreamBuffer; `change_tls_sni` and `is_http_redirect`.
