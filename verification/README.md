# Verified models of the libraries under mutation

MemoryMutationTestingEngine applies mutations to a collection of C libraries. The engine itself
spawns processes and reads reports; the state and the algorithms are in the libraries. This project
models fifteen of their source files in Dafny and proves what they promise. `dafny verify
dfyconfig.toml` checks all of it.

Code that works in place is a class or a method with loops over arrays, proved against functions on
values; the properties are lemmas about those functions and invariants of the classes.

| component | files | main results |
|---|---|---|
| streaming bencode parser | BencodeSyntax, BencodeMachine, BencodeProof, BencodeReader, BencodeExact, BencodeCuts, BencodeParser | exactly which values are parsed under every cut of the input (`StreamingIsExact`) and under a given one (`CutIsExact`); what becomes of any bytes at all, against recursive descent (`EveryInputJudged`); the frame invariant of every reachable state |
| pseudo-LRU cache | SplayTree, NodeMemory, SplayMap, CacheBits, NodeRemoval, PseudoLru, CacheRuns | the recursive splay through slot pointers is move-to-root (`Splay`); the cache is a finite map on every run; the victim lies where the bits lead, away from the last search |
| peer wire protocol | WireFormat, WireMachine, WireHandler, WireReader, WireEncoder | exactly which message lists arrive as sent, under every fragmentation (`SentIsReceived`); what becomes of any bytes at all, against a reader of whole messages (`StreamAgrees`) |
| peer connection | PendingRequests, Connection | a received block is subtracted exactly from the pending requests, or an assertion fails, and when; every requested byte is accounted for over every run |
| quadratic-probing map, hash set | Arithmetic, SinglePrecision, Probing, QuadSlots, QuadTable, QuadMap, QuadRuns, HashSet | both probe sequences reach every slot; exactly when the signed and unsigned slot computations agree; on every run the map is a finite map exactly while no put stops at a tombstone |
| texture atlas | AtlasTree, Atlas | leaves tile the square; a push fails exactly when no free leaf is large enough, and exactly what it leaves free |
| test messages of libcheck | CheckPack, CheckResult | the sliding window is the fold over the messages (`Punpack`); exactly when a failure is reported where it happened |
| bit stream | Bitstream | round trip of fields of any widths; exactly when a single field is read back |
| interval counter | ChunkList, Chunkybar | union, and exactly when marking incomplete is set difference |
| chained map, bip buffer, heap | ChainTable, ChainMap, BipBuffer, HeapOrder, Heap | each refines its abstract value: finite map, queue, multiset |

## Conventions

- Pointers are integers and 0 is NULL. Callbacks and messages sent are recorded in a log or an event list.
- Results of the allocator, of send callbacks and of the block source are parameters.
- Integers are unbounded unless a width decides something: `INT_MAX` and the buffer sizes in the bencode parser, the slot
  computations of the quadratic-probing map, blocks of the peer protocol, the bounds of the bip buffer, 32-bit
  words on the wire and in the bit stream, 32-bit integers in packed test messages. Common holds the shared types.
- The nodes of the splay tree are records in an explicit memory, addressed through slots (the root or a
  child field of a node), because the code passes pointers to pointers. A ghost tree describes the
  memory, and every method states the new memory.
- A C assertion that fails, and a signed overflow, is an outcome of its own in the bencode parser, on the wire and in
  the removal of pending requests, so that it is proved when it happens.

## Where the code does not do what is written about it

- bencode.h documents a null key for list entries. The code passes the key that an earlier use of the frame
  left there, and never null (`BencodeExact.ListItemKeyIsStale`). The traversal therefore leaves the key
  of list items open.
- The parser never closes `de` and never finishes an empty key (`EmptyDictStaysOpen`, `EmptyKeyNeverEnds`);
  negative integers are refused (`IntOutside`). After a value at the outermost level it does not start afresh
  (`BencodeReader.SecondNumberAppended`).
- The comment in `pwp_conn_periodic` announces that an interested peer is unchoked. The function called clears
  the flag that the peer chokes us, and we go on choking the peer (`Connection.Conn.Periodic`).
- The checks of offset plus length wrap: a request at the last offset is accepted (`Connection.WrappedRequestAccepted`),
  and a received block whose end wraps can add to the pending requests or fail an assertion
  (`PendingRequests.ExactlyLeftWhen`, `WrappedBlockAdds`).
- A request of more than INT_MAX bytes stops the process when a part of it arrives, though its length is an
  unsigned number (`PendingRequests.TripsWhen`, `LongRequestTrips`).
- The buffer sizes of the bencode parser are ints that grow by doubling, so the longest string it can read is shorter
  than INT_MAX and depends on whether the string is the whole value (`BencodeParser.GrowthFits`).
- The message handler keeps the size of a part of a block in an int. In a buffer with more than INT_MAX bytes of a
  block and more bytes after them it reads on from the wrong place (`WireHandler.LongBlockStrays`).
- The tables grow by comparing floats, so a large one grows early (`SinglePrecision.HalfUsedWhen`).
- `__req_fit` subtracts in a way that clips a request to the piece in one case only (`PendingRequests.FitClips`).
- The lookup at the start of `__conn_remove_pending_request` passes the address of a pointer and is modelled as a
  miss; the loop after it covers the exact match.
- `hashmapq_get` keeps a hash code in an unsigned int, `hashmapq_put` and `hashmapq_remove_entry` in an int: a hash
  code with bit 31 set leads the latter out of the table (`QuadSlots.HighBitLeaves`, `FitsExactly`).
- The key that `hashmapq_remove_entry` reports is the tombstone. A put that stops at a tombstone does not count
  the entry (`QuadMap.TombBreaks`), and a removed key that is put again does stop at one (`RemovedKeyLandsOnTomb`).
- `chunky_mark_incomplete` does not look at the chunk that follows a swallowed first chunk (`ChunkList.UnmarkCovers`).
- `bipbuf_poll` compares with the end of the block and not with the end of region A (`BipBuffer.Buffer.Poll`).
- `construct_test_result` reports a failure with the last context and not with the failing one
  (`CheckResult.FailureReported`).

## Model

| member | source | states |
|---|---|---|
| BencodeExact.StreamingIsExact | PUTs/10streaming-bencode-master/bencode.c:43-367 | for every value and every frame capacity: under every cut of its encoding into buffers all calls return 1 and the callbacks are exactly those of a recursive traversal, if and only if the value is supported and its depth is below the capacity. Supported: integers in 0..INT_MAX, non-empty keys and dictionaries, strings and keys shorter than the largest size their buffer can grow to (2147483644 for a string that is the whole value, 1610612732 for every other string and for keys) |
| BencodeExact.SupportedParsed | PUTs/10streaming-bencode-master/bencode.c:152-367 | the direction from supported values to a correct parse, for any list of buffers that concatenates to the encoding |
| BencodeExact.ParsedByteWise | PUTs/10streaming-bencode-master/bencode.c:152-367 | the converse: a correct parse of byte-sized buffers already forces a supported value of small enough depth |
| BencodeCuts.CutIsExact | PUTs/10streaming-bencode-master/bencode.c:43-367 | for every value, every frame capacity and every given cut of its encoding: it is reported in full if and only if it is supported, nested at most as deep as there are frames, and no buffer starts at a position where it is nested so deep |
| BencodeCuts.CutsMatterAtCapacity | PUTs/10streaming-bencode-master/bencode.c:348-352 | witness: with one level a list of one number is reported from one buffer and refused byte by byte |
| BencodeCuts.ValueDepths | PUTs/10streaming-bencode-master/bencode.c:152-346 | at every byte of a value the stack of the parser is as deep as a recursion over the value says |
| BencodeCuts.DispatchedWhen | PUTs/10streaming-bencode-master/bencode.c:348-367 | an input that is read as a whole is read in given buffers if and only if the stack is not full where each of them starts |
| BencodeCuts.WidenFeed | PUTs/10streaming-bencode-master/bencode.c:43-54 | whatever a parser reads, a parser with one more frame reads byte by byte, with the same callbacks and depths |
| BencodeCuts.NarrowFeed | PUTs/10streaming-bencode-master/bencode.c:43-54 | what the wider parser reads without going deeper than the narrower one can, that one reads |
| BencodeReader.EveryInputJudged | PUTs/10streaming-bencode-master/bencode.c:152-367 | for every byte string at all: a new parser accepts it, refuses it or stops exactly as a recursive descent over the bytes does, which has no stack and no states, up to the end of the first value |
| BencodeReader.ReadingObeyed | PUTs/10streaming-bencode-master/bencode.c:152-346 | the same from any frame that is ready for a value, with the frame closed after a whole value |
| BencodeReader.KeyObeyed | PUTs/10streaming-bencode-master/bencode.c:286-341 | the same from the length of a key to the end of its dictionary |
| BencodeReader.NoValueRefused | PUTs/10streaming-bencode-master/bencode.c:158-219 | where a value or a list item is expected, a byte that starts none is refused, whatever follows, and changes nothing |
| BencodeReader.NoKeyRefused | PUTs/10streaming-bencode-master/bencode.c:297-318 | a byte that cannot belong to the length of a key is refused, whatever follows |
| BencodeReader.BlankRefused | PUTs/10streaming-bencode-master/bencode.c:158-219 | witness: a blank is refused by a new parser |
| BencodeReader.SecondNumberAppended | PUTs/10streaming-bencode-master/bencode.c:76-112 | witness: after a number at the outermost level the parser does not start afresh; `i1e2e` is reported as 1 and 12 |
| BencodeSyntax.Spellings | PUTs/10streaming-bencode-master/bencode.c:114-346 | the bytes of four values, number by number |
| BencodeExact.ObservedValue | PUTs/10streaming-bencode-master/bencode.c:152-346 | the converse inside any surroundings: from any frame ready for a value, observing its traversal forces it to be supported and to fit |
| BencodeExact.IntOutside | PUTs/10streaming-bencode-master/bencode.c:226-241 | an integer outside 0..INT_MAX is refused, whatever follows |
| BencodeExact.StrOutside | PUTs/10streaming-bencode-master/bencode.c:242-284 | a string that its buffer cannot grow to hold is never completed, whatever follows: its length is not an int, or the size overflows while it is read |
| BencodeExact.LongBodyAborts | PUTs/10streaming-bencode-master/bencode.c:268-284 | the body of a string or key that reaches the largest buffer size ends in an overflow of the size |
| BencodeExact.EmptyKeyNeverEnds | PUTs/10streaming-bencode-master/bencode.c:319-341 | a key of length 0 is never completed: however many bytes follow, no callback is made |
| BencodeExact.EmptyDictStaysOpen | PUTs/10streaming-bencode-master/bencode.c:286-318 | `de` never yields the enter and leave callbacks of an empty dictionary, in any surroundings |
| BencodeExact.EmptyDictNeverParsed | PUTs/10streaming-bencode-master/bencode.c:286-318 | concrete witness against the unrestricted law: the empty dictionary fails for every capacity |
| BencodeExact.ListItemKeyIsStale | PUTs/10streaming-bencode-master/bencode.c:43-74 | an integer in a list is reported with the left-over key of its frame and never with a null key |
| BencodeProof.CutsDoNotMatter | PUTs/10streaming-bencode-master/bencode.c:348-367 | for any accepted input, feeding the buffers one by one ends in the same state and callbacks as feeding their concatenation |
| BencodeProof.GuardedImpliesEveryCut | PUTs/10streaming-bencode-master/bencode.c:348-367 | an input accepted byte by byte with room left is accepted under every cut |
| BencodeProof.StepKeepsNested | PUTs/10streaming-bencode-master/bencode.c:152-346 | one byte keeps all frames below the top LIST or DICT |
| BencodeProof.EveryReachableStateNested | PUTs/10streaming-bencode-master/bencode.c:43-367 | whatever buffers a new parser is fed, accepted or not, all frames below the top are LIST or DICT |
| BencodeProof.ReadValue | PUTs/10streaming-bencode-master/bencode.c:152-346 | the encoding of a supported value, read in any ready frame, leaves the frames below as they were and appends its traversal and the container's next callback |
| BencodeProof.ReadItems | PUTs/10streaming-bencode-master/bencode.c:161-195 | the items of a list append their traversals and one next callback each |
| BencodeProof.ReadEntries | PUTs/10streaming-bencode-master/bencode.c:286-341 | the entries of a dictionary append their traversals under their keys and one next callback each |
| BencodeProof.ReadKey | PUTs/10streaming-bencode-master/bencode.c:297-341 | a non-empty key below the size limit is read into the frame that then expects its value |
| BencodeProof.FeedInt | PUTs/10streaming-bencode-master/bencode.c:226-241 | digits and end mark of an integer hit the callback with exactly that number and pop the frame |
| BencodeParser.Parser.constructor | PUTs/10streaming-bencode-master/bencode.c:23-41 | a new parser is the initial state of the byte machine with the given number of frames |
| BencodeParser.Parser.PushStack | PUTs/10streaming-bencode-master/bencode.c:43-74 | pushing on the frame array is the machine's push, refused exactly when no frame is left; a frame pushed for the first time gets its buffers |
| BencodeParser.Parser.PopStack | PUTs/10streaming-bencode-master/bencode.c:76-112 | popping makes the leave and next callbacks of the machine's pop |
| BencodeParser.GrowthFits | PUTs/10streaming-bencode-master/bencode.c:270-275 | a buffer that holds the bytes before a position grows to a size that is an int if and only if the position is below the limit of its frame; then the byte and the terminator fit into it |
| BencodeParser.FirstSizes | PUTs/10streaming-bencode-master/bencode.c:61-71 | growth from the first sizes, 0 for the outermost frame and 20 for a pushed one, passes through the two limits |
| BencodeParser.Parser.StartDict | PUTs/10streaming-bencode-master/bencode.c:125-136 | opening a dictionary in place is the machine's step on `d` |
| BencodeParser.Parser.StartList | PUTs/10streaming-bencode-master/bencode.c:138-144 | opening a list in place is the machine's step on `l` |
| BencodeParser.Parser.ProcessStr | PUTs/10streaming-bencode-master/bencode.c:266-284 | a byte of a string, with the growth of the buffer, is the machine's step; the size overflows exactly where the machine says, and no write passes the end of the buffer |
| BencodeParser.Parser.ProcessKey | PUTs/10streaming-bencode-master/bencode.c:319-335 | the same for a byte of a key |
| BencodeParser.Parser.ProcessTok | PUTs/10streaming-bencode-master/bencode.c:152-346 | one byte updates frame array, depth and callbacks exactly as the machine's step does, errors included |
| BencodeParser.Parser.DispatchFromBuffer | PUTs/10streaming-bencode-master/bencode.c:348-367 | the loop over a buffer, with its checks for memory and errors, is the machine's dispatch; a first byte that cannot continue what was read is refused |
| BencodeParser.Parser.DispatchBuffers | PUTs/10streaming-bencode-master/bencode.c:348-367 | calls with one buffer after the other are the machine's dispatch of the whole list, up to the first that does not return 1 |
| BencodeParser.Parse | PUTs/10streaming-bencode-master/bencode.c:23-367 | the theorem for the object: fed the encoding of a value in any given buffers, a new parser reports it in full if and only if it is supported, nested at most as deep as there are frames and no buffer starts where it is nested so deep; its frames are nested at the end |
| BencodeParser.Judge | PUTs/10streaming-bencode-master/bencode.c:23-367 | the theorem on any bytes for the object: a new parser returns 1, returns 0 or stops as the recursive descent says |
| SplayTree.RotateKeeps | PUTs/06pseudolru-master/pseudolru.c:66-86 | a rotation keeps the in-order sequence and the nodes |
| SplayTree.MoveToRootKeeps | PUTs/06pseudolru-master/pseudolru.c:91-194 | moving the end of the search path to the root keeps the in-order sequence and the nodes |
| SplayTree.TouchKeeps | PUTs/06pseudolru-master/pseudolru.c:91-194 | a miss without update changes nothing but direction bits: without them the tree is the same |
| NodeMemory.InstallBelow | PUTs/06pseudolru-master/pseudolru.c:91-194 | writing a subtree through a child's slot equals writing the whole tree through the slot above |
| NodeMemory.RotateInstalled | PUTs/06pseudolru-master/pseudolru.c:66-86 | the three link assignments of a rotation turn the records of a tree into those of the rotated tree |
| PseudoLru.Cache.RotateRight | PUTs/06pseudolru-master/pseudolru.c:66-75 | memory after the rotation through a slot is the old memory with the rotated tree installed there |
| PseudoLru.Cache.RotateLeft | PUTs/06pseudolru-master/pseudolru.c:77-86 | the mirror image |
| PseudoLru.Cache.Splay | PUTs/06pseudolru-master/pseudolru.c:91-194 | on any tree held by up to three linked slots the recursion leaves exactly move-to-root, lifted by as many levels as the parity of the path says, and returns the node found or null |
| PseudoLru.Cache.Search | PUTs/06pseudolru-master/pseudolru.c:108-145 | the descending half: direction bits turned away, recursion through the child's slot, and the node returned |
| PseudoLru.Cache.Lift | PUTs/06pseudolru-master/pseudolru.c:147-193 | the rotations at the end of a frame: zig at the root, else parent before grandparent |
| PseudoLru.ResumedLoads | PUTs/06pseudolru-master/pseudolru.c:117-145 | the parity argument: after the recursion the frame's slot holds the sought node if and only if the rest of the path is even or the frame is the top one |
| PseudoLru.Ascend | PUTs/06pseudolru-master/pseudolru.c:91-194 | what the inner frames wrote through their slots is what this frame's tree should be |
| PseudoLru.Cache.SplayRoot | PUTs/06pseudolru-master/pseudolru.c:91-194 | on the whole cache a splay is move-to-root on a hit and only turns direction bits on a miss; sequence, nodes and count stay |
| SplayMap.HitIsMember | PUTs/06pseudolru-master/pseudolru.c:91-194 | on a search tree the search path decides membership of the key in the map |
| SplayMap.FoundAtRoot | PUTs/06pseudolru-master/pseudolru.c:91-194 | after a hit the root carries the key and its value |
| SplayMap.NeighbourAtRoot | PUTs/06pseudolru-master/pseudolru.c:91-194 | with update on a miss the root is the key's immediate predecessor or successor: no other key lies between |
| SplayMap.InsertedContents | PUTs/06pseudolru-master/pseudolru.c:335-378 | linking a new node above such a root keeps the order and adds exactly one binding |
| SplayMap.JoinedContents | PUTs/06pseudolru-master/pseudolru.c:214-265 | joining the root's subtrees keeps the order and removes exactly the root's binding |
| SplayMap.DropHighestInOrder | PUTs/06pseudolru-master/pseudolru.c:214-265 | taking out the highest node of the left subtree takes the last item off its sequence |
| SplayMap.VictimIsMember | PUTs/06pseudolru-master/pseudolru.c:267-292 | the node that the direction bits lead to is bound in the map |
| SplayMap.FreshEntryIsVictim | PUTs/06pseudolru-master/pseudolru.c:335-378 | a freshly inserted entry is the next one to be evicted if and only if its key is smaller than every other key |
| CacheBits.VictimFollowsBits | PUTs/06pseudolru-master/pseudolru.c:267-292 | the victim is the node at the end of the path on which every step takes the direction bit, which ends where the bit leads nowhere |
| CacheBits.OneBitPath | PUTs/06pseudolru-master/pseudolru.c:267-292 | there is one such path only |
| CacheBits.VictimAway | PUTs/06pseudolru-master/pseudolru.c:91-201 | after a search the victim lies on the far side of the root from the key, if there is anything |
| CacheBits.RootIsVictim | PUTs/06pseudolru-master/pseudolru.c:267-292 | a root, such as the entry read last, is the next victim if and only if its subtree on the side of its bit is empty |
| CacheBits.TouchPointsAway | PUTs/06pseudolru-master/pseudolru.c:91-201 | a search turns the bits of exactly the nodes it passes, away from the key |
| CacheBits.MoveToRootMarks | PUTs/06pseudolru-master/pseudolru.c:91-201 | moving a node to the root changes no other bit |
| CacheBits.MoveToRootSplits | PUTs/06pseudolru-master/pseudolru.c:91-201 | moving a key to the root splits the tree at the key: its subtrees are what remains of the old tree below and above it |
| CacheBits.JoinedMarks | PUTs/06pseudolru-master/pseudolru.c:223-256 | removing a root changes no bit |
| NodeRemoval.UnlinkIsJoined | PUTs/06pseudolru-master/pseudolru.c:231-262 | the pointer surgery of remove turns the records of the tree into those of the joined subtrees |
| NodeRemoval.LinkIsInserted | PUTs/06pseudolru-master/pseudolru.c:354-374 | the pointer surgery of put turns the records of the tree into those of the tree with the new root |
| PseudoLru.Cache.constructor | PUTs/06pseudolru-master/pseudolru.c:22-31 | a new cache is the empty map |
| PseudoLru.Cache.CountIsSize | PUTs/06pseudolru-master/pseudolru.c:302-326 | in every valid cache the count field is the number of bindings |
| PseudoLru.Cache.Get | PUTs/06pseudolru-master/pseudolru.c:203-212 | get returns the binding or null, makes a hit the root, leaves the map alone, and on a miss leaves everything but direction bits alone. The bits of the search path point away from the key, the subtrees of a hit are the split tree, a hit is the next victim if and only if its bit leads nowhere, and after a miss the victim lies on the far side of the root |
| PseudoLru.Cache.Put | PUTs/06pseudolru-master/pseudolru.c:335-378 | put binds the key only if it is absent, makes it the root and counts it; a new entry is the next victim if and only if its key is below all others. The bits of the search path point away from the key and no other bit changes |
| PseudoLru.Cache.Remove | PUTs/06pseudolru-master/pseudolru.c:214-265 | remove returns the binding and removes exactly that one; a null value reads as a miss and changes nothing. No bit off the search path changes |
| PseudoLru.Cache.FindHighest | PUTs/06pseudolru-master/pseudolru.c:234-242 | the loop finds the highest node of the left subtree and its parent |
| PseudoLru.Cache.GetLru | PUTs/06pseudolru-master/pseudolru.c:267-292 | the recursion follows the direction bits to the victim of the tree |
| PseudoLru.Cache.PopLru | PUTs/06pseudolru-master/pseudolru.c:294-299 | on a non-empty cache the binding at the end of the path of the direction bits goes, its value is returned and all others stay; a victim whose value is null stays too |
| CacheRuns.Run | PUTs/06pseudolru-master/pseudolru.c:203-378 | for every run of puts, gets, removes and pops, up to a pop of an empty cache and with any unused address for each new node: every call does to the contents, and returns, what it does on a finite map, and the count is their size |
| WireFormat.WriteIsBigEndian | PUTs/01pwp/deps/bitstream/bitstream.c:47-54 | flipping and copying a little-endian word puts the most significant byte first |
| WireFormat.ReadWrite | PUTs/01pwp/pwp_msghandler.c:43-68 | reading four written bytes gives the number back |
| WireFormat.SendLayout | PUTs/01pwp/pwp_connection.c:333-441 | every message byte by byte, with its length and type as numbers |
| WireFormat.UnpackPackBits | PUTs/01pwp/pwp_bitfield.c:26-60 | unpacking packed bits gives them back, followed by fewer than eight zeros |
| WireFormat.TestPackedBit | PUTs/01pwp/pwp_msghandler.c:200-232 | the shift test on a packed byte reads exactly its bit |
| WireMachine.CutsDoNotMatter | PUTs/01pwp/pwp_msghandler.c:303-324 | for any byte stream, well formed or not, cutting it into buffers makes no difference to status, state or callbacks |
| WireMachine.RunConcat | PUTs/01pwp/pwp_msghandler.c:303-324 | running two streams one after the other is running their concatenation, stopping at the first refusal |
| WireMachine.ReadsMessage | PUTs/01pwp/pwp_msghandler.c:91-331 | every sendable message but the empty bit field is decoded as itself; an empty block is reported with the next byte |
| WireMachine.MessagesReported | PUTs/01pwp/pwp_msghandler.c:91-331 | the whole stream of any message list is reported message by message, if and only if no bit field is empty and the last message is not an empty block |
| WireMachine.SentIsReceived | PUTs/01pwp/pwp_connection.c:333-441 | the same under every fragmentation of the bytes |
| WireMachine.EmptyBitfieldAborts | PUTs/01pwp/pwp_msghandler.c:234-279 | witness against the unrestricted law: a bit field of no pieces ends in the assertion of the type handler, whatever follows |
| WireMachine.BitfieldTellsPieces | PUTs/01pwp/pwp_bitfield.c:26-60 | bit i of the received field is set if and only if the sender has piece i |
| WireMachine.PieceBytesAt | PUTs/01pwp/pwp_msghandler.c:91-116 | byte i of a received block is byte i of the block sent, at its own offset |
| WireEncoder.SendBitfield | PUTs/01pwp/pwp_bitfield.c:26-60 | the bit-accumulating loop writes exactly the bit field message |
| WireHandler.Handler.constructor | PUTs/01pwp/pwp_msghandler.c:333-368 | a new handler is at the start of a message |
| WireHandler.Handler.TakeU32 | PUTs/01pwp/pwp_msghandler.c:43-68 | takes bytes across calls until four are there, then delivers the number |
| WireHandler.Handler.ProcessLength | PUTs/01pwp/pwp_msghandler.c:281-301 | the length state consumes its bytes as the byte machine does, keep-alive included |
| WireHandler.Handler.ProcessType | PUTs/01pwp/pwp_msghandler.c:234-279 | the type byte selects the next state, ends the message, is refused, or trips the assertion, as the byte machine says |
| WireHandler.Handler.ProcessHave | PUTs/01pwp/pwp_msghandler.c:188-198 | reports the piece and ends the message |
| WireHandler.Handler.ProcessFirstField | PUTs/01pwp/pwp_msghandler.c:126-159 | the first field of request, cancel and piece messages |
| WireHandler.Handler.ProcessOffset | PUTs/01pwp/pwp_msghandler.c:145-178 | the second field of request and cancel messages |
| WireHandler.Handler.ProcessPieceOffset | PUTs/01pwp/pwp_msghandler.c:118-124 | the second field of a piece message |
| WireHandler.Handler.ProcessRequestLen | PUTs/01pwp/pwp_msghandler.c:134-143 | reports the requested block and ends the message |
| WireHandler.Handler.ProcessCancelLen | PUTs/01pwp/pwp_msghandler.c:161-170 | reports the cancelled block and ends the message |
| WireHandler.Handler.ProcessPieceData | PUTs/01pwp/pwp_msghandler.c:91-116 | passes on whatever part of the block has arrived; together the parts are the byte machine's bytes; the buffer pointer goes astray if and only if the rest of the block is longer than INT_MAX and followed by more bytes |
| WireHandler.Handler.ProcessBitfield | PUTs/01pwp/pwp_msghandler.c:200-232 | marks the bits of a byte and reports the field after the last one |
| WireHandler.Handler.DispatchFromBuffer | PUTs/01pwp/pwp_msghandler.c:303-324 | the dispatch loop has, on any buffer and in any state, the effect of the byte machine; or the buffer pointer goes astray, and the contract says exactly when |
| WireHandler.Handler.DispatchBuffers | PUTs/01pwp/pwp_msghandler.c:303-324 | calls with one buffer after the other act as the byte machine on the list of buffers; or the pointer goes astray in one of them, and the contract says exactly when |
| WireHandler.Receive | PUTs/01pwp/pwp_msghandler.c:303-373 | the theorem for the object: a new handler fed the bytes of any sent messages in any buffers has been told of exactly those messages and is ready for the next, if and only if no bit field is empty and the last message is not an empty block; unless the pointer goes astray, which it does not in buffers of at most INT_MAX bytes |
| WireReader.StreamAgrees | PUTs/01pwp/pwp_msghandler.c:43-324 | for every stream of bytes at all, well formed or not: what is told and how the stream ends is what a reader that takes whole messages off the front gives, keep-alives, refused types, failed assertions and unfinished messages included |
| WireReader.MessageAgrees | PUTs/01pwp/pwp_msghandler.c:91-301 | the same for one message from its type on, with every type number |
| WireReader.ReadIsBigEndian | PUTs/01pwp/pwp_msghandler.c:43-68 | four bytes are read as a big-endian number |
| WireReader.Judge | PUTs/01pwp/pwp_msghandler.c:303-373 | the theorem on any bytes for the object, in any buffers |
| WireHandler.ShortBuffersNotAstray | PUTs/01pwp/pwp_msghandler.c:91-116 | no buffer of at most INT_MAX bytes leads the pointer astray, whatever it holds |
| WireHandler.LongBlockStrays | PUTs/01pwp/pwp_msghandler.c:96-106 | witness: 2^31 bytes of a block and one more byte in one buffer |
| PendingRequests.RemnantsCover | PUTs/01pwp/pwp_connection.c:884-943 | with the wrapping sums of the code, what is left of a request covers exactly its bytes minus those of the block, where no end wraps and no assertion fails |
| PendingRequests.ExactlyLeftWhen | PUTs/01pwp/pwp_connection.c:884-943 | for a request whose end does not wrap and any block: the remnants cover the request minus the block if and only if the end of the block does not wrap, the pieces differ, or one of the listed comparisons of the offsets and ends holds |
| PendingRequests.TripsWhen | PUTs/01pwp/pwp_connection.c:908-941 | an assertion on the length of a part fails if and only if a part is longer than INT_MAX, which the offsets and ends of request and block decide |
| PendingRequests.PartLengths | PUTs/01pwp/pwp_connection.c:901-928 | with the wrapping subtractions of the code, the length of every part is the distance of the two ends that bound it, and never 0 |
| PendingRequests.ShortRequestsPass | PUTs/01pwp/pwp_connection.c:908-941 | a request of at most INT_MAX bytes fails no assertion, unless an end wraps |
| PendingRequests.LongRequestTrips | PUTs/01pwp/pwp_connection.c:922-931 | witness: a request for 0xC0000000 bytes fails an assertion when its first byte arrives |
| PendingRequests.RemnantsKeep | PUTs/01pwp/pwp_connection.c:884-943 | no byte of a request outside the block is lost, whether or not the end of the block wraps |
| PendingRequests.RemnantShape | PUTs/01pwp/pwp_connection.c:884-943 | remnants lie inside the request, are not empty unless it was, and are left alone by the same block |
| PendingRequests.CoverIsDifference | PUTs/01pwp/pwp_connection.c:846-947 | the bytes pending after a block are exactly those pending before minus the block, where no end wraps |
| PendingRequests.OtherPiecesUntouched | PUTs/01pwp/pwp_connection.c:846-947 | requests for other pieces stay, with their ticks |
| PendingRequests.SurvivorsKeepTick | PUTs/01pwp/pwp_connection.c:846-947 | every surviving request lies in an old one, has its tick and is not empty |
| PendingRequests.DisjointStaysDisjoint | PUTs/01pwp/pwp_connection.c:846-947 | pairwise disjoint requests stay pairwise disjoint |
| PendingRequests.FitClips | PUTs/01pwp/pwp_connection.c:475-481 | fitting a request clips it to the piece if and only if it lies within already, or is seen to overshoot and by as much as its offset lies before the end |
| PendingRequests.FitClipsWrongly | PUTs/01pwp/pwp_connection.c:475-481 | witness: of 20 bytes requested from a piece of 16 four are asked for |
| PendingRequests.FitAsksFor | PUTs/01pwp/pwp_connection.c:475-481 | an overshooting request asks for as many bytes as lie beyond the piece |
| PendingRequests.WrappedBlockAdds | PUTs/01pwp/pwp_connection.c:895-919 | witness: a block of three bytes at offset 0xFFFFFFFF turns a request for one byte at 0x80000000 into requests for the bytes from 2 to 0xFFFFFFFE, and no assertion fails |
| Connection.Conn.constructor | PUTs/01pwp/pwp_connection.c:132-155 | a new connection has no requests and both sides choke |
| Connection.Conn.RemovePending | PUTs/01pwp/pwp_connection.c:846-947 | the loop over all pending requests, in any order, runs to its end if and only if no request has a part longer than INT_MAX. Then no byte outside the block is lost, no pending end wraps and every tick is one of a request; if the end of the block does not wrap, each request is replaced by its remnants and nothing else changes |
| Connection.Conn.Reduce | PUTs/01pwp/pwp_connection.c:881-943 | one request is replaced by its remnants for any block, with the order of the insertions and the removal, if and only if no assertion on a part fails |
| Connection.Conn.Piece | PUTs/01pwp/pwp_connection.c:949-964 | a received block is passed on and every requested byte stays accounted for, for any block, if and only if no assertion fails; if the end of the block does not wrap it is subtracted exactly |
| Connection.Conn.RequestBlock | PUTs/01pwp/pwp_connection.c:495-519 | the fitted request is remembered with the current tick and sent, with the outcome of the send. Accounting, ticks and the queue of the peer stay consistent for any block; that no pending end wraps is kept if and only if it holds of the fitted request |
| Connection.Conn.Choke | PUTs/01pwp/pwp_connection.c:660-667 | all pending requests, and no others, are handed back and forgotten |
| Connection.Conn.GiveBack | PUTs/01pwp/pwp_connection.c:165-200 | a set of pending requests is removed and handed back |
| Connection.Conn.ExpungeOld | PUTs/01pwp/pwp_connection.c:202-236 | exactly the requests older than 10 ticks are handed back; the others keep their ticks |
| Connection.Conn.Periodic | PUTs/01pwp/pwp_connection.c:575-647 | the exact outcome: requests older than 10 ticks and no others are handed back; unless the peer is uncontactable its first queued block is served, and then the first of the queued and polled blocks is asked for if we are interested and not choked, our interest is declared if we are not interested, and nothing is sent if we are choked; log, pending requests, queues and flags to match. An interested peer changes the peer-choking flag only. Accounting, ticks and the queue of the peer stay consistent for any blocks; that no pending end wraps is kept if all queued requests fit without wrapping |
| Connection.Conn.Converse | PUTs/01pwp/pwp_connection.c:586-631 | the part for a peer that can be contacted |
| Connection.Conn.SeekBlocks | PUTs/01pwp/pwp_connection.c:605-631 | polls for as many blocks as ten pending requests leave room for and asks for the first queued one, if interested and not choked, else declares interest |
| Connection.PolledFirst | PUTs/01pwp/pwp_connection.c:614-622 | the polled blocks are the first offered ones, as many as ten pending requests leave room for |
| Connection.Conn.ServePeer | PUTs/01pwp/pwp_connection.c:588-594 | the first queued block of the peer is sent, with the outcome of the send, and leaves the queue |
| Connection.Conn.SendChange | PUTs/01pwp/pwp_connection.c:333-349 | a state change is sent; a failed send disconnects, a missing callback does nothing |
| Connection.SendOutcomes | PUTs/01pwp/pwp_connection.c:99-112 | what each outcome of a send puts into the log |
| Connection.Conn.ChokePeer | PUTs/01pwp/pwp_connection.c:304-311 | choking empties the peer's queue |
| Connection.Conn.UnchokePeer | PUTs/01pwp/pwp_connection.c:313-319 | the peer may send requests again |
| Connection.Conn.Request | PUTs/01pwp/pwp_connection.c:749-821 | a request is accepted exactly under the listed conditions, with the wrapping sum of the code, queued unless it already is, and otherwise disconnects; an accepted block lies in the piece if and only if its end does not wrap |
| Connection.AcceptedInPiece | PUTs/01pwp/pwp_connection.c:793-797 | a block that passes the check lies in the piece if and only if offset plus length is below 2^32 |
| Connection.WrappedRequestAccepted | PUTs/01pwp/pwp_connection.c:793-797 | witness: two bytes at offset 0xFFFFFFFF pass the check of every piece that is not empty |
| Connection.Conn.Cancel | PUTs/01pwp/pwp_connection.c:823-835 | the queued request equal to the cancelled one goes, the others stay in order |
| Connection.Conn.MarkPeerHasPiece | PUTs/01pwp/pwp_connection.c:455-471 | a piece index in range is marked, any other disconnects |
| Connection.AccountedStep | PUTs/01pwp/pwp_connection.c:495-519 | the conservation law survives any step that loses no byte silently: each byte ever requested is pending, or was later received or handed back |
| Connection.GivenBackAccounted | PUTs/01pwp/pwp_connection.c:165-236 | handing requests back keeps every byte accounted for |
| Connection.ReducedStep | PUTs/01pwp/pwp_connection.c:877-944 | one round of the loop subtracts the block from one more request and leaves the rest of the work unchanged |
| Connection.KeepsRestStep | PUTs/01pwp/pwp_connection.c:877-944 | one round of the loop with any block loses no byte outside it and leaves no end that wraps |
| Connection.ReceivedAccounted | PUTs/01pwp/pwp_connection.c:949-964 | receiving any block keeps every byte accounted for |
| Arithmetic.CancelOdd | PUTs/07quadratic-probing-hashmap/quadratic_probing_hashmap.c:150-182 | an odd factor cancels modulo a power of two |
| Probing.QuadraticDistinct | PUTs/07quadratic-probing-hashmap/quadratic_probing_hashmap.c:150-182 | the even-numbered probes of a table of 2^n slots are pairwise different |
| Probing.QuadraticReaches | PUTs/07quadratic-probing-hashmap/quadratic_probing_hashmap.c:150-182 | without overflow every slot is reached within twice the table size |
| Probing.LinearReaches | hashset/hashset.c:56-78 | the odd step 5009 reaches every slot within the table size |
| Probing.InjectionIsOnto | PUTs/07quadratic-probing-hashmap/quadratic_probing_hashmap.c:150-182 | pairwise different probes are all slots |
| QuadSlots.GetProbeIs | PUTs/07quadratic-probing-hashmap/quadratic_probing_hashmap.c:155-170 | the unsigned slot of get is the probe sequence for every hash code, if and only if the square of the probe number does not overflow |
| QuadSlots.PutProbeIs | PUTs/07quadratic-probing-hashmap/quadratic_probing_hashmap.c:270-280 | the signed slot of put and remove stays in the table if and only if nothing overflows and the sum is not negative or a multiple of the size, and is the probe sequence then |
| QuadSlots.ProbesAgree | PUTs/07quadratic-probing-hashmap/quadratic_probing_hashmap.c:155-280 | where put and remove stay in the table they look where get looks |
| QuadSlots.FitsExactly | PUTs/07quadratic-probing-hashmap/quadratic_probing_hashmap.c:204-280 | for tables of four slots and more: all probes of one round stay in the table if and only if the hash code is not negative as an int and the last probe does not overflow |
| QuadSlots.NegativeLeaves | PUTs/07quadratic-probing-hashmap/quadratic_probing_hashmap.c:204-280 | a hash code with bit 31 set leaves every table of four slots and more by the third probe |
| QuadSlots.HighBitLeaves | PUTs/07quadratic-probing-hashmap/quadratic_probing_hashmap.c:204-280 | witness: hash code 0x80000001 in four slots leads put to index -3 and get to slot 1 |
| QuadTable.ProbesEnd | PUTs/07quadratic-probing-hashmap/quadratic_probing_hashmap.c:150-182 | while at most half of the slots are used, every probe sequence meets an empty slot within as many probes as there are slots |
| QuadTable.AbsentAtEmpty | PUTs/07quadratic-probing-hashmap/quadratic_probing_hashmap.c:150-182 | meeting an empty slot before the key means the key is absent |
| QuadTable.SetLive | PUTs/07quadratic-probing-hashmap/quadratic_probing_hashmap.c:256-304 | storing a key where its probe stopped binds it and keeps every other key reachable |
| QuadTable.SetTomb | PUTs/07quadratic-probing-hashmap/quadratic_probing_hashmap.c:197-236 | a tombstone unbinds one key and keeps every other key reachable |
| QuadMap.Map.constructor | PUTs/07quadratic-probing-hashmap/quadratic_probing_hashmap.c:60-76 | a new table is the empty map; with fewer than two slots it is not a table that the operations keep sound |
| QuadMap.CapacityOneNeverEnds | PUTs/07quadratic-probing-hashmap/quadratic_probing_hashmap.c:150-182 | with one slot, taken by another key, no probe ever stops |
| QuadMap.Map.FindForGet | PUTs/07quadratic-probing-hashmap/quadratic_probing_hashmap.c:155-182 | the probe loop of get ends at the key or at an empty slot, if and only if it meets one before the probe number overflows, which every table of up to 46340 slots guarantees |
| QuadMap.Map.FindForRemove | PUTs/07quadratic-probing-hashmap/quadratic_probing_hashmap.c:203-231 | the probe loop of remove does the same, if and only if no probe before leaves the table; a fitting hash code guarantees it |
| QuadMap.Map.Get | PUTs/07quadratic-probing-hashmap/quadratic_probing_hashmap.c:150-182 | as long as no probe overflows, get is lookup in the map, null for an absent key, for every hash code |
| QuadMap.Map.RemoveEntry | PUTs/07quadratic-probing-hashmap/quadratic_probing_hashmap.c:197-236 | as long as no probe leaves the table, remove deletes exactly one binding; the key it reports is the tombstone |
| QuadMap.Map.FindForPut | PUTs/07quadratic-probing-hashmap/quadratic_probing_hashmap.c:270-303 | the probe loop of put ends at the key, an empty slot or a tombstone, if and only if no probe before leaves the table; a fitting hash code guarantees it |
| QuadMap.Map.Insert | PUTs/07quadratic-probing-hashmap/quadratic_probing_hashmap.c:270-303 | inside the table, the insertion binds the key and stays sound if and only if its probe does not stop at a tombstone |
| QuadMap.Map.Put | PUTs/07quadratic-probing-hashmap/quadratic_probing_hashmap.c:256-304 | put refines map update through every doubling: a table that is not grown is left if and only if a probe of the key leaves it, a table that is grown if and only if an entry or the key leaves the new one, fitting keys never leave it, and inside it stays sound if and only if the probe does not stop at a tombstone; then the tombstone is overwritten and the count stays. A put makes no tombstone, and the array is the old one or a fresh one of twice the size |
| QuadRuns.Run | PUTs/07quadratic-probing-hashmap/quadratic_probing_hashmap.c:96-304 | for every run of puts, gets, removes and clears: all answers up to a call that leaves the table or lands on a tombstone are those of a finite map, and a run to the end leaves the table of the final map. No call leaves the table if all keys fit the largest size it can reach, and none lands on a tombstone if no put follows a remove |
| QuadRuns.RunNew | PUTs/07quadratic-probing-hashmap/quadratic_probing_hashmap.c:60-304 | the same for a new map of at least two slots |
| QuadRuns.Perform | PUTs/07quadratic-probing-hashmap/quadratic_probing_hashmap.c:96-304 | one call of a run, with the bounds on the slots used and on the size that it keeps |
| QuadMap.Map.IncreaseCapacity | PUTs/07quadratic-probing-hashmap/quadratic_probing_hashmap.c:318-345 | doubling keeps the map, drops the tombstones and leaves more than half of the slots unused. It stays inside the new table if and only if the size is an int and no entry, put again in the order of the old slots, leaves the table that the ones before it built; fitting keys stay inside |
| QuadMap.Map.EnsureCapacity | PUTs/07quadratic-probing-hashmap/quadratic_probing_hashmap.c:347-359 | grows exactly when the quotient of slots used and size, as floats, is not below one half, and stays inside under the condition of the doubling |
| SinglePrecision.HalfUsedWhen | PUTs/07quadratic-probing-hashmap/quadratic_probing_hashmap.c:351-351 | up to 2^25 slots the rounded quotient reaches one half exactly when half of the slots are used, in a table of 2^n slots beyond that 2^(n-26) slots early |
| SinglePrecision.GrowsEarly | PUTs/07quadratic-probing-hashmap/quadratic_probing_hashmap.c:351-351 | witness: a table of 2^26 slots grows with 2^25 - 1 of them used |
| SinglePrecision.Nearest | PUTs/07quadratic-probing-hashmap/quadratic_probing_hashmap.c:351-351 | the conversion gives a number with 24 significant bits, none being nearer |
| QuadMap.PlacedAt | PUTs/07quadratic-probing-hashmap/quadratic_probing_hashmap.c:276-301 | the probe sequence of put ends at one place at most, and the entry is written there |
| QuadMap.Map.Clear | PUTs/07quadratic-probing-hashmap/quadratic_probing_hashmap.c:96-123 | clearing empties the map and keeps the table sound |
| QuadMap.InsertOutcome | PUTs/07quadratic-probing-hashmap/quadratic_probing_hashmap.c:256-304 | what storing does in each of the three cells where the probe can stop |
| QuadMap.TombBreaks | PUTs/07quadratic-probing-hashmap/quadratic_probing_hashmap.c:256-304 | storing over a tombstone always leaves the count behind or the key twice |
| QuadMap.TombEffect | PUTs/07quadratic-probing-hashmap/quadratic_probing_hashmap.c:282-294 | what storing over a tombstone does: an absent key is bound with the count one behind; a present key is stored twice, a search meets the new binding first, and removing that gives the old table back |
| QuadMap.RemovedKeyLandsOnTomb | PUTs/07quadratic-probing-hashmap/quadratic_probing_hashmap.c:197-304 | a removed key that is put again stops at a tombstone, in every sound table |
| HashSet.LinearStep | hashset/hashset.c:56-78 | the masked step of the loop is the probe sequence |
| HashSet.ProbesEnd | hashset/hashset.c:56-78 | a table with a free slot stops every probe |
| HashSet.StoreSound | hashset/hashset.c:56-78 | storing a new value in the free slot where its probe stopped adds exactly it and keeps the others reachable |
| HashSet.LoadIsSize | hashset/hashset.c:43-46 | the number of taken slots is the number of members |
| HashSet.Set.constructor | hashset/hashset.c:24-41 | a new set is empty |
| HashSet.Set.AddMember | hashset/hashset.c:56-78 | adds the value unless it is below 2 or a member, and says which |
| HashSet.Set.MaybeRehash | hashset/hashset.c:80-100 | doubles exactly when the item count, rounded to a float, reaches the rounded threshold; that keeps the members and the count, and the load is below the threshold afterwards |
| HashSet.ThresholdIs | hashset/hashset.c:86-86 | the threshold is 85 percent of the capacity, rounded down |
| HashSet.Set.Add | hashset/hashset.c:102-107 | the value is a member afterwards unless it is below 2, and the item count is the number of members; the array is the old one or a fresh one |
| HashSet.AddAll | hashset/hashset.c:24-107 | for every run of additions to a new set: each call tells whether its value came before, the members are exactly the values from 2 on, and the item count is their number |
| HashSet.Set.IsMember | hashset/hashset.c:126-139 | the membership probe ends and decides membership |
| AtlasTree.LeavesTile | PUTs/08texture-atlas/texture_atlas.c:145-226 | every point of the square lies in exactly one leaf, every other point in none |
| AtlasTree.LeavesDisjoint | PUTs/08texture-atlas/texture_atlas.c:145-226 | no two leaves share a point |
| AtlasTree.UsedIsLeaf | PUTs/08texture-atlas/texture_atlas.c:170-178 | every texture is one of the leaves |
| AtlasTree.UsedApart | PUTs/08texture-atlas/texture_atlas.c:145-226 | two textures of a tiled square share no point and lie inside it |
| AtlasTree.InsertPlaces | PUTs/08texture-atlas/texture_atlas.c:145-226 | a placement is found if and only if some free leaf is large enough, has exactly the requested size, and adds exactly one used rectangle: no other moves |
| AtlasTree.InsertCarves | PUTs/08texture-atlas/texture_atlas.c:145-226 | the first free leaf that is large enough, in the order of the leaves, is taken; the texture lies in its corner, the larger margin keeps the whole side, the smaller one ends at the texture, and no other leaf changes |
| AtlasTree.RoomLeft | PUTs/08texture-atlas/texture_atlas.c:185-223 | the room left in a free rectangle: a second texture fits if and only if it fits one of the two margins |
| AtlasTree.LowerHalfStays | PUTs/08texture-atlas/texture_atlas.c:195-223 | instance: 32 by 32 on a square of 64 leaves the lower half whole |
| AtlasTree.InsertKeepsTiling | PUTs/08texture-atlas/texture_atlas.c:145-226 | the tiling survives an insertion if and only if the requested size is positive |
| AtlasTree.LeafPlacement | PUTs/08texture-atlas/texture_atlas.c:167-225 | splitting a free leaf places the texture at its corner |
| Atlas.Texture.Insert | PUTs/08texture-atlas/texture_atlas.c:145-226 | the recursion over node objects builds exactly that tree in place, and changes the id of no other node |
| Atlas.Atlas.constructor | PUTs/08texture-atlas/texture_atlas.c:93-124 | a new atlas is one free square |
| Atlas.Atlas.PushPixels | PUTs/08texture-atlas/texture_atlas.c:236-269 | 0 is returned and nothing changes if and only if no free leaf is large enough; otherwise the new id indexes its own leaf of the requested size and all earlier ids keep theirs; while the square is tiled no two textures overlap; the leaves after the push are those before with the first fitting one carved up |
| Atlas.Atlas.TexturesApart | PUTs/08texture-atlas/texture_atlas.c:236-269 | in a tiled atlas the rectangles registered under different ids share no point |
| Atlas.Atlas.TexturesInside | PUTs/08texture-atlas/texture_atlas.c:236-269 | no texture of a tiled atlas reaches beyond the square |
| Atlas.PushAll | PUTs/08texture-atlas/texture_atlas.c:236-269 | for every run of pushes on a new atlas: each is refused if and only if the tree before it has no free leaf of its size, the ids increase and each still leads to a texture of the pushed size, and textures of positive size lie apart and inside the square; the leaves between the pushes are determined by the sizes |
| CheckPack.UpackPackInt | libcheck/src/check_pack.c:128-151 | the big-endian form of a signed number is read back, negative numbers included |
| CheckPack.PackedNumbers | libcheck/src/check_pack.c:128-139 | the bytes of some numbers, negative ones included |
| CheckPack.PackLayout | libcheck/src/check_pack.c:201-330 | the bytes of every message with its type number |
| CheckPack.UpackPackStr | libcheck/src/check_pack.c:153-188 | a packed string is read back; a null string as the empty one |
| CheckPack.UpackPack | libcheck/src/check_pack.c:98-126 | a packed message at the front of any buffer is read back with its exact size, whatever bytes follow |
| CheckResult.Cursor.PutInt | libcheck/src/check_pack.c:128-139 | writes the four bytes at the cursor and moves it |
| CheckResult.Cursor.PutStr | libcheck/src/check_pack.c:153-168 | writes the length and the bytes of a string |
| CheckResult.Cursor.TakeInt | libcheck/src/check_pack.c:141-151 | reads a number at the cursor and moves it |
| CheckResult.Cursor.TakeStr | libcheck/src/check_pack.c:170-188 | reads a string at the cursor and moves it |
| CheckResult.PackNumber | libcheck/src/check_pack.c:201-232 | the buffer of a context or duration message |
| CheckResult.PackFail | libcheck/src/check_pack.c:260-272 | the buffer of a failure message, of exactly the computed size |
| CheckResult.PackLoc | libcheck/src/check_pack.c:239-252 | the buffer of a location message, of exactly the computed size |
| CheckResult.PackMessage | libcheck/src/check_pack.c:98-108 | the buffer built in place is the packed message |
| CheckResult.UnpackMessage | libcheck/src/check_pack.c:110-126 | reading with a moving cursor agrees with the recursive reader on message and size |
| CheckResult.Pipe.Send | libcheck/src/check_pack.c:293-314 | a message is appended to the stream if and only if it takes at most half the window |
| CheckResult.Pipe.ReadBuf | libcheck/src/check_pack.c:316-327 | reads as many bytes as there are, up to the size asked for |
| CheckResult.Receiver.UpdateCtx | libcheck/src/check_pack.c:404-412 | a context message after another one clears the fixture location |
| CheckResult.Receiver.UpdateLoc | libcheck/src/check_pack.c:414-425 | a location goes to the test or to the fixture, by the current context |
| CheckResult.Receiver.GetResult | libcheck/src/check_pack.c:329-368 | one message at the front of the window updates the result as the fold step does |
| CheckResult.WholeMessageInFront | libcheck/src/check_pack.c:427-462 | a window that is full, or holds all that is left, has a whole message at its front, and what remains is the rest of the stream |
| CheckResult.Slide | libcheck/src/check_pack.c:440-452 | moving and refilling keeps the window full unless the stream has ended, and loses no byte |
| CheckResult.Punpack | libcheck/src/check_pack.c:427-462 | for every list of messages that fit the window and streams of any length, the sliding window gives exactly the fold of the messages, and null if and only if no context is in force at the end |
| CheckResult.FailureStays | libcheck/src/check_pack.c:329-368 | a recorded failure is never replaced: message, failing context and test location stay; a fixture location stays until the next context message |
| CheckResult.FailureRecorded | libcheck/src/check_pack.c:329-425 | the first failure is recorded with the context and the last location sent before it |
| CheckResult.FailureReported | libcheck/src/check_msg.c:140-182 | the first failure is reported with its own context and location, if and only if the context at the end is the same and, outside of a test, no context message follows it |
| CheckResult.PassReported | libcheck/src/check_msg.c:140-182 | without a failure the report carries the last duration sent and the last location sent in the test; a test that ended in the setup or with an error, the location of its context and no duration |
| CheckResult.ReceivedWithoutFailure | libcheck/src/check_pack.c:329-368 | what is kept of messages without a failure: the last context, duration, and location inside and outside of the test |
| CheckResult.TeardownHidesFailure | libcheck/src/check_msg.c:140-182 | witness: a failure in the test followed by the teardown context is reported for the teardown and without location |
| Bitstream.PutAt | PUTs/01pwp/deps/bitstream/bitstream.c:76-108 | the effect of a write on every bit of the stream: combined with the first word, replacing in the next, and clearing the rest of that next word |
| Bitstream.GetAt | PUTs/01pwp/deps/bitstream/bitstream.c:130-168 | a read gives exactly the bits of the field, right-aligned, across a word boundary too |
| Bitstream.ReadBack | PUTs/01pwp/deps/bitstream/bitstream.c:76-168 | a written field is read back if and only if the value covers the bits already set in the field's first word |
| Bitstream.SetBitStays | PUTs/01pwp/deps/bitstream/bitstream.c:76-168 | witness: writing 0 over a set bit does not clear it |
| Bitstream.PutExtends | PUTs/01pwp/deps/bitstream/bitstream.c:76-108 | writing at a clear position leaves everything before it as it was and everything after it clear |
| Bitstream.RoundTrip | PUTs/01pwp/deps/bitstream/bitstream.c:76-168 | any number of fields of widths 1 to 32, written from a clear position, are all read back modulo 2 to their width |
| Bitstream.ShlValue | PUTs/01pwp/deps/bitstream/bitstream.c:76-108 | the left shift of words is multiplication modulo 2^32 |
| Bitstream.ShrValue | PUTs/01pwp/deps/bitstream/bitstream.c:130-168 | the right shift of words is division |
| Bitstream.Stream.constructor | PUTs/01pwp/deps/bitstream/bitstream.c:6-12 | a new stream is clear |
| Bitstream.Stream.Write | PUTs/01pwp/deps/bitstream/bitstream.c:76-108 | the update in place of one or two words is the write above |
| Bitstream.Stream.Read | PUTs/01pwp/deps/bitstream/bitstream.c:130-168 | the read from one or two words is the read above, as a number |
| ChunkList.MarkCovers | PUTs/11CSparseCounter/chunkybar.c:83-183 | marking a range complete is exact set union, for every list and range |
| ChunkList.MarkProper | PUTs/11CSparseCounter/chunkybar.c:83-183 | the list stays sorted, without empty and without touching chunks, if and only if the range is not empty or its position touches a chunk |
| ChunkList.UnmarkCovers | PUTs/11CSparseCounter/chunkybar.c:185-262 | marking a range incomplete is exact set difference if and only if it does not swallow the first chunk and reach into the second; in that case exactly the whole second chunk is left over |
| ChunkList.SecondChunkStays | PUTs/11CSparseCounter/chunkybar.c:203-220 | witness: of the chunks [0, 1) and [2, 3), marking [0, 3) incomplete leaves the second |
| ChunkList.UnmarkProper | PUTs/11CSparseCounter/chunkybar.c:185-262 | the list stays proper if and only if the range is not empty or its position is not strictly inside a chunk |
| ChunkList.TotalIsSize | PUTs/11CSparseCounter/chunkybar.c:327-340 | the lengths of a proper list add up to the size of the set |
| ChunkList.RangeInOneChunk | PUTs/11CSparseCounter/chunkybar.c:342-370 | a non-empty range is covered if and only if one chunk holds all of it |
| ChunkList.SingleRun | PUTs/11CSparseCounter/chunkybar.c:264-270 | a single chunk of length max means that the set is one run of max positions with max positive, and conversely |
| ChunkList.CompleteMeansAll | PUTs/11CSparseCounter/chunkybar.c:264-270 | with all marks in [0, max) and max positive that means the set is [0, max) |
| Chunkybar.Counter.constructor | PUTs/11CSparseCounter/chunkybar.c:34-44 | a new counter covers nothing |
| Chunkybar.Counter.FeastFrom | PUTs/11CSparseCounter/chunkybar.c:166-182 | the loop in which one chunk takes in its successors |
| Chunkybar.Counter.MarkComplete | PUTs/11CSparseCounter/chunkybar.c:83-183 | the walk, the insertion and the merging in place give exactly the union, with the exact condition for a proper list |
| Chunkybar.Counter.MarkIncomplete | PUTs/11CSparseCounter/chunkybar.c:185-262 | the loop in place, with its skipped chunk, gives exactly the stated set, with the exact condition for set difference |
| Chunkybar.Counter.CutFirst | PUTs/11CSparseCounter/chunkybar.c:203-220 | the round without predecessor, after which the new first chunk is skipped |
| Chunkybar.Counter.Trim | PUTs/11CSparseCounter/chunkybar.c:221-260 | splitting or shortening one chunk in place leaves the rest of the work unchanged |
| Chunkybar.Counter.MarkAllIncomplete | PUTs/11CSparseCounter/chunkybar.c:68-71 | everything within the maximum is removed, except the second chunk if the range reaches into it past a swallowed first one |
| Chunkybar.Counter.IsComplete | PUTs/11CSparseCounter/chunkybar.c:264-270 | true exactly for a single run of max positions, max positive |
| Chunkybar.Counter.BytesCompleted | PUTs/11CSparseCounter/chunkybar.c:327-340 | the sum is the cardinality of the set |
| Chunkybar.Counter.Have | PUTs/11CSparseCounter/chunkybar.c:342-370 | range subset for a non-empty range; for an empty one, whether its position touches a chunk |
| ChainTable.Replaced | PUTs/04CHashMapViaLinkedList/linked_list_hashmap.c:297-345 | replacing a value in a chain is map update |
| ChainTable.Appended | PUTs/04CHashMapViaLinkedList/linked_list_hashmap.c:297-345 | appending to the chain of an absent key is map update |
| ChainTable.Removed | PUTs/04CHashMapViaLinkedList/linked_list_hashmap.c:207-268 | taking an entry out of its chain removes exactly its binding |
| ChainTable.FlatIsMap | PUTs/04CHashMapViaLinkedList/linked_list_hashmap.c:470-537 | the entries in slot order are the bindings of the map, each exactly once |
| ChainMap.HashMap.constructor | PUTs/04CHashMapViaLinkedList/linked_list_hashmap.c:63-77 | a new map is empty |
| ChainMap.HashMap.Get | PUTs/04CHashMapViaLinkedList/linked_list_hashmap.c:164-197 | get is lookup in the map, null for an absent key |
| ChainMap.HashMap.ContainsKey | PUTs/04CHashMapViaLinkedList/linked_list_hashmap.c:199-205 | decides whether the key is bound |
| ChainMap.HashMap.RemoveEntry | PUTs/04CHashMapViaLinkedList/linked_list_hashmap.c:207-268 | removes exactly the binding of the key and reports it |
| ChainMap.HashMap.Put | PUTs/04CHashMapViaLinkedList/linked_list_hashmap.c:297-345 | map update through any growth, returning the previous value; null keys and values are ignored |
| ChainMap.HashMap.EnsureCapacity | PUTs/04CHashMapViaLinkedList/linked_list_hashmap.c:401-413 | grows exactly when the table is half full, keeping the map |
| ChainMap.HashMap.IncreaseCapacity | PUTs/04CHashMapViaLinkedList/linked_list_hashmap.c:355-399 | rehashing by put keeps the map for every positive factor; no growth is nested in it for a factor of 2 or more, nor for a factor of 1 on a table that is less than half full before its last entry |
| ChainMap.HashMap.Clear | PUTs/04CHashMapViaLinkedList/linked_list_hashmap.c:110-137 | clearing empties the map, and the count decremented node by node is zero at the end |
| ChainMap.MapIterator.Next | PUTs/04CHashMapViaLinkedList/linked_list_hashmap.c:470-537 | hands out the entries in slot order, one per call, then null |
| ChainMap.Keys | PUTs/04CHashMapViaLinkedList/linked_list_hashmap.c:470-546 | iterating over an unmodified map gives every key exactly once |
| BipBuffer.Buffer.constructor | PUTs/15bipbuffer-master/bipbuffer.c:42-56 | a new buffer is an empty queue |
| BipBuffer.Buffer.Unused | PUTs/15bipbuffer-master/bipbuffer.c:23-30 | the room reported, as an int, is never more than the block has left |
| BipBuffer.Buffer.Used | PUTs/15bipbuffer-master/bipbuffer.c:37-40 | the number of bytes queued |
| BipBuffer.Buffer.IsEmpty | PUTs/15bipbuffer-master/bipbuffer.c:63-66 | true exactly for the empty queue |
| BipBuffer.SwitchedKeeps | PUTs/15bipbuffer-master/bipbuffer.c:70-74 | turning on region B keeps the order of the regions and the queue and never lowers the room |
| BipBuffer.SwitchedRoom | PUTs/15bipbuffer-master/bipbuffer.c:70-74 | the switch gives the larger of the two gaps, and with region B off no more room lies before region A than behind it |
| BipBuffer.SwitchGivesRoom | PUTs/15bipbuffer-master/bipbuffer.c:70-74 | instance: a full block of six, polled for four, has room for four |
| BipBuffer.GrownQueue | PUTs/15bipbuffer-master/bipbuffer.c:76-95 | bytes written behind the region in use are added to the queue |
| BipBuffer.ShrunkQueue | PUTs/15bipbuffer-master/bipbuffer.c:109-138 | taking no more than region A holds takes the front of the queue, through the change to region B |
| BipBuffer.ShrunkTooFar | PUTs/15bipbuffer-master/bipbuffer.c:114-134 | taking more than region A holds leaves the regions out of order, unless the start wraps around |
| BipBuffer.PollBeyondRegion | PUTs/15bipbuffer-master/bipbuffer.c:109-138 | witness: a block of ten that holds four bytes, polled for six |
| BipBuffer.Buffer.Offer | PUTs/15bipbuffer-master/bipbuffer.c:76-95 | appends all the bytes to the region in use if it has room for them, with the regions that result, and otherwise nothing; over every run the bytes offered are the bytes polled followed by the queue. With region B off the bytes are accepted if and only if they fit the larger of the two gaps, with it on if and only if they fit before region A |
| BipBuffer.Buffer.Poll | PUTs/15bipbuffer-master/bipbuffer.c:109-138 | refused exactly on an empty queue or if the wrapped sum is beyond the block; otherwise what is handed out and the regions that result; the buffer stays a queue, and hands out its front, if and only if it is refused or region A holds as many bytes as are asked for |
| HeapOrder.RiseStep | PUTs/12heap-master/heap.c:97-114 | one swap upwards moves the only possible violation to the parent |
| HeapOrder.SinkStep | PUTs/12heap-master/heap.c:116-149 | one swap with the greater child moves the only possible violation to that child |
| HeapOrder.RootIsGreatest | PUTs/12heap-master/heap.c:176-198 | no item of a heap-ordered array is greater than the root |
| Heap.PriorityQueue.constructor | PUTs/12heap-master/heap.c:43-70 | a new heap is empty |
| Heap.PriorityQueue.PushUp | PUTs/12heap-master/heap.c:97-114 | restores the order after an item was appended, keeping the items |
| Heap.PriorityQueue.PushDown | PUTs/12heap-master/heap.c:116-149 | restores the order after the root was replaced, keeping the items |
| Heap.PriorityQueue.EnsureCapacity | PUTs/12heap-master/heap.c:79-87 | a full array is doubled, with the same contents |
| Heap.PriorityQueue.OfferX | PUTs/12heap-master/heap.c:159-165 | adds exactly the item, or -1 if the array is full |
| Heap.PriorityQueue.Offer | PUTs/12heap-master/heap.c:167-174 | adds exactly the item, growing if needed |
| Heap.PriorityQueue.Poll | PUTs/12heap-master/heap.c:176-190 | removes exactly one item, a greatest one |
| Heap.PriorityQueue.Peek | PUTs/12heap-master/heap.c:192-198 | gives a greatest item |
| Heap.PriorityQueue.PollAll | PUTs/12heap-master/heap.c:176-190 | polling until empty gives a non-increasing permutation of the contents |

## Left out

- WireEncoder.SendBitfield: requires that the message fits the 1000-byte buffer of the C function.
- QuadMap.Map.constructor: a capacity of 2^31, which does not fit the int that holds the size.
- QuadMap.Map.Put: the state after a probe has left the table, which C leaves undefined.
- BipBuffer.Buffer.Poll: what lies beyond the block when a poll wraps around.
- The order in which the chained map yields pending requests. After a block whose end wraps, what is pending for several requests can depend on it; what is left of each is exact.
- ChainMap.HashMap.IncreaseCapacity: excludes a factor of 0, after which every lookup divides by zero.
- ChainMap.HashMap.Put: requires fewer than 32767 entries for a new key, which the C code asserts.
- ChainMap.MapIterator.Next: removal while iterating, and with it the branch for a dangling chain position.
- Heap.PriorityQueue.Offer: requires an array that is not of size 0, since doubling gives no room then and the item is written past the end.
- Atlas.Atlas.PushPixels: the map of ids has no limit; the chained map that holds it asserts fewer than 32768 entries, so that the 32768th texture stops the process.
- Connection.Conn.RequestBlock: the same for the map of pending requests.
- HashSet.Set.MaybeRehash: the capacity is computed by shifting an int, which overflows at 2^31 slots.
- QuadRuns.RunNew: requires at least two slots, since a map of one slot does not end its probes (`QuadMap.CapacityOneNeverEnds`).
- Bitstream.Stream.Write: a width of 0, which shifts by 32 and is undefined in C.
- PseudoLru.Cache.Remove: keys are compared by value; the C code also asserts that the stored key is the same pointer as the argument, so that an equal key at another address aborts.
- PseudoLru.Cache.PopLru: an empty cache, for which the C code follows a null pointer.
- Unsigned wrap-around of offset plus length in the interval counter, and of bit positions in the bit stream.
- The chains of the interval counter and of the chained map are sequences: links, freeing and reuse of their nodes are not modelled.
- Custom message handlers of the wire decoder, and bit fields whose length times eight wraps.
- The byte and single-bit writers of the bit stream at a bit offset, and its string functions.
- `heap_remove_item`, which only sifts up, and `chunky_get_incomplete`.
- Removal from the hash set and its iterator, and the iterator of the quadratic-probing map.
- Setters of single flags of the connection, transfer rates, logging and freeing of memory.
- The mutation engine itself, the test runner of libcheck, Raft, the AVL tree, the plain splay tree and the circular buffer.
