# Verified models of Ember's in-process runtime, text and synchronisation components

Ember bundles four libraries whose correctness rests on pointer work, bit arithmetic or the order of
concurrent steps. This project models each in Dafny and proves what its documentation promises.
`dafny verify dfyconfig.toml` checks everything.

**Remotery** (`external/Remotery/lib`), the profiler.
`MessageQueue` is the multi-producer, single-consumer ring as a transition system, one load, test, swap
or store a step, any number of producers, sequentially consistent. Positions are unwrapped naturals;
the loads and swaps compare their 32-bit words, as the code does. `FreeList` is the lock-free object
allocator in the same style; `QueueCalls` and `ListCalls` say what becomes of each call of either.
`HashTable`, `Buffers` and `StringTables` are the growing map, the byte buffer with its message framing,
and the name table on top of both. `Samples` defines what beginning and ending a sample does to the sample
tree, on numbered nodes; `SampleRuns` and `SampleTimes` prove what every run keeps, `SampleReports` what
the trees sent mean, `SampleCounts` and `SampleLedger` what the reported counts and times are;
`SampleObjects` holds the nodes and their allocator; `SampleTrees` proves that the linked nodes do the same;
`Flatten` is the in-place flattening and freeing, `SentTrees` the link between the two; `Serialise` and
`Doubles` are the binary form with a decoder, with `Binary64` the patterns it writes, `TreeMessages` the
message around it. `Properties` is the lazily registered property tree and its snapshot. `Sha1` (with
`Chunks`) is the streaming digest against FIPS 180-4.

**TinyXML** (`external/tinyxml`), in byte-wise mode. `XmlText` and `Xml` define escaping, printing and
parsing; `XmlParser` proves that the loops compute them; `XmlRoundTrip` proves the law between printing
and parsing, `XmlExact` which trees it gives back; `XmlReferences`, `XmlForms` and
`XmlAccepted` cover text that was written by anybody else. `Dom` is the doubly linked child list, its five edits and the copying of subtrees.

**saf** (`external/saf`), promise and future. `Futures` is the shared state as a machine over whole runs;
`WaiterLists` is the class with the intrusive ring that refines it.

**utf8-cpp** (`external/utf8`). `Utf8Spec` states RFC 3629 and RFC 2781; `Utf8Core`, `Utf8Checked`,
`Utf8Repair` and `Utf8Unchecked` are the library's headers. `Words` holds shared arithmetic, `Options` a shared datatype.

Where a promise holds only under a condition, the condition is stated as an if-and-only-if:
`MessageQueue.ProducerKeepsInvExactly` and `CapacityExactly`, `FreeList.StepKeepsInvExactly` and
`RunInvExactly`, `SampleRuns.RestoresExactly`, `SampleLedger.RunSettles` (when self time is clamped),
`HashTable.LoadTestExactly`, `StringTables.ReadBackExactly`, `Serialise.SelfTimeExactly`,
`XmlText.ValueRoundTrip`, `XmlReferences.EntityFailsExactly`, `XmlRoundTrip.RoundTrip`,
`XmlExact.RoundTripExactly`, `Dom.CloneIsCopy`, `Doubles.ExactWhenRepresentable`, `Sha1.FedIsPadded`,
`Utf8Repair.RepairReturnsExactly`. For the first four, runs from the start show that the failing side is
reached: `MessageQueue.StaleSwapOverruns`, `FreeList.TwoPoppersFromTheStart`, `SampleRuns.TooDeep`,
`SampleTimes.MixedOvercounts`. Three conditions are only sufficient, each implying the exact one: one popper
at a time (`FreeList.OnePopperPopsTails`), a producer that does not sleep through 2^32 bytes
(`MessageQueue.FreshRunHasRoom`), and no sample both aggregated and recursed into (`SampleLedger.RunWithin`).

Points where the code differs from what a reader might expect, kept as they are: the checked `next` reports every
invalid code point as 0, because the value read is not passed out (external/utf8/utf8/checked.h:137-154);
Buffer_WriteStringZ copies 2049 bytes of a longer name and no terminator (external/Remotery/lib/Remotery.c:2671-2675); SHA-1 stores
the length in one 32-bit word, and its signed shift overflows from 2^28 bytes on, which the model takes as wrapping
(external/Remotery/lib/Remotery.c:3615); ReplaceChild does not refuse a document as insertion does
(external/tinyxml/tinyxml/tinyxml.cpp:277-285); copying a node cuts its value at the first zero, which parsing `&#x00;` can put there
(external/tinyxml/tinyxml/tinyxml.cpp:147-151); the promise's destructor breaks the promise only if a future
was taken (external/saf/saf/saf.hpp:1168).

## Model

| member | source | states |
|---|---|---|
| `MessageQueue.SizeForPayloadMask` | external/Remotery/lib/Remotery.c:4341-4351 | The rounding the model uses is the code's `(size + 7) & ~7U` in 32-bit arithmetic. |
| `MessageQueue.AddressMask` | external/Remotery/lib/Remotery.c:4370-4378 | Reducing an unwrapped position modulo a power-of-two size is the code's mask of the wrapped 32-bit position. |
| `MessageQueue.OverflowExact` | external/Remotery/lib/Remotery.c:4370-4373 | The signed 32-bit test in AllocMessage is the exact capacity test unless the read position it loaded is 2^31 or more bytes past the write position it loaded. |
| `MessageQueue.OverflowsExactly` | external/Remotery/lib/Remotery.c:4370-4373 | What the signed 32-bit test decides for any two positions, however far apart. |
| `MessageQueue.NextKeepsInv` | external/Remotery/lib/Remotery.c:4341-4449 | One step (a load, test, swap, store or counter update) of any producer or of the consumer keeps the whole invariant (capacity, tiling of claims, owners, and every byte of memory), unless it is a swap that wins without room. |
| `MessageQueue.ProducerKeepsInvExactly` | external/Remotery/lib/Remotery.c:4353-4387 | Exactly then: a producer's step keeps the invariant, and the capacity bound, if and only if it is not a swap that finds the position it loaded, in 32 bits, while its message no longer fits. |
| `MessageQueue.OnlyStaleSwaps` | external/Remotery/lib/Remotery.c:4375-4380 | Such a swap is on a position loaded a positive multiple of 2^32 bytes of traffic ago. |
| `MessageQueue.RunInv` | external/Remotery/lib/Remotery.c:4341-4449 | Every state of every interleaving in which no swap wins without room satisfies the invariant. |
| `MessageQueue.CapacityExactly` | external/Remotery/lib/Remotery.c:4353-4387 | Over whole runs: the unread bytes fit the buffer throughout if and only if no swap of the run wins without room. |
| `MessageQueue.FreshRunHasRoom` | external/Remotery/lib/Remotery.c:4375-4380 | In particular when no producer sleeps through 2^32 bytes of traffic between its load and its swap. |
| `MessageQueue.CapacityOverRuns` | external/Remotery/lib/Remotery.c:4353-4387 | In every interleaving in which no swap wins without room, no two live claims share a byte of the buffer, however stale the read position a producer tested was. |
| `MessageQueue.DeliveryOverRuns` | external/Remotery/lib/Remotery.c:4389-4449 | In the same runs each message is handed to the consumer once, whole, in swap order whatever the commit order; CommitMessage never finds its identifier already set. |
| `MessageQueue.UnclaimedIsNotReady` | external/Remotery/lib/Remotery.c:4329-4330 | In the same runs every byte of the buffer outside the claimed ranges is zero, which is the identifier NotReady. |
| `MessageQueue.ReadCommitted` | external/Remotery/lib/Remotery.c:4406-4425 | A reader of a committed range decodes exactly the message its owner was given. |
| `MessageQueue.LoadIdentifier` | external/Remotery/lib/Remotery.c:4400-4416 | The identifier read at a live claim is NotReady exactly when the claim is not committed. |
| `MessageQueue.ClaimKeepsMemory` | external/Remotery/lib/Remotery.c:4375-4386 | A winning range inherits only zeroes, so its identifier reads NotReady until committed. |
| `MessageQueue.ReleaseKeepsMemory` | external/Remotery/lib/Remotery.c:4427-4449 | Advancing the read position frees only cells the consumer has zeroed. |
| `MessageQueue.RefinesFifo` | external/Remotery/lib/Remotery.c:4341-4449 | From every state of the invariant every step is a step of an atomic FIFO (append, make ready, take the front) or changes nothing visible. |
| `MessageQueue.RefusalMeansFull` | external/Remotery/lib/Remotery.c:4367-4373 | AllocMessage refuses exactly a message that does not fit between the two positions loaded, or one whose producer was overtaken: more than 2^31 bytes released between its loads, and their difference read as a large positive number. Any other refused message did not fit when the write position was loaded. |
| `QueueCalls.CallEnds` | external/Remotery/lib/Remotery.c:4353-4387 | Over every run, every call of AllocMessage by every producer ends in one of two ways: refused, without a claim, by a test of a write position and a read position loaded after it in this call; or with exactly one claim, for the message it was begun with, won at a position that passed the test, and committed. |
| `QueueCalls.CallHistory` | external/Remotery/lib/Remotery.c:4353-4387 | And at every moment before its end it is still going round the loop for that message without a claim, or has that refusal, or that claim. |
| `QueueCalls.RefusedHadNoRoom` | external/Remotery/lib/Remotery.c:4367-4373 | In runs in which no swap wins without room, the message of a refused call did not fit between the two positions, or its producer was overtaken. |
| `QueueCalls.LostSwap` | external/Remotery/lib/Remotery.c:4362-4380 | A swap is lost only to claims others made since this call loaded the position, and the call goes on with its message. |
| `QueueCalls.NextMoves` | external/Remotery/lib/Remotery.c:4353-4404 | Every step of the queue leaves a producer as it is or is one of the moves its own state allows; only a failed test leads to a refusal. |
| `QueueCalls.PeekExactly` | external/Remotery/lib/Remotery.c:4406-4425 | PeekNextMessage returns the front message exactly if there was one when it loaded the write position and it is committed. |
| `MessageQueue.CanDeliver` | external/Remotery/lib/Remotery.c:4341-4449 | From any reachable empty queue, a message no larger than the buffer can be allocated, written, committed, peeked, zeroed and released. |
| `MessageQueue.StaleSwapOverruns` | external/Remotery/lib/Remotery.c:4375-4380 | The guard can fail: for every power-of-two size that can hold a message, any number of producers from two on and any message that fits, a run from the start in which exactly 2^32 bytes pass between the load and the swap, which wins and breaks the capacity bound. |
| `FreeList.StepKeepsInv` | external/Remotery/lib/Remotery.c:2475-2577 | One step of any thread inside Push, Pop, Alloc, Free or FreeRange keeps the list a duplicate-free chain, ownership disjoint and the counters accounted for, unless it is a pop that wins on an old link. |
| `FreeList.StepKeepsInvExactly` | external/Remotery/lib/Remotery.c:2492-2518 | Exactly then: a step keeps the invariant if and only if it is not a pop whose swap wins while the link it loaded is no longer the object's. |
| `FreeList.PopSwap` | external/Remotery/lib/Remotery.c:2492-2518 | A winning pop whose link is still the object's installs the true tail of the list. |
| `FreeList.PushSwap` | external/Remotery/lib/Remotery.c:2475-2490 | A successful push swap puts the whole range in front of the list it read. |
| `FreeList.ListStep` | external/Remotery/lib/Remotery.c:2475-2518 | Such a step changes the list only at its head: a range in front, the first object off, or nothing. |
| `FreeList.RunInv` | external/Remotery/lib/Remotery.c:2475-2577 | The invariant holds in every state of every run in which no pop wins on an old link. |
| `FreeList.RunInvExactly` | external/Remotery/lib/Remotery.c:2475-2577 | And throughout a run if and only if none does. |
| `FreeList.OnePopperPopsTails` | external/Remotery/lib/Remotery.c:2492-2518 | With one popper at a time, and any number of pushers, none does. |
| `FreeList.ListOverRuns` | external/Remotery/lib/Remotery.c:2475-2577 | In every state of those runs the links from first_free form a finite list without repeats, none of whose objects is in use or in transit. |
| `FreeList.ListUnique` | external/Remotery/lib/Remotery.c:2412-2415 | The links determine that list. |
| `FreeList.CountersAtRest` | external/Remotery/lib/Remotery.c:2520-2577 | In those runs, with no thread inside the allocator, nb_free is the list's length, nb_inuse the objects in use, and nb_allocated their sum. |
| `FreeList.CallerKeepsInv` | external/Remotery/lib/Remotery.c:2475-2490 | A caller writing the link of an object it owns disturbs nobody. |
| `ListCalls.AllocYields` | external/Remotery/lib/Remotery.c:2520-2559 | Over every run in which no pop wins on an old link, every allocation of every thread ends by adding one object to those in use: one nobody used or held, and either taken off the list by this call's swap or made by it on finding the list empty. |
| `ListCalls.WonTheHead` | external/Remotery/lib/Remotery.c:2499-2513 | The object taken off was the first of the list at that swap. |
| `ListCalls.FreeRangePuts` | external/Remotery/lib/Remotery.c:2571-2577 | Giving back a range ends only after a swap of that call has put the whole range, in its order, in front of the list. |
| `ListCalls.CallHistory` | external/Remotery/lib/Remotery.c:2475-2577 | At every moment of a call it is still trying, or has won, made or put what it will end with. |
| `FreeList.TwoPoppersShareAnObject` | external/Remotery/lib/Remotery.c:2492-2518 | From any state of the invariant with two free objects and two idle threads, two overlapping poppers reach a state in which an object in use heads the list. |
| `FreeList.TwoPoppersFromTheStart` | external/Remotery/lib/Remotery.c:2475-2577 | And so from the start, with any number of threads from two on. |
| `HashTable.Table.Probe` | external/Remotery/lib/Remotery.c:2850-2871 | The probe loop ends, at the key's slot or at a free slot that proves the key absent. |
| `HashTable.Table.Insert` | external/Remotery/lib/Remotery.c:2845-2887 | The table then maps the key to the value and every other key as before; it grows exactly from a new key over the load limit, fourfold, from 32768 slots on twofold. |
| `HashTable.LoadTestExactly` | external/Remotery/lib/Remotery.c:2882-2899 | The bound on the table's size is exact: of the powers of two, just the next one breaks the 32-bit load test and growing. |
| `HashTable.Table.Resize` | external/Remotery/lib/Remotery.c:2889-2929 | Growth keeps the whole map, and no insertion inside it grows the table again. |
| `HashTable.Table.Allocate` | external/Remotery/lib/Remotery.c:2895-2914 | The grown table has room for every entry of a table one over its limit. |
| `HashTable.Table.ReinsertSlot` | external/Remotery/lib/Remotery.c:2916-2923 | One turn of the reinsertion loop: the table represents one more of the old slots and stays in place. |
| `HashTable.Table.Find` | external/Remotery/lib/Remotery.c:2931-2951 | Find gives the value last inserted for a key, or RMT_NOT_FOUND exactly for keys never inserted. |
| `HashTable.Store` | external/Remotery/lib/Remotery.c:2872-2881 | Writing at the slot where probing stopped updates the represented map at that key alone and counts a slot exactly if the key is new. |
| `HashTable.FreeMeansAbsent` | external/Remotery/lib/Remotery.c:2935-2950 | A free slot on a key's probe path proves the key is not in the table. |
| `HashTable.SomeSlotFree` | external/Remotery/lib/Remotery.c:2859-2860 | A table with fewer entries than slots has a free one, so probing ends. |
| `HashTable.CountIsSize` | external/Remotery/lib/Remotery.c:2882-2884 | nbSlots is the number of distinct keys held. |
| `Buffers.Buffer.Grow` | external/Remotery/lib/Remotery.c:2618-2631 | The contents survive reallocation; the capacity is a multiple of the granularity with room for the length asked for and less than one granule more. |
| `Buffers.Buffer.Write` | external/Remotery/lib/Remotery.c:2654-2669 | The bytes are appended and nothing before them changes. |
| `Buffers.Buffer.AlignedPad` | external/Remotery/lib/Remotery.c:2649-2652 | At most three bytes are skipped, to a multiple of four after the start position. |
| `Buffers.Buffer.MessageFooter` | external/Remotery/lib/Remotery.c:4589-4598 | What was written since the header is a message: its name, its own padded length, its body; nothing before it changes. |
| `Buffers.U32RoundTrip` | external/Remotery/lib/Remotery.c:2677-2684 | The four bytes written determine the 32-bit value. |
| `Buffers.FramesFindMessages` | external/Remotery/lib/Remotery.c:4580-4598 | Whatever messages are written one after another, reading the size fields finds exactly them. |
| `StringTables.StringTable.Insert` | external/Remotery/lib/Remotery.c:3002-3016 | The first name given for a hash is kept, later ones are refused, and no stored name is disturbed by growth of the buffer or the map. |
| `StringTables.StringTable.Find` | external/Remotery/lib/Remotery.c:2992-3000 | The pointer returned reads back the stored name (null exactly for unknown hashes), for names of at most 2048 bytes. |
| `StringTables.ReadBackExactly` | external/Remotery/lib/Remotery.c:2671-2675 | A name just inserted reads back as itself if and only if it has at most 2048 bytes. |
| `StringTables.ReadBack` | external/Remotery/lib/Remotery.c:2671-2675 | A longer name is stored without terminator: it reads back as its first 2049 bytes followed by the string stored next. |
| `StringTables.BoundedLength` | external/Remotery/lib/Remotery.c:1601-1627 | The loop counts the bytes before the terminator, up to the limit. |
| `Sha1.Calc` | external/Remotery/lib/Remotery.c:3565-3623 | The bytes stored are the FIPS 180-4 digest of every message below 2^29 bytes; for longer ones the digest of the words `Fed` names. |
| `Sha1.FedIsPadded` | external/Remotery/lib/Remotery.c:3592-3616 | The words hashed are the padded message of section 5.1.1 of FIPS 180-4 if and only if the message is shorter than 2^29 bytes. |
| `Sha1.InnerHash` | external/Remotery/lib/Remotery.c:3506-3563 | With the schedule expanded in the reused buffer, the five loops compute section 6.1.2 of FIPS 180-4. |
| `Sha1.Sha1Macro` | external/Remotery/lib/Remotery.c:3514-3522 | The five assignments of one round, with the shifts of `rol`, are the round of the standard with its rotations. |
| `Sha1.OrForms` | external/Remotery/lib/Remotery.c:3526-3552 | The `or` forms of Ch and Maj equal the standard's exclusive-or forms. |
| `Sha1.Expand` | external/Remotery/lib/Remotery.c:3531-3534 | One schedule word computed in place is the standard's W_t. |
| `Sha1.OrByte` | external/Remotery/lib/Remotery.c:3599-3608 | Or-ing a byte into a zero place of the block sets exactly that byte. |
| `Sha1.HashTail` | external/Remotery/lib/Remotery.c:3596-3616 | One or two tail blocks are hashed, the second exactly when the length does not fit. |
| `Sha1.OutputReads` | external/Remotery/lib/Remotery.c:3618-3622 | The twenty bytes determine the five words. |
| `Sha1.HashWordsConcat` | external/Remotery/lib/Remotery.c:3580-3594 | Hashing block by block is hashing the concatenation. |
| `Samples.BeginKeepsInv` | external/Remotery/lib/Remotery.c:4954-5043 | Every Begin, aggregate, recursive or new, keeps the tree's shape (child lists, nb_children, one child under the root), names and recursion depths right. |
| `Samples.EndKeepsInv` | external/Remotery/lib/Remotery.c:5396-5419 | Every End does, including the return to the root that hands the tree over. |
| `SampleRuns.RunCallRestores` | external/Remotery/lib/Remotery.c:7507-7559 | One call with everything nested in it returns to the node it began at with every recursion depth as before, if every collapsed call in it finds room in the 16-bit counter. |
| `SampleRuns.RunRestores` | external/Remotery/lib/Remotery.c:7507-7559 | So does every well-nested run with room, losing and inventing no node and sending one closed tree per call made at the root. |
| `SampleRuns.RestoresExactly` | external/Remotery/lib/Remotery.c:4987-4993 | The guard is exact: a call whose body has room returns to where it began if and only if it is not folded into a sample whose counter is full. |
| `SampleRuns.PlainCallsHaveRoom` | external/Remotery/lib/Remotery.c:4986-4993 | Calls without the recursive flag always have room, however deep they nest. |
| `SampleRuns.CallsAreSteps` | external/Remotery/lib/Remotery.c:7507-7559 | A well-nested run of calls is the run of its Begin and End steps, each of which keeps the tree's invariant unconditionally. |
| `SampleRuns.WholeRun` | external/Remotery/lib/Remotery.c:5396-5419 | From the start, a run with room ends at an empty root and the trees sent together hold every node ever allocated. |
| `SampleRuns.TooDeep` | external/Remotery/lib/Remotery.c:4987-4993 | From the start of a thread, `n` calls folded into an open sample leave it open if and only if `n` is below 65536: the 65536th wraps the counter and its End sends the tree. |
| `SampleRuns.SentTreeComplete` | external/Remotery/lib/Remotery.c:5402-5414 | A sent tree visits exactly the nodes allocated since the last return to the root, each once. |
| `SampleRuns.PreorderOnce` | external/Remotery/lib/Remotery.c:5053-5070 | A preorder walk over the child lists meets no node twice. |
| `SampleReports.TreesAreReports` | external/Remotery/lib/Remotery.c:4954-5043 | From the start, well-nested calls with room send one tree for each call made at the root, and names, counts, depths and children of all its nodes are those of a recursion over that call alone, which knows neither nodes nor a cursor: aggregate calls go to the first child of their name, recursive ones of the open name are folded in, all others open a last child. |
| `SampleReports.CallExecutes` | external/Remotery/lib/Remotery.c:7507-7559 | One call with everything in it does to the open node what that recursion says, and changes nothing reported elsewhere. |
| `SampleReports.FlaglessIsCallTree` | external/Remotery/lib/Remotery.c:4997-5043 | Without flags the tree sent is the tree of the calls. |
| `SampleCounts.CountsOverRuns` | external/Remotery/lib/Remotery.c:4972-4995 | After every step of every run, in live and sent trees alike, a node's count is the calls it took modulo 2^32, its deepest recursion the deepest there was up to 65535, and its start that of its first call. |
| `SampleTimes.RunSampled` | external/Remotery/lib/Remotery.c:4793-4813 | After every step of every run, whatever the flags and the nesting, each node below the root has sampled exactly the total length of its children. |
| `SampleTimes.ClosingLength` | external/Remotery/lib/Remotery.c:4793-4806 | What a closing call adds is the time since it was opened if and only if its node was not both returned to and recursed into, or its two stamps are the same. |
| `SampleTimes.MixedOvercounts` | external/Remotery/lib/Remotery.c:4793-4806 | A sample both aggregated and recursed into counts its first call twice: a parent of length 50 ends with 70 sampled. |
| `SampleLedger.RunSettles` | external/Remotery/lib/Remotery.c:4793-4813 | After every step of every run from the start whose clock does not go back, whatever the flags and counters, each closed node's length is the time its calls took plus an overcount, and what it sampled is both of its children's; so its self time is clamped if and only if its children's overcount exceeds its own and the time its calls did not spend in them. |
| `SampleLedger.OvercountsMixed` | external/Remotery/lib/Remotery.c:4797-4804 | The overcount grows exactly when a node both returned to and recursed into is closed, by the time from its start stamp to its last opening. |
| `SampleLedger.RunKept` | external/Remotery/lib/Remotery.c:7507-7559 | The ledger and the nesting of the calls' times hold on from any state in which they hold. |
| `SampleLedger.RunWithin` | external/Remotery/lib/Remotery.c:7526-7556 | If moreover no node is both aggregated into and recursed into, a closed node's length is the time its calls took, and it has sampled no more. |
| `SampleLedger.SentTimes` | external/Remotery/lib/Remotery.c:4841-4852 | In every tree sent, what a node sampled is its children's lengths; with a clock that does not go back every node is settled, and without mixed nodes no reported self time is clamped. |
| `SampleTrees.SampleTree.Begin` | external/Remotery/lib/Remotery.c:4954-5043 | The linked nodes after Begin are what the numbered model says: links, counters and times. A node is taken from the free list, or made if it is empty, and counted in use. |
| `SampleTrees.SampleTree.End` | external/Remotery/lib/Remotery.c:7537-7559 | The same for End; back at the root, the finished tree is handed over with its links intact and the root emptied. |
| `SampleTrees.SampleTree.FindSibling` | external/Remotery/lib/Remotery.c:4972-4984 | The sibling walk finds the first child with the name, or nothing. |
| `SampleTrees.LinkChild` | external/Remotery/lib/Remotery.c:5011-5035 | A new sample is linked as last child and counted; every other link stays. |
| `SampleTrees.CloseSample` | external/Remotery/lib/Remotery.c:4793-4813 | The closed sample and its parent both take up the length of the call. |
| `SampleObjects.Allocator.Alloc` | external/Remotery/lib/Remotery.c:2520-2559 | The first object of the free list, or a new one when it has run out, with the counters moved. |
| `SentTrees.FinishedTree` | external/Remotery/lib/Remotery.c:5402-5414 | The tree handed over satisfies what FlattenSamples needs and misses no sample of the run. |
| `SentTrees.EndAndFree` | external/Remotery/lib/Remotery.c:5396-5419 | End, with what it hands over freed once sent: no object is lost or freed twice, and the allocator's count in use falls by exactly the samples that left the tree. |
| `Flatten.FlattenSamples` | external/Remotery/lib/Remotery.c:5053-5078 | The samples of any finite tree are chained in preorder, counted, and cleared; the last link returned is null. |
| `Flatten.FreeSamples` | external/Remotery/lib/Remotery.c:5080-5095 | Exactly the tree's samples go to the front of the free list and as many move from nb_inuse to nb_free. |
| `SampleObjects.Allocator.FreeRange` | external/Remotery/lib/Remotery.c:2571-2577 | A chain of any length is pushed whole and counted. |
| `Serialise.DecodesTree` | external/Remotery/lib/Remotery.c:4841-4869 | A decoder recovers every field and the whole shape, consuming exactly 56 bytes for each node, whatever follows. |
| `Serialise.TimesExact` | external/Remotery/lib/Remotery.c:2776-2780 | Times below 2^53 come back exactly. |
| `Serialise.SelfTimeExactly` | external/Remotery/lib/Remotery.c:4851 | The unsigned difference taken as a signed 64-bit number gives the self time, or zero if more was sampled, if and only if the two are less than 2^63 apart. |
| `Serialise.BinSample` | external/Remotery/lib/Remotery.c:4841-4858 | For samples linked up as any finite tree with right child counts, the bytes appended to the buffer are the encoding the decoder is proved against. |
| `Serialise.BinSampleArray` | external/Remotery/lib/Remotery.c:4860-4869 | The same for the children of a sample, along their sibling links, with nb_children as the count. |
| `TreeMessages.BinSampleTree` | external/Remotery/lib/Remotery.c:6474-6531 | Header, name, count, flag, alignment, tree and footer make one message that carries its own padded length, and a viewer reads the whole tree back from it; nothing before it changes. |
| `TreeMessages.MessageReads` | external/Remotery/lib/Remotery.c:4580-4598 | A reader of any such message finds the name, the number of samples, the flag and every sample. |
| `TreeMessages.CountSamples` | external/Remotery/lib/Remotery.c:6371-6413 | The recursion over the links counts every sample once. |
| `TreeMessages.FinishedTreeShows` | external/Remotery/lib/Remotery.c:5402-5414 | The tree a profiler hands over is one the message can be written for: linked up, its counts right, no sample missing. |
| `Doubles.ReadsBack` | external/Remotery/lib/Remotery.c:2776-2780 | A 64-bit time written as a double reads back rounded to 53 significant bits, ties to even. |
| `Doubles.ExactWhenRepresentable` | external/Remotery/lib/Remotery.c:2776-2780 | It reads back exactly if and only if it needs no more than 53 bits. |
| `Binary64.WritesRounded` | external/Remotery/lib/Remotery.c:2776-2780 | The bits written for any 64-bit time are the binary64 pattern of section 3.4 of IEEE 754-2008 for its rounded value. |
| `Binary64.NearestMultiple` | external/Remotery/lib/Remotery.c:2776-2780 | Rounding goes to the nearest multiple, to the even one of two. |
| `Properties.RegisterProperty` | external/Remotery/lib/Remotery.c:10838-10897 | Exactly the property and its ancestors become registered, parents first, and every child list only grows at its end. |
| `Properties.RegisterAll` | external/Remotery/lib/Remotery.c:10838-10897 | After any registrations in any order, from the start, the tree is right and what is registered is the root and the ancestor lines of the properties given, as they were declared. |
| `Properties.StartWf` | external/Remotery/lib/Remotery.c:10838-10864 | Before any registration, with only the root registered, the invariant holds. |
| `Properties.Attach` | external/Remotery/lib/Remotery.c:10866-10877 | Linking a property into its registered parent's list keeps all lists right. |
| `Properties.TakePropertySnapshot` | external/Remotery/lib/Remotery.c:10934-10986 | The records chained on are the preorder list of the tree its links lead through, each with its count of children, and the parent's count goes up by one. |
| `Properties.SnapshotAll` | external/Remotery/lib/Remotery.c:10988-11016 | The list of the root and everything registered below it; none is taken exactly when nothing but the root is registered. |
| `Properties.Rebuilds` | external/Remotery/lib/Remotery.c:10953-10975 | A reader rebuilds the tree from the counts alone, whatever follows the list. |
| `Properties.ListDetermines` | external/Remotery/lib/Remotery.c:10953-10975 | Trees with the same list are the same. |
| `Properties.SnapshotHoldsRegistered` | external/Remotery/lib/Remotery.c:10934-10986 | A snapshot from the root has a property in it if and only if it is registered. |
| `Properties.NoneTwice` | external/Remotery/lib/Remotery.c:10934-10986 | And none of them twice. |
| `Properties.SnapshotDepths` | external/Remotery/lib/Remotery.c:10934-10986 | The depth in each record is how many properties are above its own, in one byte. |
| `XmlText.ValueRoundTrip` | external/tinyxml/tinyxml/tinyxml.cpp:38-119 | A printed attribute value, between quotes of either kind, reads back as itself if and only if it contains no `&#x`. |
| `XmlText.RawReadsClosed` | external/tinyxml/tinyxml/tinyxml.cpp:42-63 | Where every `&#x` of a value ends at a semicolon inside it, reading the printed value fails or stops at its own closing quote, with fewer characters if there was one. |
| `XmlReferences.DecimalReads` | external/tinyxml/tinyxml/tinyxmlparser.cpp:484-501 | A decimal reference, with whatever zeros in front, reads as the low byte of the number its digits write. |
| `XmlReferences.HexReads` | external/tinyxml/tinyxml/tinyxmlparser.cpp:452-480 | So does a hexadecimal one, with digits of either case. |
| `XmlReferences.EntityFailsExactly` | external/tinyxml/tinyxml/tinyxmlparser.cpp:446-515 | A reference fails if and only if no semicolon follows or something other than a digit of its base stands between the last mark and the first semicolon. |
| `XmlReferences.PrintedReference` | external/tinyxml/tinyxml/tinyxml.cpp:95-108 | A control character is printed as a reference of two upper-case digits. |
| `XmlText.RawReadLength` | external/tinyxml/tinyxml/tinyxml.cpp:42-63 | A passed-through reference always reads back as fewer characters than it was. |
| `XmlText.ReadEscaped` | external/tinyxml/tinyxml/tinyxmlparser.cpp:440-533 | Each escaped character reads back as itself whatever follows, and looks like white space exactly if it is a space. |
| `XmlRoundTrip.PrintThenParse` | external/tinyxml/tinyxml/tinyxml.cpp:742-792 | Printing an element and parsing the text, whatever follows it, gives the element's normal form and stops right after it. |
| `XmlRoundTrip.RoundTrip` | external/tinyxml/tinyxml/tinyxmlparser.cpp:1051-1167 | For printable trees, print then parse is the identity if and only if texts are well spaced, not blank and not adjacent. |
| `XmlExact.RoundTripExactly` | external/tinyxml/tinyxml/tinyxmlparser.cpp:1051-1167 | For every tree of readable names whose references end inside their values, print then parse is the identity if and only if no value holds a reference, attribute names differ, no CDATA holds its end mark or a zero, and texts are well spaced, not blank and not adjacent. |
| `XmlExact.OnlyPrintable` | external/tinyxml/tinyxml/tinyxmlparser.cpp:1051-1167 | Whatever follows it and wherever parsing stops, such an element that parses as itself is printable. |
| `XmlExact.AttributesOnly` | external/tinyxml/tinyxml/tinyxmlparser.cpp:1116-1167 | Attributes that read back hold no references and have different names. |
| `XmlExact.CDataOnly` | external/tinyxml/tinyxml/tinyxmlparser.cpp:1457-1492 | A CDATA section that reads back holds neither its end mark nor a zero. |
| `XmlExact.OpenReferenceReadsOn` | external/tinyxml/tinyxml/tinyxml.cpp:42-63 | A reference that does not end inside its value can read back, out of the markup behind it, swallowing the next attribute. |
| `XmlForms.ElementFormParses` | external/tinyxml/tinyxml/tinyxmlparser.cpp:1051-1233 | An element however it is written, with white space wherever the syntax has any, either quote or none, characters raw, by name or by number, empty tags in both ways, parses as what it means and no further. |
| `XmlForms.AttributeFormParses` | external/tinyxml/tinyxml/tinyxmlparser.cpp:1348-1423 | So does an attribute. |
| `XmlForms.WordsCollapse` | external/tinyxml/tinyxml/tinyxmlparser.cpp:594-639 | Words with any white space between them read as the words with one space between them. |
| `XmlForms.RootFormsParse` | external/tinyxml/tinyxml/tinyxmlparser.cpp:706-798 | A document of such elements parses as them. |
| `XmlForms.WhiteSpaceIs` | external/tinyxml/tinyxml/tinyxmlparser.cpp:316-364 | White space is a space, a tab, a line feed, a carriage return, a vertical tab or a form feed, and nothing else. |
| `XmlAccepted.ElementAccepted` | external/tinyxml/tinyxml/tinyxmlparser.cpp:1051-1167 | Whatever text an element was parsed from, it starts with a tag of the element's name and ends with the end of an empty tag or the end tag of that name, and the attributes' names differ. |
| `XmlAccepted.AttributeRead` | external/tinyxml/tinyxml/tinyxmlparser.cpp:1348-1423 | Whatever text an attribute was parsed from, it is a name, an equals sign and a value that ends at the quote it began with or has none, with nothing but white space between. |
| `XmlRoundTrip.DocumentParses` | external/tinyxml/tinyxml/tinyxmlparser.cpp:706-798 | The same law for a document's root elements. |
| `XmlRoundTrip.ChildrenParse` | external/tinyxml/tinyxml/tinyxmlparser.cpp:1170-1233 | What the content of an element reads back as, text and tags in any order. |
| `XmlRoundTrip.AttributesParse` | external/tinyxml/tinyxml/tinyxmlparser.cpp:1348-1423 | Printed attributes with distinct names are read back one by one. |
| `XmlRoundTrip.CollapseEscaped` | external/tinyxml/tinyxml/tinyxmlparser.cpp:594-639 | Reading escaped text condenses its spaces and nothing else: other white space was escaped and survives. |
| `XmlRoundTrip.CDataParses` | external/tinyxml/tinyxml/tinyxmlparser.cpp:1457-1492 | A CDATA section without `]]>` in it reads back as it was. |
| `XmlRoundTrip.CondenseExactly` | external/tinyxml/tinyxml/tinyxmlparser.cpp:594-639 | Condensing changes exactly the texts that are not well spaced. |
| `XmlParser.PutString` | external/tinyxml/tinyxml/tinyxml.cpp:38-119 | The two nested loops escape, and pass references through, as `Put` says. |
| `XmlParser.ReadReference` | external/tinyxml/tinyxml/tinyxmlparser.cpp:451-517 | The backward digit loop reads the number between the mark and the semicolon, or fails. |
| `XmlParser.ReadEntity` | external/tinyxml/tinyxml/tinyxmlparser.cpp:440-533 | The reference and entity cases in the code's order. |
| `XmlParser.StringEqual` | external/tinyxml/tinyxml/tinyxmlparser.cpp:536-574 | Case-sensitive comparison holds exactly for prefixes. |
| `XmlParser.SkipWhiteSpace` | external/tinyxml/tinyxml/tinyxmlparser.cpp:316-364 | White space is skipped; at the end of the text the result is null. |
| `XmlParser.ReadNameLoop` | external/tinyxml/tinyxml/tinyxmlparser.cpp:403-438 | The longest run of name characters after a name start, or null. |
| `XmlParser.ReadTextRaw` | external/tinyxml/tinyxml/tinyxmlparser.cpp:583-597 | The loop that keeps white space. |
| `XmlParser.ReadTextCondensed` | external/tinyxml/tinyxml/tinyxmlparser.cpp:598-639 | The loop that condenses it. |
| `XmlParser.AttributeParse` | external/tinyxml/tinyxml/tinyxmlparser.cpp:1348-1423 | The parser of one attribute, with its error cases. |
| `XmlParser.ElementParse` | external/tinyxml/tinyxml/tinyxmlparser.cpp:1051-1167 | The attribute loop and the element's end, with their error cases. |
| `XmlParser.ContentParse` | external/tinyxml/tinyxml/tinyxmlparser.cpp:1170-1233 | The content loop: text, CDATA, elements, end tag. |
| `XmlParser.DocumentParse` | external/tinyxml/tinyxml/tinyxmlparser.cpp:706-798 | The document loop. |
| `XmlParser.NodePrint` | external/tinyxml/tinyxml/tinyxml.cpp:742-792 | Printing a node with its three layouts. |
| `Dom.LinkEndChild` | external/tinyxml/tinyxml/tinyxml.cpp:171-195 | The child sequence gains the node at its end, all links of the document stay consistent, and a document node is refused. |
| `Dom.InsertBeforeChild` | external/tinyxml/tinyxml/tinyxml.cpp:213-242 | A copy of the node and all below it is inserted in front of the given child; null, a stranger or a document changes nothing. |
| `Dom.InsertAfterChild` | external/tinyxml/tinyxml/tinyxml.cpp:245-274 | The same behind the given child. |
| `Dom.ReplaceChild` | external/tinyxml/tinyxml/tinyxml.cpp:277-302 | Such a copy takes the child's place; a stranger changes nothing. |
| `Dom.RemoveChild` | external/tinyxml/tinyxml/tinyxml.cpp:305-325 | The child leaves the sequence; a stranger is refused. |
| `Dom.ChildIffParent` | external/tinyxml/tinyxml/tinyxml.cpp:213-217 | In a consistent document the parent link tells membership in the child list, so the guards are exact. |
| `Dom.Clone` | external/tinyxml/tinyxml/tinyxml.cpp:795-837 | New nodes, linked up among themselves, that say what the tree says, each value up to its first zero and documents among its children left out. |
| `Dom.CloneIsCopy` | external/tinyxml/tinyxml/tinyxml.cpp:811-814 | A copy says the same if and only if no value in the tree holds a zero, the tree has no document inside it, and only elements and documents in it have children. |
| `Dom.ClonesInOrder` | external/tinyxml/tinyxml/tinyxml.cpp:811-814 | Children are copied one by one and in order, wherever among them documents are left out. |
| `Dom.CloneCutsAtZero` | external/tinyxml/tinyxml/tinyxml.cpp:147-151 | A text with a zero in it is copied as what is in front of the zero. |
| `Xml.CStringExactly` | external/tinyxml/tinyxml/tinyxml.cpp:147-151 | Handing a value on as a C string keeps it if and only if it holds no zero, and never lengthens it. |
| `Xml.CStringIsStart` | external/tinyxml/tinyxml/tinyxml.cpp:147-151 | What is kept is the longest start of the value without a zero. |
| `Futures.RunKeepsInv` | external/saf/saf/saf.hpp:357-426 | Over every run each registered handler is waiting or was posted exactly once, in registration order unless cancelled; ready means no waiters and is never undone; the value is handed out at most once. |
| `Futures.ExactlyOnce` | external/saf/saf/saf.hpp:642-655 | Once a result is set, or the promise is gone after its future was taken, every handler registered has been posted exactly once. |
| `Futures.AbortedOnlyByCancel` | external/saf/saf/saf.hpp:472-484 | A handler is told it was aborted only if it was cancelled. |
| `Futures.FirstSetFixes` | external/saf/saf/saf.hpp:357-402 | Over every run the first operation that sets a result fixes it: from then on the state holds its argument, a value giving way to an error once it was extracted. |
| `Futures.ExtractGives` | external/saf/saf/saf.hpp:380-402 | The first extraction after it gives exactly the value set and later ones throw; an exception set is thrown each time. |
| `Futures.OtherAnswers` | external/saf/saf/saf.hpp:357-385 | Extracting before any result throws, and setting throws exactly if a result was set before. |
| `WaiterLists.LinkBefore` | external/saf/saf/saf.hpp:146-152 | A node linked before the head ends the ring. |
| `WaiterLists.Unlink` | external/saf/saf/saf.hpp:139-144 | Unlinking takes one node out of the ring and leaves the rest in order. |
| `WaiterLists.SharedState.Complete` | external/saf/saf/saf.hpp:294-303 | One operation leaves the list, its slot is cleared and its handler is posted. |
| `WaiterLists.SharedState.CompleteAll` | external/saf/saf/saf.hpp:490-496 | Every waiting handler is posted, first to last, and the list is empty. |
| `WaiterLists.SharedState.Satisfy` | external/saf/saf/saf.hpp:357-379 | A first result is stored and everyone told; a second throws and changes nothing. |
| `WaiterLists.SharedState.Extract` | external/saf/saf/saf.hpp:380-402 | The value is given once, then value_already_extracted; an exception is rethrown each time. |
| `WaiterLists.SharedState.AsyncWait` | external/saf/saf/saf.hpp:449-488 | A handler is posted at once if the state is ready, otherwise listed last. |
| `WaiterLists.SharedState.Cancel` | external/saf/saf/saf.hpp:472-484 | Cancelling acts exactly on an operation still waiting. |
| `WaiterLists.Promise.SetValue` | external/saf/saf/saf.hpp:357-367 | The value is stored unless there was a result, which is kept; then the call throws. |
| `WaiterLists.Promise.SetException` | external/saf/saf/saf.hpp:369-378 | The same for an exception. |
| `WaiterLists.SetThenExtract` | external/saf/saf/saf.hpp:357-402 | A value set on a fresh promise is what extracting gives, and extracting again throws. |
| `WaiterLists.Promise.GetFuture` | external/saf/saf/saf.hpp:1148-1158 | Only the first call gives a future. |
| `WaiterLists.Promise.Destroy` | external/saf/saf/saf.hpp:1166-1175 | Destruction leaves the state ready if a future was taken. |
| `Utf8Core.ValidateNext` | external/utf8/utf8/core.h:223-272 | A character is read exactly when the range starts with a well-formed sequence of section 4 of RFC 3629; otherwise the iterator stays and the diagnosis is the one the syntax dictates. |
| `Utf8Core.GetSequence3` | external/utf8/utf8/core.h:179-195 | Reading three octets gives their bits side by side, or the first error. |
| `Utf8Core.GetSequence4` | external/utf8/utf8/core.h:198-218 | The same for four. |
| `Utf8Spec.EncodeDecode` | external/utf8/utf8/checked.h:73-96 | Every well-formed sequence is the encoding of the scalar value it decodes to. |
| `Utf8Spec.MeansUnique` | external/utf8/utf8/checked.h:249-264 | No string is the UTF-8 form of two code point sequences. |
| `Utf8Spec.PrefixFree` | external/utf8/utf8/core.h:100-114 | No well-formed sequence is a proper prefix of another. |
| `Utf8Checked.Append` | external/utf8/utf8/checked.h:73-96 | The octets of RFC 3629 are appended for scalar values; anything else throws. |
| `Utf8Checked.Next` | external/utf8/utf8/checked.h:137-154 | The character at the iterator, or the exception for what is wrong there. |
| `Utf8Checked.Prior` | external/utf8/utf8/checked.h:163-175 | On well-formed text it steps back over exactly the last character. |
| `Utf8Checked.FindInvalid` | external/utf8/utf8/core.h:288-298 | The end of the longest well-formed prefix. |
| `Utf8Checked.Utf8To32` | external/utf8/utf8/checked.h:258-264 | It succeeds exactly on UTF-8 and gives the text's code points. |
| `Utf8Checked.Utf32To8` | external/utf8/utf8/checked.h:249-255 | It succeeds exactly on scalar values and gives their UTF-8 form. |
| `Utf8Checked.Utf16To8` | external/utf8/utf8/checked.h:207-231 | It succeeds exactly on UTF-16 and gives the same text. |
| `Utf8Checked.Utf8To16` | external/utf8/utf8/checked.h:234-246 | It succeeds exactly on UTF-8 and gives the same text. |
| `Utf8Checked.SameTextIsOneToOne` | external/utf8/utf8/checked.h:207-246 | The two forms determine each other, so the transcoders are mutually inverse. |
| `Utf8Checked.JoinSurrogates` | external/utf8/utf8/checked.h:213-217 | The surrogate sum modulo 2^32 is the code point of section 2.2 of RFC 2781. |
| `Utf8Checked.SplitSurrogates` | external/utf8/utf8/checked.h:238-241 | The surrogates written are those of section 2.1 of RFC 2781. |
| `Utf8Repair.ReplaceInvalid` | external/utf8/utf8/checked.h:99-127 | The loop computes the repaired text, character by character. |
| `Utf8Repair.RepairedIsUtf8` | external/utf8/utf8/checked.h:99-127 | Whatever it returns with a valid replacement is UTF-8. |
| `Utf8Repair.RepairedKeepsUtf8` | external/utf8/utf8/checked.h:99-127 | UTF-8 is returned unchanged. |
| `Utf8Repair.RepairIsIdempotent` | external/utf8/utf8/checked.h:99-127 | Repairing twice is repairing once. |
| `Utf8Repair.RepairReturnsExactly` | external/utf8/utf8/checked.h:108-109 | With a valid replacement it throws exactly on strings that end in a lead octet of a sequence longer than what is left, followed by tails alone. |
| `Utf8Repair.RepairMends` | external/utf8/utf8/checked.h:99-127 | Otherwise it returns the text with its characters kept and each of its ill-formed stretches replaced, in order. |
| `Utf8Repair.CutIsUnique` | external/utf8/utf8/checked.h:99-127 | A text is cut into characters and ill-formed stretches in one way only. |
| `Utf8Repair.CutIsNoRoom` | external/utf8/utf8/core.h:223-272 | Such a place is exactly where the decoder reports not enough room. |
| `Utf8Repair.WrongValueMeans` | external/utf8/utf8/core.h:259-268 | With all its octets there, an overlong sequence spells out a scalar value that has a shorter form, and an invalid code point no scalar value. |
| `Utf8Unchecked.Next` | external/utf8/utf8/unchecked.h:61-90 | On a well-formed sequence the unchecked decoder gives its length and value. |
| `Utf8Unchecked.Append` | external/utf8/utf8/unchecked.h:38-59 | On scalar values the unchecked encoder writes what the checked one writes. |
| `Utf8Unchecked.Prior` | external/utf8/utf8/unchecked.h:98-103 | On UTF-8 it steps back over the last character. |
| `Utf8Unchecked.Utf8To32` | external/utf8/utf8/unchecked.h:169-175 | On UTF-8, the checked result. |
| `Utf8Unchecked.Utf8To16` | external/utf8/utf8/unchecked.h:145-157 | On UTF-8, the same text in UTF-16. |
| `Utf8Unchecked.Utf16To8` | external/utf8/utf8/unchecked.h:130-142 | On UTF-16, the same text in UTF-8. |

## Left out

- Sockets, WebSocket, files, logging, timers, OS threads, GPU back ends: foreign calls. Times and names are parameters.
- Weak memory, allocation failure, and queue sizes that are not powers of two: assumed away; the mirror buffer is an array indexed modulo its size.
- MessageQueue.RunInv: runs in which no swap wins without room, the exact condition for the capacity bound (`CapacityExactly`).
- FreeList.RunInv: runs in which no pop wins on an old link, the exact condition (`RunInvExactly`), which the property mutex and the treeBeingModified flag provide by allowing one popper at a time.
- HashTable.Table.Insert: tables of at most 2^30 slots, and of at most 2^29 when the insertion grows them, beyond which the 32-bit load test fails (`LoadTestExactly`).
- Buffers.Buffer.Write: buffers that do not outgrow a 32-bit size; the null pointer of an empty buffer is an array of length zero.
- SampleTrees.SampleTree.Begin: does not generate the hash of a sample's call stack (unique_id); it, the colour (floating point) and MurmurHash have no specification beyond their code. They are plain fields in `SampleObjects` and `Serialise`.
- Samples.BeginKeepsInv: the flag RMTSF_Root only asserts, and RMTSF_SendOnClose with its copy and CloseOpenSamples is not modelled; sample times and lengths are unbounded.
- Serialise.BinSample: counters and times that fit their 32-bit and 64-bit fields. Sample types other than CPU, which add a suffix to the thread's name, are not modelled.
- Properties.TakePropertySnapshot: records are new objects rather than taken from the allocator's free list, child counts are unbounded, and values, names and unique identifiers of a property are not followed.
- The mutex around registration: registrations are taken one at a time.
- TinyXML comments, declarations, DTD and unknown tags: parsing one is an outcome of its own, `OtherMarkup`. UTF-8 mode, row and column stamping, stream input and TiXmlPrinter are not modelled.
- XmlParser.ElementParse: builds the tree as a value; linking nodes is `Dom`. A text that ends inside a quoted value is read no further than its end, where the code would step past the terminator.
- TiXmlAttributeSet's circular list: the attributes of an element are a sequence. The ring it uses has the links of saf's waiter list, `WaiterLists.Ring`.
- XmlExact.RoundTripExactly: trees with a name the parser does not read, or with a `&#x` that no semicolon of its value ends, are outside it; what such a reference reads depends on the markup behind the value (`OpenReferenceReadsOn`).
- SampleLedger.RunSettles: clocks that do not go back.
- Dom.ReplaceChild: deleting the subtree of a replaced or removed node is not followed; attributes and user data are not part of a node.
- saf service shutdown, executors, allocators, shared_future and async_extract: posting appends to a log. Move-assignment over a live promise is excluded.
- WaiterLists.SharedState.Cancel: cancellation of type none, which the code ignores, is not an operation here.
- unchecked utf32to8, the iterator adaptors, distance and advance of utf8-cpp, and its byte order mark tests: easy after the rest.
- basedir, binreloc, bytesize, the Conan and Python scripts and the engine's asset code: input and output, or easy claims.
