# Models of a small embedded runtime

Six parts of the runtime keep state that several functions share: the HyperRAM
transfer engine, the two heaps, the reader of the read-only file system, the
delayed-event queue, the lock between the fabric controller (FC) and the cluster,
and the event scheduler. Each is modelled as a class whose methods take the steps
of the C code, with invariants over the fields, and each is proved against a
specification that knows nothing of the mechanism: plain byte copies, sets of
free bytes, the contents of the flash, absolute due times, a lock with a fair
queue, a first-in-first-out log.

`dafny verify dfyconfig.toml` checks all of it. Nothing here is executed.

How the C code is represented:

- An interrupt handler, or a function that runs with interrupts masked, is one
  atomic method. What the hardware or other parties do in between are further
  methods (`Complete`, `WriteL2`, `Fire`, `Interrupt`) or a script that a method takes
  (`RunQueue`, `LockFromFc`); the results hold for every script.
- Memories, buffers, caches and counters are arrays. Lists linked through fields
  that live at addresses (free chunks, events, tasks, requests) are maps from address
  to field, updated in place; a ghost sequence names what is on the list.
- Addresses and sizes are unbounded unless a wrap-around decides something: the
  tick counter and the end of a file read are computed modulo 2^32.

Files:

- `ByteCopy`, `Arithmetic`: overwriting byte strings, division facts.
- `HyperSpec`, `HyperProgress`, `HyperSteps`, `HyperLog`, `LinkedQueue`, `HyperDriver`,
  `HyperCluster`: requests as byte copies; transfers and control records; one lemma a
  step; the history; queues with a last pointer; the driver; requests from the cluster.
- `FreeList`, `FreeListLinks`, `HeapBanks`, `PowerBanks`, `HeapAlign`, `Heap`, `HeapRuns`:
  free lists as values; their links; counting free bytes in banks; the counters;
  trimming; the heap; whole runs.
- `ExternHeap`, `HeapClients`: the heap whose descriptors are kept elsewhere; clients of
  both heaps.
- `ReadFs`: the file reader.
- `EventChain`, `DelayedSpec`, `DelayedQueue`, `FcLock`, `OrderedLog`, `Events`: linked
  lists of events; due times; the timer; the lock; logs; the scheduler.

Where the code does not do what its comments or callers expect, the model follows
the code, and a lemma says exactly when it does:

- The FC does not see a lock that is freed and taken again while its scheduler runs
  (`FcLock.RetakenUnseen`, `FcLock.KeptWaiting`).
- When the shared heap is created, the bank that holds its first header is turned off
  if it lies within the arena and the 8 bytes before it (`Heap.Heap.AccountArena`,
  `Heap.AccountReachesDarkBank`).
- A 2D HyperRAM copy of lines of length 0 never ends (`HyperSteps.EmptyLinesNeverEnd`).
- Splitting a free chunk writes the new header before the counters are brought up
  to date, possibly into a bank that is powered down (`Heap.Heap.SplitIntoDarkBank`,
  `Heap.SplitReachesDarkBank`).
- Aligned allocation gives back an unaligned tail unless the size is a multiple
  of 8 (`HeapAlign.TailReturnable`, `HeapAlign.UnalignedTail`); a heap over less than 8 usable bytes has no
  usable free list (`Heap.InitUsable`).
- The external heap's aligned allocation gives back bytes behind its block when the
  head is smaller than a descriptor (`ExternHeap.AlignedPiecesTile`,
  `ExternHeap.TailBeyondBlock`), and its result 0 may be a block
  (`ExternHeap.ExternHeap.Alloc`).
- A file read whose end wraps past 2^32 is not cut at the end of the file
  (`ReadFs.RealSizeInFile`, `ReadFs.RealSizeWraps`).
- The delayed-event list does not stay sorted across a change of the counter's top
  bit (`DelayedSpec.EpochMatters`, `DelayedSpec.SortedExactly`); events due at the same
  tick run last pushed first (`DelayedSpec.OneEpochSorted`).
- Waiting for an event that was not got to be waited for, before its push has run or
  after the scheduler has freed it, corrupts the lists (`Events.Scheduler.WaitAtOnce`,
  `Events.WaitBreaksLists`).
- An event that was got to be kept runs only once more after a service has used it
  (`Events.Scheduler.Save`), and a service that pushes the event it uses twice, as a file
  read does that needs two flash accesses, has it freed meanwhile (`Events.LentTwice`).

## Model

| member | source | states |
|---|---|---|
| `HyperSpec.LineOffsetFormula` | drivers/hyper/hyperram-v1.c:572-591 | going from line to line by the stride, byte k of a 2D request lies k / length strides and k % length bytes behind the first |
| `HyperSpec.CopyRun` | drivers/hyper/hyperram-v1.c:853-867 | bytes that lie side by side, copied one at a time in request order, are one block copy |
| `HyperSpec.CopyFrame` | drivers/hyper/hyperram-v1.c:607-759 | a request changes no byte of either memory but those it names on the side it writes; between the lines of a 2D write everything stays |
| `HyperSpec.ReadDelivers` | drivers/hyper/hyperram-v1.c:463-603 | a read leaves in L2 exactly what the HyperRAM holds at each requested place |
| `HyperSpec.WriteDelivers` | drivers/hyper/hyperram-v1.c:607-759 | a written byte arrives unless a later byte of the same request has the same place |
| `HyperSpec.WriteThenRead` | drivers/hyper/hyperram-v1.c:337-413 | a buffer written and read back in the same shape is unchanged, for every size and alignment, if lines do not overlap |
| `HyperSpec.ReadServed` | drivers/hyper/hyperram-v1.c:463-603 | a read leaves byte hyperAddr + (k / length) * stride + k % length, or hyperAddr + k in 1D, at addr + k of L2, for every k, and changes nothing else |
| `HyperSpec.WriteServed` | drivers/hyper/hyperram-v1.c:607-759 | a write leaves the bytes of L2 at those places, unless a later byte of it has the same place, and changes nothing else |
| `HyperSpec.CopyCommutes` | drivers/hyper/hyperram-v1.c:853-867 | writing L2 bytes that a request does not name, before its copy or after any part of it, comes to the same |
| `HyperProgress.BurstsTile` | drivers/hyper/hyperram-v1.c:437-459 | the bursts that a copy is cut into, which are the ones the driver issues (`RunBursts`), start where it starts, each where the last one ended, add up to it, are of 512 bytes but for the last, which has no more, not empty, and each is acceptable to the controller |
| `HyperProgress.FirstBurst` | drivers/hyper/hyperram-v1.c:182-199 | the burst in flight is the first of those the copy is cut into, and the repeat fields stand for the others |
| `HyperProgress.BounceStoreArrives` | drivers/hyper/hyperram-v1.c:643-658 | storing back a block of which some bytes were overlaid copies just the overlaid user bytes; the rest of the HyperRAM is as before |
| `HyperProgress.UserRunArrives` | drivers/hyper/hyperram-v1.c:516-535 | when a direct transfer arrives, exactly its bytes of the request have been copied |
| `HyperProgress.BurstArrives` | drivers/hyper/hyperram-v1.c:182-199 | when one burst of a longer copy arrives, its 512 bytes have been copied and the rest is still a run of the request |
| `HyperSteps.LoadFits` | drivers/hyper/hyperram-v1.c:475-558 | every block loaded into the bounce buffer fits its 128 bytes and the HyperRAM, is aligned, and holds the bytes of the next step |
| `HyperProgress.TouchedIs` | drivers/hyper/hyperram-v1.c:475-558 | the steps of an emulated line, one after the other, access the HyperRAM up to exactly as many bytes behind the line as `HyperSpec.Overreach` says, which is all that a request asks of the bytes behind it |
| `HyperSteps.ReadFromBounce` | drivers/hyper/hyperram-v1.c:498-508 | copying out of the bounce buffer delivers the next bytes of the request and moves the emulation fields past them |
| `HyperSteps.WriteIntoBounce` | drivers/hyper/hyperram-v1.c:709-724 | user bytes laid over the loaded block give a block that equals the HyperRAM everywhere else, for the 4-byte steps and for the odd-address body alike |
| `HyperSteps.BodyTransit` | drivers/hyper/hyperram-v1.c:665-684 | a body aligned on both sides may go straight to the controller |
| `HyperSteps.LineDone` | drivers/hyper/hyperram-v1.c:573-591 | at the end of a line that is not the last, the fields describe the next line |
| `HyperSteps.RequestDone` | drivers/hyper/hyperram-v1.c:593-598 | a copy with no line left has copied the whole request |
| `HyperSteps.WholeArrives` | drivers/hyper/hyperram-v1.c:763-775 | whatever was on its way for an emulated copy, its arrival leaves the copy between two steps, with exactly the issued bytes copied |
| `HyperSteps.BurstOfBodyArrives` | drivers/hyper/hyperram-v1.c:182-199 | after one burst of a long body the rest of it is a legal transfer of the same emulated copy |
| `HyperSteps.WriteKeepsTransit` | drivers/hyper/hyperram-v1.c:607-759 | somebody else's write to L2 bytes that the running request does not name leaves what is on its way on its way, a block with overlaid bytes in the bounce buffer included |
| `HyperSteps.EmptyLinesNeverEnd` | drivers/hyper/hyperram-v1.c:573-591 | a 2D request with lines of length 0 and any stride: however often its line ends, as much is left of it as at the start, and neither a prologue nor a body that would start a transfer |
| `HyperLog.PlainRun` | drivers/hyper/hyperram-v1.c:853-867 | if no client writes, memory after n requests is the plain copies, one after the other |
| `HyperLog.Signal` | drivers/hyper/hyperram-v1.c:593-597 | signalling the running task, with memory as its plain copy leaves it, extends the signalled prefix of the history by one |
| `HyperLog.Dequeue` | drivers/hyper/hyperram-v1.c:824-849 | the words stored in the first waiting task decode to the next request of the history |
| `HyperLog.Enqueue` | drivers/hyper/hyperram-v1.c:879-892 | a request put on hold is the last of the history, and its words decode to it |
| `HyperLog.WriteLogged` | drivers/hyper/hyperram-v1.c:182-222 | a client's write changes what memory is now, and no snapshot taken before |
| `LinkedQueue.Push` | drivers/hyper/hyperram-v1.c:881-886 | appending through the last pointer, or to an empty list through the first, puts the element last |
| `LinkedQueue.Pop` | drivers/hyper/hyperram-v1.c:826-830 | the first pointer is not NULL iff something waits; following its link leaves the list of the others |
| `HyperDriver.Driver.constructor` | drivers/hyper/hyperram-v1.c:952-966 | a driver that has seen no request is in a valid state |
| `HyperDriver.Driver.HalEnqueue` | drivers/hyper/hyperram-v1.c:84-89 | every transfer handed to the controller is aligned, in range and at most 512 bytes, and none is in flight before |
| `HyperDriver.Driver.CopyAligned` | drivers/hyper/hyperram-v1.c:437-459 | starts the first burst; that and the repeat fields stand for the whole copy |
| `HyperDriver.Driver.StartLoad` | drivers/hyper/hyperram-v1.c:478-496 | loads the block that the next step needs |
| `HyperDriver.Driver.FinishRead` | drivers/hyper/hyperram-v1.c:560-568 | delivers n more bytes of a read |
| `HyperDriver.Driver.FinishWrite` | drivers/hyper/hyperram-v1.c:643-658 | overlays n user bytes and sends the block back, and the measure falls |
| `HyperDriver.Driver.StartBody` | drivers/hyper/hyperram-v1.c:516-535 | sends the aligned body, and the measure falls |
| `HyperDriver.Driver.EndOfLine` | drivers/hyper/hyperram-v1.c:572-598 | goes to the next line with at least one line less to go, or ends the task with its whole request copied and signals it |
| `HyperDriver.Driver.ReadStep` | drivers/hyper/hyperram-v1.c:465-600 | one round of the read machine: starts a transfer with a smaller measure, goes on with less to do, or ends the task |
| `HyperDriver.Driver.WriteStep` | drivers/hyper/hyperram-v1.c:610-756 | one round of the write machine, likewise |
| `HyperDriver.Driver.ResumeMisalignedRead` | drivers/hyper/hyperram-v1.c:463-603 | the loop ends, with a transfer in flight or the task finished and signalled |
| `HyperDriver.Driver.ResumeMisalignedWrite` | drivers/hyper/hyperram-v1.c:607-759 | the same for writes |
| `HyperDriver.Driver.CopyMisaligned` | drivers/hyper/hyperram-v1.c:763-775 | goes on with the emulated copy and, at its end, with the queue; the measure falls |
| `HyperDriver.Driver.ExecPendingTask` | drivers/hyper/hyperram-v1.c:824-849 | takes the first task off the list, decodes its words and starts it, or leaves the driver idle if there is none |
| `HyperDriver.Driver.CopyExec` | drivers/hyper/hyperram-v1.c:779-800 | starts a 1D request, direct or emulated, relying on the 2D size being 0 |
| `HyperDriver.Driver.Copy2dExec` | drivers/hyper/hyperram-v1.c:804-820 | starts a 2D request |
| `HyperDriver.Driver.NextBurst` | drivers/hyper/hyperram-v1.c:184-199 | the next burst is what is left, or 512 bytes of it |
| `HyperDriver.Driver.HandleCopy` | drivers/hyper/hyperram-v1.c:182-222 | the interrupt handler restores the invariant with a smaller measure; tasks are only added to the signalled ones |
| `HyperDriver.Driver.Complete` | drivers/hyper/hyperram-v1.c:182-222 | every hardware completion keeps the invariant and lowers the measure; within a long copy the rest of the copy is what is outstanding next |
| `HyperDriver.Driver.Hold` | drivers/hyper/hyperram-v1.c:879-892 | a request on hold is linked behind the last one, with words that decode to it |
| `HyperDriver.Driver.AppendTask` | drivers/hyper/hyperram-v1.c:881-892 | the links, pointers and words after a task was put on hold |
| `HyperDriver.Driver.RunBursts` | drivers/hyper/hyperram-v1.c:182-199 | the transfers that the controller gets for a copy until no burst is left are exactly the bursts it is cut into |
| `HyperDriver.Driver.WriteL2` | drivers/hyper/hyperram-v1.c:182-222 | a client may write L2 at any moment between interrupts, except where the running request is: the invariant holds with the write logged |
| `HyperDriver.Driver.Copy` | drivers/hyper/hyperram-v1.c:871-899 | a 1D request becomes the last of the history, started at once if the driver is idle, straight from L2 to the HyperRAM or back if addresses and size allow; measure grows by at most 2 * size + 2 |
| `HyperDriver.Driver.Copy2d` | drivers/hyper/hyperram-v1.c:903-933 | the same for a 2D request |
| `HyperDriver.Driver.RunToIdle` | drivers/hyper/hyperram-v1.c:182-222 | after at most `Measure()` completions nothing runs or waits, whatever clients write in between to L2 bytes no outstanding request names; memory is the plain copies of all requests, one after the other, and those writes; every task was signalled once, in order, with memory then that of the requests up to its own |
| `HyperDriver.Driver.BetweenInterrupts` | drivers/hyper/hyperram-v1.c:182-222 | in every state between interrupts: a transfer is in flight iff a task is current, and is acceptable; never both an end task and an emulated one; nothing waits on an idle driver; the 2D size is 0 unless a 2D request runs; memory is the finished requests plus the first `done` bytes of the running one |
| `HyperDriver.Driver.TaskServed` | drivers/hyper/hyperram-v1.c:182-222 | by the fields of a request: when its task is signalled, every byte is where the request wants it, and no other has changed since the request before |
| `HyperDriver.Driver.UnwrittenBefore` | drivers/hyper/hyperram-v1.c:211-222 | without writes of clients, a request begins with the memory that the one before it left |
| `HyperCluster.Waits` | drivers/hyper/hyperram-v1.c:1002-1010 | a request behind another keeps the head as the running one |
| `HyperCluster.Finishes` | drivers/hyper/hyperram-v1.c:984-989 | when the shared task comes back, it is for the head of the list |
| `HyperCluster.Server.Exec` | drivers/hyper/hyperram-v1.c:972-982 | the shared task is given to the driver only while the driver does not have it, for a request with the direction, places and sizes of the cluster's |
| `HyperCluster.Server.Request` | drivers/hyper/hyperram-v1.c:998-1016 | a request is linked behind the last; with others before it the driver is not touched, otherwise the driver gets it, field by field |
| `HyperCluster.Server.Deliver` | drivers/hyper/hyperram-v1.c:984-996 | the callback of the shared task marks done the request that is its argument, which is the head, once, and gives the next to the driver, field by field; callbacks of other tasks change neither list nor driver |
| `HyperCluster.Server.Interrupt` | drivers/hyper/hyperram-v1.c:182-222 | a completion at any moment keeps the list and the driver consistent, and is one of finitely many |
| `HyperCluster.Server.RunToIdle` | drivers/hyper/hyperram-v1.c:972-1016 | every request that has arrived is finished, once and in arrival order, after finitely many completions and callbacks, however these interleave, and its bytes were copied the way it asked when its task was signalled |
| `HyperCluster.Server.ServedInOrder` | drivers/hyper/hyperram-v1.c:972-1016 | at any moment the finished requests are the first that arrived, in order, none twice; the shared task is in use exactly for the head; a finished request's bytes had been copied when its task was signalled |
| `HyperCluster.Server.RequestServed` | drivers/hyper/hyperram-v1.c:972-996 | what that copy is, by the fields of the cluster's request: a write brings L2 to the HyperRAM and leaves L2, a read the other way round, each byte to its place |
| `FreeList.Canonical` | kernel/alloc.c:291-334 | two address-ordered lists of aligned chunks, no two touching, with the same free bytes are the same list |
| `FreeList.FreeKeepsOrder` | kernel/alloc.c:300-333 | giving a block back, joined on none, either or both sides, keeps the list ordered, aligned and without touching chunks |
| `FreeList.FreeAddsBytes` | kernel/alloc.c:300-333 | it makes exactly the block's bytes free |
| `FreeList.TakeRemovesBytes` | kernel/alloc.c:217-249 | taking a block off the front or the end of a chunk keeps the order and takes exactly its bytes, all free before |
| `FreeList.TakeThenFree` | kernel/alloc.c:207-334 | taking a block and giving it back restores the identical list |
| `FreeList.NoFitNoRoom` | kernel/alloc.c:215-255 | when no single chunk is large enough, no run of free bytes is |
| `FreeListLinks.UnlinkLinks` | kernel/alloc.c:218-226 | unlinking a chunk leaves links for the others |
| `FreeListLinks.InsertLinks` | kernel/alloc.c:312-333 | linking a new header between its neighbours puts it there |
| `FreeListLinks.FreeGrows` | kernel/alloc.c:316-320 | growing the chunk before a block gives the links of the list with the block given back |
| `HeapBanks.TakeCount` | kernel/alloc.c:223-246 | the bytes accounted by an allocation are the change in free bytes outside headers, for an exact fit and for a split |
| `HeapBanks.ReturnCount` | kernel/alloc.c:304-332 | the bytes accounted by a release are the change in free bytes outside headers, in all four joining cases |
| `HeapBanks.WholeBankFree` | kernel/alloc.c:139-142 | a bank's count reaches the bank size exactly when the whole bank lies in one free chunk behind its header |
| `HeapBanks.FullAtChunk` | kernel/alloc.c:125-155 | the counter of a bank with a byte of a free chunk in it is full iff that chunk, behind its header, fills what the rest of the counter leaves: no two chunks can fill a bank between them |
| `HeapBanks.FreeCountBehind` | kernel/alloc.c:107-166 | a list counts no byte of the first header's place, so that a counter with room for the rest never overflows |
| `HeapBanks.HeaderNotCounted` | kernel/alloc.c:223-246 | the bytes of a free chunk's header are never counted |
| `HeapBanks.CountIsBytes` | kernel/alloc.c:223-246 | a list counts as many bytes of a bank as are free there and behind a header |
| `PowerBanks.StepCounts` | kernel/alloc.c:128-150 | one turn of the accounting loop accounts exactly the bytes of one bank |
| `PowerBanks.PowerFollows` | kernel/alloc.c:132-153 | powering the noted banks keeps every bank off exactly when its counter is full |
| `PowerBanks.Banks.constructor` | kernel/alloc.c:484-494 | banks with nothing counted, all powered |
| `PowerBanks.Banks.WholeBankCounted` | kernel/alloc.c:139-142 | a stretch counts for all of a bank iff the bank lies in it |
| `PowerBanks.Banks.PartCounts` | kernel/alloc.c:120-150 | what a stretch counts for a bank is the number of its addresses in the bank |
| `PowerBanks.Banks.Account` | kernel/alloc.c:115-154 | each counter changes by exactly the bytes of the block in its bank; power stays in step |
| `PowerBanks.Banks.AccountBanks` | kernel/alloc.c:117-150 | the loop over the banks accounts the whole block and notes the banks to switch |
| `Heap.InitUsable` | kernel/alloc.c:193-205 | a new heap has a usable free list iff 8 bytes are left between its first aligned byte and the end of the arena |
| `Heap.Heap.constructor` | kernel/alloc.c:193-205 | the arena is one aligned chunk inside the memory handed over, at most 7 bytes short of it on either side |
| `Heap.Heap.StartTracking` | kernel/alloc.c:484-495 | a heap over counters that hold its free bytes, and have room for its arena behind the first header, is valid with its power tracked |
| `Heap.Heap.AccountArena` | kernel/alloc.c:484-495 | accounting the arena and the 8 bytes before it turns off exactly the banks that lie in there, the one with the first header included; list, counters and power are right from then on |
| `Heap.AccountReachesDarkBank` | kernel/alloc.c:484-495 | such a state is reached: over banks of 16 bytes from 0, an arena from 8 to 64 has its first header in bank 0, which is off |
| `Heap.Heap.Search` | kernel/alloc.c:211-215 | finds the first chunk that is large enough, and the one before it |
| `Heap.Heap.TakeWhole` | kernel/alloc.c:218-226 | an exact fit leaves the list |
| `Heap.Heap.TakeFront` | kernel/alloc.c:228-239 | a split leaves the rest in the chunk's place |
| `Heap.Heap.AccountAlloc` | kernel/alloc.c:225-246 | after both accounting steps the counters are those of the new list, within bounds throughout |
| `Heap.Heap.UserAlloc` | kernel/alloc.c:207-256 | takes the front of the first fitting chunk, keeping list and counters; fails iff none fits, and then changes nothing |
| `Heap.Heap.SearchPlace` | kernel/alloc.c:297-302 | finds the place of a block by address |
| `Heap.Heap.WriteHeader` | kernel/alloc.c:304-314 | writes the block's header, over the next chunk if that touches it |
| `Heap.Heap.LinkBlock` | kernel/alloc.c:316-333 | links the block, or grows the chunk before it, into the list with the block given back |
| `Heap.Heap.UserFree` | kernel/alloc.c:291-334 | gives a block back, keeping list and counters: each bank is powered iff its counter is not full |
| `Heap.Heap.UserAllocAlign` | kernel/alloc.c:258-289 | returns a multiple of the alignment and takes exactly the block, free before; fails iff the larger block cannot be had, and then changes nothing: list, headers, counters, power |
| `Heap.Heap.AllocTrimmed` | kernel/alloc.c:267-289 | the list afterwards is the one that `HeapRuns` steps to |
| `Heap.Heap.FreeHead` | kernel/alloc.c:276-283 | the head goes back and the address stays: the adjustment for a small head is never taken |
| `Heap.Heap.FreeTail` | kernel/alloc.c:285-286 | after the tail went back exactly the block is taken |
| `Heap.Heap.Scribble` | kernel/alloc.c:73-76 | whatever a user writes over bytes that are not free, changing any word that overlaps them, leaves the heap intact |
| `Heap.Heap.HeadersPowered` | kernel/alloc.c:223-246 | the bank of a free chunk's header byte is on, except iff that byte is among the first 8 of the arena and the chunk fills what the bank's counter leaves; never, if the counter has room for those 8 |
| `Heap.Heap.DarkAtChunk` | kernel/alloc.c:125-155 | the bank of a byte of a free chunk is off iff that chunk, behind its header, fills what the bank's counter leaves, whatever else the counter holds |
| `Heap.Heap.CounterCounts` | kernel/alloc.c:115-154 | a counter says how many bytes of its bank are free and behind a header, besides what it held at first |
| `Heap.Heap.SplitIntoDarkBank` | kernel/alloc.c:232-246 | the bank of a new header is off when it is written iff the chunk that is split, behind its header, fills what the bank's counter leaves; with nothing else counted, iff the whole bank lies in that chunk, behind its header |
| `Heap.SplitReachesDarkBank` | kernel/alloc.c:232-246 | such a state is reached: four banks of 16 bytes, an arena from 8 to 64, 16 bytes allocated |
| `HeapAlign.HeadGoesBack` | kernel/alloc.c:272-283 | taking the larger block and giving its head back takes exactly the rest, all free before |
| `HeapAlign.FreeKeepsOrderIff` | kernel/alloc.c:300-333 | giving back bytes that are not free keeps the list in order iff their address is aligned |
| `HeapAlign.TailReturnable` | kernel/alloc.c:285-286 | the tail is a block the heap can take back, and the list with it is in order, iff the size is a multiple of 8 |
| `HeapAlign.UnalignedTail` | kernel/alloc.c:258-289 | an input: 12 bytes aligned to 16 leave a chunk at 28 on the list |
| `HeapAlign.TailGoesBack` | kernel/alloc.c:285-286 | giving the tail back leaves exactly the block taken |
| `HeapAlign.AlignedTakes` | kernel/alloc.c:267-289 | an aligned allocation takes exactly its block, free before, and keeps the list in order |
| `HeapRuns.EveryRun` | kernel/alloc.c:193-334 | after every run of allocations, aligned allocations and releases the list is ordered, blocks in use are aligned and disjoint, and free chunks and blocks tile the arena, whether blocks come from the front or the end |
| `HeapRuns.FreeListForgetsHistory` | kernel/alloc.c:207-334 | two runs that leave the same bytes in use leave the identical list |
| `HeapRuns.AllGivenBack` | kernel/alloc.c:291-334 | giving every block back, in any order, restores the one chunk |
| `HeapRuns.FailsOnlyWhenFull` | kernel/alloc.c:250-255 | in every run an allocation fails only if no free bytes in a row would do |
| `HeapRuns.LiveReturnable` | kernel/alloc.c:291-334 | a block in use in any run meets all that giving it back asks for |
| `HeapRuns.AllocDoes` | kernel/alloc.c:207-256 | after any run an allocation succeeds iff a chunk is large enough, and adds a block of the size asked for, rounded up, of bytes that were free |
| `HeapRuns.AlignedDoes` | kernel/alloc.c:258-289 | the same for an aligned allocation: a block of exactly the size, at a multiple of the alignment |
| `HeapRuns.SmallAlignedDoes` | kernel/alloc.c:258-265 | alignments below 8 are those of every allocation |
| `HeapRuns.FreeDoes` | kernel/alloc.c:291-334 | a release takes that block, and no other, out of those in use, and makes exactly its bytes free |
| `HeapClients.RunHeap` | kernel/alloc.c:207-334 | a client that gives back only what it was given may do anything with a new heap, tracked or not: list and blocks are at the end those of the run of its operations, and with every block back the list is the first one |
| `HeapClients.RunExtern` | kernel/alloc_extern.c:136-236 | the same for the heap that keeps its descriptors elsewhere, as long as the other heap has one to offer |
| `ExternHeap.TakeWholeOk` | kernel/alloc_extern.c:145-151 | a chunk taken whole gives its descriptor back and leaves the others linked |
| `ExternHeap.JoinBothOk` | kernel/alloc_extern.c:209-227 | a block between two chunks leaves one descriptor for all three |
| `ExternHeap.InsertOk` | kernel/alloc_extern.c:214-233 | a new descriptor goes between its neighbours |
| `ExternHeap.AlignedPiecesTile` | kernel/alloc_extern.c:165-196 | with the rounding of every size, the pieces of an aligned allocation are aligned and tile the larger block iff the size is a multiple of 8 and the head is empty or at least a descriptor long; a smaller head sends the tail `align` bytes beyond the block |
| `ExternHeap.AlignedPiecesPlace` | kernel/alloc_extern.c:165-196 | the head starts the block and is empty iff that is aligned; the bytes returned begin at the next multiple, or one later for a head without room for a descriptor; the tail follows them |
| `ExternHeap.TailBeyondBlock` | kernel/alloc_extern.c:165-196 | an input: 16 bytes aligned to 16 from a block at 8 give back bytes up to 80, the block ends at 64 |
| `ExternHeap.ExternHeap.DescriptorsInUse` | kernel/alloc_extern.c:60-68 | there are as many descriptors as free chunks |
| `ExternHeap.ExternHeap.Alloc` | kernel/alloc_extern.c:136-163 | takes the end of the first fitting chunk; the result is 0 iff none fits, which changes nothing, or the block taken begins at address 0 |
| `ExternHeap.ExternHeap.Free` | kernel/alloc_extern.c:198-236 | gives a block back; returns -1 iff there is no descriptor to be had and no chunk begins where the block ends, and then changes nothing |
| `ReadFs.RealSizeInFile` | drivers_deprecated/read_fs.c:432-435 | a read stays in the file iff its end does not wrap past 2^32, and then delivers what is asked for or left; otherwise it delivers what is asked for |
| `ReadFs.RealSizeWraps` | drivers_deprecated/read_fs.c:432-435 | an input whose end wraps: the read is not cut |
| `ReadFs.RetryHits` | drivers_deprecated/read_fs.c:323-328 | after the load that a miss causes, the retry does not miss |
| `ReadFs.Reader.ReadBlock` | drivers_deprecated/read_fs.c:292-299 | every flash access has an 8-aligned address, buffer and size, keeps inside the buffer, and none is in flight before |
| `ReadFs.Reader.ReadCached` | drivers_deprecated/read_fs.c:315-331 | a hit copies flash bytes; a miss delivers nothing and loads the cache at the aligned address |
| `ReadFs.Reader.Read` | drivers_deprecated/read_fs.c:333-373 | one step delivers the bytes it reports, or has them on their way, and touches nothing outside the request; it reports 0 iff it missed; sizes up to 16 and different alignments go through the cache, others hit it whole, or go straight to the buffer from the first aligned byte on |
| `ReadFs.Reader.ReadDirect` | drivers_deprecated/read_fs.c:355-372 | the prefix and the block behind it; what is reported is delivered although only the block is reported |
| `ReadFs.Reader.Step` | drivers_deprecated/read_fs.c:400-412 | one turn of the loop advances the read and lowers the measure |
| `ReadFs.Reader.TryRead` | drivers_deprecated/read_fs.c:393-421 | the loop ends with the data there and the event enqueued once, or with a flash access on its way |
| `ReadFs.Reader.FsRead` | drivers_deprecated/read_fs.c:423-462 | starts a read of what 32-bit arithmetic makes of the request, and moves the offset by as much; returns that number as an int, which is the smaller of what was asked for and what is left if nothing wraps and that is below 2^31; without an event it is complete |
| `ReadFs.Reader.Complete` | drivers_deprecated/read_fs.c:393-421 | when a flash access ends the read goes on, with a smaller measure |
| `ReadFs.Reader.ReadToEnd` | drivers_deprecated/read_fs.c:423-462 | in both modes, for every size and alignment: the buffer holds exactly the next bytes of the flash, as many as the result says, nothing else changed, the offset is within the file, the event was enqueued once; these are the bytes asked for and left in the file, with the offset past them, iff the end of the request does not wrap |
| `ReadFs.Reader.Seek` | drivers_deprecated/read_fs.c:375-384 | succeeds iff the offset is inside the file; a failure changes nothing |
| `ReadFs.Reader.ConsecutiveReads` | drivers_deprecated/read_fs.c:423-462 | two calls in a row, in whichever modes, leave buffer and offset as one call for both sizes |
| `EventChain.ChainInsert` | kernel/time.c:80-96 | linking an event between its neighbours puts it there and keeps the rest |
| `EventChain.NoListTwice` | kernel/events.c:253-254 | an event linked in front of a list it is on leaves no list at all |
| `DelayedSpec.TicksLongEnough` | kernel/time.c:62-72 | the ticks last longer than the microseconds asked for, for every reference clock up to 1 MHz |
| `DelayedSpec.TicksLeast` | kernel/time.c:71 | with ticks of a whole number of microseconds, one tick less would not outlast the delay |
| `DelayedSpec.PlaceByTime` | kernel/time.c:79-95 | a push goes before the first event whose time, without the top bit, is not below the present one's plus the ticks |
| `DelayedSpec.MaskIn` | kernel/time.c:74-77 | what dropping the top bit does to times within half a turn of now |
| `DelayedSpec.SortedExactly` | kernel/time.c:74-96 | a push keeps the list sorted iff: overdue events of the epoch before are older by more than half a turn, and events of the next epoch are not due after the new one unless one of this epoch stops the search |
| `DelayedSpec.OneEpochSorted` | kernel/time.c:74-96 | within one epoch the list stays sorted; the event goes behind those due earlier and before those due with it or later |
| `DelayedSpec.EpochMatters` | kernel/time.c:74-96 | an input for which it does not stay sorted |
| `DelayedSpec.DueByDifference` | kernel/time_irq.c:37-39 | within half a turn, the 32-bit difference tells exactly whether an event is due |
| `DelayedSpec.PrefixOfSorted` | kernel/time_irq.c:37-44 | in a sorted list the events that move are all that are due |
| `DelayedSpec.LatestOfSorted` | kernel/time_irq.c:37-44 | in a sorted list no event waits for one before it |
| `DelayedSpec.LatestIsOne` | kernel/time_irq.c:37-44 | the time that an event waits for is that of the comparator, or when it or one before it is due |
| `DelayedQueue.ListedInsert` | kernel/time.c:80-96 | the links and times after an insertion |
| `DelayedQueue.Timer.Search` | kernel/time.c:80-85 | the loop stops at the first event whose masked time is not below the bound |
| `DelayedQueue.Timer.PushDelayed` | kernel/time.c:53-115 | inserts the event, due after the fewest ticks that outlast the delay, before the first event whose masked time is not below its own; sets the comparator, strictly ahead and not before the due time, iff it is first; the list is sorted afterwards iff `FitsEpoch` |
| `DelayedQueue.Timer.Drain` | kernel/time_irq.c:33-48 | moves the events before the first that is not due to the scheduler, in order, and keeps the others, for any list within half a turn of now |
| `DelayedQueue.Timer.Rearm` | kernel/time_irq.c:50-60 | the new comparator is as far ahead of the count as the first event was of the time the handler began |
| `DelayedQueue.Timer.Handle` | kernel/time_irq.c:28-85 | drains, and leaves the comparator set strictly ahead for the first event left, or the interrupt off |
| `DelayedQueue.Timer.Fire` | kernel/time_irq.c:28-85 | an interrupt taken any time after the comparator matches moves at least one event, and none that is not due |
| `DelayedQueue.Timer.RunToIdle` | kernel/time_irq.c:28-85 | for interrupts of any latency and length up to a bound: all events leave, in list order, none before it is due, and each at most one latency and one handler's time after it, those before it, and the comparator already set are due, in no more interrupts than events; delays do not add up |
| `FcLock.StepKeeps` | kernel/utils.c:92-185 | every step by a party that may take it keeps: one holder iff locked, waiters only while locked, arrivals are grants followed by the queue |
| `FcLock.StepDoes` | kernel/utils.c:92-185 | what each step does: taking, waiting last, handing over to the first that waits, or freeing |
| `FcLock.EveryRun` | kernel/utils.c:92-185 | the invariant holds after every interleaving |
| `FcLock.MutualExclusion` | kernel/utils.c:92-185 | from the free lock no two parties ever hold it, it is locked iff one does, and grants follow arrivals |
| `FcLock.FcGetsItLast` | kernel/utils.c:92-109 | the FC gets the lock iff it is free, and then no cluster request waits |
| `FcLock.ServedInTurn` | kernel/utils.c:111-125 | while the lock is held each release hands it to the next in the queue: neither the FC nor later requests come in between |
| `FcLock.RetakenUnseen` | kernel/utils.c:142-185 | a lock freed and asked for again within one round of the scheduler is held at its end |
| `FcLock.KeptWaiting` | kernel/utils.c:96-100 | so a cluster core can keep the FC waiting for any number of rounds though it gives the lock back in each |
| `FcLock.QueuedAppend` | kernel/utils.c:150-158 | appending through the last pointer makes the request the last of the queue |
| `FcLock.Lock.UnlockToCluster` | kernel/utils.c:111-125 | hands the lock to the first request and replies to it, or says that none waits |
| `FcLock.Lock.UnlockFromFc` | kernel/utils.c:127-139 | the FC's unlock is the protocol's step; exactly the new holder is replied to |
| `FcLock.Lock.ClusterRequest` | kernel/utils.c:142-185 | a cluster request is the protocol's step; a lock request is replied to iff it holds the lock, an unlock request always |
| `FcLock.Lock.LockFromFc` | kernel/utils.c:92-102 | the FC looks at the lock between rounds of its scheduler, gets it iff some round ends with it free, after the first that does, and no request waits then |
| `Events.ListEnqueue` | include/rt/rt_event.h:397-407 | the event becomes the last of the queue; the free list, which shares the field, is untouched |
| `Events.PushOnce` | include/rt/rt_event.h:397-407 | pushing an event keeps free list and queue iff it is neither free nor queued |
| `Events.PushFree` | include/rt/rt_event.h:286-290 | the event becomes the first free one; the queue is untouched |
| `Events.ReleaseOnce` | kernel/events.c:247-255 | giving an event back keeps free list and queue iff it is neither free yet nor queued |
| `Events.Scheduler.WaitAtOnce` | kernel/events.c:247-255 | the wait for an event that is not pending, which gives it back at once, keeps the lists iff a client has it and none of its pushes is still to run |
| `Events.WaitBreaksLists` | kernel/events.c:247-255 | an input: an event got to run once, pushed, and waited for before it has run |
| `Events.LentTwice` | drivers_deprecated/read_fs.c:393-421 | an input: a service, such as a file read that needs two flash accesses, pushes the event it uses a second time; once it gives it back, the event is first of both lists |
| `Events.FlagsTaken` | kernel/events.c:94-137 | a free event has clear flags, so that getting it need not reset them |
| `Events.FlagsRun` | kernel/events.c:226-232 | an event is released when it runs iff a client got it to run once and no service uses it |
| `Events.FlagsLent` | include/rt/rt_event.h:369-396 | lending an event saves its flag and sets the flags so that running it for the service does not free it |
| `Events.Scheduler.constructor` | kernel/events.c:52-74 | the events of the pool are free with clear flags |
| `Events.Scheduler.Take` | kernel/events.c:94-137 | takes the first free event, or returns NULL and changes nothing |
| `Events.Scheduler.Enqueue` | kernel/events.c:139-144 | a pushed event is last in the queue and in the log |
| `Events.Scheduler.Perform` | kernel/events.c:94-155 | what each client action does to queue, free list, roles and callbacks; all of them, nested waits and services included, only add to the logs, and keep events that are waited for |
| `Events.Scheduler.PerformAll` | kernel/events.c:234-239 | what a callback does is done, all of it and in order, unless it waits on |
| `Events.Scheduler.Save` | include/rt/rt_event.h:369-396 | flag and callback of the event are saved; one that was kept is not kept any longer |
| `Events.Scheduler.Restore` | include/rt/rt_event.h:380-388 | the event has its flag and callback back, so that pushing it is pushing the client's event |
| `Events.Scheduler.PopFirst` | kernel/events.c:216-232 | the first event runs with the callback it was pushed with, is freed before that iff it runs once and no service uses it, and is no longer waited for, unless it ran for a service |
| `Events.Scheduler.RunFirst` | kernel/events.c:216-239 | the first event of the queue runs, and its callback is called iff it is not NULL |
| `Events.Scheduler.RunQueue` | kernel/events.c:216-243 | whatever the callbacks get, push and wait for meanwhile, executing the same queue themselves, the loop empties the queue, and every push has run, once and in push order; each call with a callback has called it, and what the callbacks do has been done, in order, unless one waits on |
| `Events.Scheduler.Execute` | kernel/events.c:189-245 | the same, after the interrupt that an empty queue waits for if asked to, and what that does |
| `Events.Scheduler.WaitEvent` | kernel/events.c:247-255 | executes the scheduler as long as the event is pending, and no longer; returns with the event given back once it has run for its client, and never waits on for an event that is in the queue for its client |

## Left out

- `HyperDriver.Driver.Copy`: addresses are not bounded to 32 bits and the chip-select bit in the address (drivers/hyper/hyperram-v1.c:876-877) is not modelled; the HyperRAM is the controller's address space, which goes on behind an emulated request for the up to 3 bytes that its last step accesses (`HyperProgress.TouchedIs`).
- `HyperDriver.Driver.Copy2d`: the same; and the length of a line is positive unless the request is empty, as `HyperSteps.EmptyLinesNeverEnd` says it must be.
- `HyperDriver.Driver.MoveBytes`: the hardware moves the bytes of a transfer at the moment it completes, and user buffers are disjoint from the bounce buffer, which is taken to be 4-aligned.
- `HyperDriver.Driver.WriteL2`: only the driver writes the HyperRAM, and no client writes where the running request is.
- `HyperDriver.Driver.Hold`: a task is not submitted again while the driver has it.
- `HyperCluster.Server.Deliver`: that the callback reads the request after telling the cluster it is done (drivers/hyper/hyperram-v1.c:987-989) is not captured. `FcCopy` and `WriteL2` are the only other clients.
- `Heap.Heap.UserAlloc`: the size is positive, and addresses do not wrap.
- `Heap.Heap.UserAllocAlign`: for alignments of 8 and more the size is a multiple of 8; `HeapAlign.TailReturnable` says that it must be.
- `Heap.Heap.UserFree`: the caller gives back a block that is not free, inside the arena; the effect of writing a header into a bank that is off is not modelled.
- `Heap.Heap.AccountArena`: the arena's address and size are multiples of 8, the counters start at zero, and the 8 bytes before the arena lie in the banks. That the standby counters share the array is not modelled.
- `PowerBanks.Banks.Account`: the standby counters and `rt_user_alloc_conf` are left out; what the counters hold beyond the heap's free bytes is a constant offset.
- `HeapRuns.EveryRun`: the heap that cuts blocks off the end has no aligned allocation in its runs, because of `ExternHeap.AlignedPiecesTile`.
- `ExternHeap.ExternHeap.constructor`: the case without a descriptor, and an arena of a positive size with fewer than 8 usable bytes, which the code leaves with an unset or empty list, are left out.
- `ExternHeap.ExternHeap.Free`: whether the heap that holds the descriptors has one to offer is a parameter; giving descriptors back is a change of the set in use.
- `ReadFs.Reader.FsRead`: one read at a time (the file-system lock does nothing else here), addresses in flash and memory that do not wrap, a buffer for as many bytes as the code reads, and a cache that agrees with the flash at the start.
- `ReadFs.Reader.ReadToEnd`: the same.
- `ReadFs.Reader.Complete`: the event that resumes a read is "the flash access is over, go on"; saving and restoring the user's event is in `Events`.
- `DelayedQueue.Timer.PushDelayed`: the other tick formula (kernel/time.c:69), which overflows for long delays, and the timers built on delayed events are left out.
- `DelayedQueue.Timer.Handle`: all due times are within half a turn of now. The interrupt flag that is cleared with an empty list is not modelled.
- `DelayedQueue.Timer.Drain`: the scheduler queue is a sequence here; its links are in `Events`.
- `DelayedQueue.Timer.RunToIdle`: nothing is pushed meanwhile, and the events left are due within half a turn of each other, less the bounds on latency and handler.
- `FcLock.Lock.LockFromFc`: what others do while the FC waits is a script, one entry a round; if it ends while the lock is held, the FC goes on waiting.
- `FcLock.Lock.ClusterRequest`: a request is not sent again while it waits or holds the lock, and the lock is given back with the request that took it; the variants without a cluster or with a test-and-set lock are left out.
- `Events.Scheduler.RunQueue`: what callbacks do is a script of gets, pushes, waits and services, one entry a call; if the script of a callback's wait ends before its event has run, the callback waits on and the loop does not end.
- `Events.Scheduler.WaitEvent`: what happens meanwhile is a script, one entry a round.
- `Events.Scheduler.PushEvent`: a service pushes the event it uses only once, as `Events.LentTwice` says it must.
- `__rt_sched_event_cancel`, `rt_timer_stop`: cancelling does not keep the last pointer; not part of the queue claims.
- `rt_event_free`, freeing events of the pool: a loop of pops from the free list.
- drivers/hyper/hyperram-v2.c: the same copy machine.
- Assembly versions of the handlers, hardware registers, clocks, event masks, open and close, traces: foreign calls.
- Mounting, opening and direct reads of the file system: no state beyond what is modelled.
- Other drivers, cluster power-up, threads, clock and frequency arithmetic: hardware plumbing or single expressions.
