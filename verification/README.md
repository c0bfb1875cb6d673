# A verified model of the virtio back end's core

This project models, in Dafny, the parts of the virtio back end that are easy to get subtly wrong: the queue
protocols, the state machines shared by several threads, and the address arithmetic. What the program changes in
place is a class whose methods are proved against a function on values; the properties of whole runs are then
proved about those functions, for every run and every input.

| module | what it models |
|---|---|
| `ChainWalk`, `VirtQueue`, `VolatileWalk` | what a descriptor chain means, the device side of a split virtqueue, and the walk over memory that changes meanwhile |
| `RingProtocol` | that queue shared with a conforming driver, over whole runs with 16-bit wrapping indices |
| `BlockIf`, `BlockRuns`, `BlockOrder`, `BlockProgress`, `BlockFairness` | the block request scheduler: three queues, eight workers, a condition variable, cancel and close |
| `HugeTlb` | guest memory over two huge-page sizes, its fallback when a mapping fails, and the translation of a guest address to a file and an offset |
| `Mevent`, `EventLoop` | the event loop and its deferred deletion, among other threads |
| `Mmio` | the two MMIO range trees and the hint in front of them |
| `CommonCfg`, `CommonRuns`, `SharedHeader`, `MirrorRuns` | the common configuration registers behind the queue selector, feature negotiation, and the header shared with the front end |
| `Uart`, `UartRuns`, `UartRegisters` | the serial port's registers, receive ring and backend flow control |
| `E820`, `Timer`, `Geometry` | splitting and compacting the e820 table, tick conversion, disk geometry |
| `Words`, `Queues` | machine words and linked lists as sequences |

How the pieces are joined: a method such as `VirtQueue.Queue.GetChain` states its new state by functions of the old
one (`Ring.Taken`, `Ring.NextHead`); the steps of a transition system such as `RingProtocol.Sys` are the same
functions; and each run lemma is an induction over the steps. A step is one section the code runs with its lock
held, or one access it makes without it.

## Where the code and its promises differ

- `vq_getchain` returns -1 for a chain longer than the caller's array (`virtio.c:301-302`), although the comment at
  `virtio.c:335-340` says such entries are counted but not stored. The model follows the code.
- A flush is given the end `1 << 7` (`devicemodel/hw/block_if.c:187`), so it orders itself against requests at offset
  128. The model follows the code.
- The scheduler's order guarantee fails when two live requests end at the same offset:
  `BlockOrder.CollidingEndsBreakOrder` gives a run of eight steps. `BlockOrder.RunOrderedIff` says exactly which
  runs keep the order, and `BlockOrder.RunOrdered` proves the guarantee while the live ends differ.
- A callback that deletes an event further on in the batch being handled makes the loop touch freed memory
  (`EventLoop.CarelessDeleteTouchesFreed`); any other deletion is safe (`EventLoop.DispatchDeleteSafeIff`).
- `mevent_enable` looks for the event under the lock but registers it after dropping the lock
  (`devicemodel/core/mevent.c:272-288`). A deletion in between leaves a freed event registered
  (`EventLoop.EnableRaceReachable`, `EventLoop.LateRegisterTouchesFreed`). `EventLoop.RegisterSafeIff` says when
  registering is safe, and `EventLoop.DisciplineSuffices` gives a rule for callers under which it always is.
- `vm_allow_dmabuf` takes descriptor 0 for a closed file, so it can allow dma-buf on memory split between two files,
  one of them numbered 0 (`HugeTlb.DmabufWrongAtZero`; `HugeTlb.DmabufIffContiguous` has the exact condition).
- The compaction loop of the e820 table never looks at the last entry, so that one stays even when it is empty
  (`E820.NoEmptyEntryIff`).
- `init_mem` empties the trees but leaves the hint, and it is called again when the virtual machine reboots
  (`devicemodel/core/main.c:1137`). An access can then reach a range the map no longer holds (`Mmio.RebootMisleads`);
  `Mmio.RepliesAgreeIff` says exactly which accesses do.
- The search for a disk's geometry takes a count of exactly 1024 cylinders for each of four or more heads as not
  fitting seventeen sectors, although it would (`devicemodel/hw/block_if.c:967`); `Geometry.Layout` follows the code.
- A tick survives the round trip through a timespec for every count of ticks exactly when the clock runs at no more
  than one gigahertz (`Timer.RoundTripExactIff`).
- A queue selection written at the wrong width is refused, yet the header is refreshed for the queue selected before
  (`SharedHeader.BadSelectShowsOld`).
- Enabling a queue again when its rings can no longer be mapped takes it out of service but leaves its enable register
  at 1 (`CommonRuns.EnabledOutOfService`); `CommonRuns.EnableRegisterExact` says exactly when the register is right.

## Model

| member | source | states |
|---|---|---|
| VirtQueue.Queue.Record | virtio.c:295-311 | a buffer is recorded if and only if there is room for it and its range can be mapped; its entry is the host address of its own guest address and length, with that length and its flags, and a refusal writes nothing |
| VirtQueue.Queue.WalkIndirect | virtio.c:446-470 | following an indirect table ends, never indexes past it, and either records the mapped host address, length and flags of every buffer of the list that table stands for, in order, or no such list would fit |
| VirtQueue.Queue.Walk | virtio.c:404-479 | walking a chain ends, never indexes past the table, and either records the mapped host address, length and flags of every buffer of the chain's list, in order, or no such list would fit |
| VirtQueue.Queue.GetChain | virtio.c:353-479 | the result is positive if and only if 1 to `qsize` heads wait and the head's chain stands for a list of at most min(512, `n_iov`) mapped buffers; then the arrays hold, in order, the host address each buffer's guest address and length map to, its length and its flags; zero and -1, the cursor and the head are settled in every case |
| VirtQueue.Queue.RetChain | virtio.c:487-491 | the cursor goes back by one, wrapping |
| VirtQueue.Queue.RelChain | virtio.c:500-525 | the used entry goes into the slot the wrapping index names and nothing else of the ring changes |
| VirtQueue.Queue.EndChains | virtio.c:542-584 | a queue that never had a used ring is left alone; otherwise the saved index is brought up to date, and an interrupt is raised exactly when the suppression rules say so |
| ChainWalk.FlatUnique | virtio.c:404-479 | a chain stands for at most one list of buffers |
| ChainWalk.CyclicStandsForNothing | virtio.c:404-479 | a chain that can never leave a set of continuing descriptors stands for no list, so a cyclic chain is refused |
| ChainWalk.StepThroughIndirect | virtio.c:418-478 | after a whole indirect table the walk stands where the relational meaning says |
| ChainWalk.GoodIndirectIs | virtio.c:418-447 | an indirect descriptor is acceptable if and only if the feature is on, its length is a positive multiple of 16 and it can be mapped, and its table then has one entry for every 16 bytes |
| VolatileWalk.Walker.Walk | virtio.c:404-479 | with every read of a descriptor arbitrary, as of memory that changes meanwhile, the walk still ends, keeps every index within the table as measured, and records at most the limit of buffers, each of them mapped; it succeeds only at a descriptor last seen without a successor, and fails only for its head, for want of room, or for something it saw that no walk may accept |
| VolatileWalk.Walker.Record | virtio.c:301-310 | the length is read once for mapping and once for recording: a buffer is recorded if and only if there is room and the first can be mapped, it holds both, and all recorded buffers are exactly what was mapped if and only if the two reads agreed each time |
| VolatileWalk.Walker.TableAt | virtio.c:424-440 | an indirect table is accepted if and only if the length read first gives it an entry, the length read second is a multiple of 16, and the address and length read last can be mapped |
| VolatileWalk.TableCoveredIff | virtio.c:425-448 | an indirect table measured by one read and mapped by another is wholly in mapped memory if and only if the second length covers the first |
| RingProtocol.WaitingIsExact | virtio.c:382-397 | the wrapping difference of indices is the true number of chains published and not taken |
| RingProtocol.TakesNextPublished | virtio.c:399-403 | heads are taken in the order the driver published them, through any number of wraps |
| RingProtocol.ConsumesNextUsed | virtio.c:516-524 | the driver sees an entry exactly when there is one, and reads the used entries in the order they were returned |
| RingProtocol.ReleaseSparesUnread | virtio.c:516-521 | returning a chain overwrites no used slot the driver has still to read |
| RingProtocol.StepInv | virtio.c:382-403 | every step of device or driver keeps consumed <= used <= taken <= published <= consumed + qsize, the 16-bit words as residues of the counters, both rings intact, and every head held or returned once |
| RingProtocol.RunInv | virtio.c:487-525 | the same over every run |
| RingProtocol.QuietReturnsEverything | virtio.c:500-525 | when nothing is outstanding each published head has come back exactly as often as it went out |
| RingProtocol.PutBackUndoesTake | virtio.c:487-491 | returning a chain to the available ring undoes taking it, in the whole state |
| RingProtocol.EventTestExact | virtio.c:568-577 | with fewer than 2^16 entries since the last call, the event-index test interrupts if and only if the driver's event is among them |
| RingProtocol.EventTestExactIff | virtio.c:568-577 | that bound is exact: at 2^16 entries or more some event is missed |
| RingProtocol.InterruptsExactly | virtio.c:562-581 | all of the rule: an interrupt is raised if and only if the ring ran empty and the driver asked to be told, or else, with event indices, the driver's event is among the new entries, or, without, there are new entries and the driver did not ask for silence |
| RingProtocol.EndInterruptsExactly | virtio.c:562-583 | in every reachable state the call that ends a batch interrupts if and only if the event is in the interval it examines |
| RingProtocol.ExaminedOnce | virtio.c:562-566 | over a run each used entry examined so far was examined by exactly one call |
| Words.MaskIsMod | virtio.c:399-400 | masking by a power of two less one is the remainder |
| Words.SlotOfCounter | virtio.c:516-521 | a wrapped 16-bit index masked by the size is the slot of the unbounded counter |
| Words.SlotsApart | virtio.c:516-521 | counters less than the ring's size apart use different slots |
| BlockIf.Ctxt.constructor | devicemodel/hw/block_if.c:744-750 | all 72 elements start on the free queue |
| BlockIf.Ctxt.Enqueue | devicemodel/hw/block_if.c:161-206 | a free element goes to the tail of the pending queue with its end computed from all its buffers, blocked if and only if a pending or busy request ends where it starts |
| BlockIf.EndIs | devicemodel/hw/block_if.c:177-189 | a read, write or discard with no buffers ends where it starts, each buffer moves the end by its length, one cut in two pieces ends where the second piece does, and a flush ends at 128 |
| BlockIf.EnqueuedIs | devicemodel/hw/block_if.c:161-206 | field by field, what accepting leaves of the new element, the queues and every other element; blocked if and only if some request that is not free ends at its offset |
| BlockIf.Ctxt.Dequeue | devicemodel/hw/block_if.c:208-225 | the first pending request that is not blocked becomes busy, if there is one, and no other changes |
| BlockIf.DequeuedIs | devicemodel/hw/block_if.c:208-225 | field by field: the one at the first ready position goes to the tail of the busy queue as that worker's, the others keep their order |
| BlockIf.Ctxt.Unblock | devicemodel/hw/block_if.c:236-239 | exactly the pending requests that start at the given offset become ready |
| BlockIf.Ctxt.Complete | devicemodel/hw/block_if.c:227-244 | the element leaves its queue for the free one and exactly the pending requests starting at its end become ready |
| BlockIf.CompletedIs | devicemodel/hw/block_if.c:227-244 | field by field: the element is emptied at the tail of the free queue, exactly the waiting requests at its end become ready, and nothing else changes |
| BlockIf.Ctxt.Request | devicemodel/hw/block_if.c:778-806 | E2BIG if and only if no element is free, with nothing changed; otherwise accepted, and a worker signalled exactly when the request is not blocked |
| BlockIf.Ctxt.Cancel | devicemodel/hw/block_if.c:832-868 | success if and only if a pending request has that address, which is then dropped; in flight or unknown requests change nothing |
| BlockIf.EnqueuedValid | devicemodel/hw/block_if.c:161-206 | enqueueing keeps every element on exactly the queue its status names |
| BlockIf.DequeuedValid | devicemodel/hw/block_if.c:208-225 | so does dequeueing |
| BlockIf.CompletedValid | devicemodel/hw/block_if.c:227-244 | so does completing |
| BlockRuns.QueuesPartition | devicemodel/hw/block_if.c:161-244 | the 72 elements are always shared out among the three queues, and the free one is empty exactly when no element is free |
| BlockRuns.StepAttended | devicemodel/hw/block_if.c:381-409 | pending work always leaves some worker awake, running or signalled |
| BlockRuns.StepInv | devicemodel/hw/block_if.c:161-244 | every step of caller, worker, canceller and closer keeps the queues valid, workers matched to busy elements, blockers alive, work attended and requests accounted for |
| BlockRuns.RunInv | devicemodel/hw/block_if.c:381-409 | the same over every run |
| BlockRuns.FewBusy | devicemodel/hw/block_if.c:208-225 | at most eight requests are busy |
| BlockOrder.CompletionOrdered | devicemodel/hw/block_if.c:236-239 | completing an element keeps the order if and only if it releases no request that another live one precedes |
| BlockOrder.StepOrderedIff | devicemodel/hw/block_if.c:189-244 | exactly which steps keep every ready or busy request unpreceded |
| BlockOrder.RunOrderedIff | devicemodel/hw/block_if.c:189-244 | over every run, the order holds in each state if and only if no completion along it releases a request that another live one precedes |
| BlockOrder.RunOrdered | devicemodel/hw/block_if.c:189-239 | while live requests end at distinct offsets, a request is dispatched only after every earlier live request ending where it starts has completed or been cancelled |
| BlockOrder.DispatchUnpreceded | devicemodel/hw/block_if.c:213-224 | the same at the moment of dispatch: over every such run from the start, the request a worker takes is preceded by no live one |
| BlockOrder.CollidingEndsBreakOrder | devicemodel/hw/block_if.c:236-239 | without distinct ends the order fails: a run of eight steps from the start, at whose end a request is being processed while an earlier one that ends where it starts is still live |
| BlockProgress.WorkersStop | devicemodel/hw/block_if.c:381-409 | workers left to themselves take a bounded number of steps |
| BlockProgress.WorkersServeEverything | devicemodel/hw/block_if.c:381-409 | from every reachable state, in whatever order they run, workers left to themselves stop with nothing pending or busy and every accepted request settled |
| BlockFairness.TakesOldestReady | devicemodel/hw/block_if.c:208-225 | in every reachable state the request a worker takes is the oldest of those that are ready |
| BlockFairness.NoStarvation | devicemodel/hw/block_if.c:208-225 | over every run, however many requests keep arriving: once as many requests have been taken as were pending when a request was ready, that one is being processed or settled, and never more than 72 are pending |
| BlockProgress.NoStuckWork | devicemodel/hw/block_if.c:907-924 | in every reachable state a blocked request waits for one that is busy or ahead of it, pending work has a worker, and once all workers have gone nothing is left |
| BlockProgress.OneFate | devicemodel/hw/block_if.c:832-853 | an accepted request is called back or dropped, never both, and neither exactly while an element holds it unsettled |
| BlockProgress.ProcessCallsBack | devicemodel/hw/block_if.c:377-379 | a worker that has processed a request marks it done and has called it back, and that only |
| BlockProgress.CancelDropsThatRequest | devicemodel/hw/block_if.c:840-853 | cancelling a request with an address of its own drops that request if it is pending and changes nothing otherwise |
| HugeTlb.Memory.MapFromLevel | devicemodel/core/hugetlb.c:209-256 | one attempt is made if a slot of the sixteen is free; it succeeds if and only if the file is open and the system grants it, and then records exactly that region; a failure records nothing |
| HugeTlb.Memory.OpenFiles | devicemodel/core/hugetlb.c:622-633 | missing files are made from the small level up until one cannot be; open ones stay, and each new one is the system's answer for its level |
| HugeTlb.Memory.MapLarge | devicemodel/core/hugetlb.c:267-277 | the attempts at large pages end, and turn exactly one large page into small ones for every attempt refused, all of them if none can succeed; no byte is lost and no gap left |
| HugeTlb.Memory.TryLarge | devicemodel/core/hugetlb.c:267-277 | the loop itself: each attempt it makes is refused except a last one that ends it, and each refusal makes the next attempt one page shorter |
| HugeTlb.Memory.Map | devicemodel/core/hugetlb.c:258-287 | a segment that is mapped is covered without gaps, large pages first, at its own place in each file; one large page is given up per refusal, which are all the refusals there were, and if nothing is refused nothing fails and none is given up |
| HugeTlb.Memory.SplitLevels | devicemodel/core/hugetlb.c:655-688 | the two levels together hold exactly the bytes of every segment; with its file open the large level holds all of each segment but less than one large page, and without it nothing |
| HugeTlb.Memory.CheckMemgap | devicemodel/core/hugetlb.c:385-411 | each open level's delta is the pages it needs less the free pages reported, a closed level's is 0, and a gap is reported if and only if some delta is positive |
| HugeTlb.Memory.ReserveMorePages | devicemodel/core/hugetlb.c:413-435 | what a level lacks falls by as much as its count of pages rose |
| HugeTlb.Memory.ReleaseLargerFreepage | devicemodel/core/hugetlb.c:437-475 | a page goes back if and only if the large level has unused ones and the system lets the count fall; then it has one unused page fewer |
| HugeTlb.Memory.ReservePages | devicemodel/core/hugetlb.c:491-540 | reservation ends for every answer of the kernel, 512 small pages stand in for each large page still missing, and every large page released was unused, still wanted for small ones, and did go back |
| HugeTlb.Memory.Retry | devicemodel/core/hugetlb.c:512-533 | success if and only if nothing is missing at the small level in the end; failure only when no unused large page is left or the system keeps it |
| HugeTlb.Memory.Setup | devicemodel/core/hugetlb.c:603-841 | success under any pattern of failures means the regions are those of the four segments under a split that conserves every byte, in which the large level holds every whole large page but exactly one per refused mapping; without refusals less than one large page of each segment is in small ones; a system that refuses nothing makes it succeed, and a failure closes the files |
| HugeTlb.Memory.SetupVm | devicemodel/core/vmmapi.c:370-389 | memory beyond 2 GB goes above 4 GB, nothing is lost, one large page is given up per refused mapping, and success leaves a state in which the theorems below hold |
| HugeTlb.Memory.FindMemfdRegion | devicemodel/core/hugetlb.c:858-884 | the loop finds what the first matching region says |
| HugeTlb.Memory.AllowDmabuf | devicemodel/core/hugetlb.c:886-916 | allowed if and only if neither low nor high memory is on both levels with positive descriptors |
| HugeTlb.FindIsLocate | devicemodel/core/hugetlb.c:858-884 | an address is found if and only if it is in one of the guest's four segments, and then at the place the split dictates |
| HugeTlb.PlacesInFull | devicemodel/core/hugetlb.c:289-357 | where every address of each of the four segments is kept, written out: large pages first, after the segments before it in its file |
| HugeTlb.RegionsDisjoint | devicemodel/core/hugetlb.c:736-762 | no two recorded regions share a guest address, so that with the row above they tile the guest's memory exactly |
| HugeTlb.FindInjective | devicemodel/core/hugetlb.c:858-884 | distinct guest addresses are kept at distinct file and offset pairs |
| HugeTlb.ContiguousIff | devicemodel/core/hugetlb.c:886-916 | a segment is consecutive in one file if and only if it is not split between the page sizes |
| HugeTlb.DmabufIffContiguous | devicemodel/core/hugetlb.c:886-916 | dma-buf is always allowed when low and high memory are each consecutive in one file, and the answer is right if and only if neither is split or both descriptors are positive |
| HugeTlb.DmabufWrongAtZero | devicemodel/core/hugetlb.c:886-916 | a set-up state in which dma-buf is allowed although low memory is not consecutive in one file |
| HugeTlb.MapGpaIff | devicemodel/core/vmmapi.c:422-443 | a range is translated if and only if it lies wholly in low or wholly in high memory, the 64-bit sum included |
| Mevent.Events.Add | devicemodel/core/mevent.c:207-262 | the listed event with that descriptor and type is returned, else a new one is registered, active and listed first if memory and epoll allow, and every failure changes nothing |
| Mevent.Events.DeleteEvent | devicemodel/core/mevent.c:334-356 | the event leaves the list and epoll, and is freed at once by the dispatch thread but parked by any other |
| Mevent.Events.DrainDelList | devicemodel/core/mevent.c:315-331 | everything parked is torn down once, in order |
| EventLoop.StepInv | devicemodel/core/mevent.c:193-205 | every careful step of every thread keeps each event in exactly one place, what epoll can report alive, the rest of the batch unfreed, and an event active if and only if it is being added, listed, or off the list and not yet cleared |
| EventLoop.RunInv | devicemodel/core/mevent.c:444-459 | the same over every interleaving of careful steps |
| EventLoop.CallbackRunsIff | devicemodel/core/mevent.c:199-204 | after any careful run the loop runs the callback of the next event of its batch if and only if that event is being added, listed, or off the list and not yet cleared, and otherwise passes over it |
| EventLoop.ReportedIff | devicemodel/core/mevent.c:265-356 | after any careful run epoll may report an event if and only if it is being added, listed or not yet off epoll, and was not disabled last |
| EventLoop.NeverTouchesFreed | devicemodel/core/mevent.c:193-205 | after any careful run, no careful step touches an event that was freed or never allocated |
| EventLoop.TouchesAre | devicemodel/core/mevent.c:149-356 | what every step touches: the loop the next event of its batch, a search the list, a drain what is parked, the end of the program both, any other step its own event |
| EventLoop.TornDownOnce | devicemodel/core/mevent.c:305-356 | no event is torn down twice, and none is on both lists |
| EventLoop.EverythingTornDown | devicemodel/core/mevent.c:149-191 | draining frees everything parked, and the end of the program everything else |
| EventLoop.DispatchDeleteSafeIff | devicemodel/core/mevent.c:344-355 | a deletion inside a callback is safe if and only if the event is not further on in the batch |
| EventLoop.CarelessDeleteTouchesFreed | devicemodel/core/mevent.c:199-203 | otherwise the loop goes on to touch the freed event |
| EventLoop.RegisterSafeIff | devicemodel/core/mevent.c:281-288 | handing an event to epoll after the lock was dropped is safe if and only if it is being added, listed, or not yet off epoll |
| EventLoop.LateRegisterTouchesFreed | devicemodel/core/mevent.c:265-291 | otherwise the event is registered while parked, freed at the end of the batch, reported later and touched |
| EventLoop.EnableRaceReachable | devicemodel/core/mevent.c:272-288 | careful steps alone lead there: another thread's whole deletion between the search and the registration |
| EventLoop.DisciplineSuffices | devicemodel/core/mevent.c:265-356 | if nobody deletes an event while somebody is enabling it, disables a freed one, or deletes one further on in the batch, every run is careful |
| Mmio.CoverUnique | devicemodel/core/mem.c:65-72 | at most one entry of a tree covers an address |
| Mmio.InsertSpec | devicemodel/core/mem.c:93-111 | inserting succeeds if and only if no entry overlaps, and then adds exactly that entry, in order and disjoint |
| Mmio.OverlapsIff | devicemodel/core/mem.c:65-72 | two ranges overlap if and only if some address is in both |
| Mmio.DeleteSpec | devicemodel/core/mem.c:230-257 | deleting takes out exactly that entry and keeps the order |
| Mmio.MmioMap.InitMem | devicemodel/core/mem.c:271-277 | the trees are emptied and the hint is left, remembering a range the map no longer holds if it remembered one it did |
| Mmio.MmioMap.Find | devicemodel/core/mem.c:75-91 | the search finds an entry covering the address if there is one |
| Mmio.MmioMap.Register | devicemodel/core/mem.c:192-215 | registration succeeds if and only if there is memory and nothing overlaps, and then adds exactly that range |
| Mmio.MmioMap.Unregister | devicemodel/core/mem.c:229-257 | removal succeeds if and only if the range covering that base has that name, base and size and is not immutable; it takes out that range, and the hint exactly when it remembers that range as a live one of the root tree |
| Mmio.SameAsIff | devicemodel/core/mem.c:238-241 | removal compares base, size, and the names up to their end or their 80th character |
| Mmio.CanUnregisterIff | devicemodel/core/mem.c:236-243 | among disjoint ranges, a removal succeeds if and only if one with that name, base and size covers the base and is not immutable |
| Mmio.MmioMap.Emulate | devicemodel/core/mem.c:152-190 | an access is answered by the remembered range if that covers it, else by the root range covering it, which is then remembered, else by the fallback one, else by none |
| Mmio.AccessIs | devicemodel/core/mem.c:152-176 | root ranges come before fallback ranges, what answers covers the address, and nothing is found if and only if no range covers it |
| Mmio.FoundIsLookup | devicemodel/core/mem.c:75-91 | an entry that covers an address is what a search of the plain set of ranges yields |
| Mmio.RunAll | devicemodel/core/mem.c:152-277 | every sequence of registrations, removals, accesses and initialisations gets the replies of two sets of ranges and one remembered range, whatever the shape of the trees |
| Mmio.HintedStepIff | devicemodel/core/mem.c:152-277 | each operation does to the sets what it does without a hint, and its reply is the plain one if and only if it is not an access covered by a remembered range that the map has lost and would not answer with |
| Mmio.RepliesAgreeIff | devicemodel/core/mem.c:152-277 | over every run, all replies are those of the plain sets if and only if no access is so misled |
| Mmio.HintNeverShows | devicemodel/core/mem.c:152-277 | they are, over every run in which the map is only ever emptied while the hint is null, as it is the first time |
| Mmio.RebootMisleads | devicemodel/core/mem.c:271-277 | otherwise not: for any range and address in it, registering, accessing, initialising and accessing again reaches a range that the emptied map does not hold |
| CommonCfg.ModernTable | virtio.c:616-637 | the register table is in ascending order and lists exactly the registers there are, with their widths |
| CommonCfg.FindCr | virtio.c:639-660 | the binary search ends and finds the register if and only if it is listed; its unsigned upper bound wraps and the search leaves the table if and only if the offset lies below the first register, which in the register table is 0 |
| CommonCfg.VirtioBase.ResetDev | virtio.c:131-164 | reset clears every register, with the ISR, its interrupt line and the polling flag, and of every queue everything but its size and stale ring addresses |
| CommonCfg.ResetIs | virtio.c:131-164 | what a reset leaves of the device and of each queue, field by field |
| CommonCfg.VirtioBase.VqEnable | virtio.c:236-286 | the queue goes into service if and only if all three rings can be mapped at their 64-bit addresses; its descriptor, available and used ring are then each the mapping of that ring's own address and size, both cursors are 0, and every other queue is as it was |
| CommonCfg.EnabledIs | virtio.c:236-286 | what enabling does to a queue, field by field, in service or not |
| CommonCfg.VirtioBase.CfgWrite | virtio.c:810-949 | a write takes effect only at a writable register's offset and width, and changes only that register of the selected queue |
| CommonCfg.VirtioBase.CfgRead | virtio.c:694-803 | a read gives the register's value, or all ones at a wrong offset or width |
| CommonRuns.RunAgrees | virtio.c:810-949 | after any sequence of writes every register of every queue holds the last value written while that queue was selected since the last reset, and the features are those the driver last accepted in each half |
| CommonRuns.ReadyRings | virtio.c:236-286 | over every run, a queue in service uses the mappings of the three ring addresses written while it was selected before its last enabling write, each for its own ring |
| CommonRuns.ReadBack | virtio.c:760-803 | reading a queue register gives that last value for the selected queue, and a default when the selection names no queue |
| CommonRuns.ReadGlobalBack | virtio.c:714-762 | reading the device's own registers gives the last values written since the last reset, half the features by selector, the number of queues and the selection |
| CommonRuns.SelectionIsolates | virtio.c:881-949 | over every run, a queue that is never selected keeps every field until a reset, whatever is written under other selections or under one that names no queue |
| CommonRuns.EnableRegisterExact | virtio.c:236-286 | over every run a queue in service reads as enabled, and the enable register tells the truth if and only if a success among the enabling writes since the last reset means the last of them succeeded |
| CommonRuns.EnableTurnsWrongIff | virtio.c:273-285 | the one write that makes it lie is enabling an enabled queue again when its rings can no longer be mapped |
| CommonRuns.EnabledOutOfService | virtio.c:236-286 | such a run of three writes: the register reads 1 and the queue is out of service |
| CommonRuns.NegotiatedOffered | virtio.c:851-869 | over every run the negotiated features are among those offered |
| CommonRuns.NegotiatedFrozen | virtio.c:851-853 | once DRIVER_OK is set the features stay until the status is written |
| SharedHeader.Backend.ProcessWriteTransaction | virtio_over_shmem.c:73-128 | the transaction's value reaches the named register, the fields that depend on a selector are brought up to date, the transaction is cleared, and no other byte of the header changes |
| SharedHeader.HeaderLayout | virtio_over_shmem.h:32-65 | where the transaction and the configuration lie in the header |
| SharedHeader.ValueIs | virtio_over_shmem.c:73-128 | fields are read least significant byte first |
| SharedHeader.SelectShows | virtio_over_shmem.c:99-111 | after any history, selecting a queue leaves in the header, for each of its registers, the last value written while it was selected since the last reset |
| SharedHeader.BadSelectShowsOld | virtio_over_shmem.c:86-111 | a selection at the wrong width refreshes the header for the queue selected before |
| MirrorRuns.StepRightIff | virtio_over_shmem.c:73-128 | after one write a header that showed the selected queue still does if and only if the write selects, is a reset that changes nothing shown, reaches a queue register that reads back as written, or stores nothing new in the queue fields |
| MirrorRuns.RunRightIff | virtio_over_shmem.c:73-128 | over every run, the header shows the selected queue after each write if and only if no write spoils it so |
| MirrorRuns.ValueWritesKeepRight | virtio.c:889-944 | writes of the right width to the size, vector and address registers of an existing queue never do |
| MirrorRuns.ResetKeepsRightIff | virtio.c:872-880 | a reset does unless the queue shown had nothing but defaults and the size of queue 0 |
| SharedHeader.ServedIsRun | virtio_over_shmem.c:73-128 | processing headers, whatever the front end leaves in them, is running the register writes they carry |
| Uart.Fifo.Putchar | devicemodel/hw/uart_core.c:191-207 | a byte is appended if and only if there is room, and polling stops exactly when the ring becomes full |
| Uart.Fifo.Getchar | devicemodel/hw/uart_core.c:209-228 | the oldest byte is taken, and polling resumes when the ring was full |
| Uart.Fifo.Reset | devicemodel/hw/uart_core.c:165-180 | the ring is emptied and resized, unread input thrown away and polling enabled |
| Uart.Fifo.Fill | devicemodel/hw/uart_core.c:386-389 | the drain loop moves as many bytes as fit, in order, and loses none |
| Uart.UartVdev.Drain | devicemodel/hw/uart_core.c:369-395 | a drain fills the ring and updates the interrupt line, or in loopback drops one byte |
| Uart.UartVdev.Write | devicemodel/hw/uart_core.c:397-519 | registers, ring, polling, output and interrupt line after a write are exactly those the run theorems below speak of, the divisor latch shadowing the first two registers |
| Uart.UartVdev.Read | devicemodel/hw/uart_core.c:521-606 | the value read and everything the read clears or takes are exactly those the run theorems below speak of; an empty ring reads as all ones |
| UartRuns.CauseIsReason | devicemodel/hw/uart_core.c:318-333 | an interrupt reason is given if and only if some enabled cause is present |
| UartRegisters.ReasonIs | devicemodel/hw/uart_core.c:318-333 | which reason is given when there are several: overrun, received data, an empty transmitter, a modem line |
| UartRegisters.IirIs | devicemodel/hw/uart_core.c:550-564 | the identification register shows the reason and whether the FIFO is on; reading it withdraws an empty transmitter when that is the reason, and nothing else |
| UartRegisters.LineStatusIs | devicemodel/hw/uart_core.c:571-585 | data ready exactly when the ring holds some, transmitter always empty; reading clears the overrun bit only |
| UartRegisters.ModemLinesAre | devicemodel/hw/uart_core.c:280-309 | in loopback CTS, DSR, RI and DCD follow RTS, DTR, OUT1 and OUT2; otherwise DSR and DCD are up |
| UartRegisters.FcrIs | devicemodel/hw/uart_core.c:445-468 | the ring is emptied exactly when the FIFO is switched on or off, or reset while on; its size follows the switch |
| UartRegisters.OverrunIs | devicemodel/hw/uart_core.c:421-434 | a byte looped back is an overrun exactly when the ring is full, and is received otherwise |
| UartRegisters.DataReadIs | devicemodel/hw/uart_core.c:544-546 | the data register gives and takes the oldest byte, or all ones when there is none |
| UartRegisters.DrainIs | devicemodel/hw/uart_core.c:369-395 | a drain goes on until the terminal has nothing more or the ring is full; in loopback it drops the oldest byte |
| UartRegisters.RunHolds | devicemodel/hw/uart_core.c:351-519 | over every run from reset each register, the divisor latch included, holds the bits it keeps of the last value written to it |
| UartRegisters.ReadsBack | devicemodel/hw/uart_core.c:521-606 | and reading gives it back |
| UartRegisters.RunSends | devicemodel/hw/uart_core.c:421-434 | over every run the terminal gets exactly the bytes written to the data register outside loopback, in order |
| UartRuns.StepInv | devicemodel/hw/uart_core.c:369-606 | every step keeps the ring's size in line with FIFO mode, the backend polled if and only if the ring is not full, and the line up if and only if there is a cause |
| UartRuns.RunInv | devicemodel/hw/uart_core.c:369-606 | the same over every run |
| UartRuns.LosslessQueue | devicemodel/hw/uart_core.c:191-228 | between resets the bytes delivered followed by the ring are the bytes accepted, in order |
| UartRuns.LosslessFromStart | devicemodel/hw/uart_core.c:351-367 | the same for every run from reset on |
| UartRuns.StreamConserved | devicemodel/hw/uart_core.c:369-395 | end to end, without reset or loopback, what the guest read, then the ring, then the terminal's rest is the stream that came in |
| UartRuns.StreamFromStart | devicemodel/hw/uart_core.c:351-395 | from reset on, without loopback and another ring reset, all that arrived was delivered in order or is still held |
| UartRuns.NeverStuck | devicemodel/hw/uart_core.c:209-228 | waiting input is moved by the next drain, or the guest's next read switches the backend on again |
| UartRuns.DeltasRemembered | devicemodel/hw/uart_core.c:472-497 | a modem control write shows the lines and sets exactly the delta bits of those that changed, keeping unread ones |
| E820.AddEntry | devicemodel/core/sw_load_common.c:165-215 | the array holds the table with the first containing entry split around the new range, in place |
| E820.AddedMeaning | devicemodel/core/sw_load_common.c:165-215 | if some entry contains the range, exactly its addresses get the new type; every other address, and every address when none contains it, keeps what it had |
| E820.AddedShape | devicemodel/core/sw_load_common.c:165-215 | the table stays ascending and disjoint, keeps its total length, and grows by the number of ends not shared with the entry the range falls in, or by nothing when there is none |
| E820.Compact | devicemodel/core/sw_load_common.c:272-280 | the compaction loop leaves the non-empty entries before the last, in order, and the last |
| E820.CompactedMeaning | devicemodel/core/sw_load_common.c:272-280 | compaction changes the type of no address |
| E820.CompactedKeeps | devicemodel/core/sw_load_common.c:272-280 | compaction keeps every non-empty entry as often as it was and an ascending table ascending |
| E820.NoEmptyEntryIff | devicemodel/core/sw_load_common.c:273-280 | no empty entry is left if and only if the last one was not empty |
| Timer.GaloisPair | devicemodel/include/timer.h:34-55 | some ticks fit into a time if and only if the time made from them does not exceed it |
| Timer.TicksAreFloor | devicemodel/include/timer.h:34-43 | a time is converted to whole ticks rounded down, no product wrapping |
| Timer.TimeIsCeiling | devicemodel/include/timer.h:45-55 | ticks are converted to a normalised time rounded up |
| Timer.RoundTripExact | devicemodel/include/timer.h:34-55 | ticks survive the round trip at every clock up to one gigahertz |
| Timer.RoundTripExactIff | devicemodel/include/timer.h:34-55 | and at no faster clock |
| Geometry.Layout | devicemodel/hw/block_if.c:953-977 | which of 17, 31, 63 and 255 sectors and how many heads are chosen, for every size; the heads lie between 4 and 16 although they pass through eight bits, and the cylinders to be divided among them fit sixteen |
| Geometry.Chs | devicemodel/hw/block_if.c:941-982 | for every disk size the geometry holds no more than the clamped sectors and wastes less than one cylinder |

## Left out

- Rendering, display and client sockets, device models other than those named above, loaders, option parsing, and power management: plumbing, or easy claims only.
- System calls (mmap, sysfs, memfd, epoll, malloc): their answers are arbitrary here, those about huge pages as functions fixed in advance of which request it is; disk input and output is one step that ends in the callback.
- VirtQueue.Queue.GetChain: descriptor memory is taken not to change during one walk (what holds otherwise is in `VolatileWalk`), and the queue's size not to change while it is in use.
- VirtQueue.Queue.EndChains: memory barriers are not modelled, and whether the queue has a used ring is given by the caller.
- RingProtocol.RunInv: the driver is a conforming one, with at most `qsize` chains outstanding; the ring words are read and written atomically, and the polling mode's suppression of notifications is not modelled.
- BlockIf.Ctxt.Cancel: the signal handshake that hurries an in-flight request is not modelled; it changes no queue.
- BlockIf.Ctxt.Enqueue: ends are unbounded integers, so the overflow of a 64-bit file offset is not captured.
- BlockProgress.OneFate: speaks of accepted requests by their serial number, so a caller that submits one request twice at once is seen as two requests.
- HugeTlb.Memory.Setup: the two page sizes are a fixed pair, so loops over levels are unrolled; page counts are unbounded integers; sealing, resizing and mapping into the virtual machine are one arbitrary answer each.
- HugeTlb.Memory.SetupVm: the highest address of low memory is the constant 2 GB and the framebuffer 16 MB, as the program sets them.
- Mmio.MmioMap.Register: ranges must be non-empty and end within the address space; the tree is a value held by the map, and red-black rebalancing is any change of shape that keeps the entries in order.
- Mevent.Events.Add: closing of file descriptors, the wake-up pipe and the thread names are not modelled.
- EventLoop.RunInv: each event is deleted at most once, and a deletion inside a callback is one step.
- Uart.UartVdev.Drain: the socket backend, epoll errors and standard input that is not a terminal are not modelled; the terminal's pending input is a sequence.
- SharedHeader.Backend.ProcessWriteTransaction: device-specific configuration writes, and the callbacks for features, status and reset beyond `virtio_reset_dev`, are taken to change neither registers nor header; every 16-bit offset is taken to lie in the shared memory.
- CommonCfg.VirtioBase.ResetDev: clears the ISR register, but reading that register and raising interrupts are not modelled.
- E820.AddEntry: the table has two spare slots, which the caller provides; filling in the default table is not modelled.
- Timer.RoundTripExact: counts whose product with 10^9 exceeds 64 bits wrap in the code and are excluded; so are, for `Timer.TicksAreFloor`, times whose seconds overflow the signed 64-bit product.
- virtio-ivshmem-block.c: a simpler copy of the ring logic above.
