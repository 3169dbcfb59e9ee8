# AionCore kernel model

A Dafny model of the C core of AionCore, a single-CPU x86 kernel: the O(1) priority scheduler, the
physical frame allocator and its boot-time memory map, two-level page tables with the TLB, the
frames owned by threads and address spaces, the trace ring, number printing and the text screen.

Code that changes state in place is a class with the same fields and loops. Each of its methods is
proved against a value-level machine (`Shows(m)` says that the linked queues, bitmap bytes or page
table words hold the value `m`), and the properties are proved about that machine for every input,
every run or every reachable state.

- `Words` - unsigned words, wrap-around, bits and masks by arithmetic.
- `SchedulerModel`, `SchedulerRuns`, `SchedulerOrder`, `SchedulerAccounts` - the scheduler as a state machine
  (create, yield, exit, timer, other interrupts, system calls, destroy), its invariant, properties of
  whole runs, the order in which a priority is served, and what is recorded and reported.
- `KernelScheduler`, `SchedulerEntry` - intrusive doubly linked queues, the 256-bit index, `schedule`, tick,
  interrupt and system-call entry points, and the object driven through whole runs from `scheduler_init`.
- `FrameModel` (with `FrameRuns`), `MemoryMap`, `BootMemory`, `FrameAllocator` - the allocator as a free set
  with counters, its runs, when the memory-map walk ends, what `pmm_init` makes of a map, and the bitmap
  implementation.
- `Paging`, `SpaceModel`, `Reachability`, `Mmu`, `IdentityMap` - entry encoding, an address space as a flat
  map, what the code can reach through it once paging is on, the words in physical memory that implement
  it with every load and store going through cache or walk, and the kernel's identity map.
- `KernelMemory`, `CacheRuns`, `TaskMemory`, `KernelCalls` - who owns which frame over whole runs, which
  cached translations are current, creating and destroying threads, and the calls on the objects as
  steps of those runs.
- `KernelBoot`, `KernelService` - runs that start where `pmm_init` and `mmu_init` leave the machine, and the
  objects driven from the loader through any requests.
- `TraceRing`, `TraceNesting`, `NumberText`, `TextScreen` - the smaller components.

## Findings

Properties that the code does not have for all inputs, each with a failing input and the exact condition
under which it holds:

- Neither create nor destroy of an address space flushes the TLB. From every boot that leaves two frames there is a run at whose
  end a new, empty space is loaded while a translation of the old one is still cached
  (`KernelBoot.StaleAfterRecreate`); `CacheRuns.CacheExact` says when cached translations are current, and
  `CacheRuns.Recreated` what a destroy and a create leave.
- Once paging is on, directory and tables are accessed by their physical address, which works exactly for
  frames that are mapped to themselves (`Reachability.MapStoresLand`). `mmu_init` leaves the address space
  self-mapped if and only if enough free frames lie inside its prefix (`IdentityMap.SelfMappedIff`); with
  memory from 16 MB on only, the directory is lost (`KernelBoot.UnreachableFromBoot`).
  `Reachability.MapKeepsSelf` and `Reachability.UnmapKeepsSelf` say which calls keep it so, and
  `Reachability.DirectoryStrays` shows one that does not.
- `trace_event` is documented as safe from interrupt context. A call that interrupts another takes the same
  slot and an event is lost or torn (`TraceNesting.SharedSlot`, `TraceNesting.FirstEventInterrupted`); it is
  safe exactly when no call is in progress or the ring is full (`TraceNesting.NestedExactly`).
- A voluntary yield can hand the CPU to a lower priority, because the yielding thread is not in its queue
  while the next is picked (`SchedulerRuns.YieldMayLower`, `SchedulerRuns.YieldTop`).
- `scheduler_enqueue` of a task that is already queued leaves no list at all; for every other task it appends
  (`KernelScheduler.Scheduler.Enqueue`).
- The memory-map walk need not end (`MemoryMap.EndlessWalk`); it does exactly if it never comes back to an
  address before the end (`MemoryMap.HaltsExactly`).
- An available entry whose 64-bit sums wrap can free frames outside it (`BootMemory.WrapFreesEverything`,
  `BootMemory.FramesExact`).
- `free_frames` undercounts for a map whose regions add up to 2^32 frames
  (`BootMemory.BootCountWraps`, `BootMemory.BootUndercounts`).
- `pmm_reserve_region` reserves nothing when its rounded end wraps (`BootMemory.LastPageNotReserved`,
  `BootMemory.ReserveExact`).
- The color of a cell cannot be read back when the character is 128 or more, unless it is 0xFF
  (`TextScreen.EntryBytes`).

Where comments and code differ, the code decides:

- The queues are linear and null-terminated although `scheduler_enqueue` calls them circular.
- `current_task` is RUNNING except before the first switch, when it is the ZOMBIE boot context.
- `sys_sleep_us` is documented as yielding but only returns -ENOSYS.
- Mapping virtual page 0 succeeds and returns 0, which callers cannot tell from failure
  (`SpaceModel.MapFlat` gives the result as the address itself).

## Model

| member | source | states |
|---|---|---|
| SchedulerModel.Highest | core/scheduler.c:62-73 | the reference for the bitmap search: no queue above the result is non-empty, and its own queue is non-empty when any is |
| SchedulerModel.PickIsOther | core/scheduler.c:195-210 | the pick is the head of the highest non-empty queue, or the running task itself, which is then idle with every queue empty |
| SchedulerModel.SwitchEffect | core/scheduler.c:219-279 | a switch pops the head of the highest queue and appends the old task to its own queue exactly if it was RUNNING |
| SchedulerModel.QueueAfter | core/scheduler.c:219-279 | the contents of every one of the 256 queues after `schedule` |
| SchedulerModel.ScheduleKeeps | core/scheduler.c:219-279 | `schedule` restores the full invariant from every consistent state and clears the reschedule flag |
| SchedulerModel.MarkExitKeeps | core/task.c:285-302 | between marking a task ZOMBIE and `schedule`, queues and states still agree |
| SchedulerModel.CreateKeeps | core/scheduler.c:111-138 | admitting a new READY task keeps the invariant, for every priority |
| SchedulerModel.StepKeeps | docs/FORMAL_VERIFICATION.md:296-300 | every legal event keeps the invariant: queue p holds distinct READY tasks of priority p, each READY task is queued, only the current task is RUNNING, the flag is down |
| SchedulerModel.StepHalves | arch/x86/idt.c:265-285 | every event is an update of the current control block alone, followed by `schedule` or nothing |
| SchedulerRuns.InitInv | core/scheduler.c:78-104 | the state after `scheduler_init` satisfies the invariant |
| SchedulerRuns.RunSplit | core/scheduler.c:219-317 | a run of es followed by fs is the run of fs from where es ended |
| SchedulerRuns.NoTaskLost | core/scheduler.c:195-279 | in every run each known task is exactly one of current and RUNNING in no queue, READY at exactly one place of one queue, or ZOMBIE in no queue |
| SchedulerRuns.KnownUntilDestroyed | core/task.c:266-280 | over every run a task stays known, and so accounted for, until it is destroyed |
| SchedulerRuns.FallbackUnreachable | core/scheduler.c:195-210 | in every run idle is current or queued, never both or neither, so empty queues mean that idle is running |
| SchedulerRuns.ZombieForever | core/task.c:285-302 | a ZOMBIE is never queued and never runs again, for any continuation that does not destroy it |
| SchedulerRuns.ScheduleTop | core/scheduler.c:219-279 | no ready task outranks the running one after `schedule` if and only if the old one was dead or the best queue was at least its priority |
| SchedulerRuns.TimerRunsHighest | core/scheduler.c:289-317 | after every run ending in a timer interrupt no ready task outranks the running one, the running priority was not lowered and the flag is down |
| SchedulerRuns.YieldTop | core/task.c:307-309 | exactly when a yield leaves the highest priority running |
| SchedulerRuns.YieldMayLower | core/task.c:307-309 | a run from `scheduler_init` in which a yield leaves a lower priority running |
| SchedulerRuns.ExitTop | core/task.c:285-302 | an exit always leaves the highest-priority ready task running |
| SchedulerRuns.Esp0AlongRun | core/scheduler.c:250-279 | in every run, after the first switch TSS.esp0 follows the running task's kernel stack |
| SchedulerAccounts.Esp0IsTop | core/scheduler.c:265-272 | namely, it is the sum of that stack's address and size, in 32 bits |
| SchedulerAccounts.Esp0AfterSwitch | core/scheduler.c:265-272 | a switch to a task without a stack leaves it as it was |
| SchedulerAccounts.InitIs | core/scheduler.c:78-104 | the start state field by field |
| SchedulerAccounts.SyscallNumbers | core/syscall.c:33-40 | call 1 is an exit with the argument as its code, call 2 a yield, every other number leaves the scheduler as it is |
| SchedulerAccounts.OtherSteps | core/scheduler.c:111-138 | a create adds exactly that control block at the end of its queue, a destroy removes exactly one, another interrupt changes nothing |
| SchedulerAccounts.ExitStores | core/task.c:285-302 | after an exit the control block is ZOMBIE with the code given, otherwise as it was, and another task runs |
| SchedulerAccounts.ExitCodeLasts | core/task.c:285-302 | the code can be read from the block after every continuation that does not release it |
| SchedulerAccounts.DeadUnchanged | core/task.c:285-302 | nothing in the control block of a dead task changes over any run |
| SchedulerAccounts.TicksAlongRun | core/scheduler.c:289-291 | over every run the tick count grows by the number of timer interrupts, modulo 2^64 |
| SchedulerAccounts.SwitchesAlongRun | core/scheduler.c:259-262 | and the switch count by the number of changes of the running task |
| SchedulerAccounts.ChargedAlongRun | core/scheduler.c:292-295 | and a task's running time by the number of timer interrupts that found it running |
| SchedulerRuns.WaitStep | core/scheduler.c:219-317 | every rescheduling event moves a waiting task one place forward, every timer interrupt reschedules while it waits, nothing else moves it back |
| SchedulerRuns.BoundedWait | core/scheduler.c:219-317 | a task at position i of the top queue runs within i+1 timer interrupts, under every interleaving of events at or below its priority |
| KernelScheduler.LeadingZeros | core/scheduler.c:62-73 | the count of leading zeros: the bit below is set, all above are clear |
| KernelScheduler.Scheduler.SetPriorityBit | core/scheduler.c:36-40 | sets exactly that index bit of the 256 |
| KernelScheduler.Scheduler.ClearPriorityBit | core/scheduler.c:47-51 | clears exactly that index bit of the 256 |
| KernelScheduler.Scheduler.FindHighestPriority | core/scheduler.c:62-73 | top non-zero word and leading zeros give the reference highest priority of the queues |
| KernelScheduler.Scheduler.SchedulerInit | core/scheduler.c:78-104 | idle is the one queued task, the boot context is current and dead, all queues and bits are well formed and newly made |
| KernelScheduler.Scheduler.Enqueue | core/scheduler.c:111-138 | a READY task in no queue becomes last of its queue, all links, counts and bits stay exact; null and non-READY tasks change nothing; a task already queued leaves header and links that are those of no list |
| KernelScheduler.Scheduler.LinkTail | core/scheduler.c:119-132 | linking at the tail turns the list q into q + [task], for empty and non-empty q, and touches no other queue; exactly for a task of q it leaves no list |
| KernelScheduler.Scheduler.Unlink | core/scheduler.c:160-178 | unlinking at head, tail or middle leaves the list without exactly that element and clears the task's links |
| KernelScheduler.Scheduler.UnlinkedNotQueued | core/scheduler.c:145-160 | a task the membership test of `scheduler_dequeue` refuses is in no queue |
| KernelScheduler.Scheduler.Dequeue | core/scheduler.c:145-185 | removes exactly that task if it is queued, clears the bit when the queue empties, otherwise changes nothing |
| KernelScheduler.Scheduler.PickNextTask | core/scheduler.c:195-210 | the machine's pick: the head of the highest non-empty queue, idle when all are empty |
| KernelScheduler.ExchangeIsSwitch | core/scheduler.c:241-258 | the queue work of `schedule`, in the order the code does it, is that of the machine's step |
| KernelScheduler.Scheduler.Schedule | core/scheduler.c:219-279 | queues, bits, states, esp0, counters and current task after `schedule` are the machine's |
| KernelScheduler.Scheduler.Tick | core/scheduler.c:289-317 | accounting and flag are the machine's, and the result says whether a preemption is due |
| KernelScheduler.Scheduler.Outranked | core/scheduler.c:298-316 | true exactly if a higher queue or the running task's own queue is non-empty |
| KernelScheduler.Scheduler.IrqHandler | arch/x86/idt.c:265-285 | a timer or other interrupt is one step of the machine, linked queues kept |
| KernelScheduler.Scheduler.TaskYield | core/task.c:307-309 | one step of the machine, linked queues kept |
| KernelScheduler.Scheduler.TaskExit | core/task.c:285-302 | one step of the machine, linked queues kept |
| KernelScheduler.Scheduler.Admit | core/scheduler.c:111-138 | a newly created thread enters the machine at the end of its queue |
| KernelScheduler.Scheduler.SyscallHandler | core/syscall.c:51-158 | one step of the machine; call 2 returns 0, call 3 the running id as a signed number, 0 and everything from 4 on -38 |
| SchedulerEntry.Drive | core/scheduler.c:111-317 | over every legal run of creates, destroys, yields, exits, interrupts and system calls all 256 linked queues and the bitmap stay well formed and the fields are those of the machine |
| SchedulerEntry.RunFromInit | core/scheduler.c:78-317 | the same of every run from `scheduler_init` |
| SchedulerOrder.StepOrder | core/scheduler.c:111-279 | every step keeps every queue in the order in which its tasks became READY |
| SchedulerOrder.FirstComeFirstServed | core/scheduler.c:195-210 | in every run the pick has the highest priority of all READY tasks and, of that priority, has been READY the longest |
| SchedulerOrder.FirstComeFromInit | core/scheduler.c:78-210 | the same of every run from `scheduler_init` |
| FrameRuns.AllocConserves | mm/pmm.c:330-379 | an allocation moves one frame from the free set to the holders and keeps the balance |
| FrameRuns.FreeConserves | mm/pmm.c:386-417 | releasing a held frame moves it back and keeps the balance |
| FrameRuns.RunConserves | mm/pmm.c:330-417 | over every run, free and held frames partition what was free at the start |
| FrameRuns.CountersBalance | mm/pmm.c:330-417 | in every reachable state free + reserved + outstanding = total, so free <= total |
| FrameRuns.AllocSafe | mm/pmm.c:128-142 | each result is the lowest free frame, aligned, not outstanding and free at the start; 0 exactly when no frame is free |
| FrameRuns.NeverTwice | mm/pmm.c:330-379 | a page is not returned again before it is freed |
| FrameRuns.AllocPartition | mm/pmm.c:330-417 | in every run, whatever the counters say, a page returned is the lowest free frame, held by nobody; 0 exactly when none is free or the count is 0 |
| FrameAllocator.Allocator.BitmapTest | mm/pmm.c:84-88 | the bit of that frame |
| FrameAllocator.Allocator.BitmapSet | mm/pmm.c:93-103 | removes exactly that frame from the free set |
| FrameAllocator.Allocator.BitmapClear | mm/pmm.c:108-118 | adds exactly that frame to the free set |
| FrameAllocator.Allocator.FindFree | mm/pmm.c:128-142 | the byte and bit scan returns the lowest clear bit, or the limit when every bit is set |
| FrameAllocator.Allocator.AllocPage | mm/pmm.c:330-379 | the bitmap and counters after an allocation are those of the set model; 0 before initialisation |
| FrameAllocator.Allocator.FreePage | mm/pmm.c:386-417 | a set frame becomes free and is counted, an already free frame changes nothing |
| FrameAllocator.Allocator.ReserveRegion | mm/pmm.c:424-444 | the loop takes back the frames from the rounded-down start to the 32-bit rounded-up end, counting those below the total |
| FrameAllocator.Allocator.VisitEntry | mm/pmm.c:222-233 | one entry frees and counts exactly its frames |
| FrameAllocator.Allocator.WalkMap | mm/pmm.c:188-238 | wherever the walk ends, wrapping or not, it has freed the frames of exactly the entries visited |
| FrameAllocator.Allocator.Init | mm/pmm.c:147-313 | the map or the 128 MB fallback, then the three reserved regions |
| MemoryMap.HaltsExactly | mm/pmm.c:195-238 | the walk ends if and only if it never comes back to an address before the end, and then within as many entries as there are addresses below the end |
| MemoryMap.StraightHalts | mm/pmm.c:195-238 | in particular it ends on every map whose entry addresses do not wrap |
| MemoryMap.EndlessWalk | mm/pmm.c:237-237 | an entry of size -4 is visited for ever |
| MemoryMap.WrapsAndEnds | mm/pmm.c:237-237 | a map that wraps and ends all the same |
| MemoryMap.VisitedAre | mm/pmm.c:195-238 | entry k is read at the address reached after k entries, each step being the size field plus 4, all of them before the end, and the walk stops at the first address that is not |
| MemoryMap.VisitedIs | mm/pmm.c:195-238 | the entries visited do not depend on how many steps are allowed |
| BootMemory.FramesExact | mm/pmm.c:222-233 | an available entry frees exactly the frames wholly inside it if and only if its 64-bit sums are harmless |
| BootMemory.WrapFreesEverything | mm/pmm.c:222-233 | an empty region at the top of the address space frees every frame |
| BootMemory.UnionMember | mm/pmm.c:188-238 | a frame is freed by the walk exactly if some visited entry frees it |
| BootMemory.SumCovers | mm/pmm.c:227-233 | counting per entry never undercounts the union, and is exact if and only if no frame is shared |
| BootMemory.TookBackSpan | mm/pmm.c:424-444 | reserving removes exactly the region and takes off one per free frame with index below the total, never below 0 |
| BootMemory.ReserveExact | mm/pmm.c:424-444 | exactly the frames overlapping the region are taken back if and only if the rounded end does not wrap |
| BootMemory.LastPageNotReserved | mm/pmm.c:429-429 | reserving the last page of the address space changes nothing |
| BootMemory.BootFreeSet | mm/pmm.c:147-298 | for the map and the fallback and every kernel image, a frame is free after init exactly if it is below 4 GB, backed, and not the null page, in the VGA range or overlapping the kernel, whose region counts only if its end does not wrap |
| BootMemory.BootFreeWritten | mm/pmm.c:147-298 | the same with magic number, flag bit, region type, entry addresses, reserved ranges and the 128 MB of the fallback written out |
| BootMemory.BootCounters | mm/pmm.c:178-298 | both counters and the free set after init, in closed form, for every memory map |
| BootMemory.BootUndercounts | mm/pmm.c:227-233 | the exact condition under which `free_frames` undercounts the clear bits |
| BootMemory.BootCounts | mm/pmm.c:178-298 | without wrap of the total nothing is undercounted, and the surplus is the frames counted twice plus those taken back uncounted |
| BootMemory.BootCountExact | mm/pmm.c:424-444 | the exact condition under which `free_frames` equals the number of clear bits, for every map |
| BootMemory.BootCountDisjoint | mm/pmm.c:424-444 | without wrap of the total that condition is: regions share no frame and every free frame taken back has an index below the total |
| BootMemory.BootBalanced | mm/pmm.c:147-298 | whatever the loader passes, the counters balance and frame 0 is taken |
| BootMemory.BootedAllocation | mm/pmm.c:147-379 | from boot on, in every run, a page handed out is backed memory outside every reserved region and held by nobody; if the boot count covers the free frames, none is handed out exactly when none is free |
| BootMemory.FallbackSound | mm/pmm.c:252-298 | the fallback start is sound and its count exact |
| BootMemory.BootCountWraps | mm/pmm.c:227-233 | a loader's map of 4096 entries after which the count is 0 with frames free |
| Paging.IndexValues | arch/x86/mmu.c:38-39 | shift and mask give quotient and remainder, and together the page number |
| Paging.PageFrameValue | arch/x86/mmu.c:40-40 | the mask drops exactly the low 12 bits |
| Paging.X86FlagBits | arch/x86/mmu.c:54-63 | present, write and user keep their place, no-cache moves to bit 4, nothing else is set |
| Paging.PageEntryTranslates | arch/x86/mmu.c:197-202 | the two entries written translate to the given frame with exactly the requested rights, directory and table rights combined |
| Paging.TranslateWritten | arch/x86/mmu.c:22-34 | which bits of the two entries the processor takes for present, writable, user, uncached and frame |
| Paging.RequestedWritten | include/kernel/mmu.h:33-36 | which flags ask for what |
| SpaceModel.CreatedFlat | arch/x86/mmu.c:86-124 | a new address space translates nothing |
| SpaceModel.MapFlat | arch/x86/mmu.c:161-211 | a map changes exactly the translation of that page to the frame and rights asked for, or nothing at all when it fails, and fails exactly on misalignment or lack of a table frame |
| SpaceModel.MapCost | arch/x86/mmu.c:179-196 | a successful map takes one frame exactly if its table was missing |
| SpaceModel.UnmapFlat | arch/x86/mmu.c:218-247 | an unmap removes exactly that page's translation |
| SpaceModel.DestroyReturns | arch/x86/mmu.c:132-152 | destroy frees the directory and every table exactly once and no mapped page |
| SpaceModel.MapAgrees | arch/x86/mmu.c:204-208 | after a map every cached translation equals the current walk |
| SpaceModel.UnmapAgrees | arch/x86/mmu.c:242-246 | after an unmap every cached translation equals the current walk |
| Mmu.PagingUnit.WriteWord | core/task.c:218-239 | a word written by its physical address outside the address space's own frames changes no translation, as often as it is done |
| Mmu.PagingUnit.WorksReached | arch/x86/mmu.c:161-247 | with paging on and a current cache the processor reaches, by its physical address, every frame that is mapped to itself |
| Mmu.PagingUnit.WorksSteady | arch/x86/mmu.c:183-191 | and goes on reaching one that is none of the address space's own while it is overwritten |
| Reachability.MapStoresLand | arch/x86/mmu.c:177-202 | every store of a map lands on the word it is meant for if and only if the table, and the directory where it is written, are mapped to themselves |
| Reachability.SelfMappedReaches | arch/x86/mmu.c:161-202 | in a self-mapped space a map reaches all it needs if and only if it needs no new table or the next free frame is mapped to itself |
| Reachability.MapKeepsSelf | arch/x86/mmu.c:161-211 | the exact condition under which a map keeps a space self-mapped |
| Reachability.UnmapKeepsSelf | arch/x86/mmu.c:218-247 | an unmap keeps a space self-mapped if and only if it does not unmap one of its frames |
| Reachability.DirectoryStrays | arch/x86/mmu.c:161-211 | mapping the directory's own address elsewhere sends the next store into the directory there |
| Mmu.PagingUnit.WalkIsFlat | arch/x86/mmu.c:161-247 | the hardware walk over the words in memory equals the flat map, for every page |
| Mmu.PagingUnit.CreateAddressSpace | arch/x86/mmu.c:86-124 | a zeroed directory on one fresh frame, which with paging on has to stay reachable while it is cleared, or null when none is left |
| Mmu.PagingUnit.MapPage | arch/x86/mmu.c:161-211 | with or without paging, the words written refine the flat map step, with the flush, and the cache stays current; null handle, misalignment and lack of frames change nothing |
| Mmu.PagingUnit.EnsureTable | arch/x86/mmu.c:175-196 | the table exists already, or a zeroed one on a fresh frame is entered in the directory, or nothing changes; no translation changes in any case |
| Mmu.PagingUnit.UnmapPage | arch/x86/mmu.c:218-247 | with or without paging, the words written refine the flat unmap, with the flush, and the cache stays current; null handle changes nothing |
| Mmu.PagingUnit.DestroyAddressSpace | arch/x86/mmu.c:132-152 | the loop frees the frames of the model's destroy, read from the directory words it has to reach |
| IdentityMap.IdentityStep | arch/x86/mmu.c:334-343 | one turn extends the identity map by one page, or fails exactly where the table frames end |
| IdentityMap.MapKernel | arch/x86/mmu.c:334-343 | the loop leaves exactly the pages from 1 to a prefix mapped to themselves, supervisor and writable, at 16 MB or at the 4 MB boundary where the frames ran out |
| IdentityMap.MmuInit | arch/x86/mmu.c:290-364 | the whole of `mmu_init` as a run of events, for every state of the counters: the prefix is a function of how many allocations can succeed, page 0 stays unmapped, CR3 holds the new directory and paging is on exactly if the counter left a frame for tables |
| IdentityMap.IdentityWritten | arch/x86/mmu.c:334-343 | the resulting map in bytes: from 0x1000 up to 4 MB for each table that could be had, at most 16 MB |
| IdentityMap.SelfMappedIff | arch/x86/mmu.c:334-343 | afterwards the address space is self-mapped if and only if as many of the frames that were free lie inside the prefix as it is made of |
| IdentityMap.DirectoryLost | arch/x86/mmu.c:334-354 | with no free frame below 16 MB every access to the directory faults afterwards |
| KernelMemory.FailedSpawn | core/task.c:188-216 | a failed thread creation leaves allocator state as it was; a successful one takes two different fresh frames |
| KernelMemory.StepTracks | arch/x86/mmu.c:179-196 | every map, unmap, create, destroy, allocation, release and cache fill keeps each outstanding frame with exactly one owner |
| KernelMemory.OwnersApart | core/task.c:169-280 | in every reachable state directory, tables, control blocks, stacks and held pages occupy pairwise different frames, none of them free |
| KernelMemory.NothingLeaks | mm/pmm.c:330-417 | a frame that was free at the start and is not free now has an owner |
| KernelMemory.SameOwnersSameFrames | mm/pmm.c:330-417 | two reachable states with the same owners have the same bitmap and counters |
| KernelMemory.SpaceLifetime | arch/x86/mmu.c:86-152 | create, any maps, unmaps (failing ones too), switches, fills and evictions, destroy: bitmap and counters are exactly as before the create |
| CacheRuns.StepLeftOver | arch/x86/mmu.c:204-246 | every event but a destroy and a switch leaves stale exactly what was stale, except for the page it flushes |
| CacheRuns.CacheCurrent | arch/x86/mmu.c:204-261 | from a switch to the live space until its destroy, with cache fills and evictions at any point, each cached translation equals the current one |
| CacheRuns.CacheAfterCreate | arch/x86/mmu.c:86-124 | without a switch since the create, cached translations are current if and only if every page cached at the create has been flushed or evicted since |
| CacheRuns.CacheExact | arch/x86/mmu.c:86-261 | in every reachable state with a live, loaded address space: current if and only if CR3 was loaded since the create or every page cached then has been flushed or evicted |
| CacheRuns.Recreated | arch/x86/mmu.c:86-152 | after a destroy of the loaded space and a create, the new space is loaded if and only if no free frame and no table lay below the old directory, and then the cached translations are current if and only if there are none |
| KernelMemory.FailedThread | core/task.c:169-216 | in every run a failed thread creation changes nothing |
| TaskMemory.TaskManager.CreateKernelThread | core/task.c:169-261 | refusals, the frames taken, the READY unlinked control block with the stack in its own frame, the registers, and a stack from which `task_wrapper` finds entry point and argument; no translation changes |
| TaskMemory.TaskManager.PushFrame | core/task.c:218-239 | the four words at the top of the stack, as the calling convention wants them |
| TaskMemory.TaskManager.DestroyTask | core/task.c:266-280 | the stack, if any, then the control block are freed; null does nothing |
| TaskMemory.StackIsFree | core/task.c:188-216 | the control block gets the lowest free frame and the stack the next |
| KernelCalls.ReachableSafe | arch/x86/mmu.c:161-247 | in every reachable state the frames of the address space are not free, which is all the calls below rely on |
| KernelCalls.ReachablePrivate | core/task.c:169-280 | in every reachable state control blocks, stacks and held pages are frames of no table and no directory |
| KernelCalls.MemoryCalls.CreateSpace | arch/x86/mmu.c:86-124 | on bitmap, memory words, cache and registers the call is one step of the ownership machine |
| KernelCalls.MemoryCalls.DestroySpace | arch/x86/mmu.c:132-152 | likewise, with the cache and CR3 left as they are |
| KernelCalls.MemoryCalls.SwitchSpace | arch/x86/mmu.c:254-261 | likewise, even for a handle whose address space was destroyed |
| KernelCalls.MemoryCalls.Fill | arch/x86/mmu.c:204-246 | what the processor caches by walking from CR3 is one step too, whatever is in that frame |
| KernelCalls.MemoryCalls.MapPage | arch/x86/mmu.c:161-211 | likewise, with the result the step names |
| KernelCalls.MemoryCalls.UnmapPage | arch/x86/mmu.c:218-247 | likewise |
| KernelCalls.MemoryCalls.TakePage | mm/pmm.c:330-379 | likewise |
| KernelCalls.MemoryCalls.GivePage | mm/pmm.c:386-417 | likewise, for a page that was taken |
| KernelCalls.MemoryCalls.CreateThread | core/task.c:169-261 | likewise, whether or not there are frames |
| KernelCalls.MemoryCalls.DestroyThread | core/task.c:266-280 | likewise |
| KernelCalls.MemoryCalls.WriteOwned | core/task.c:218-239 | writing to a private frame leaves the whole state, and so every translation, as it was |
| KernelCalls.MemoryCalls.CachedIsWalked | arch/x86/mmu.c:204-246 | when the cached translations are current, each is what a walk of the memory words from CR3 finds |
| KernelCalls.MemoryCalls.MappedIsSteady | core/task.c:218-239 | a private frame that is mapped to itself can be written by its address, however often |
| KernelBoot.BootIsFresh | mm/pmm.c:147-313 | whatever the loader passes, `pmm_init` leaves a start from which all that is proved of runs holds |
| KernelBoot.InitRun | arch/x86/mmu.c:290-364 | from every boot that leaves two frames there is the run of `mmu_init` |
| KernelBoot.StaleAfterRecreate | arch/x86/mmu.c:86-152 | from every such boot there is a run at whose end a cached translation has no counterpart in the loaded, empty address space |
| KernelBoot.UnreachableFromBoot | arch/x86/mmu.c:334-354 | a loader's map after which `mmu_init` turns paging on with a directory that cannot be reached |
| KernelService.AllReached | arch/x86/mmu.c:161-247 | when all frames that were free at boot lie inside the kernel's map and that is whole, every free or used frame is reachable by its address |
| KernelService.ServingStep | arch/x86/mmu.c:161-247 | every map and unmap outside the kernel's map, allocation, release, thread creation and destruction, cache fill and eviction keeps cache and kernel map right |
| KernelService.Server.ServeAll | core/task.c:169-280 | any such requests in any order are answered by one event each, or ignored when they name nothing, and objects and run stay in step |
| KernelService.BootAndServe | mm/pmm.c:147-313 | the same from the loader on, through `pmm_init` and `mmu_init`, for every boot whose free frames lie inside the identity map |
| TraceRing.StepInv | core/percpu.c:55-101 | every single memory access of either side keeps the ring invariant |
| TraceRing.RunInv | core/percpu.c:55-101 | under every interleaving the slots from tail to head hold exactly the accepted events not yet read, in order |
| TraceRing.RingSafe | core/percpu.c:55-101 | events read are a prefix of those accepted, at most 1023 are pending, attempts = accepted + dropped + the one in progress, and the overflow count is the drops modulo 2^32 |
| TraceRing.DropsOnlyWhenFull | core/percpu.c:64-68 | an event is dropped exactly when 1023 are pending at the check |
| TraceNesting.NestedExactly | core/percpu.c:54-83 | a call from an interrupt leaves the ring right if and only if it interrupts no other call or the ring is full |
| TraceNesting.SharedSlot | core/percpu.c:60-82 | otherwise one slot holds the first fields of the inner event and the last of the outer, one event is lost and none is counted as lost |
| TraceNesting.FirstEventInterrupted | core/percpu.c:54-83 | the first event ever, interrupted before its first field, shows it |
| TraceRing.TraceBuffer.TraceEvent | core/percpu.c:55-83 | appends the event, or counts an overflow exactly when full |
| TraceRing.TraceBuffer.Drain | core/percpu.c:94-98 | takes out the oldest events in order, as many as asked for or there are |
| TraceRing.PerCpu.TraceRead | core/percpu.c:86-101 | drains the buffer of that processor and of no other; -EINVAL for an absent or offline processor |
| NumberText.RoundTrip | drivers/vga/vga.c:100-168 | reading back a printed numeral gives the value, for every value and base 2 to 36 |
| NumberText.NoLeadingZero | drivers/vga/vga.c:100-168 | a numeral starts with 0 only for the value 0 |
| NumberText.NumeralLength | drivers/vga/vga.c:100-168 | a value below base^n prints in at most n digits |
| NumberText.NumeralIsReversed | drivers/vga/vga.c:111-128 | digits produced lowest first and then reversed are the numeral |
| NumberText.ReverseRange | drivers/vga/vga.c:121-126 | the two-pointer loop reverses exactly the range in place |
| NumberText.Utoa | drivers/vga/vga.c:100-129 | buffer holds the numeral and a terminator, exact length returned; empty string for a bad base |
| NumberText.Utoa64 | drivers/vga/vga.c:132-168 | the same for 64-bit values |
| NumberText.Itoa | drivers/vga/vga.c:63-97 | sign and numeral of every 32-bit value including the minimum, exact length; empty string for a bad base |
| NumberText.Itoa64 | drivers/vga/vga.c:171-179 | the same through `utoa64`, with the sign written first |
| NumberText.SignedRoundTrip | drivers/vga/vga.c:63-179 | reading back a base-10 signed numeral gives the value |
| NumberText.SignsInBases | drivers/vga/vga.c:63-179 | in other bases `itoa` prints the magnitude without a sign, `itoa64` puts one in front |
| NumberText.DigitsAre | drivers/vga/vga.c:113-117 | the digits are 0 to 9 and then the small letters |
| NumberText.BasesAre | drivers/vga/vga.c:106-109 | something is printed exactly for the bases from 2 to 36 |
| NumberText.BufferSuffices | drivers/vga/vga.c:199-199 | 32 bytes hold every numeral in the bases `kprintf` uses, with sign and terminator |
| TextScreen.VgaText.Clear | drivers/vga/vga_text.c:92-105 | the screen shows the cleared terminal |
| TextScreen.VgaText.Scroll | drivers/vga/vga_text.c:108-124 | every row moves up by one and the last is blank |
| TextScreen.EntryBytes | drivers/vga/vga_text.c:44-46 | the character can always be read back from an entry, the color if and only if the character is below 128 or the color 0xFF |
| TextScreen.VgaText.PutcharAt | drivers/vga/vga_text.c:127-134 | changes exactly that cell, or nothing outside the screen |
| TextScreen.VgaText.Putchar | drivers/vga/vga_text.c:137-175 | the buffer stays the last 25 rows of the unbounded terminal and the cursor stays in bounds, for every character |
| TextScreen.CharacterEffects | drivers/vga/vga_text.c:137-175 | what each of the 256 characters does to the terminal: newline, carriage return, tab, backspace, printable ones with the wrap after column 79, and the rest |
| TextScreen.BlankIs | drivers/vga/vga_text.c:92-105 | a cleared terminal has 25 rows of 80 spaces in the color and the cursor in the corner |
| TextScreen.LinesAfterClear | drivers/vga/vga_text.c:137-182 | text with line breaks after a clear: character k of line n stands k/80 rows below the row its line starts in, in column k%80 |
| TextScreen.ShortLines | drivers/vga/vga_text.c:137-182 | lines shorter than 80 characters start in the row of their number |
| TextScreen.VgaText.Write | drivers/vga/vga_text.c:178-182 | the same for every string |
| TextScreen.VgaText.SetColor | drivers/vga/vga_text.c:192-194 | the color byte packs background and foreground; text already shown keeps its color |
| TextScreen.TabStop | drivers/vga/vga_text.c:147-149 | the mask moves to the next multiple of 8 |
| TextScreen.PlainTextAfterClear | drivers/vga/vga_text.c:137-182 | after a clear, printable character k is at row k/80 and column k%80 of the terminal, and the cursor where the next one goes |

## Left out

- The registers saved by `context_switch`, the assembly entry points, port writes, logging and the
  hardware cursor: a switch is one atomic change of the running task.
- KernelScheduler.Scheduler.Enqueue: the queue count is unbounded, since each task occupies one of 2^20 frames.
- KernelScheduler.Scheduler.SchedulerInit: the fatal path without an idle task is not modelled; id and priority of the static boot block are given, not written.
- SchedulerEntry.Drive: each control block is created once in a run, because id, priority and stack of a block do not change in the model.
- SchedulerEntry.RunFromInit: the same.
- TaskMemory.TaskManager.CreateKernelThread: the name, the address-space pointer and the clearing of the control block are not modelled; the five data segment registers, which are equal, are one.
- TaskMemory.TaskManager.DestroyTask: in runs of the scheduler only a dead task that is not current is destroyed, because the code does not dequeue it.
- The idle thread never exits; `task_init` itself (one more thread creation, whose failure halts) is not modelled.
- FrameAllocator.Allocator.WalkMap: entries are read as whole records at an address, not decoded from bytes; a walk that does not end has no result to describe.
- FrameAllocator.Allocator.AllocPage: assertions of debug builds and the branch for a misaligned result, which cannot be reached, are not modelled.
- Mmu.PagingUnit.MapPage: a supervisor's stores ignore the writable bit, as the code does not set CR0.WP; accessed and dirty bits and paging-structure caches are not modelled; the accesses of the allocator to its own bitmap are not; there is one handle, hence one live address space.
- IdentityMap.MmuInit: starts with paging off and no address space, as at boot.
- KernelService.BootAndServe: requests neither create nor destroy address spaces nor touch the pages of the kernel's own map.
- TraceRing.RingSafe: sequential consistency, one producer that is not re-entered and one reader.
- NumberText.Itoa64: the minimum 64-bit value is excluded, because the code negates its argument, which C does not define.
- User-mode set-up, timer programming, serial and console dispatch, `kprintf` format parsing, string
  functions and descriptor packing: hardware-bound or short standalone functions.
