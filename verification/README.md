# KiOS: a verified model of the kernel core

KiOS is a small 64-bit kernel. This project models its memory stack, its preemptive scheduler, the
interrupt path between them, the keyboard ring, the text screen and the part of the boot loader that
prepares memory, and proves what each promises over every input and every run.

Functions on values say what a step does; lemmas prove what the steps mean; classes over arrays and
objects do the work as the C code does it, and each method is proved equal to its function.

## Memory

* `Words` defines the C bit operators on 64-bit words digit by digit and turns the kernel's masks into
  arithmetic.
* `PageTables` is the processor's view: the four-level walk of the Intel SDM, Volume 3A, sections 4.5
  and 4.6, and one separation result: in a tree without sharing, one store into a table changes one
  entry of the tree and nothing else.
* `Walker` and `VirtualMemory` are the table walk and the map, unmap and lookup operations. Together
  they refine a finite map from virtual pages to (frame, flags), exactly, including the maps that run
  out of table frames half-way.
* `LargePages` is what the same three operations do on 2 MB pages, whose large-page bit the walker
  never tests.
* `FrameSets` and `FrameAllocator` are the physical frame bitmap.
* `Heap`, `HeapCost`, `BumpHeap` and `Ownership` are `kmalloc`: what it maps, what it costs, which
  blocks it returns, and who owns every frame.
* `Boot` and `Runs` tie this together: from the tables `setup_paging` leaves, every run of allocations,
  frees, maps, unmaps, `kmalloc` calls and stores into the heap and into client frames keeps the page
  tables a tree, the used frames a disjoint union of owners, the heap blocks apart and the first
  gigabyte identity-mapped.
* `HeapWords` is the heap window as memory: no operation but a store to that word changes a word.
* `ClientRuns` is what the users of all this may rely on over runs: a mapping is found by every lookup
  until it is named again, a frame stays with its holder until freed, and what was stored there lasts.
* `KernelMemory`, `KernelHeap` and `KernelStart` are the imperative code on an array of frames.

Three places where the code does less than its callers may expect are stated exactly:

* `kmalloc` has room for what was asked exactly when its 64-bit arithmetic does not wrap
  (`BumpHeap.KmallocRoomExactly`); a size that wraps is never refused for its size, and in every state
  there is one that is answered (`BumpHeap.WrappedRequestAnswered`).
* A request below the limit has three outcomes, told apart by the number of free frames alone
  (`BumpHeap.KmallocOutcome`): NULL below `AnswerCost`, a fully mapped block from `Cost` on, and in
  between a pointer to a block with a page that is not mapped. `Cost` counts the unmapped pages and the
  missing tables; `AnswerCost` counts the same up to the last unmapped page, and one frame for that page.
* The walker never tests the 2 MB bit and takes the first frame of a 2 MB page for a page table. On paths
  without large pages, and on 2 MB pages not translated through the very word the walker ends at, three
  conditions are exact:
  lookup gives the processor's answer exactly when no large page lies on the path or that word happens
  to name the same frame (`LargePages.LookupExactly`);
  map maps the page asked for exactly when no large page lies on the path and the free frames suffice,
  or the 2 MB page already gives it that frame and, with the user bit the walk may add, those flags
  (`MapExactly`);
  unmap unmaps the page asked for exactly when no large page lies on the path (`UnmapExactly`).
  What else changes follows page by page: a page not translated through that word keeps its frame, and
  only the 2 MB page gains the user bit, if asked for (`MapOnLargePageSpares`, `UnmapOnLargePageSpares`);
  when the frame is a table, its entry is replaced (`MapOnLargePageHitsEntry`). In every
  reachable state this covers the 2 MB pages of the first gigabyte that start in physical memory
  (`Boot.LowLookupExactly`, `LowMapExactly`, `LowMapKeepsFrames`, `LowUnmapKeepsIdentity`,
  `Runs.LoaderTablesStay`), and no path outside the first PML4 entry has a large page.

## Scheduler

`Scheduler` is the task list as a value: `task_init`, `task_create`, `task_sleep`, `task_exit` and
`task_switch`, plus the timer tick that calls it. `SchedulerRuns` proves safety, bounded waiting, sleep
deadlines and transparency over every sequence of events. `Tasks` is the same on task objects in a
64-slot array. From a call to its effect: a task just created, or one other than the kernel task
preempted while RUNNING, is RUNNING within 63 calls of `task_switch`; a task that calls `task_sleep` and
is switched away from runs again within 630 ticks of its deadline and not before; one that calls
`task_exit` never does. `InterruptStub` is the assembly stub. `KernelTasks` joins scheduler, stub and
memory: `task_create` with the blocks `kmalloc` really returns, every task on a mapped stack block of
its own, and the register frames on those stacks. Over runs of all three, a task first runs at its entry
point, and a task preempted while RUNNING goes on in the processor state it was interrupted in.
`KernelViews` proves that such a run is at once a run of the scheduler and a run of the memory code, so
that the results about either hold in it. Exact statements of the quirks:

* a frame is saved exactly when the task was still RUNNING (`Scheduler.FrameSavedExactly`), so a task
  resumes where it was interrupted exactly when it was RUNNING then, or was interrupted at the frame
  already stored (`SchedulerRuns.ResumesWhereInterruptedExactly`); a task that called `task_sleep` first
  resumes at an older frame;
* a task that exited or sleeps is set RUNNING again while still current exactly when nothing else may
  run (`Scheduler.CurrentRevivedExactly`);
* `task_sleep` sets the deadline asked for exactly when the sum does not wrap
  (`SchedulerRuns.SleepSetsDeadline`).

## Devices and loader

`Keyboard` is the scancode ring with the interrupt handler running between any two steps of the reader.
`Vga` is the screen as the last 25 rows of an unbounded terminal; text in lines shorter than the screen
stands there line by line (`Vga.LinesStand`). `Loader` is the chunked kernel load and the copy to 1 MB.

## Model

| member | source | states |
|---|---|---|
| PageTables.StoreIsPointUpdate | src/kernel/mm/vmm.c:143 | in a tree without sharing, a store that changes no link is exactly one changed entry among all entries of all tables, and the tree stays a tree |
| PageTables.LinkIsPointUpdate | src/kernel/mm/vmm.c:40-50 | linking a zeroed frame that is no table changes exactly one entry and adds exactly one, empty, table |
| PageTables.FrameWriteKeepsTree | src/kernel/mm/vmm.c:42-44 | writing a frame that holds no table, such as clearing a new one before it is linked, changes no table and no entry |
| Walker.DescendKeeps | src/kernel/mm/vmm.c:33-58 | one level keeps every translation, returns the table now at the next path, and with the user flag leaves user access granted on the whole way down to it |
| Walker.DescendCounts | src/kernel/mm/vmm.c:33-38 | one level fails exactly when the table is absent and either creation was not asked for or no frame is free; it takes one frame exactly when it creates |
| Walker.DescendEntry | src/kernel/mm/vmm.c:24-58 | a new table is linked present and writable, and for the user when asked for; an existing entry gains at most the user bit |
| Walker.Reach | src/kernel/mm/vmm.c:22-127 | the whole walk keeps the invariant and every translation, even when it fails half-way after linking tables, and returns the table at the path walked |
| Walker.ReachElsewhere | src/kernel/mm/vmm.c:22-127 | the walk adds tables on its own way only |
| Walker.ReachCounts | src/kernel/mm/vmm.c:22-127 | with creation the walk fails exactly when fewer frames are free than tables are missing on the way; otherwise it takes one frame for each of them |
| Walker.ReachReads | src/kernel/mm/vmm.c:130-132 | without creation the walk changes nothing and finds the page table exactly when there is one |
| Walker.ReachKeepsEntry | src/kernel/mm/vmm.c:22-127 | the walk changes upper-level entries on its own way only |
| Walker.GetPteIsReach | src/kernel/mm/vmm.c:22-127 | without large pages on the way the walk that tests the present bit only is the walk down the tree, and stays in physical memory |
| VirtualMemory.MapUpdatesOneKey | src/kernel/mm/vmm.c:134-147 | mapping changes the translation of exactly one page, to the given frame and flags, when the frames suffice, and of no page at all otherwise |
| VirtualMemory.MapKeepsInvariant | src/kernel/mm/vmm.c:134-147 | after a map, successful or not, the tables form a tree of used frames, the frames newly used are exactly the new tables, and used frames that hold no table keep their contents |
| VirtualMemory.MapCounts | src/kernel/mm/vmm.c:134-147 | a map takes one frame per missing table or, when there are too few, all that are left |
| VirtualMemory.UnmapRemovesOneKey | src/kernel/mm/vmm.c:149-163 | without large pages on its path, unmapping removes the translation of exactly one page; LargePages.UnmapExactly has all paths |
| VirtualMemory.UnmapClearsEntry | src/kernel/mm/vmm.c:149-156 | the entry of an unmapped page is 0 |
| VirtualMemory.UnmapKeepsInvariant | src/kernel/mm/vmm.c:149-163 | unmapping keeps every table and every used frame |
| VirtualMemory.LookupRefinesTranslation | src/kernel/mm/vmm.c:165-173 | without large pages on the path lookup returns the processor's frame plus the offset, or 0 when the page has no translation; LargePages.LookupExactly has all paths |
| VirtualMemory.ZeroMeansUnmappedExactly | src/kernel/mm/vmm.c:165-173 | an answer of 0 means "not mapped" except for byte 0 of a page mapped to frame 0 |
| VirtualMemory.UserIsLeafBit | src/kernel/mm/vmm.c:23-27 | in every state the AND of the user bits over all levels equals the user bit of the last entry |
| VirtualMemory.WriteIsLeafBit | src/kernel/mm/vmm.c:24 | the AND of the write bits over all levels equals the write bit of the page-table entry |
| VirtualMemory.MapKeepsAccess | src/kernel/mm/vmm.c:54-58 | mapping a page, with or without the user flag, successful or not, changes the user access of no other page |
| VirtualMemory.OnClearPath | src/kernel/mm/vmm.c:134-173 | map, unmap and lookup on any tables are those of the finite map when no large page lies on the path |
| LargePages.LookupExactly | src/kernel/mm/vmm.c:93-126 | lookup answers as the processor does exactly when the path has no large page or the word at index i1 of the first frame of the 2 MB page names the same frame |
| LargePages.MapOnLargePage | src/kernel/mm/vmm.c:93-143 | without the user flag a map inside a 2 MB page stores one word into the first frame of the page and nothing else |
| LargePages.MapOnLargePageIsLost | src/kernel/mm/vmm.c:93-143 | unless that frame is a table no translation changes, and lookup then answers with the address that was never mapped |
| LargePages.MapExactly | src/kernel/mm/vmm.c:134-147 | a page is mapped as asked exactly when its path has no large page and the frames suffice, or the 2 MB page already gives it that frame and those flags |
| LargePages.MapOnLargePageSpares | src/kernel/mm/vmm.c:93-143 | a map inside a 2 MB page leaves every page not translated through the word stored to at its frame; with the user flag the pages of the 2 MB page, and no others, gain the user bit |
| LargePages.MapOnLargePageHitsEntry | src/kernel/mm/vmm.c:93-143 | when the first frame is a table of any level, the map replaces its entry |
| LargePages.MapOnLargePageHitsTable | src/kernel/mm/vmm.c:93-143 | when it is a page table, another page is mapped in place of the one asked for, with either flag |
| LargePages.UserMapOpensLargePage | src/kernel/mm/vmm.c:116-120 | with the user flag all 512 pages of the 2 MB page, and no others, become accessible in user mode, as far as they are not translated through the word stored to |
| LargePages.UnmapExactly | src/kernel/mm/vmm.c:149-163 | a page is unmapped as asked exactly when its path has no large page |
| LargePages.UnmapOnLargePage | src/kernel/mm/vmm.c:149-163 | inside a 2 MB page an unmap clears a word of the first frame when it looks present, and nothing else |
| LargePages.UnmapOnLargePageSpares | src/kernel/mm/vmm.c:149-163 | no page changes that is not translated through that word; none at all when the frame is no table |
| LargePages.UnmapOnLargePageHitsTable | src/kernel/mm/vmm.c:149-163 | when the frame is a page table, another page is unmapped in place of the one asked for |
| KernelMemory.IndexBits | src/kernel/mm/vmm.h:20-23 | the four shift-and-mask index macros give the indices of the page the address lies in, modulo 2^48 |
| KernelMemory.LeafBits | src/kernel/mm/vmm.c:143 | the bit expression stored by a map is the page frame with the flags and the present bit |
| KernelMemory.AddressBits | src/kernel/mm/vmm.c:172 | the bit expression returned by a lookup is the frame address plus the page offset |
| KernelMemory.Vmm.constructor | src/kernel/mm/vmm.c:13-18 | the walker starts from the table CR3 names |
| KernelMemory.Vmm.ZeroTable | src/kernel/mm/vmm.c:41-44 | the loop clears exactly the frame at the address |
| KernelMemory.Vmm.CreateTable | src/kernel/mm/vmm.c:36-50 | the new memory is the old one with the allocated frame cleared and then linked; nothing changes when no frame is free |
| KernelMemory.Vmm.NextTable | src/kernel/mm/vmm.c:33-61 | the bit-level code of one level computes the state and the table of Walker.Descend |
| KernelMemory.Vmm.GetPte | src/kernel/mm/vmm.c:22-127 | on any tables, large pages included, the three levels and the indices taken from the address compute Walker.GetPte for the page of the address |
| KernelMemory.Vmm.MapPage | src/kernel/mm/vmm.c:134-147 | memory, bitmap and root end up exactly as VirtualMemory.MapAnywhere says; on a path without large pages that is VirtualMemory.MapPage and the invariant is kept |
| KernelMemory.Vmm.UnmapPage | src/kernel/mm/vmm.c:149-163 | memory ends up exactly as VirtualMemory.UnmapAnywhere says; on a path without large pages that is VirtualMemory.UnmapPage and the invariant is kept |
| KernelMemory.Vmm.VirtToPhys | src/kernel/mm/vmm.c:165-173 | the answer is VirtualMemory.LookupAnywhere, on a path without large pages VirtualMemory.VirtToPhys, and nothing changes |
| FrameSets.AllocTakesLowest | src/kernel/mm/pmm.c:108-129 | with frame 0 reserved, allocation returns 0 exactly when nothing is free, otherwise takes the lowest free frame and only it; freeing that frame restores the set |
| FrameAllocator.OneBit | src/kernel/mm/pmm.c:110-114 | setting or clearing one bit of the byte array leaves every other bit alone |
| FrameAllocator.CoveredInRange | src/kernel/mm/pmm.c:58-64 | when no entry wraps, every page index a usable entry frees lies below the number of pages |
| FrameAllocator.Pmm.Init | src/kernel/mm/pmm.c:24-106 | for any entries, overlapping or not: every byte of kernel and bitmap, the bitmap on the first page boundary after the kernel, lies in a used frame; all below 1 MB and outside usable entries is used; what is usable, above 1 MB and holds no byte from kernel to bitmap is free; the counter equals the number of set bits |
| FrameAllocator.CoversInBytes | src/kernel/mm/pmm.c:53-64 | a type 1 entry frees exactly the whole pages of its byte range moved down to a page boundary |
| FrameAllocator.PagesProtect | src/kernel/mm/pmm.c:86-103 | the page ranges of `pmm_init` protect kernel and bitmap byte by byte and keep nothing else |
| FrameAllocator.Pmm.MaxAddress | src/kernel/mm/pmm.c:29-38 | the loop finds the largest end of any entry, each sum taken in 64 bits: a bound for all, and attained by one unless it is 0 |
| FrameAllocator.Pmm.ReleaseUsable | src/kernel/mm/pmm.c:53-73 | exactly the pages of usable entries become free, each counted once |
| FrameAllocator.Pmm.ClaimRange | src/kernel/mm/pmm.c:94-103 | exactly the frames of the range become used, counting only those that were free |
| FrameAllocator.Pmm.AllocPage | src/kernel/mm/pmm.c:108-119 | the search loop returns the address of the lowest free frame, or 0, and marks and counts it |
| FrameAllocator.Pmm.FreePage | src/kernel/mm/pmm.c:121-129 | exactly this frame becomes free; the counter follows, also on a double free |
| Heap.HeapPageOf | src/kernel/mm/heap.h:12-13 | the addresses of the heap window are the pages of its 4096 slots |
| Heap.MapFreshTranslates | src/kernel/mm/heap.c:54-62 | one page of the loop changes the translation of that page only, to the frame just allocated, and only when its map succeeds |
| Heap.MapRangeKeepsMappings | src/kernel/mm/heap.c:52-64 | whatever the loop does, a mapped page keeps its translation and pages outside the range are untouched |
| Heap.MappedRangeIsFree | src/kernel/mm/heap.c:53-54 | pages mapped by an earlier, possibly failed, call are reused: a mapped range costs no frame and changes nothing |
| HeapCost.RangeFits | src/kernel/mm/heap.c:52-64 | the loop succeeds with every page mapped exactly when the unmapped pages plus the missing tables do not exceed the free frames; it then takes exactly that many, and otherwise all there are |
| HeapCost.RangeAnswers | src/kernel/mm/heap.c:52-64 | the loop does not return NULL exactly when the frames cover all pages before the last unmapped one and one more is left |
| HeapCost.TenTables | src/kernel/mm/heap.c:52-64 | the window never needs more than ten tables besides its pages |
| BumpHeap.KmallocBlock | src/kernel/mm/heap.c:31-72 | without wrap-around an answer is NULL and moves nothing, or a 16-aligned block at the old pointer, inside the window, with the statistics equal to the pointer's distance from the start |
| BumpHeap.KmallocRoomExactly | src/kernel/mm/heap.c:36-42 | for every 64-bit size, a non-NULL answer has room for the request exactly when the rounding and the limit test did not wrap |
| BumpHeap.WrappedRequestPasses | src/kernel/mm/heap.c:36-42 | a size that wraps always passes both tests |
| BumpHeap.WrappedRequestAnswered | src/kernel/mm/heap.c:36-72 | in every state one such size is answered: the old pointer, nothing mapped, and the heap pointer back at 0 |
| BumpHeap.KmallocNullExactly | src/kernel/mm/heap.c:31-59 | for every state and every 64-bit size, NULL exactly for size 0, at the limit, or with fewer free frames than AnswerCost |
| BumpHeap.KmallocOutcome | src/kernel/mm/heap.c:51-71 | NULL, a block with an unmapped page, or a fully mapped block: each exactly in its range of free frames, with the frames taken |
| BumpHeap.KmallocCanReturnUnmappedBlock | src/kernel/mm/heap.c:56-62 | with one free frame and no tables the first request returns a pointer although its page is not mapped |
| BumpHeap.KmallocKeepsMappings | src/kernel/mm/heap.c:52-64 | in either outcome no earlier translation and no page outside the window changes |
| BumpHeap.SlotsHoldBytes | src/kernel/mm/heap.c:44-49 | the pages of the loop are exactly those that hold a byte of the block |
| BumpHeap.KmallocMapsOnlyTheBlock | src/kernel/mm/heap.c:44-64 | no page that holds no byte of the block is mapped |
| KernelHeap.Allocator.constructor | src/kernel/mm/heap.c:17-20 | the heap starts empty at HEAP_START |
| KernelHeap.Allocator.EnsurePage | src/kernel/mm/heap.c:53-63 | one iteration leaves the remaining loop with the same result |
| KernelHeap.Allocator.MapPages | src/kernel/mm/heap.c:48-64 | the address loop computes Heap.MapRange over the window slots |
| KernelHeap.Allocator.Kmalloc | src/kernel/mm/heap.c:31-72 | answer, pointer, counter, memory and bitmap are exactly those of BumpHeap.Kmalloc, for every 64-bit size |
| KernelHeap.Allocator.Statistics | src/kernel/mm/heap.c:91-100 | both statistics equal the distance of the pointer from HEAP_START |
| Ownership.TakeOwned | src/kernel/mm/pmm.c:112-115 | a frame from the allocator belongs to no table, heap page, client or reserved range |
| Ownership.ReleaseOwned | src/kernel/mm/pmm.c:121-129 | a client freeing a frame it holds disturbs no other owner and no table |
| Ownership.FreshOwned | src/kernel/mm/heap.c:56-62 | the frame of one loop iteration ends up behind exactly that heap page, or is lost when the map failed |
| Ownership.RangeOwned | src/kernel/mm/heap.c:52-64 | the loop keeps the used frames a disjoint union of reserved, table, heap, client and lost frames; frames are lost only when memory has run out |
| Ownership.PokeKeeps | src/kernel/mm/heap.c:66-71 | no store through a mapped heap page changes a table, an entry or an owner |
| Boot.SetupPaging | src/bootloader/new/stage2.asm:356-404 | the stores and loops build exactly the boot tables |
| Boot.BootIdentity | src/bootloader/new/stage2.asm:382-402 | every page below 1 GB translates to itself |
| Boot.BootReady | src/kernel/main.c:79-85 | after start-up every invariant of the memory code holds, the heap is unmapped and no client holds a frame |
| Boot.LowLookupExactly | src/kernel/mm/vmm.c:93-126 | below 1 GB, in every reachable state, lookup is right exactly when the word read from the 2 MB page names the page's own frame, or for address 0 is not present |
| Boot.LowPageLooksUnmapped | src/kernel/mm/vmm.c:165-169 | over a cleared first frame the whole 2 MB page looks unmapped, although it is identity-mapped |
| Boot.LowMapIsLost | src/kernel/mm/vmm.c:134-147 | a supervisor map below 1 GB leaves the identity map as it is, whatever lookup says afterwards |
| Boot.LowMapExactly | src/kernel/mm/vmm.c:134-147 | below 1 GB a map does what was asked exactly when it asks for the page's own frame with the loader's flags, user bit aside |
| Boot.LowMapKeepsFrames | src/kernel/commands/usertest.c:74-75 | no map below 1 GB, user or not, changes the frame of any page there; only the pages of the 2 MB page asked for gain the user bit |
| Boot.LowUnmapKeepsIdentity | src/kernel/mm/vmm.c:149-163 | unmap unmaps nothing below 1 GB |
| Runs.LoaderTablesStay | src/bootloader/new/stage2.asm:356-404 | the loader's three tables stay below 2 MB in every run, as the results below 1 GB need |
| KernelStart.Start | src/kernel/main.c:79-85 | loader tables, bitmap, walker and heap objects end up in a state from which all run results hold; used are exactly the reserved frames and the three tables, and every byte of kernel and bitmap is protected |
| Runs.StepGood | src/kernel/mm/heap.c:31-72 | every operation, stores included, keeps tree, ownership, window, blocks, identity map and the loader's 2 MB entries; nothing reserved is ever given out and nothing lost comes back |
| Runs.RunGood | src/kernel/mm/heap.c:31-72 | the same over every permitted run, and every heap page mapped at its start keeps its translation |
| Runs.BootGood | src/kernel/main.c:79-85 | the start-up state is one from which runs may begin |
| Runs.BlocksDisjoint | src/kernel/mm/heap.c:66-71 | all blocks returned in a run are 16-aligned, inside the window and pairwise disjoint, and both statistics equal the sum of their sizes |
| Runs.HeapPageIsPrivate | src/kernel/mm/heap.c:62 | a mapped heap page is writable, closed to user mode, and its frame is neither a table nor in client hands |
| Runs.BlockStaysMapped | src/kernel/mm/heap.c:31-72 | a block obtained with enough frames stays mapped, writable and private through any later run |
| Runs.TablesAreAtTheirAddress | src/kernel/mm/vmm.c:30-61 | in every reachable state the physical address of each table is mapped to itself, so the walker's pointers are valid |
| Scheduler.PowerOn | src/kernel/task.c:18-21 | the state before `task_init` satisfies the invariant, so every run has a start |
| Scheduler.InitExactly | src/kernel/task.c:54-82 | the idle task alone, RUNNING under PID 0 in slot 0, or no task |
| Scheduler.CreateExactly | src/kernel/task.c:87-179 | one block more, READY with its first frame, or RUNNING and current when it is the first; nothing else changes but the next PID, and with 64 tasks nothing is added |
| Scheduler.SleepExactly | src/kernel/task.c:255-261 | the current task, and nothing else, sleeps until `ticks + n` |
| Scheduler.ExitExactly | src/kernel/task.c:266-273 | the current task, and nothing else, becomes a ZOMBIE |
| Scheduler.TimerExactly | src/kernel/pit.c:33-46 | a tick counts itself and does nothing else, except that every tenth with the scheduler on is one call of `task_switch` |
| Scheduler.SwitchEffect | src/kernel/task.c:191-250 | only the chosen task and the interrupted one change; the frame returned is the chosen task's, or the interrupted one when nothing is chosen |
| Scheduler.SwitchPicksFirst | src/kernel/task.c:202-250 | the task picked is the first ahead of the current one, in cyclic order and the current one last, that is not idle and is ready, running or due to wake up; the current one stays when none is |
| Scheduler.SwitchExactly | src/kernel/task.c:196-250 | block by block: the task picked is RUNNING, a RUNNING task left is READY with the interrupted frame, all else is as it was; the frame returned is that of the task picked, or the interrupted one |
| Scheduler.ChoiceIsNearest | src/kernel/task.c:202-235 | whenever some task is not idle and is READY, or SLEEPING past its deadline, the task chosen is no farther from the search start |
| Scheduler.ApplySafe | src/kernel/task.c:54-273 | every event keeps: a RUNNING task is the current one, a READY task is not, PIDs are distinct, every task but the idle one has a frame |
| Scheduler.DistinctPids | src/kernel/task.c:109 | no two tasks in the list share a PID |
| Scheduler.SwitchLeavesRunning | src/kernel/task.c:237-249 | after each call the current task is RUNNING |
| SchedulerRuns.IdleNeverReturns | src/kernel/task.c:219-220 | once left, the idle task is never current again in any run |
| Scheduler.IdleStaysLeft | src/kernel/task.c:219-220 | no event makes the idle task current again once it was left |
| SchedulerRuns.ZombieNeverRuns | src/kernel/task.c:266-273 | a ZOMBIE that is not current keeps its block and never becomes current in any run |
| Scheduler.ZombieStaysDead | src/kernel/task.c:266-273 | no event changes a ZOMBIE that is not current or makes it current |
| Scheduler.CurrentRevivedExactly | src/kernel/task.c:237-243 | a current task that exited or sleeps before its deadline is set RUNNING exactly when no other task is eligible |
| Scheduler.SleeperWaits | src/kernel/task.c:227-234 | a sleeping task that is not current is unchanged by every event until a switch at or after its deadline runs it |
| Scheduler.FrameSavedExactly | src/kernel/task.c:196-200 | after a switch away the stored frame is the interrupted one exactly when the task was RUNNING, or was interrupted at the stored frame |
| Scheduler.FrameKept | src/kernel/task.c:245-249 | no event touches the stored frame of a task that is not current, and the event that resumes it returns that frame |
| Scheduler.TickResumesChoice | src/kernel/isr.c:141-165 | on a tick the dispatcher returns exactly what `task_switch` returned, never NULL |
| Scheduler.FirstFrameInside | src/kernel/task.c:117-126 | the first frame is 16-aligned and ends within 16 bytes of the end of the stack; it lies inside the stack exactly when the stack holds 208 bytes |
| SchedulerRuns.BoundedWaiting | src/kernel/task.c:202-250 | a non-idle task that is READY, or SLEEPING past its deadline, is RUNNING within 63 calls of `task_switch`, whatever else happens, task creation included |
| SchedulerRuns.PreemptedRunsAgain | src/kernel/task.c:196-250 | a non-idle task preempted while RUNNING is RUNNING again within 63 further calls |
| SchedulerRuns.CreatedTaskRuns | src/kernel/task.c:87-250 | a task created while another runs is RUNNING within 63 calls |
| SchedulerRuns.RunsAfterSwitches | src/kernel/task.c:202-250 | the cyclic distance plus the free slots bounds the calls a task waits |
| SchedulerRuns.SwitchesPerTicks | src/kernel/pit.c:33-46 | with the scheduler on, the calls of `task_switch` in a run are exactly the multiples of ten its ticks pass |
| SchedulerRuns.RunsWithinTicks | src/kernel/pit.c:33-46 | a non-idle task that is READY, or SLEEPING past its deadline, is RUNNING within 630 ticks |
| SchedulerRuns.SleepDeadline | src/kernel/task.c:255-261 | a sleeping task that is not current becomes RUNNING no earlier than its deadline and no later than 630 ticks after it |
| SchedulerRuns.SleepsUntilDeadline | src/kernel/task.c:227-234 | before the deadline nothing changes the sleeping task |
| SchedulerRuns.SleepSetsDeadline | src/kernel/task.c:258 | the task is SLEEPING, and its deadline is the one asked for exactly when the 64-bit sum does not wrap |
| SchedulerRuns.SwitchedOffStays | src/kernel/pit.c:33-46 | until `pit_enable_scheduler` no event takes the processor from the current task |
| SchedulerRuns.KernelTaskRunsFirst | src/kernel/task.c:47-85 | from power-on and `task_init` the kernel task, with PID 0, is current until the scheduler is switched on |
| SchedulerRuns.SleepCallWakesUp | src/kernel/task.c:227-261 | from the call of `task_sleep(n)` and the switch away: RUNNING again no earlier than n ticks after the call, and at most 630 ticks after that or after the switch |
| SchedulerRuns.ExitCallIsFinal | src/kernel/task.c:266-273 | from the call of `task_exit` and the switch away: never current again in any run |
| SchedulerRuns.ResumesWhereInterruptedExactly | src/kernel/task.c:196-249 | whenever a task that was switched away from runs again, it resumes at the frame it was interrupted at exactly when it was RUNNING then, or that frame was already stored |
| Tasks.TaskSystem.constructor | src/kernel/task.c:18-21 | the objects start in Scheduler.PowerOn, with no handler installed |
| Tasks.TaskSystem.Init | src/kernel/task.c:54-82 | the list, the current task and the next PID are those of Scheduler.Init |
| Tasks.TaskSystem.Create | src/kernel/task.c:87-179 | list, new block, current task and PID are those of Scheduler.Create; NULL exactly on a full list or a failed allocation |
| Tasks.TaskSystem.Switch | src/kernel/task.c:191-250 | all task blocks, the current task and the returned frame are those of Scheduler.Switch |
| Tasks.TaskSystem.FindNext | src/kernel/task.c:214-235 | the search loop finds the first eligible slot in search order |
| Tasks.TaskSystem.Sleep | src/kernel/task.c:255-261 | the state is that of Scheduler.Sleep |
| Tasks.TaskSystem.Exit | src/kernel/task.c:266-273 | the state is that of Scheduler.Exit |
| Tasks.TaskSystem.EnableScheduler | src/kernel/pit.c:104-106 | the state is that of the event that switches the scheduler on |
| Tasks.TaskSystem.PitIrqHandler | src/kernel/pit.c:33-46 | counter, switch and replacement frame are those of Scheduler.Tick |
| Tasks.TaskSystem.IrqHandler | src/kernel/isr.c:141-165 | the timer vector gives state and frame of Scheduler.Tick; every other vector returns the interrupted frame and changes no task |
| Tasks.TaskSystem.InstallHandler | src/kernel/isr.c:177-190 | only numbers 0 to 15 change the table |
| InterruptStub.OrdersMatch | src/kernel/idt_asm.asm:194-257 | the pop order is the push order reversed, without repetition and with every register |
| InterruptStub.EnterIsRegistersT | src/kernel/isr.h:18-31 | the pushes lay out a registers_t: each register, vector, error code and processor word in its own field, 208 bytes |
| InterruptStub.LeaveLoadsRegistersT | src/kernel/idt_asm.asm:229-263 | the pops load the processor from the registers_t fields of whatever frame was returned |
| InterruptStub.StubRestores | src/kernel/idt_asm.asm:192-263 | a frame resumed unchanged gives back the interrupted processor state, whatever the C code did to the registers |
| InterruptStub.FirstFrameStartsTask | src/kernel/task.c:128-167 | the frame of a new task starts it at its entry point on its own stack, with interrupts on and no other flag, kernel selectors and cleared registers |
| KernelStart.FirstFramesApart | src/kernel/task.c:117-126 | first frames on stacks from `kmalloc` lie inside their own stacks and apart from each other |
| ClientRuns.RunSparesPage | src/kernel/mm/vmm.c:134-163 | a run none of whose operations maps or unmaps a client page leaves its translation as it was |
| ClientRuns.MappingLasts | src/kernel/mm/vmm.c:134-173 | a page mapped while the frames suffice has the frame and flags asked for after any later run that does not name it, and lookup answers with its address |
| ClientRuns.UnmappedLasts | src/kernel/mm/vmm.c:149-173 | a page unmapped has no translation, and lookup answers 0, after any later run that does not name it |
| ClientRuns.AllocIsNew | src/kernel/mm/pmm.c:108-119 | in every reachable state the frame handed out is the lowest free one and is no table, backs no heap page and belongs to no client; nothing else changes |
| ClientRuns.AllocThenFree | src/kernel/mm/pmm.c:108-129 | freeing the frame just allocated restores the whole state |
| ClientRuns.RunSparesFrame | src/kernel/mm/pmm.c:108-129 | until a client frees a frame it holds it, and a word of it that the client does not write keeps its value, whatever is mapped, allocated or stored elsewhere |
| ClientRuns.StoredWordLasts | src/kernel/mm/pmm.c:108-129 | what a client wrote into its frame is there after any such run |
| ClientRuns.StoredHeapWordLasts | src/kernel/mm/heap.c:31-72 | what was stored through the heap window is read back after any run without another store to that word |
| HeapWords.StepKeepsWords | src/kernel/mm/heap.c:31-72 | allocation, `kmalloc`, map, unmap, free and client stores change no word of a mapped heap page |
| HeapWords.PokeIsOneWord | src/kernel/mm/heap.c:66-71 | a store through the heap window changes exactly the word it names |
| KernelTasks.CreateTaskGood | src/kernel/task.c:87-179 | `task_create` on real `kmalloc` answers gives the task a mapped stack block of its own holding its first frame, and spares all others |
| KernelTasks.TaskEventGood | src/kernel/task.c:255-273 | sleeps and exits keep every task's stack and every saved frame |
| KernelTasks.TimerTickGood | src/kernel/idt_asm.asm:192-263 | a timer interrupt pushes its frame on the running task's stack, spares all saved frames, and leaves a task preempted while RUNNING with the frame just pushed |
| KernelTasks.StartGood | src/kernel/task.c:54-82 | `task_init` after start-up is a state from which joint runs may begin |
| KernelTasks.KernelRunGood | src/kernel/task.c:87-273 | any permitted mix of memory operations, task creations, timer interrupts, sleeps and exits keeps stacks mapped and apart and every saved frame intact word for word |
| KernelTasks.CreateTakesTwoBlocks | src/kernel/task.c:94-108 | a successful `task_create` adds exactly two blocks: 80 bytes for the structure and, right behind, the stack of the size asked for, rounded up to 16 |
| KernelTasks.NewTaskWaits | src/kernel/task.c:117-179 | a task created while another runs is READY and waits with its first frame on its own stack |
| KernelTasks.FirstResumeStartsTask | src/kernel/task.c:128-167 | after any run in which the task was never current, what the stub reads on its stack starts it at its entry point with interrupts on, no other flag, kernel selectors and cleared registers |
| KernelTasks.WaitingTaskRuns | src/kernel/task.c:202-250 | in every joint run a task that may run is resumed by a timer interrupt before the scheduler was called oftener than its place in the cycle allows |
| KernelTasks.CreatedTaskStarts | src/kernel/task.c:87-250 | from `task_create` to the first instruction: within 63 calls of the scheduler the new task is resumed, and what the stub reads from memory starts it at its entry point |
| KernelTasks.PreemptedTaskRunsAgain | src/kernel/idt_asm.asm:192-263 | from preemption to resumption: within 63 calls of the scheduler the task goes on in exactly the processor state it was interrupted in |
| KernelTasks.WaitingFrameIsFound | src/kernel/isr.c:141-165 | whatever happens while a task waits, the address handed to the stub holds its saved frame |
| KernelTasks.PreemptedTaskContinues | src/kernel/idt_asm.asm:192-263 | a task preempted while RUNNING goes on, after any run in which it was not current, in exactly the processor state it was interrupted in, read back from its stack |
| KernelTasks.StacksApart | src/kernel/task.c:101-112 | the stacks of two tasks share no byte |
| KernelViews.KernelRunIsSchedulerRun | src/kernel/task.c:87-273 | the scheduler's part of every joint run is a run of the scheduler, with the answers `kmalloc` really gives and the frames really pushed, so every scheduler result holds in it |
| KernelViews.KernelRunIsMemoryRun | src/kernel/mm/heap.c:31-72 | the memory part of every joint run is a run of the memory code: `task_create` is its two requests and the stores of the first frame, a timer interrupt the stores of its frame |
| KernelViews.KernelSparesPage | src/kernel/mm/vmm.c:134-163 | while tasks are created, switched and ended, a client page keeps its translation until an operation names it |
| KernelViews.KernelSparesFrame | src/kernel/mm/pmm.c:108-129 | and a frame stays with its holder until freed, every word as last written |
| KernelViews.KernelExitIsFinal | src/kernel/task.c:266-273 | a task that calls `task_exit` and is switched away from by the next timer interrupt is never resumed again, whatever else the kernel does |
| Keyboard.ProduceAppends | src/kernel/keyboard_irq.c:31-46 | a scancode is dropped exactly when 255 wait, otherwise it goes behind all others |
| Keyboard.ProduceSparesReader | src/kernel/keyboard_irq.c:41-44 | the interrupt never overwrites the slot to be read next and never makes the ring look empty |
| Keyboard.DeliveredInOrder | src/kernel/keyboard_irq.c:31-67 | under every interleaving the scancodes read are the first of those accepted, in order, and the rest is what waits |
| Keyboard.NothingIsLost | src/kernel/keyboard_irq.c:31-75 | from the empty ring on, everything accepted was handed out in order or still waits |
| Keyboard.InterruptedReadDeliversOldest | src/kernel/keyboard_irq.c:59-67 | a read interrupted any number of times at each of its two points delivers the scancode that was oldest when it began |
| Keyboard.ConsumeIsThreeSteps | src/kernel/keyboard_irq.c:59-67 | an uninterrupted read is the check, load and store steps of the interleaving model |
| Keyboard.KeyboardBuffer.constructor | src/kernel/keyboard_irq.c:72-75 | the ring starts empty |
| Keyboard.KeyboardBuffer.IrqHandler | src/kernel/keyboard_irq.c:31-46 | buffer and write index are those of the produce step |
| Keyboard.KeyboardBuffer.HasScancode | src/kernel/keyboard_irq.c:51-53 | true exactly when scancodes wait |
| Keyboard.KeyboardBuffer.GetScancode | src/kernel/keyboard_irq.c:59-67 | run without interruption, ring and answer are those of Keyboard.Consume: the oldest scancode leaves; 0 and no change when the ring is empty |
| Vga.Screen.constructor | src/kernel/vga.c:8-12 | a cleared screen, white on black |
| Vga.Screen.Clear | src/kernel/vga.h:116-129 | the buffer shows 25 blank black rows, cursor at the top left |
| Vga.Screen.Scroll | src/kernel/vga.h:98-111 | the in-place copy shows the terminal with one blank row more, in the current colour |
| Vga.Screen.PutCharAt | src/kernel/vga.h:134-139 | exactly the cell at (x, y) changes, to the character in the colour given, and nothing outside the screen is written |
| Vga.Screen.PutChar | src/kernel/vga.h:144-193 | after any character the buffer shows the last 25 rows of the unbounded terminal and the cursor its cursor, on the screen |
| Vga.Screen.Print | src/kernel/vga.h:198-202 | the same for any string |
| Vga.HistoryIsStable | src/kernel/vga.h:98-111 | rows that have left the screen never change in the terminal |
| Vga.EntryBytes | src/kernel/vga.h:71-73 | a cell has the character in its low byte and the colour in its high byte; for a negative character the colour is lost |
| Vga.ClearedIsBlank | src/kernel/vga.h:116-129 | 25 rows of black spaces, the cursor in the first cell |
| Vga.NewlineMoves | src/kernel/vga.h:151-154 | column 0 of the next row; every cell is kept, and a row that scrolls in is blank in the current colour |
| Vga.ReturnMoves | src/kernel/vga.h:156-158 | column 0 of the same row and nothing else |
| Vga.TabMoves | src/kernel/vga.h:160-163 | the least multiple of 8 above the column, or column 0 of the next row from the last eight columns; every cell is kept |
| Vga.BackspaceMoves | src/kernel/vga.h:165-171 | one cell back, a space in the current colour there, no other cell changed |
| Vga.ControlIsIgnored | src/kernel/vga.h:173-178 | any other control character, and a backspace in column 0, changes nothing |
| Vga.LinesStand | src/kernel/vga.h:144-202 | in lines of text shorter than the screen, line i stands in row t.y + i from column 0 (the first from the cursor), byte for byte, whatever scrolls on the way |
| Vga.PlainTextFills | src/kernel/vga.h:173-185 | the k-th character of plain text ends up k cells after the cursor, row by row, whatever scrolls on the way |
| Vga.BackspaceErases | src/kernel/vga.h:165-171 | a backspace after a printed character takes the cursor back and leaves a blank |
| Loader.LoadKernel | src/bootloader/new/stage2.asm:225-270 | the chunks tile the range: the loaded bytes are the kernel's sectors in order and nothing else is written |
| Loader.CopyKernel | src/bootloader/new/stage2.asm:307-312 | the copy at 1 MB equals the bytes loaded at 0x80000, and nothing else is written |
| Loader.BootKernel | src/bootloader/new/stage2.asm:212-312 | sector 34 + k of the disk ends up at 0x100000 + 512 * k for every k, and only the load area and the target are written |

## Left out

- Runs.RunGood: callers map neither inside the first PML4 entry nor inside the heap window, free and write only frames they hold, and ask `kmalloc` for less than about 2^47 bytes; the commands that break the first two (`usertest`, `vmtest`) are not part of this model, but LargePages says what one such map does.
- Runs.HeapPageIsPrivate: speaks of the heap page itself; a client may map any other page to any frame, also with the user flag, and stores through such a mapping to frames the client does not hold are not operations of a run.
- Ownership.RangeOwned: the flags of a heap page are those of the last store, because the processor is taken never to set the accessed and dirty bits of an entry.
- Pointers are page-table physical addresses: memory is at most 1 GB, inside the identity map, and table writes are visible at once (no TLB, no fences).
- The bitmap is an array of its own; the frames its bytes occupy are reserved by `pmm_init` and so never given out, but stores to it are not stores to the frame array.
- FrameAllocator.Pmm.Init: requires that no `base + length` wraps and that the bitmap has bits for the first 256 pages and for the kernel, none of which the code checks.
- FrameAllocator.Pmm.FreePage: requires the address to lie below the last page, which the code does not check.
- KernelMemory.Vmm.MapPage: needs flags below 0x1000 and everything the walk takes for a table to lie in physical memory; what the code does elsewhere depends on the bus.
- LargePages.MapExactly: a 2 MB page translated through the very word the walker ends at, that is, whose first frame is a table on its own path, is not covered (below 1 GB Boot.LowNotUsed excludes it), nor are 1 GB entries and 2 MB pages that start beyond physical memory.
- Boot.SetupPaging: takes the frame of the PML4 as a parameter, page-aligned as the comment in the source asks; the assembler's placement is not computed.
- The packed layout of the memory map, and the fallback map, are replaced by a list of entries.
- SchedulerRuns.BoundedWaiting: the tick counter does not wrap during the run (2^64 ticks); `task_init` is not called again in the middle of a run.
- Tasks.TaskSystem.Create: the answers of `kmalloc` are parameters and the frame is not written; KernelTasks.CreateTask has both, on values. Task names and the unused `next` pointer are left out.
- KernelTasks.KernelRunGood: stacks hold at least one frame (208 bytes), no `kmalloc` call of `task_create` is answered with an unmapped page, the running task leaves room for an interrupt frame on its stack, and no store hits a saved frame; the task structures are the scheduler's values, not words in their blocks, and the calls of the C handler below the frame are not modelled.
- FS and GS are not saved by the stub and not modelled; ring changes and `swapgs` are left out.
- Loader.BootKernel: memory is plain RAM and the BIOS read succeeds; the video hole above 0xA0000 limits real kernels to 256 sectors.
- Vga.Screen.Print: the hardware cursor ports, and the decimal and hexadecimal printers, are left out.
- Port I/O, PIC and PIT programming, descriptor tables, system calls, the shell and its commands.
