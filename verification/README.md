# A verified model of RubiKernel's core

RubiKernel is a small 32-bit x86 kernel. This project models the four parts of it that hold real
state, and proves what they keep over whole runs. `dafny verify dfyconfig.toml` checks everything.

Code that changes things in place is modelled in place: classes, arrays and linked nodes whose
methods have the source's loops and branches. Each such method is proved equal to a function on
values (`HeapBlocks.Kmalloc`, `Sched.Do`, `Paging.Bind`, `ElfImage.Load`, `InitrdRead.Resolve`, ...),
and the theorems are lemmas about those functions, over every input and every run. 32-bit arithmetic
wraps explicitly (`Machine.Wrap`), and NULL dereferences, page faults, failed assertions and
exceptions are outcomes, not preconditions.

## The parts

**Heap on a static list.** `Slist` is the slot-array list; `Heap` is `kmalloc`/`kfree` on it, with
`HeapBlocks` as its value form; `HeapInvariant` holds what every reachable heap keeps;
`HeapRuns` the refinement of whole runs to a finite map of live blocks; `HeapAligned` the aligned
wrapper with owners that write to their memory.

**Scheduler.** `Clist` is the circular list; `Sched` a transition system with one action per handler;
`Scheduler` the same handlers on the list itself. `SchedInvariant` holds the invariant and what
follows for single steps, `SchedFair` the round-robin bound, `SchedTight` that it is exact,
`SchedTurns` how long every later turn lasts, `SchedMessages` conservation of messages, and
`SchedMailbox` that each mailbox is a stack. `Context` and `ContextRuns` treat the save and restore of
registers as memory operations on separate stacks. The first task is the idle task, always running
and never exiting
(kernel/src/kernel/kernel.c:103-108, 138-139). Each handler is one atomic step: system calls run with
interrupts off (kernel/src/kernel/DT/syscall.c:44), while a task resumed inside `krecive` has them on
(kernel/src/kernel/scheduler/schedule.c:57), so that second half is an action of its own, `Finish`,
taken to be atomic by assumption.

**Paging and program loading.** `PageBits` and `Paging` are the bitmap, the page tables and the
processor's two-level translation; `Mmu` works on the arrays; `PagingRuns` lets any number of tables
share the physical pages; `MmuBoot` is the boot mapping; `ElfImage`, `Elf` and `ElfLoad` are the
segment loop of `elf_exec`, and `ElfUnload` the return of its pages.

**Initrd.** `InitrdBuild` is the Python writer of the image, `InitrdRead` and `Vfs` the C reader with
its node cache and path walk, `InitrdImage` what one finds where in a written image, and
`InitrdRoundTrip` the round trip between the two; `InitrdWalk` is the path walk on any image.

## What turned out false, and exactly when

- A zero-size `kmalloc` gives out an address twice (`HeapRuns.ZeroSizeShares`), and a huge request
  leaves the heap: at once on the append path (`HeapRuns.FirstRequestEscapes`), or through the wrapped
  end test of the grow path (`HeapRuns.HugeRequestEscapes`). `HeapRuns.KmallocKeepsInv` says for which
  requests the heap stays sound, both ways.
- When the slots are used up, `kmalloc` dereferences NULL; `HeapRuns.FaultExactly` says when, and
  `HeapRuns.SlotsRunOut` gives a run from boot that does it.
- `kmalloc_a` keeps its result inside the raw block iff the padded size does not wrap
  (`HeapAligned.AlignedFits`); `HeapAligned.PaddingWraps` is a request that wraps.
- `clist_delete` leaves a wrong tail iff it deletes the head of three or more nodes
  (`Clist.Clist.Delete`); the other nodes then change their order (`Clist.HeadDeletionReorders`).
- Task numbers are cut to 16 bits. A number reaches its owner iff no earlier task in the ring has the
  same 16 bits (`SchedMessages.AddressedExactly`, `SchedMessages.NumbersRepeat`).
- (n - 1) quotas do not always bring a runnable task back: a new task's `time` is whatever the heap
  held, and 0xFFFFFFFF wraps and starts its quota once more (`SchedTight.WrappingDelays`, from boot).
  They do iff the ticks that the tasks in front of it have left add up to no more
  (`SchedTight.QuotasExactly`); that sum is the exact worst case in every state whose waiting tasks
  can be addressed (`SchedTight.WaitIsExact`).
- The saved flags are read two bytes too low, so every task resumes with flags 0x200
  (`Context.FlagsLost`).
- `alloc_page` reserves the page it returns iff the address is outside the kernel range
  (`Paging.AllocReserves`).
- The `memset` of the page bitmap clears 128 of its 512 words. Boot leaves exactly the first 32 MB
  marked iff the task zone was clear before (`MmuBoot.BootBitmap`).
- `elf_exec` maps `memsz / 4096 + 1` pages, which hold the segment iff the odd bytes at its two ends
  fit one page (`ElfLoad.CoveredExactly`, `ElfLoad.MappedExactly`). In a fresh table loading comes to
  its end iff the contents do not pass those pages, and is a page fault otherwise
  (`ElfLoad.LoadsExactly`); `ElfLoad.BorderFaults` is a segment of two bytes that faults.
- The image builder raises iff there is no directory under the root or the root offset needs more
  than 32 bits (`InitrdBuild.Build`).
- A name of 128 bytes or more is written past the end of its buffer. A search does that iff it comes
  to such a child (`InitrdRoundTrip.StepSmashes`); the builder makes such images
  (`InitrdRoundTrip.LongNameSmashes`), and images with short names are safe
  (`InitrdRoundTrip.ShortNamesSafe`).
- A path is followed for eight components and the rest is ignored, and a directory of 2^32 - 1 children
  is its own child by any name (`InitrdWalk.ResolveFollows`, `InitrdWalk.Component`).
- Unbinding an absent entry unmarks physical page 0 (`Paging.UnbindResult`).
- `initrd_read` gives the requested slice iff the offset is past the end or `offset + size` does not
  wrap (`InitrdRoundTrip.ReadExactly`).

## Model

| member | source | states |
|---|---|---|
| Slist.StaticList.constructor | kernel/src/kernel/memory/heap.c:7-13 | a zeroed slot array is a valid empty list |
| Slist.StaticList.FreeSlot | kernel/src/lib/slist.c:46-51 | finds the lowest free slot; NULL exactly when every slot is on the list |
| Slist.StaticList.Link | kernel/src/lib/slist.c:52-70 | the new slot gets both links, each neighbour gets one, nothing else is written |
| Slist.StaticList.InsertAfter | kernel/src/lib/slist.c:42-77 | the list becomes the old sequence with a fresh cleared slot behind the given position, at the front for NULL; NULL returned exactly when full, then nothing changes |
| Slist.StaticList.InsertBefore | kernel/src/lib/slist.c:116-151 | the same in front of the given position, at the end for NULL |
| Slist.StaticList.Unlink | kernel/src/lib/slist.c:177-191 | the neighbours are joined, the ends move, the slot is cleared, nothing else is written |
| Slist.StaticList.Delete | kernel/src/lib/slist.c:175-192 | removes exactly that element from the sequence; NULL removes nothing |
| Slist.Occupancy | kernel/src/lib/slist.c:46-51 | a list has at most as many elements as slots, and fills them exactly when no slot is free |
| Slist.InsertionLinks | kernel/src/lib/slist.c:64-75 | the writes of an insertion turn a well-linked array for one sequence into one for the longer sequence |
| Slist.DeletionLinks | kernel/src/lib/slist.c:177-191 | the writes of a deletion turn a well-linked array into one for the shorter sequence |
| Slist.Mirror | kernel/src/lib/slist.c:64-75 | a slot's flag is set iff it is on the list; next and prev are mirror images; head and tail are exactly the elements without a neighbour |
| Heap.KernelHeap.Kmalloc | kernel/src/kernel/memory/heap.c:26-105 | in place on the slot list, does what the value form says, including the crash on a failed insertion |
| Heap.KernelHeap.StealLeft | kernel/src/kernel/memory/heap.c:37-49 | the steal-from-left branch in place |
| Heap.KernelHeap.UseBlock | kernel/src/kernel/memory/heap.c:60-85 | the split branch in place, with give-to-right and the new free entry |
| Heap.KernelHeap.AppendBlock | kernel/src/kernel/memory/heap.c:88-104 | the append path in place |
| Heap.KernelHeap.Kfree | kernel/src/kernel/memory/heap.c:107-135 | in place, frees the first busy block at the address and coalesces on both sides |
| Heap.KernelHeap.FreeBlock | kernel/src/kernel/memory/heap.c:115-132 | the coalescing of one freed block, left then right |
| HeapInvariant.DeadBranches | kernel/src/kernel/memory/heap.c:36-82 | without two free neighbours the scan never steals from the left nor gives to the right, so it is plain first fit, grow or append |
| HeapInvariant.StealKeeps | kernel/src/kernel/memory/heap.c:36-49 | off the reachable heaps: with two free neighbours large enough together, stealing from the left would keep the tiling and hand out their right end |
| HeapInvariant.StealUnderflows | kernel/src/kernel/memory/heap.c:41 | two free neighbours that are too small together: the left size wraps around |
| HeapInvariant.GiveKeeps | kernel/src/kernel/memory/heap.c:65-73 | there, giving the rest to a free right neighbour would keep the tiling too |
| HeapInvariant.FirstFit | kernel/src/kernel/memory/heap.c:29-34 | the reference search: the first free block that is large enough |
| HeapInvariant.AllocateFit | kernel/src/kernel/memory/heap.c:60-84 | a split adds one live block of the requested size, keeps all others, the tiling and the heap's top |
| HeapInvariant.AllocateGrow | kernel/src/kernel/memory/heap.c:51-59 | growing the last free block adds exactly that live block |
| HeapInvariant.AllocateAppend | kernel/src/kernel/memory/heap.c:88-104 | appending adds exactly that live block behind all others |
| HeapInvariant.KmallocResult | kernel/src/kernel/memory/heap.c:26-105 | for every request on a reachable heap: the NULL dereference iff all slots are used and one is needed; NULL iff full; otherwise one new block, inside the heap iff the request fits |
| HeapInvariant.KfreeFinds | kernel/src/kernel/memory/heap.c:107-114 | the scan acts on a block exactly when the address is live, and on that block |
| HeapInvariant.ReleaseKeeps | kernel/src/kernel/memory/heap.c:115-132 | coalescing keeps the invariant and the top, and removes one address from the live map |
| HeapInvariant.KfreeResult | kernel/src/kernel/memory/heap.c:107-135 | kfree removes exactly the block at the address from the live map, keeps the invariant, and changes nothing for any other pointer |
| HeapInvariant.KfreeShrinks | kernel/src/kernel/memory/heap.c:107-135 | the list never gets longer |
| HeapInvariant.LiveDisjoint | kernel/src/kernel/memory/heap.c:60-105 | two live blocks of a tiled heap never overlap |
| HeapInvariant.SlotBound | kernel/src/kernel/memory/heap.c:75-103 | a reachable list has at most 2 * live + 1 entries |
| HeapRuns.KmallocKeepsInv | kernel/src/kernel/memory/heap.c:26-105 | when the call returns, the invariant survives iff the request is refused as full, or is positive and fits |
| HeapRuns.FaultExactly | kernel/src/kernel/memory/heap.c:75-100 | NULL is dereferenced iff all slots are used and the request needs one; never while 2 * live + 1 is below the number of slots |
| HeapRuns.ZeroSizeShares | kernel/src/kernel/memory/heap.c:88-104 | a concrete run: after kmalloc(0) the next request gets the same address |
| HeapRuns.FirstRequestEscapes | kernel/src/kernel/memory/heap.c:94-104 | the very first request, if huge, is granted beyond the heap's end |
| HeapRuns.HugeRequestEscapes | kernel/src/kernel/memory/heap.c:51-58 | a heap that three calls from boot lead to, on which a huge request passes the wrapped end test |
| HeapRuns.SlotsRunOut | kernel/src/kernel/memory/heap.c:75-100 | as many one-byte requests as there are slots, and one more: an admissible run from boot that ends in the NULL dereference |
| HeapRuns.KmallocRefines | kernel/src/kernel/memory/heap.c:26-105 | a positive request that fits and finds a slot adds one block, clear of all live ones and inside the heap, to the live map and changes nothing else, or is refused |
| HeapRuns.RunRefines | kernel/src/kernel/memory/heap.c:26-135 | every run of positive requests that fit ends without a fault iff it never asks for a slot when none is left, and then it is a run of the finite-map specification |
| HeapRuns.FewLiveLast | kernel/src/kernel/memory/heap.c:26-135 | a run never asks for a slot in vain while 2 * live + 1 is below the number of slots |
| HeapRuns.HeapSafety | kernel/src/kernel/memory/heap.c:26-135 | both of these from an empty heap |
| HeapRuns.TwoFill | kernel/src/kernel/memory/heap.c:88-97 | from boot two requests of 4 MB get 0xC1000000 and 0xC1400000, and a third one NULL |
| HeapAligned.AlignedHeap.KmallocA | kernel/src/kernel/memory/heap.c:137-145 | in place: padded request, aligned pointer, hidden word; a zero alignment ends in a division by zero |
| HeapAligned.AlignedHeap.KfreeA | kernel/src/kernel/memory/heap.c:147-151 | frees what the hidden word names |
| HeapAligned.AlignDown | kernel/src/kernel/memory/heap.c:141-142 | a multiple of align, less than align below the address |
| HeapAligned.AlignedLies | kernel/src/kernel/memory/heap.c:141-142 | the pointer is the one multiple of align in the align bytes up to p + align + 4 |
| HeapAligned.AlignedFits | kernel/src/kernel/memory/heap.c:137-144 | hidden word and usable bytes lie inside the raw block without overlapping iff count + align + 4 does not wrap |
| HeapAligned.CrashesExactly | kernel/src/kernel/memory/heap.c:137-145 | kmalloc_a crashes iff kmalloc does, or a block was found and align is 0; NULL is passed on and changes nothing |
| HeapAligned.PaddingWraps | kernel/src/kernel/memory/heap.c:137-144 | a request whose padded size wraps, from boot: four bytes are taken and the pointer lies eight bytes behind them |
| HeapAligned.DoKeepsSound | kernel/src/kernel/memory/heap.c:26-151 | every allocation, release or write by an owner inside its own range keeps each outstanding aligned block backed by its raw block and hidden word |
| HeapAligned.FreeAlignedExactly | kernel/src/kernel/memory/heap.c:147-151 | kfree_a frees exactly the raw block behind the pointer |
| HeapAligned.RunsKeepSound | kernel/src/kernel/memory/heap.c:26-151 | soundness over whole runs |
| HeapAligned.AlignedRoundTrip | kernel/src/kernel/memory/heap.c:137-151 | after any fair run from boot an aligned pointer still out lies in a live raw block, and freeing it removes exactly that block |
| Clist.Clist.Init | kernel/src/lib/clist.c:6-15 | one node pointing at itself, being head and tail |
| Clist.Clist.LinkBehind | kernel/src/lib/clist.c:21-26 | the new node stands between the given one and its successor, no other link changes, and tail moves when it was the given one |
| Clist.Clist.InsertAfter | kernel/src/lib/clist.c:17-31 | the ring becomes the old one with a fresh node behind the given one; other payloads stay |
| Clist.Clist.Predecessor | kernel/src/lib/clist.c:38-44 | the loop finds the node in front of the given one |
| Clist.Clist.Bypass | kernel/src/lib/clist.c:38-49 | only the node in front of the given one changes its link, to the given one's successor; head and tail move off the given one |
| Clist.Clist.Delete | kernel/src/lib/clist.c:33-53 | the rest is one cycle in the old cyclic order; tail is again the last node iff the deleted node was not the head or at most two were there |
| Clist.SkipsOnly | kernel/src/lib/clist.c:38-49 | a deletion skips the deleted node and keeps every other successor |
| Clist.HeadDeletionReorders | kernel/src/lib/clist.c:45-46 | deleting the head of three nodes makes the last one the first |
| Clist.Clist.Get | kernel/src/lib/clist.c:55-62 | the node at the index, NULL from the length on |
| Clist.Clist.Find | kernel/src/lib/clist.c:64-77 | terminates with the first match from head, NULL iff there is none |
| Scheduler.Scheduler.FindByStatusFrom | kernel/src/kernel/scheduler/task.c:103-115 | the do-while loop is the ring search of the transition system |
| Scheduler.Scheduler.FindById | kernel/src/kernel/scheduler/task.c:116-124 | the do-while loop finds the first task from the head with that number |
| Scheduler.Scheduler.PickAndReap | kernel/src/kernel/scheduler/schedule.c:40-67 | pick, reap and switch in place on the ring |
| Scheduler.Scheduler.Reap | kernel/src/kernel/scheduler/task.c:95 | deletes the victim and keeps pointing at the chosen task |
| Scheduler.Scheduler.Schedule | kernel/src/kernel/scheduler/schedule.c:18-70 | quota, reset and switch in place |
| Scheduler.Scheduler.Yield | kernel/src/kernel/scheduler/schedule.c:72-78 | sets reschedule and schedules |
| Scheduler.Scheduler.Exit | kernel/src/kernel/DT/syscall.c:46-51 | marks the task for deletion and yields |
| Scheduler.Scheduler.Create | kernel/src/kernel/scheduler/task.c:21-74 | the new task is last in the ring, with the next number, an empty mailbox and the two fields nobody sets |
| Scheduler.Scheduler.Send | kernel/src/kernel/scheduler/schedule.c:80-90 | delivers in place or refuses, and wakes a waiting receiver |
| Scheduler.Scheduler.TakeMessage | kernel/src/kernel/scheduler/schedule.c:104-111 | checks the assertion, takes the newest message off the mailbox and returns that one |
| Scheduler.Scheduler.Receive | kernel/src/kernel/scheduler/schedule.c:92-103 | gives the processor away when the mailbox is empty, else takes a message |
| SchedInvariant.SearchNearest | kernel/src/kernel/scheduler/task.c:103-115 | the search succeeds when there is a match and never passes one: it stops at the nearest in ring order |
| SchedInvariant.SearchAvoidsStart | kernel/src/kernel/scheduler/task.c:108-113 | the search does not return the task it starts from unless the ring is that task alone |
| SchedInvariant.SwitchSpec | kernel/src/kernel/scheduler/schedule.c:40-54 | the task chosen is running and never the one deleted; only a dying current task is ever deleted; nothing else changes |
| SchedInvariant.DoKeepsInv | kernel/src/kernel/scheduler/schedule.c:18-111 | every step of every handler keeps the invariant: current task running, no task marked for deletion, waiting tasks without messages, resumed receivers with one, order of numbers |
| SchedInvariant.FirstDispatch | kernel/src/kernel/scheduler/schedule.c:40-54 | the first switch after boot goes to the idle task if it is alone, else past it to the next |
| SchedInvariant.ExitReaps | kernel/src/kernel/DT/syscall.c:46-51 | an exiting task leaves the ring in its own exit step, alone, and a running task is current after it |
| SchedInvariant.StrayReaped | kernel/src/kernel/scheduler/schedule.c:50-53 | a task to be reaped that is not current goes with the next switch |
| SchedInvariant.RunKeepsInv | kernel/src/kernel/scheduler/schedule.c:18-111 | the invariant over every run |
| SchedInvariant.NoLostWakeup | kernel/src/kernel/scheduler/schedule.c:80-111 | from boot, over all runs: no assertion of krecive fails, a waiting task has an empty mailbox, a task resumed inside krecive has a message, no task is left to be reaped |
| SchedFair.SwitchCloser | kernel/src/kernel/scheduler/schedule.c:40-54 | each switch dispatches a waiting task or brings it strictly closer, also when it deletes a task |
| SchedFair.StepProgress | kernel/src/kernel/scheduler/schedule.c:20-54 | each step but a creation dispatches a waiting task, or takes one off its tick bound per tick and never increases either bound |
| SchedTight.NoWrapKept | kernel/src/kernel/scheduler/schedule.c:21-28 | time never becomes the wrapping value, except exactly when a task is created with it |
| SchedFair.Fair | kernel/src/kernel/scheduler/schedule.c:20-54 | while a waiting task is not dispatched, fewer ticks than the tasks in front of it have left, and fewer switches than its ring distance, have happened |
| SchedFair.RoundRobin | kernel/src/kernel/scheduler/schedule.c:20-54 | as many ticks as the current task and those in between have left, or as many switches as the ring distance, dispatch every runnable task, in every state |
| SchedFair.WaitInQuotas | kernel/src/kernel/scheduler/schedule.c:20-28 | the tick bound is at most one quota and one tick per ring step, and at most (n - 1) * TASK_QUOTA when no task up to x has the wrapping time |
| SchedTight.TickExactly | kernel/src/kernel/scheduler/schedule.c:20-54 | while all tasks in between run, a tick takes exactly one off the bound |
| SchedTight.Delay | kernel/src/kernel/scheduler/schedule.c:20-90 | for any number of ticks below the bound, a run of messages and ticks that keeps the task waiting |
| SchedTight.WaitIsExact | kernel/src/kernel/scheduler/schedule.c:20-90 | a number of ticks dispatches the task in every run iff it is at least the bound, if the waiting tasks in between can be addressed; it suffices in any case |
| SchedTight.EarlyAddressable | kernel/src/kernel/scheduler/task.c:116-124 | below 65536 creations they can |
| SchedTight.QuotasExactly | kernel/src/kernel/scheduler/schedule.c:20-90 | (n - 1) quotas suffice in every run iff the ticks left in front of the task add up to no more |
| SchedTight.WrappingDelays | kernel/src/kernel/scheduler/schedule.c:21-28 | from boot: a created task with the wrapping time is still current after (n - 1) * TASK_QUOTA ticks |
| SchedTight.QuotasFromBoot | kernel/src/kernel/scheduler/schedule.c:20-54 | from boot, as long as no task is created with that time, (n - 1) quotas dispatch every waiting task |
| SchedTurns.LeavingRests | kernel/src/kernel/scheduler/schedule.c:27-28 | however the processor is taken from a task, it has a whole quota left then |
| SchedTurns.RunRests | kernel/src/kernel/scheduler/schedule.c:20-111 | nothing that happens while it is away takes anything of that |
| SchedTurns.TurnLasts | kernel/src/kernel/scheduler/schedule.c:20-25 | a task keeps the processor for as many ticks as it has left, whatever messages and tasks come meanwhile |
| SchedTurns.TurnEnds | kernel/src/kernel/scheduler/schedule.c:22-54 | with the last one it is switched away iff another task can run |
| SchedTurns.LaterTurn | kernel/src/kernel/scheduler/schedule.c:20-54 | in every run a task that was switched away and is dispatched again stays current for exactly three ticks unless it gives the processor away, or longer only while it alone can run |
| SchedTurns.FlaggedTurn | kernel/src/kernel/scheduler/schedule.c:22-28 | from boot: a task created with the reschedule flag set loses the processor with its first tick, and the flag with it |
| SchedMessages.StepBalanced | kernel/src/kernel/scheduler/schedule.c:80-111 | in each step, buffered plus accepted equals received plus buffered after it, for every task still in the ring; absent tasks take no part |
| SchedMessages.Conservation | kernel/src/kernel/scheduler/schedule.c:80-111 | the same as multisets over whole runs, for tasks still there |
| SchedMessages.AddressedExactly | kernel/src/kernel/scheduler/task.c:116-124 | a number reaches its owner iff no earlier task has the same 16 bits; always so below 65536 creations |
| SchedMessages.NumbersRepeat | kernel/src/kernel/scheduler/task.c:32 | a concrete state: a message for task 65536 lands with the idle task |
| SchedMessages.RefusedExactly | kernel/src/kernel/scheduler/schedule.c:81-85 | a message is refused iff no task has the number or the first that has it is full |
| SchedMessages.SendWakes | kernel/src/kernel/scheduler/schedule.c:86-89 | a message to a waiting task makes it runnable at its ring distance, holding just that message |
| SchedMailbox.StepStacked | kernel/src/kernel/scheduler/schedule.c:80-111 | each step does to each mailbox what a stack of at most eight messages does: an accepted message is pushed, the one handed out was on top, else nothing |
| SchedMailbox.MailboxIsStack | kernel/src/kernel/scheduler/schedule.c:80-111 | over every run the mailbox of a task still there was such a stack |
| SchedMailbox.ReverseOrder | kernel/src/kernel/scheduler/schedule.c:86-110 | messages accepted one after the other and then received come out in reverse order, each exactly once, and the mailbox is as it was |
| SchedMailbox.EightFit | kernel/src/kernel/scheduler/schedule.c:82-87 | from boot eight messages for one task lie in order and a ninth is refused |
| Context.SaveReads | kernel/src/kernel/scheduler/schedule.c:30-36 | from the interrupt frame the save reads back the interrupted eip, cs, stack pointer and registers |
| Context.ResumeReads | kernel/src/kernel/asm_lib.asm:20-29 | popping the frame that was built gives the saved context |
| Context.SwitchTransparent | kernel/src/kernel/scheduler/schedule.c:30-68 | saved and resumed, a task continues in the same state, flags aside |
| Context.FlagsLost | kernel/src/kernel/scheduler/schedule.c:32-57 | whatever the flags were, 0x200 is resumed |
| Context.Switcher.Save | kernel/src/kernel/scheduler/schedule.c:30-36 | in place, from the interrupt frame of a task interrupted in state c: task_t then holds the context of c, and memory is unchanged |
| Context.Switcher.BuildFrame | kernel/src/kernel/scheduler/schedule.c:56-64 | the frame in place: eleven words below the resume stack pointer and nothing else |
| Context.Switcher.Dispatch | kernel/src/kernel/scheduler/schedule.c:56-68 | in place: the frame, then popad and iret from the stack pointer left in task_t; the processor runs with the eip, cs, stack pointer and registers that task_t held, and only the 44 bytes below that stack pointer were written |
| ContextRuns.SwitchFootprint | kernel/src/kernel/scheduler/schedule.c:56-64 | a switch writes only the interrupted task's stack below its stack pointer, where the handler runs, and the 44 bytes below the resumed stack pointer |
| ContextRuns.RunSpares | kernel/src/kernel/scheduler/schedule.c:30-68 | while others run and are switched, whatever their handlers write on their own stacks, a preempted task's saved context and whole stack range stay as they are |
| ContextRuns.Transparent | kernel/src/kernel/scheduler/schedule.c:30-68 | preempted, then resumed after any moves of other tasks, a task continues in the same state with its stack untouched |
| PageBits.MarkExactly | kernel/src/kernel/memory/mmu.c:125-138 | writing one page's bit sets that bit and no other |
| PageBits.MarkUndone | kernel/src/kernel/memory/mmu.c:129-138 | marking a free page and unmarking it gives back the same words |
| Paging.FirstFree | kernel/src/kernel/memory/mmu.c:142-145 | the lowest unmarked task page, or the zone's end when all are marked |
| Paging.BindResult | kernel/src/kernel/memory/mmu.c:183-197 | refused exactly for kernel addresses and pages below the task zone, without the boot flag; else the entry holds the frame and the bitmap gains exactly that page if it covers it |
| Paging.AllocResult | kernel/src/kernel/memory/mmu.c:140-152 | 0 iff every task page is marked; else the lowest unmarked one, now marked and held by the entry, with nothing else changed |
| Paging.ZoneEnds | kernel/src/kernel/memory/mmu.c:142-151 | 0x2000000 is handed out first, 0x3FFF000 last, then 0 |
| Paging.AllocReserves | kernel/src/kernel/memory/mmu.c:140-197 | the returned page is marked iff the address is outside the kernel range; otherwise the next call returns it again |
| Paging.AllocThenUnbind | kernel/src/kernel/memory/mmu.c:140-207 | unbinding undoes an allocation: same bitmap, entry absent |
| Paging.UnbindResult | kernel/src/kernel/memory/mmu.c:199-207 | exactly the bit of the entry's page is cleared, whatever the entry holds, and the entry becomes absent |
| Paging.GuardEdges | kernel/src/kernel/memory/mmu.c:184-223 | the first and last addresses that are refused, and the last page that is tracked |
| Mmu.Mmu.GetPage | kernel/src/kernel/memory/mmu.c:125-127 | reads the page's bit |
| Mmu.Mmu.SetPage | kernel/src/kernel/memory/mmu.c:129-138 | writes the page's bit in the array |
| Mmu.Mmu.Callback | kernel/src/kernel/memory/mmu.c:220-234 | tracks pages the bitmap covers and ignores others |
| Mmu.Mmu.BindPage | kernel/src/kernel/memory/mmu.c:183-197 | one entry and one bit change, or nothing when refused |
| Mmu.Mmu.UnbindPage | kernel/src/kernel/memory/mmu.c:199-207 | the bit of the entry's page is cleared, then the entry |
| Mmu.Mmu.AllocPage | kernel/src/kernel/memory/mmu.c:140-152 | the scan in place |
| Mmu.Mmu.BindTableAt | kernel/src/kernel/memory/mmu.c:173-181 | one directory entry changes, or nothing when refused |
| PagingRuns.DoKeepsInv | kernel/src/kernel/memory/mmu.c:117-207 | each operation on any table keeps: no page in two entries, every held page marked and in the task zone |
| PagingRuns.RunKeepsInv | kernel/src/kernel/memory/mmu.c:117-207 | the same over runs |
| PagingRuns.NoPageTwice | kernel/src/kernel/memory/mmu.c:117-207 | from no tables, whatever the bitmap held: two present entries never hold one page |
| MmuBoot.MaskIsTableStart | kernel/src/kernel/memory/mmu.c:66 | for every index below 2^20 the masked flat index, which the boot loop passes to bind_page, is the start of its table |
| MmuBoot.HeapPageBound | kernel/src/kernel/memory/mmu.c:66 | bind_page at that table binds and marks exactly frame k |
| MmuBoot.ClearStart | kernel/src/kernel/memory/mmu.c:46 | exactly the first 128 words become zero |
| MmuBoot.MarkLower | kernel/src/kernel/memory/mmu.c:52-56 | exactly the first 128 words are filled |
| MmuBoot.InitMemoryManager | kernel/src/kernel/memory/mmu.c:43-68 | afterwards every heap frame is mapped, the four heap tables are in the directory, exactly the first 32 MB are marked beside older task-zone bits, and every other entry and directory entry is as it was |
| MmuBoot.HeapIsMapped | kernel/src/kernel/memory/mmu.c:58-67 | every kernel-heap address translates through both levels to itself minus VIRT_BASE |
| MmuBoot.TranslationKept | kernel/src/kernel/memory/mmu.c:58-67 | boot changes the translation of no address outside the heap tables |
| MmuBoot.LowerStaysMapped | loader/start.asm:43-84 | the kernel's first 16 MB, mapped by the loader, still translate to themselves minus VIRT_BASE |
| MmuBoot.LiveBytesMapped | kernel/src/kernel/memory/heap.c:15-16 | every byte of every live heap block translates after boot |
| MmuBoot.BootBitmap | kernel/src/kernel/memory/mmu.c:46-67 | exactly the first 32 MB are marked iff the task zone's bits were clear before |
| ElfImage.LocateIsTranslate | kernel/src/kernel/vfs/elf.c:30 | below 4 MB the new directory translates by the task's own table, whatever the kernel's directory holds |
| Elf.Loader.MapPages | kernel/src/kernel/vfs/elf.c:44-51 | the page loop in place on table, bitmap and pages array |
| Elf.Loader.Copy | kernel/src/kernel/vfs/elf.c:62-68 | the copy through the new directory, or a page fault |
| Elf.Loader.Segment | kernel/src/kernel/vfs/elf.c:35-68 | one turn of the loop in place |
| Elf.Loader.Exec | kernel/src/kernel/vfs/elf.c:34-73 | the loop over the program headers in place |
| Elf.Loader.Release | kernel/src/kernel/scheduler/task.c:86-88 | the loop over the recorded pages in place |
| ElfLoad.CoveredExactly | kernel/src/kernel/vfs/elf.c:40 | the page numbers mapped for a segment hold all of it iff its odd ends fit one page |
| ElfLoad.MappedExactly | kernel/src/kernel/vfs/elf.c:40-51 | in a fresh table exactly the addresses in those pages translate, and all of the segment's do iff it is covered |
| ElfLoad.LoadsExactly | kernel/src/kernel/vfs/elf.c:35-68 | in a fresh table a segment loads iff its contents end inside its last page, else a page fault; for a segment wholly in the file or wholly zero, iff it is covered |
| ElfLoad.Skipped | kernel/src/kernel/vfs/elf.c:37-51 | a segment without memory is skipped even when the file holds bytes for it; one of more than 32 pages does not load |
| ElfLoad.BorderFaults | kernel/src/kernel/vfs/elf.c:40-68 | two bytes on either side of a page border fault |
| ElfLoad.MapAll | kernel/src/kernel/vfs/elf.c:44-51 | the loop makes exactly the segment's entries present, takes one free page each and shares none |
| ElfLoad.CopyPuts | kernel/src/kernel/vfs/elf.c:65-67 | through a table that shares no page, a copy puts each byte where its address translates and changes no other mapped byte |
| ElfLoad.LoadKeepsOthers | kernel/src/kernel/vfs/elf.c:34-73 | loading one segment leaves a segment on other pages as loaded |
| ElfLoad.PagesFit | kernel/src/kernel/vfs/elf.c:26-51 | segments on separate pages of one 32-entry table never overflow the pages array |
| ElfLoad.LoadCorrect | kernel/src/kernel/vfs/elf.c:34-73 | for segments on separate pages with enough free pages, loading succeeds, every byte translates, the file's bytes or zeros are read back, and no task's page is shared |
| ElfLoad.ByteOfSegment | kernel/src/kernel/vfs/elf.c:34-73 | for one byte: a task page that only this linear page of this task maps, holding the file's byte or zero |
| ElfUnload.AllocAccounts | kernel/src/kernel/memory/mmu.c:140-152 | an allocation into an absent entry keeps the account: marked are the pages marked at the start and those of the table |
| ElfUnload.UnbindAccounts | kernel/src/kernel/memory/mmu.c:199-207 | so does unbinding a present entry |
| ElfUnload.RecordAll | kernel/src/kernel/vfs/elf.c:44-51 | loading records exactly the pages it maps, each once |
| ElfUnload.GivesBack | kernel/src/kernel/scheduler/task.c:86-88 | for segments on separate pages: unbinding what was recorded leaves no present entry and exactly the pages marked that were marked before loading |
| InitrdBuild.WriteFiles | tools/initrd_builder.py:48-56 | the loop appends each file's record and remembers its offset; fails iff a size does not fit 32 bits |
| InitrdBuild.ChildOffsets | tools/initrd_builder.py:62 | the offsets of one directory's files, in order |
| InitrdBuild.WriteDirectory | tools/initrd_builder.py:65-67 | appends a directory record; fails iff a number in it does not fit 32 bits |
| InitrdBuild.WriteDirectories | tools/initrd_builder.py:58-67 | the loop over the directories, with offsets patched in |
| InitrdBuild.Build | tools/initrd_builder.py:48-75 | done iff there is a directory and the root offset fits 32 bits; then the bytes are the layout of the tree |
| InitrdImage.SmallTree | tools/initrd_builder.py:48-75 | the trees the round trip speaks of exist: a directory with one file of any small content is one |
| InitrdImage.NameLimit | kernel/src/kernel/vfs/node.c:28-36 | names that can be looked up have 1 to 127 bytes, none of them 0 or a slash |
| InitrdImage.SmallImage | tools/initrd_builder.py:48-75 | the image of one directory with one file of one byte, byte by byte |
| InitrdImage.FileFields | tools/initrd_builder.py:50-56 | at a file's offset the reader finds magic, type, size and name of that file, and its record's bytes |
| InitrdImage.DirFields | tools/initrd_builder.py:58-67 | at a directory's offset it finds the name and exactly the offsets of its files |
| InitrdImage.RootFields | tools/initrd_builder.py:69-75 | the head leads to the root record, which lists exactly the directories |
| Vfs.Vfs.constructor | kernel/src/kernel/vfs/fs/initrd.c:41-67 | the node list after boot: the root, or nothing for a bad image |
| Vfs.Vfs.FindByIno | kernel/src/kernel/vfs/node.c:64-68 | the first cached node of an offset |
| Vfs.Vfs.Create | kernel/src/kernel/vfs/fs/initrd.c:11-39 | the cached node, or a parsed one appended to the list, or a name written past its buffer |
| Vfs.Vfs.OpenNode | kernel/src/kernel/vfs/fs/initrd.c:130-146 | the node of a child, NULL outside a directory's range |
| Vfs.Vfs.FindPart | kernel/src/kernel/vfs/node.c:43-56 | the entry loop for one component |
| Vfs.Vfs.ResolvePath | kernel/src/kernel/vfs/node.c:11-62 | the path walk in place, with its limits of 127 bytes and eight components |
| Vfs.Vfs.ReadFile | kernel/src/kernel/vfs/fs/initrd.c:98-108 | the bytes a read copies, with the wrapping end test |
| InitrdRoundTrip.CreateCoherent | kernel/src/kernel/vfs/fs/initrd.c:11-39 | a lookup by offset gives what a fresh parse gives and keeps the cache coherent; it smashes a buffer iff the record is not cached and its name is long |
| InitrdRoundTrip.WalkCoherent | kernel/src/kernel/vfs/node.c:27-61 | a path walk on any image keeps the cache coherent and only adds nodes, unless it smashes a buffer |
| InitrdRoundTrip.CacheCoherent | kernel/src/kernel/vfs/fs/initrd.c:11-39 | on any image, after any lookups that smash no buffer: one node per offset, each equal to a fresh parse |
| InitrdRoundTrip.StepSmashes | kernel/src/kernel/vfs/fs/initrd.c:86-95 | the search for a component smashes a buffer iff it comes to a child with a long name before it finds a match |
| InitrdRoundTrip.ShortNamesSafe | kernel/src/kernel/vfs/fs/initrd.c:69-96 | on an image without long names no lookup ever does, after any others |
| InitrdRoundTrip.LongNameSmashes | tools/initrd_builder.py:58-67 | a written image whose first directory has a name of 128 bytes or more: every lookup below the root does |
| InitrdRoundTrip.StepFinds | kernel/src/kernel/vfs/node.c:43-56 | the entry loop opens the first child with the name, and fails iff there is none |
| InitrdRoundTrip.ChildIndex | tools/initrd_builder.py:62 | searching a directory's list and searching the tree for that directory and name agree |
| InitrdRoundTrip.LookupsStored | kernel/src/kernel/vfs/node.c:11-62 | no sequence of lookups on a stored tree's image smashes a buffer or loses the root |
| InitrdRoundTrip.RelativeIsNull | kernel/src/kernel/vfs/node.c:13-16 | on every image a path without a leading slash gives NULL and leaves the node list as it was |
| InitrdRoundTrip.RoundTrip | kernel/src/kernel/vfs/node.c:11-62 | for every stored tree, any earlier lookups and any path at all: the node of exactly what the path names in the tree, or NULL when it names nothing |
| InitrdRoundTrip.ReadExactly | kernel/src/kernel/vfs/fs/initrd.c:98-108 | a read returns exactly the file's slice iff the offset is past the end or offset + size does not wrap |
| InitrdRoundTrip.ReadOverruns | kernel/src/kernel/vfs/fs/initrd.c:101-107 | when the sum wraps, all the bytes asked for are copied, the rest of the file first |
| InitrdRoundTrip.PathParts | kernel/src/kernel/vfs/node.c:28-36 | a directory and a file name joined by a slash are split into these two again |
| InitrdRoundTrip.FileComesBack | tools/initrd_builder.py:48-75 | every file of a stored directory is found by its path and read back byte for byte |
| InitrdWalk.ComponentExactly | kernel/src/kernel/vfs/node.c:43-56 | on every image one component gives NULL without a directory or a match, the first match otherwise, a smashed buffer at a long name before it, and the directory itself when the loop's end wraps |
| InitrdWalk.WalkFollows | kernel/src/kernel/vfs/node.c:27-59 | the character loop follows the components one after the other |
| InitrdWalk.ResolveFollows | kernel/src/kernel/vfs/node.c:11-62 | on every image: NULL without a leading slash or a node, else the walk along the first eight components |
| InitrdWalk.RootExactly | kernel/src/kernel/vfs/fs/initrd.c:41-67 | a bad head, a bad root record or a root that is a file make every lookup NULL; otherwise the root is the first node |

## Left out

- Port I/O, interrupt tables, serial line, VGA, PCI, keyboard, terminals and formatted printing.
- String and memory helpers: strcmp, memcpy and memset are taken to do what their names say.
- Clist.Clist.Init: a failed allocation, which the code would dereference, is not modelled; freed nodes are not reused.
- Clist.Clist.InsertAfter: the same.
- Clist.Clist.LinkBehind: the same.
- Scheduler.Scheduler.Create: the same, for the task's node and its two stacks.
- Heap pages beyond the two tables in use, and the memory contents of plain heap blocks.
- `task_delete` apart from the ring and the pages: stacks and tables are not given back in the model, and `free_page_directory`, `free_page_table` and `unbind_table` are not part of it.
- Extended kernel pages: `set_page_to_bitmap` ignores its bitmap argument, so these share bits with the main bitmap.
- Queues on top of `clist`: deleting the head reorders them, see Clist.HeadDeletionReorders.
- Sequential reads and the file table: `initrd_read` leaves the offset alone, so reads are modelled at a given offset.
- Mounting of devfs over an initrd node, and directories below the first level, which the builder drops. Files directly under the root get a record but no link, so a path to one gives NULL, as InitrdRoundTrip.RoundTrip says.
- The directory walk and the filters of the builder: the tree is an input, and `st_size` is taken to be the length of the file's data.
- Parsing of the ELF header and of program headers from bytes: segments are given as records.
- Slist.StaticList.InsertAfter: a NULL list argument is not modelled; elements are slot numbers, not addresses, and a position comes with its ghost index.
- HeapRuns.RunRefines: its requests are positive and fit; HeapRuns.KmallocKeepsInv says what happens otherwise.
- Sched.Enabled: the idle task neither exits nor receives, and a task inside krecive makes no other system call; Finish is atomic by assumption.
- SchedFair.RoundRobin: runs without task creation, because each creation lengthens the ring.
- SchedTight.WaitIsExact: that no smaller number of ticks is enough is claimed for states in which the waiting tasks in between are the first with their number; with repeated numbers only the upper bound is.
- SchedMessages.Conservation: what an exiting task had not received is gone with it, so the balance is for tasks still in the ring.
- Context.SwitchTransparent: flags are not part of it, see Context.FlagsLost; one privilege level, and segment registers are the same for all tasks.
- ContextRuns.Transparent: page directories are not switched in the model; stacks of different tasks are disjoint, have room for one frame, and the handler's own calls stay inside the interrupted one.
- PagingRuns.NoPageTwice: allocations are at addresses outside the kernel range; see Paging.AllocReserves for the others. Exact page counts for an address bound twice are not claimed.
- Mmu.Mmu.BindPage: the table and the bitmap are different arrays, which has to be required here; the user bit and unused entry bits are not modelled beyond what the code writes.
- ElfLoad.LoadCorrect: one table of 32 entries, segments on separate pages, and segments within the mapped pages; ElfLoad.LoadsExactly says for one segment what happens otherwise. The tail of a partly filled segment is not zeroed by the code and not claimed to be.
- ElfUnload.GivesBack: for segments on separate pages; a page bound over another one is lost to the bitmap.
- ElfLoad.LoadsExactly: entries behind the 32nd, which are other heap memory to the processor, count as absent.
- InitrdRoundTrip.RoundTrip: names are bytes, not empty, shorter than 128, without slash or zero and different within a directory; the builder counts characters, not bytes, of other names. Bytes outside the image read as 0.
- Vfs.Vfs.Create: what a name written past its buffer overwrites is not modelled; nothing is said of what follows.
