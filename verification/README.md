# Verification of the kernel

These Dafny modules model the parts of the kernel that carry state and prove what they promise their callers: every
process has a memory of its own, whatever is shared, copied and swapped underneath; the structures that this rests on
stay sound; and the protocols between processes hold over all interleavings.

`dafny verify dfyconfig.toml` checks everything.

## Structure

- `RbShapes`, `RbLinks`, `RbInsertAlgebra`, `RbDeleteAlgebra`, `RbTree`: the red-black tree of `kern/libs/rb_tree.c`,
  with parent pointers and the two sentinels `nil` and `root`. `RbShapes` has trees and tree contexts as values,
  `RbLinks` says when linked nodes spell out such a tree, the two algebra modules say what rotations and recolourings
  do to order, colours and black heights, and class `RbTree` has the operations on the nodes. The nodes are intrusive
  in the source; here the class `Vma` of a memory area has the links itself.
- `Areas`, `Vmm`: the memory areas of an address space (`kern/mm/vmm.c`). `Areas` has them as values; class `Mm` holds
  the list, the tree and the cache of one address space. `Lists` has the operations of `libs/list.h` on sequences, and
  `Defs` the shared constants.
- `Blocks`, `Buddy`: the buddy allocator (`kern/mm/buddy_pmm.c`). `Blocks` has the arithmetic of aligned blocks, the
  bit operations on page indices and the theorem on the canonical form; class `Buddy` has page descriptors, free lists
  and counters.
- `Paging`, `PagingSteps`, `Swap`, `Fault`: demand paging, copy-on-write and swap (`kern/mm/swap.c`, `kern/mm/pmm.c`,
  `do_pgfault` of `kern/mm/vmm.c`). `Paging` has the state, its invariant `Inv` and the function `View`, which is what
  each page of each address space holds. `PagingSteps` shows for every small step that it keeps `Inv` and what it does
  to `View`. Class `Memory` of `Swap` and the methods of `Fault` are the operations of the kernel, composed of those
  steps.
- `Spaces`: areas and pages together. Pages lie only in areas, and writable ones only in areas with `VM_WRITE`; so
  unmapping, fork, exit, loads and stores are stated for the whole memory of an address space. `Kernel` has all
  address spaces, and shows that this holds in every run.
- `Runs`: any number of steps of any processes and of the swap daemon refine a machine that has one private memory for
  each address space, and has neither frames nor swap space nor sharing; and what a process sees in that machine.
- `Pids`, `Timers`, `Scheduler`: pid allocation (`kern/process/proc.c`), the delta-encoded timer list and the run
  queues (`kern/schedule/`).
- `FreeLists`, `Malloc`: the user heap (`user/libs/malloc.c`). `FreeLists` has the free blocks as values, class `Heap`
  the circular list in the memory that it manages.
- `SlabSizes`, `SlabSteps`, `Kmalloc`: the slab allocator (`kern/mm/slab.c`). `SlabSizes` has the sizing arithmetic,
  `SlabSteps` what holds of all slabs and how single steps keep it, class `Allocator` the operations.
- `Philosophers`, `Mailbox`: semaphores with the dining philosophers, and the close protocol of mailboxes
  (`kern/sync/`), as protocols over all interleavings.

## Findings

- `do_pgfault` can return 0 without having mapped the page. `ret` is set to `-E_NO_MEM`, but swap_in_page overwrites
  it with 0 (kern/mm/vmm.c:727), and the missing frame is noticed only after that (kern/mm/vmm.c:741). This happens if
  and only if `Fault.Unserved` holds: a store to a page in swap space that others have, too, with the page in memory
  or read, and no frame for the copy. `Fault.StoreInVain` is an example. The process retries the access, so no memory
  is wrong.
- pgdir_alloc_page does not clear the frame that it maps (kern/mm/pmm.c:464-474). That a process sees only what is its
  own therefore fails: `Runs.Leak` is a run in which one process loads what another one has stored. It holds for a
  load if and only if the page was there before (`Runs.LoadResults`); everything else that a process sees is its own
  (`Runs.SeesOwn`).
- `shmem_malloc` can hand out a block and keep it in the list of free ones, so that somebody else gets it, too. The
  loop of malloc_locked may ask for memory twice (user/libs/malloc.c:111-117), and the second region may end just
  where the free block begins on which the loop stands. Then free_locked takes that block over
  (user/libs/malloc.c:131-134), and `prevp->s.ptr = ...` (user/libs/malloc.c:99, user/libs/malloc.c:102) writes to a
  header that is in no list any more. `Malloc.Overlaps` is the exact condition, `Malloc.OverlapHappens` an example;
  `malloc` is safe, because sys_brk only gives memory above the break (`Malloc.BrkSafe`).
- `size + sizeof(header_t) - 1` wraps around for the last 63 sizes below 2^32 (user/libs/malloc.c:90): the block is
  too small just for those (`Malloc.UnitsEnough`).
- `ipc_mbox_recv` puts a message that it cannot store back by the id of the mailbox (kern/sync/mbox.c:450), without
  counting as a caller inside. So a message may get into a later opening than the one that it was sent in, and there
  may be more messages than slots. In a run the first never happens if and only if no put-back finds the mailbox in
  another opening (`Mailbox.OwnMessagesIff`, example `Mailbox.Crossing`); the second never happens if and only if no
  put-back finds all slots in use (`Mailbox.InSlotsIff`, example `Mailbox.Overfilling`).

## Model

| member | source | states |
|---|---|---|
| RbTree.RbTree.Insert | kern/libs/rb_tree.c:113-172 | the old in-order sequence with the new node behind all nodes whose key is not larger; order, links, no red-red edge, equal black heights and a black nil are kept |
| RbTree.RbTree.Delete | kern/libs/rb_tree.c:246-328 | exactly the given node, by identity, leaves the in-order sequence and the tree is red-black again, although the fixup keeps a root it read before its rotations |
| RbTree.RbTree.Search | kern/libs/rb_tree.c:232-240 | a node with the key if there is one, the highest of several, else null |
| RbTree.RbTree.Next | kern/libs/rb_tree.c:179-199 | the following node in order, null behind the last; climbing needs no test for the root sentinel because its right child is nil |
| RbTree.RbTree.Prev | kern/libs/rb_tree.c:205-225 | the preceding node in order, null before the first |
| Vmm.Mm.FindVma | kern/mm/vmm.c:112-141 | the first area that ends behind the address, whichever of cache, tree and list answers |
| Vmm.Mm.InsertVmaStruct | kern/mm/vmm.c:181-230 | an area that overlaps no other is added at its place; list, tree, cache and count agree; there is a tree afterwards just when there was one, or there are 32 areas and it could be made |
| Vmm.Mm.RemoveVmaStruct | kern/mm/vmm.c:233-245 | the area leaves list, tree and cache, and nothing else does |
| Vmm.Mm.MmMap | kern/mm/vmm.c:269-298 | 0 just when the pages that hold an address of [addr, addr + len) are user memory and free and there is memory; then just these pages have the flags, else nothing changes; where addr + len exceeds 2^32 - 4096 the same for the range as it is rounded |
| Vmm.Mm.MmUnmap | kern/mm/vmm.c:332-393 | on success just the pages that hold an address of [addr, addr + len) are unmapped; -E_NO_MEM just when an area has to be split without memory; no change on failure; the ranges for unmap_range cover just what was mapped |
| Vmm.Mm.MmBrk | kern/mm/vmm.c:459-481 | on success just these pages are mapped for reading and writing; it fails just when `BrkFails` says, and then nothing has changed or the range is unmapped |
| Vmm.Rounded | kern/mm/vmm.c:272 | rounding down and up never moves an address by a page, and never the wrong way |
| Vmm.Mm.GetUnmappedArea | kern/mm/vmm.c:437-457 | the highest free range of that length in user memory, 0 if there is none |
| Vmm.UserMemCheck | kern/mm/vmm.c:483-508 | true just when the access is allowed at every address of the range, a write also not on the guard page of a stack; without an address space just for kernel memory |
| Vmm.PermitsFlags | kern/mm/vmm.c:494-502 | an access is allowed just when the flags of its address have VM_READ or VM_WRITE, but for a store into the lowest page of a stack |
| Areas.CutOut | kern/mm/vmm.c:353-391 | what the two loops of mm_unmap leave of the overlapping areas is the old mapping without the range, and the parts cut off are just what was mapped in it |
| Areas.FlagsCut | kern/mm/vmm.c:353-391 | trimming the overlapping areas unmaps just the addresses of the range |
| Blocks.RunInBlock | kern/mm/buddy_pmm.c:159-186 | in canonical form every aligned run of free pages lies inside one free block |
| Blocks.SamePagesSameBlocks | kern/mm/buddy_pmm.c:159-186 | the free pages determine the free blocks |
| Blocks.XorIsBuddy | kern/mm/buddy_pmm.c:170 | flipping the bit of the order gives the index of the buddy |
| Blocks.AndIsFirst | kern/mm/buddy_pmm.c:178 | the common bits of the two indices are the index of the joined block |
| Blocks.AndIsBit | kern/mm/buddy_pmm.c:199 | the bit of the order tells whether the rest is aligned to twice the size |
| Buddy.Buddy.InitMemmap | kern/mm/buddy_pmm.c:53-79 | the pages of the new zone are free, in blocks of canonical form |
| Buddy.Buddy.AllocPages | kern/mm/buddy_pmm.c:94-130 | NULL just when there is no aligned free run of the order that n needs; else exactly n free pages are taken, from a block of the least order that is large enough |
| Buddy.NoBlockNoRun | kern/mm/buddy_pmm.c:94-118 | empty lists from an order on mean that there is no aligned free run of that order |
| Buddy.Buddy.FreePages | kern/mm/buddy_pmm.c:189-217 | exactly the n pages become free, and the blocks are in canonical form again |
| Buddy.Buddy.NrFreePages | kern/mm/buddy_pmm.c:220-227 | the number of free pages |
| Buddy.SameFreeSameBlocks | kern/mm/buddy_pmm.c:159-227 | two states with the same free pages have the same free blocks, lists and counters |
| Buddy.Buddy.AllocAndFree | kern/mm/buddy_pmm.c:121-217 | what is allocated and freed again leaves the same free blocks and counters |
| Swap.Memory.constructor | kern/mm/swap.c:158-189 | the invariant holds at first |
| PagingSteps.CowExclusive | kern/mm/vmm.c:739-746 | the frame of a writable entry has one user: page_ref and swap_page_count add up to 1 |
| PagingSteps.OneUser | kern/mm/vmm.c:740 | the two counts add up to 1 just when no other entry stands for the page |
| PagingSteps.SlotBound | kern/mm/swap.c:354-358 | the count of a slot that is held is in range, so that swap_duplicate and swap_remove_entry do not fail |
| PagingSteps.Store | kern/mm/vmm.c:716-752 | a store through a writable entry changes one page of one address space |
| Swap.Memory.TryAllocSwapEntry | kern/mm/swap.c:285-320 | an unused slot without any change; only if there is none, one that no entry holds, whose frame loses it and is free again if nothing maps it; 0 just when every slot is held; no memory changes |
| Swap.Memory.SwapRemoveEntry | kern/mm/swap.c:324-339 | the slot is counted down, and given up with its frame when nothing uses it any more |
| Swap.Memory.SwapInPage | kern/mm/swap.c:362-407 | the frame that has the entry afterwards, or the error that the failing call leads to; no memory changes, even on failure |
| Swap.Memory.SwapOutPte | kern/mm/swap.c:531-561 | an accessed entry only loses PTE_A; another one becomes a swap entry just when its frame has one or a slot is left |
| Swap.Memory.SwapOutVma | kern/mm/swap.c:517-568 | from `addr` on each present entry without PTE_A goes out, unless there is no slot for it, and the others lose PTE_A, up to `require` entries or the end of the area; all other entries are as before; swap_address is behind the last one; no memory changes |
| Swap.Memory.SwapOutMm | kern/mm/swap.c:571-608 | the areas are visited so in one round from swap_address on, the first one again at the end; each entry is what its number of visits makes of it; fewer than `require` entries go out only after the whole round |
| Swap.Memory.PageLaunder | kern/mm/swap.c:457-496 | just the inactive frames become free that have no references and need no write, or could be written; those with references become active, the others stay, in their order; no memory changes |
| Swap.Memory.RefillInactiveScan | kern/mm/swap.c:499-514 | just the active frames without references become inactive, in their order |
| Fault.PageRemovePte | kern/mm/pmm.c:390-412 | the page leaves one address space and nothing else changes |
| Fault.PageInsert | kern/mm/pmm.c:430-450 | the page is the contents of the frame, be it mapped there already or not; what else was mapped there is given up |
| Fault.UnmapRange | kern/mm/pmm.c:476-492 | the pages of the range are gone, and nothing else changes |
| Fault.CopyRange | kern/mm/pmm.c:510-546 | 0 just when each page that is there gets a page table; then the child's pages of the range hold what the parent's do, else those before the first one without a table; nothing else changes |
| Fault.DoPgfault | kern/mm/vmm.c:640-758 | the access is served just when the area allows it and the page is there, cached, or can be read into a frame, and for a store nobody else has it or there is a frame for the copy; a page that serves it is always served; the errors exactly, and 0 in vain just when `Unserved`; no memory changes but for a page that was not there |
| Fault.PgdirAllocPage | kern/mm/pmm.c:464-474 | a frame that was free is mapped as it is; it fails just without a table or a free frame |
| Fault.StoreInVain | kern/mm/vmm.c:726-743 | a state in which a store gets 0 from do_pgfault and its page is not mapped |
| Fault.LoadAccess | kern/mm/vmm.c:640-758 | a load succeeds just when its page serves it or do_pgfault can; it gives the contents of its page and changes nothing else |
| Fault.StoreAccess | kern/mm/vmm.c:640-758 | the same for a store, which changes its own page, or nothing |
| Spaces.Unmap | kern/mm/vmm.c:332-393 | areas and pages that hold an address of the range are gone, all others are as before; the errors exactly |
| Spaces.Map | kern/mm/vmm.c:269-298 | the pages that hold an address of the range are mapped and not there yet, all other pages are in their areas as before |
| Spaces.Brk | kern/mm/vmm.c:459-481 | the pages that hold an address of the range are mapped anew and not there yet; it fails just when `BrkFails` says |
| Spaces.UserLoad | kern/mm/vmm.c:640-690 | a load succeeds just when its page serves it, or its address is in an area that allows it, not on the guard page of a stack, and do_pgfault can |
| Spaces.UserStore | kern/mm/vmm.c:640-690 | the same for a store, only in memory mapped for writing; it changes its own page or nothing |
| Spaces.ExitMmap | kern/mm/vmm.c:422-430 | no page of the address space is left, and nothing else changes |
| Spaces.DupMmap | kern/mm/vmm.c:395-420 | 0 just when all areas and all page tables are allocated; then the child has the areas and the memory of its parent |
| Spaces.CopyMm | kern/process/proc.c:328-383 | nothing for a kernel thread, the same areas for CLONE_VM, else the areas and the memory of the parent; it fails just when an allocation does, and then nothing has changed |
| Kernel.System.DoFork | kern/process/proc.c:328-383 | the same over all address spaces: the others keep their areas and pages; it fails just when an allocation does |
| Kernel.System.DoSwapOut | kern/mm/swap.c:571-608 | when fewer than `require` pages go out, each page of the address space has gone, or had PTE_A and has lost it, or there is no slot for it |
| Kernel.System.Run | kern/mm/vmm.c:269-481 | every run of any processes and of the swap daemon takes just the steps of `WorldRun`, with the same results; at all times, in every address space, pages are only in areas, writable ones only in areas with VM_WRITE |
| Runs.Run | kern/mm/swap.c:96 | every run keeps the invariant and is a run of the machine with private memories, with the same results of loads and stores |
| Runs.Isolation | kern/mm/vmm.c:640-758 | in no run do the steps of others change the memory of a process |
| Runs.SeesOwn | kern/mm/vmm.c:640-758 | in every run the results of loads and the memory of a process are those of a machine with its address space alone, given its own steps, the forks into it and the contents of new pages |
| Runs.NothingElseSeen | kern/mm/vmm.c:640-758 | two runs with the same items for a process give it the same results and the same memory |
| Runs.LoadResults | kern/mm/pmm.c:464-474 | a load can give only what the process had there if and only if the page was there before |
| Runs.Leak | kern/mm/pmm.c:464-474 | a run in which a process gets what another one has stored and unmapped |
| FreeLists.FreedOk | user/libs/malloc.c:121-148 | with the new block the list is in address order, disjoint, and no two blocks of one type touch |
| FreeLists.FreedUnits | user/libs/malloc.c:131-145 | a unit is free afterwards just when it was or is in the block |
| FreeLists.TakenUnits | user/libs/malloc.c:97-107 | the units of the block that is found were free and are not any more; no other unit changes |
| Malloc.Heap.Free | user/libs/malloc.c:121-148 | exactly the units of the block become free; the list stays linked around, in order, joined, and apart from what is in use |
| Malloc.Heap.MallocLocked | user/libs/malloc.c:79-119 | the next free block that will do behind freep; NULL just when there is none and the region that is then asked for is refused; the heap is sound afterwards if and only if the two regions do not lie as `Overlaps` says, and then what was free or came from the kernel is free or in the block |
| Malloc.Heap.Malloc | user/libs/malloc.c:150-166 | the same for bytes; malloc keeps the heap sound always, shmem_malloc just when the regions do not overlap |
| Malloc.Heap.Write | user/libs/malloc.c:15-27 | writing into a block in use leaves the list as it is |
| Malloc.OverlapHappens | user/libs/malloc.c:96-118 | a sound heap and two regions that meet the condition |
| Malloc.OverlapCall | user/libs/malloc.c:96-118 | the call of shmem_malloc there hands out a block that stays in the list |
| Malloc.BrkSafe | user/libs/malloc.c:45-63 | memory from sys_brk never leads to that |
| Malloc.UnitsEnough | user/libs/malloc.c:90 | in 32-bit arithmetic the units are enough for `size` bytes just when size is at most 2^32 - 64, and never one too many |
| SlabSizes.CacheEstimate | kern/mm/slab.c:152-177 | the largest number of objects that fits into the slab with its control structure |
| SlabSizes.CalculateSlabOrder | kern/mm/slab.c:186-211 | the first order whose slabs hold an object and waste at most an eighth; no result just when the source panics |
| SlabSizes.SlabInit | kern/mm/slab.c:108-118 | no cache panics; the objects fit, and control structures outside are objects of caches that have theirs inside |
| Kmalloc.Allocator.Kmalloc | kern/mm/slab.c:351-386 | an address that no caller has, and no new page while a slab has room; NULL just when a slab is needed and there are no pages for it or for its control structure; then nothing has changed |
| Kmalloc.Allocator.Kfree | kern/mm/slab.c:410-457 | just that object is given back; a slab without objects goes, with its control structure |
| Kmalloc.Allocator.LiveApart | kern/mm/slab.c:296-429 | what two callers of kmalloc have does not overlap, for the sizes that they asked for |
| Kmalloc.Allocator.LiveOutside | kern/mm/slab.c:296-429 | nor does any of it overlap a control structure, wherever that is |
| Kmalloc.Allocator.ControlsDisjoint | kern/mm/slab.c:260-278 | control structures do not overlap each other, inside or outside their slabs |
| Kmalloc.Allocator.OnItsList | kern/mm/slab.c:337-429 | a slab is on slabs_full if and only if all its objects are in use, and no slab is without one |
| Kmalloc.Allocator.AllReturned | kern/mm/slab.c:390-429 | when everything has been freed no slab has a page |
| Pids.ProcTable.GetPid | kern/process/proc.c:170-202 | the first free pid behind the last one, around the end; the search ends, and no live pid lies between the cursors |
| Pids.ProcTable.Fork | kern/process/proc.c:463-512 | a pid that no process has; -E_NO_FREE_PROC just when there are MAX_PROCESS, else -E_NO_MEM just without memory |
| Pids.PassOne | kern/process/proc.c:187-194 | passing a live pid comes closer to a free one and never goes around it |
| Timers.TimerList.AddTimer | kern/schedule/sched.c:112-132 | the timer goes behind all that fire no later, no other deadline moves, and sums stay within 32 bits |
| Timers.TimerList.DelTimer | kern/schedule/sched.c:134-151 | the other timers keep their deadlines |
| Timers.TimerList.RunTimerList | kern/schedule/sched.c:153-183 | just the timers due in one tick fire, in their order, and all others come one tick closer |
| Timers.FiresOnTime | kern/schedule/sched.c:112-183 | in every run a timer fires at its tick and at no earlier one, unless it is deleted |
| Timers.Run | kern/schedule/sched.c:112-183 | any calls of add_timer, del_timer and run_timer_list, in any order, are such a run |
| Scheduler.Sched.Schedule | kern/schedule/sched.c:87-110 | the first of the highest level that has a process runs next; on the first level that is who was first before the call, whatever becomes of the current process; the idle process runs only if nobody else could |
| Scheduler.Sched.WakeupProc | kern/schedule/sched.c:67-85 | the process is runnable, and on a queue unless it is the current one |
| Scheduler.Sched.Enqueue | kern/schedule/sched_MLFQ.c:17-29 | the process is the last one of the first queue, or one level down when its slice is used up, up to the last level; a slice within the level is kept, else it is the whole one |
| Scheduler.Sched.ProcTick | kern/schedule/sched_RR.c:39-48 | the slice counts down, at its end the process is to be rescheduled |
| Scheduler.Sched.Run | kern/schedule/sched.c:67-110 | every run takes just the steps of `SchedRun`; a process is on exactly one queue, once, just when it could run and does not; counts and slices are right |
| Scheduler.RunOrder | kern/schedule/sched_RR.c:13-37 | in every run, whoever is in front of another one on a queue stays there until one of them leaves it |
| Scheduler.RunsInTurn | kern/schedule/sched.c:87-110 | in every run, the process behind n others on the first level is the one that runs after n + 1 calls of schedule |
| Philosophers.Semaphore.Up | kern/sync/sem.c:60-77 | the first who waits leaves the queue and is granted his down, else the value is one more; somebody waits only at 0, and the ups account for the downs |
| Philosophers.Semaphore.Down | kern/sync/sem.c:79-102 | granted just when the value is positive, else the process is the last one of the queue |
| Philosophers.StepKeeps | kern/sync/check_sync.c:84-110 | every statement of every philosopher keeps the invariant |
| Philosophers.NeighboursApart | kern/sync/check_sync.c:84-92 | neighbours never eat at the same time |
| Philosophers.NeighboursAre | kern/sync/check_sync.c:8-9 | the neighbours are those that the source computes modulo the number of philosophers |
| Philosophers.HungryWaitsForEater | kern/sync/check_sync.c:84-110 | whenever the mutex is free, everyone who is hungry has a neighbour who eats |
| Philosophers.NoDeadlock | kern/sync/check_sync.c:94-110 | somebody can always go on |
| Philosophers.TakesForks | kern/sync/check_sync.c:94-101 | with the mutex free and no neighbour eating, a philosopher who takes his six statements eats |
| Philosophers.PutsForks | kern/sync/check_sync.c:103-110 | with the mutex free and no neighbour hungry, the next five bring him back to thinking, and nothing else has changed |
| Philosophers.Dining.Run | kern/sync/check_sync.c:84-110 | all of this for any number of philosophers from two on, in any order of their statements, each of which is the next one of its philosopher |
| Mailbox.Mbox.Send | kern/sync/mbox.c:244-283 | the message is at the end of the queue just when a slot was free, and the first waiting receiver is woken; else the caller is the last of the waiting senders |
| Mailbox.Mbox.Recv | kern/sync/mbox.c:354-393 | the first message, and the first waiting sender is woken; a message that is too big stays, and the next receiver is woken; without one the caller is the last of the waiting receivers |
| Mailbox.Mbox.Resume | kern/sync/mbox.c:244-393 | a woken sleeper does what its call does with its own message or buffer size, and another one leaves with nothing done; it goes on in the opening that it came into; the last one to leave a closing mailbox gives it back |
| Mailbox.Mbox.Close | kern/sync/mbox.c:463-488 | the messages are gone and everybody inside may run; with nobody inside the mailbox is given back at once |
| Mailbox.Mbox.Finish | kern/sync/mbox.c:434-460 | a message that has been received is stored, or is in front of the queue again just when the mailbox is open |
| Mailbox.Mbox.NoLostMessage | kern/sync/mbox.c:96-122 | while a message is there and a receiver waits, another one has been woken for it |
| Mailbox.Mbox.NoLostSlot | kern/sync/mbox.c:109-122 | while a slot is free and a sender waits, another one has been woken for it |
| Mailbox.Mbox.Run | kern/sync/mbox.c:85-488 | every run takes just the steps of `BoxRun`, with the same results; each opening ends at most once, with nobody inside |
| Mailbox.BoxSnaps | kern/sync/mbox.c:85-488 | such a run moves messages as `SnapRun` says |
| Mailbox.OwnMessagesIff | kern/sync/mbox.c:450-458 | in a run all queued messages belong to the present opening if and only if no put-back comes from an earlier one |
| Mailbox.Crossing | kern/sync/mbox.c:450-458 | a run in which a message of the first opening is in the queue of the second one |
| Mailbox.InSlotsIff | kern/sync/mbox.c:450-458 | in a run there are never more messages than slots if and only if no put-back finds all slots in use |
| Mailbox.Overfilling | kern/sync/mbox.c:450-458 | a run with two messages in a mailbox of one slot |

## Left out

- Hardware: TLB, CR3, port I/O and traps. Kernel functions run to the point where they sleep; the philosophers'
  statements and the mailbox's steps may be interleaved in any way beyond that.
- Shared mappings (VM_SHARE): the paging modules are about private memory, and areas have no shmem pointer.
- A step between the return from a page fault and the retried access: page_insert on the page that is mapped already
  drops PTE_D (kern/mm/pmm.c:438-447), so contents are kept only if the two go together.
- swap_in_page and page_launder do not sleep here: the second look into the hash table (kern/mm/swap.c:379) and the
  test of page_ref after the write (kern/mm/swap.c:481) find what the first ones found.
- Allocation failures and failures of swapfs are parameters: `Luck` of a page fault, `ForkLuck` of a fork, the slots
  that page_launder cannot write, and `memory` or `split` of the operations on areas.
- Whether rb_tree_create succeeds (kern/mm/vmm.c:219) is a parameter of insert_vma_struct, and an arbitrary choice in
  the operations above it.
- Where swap_out_mm begins (mm->swap_address) is a parameter, and its new value a result.
- Fault.StoreAccess: does not model bytes of a page: a store replaces the whole page, so that a short store into a new
  page leaves the rest as it was in the frame is not seen here.
- Fault.CopyRange: does not model the copying of a range with VM_SHARE, because mappings are private.
- Page tables themselves: get_pte may fail when a table is missing, tables are not counted as frames, and exit_range
  is not modelled.
- mm_destroy, copy_from_user and copy_to_user; kswapd's choice of address spaces; check functions.
- The addresses of `struct Page`, and thereby page2kva and its inverse: frames are numbers.
- Requests at which the source panics: buddy frees of 2048 pages or more, orders above MAX_ORDER, kmalloc of 0 or of
  more than 128 kilobytes.
- Spaces.ExitMmap: does not model exit_range, which gives back page tables.
- Spaces.DupMmap: does not model the reference counts of shared memory objects, because mappings are private.
- Linked lists are sequences of their elements, since every element is on one list of its kind at a time; the free
  lists of the buddy system and the lists of the swap daemon are sequences of page numbers.
- The hash list of processes, thread groups, wait_state and exit codes.
- Timeouts and kills in the mailbox are arbitrary wake-ups; the segments of a message are not modelled.
- Locks and forks around the user heap. The rounds of the loop of malloc_locked are methods of their own; the header
  `base` is below all regions, and the break is known from the start.
- Slabs: slab_allocated; control structures are kept by address, apart from the bytes of the pages that `LiveOutside`
  shows nobody else has. Nothing happens between the growth of a cache and the second look at its list.
