# RT-Thread kernel model

A Dafny model of the RT-Thread 4.0.1 kernel as it is built for a single core:
its three allocators, the hard timers, the scheduler with its thread states,
the mutex, event, mailbox and message queue, and the bounded formatter. Each
part is a pair: values and functions that say what an operation does, with the
properties proved about them, and a class (or a method over a buffer) that
updates its fields in place the way the C code does, proved to do just that.

| file | part |
|---|---|
| `memheap_spec.dfy`, `memheap_proofs.dfy`, `memheap_theorems.dfy`, `memheap_blocks.dfy`, `rings.dfy`, `memheap.dfy` | the memory heap: blocks and free list, what is kept, whole runs, the blocks in use, linked rings, headers in a pool |
| `smallmem_spec.dfy`, `smallmem_proofs.dfy`, `smallmem_theorems.dfy`, `smallmem_blocks.dfy`, `smallmem.dfy` | the small-memory allocator: block chain, what is kept, whole runs, the blocks in use, headers in a region |
| `pages.dfy`, `pages_object.dfy`, `zones.dfy`, `zones_object.dfy`, `slab.dfy` | the slab allocator: page runs, then zones and chunks, then both under one usage table |
| `timer.dfy`, `timer_runs.dfy`, `timer_calls.dfy`, `timer_object.dfy` | the timer skip list, the firing loop and whole runs, the calls |
| `bits.dfy`, `bitmap.dfy`, `scheduler.dfy`, `scheduler_calls.dfy`, `scheduler_object.dfy` | find-first-set, the ready bitmap, the scheduler and thread states |
| `ipc_list.dfy`, and `mutex`, `event`, `mailbox`, `msgqueue`, each `.dfy` and `_object.dfy`, `msgqueue_waits.dfy` | lists of waiting threads and the four IPC objects |
| `print.dfy`, `print_laws.dfy`, `print_buffer.dfy` | the formatter: its text, what each directive prints, the buffer |
| `list.dfy`, `options.dfy`, `words.dfy` | the kernel's circular list, optional values, 32-bit sizes |

## Reading the model

- Addresses in an allocator are offsets from the start of its region, on a core
  with 32-bit words: headers of 12 (small memory), 24 (memory heap) and 36
  (zone) bytes. `RT_ALIGN` wraps at 32 bits where the code wraps.
- Writing a new header destroys every header it overlaps, and the bytes of a
  written header take unknown values, so that the data of a live block is kept
  only if the proof shows it.
- A critical section, from interrupt-disable to interrupt-enable or from taking
  to releasing the allocator's semaphore, is one step. A run is any sequence of
  steps, and a context switch is a change of the current thread.
- Some calls consist of several critical sections and are one step all the same:
  `rt_timer_start` (take out, then insert), an `rt_realloc` or
  `rt_memheap_realloc` that moves a block (allocate, copy, free), and the slab
  `rt_malloc` and `rt_free`, which let go of the semaphore around the page
  allocator. What other threads do in between is not part of this model there.
- `RT_ASSERT`ed arguments are preconditions; null pointers, refused calls and
  error returns are results.
- Lists of threads and timers are sequences. `list.dfy` proves the linked list
  of `rtservice.h` by itself; no other part is built on its nodes. In the memory
  heap, the page list and the message queue the links themselves are modelled.
- An event word is the set of its one bits.
- History fields (`since`, `born`, `due`, `sent`, `got`, `woken...`) record the
  order of arrival, unbounded deadlines and the like for the statements;
  nothing an operation does depends on them.

## Where the code does not do what one would expect

- `rt_realloc` of the small-memory allocator can leave a free block below
  `lfree` (`SmallMemTheorems.ShrinkLowestIff`, `ShrinkHidesBlock`).
- `rt_malloc` misses an exact fit in the last block (`MissedIsLastExact`,
  `WholeHeapRefused`). On a heap of less than 12 bytes its loop bound wraps, and a
  walk once begun never ends (`WalkEndsIff`, `SmallHeapNeverAnswers`).
- `rt_memheap_alloc` refuses an exact fit of the only free block
  (`MemHeapTheorems.AllocFailsIff`, `WholePoolRefused`).
- `heap_end->prev` is not kept up to date; the model does not promise it.
- The 8-bit `hold` of a mutex wraps when its owner nests 256 deep (`SoundIff`,
  `OverNestedReleasesEarly`), and a handoff does not boost the new owner for those
  still waiting (`StaysUrgentIff`, `FifoHandoffInverts`).
- A one-shot timer restarted in its own callback stays listed without ACTIVATED
  (`RestartedOneShotIsLost`).
- The nesting counter of `rt_enter_critical` is signed and 16 bits wide, against
  the comment beside it: past 0x8000 levels the scheduler is unlocked too early
  (`NestingHoldsIff`, `DeepNestingOpensEarly`).
- Under `RT_IPC_FLAG_PRIO` a thread that starts to wait for an event may overtake
  others, and then get more than by asking later (`BlockThenSendIff`,
  `OvertakerTakesMore`).
- Under a precision of 0 `print_number` leaves out the digits of every number and
  still keeps their place, where section 7.19.6.1 of ISO/IEC 9899:1999 leaves out
  only those of a zero. The field is as wide as it should be when the precision is
  not 0, or the number is 0 in a field no wider than its sign (`NumberWidth`,
  `PrecisionZeroDropsDigits`).

## Model

| member | source | states |
|---|---|---|
| `MemHeapTheorems.RunKeepsInv` | BC_Cap_Sensor_RTT/rt-thread/src/memheap.c:138-595 | in every run of alloc, realloc and free the blocks tile the pool in address order up to the tailer, no two neighbours are free, each has at least RT_MEMHEAP_MINIALLOC data bytes, the free list lists exactly the free blocks, and available_size is the sum of their data |
| `MemHeapTheorems.ListedOnce` | BC_Cap_Sensor_RTT/rt-thread/src/memheap.c:138-595 | a header is on the free list at most once, and it is there exactly when it heads a free block |
| `MemHeapTheorems.Conserved` | BC_Cap_Sensor_RTT/rt-thread/src/memheap.c:50-595 | free data, used data and one header a block, the tailer included, add up to the pool |
| `MemHeapTheorems.AllAvailableIff` | BC_Cap_Sensor_RTT/rt-thread/src/memheap.c:495-595 | available_size is back at its first value exactly when nothing is in use, and then the pool is the single block of rt_memheap_init again |
| `MemHeapTheorems.AllocFailsIff` | BC_Cap_Sensor_RTT/rt-thread/src/memheap.c:138-282 | allocation fails exactly when no free block holds the rounded size or the sum of free data equals it; the only fit refused is an exact fit of the only free block |
| `MemHeapTheorems.WholePoolRefused` | BC_Cap_Sensor_RTT/rt-thread/src/memheap.c:148-156 | a new pool refuses a request for all of its data, which its only block holds |
| `MemHeapTheorems.AllocGives` | BC_Cap_Sensor_RTT/rt-thread/src/memheap.c:138-282 | a successful allocation hands out an aligned block in use, large enough, less than a minimal block too large, and apart from every live block, all of which stay |
| `MemHeapTheorems.FreeUndoesAlloc` | BC_Cap_Sensor_RTT/rt-thread/src/memheap.c:138-595 | freeing what was just allocated restores the blocks and available_size; the block is then first on the free list |
| `MemHeapProofs.TakeAtKeeps` | BC_Cap_Sensor_RTT/rt-thread/src/memheap.c:183-258 | taking a free block, with or without a split, keeps the invariant |
| `MemHeapProofs.FreeAtKeeps` | BC_Cap_Sensor_RTT/rt-thread/src/memheap.c:535-591 | releasing a block, with each combination of merges, keeps the invariant |
| `MemHeapProofs.GrowAtKeeps` | BC_Cap_Sensor_RTT/rt-thread/src/memheap.c:350-402 | growing into the free block above keeps the invariant |
| `MemHeapProofs.ShrinkAtKeeps` | BC_Cap_Sensor_RTT/rt-thread/src/memheap.c:432-485 | cutting a block, with or without a merge above, keeps the invariant |
| `MemHeapProofs.InitialInv` | BC_Cap_Sensor_RTT/rt-thread/src/memheap.c:50-121 | the initial pool satisfies the invariant |
| `MemHeapBlocks.AllocServes` | BC_Cap_Sensor_RTT/rt-thread/src/memheap.c:138-282 | one block comes into use, large enough and less than a minimal block too large, apart from all others; nothing else comes into or goes out of use, and max_used_size is the high-water mark |
| `MemHeapBlocks.AllocTakesFirst` | BC_Cap_Sensor_RTT/rt-thread/src/memheap.c:156-258 | it is the first on the free list that is large enough, and what a split leaves goes to the front |
| `MemHeapBlocks.FreeReleases` | BC_Cap_Sensor_RTT/rt-thread/src/memheap.c:495-595 | free takes just the block at the pointer out of use; a hole without a free block below heads the free list |
| `MemHeapBlocks.ReallocServes` | BC_Cap_Sensor_RTT/rt-thread/src/memheap.c:284-492 | a pointer returned leads to a block in use that holds the new size and less than a minimal block more; the old block is out of use unless it is the same, all others are what they were, and null changes nothing |
| `MemHeapBlocks.ReallocStaysIff` | BC_Cap_Sensor_RTT/rt-thread/src/memheap.c:338-492 | the pointer stays exactly when the block is large enough or has room in a free block behind it; null comes back exactly when it must move and no free block holds the size, or the free data equals it |
| `MemHeapBlocks.UsedDecides` | BC_Cap_Sensor_RTT/rt-thread/src/memheap.c:138-595 | the blocks in use decide where the free ones are |
| `MemHeapObject.MemHeap.constructor` | BC_Cap_Sensor_RTT/rt-thread/src/memheap.c:50-121 | headers, rings and statistics of rt_memheap_init: one free block and the used tailer |
| `MemHeapObject.MemHeap.Alloc` | BC_Cap_Sensor_RTT/rt-thread/src/memheap.c:138-282 | the code over linked headers does what the block list says, returns its address, and keeps the data of every live block |
| `MemHeapObject.MemHeap.Search` | BC_Cap_Sensor_RTT/rt-thread/src/memheap.c:156-180 | the walk of the free list stops at its first block that is large enough, or at the list head if there is none |
| `MemHeapObject.MemHeap.TakeSplit` | BC_Cap_Sensor_RTT/rt-thread/src/memheap.c:188-236 | the split: a new header on the physical list and at the front of the free list, the old one off the free list |
| `MemHeapObject.MemHeap.TakeWhole` | BC_Cap_Sensor_RTT/rt-thread/src/memheap.c:237-258 | no split: the whole block leaves the free list, its data leaves available_size |
| `MemHeapObject.MemHeap.Free` | BC_Cap_Sensor_RTT/rt-thread/src/memheap.c:495-595 | frees RT_NULL or a live block as the block list says; no live data changes |
| `MemHeapObject.MemHeap.MergePrev` | BC_Cap_Sensor_RTT/rt-thread/src/memheap.c:540-557 | the hole is merged downwards exactly when the block below is free |
| `MemHeapObject.MemHeap.MergeNext` | BC_Cap_Sensor_RTT/rt-thread/src/memheap.c:559-578 | the hole is merged upwards exactly when the block above is free, which then leaves both lists |
| `MemHeapObject.MemHeap.Grow` | BC_Cap_Sensor_RTT/rt-thread/src/memheap.c:350-402 | the free block above is unlinked from both lists and rebuilt behind the grown block; live data is kept |
| `MemHeapObject.MemHeap.Shrink` | BC_Cap_Sensor_RTT/rt-thread/src/memheap.c:432-491 | the cut-off rest becomes a free block, joined with a free one above; the data kept and every other live block are untouched |
| `MemHeapObject.MemHeap.Realloc` | BC_Cap_Sensor_RTT/rt-thread/src/memheap.c:284-492 | whichever path is taken the block returned holds the new size, its first min(old, new) bytes survive, the other live blocks are undisturbed, the lists stay sound, and a null result for a non-zero size leaves everything as it was |
| `LinkMaps.InsertAfterNode` | BC_Cap_Sensor_RTT/rt-thread/src/memheap.c:209-213 | the four link writes put a node after another one in a ring |
| `LinkMaps.UnlinkSeg` | BC_Cap_Sensor_RTT/rt-thread/src/memheap.c:215-217 | the two link writes take a node out of a ring |
| `SmallMemTheorems.RunKeepsInv` | BC_Cap_Sensor_RTT/rt-thread/src/mem.c:272-609 | in every run of malloc, realloc and free the chain tiles the heap from 0 to heap_end, no two neighbours are free, lfree is a free header or heap_end, and used_mem is the extent of the used blocks |
| `SmallMemTheorems.RunKeepsLowest` | BC_Cap_Sensor_RTT/rt-thread/src/mem.c:272-609 | with in-place shrinks only where the rest stays visible, lfree is the lowest free block |
| `SmallMemTheorems.ShrinkLowestIff` | BC_Cap_Sensor_RTT/rt-thread/src/mem.c:471-498 | after an in-place shrink lfree is still lowest exactly when a free block lies lower or the block above is free |
| `SmallMemTheorems.ShrinkHidesBlock` | BC_Cap_Sensor_RTT/rt-thread/src/mem.c:471-498 | a run of three calls after which a fitting free block below lfree is not found |
| `SmallMemTheorems.MallocTakesLowest` | BC_Cap_Sensor_RTT/rt-thread/src/mem.c:272-410 | with lfree lowest, on a heap of 12 bytes or more, malloc returns the lowest free block that holds the rounded size, but for an exact fit of the last block, and null only if there is no other |
| `SmallMemTheorems.MissedIsLastExact` | BC_Cap_Sensor_RTT/rt-thread/src/mem.c:305-307 | the only fit the loop bound misses is an exact fit in the last block |
| `SmallMemTheorems.RoundedCovers` | BC_Cap_Sensor_RTT/rt-thread/src/mem.c:288-300 | the rounded size covers the request exactly when RT_ALIGN does not wrap |
| `SmallMemTheorems.WholeHeapRefused` | BC_Cap_Sensor_RTT/rt-thread/src/mem.c:305-307 | a new heap refuses a request for all of its bytes, which its only block holds |
| `SmallMemTheorems.WalkEndsIff` | BC_Cap_Sensor_RTT/rt-thread/src/mem.c:305-312 | a walk that rt_malloc begins comes to its bound or to a block that holds the request exactly when the heap has 12 bytes or more; on a smaller one no step ever ends it |
| `SmallMemTheorems.SmallHeapNeverAnswers` | BC_Cap_Sensor_RTT/rt-thread/src/mem.c:305-312 | a new heap of 8 bytes asked for one byte: no step ends the walk |
| `SmallMemTheorems.FreeUndoesMalloc` | BC_Cap_Sensor_RTT/rt-thread/src/mem.c:272-609 | in any state reached, hidden free blocks included, malloc followed at once by free restores chain, lfree and used_mem |
| `SmallMemTheorems.NothingUsedIsWhole` | BC_Cap_Sensor_RTT/rt-thread/src/mem.c:156-194 | a chain without a used block is one free block of the whole heap |
| `SmallMemTheorems.ZeroUsedIsInitial` | BC_Cap_Sensor_RTT/rt-thread/src/mem.c:546-609 | used_mem is zero exactly when the heap is the initial single free block with lfree at it |
| `SmallMemProofs.MallocFresh` | BC_Cap_Sensor_RTT/rt-thread/src/mem.c:272-410 | the block handed out overlaps no live block and ends inside the heap |
| `SmallMemProofs.FreeAtKeeps` | BC_Cap_Sensor_RTT/rt-thread/src/mem.c:546-609 | releasing a block and plugging holes keeps the invariant, and lowest lfree |
| `SmallMemBlocks.MallocServes` | BC_Cap_Sensor_RTT/rt-thread/src/mem.c:272-410 | one block comes into use, large enough and less than a least block too large, apart from all others; nothing else comes into or goes out of use, and max_mem is the high-water mark |
| `SmallMemBlocks.MallocTakesFirst` | BC_Cap_Sensor_RTT/rt-thread/src/mem.c:305-312 | it is the first from lfree on that passes the test of the walk |
| `SmallMemBlocks.MallocFailsIff` | BC_Cap_Sensor_RTT/rt-thread/src/mem.c:272-410 | null exactly for no bytes, for more than the heap, or when no free block from lfree on holds the size, an exact fit of the last block not counting |
| `SmallMemBlocks.FreeReleases` | BC_Cap_Sensor_RTT/rt-thread/src/mem.c:546-609 | free takes just the block at the pointer out of use, and lfree lies no higher |
| `SmallMemBlocks.ReallocServes` | BC_Cap_Sensor_RTT/rt-thread/src/mem.c:421-511 | a pointer returned leads to a block in use of the aligned size, or one less than a least block larger elsewhere; the old block is out of use unless it is the same, and all others are what they were |
| `SmallMemBlocks.ReallocStaysIff` | BC_Cap_Sensor_RTT/rt-thread/src/mem.c:440-511 | the pointer stays exactly when the size is the same or the block is cut; null comes back exactly when the heap is too small, or the block must move and no free block is available |
| `SmallMemBlocks.ReallocNone` | BC_Cap_Sensor_RTT/rt-thread/src/mem.c:421-511 | a null for a non-zero size changes nothing |
| `SmallMemBlocks.UsedDecides` | BC_Cap_Sensor_RTT/rt-thread/src/mem.c:156-609 | the blocks in use decide where the free ones are |
| `SmallMem.SmallHeap.constructor` | BC_Cap_Sensor_RTT/rt-thread/src/mem.c:204-257 | the two headers rt_system_heap_init writes spell out one free block |
| `SmallMem.SmallHeap.PlugHoles` | BC_Cap_Sensor_RTT/rt-thread/src/mem.c:156-194 | merging forward and backward over the headers gives the plugged chain, lfree follows a header that goes, live data is kept |
| `SmallMem.SmallHeap.Walk` | BC_Cap_Sensor_RTT/rt-thread/src/mem.c:305-312 | the loop finds the first block from lfree on that passes the test, or none |
| `SmallMem.SmallHeap.AdvanceLfree` | BC_Cap_Sensor_RTT/rt-thread/src/mem.c:380-387 | the loop leaves lfree at the next free block, or heap_end |
| `SmallMem.SmallHeap.CutBlock` | BC_Cap_Sensor_RTT/rt-thread/src/mem.c:329-348 | the two headers of a split chain the blocks around it |
| `SmallMem.SmallHeap.Malloc` | BC_Cap_Sensor_RTT/rt-thread/src/mem.c:272-410 | header writes and loops do what the block list says; no live data changes |
| `SmallMem.SmallHeap.Free` | BC_Cap_Sensor_RTT/rt-thread/src/mem.c:546-609 | releases a live block as the block list says; null and foreign pointers change nothing |
| `SmallMem.SmallHeap.Realloc` | BC_Cap_Sensor_RTT/rt-thread/src/mem.c:421-520 | the block returned holds the new size, the first min(old, new) bytes survive, other live blocks keep their data, and null for a non-zero size leaves the heap as it was |
| `CircularList.ListNode.constructor` | BC_Cap_Sensor_RTT/rt-thread/include/rtservice.h:47-50 | a node alone is a ring |
| `CircularList.InsertAfter` | BC_Cap_Sensor_RTT/rt-thread/include/rtservice.h:58-65 | the node follows the given one in the ring |
| `CircularList.InsertBefore` | BC_Cap_Sensor_RTT/rt-thread/include/rtservice.h:73-80 | the node precedes the given one; before the head is the end of the list |
| `CircularList.Remove` | BC_Cap_Sensor_RTT/rt-thread/include/rtservice.h:86-92 | the node leaves the ring and is a ring of its own |
| `CircularList.IsEmpty` | BC_Cap_Sensor_RTT/rt-thread/include/rtservice.h:98-101 | true exactly when the head is alone |
| `CircularList.Len` | BC_Cap_Sensor_RTT/rt-thread/include/rtservice.h:107-119 | the number of nodes besides the head |
| `CircularList.RemoveUndoesInsert` | BC_Cap_Sensor_RTT/rt-thread/include/rtservice.h:58-92 | taking out what was just put in restores the sequence |
| `TimerRuns.RunKeepsInv` | BC_Cap_Sensor_RTT/rt-thread/src/timer.c:296-556 | in every run with a check on every tick the rows are sorted by deadline and then by start, each lies within the rows below, and ACTIVATED says exactly which timers are listed |
| `TimerSpec.DescentIs` | BC_Cap_Sensor_RTT/rt-thread/src/timer.c:342-370 | for any number of rows, in each row the descent ends where a stable insertion of the new deadline goes |
| `TimerSpec.DescentIsLinear` | BC_Cap_Sensor_RTT/rt-thread/src/timer.c:342-380 | the bottom row after a start is what one linear scan of it alone would give |
| `TimerSpec.ScanIs` | BC_Cap_Sensor_RTT/rt-thread/src/timer.c:345-367 | a scan from any timer no later than the new one ends where a scan from the head ends |
| `TimerRuns.UpperRowsAreSubLists` | BC_Cap_Sensor_RTT/rt-thread/src/timer.c:342-391 | every row is a sub-list, in the same order, of each row below |
| `TimerSpec.LaterIs` | BC_Cap_Sensor_RTT/rt-thread/src/timer.c:359-366 | for deadlines less than RT_TICK_MAX/2 apart the wrapping test orders the unbounded deadlines |
| `TimerSpec.ExpiredIs` | BC_Cap_Sensor_RTT/rt-thread/src/timer.c:516 | within that distance the wrapping test says exactly whether the deadline has come |
| `TimerSpec.StartKeeps` | BC_Cap_Sensor_RTT/rt-thread/src/timer.c:296-413 | starting a timer, listed or not, keeps rows, flags and deadlines |
| `TimerSpec.PulledKeeps` | BC_Cap_Sensor_RTT/rt-thread/src/timer.c:121-129 | taking a timer out keeps all rows in order |
| `TimerRuns.CheckFires` | BC_Cap_Sensor_RTT/rt-thread/src/timer.c:494-548 | a check fires exactly the timers that are due, in deadline order, ties in start order |
| `TimerRuns.CheckSettles` | BC_Cap_Sensor_RTT/rt-thread/src/timer.c:494-548 | a one-shot that fired is out and inactive, a periodic one stands at now + init_tick, every other timer is unchanged |
| `TimerRuns.CheckKeeps` | BC_Cap_Sensor_RTT/rt-thread/src/timer.c:494-548 | after a check every listed deadline lies ahead and the flags agree with the lists |
| `TimerRuns.FiresOnTime` | BC_Cap_Sensor_RTT/rt-thread/src/timer.c:494-548 | in a run a timer fires in the tick of its deadline, only one started with init_tick 0 a tick later |
| `TimerRuns.CallbackAgreesIff` | BC_Cap_Sensor_RTT/rt-thread/src/timer.c:530-543 | after a round ACTIVATED agrees with the list unless the callback left the timer listed and it does not re-arm |
| `TimerRuns.RestartedOneShotIsLost` | BC_Cap_Sensor_RTT/rt-thread/src/timer.c:539-543 | a one-shot restarted in its own callback stays listed with ACTIVATED cleared, and rt_timer_stop refuses it |
| `TimerRuns.FiredIs` | BC_Cap_Sensor_RTT/rt-thread/src/timer.c:516-544 | with a callback that leaves timers alone the round is the step the check is made of |
| `TimerCalls.StartSays` | BC_Cap_Sensor_RTT/rt-thread/src/timer.c:296-401 | the timer is active, its deadline init_tick ahead, and listed in just the lowest rows its height says; all other timers are what they were, in their order |
| `TimerCalls.StopSays` | BC_Cap_Sensor_RTT/rt-thread/src/timer.c:422-447 | an active timer is out of every row and not fired by the next check, and all other timers are what they were; any other call is refused and changes nothing |
| `TimerCalls.HeightIs` | BC_Cap_Sensor_RTT/rt-thread/src/timer.c:374-393 | the height is more than j exactly when the low j groups of bits of random_nr are zero |
| `TimerObject.RtTimers.constructor` | BC_Cap_Sensor_RTT/rt-thread/src/timer.c:679-687 | all rows empty |
| `TimerObject.RtTimers.RemoveFromRows` | BC_Cap_Sensor_RTT/rt-thread/src/timer.c:121-129 | the timer is out of every row |
| `TimerObject.RtTimers.Descend` | BC_Cap_Sensor_RTT/rt-thread/src/timer.c:342-370 | the loops over rows and nodes compute the cursors |
| `TimerObject.RtTimers.InsertRows` | BC_Cap_Sensor_RTT/rt-thread/src/timer.c:376-391 | the insertion loop puts the timer into as many of the lowest rows as the low bits of random_nr say |
| `TimerObject.RtTimers.Start` | BC_Cap_Sensor_RTT/rt-thread/src/timer.c:296-413 | the code does what the specification says and keeps the invariant |
| `TimerObject.RtTimers.Stop` | BC_Cap_Sensor_RTT/rt-thread/src/timer.c:422-447 | an active timer leaves its rows; any other is refused |
| `TimerObject.RtTimers.SetTime` | BC_Cap_Sensor_RTT/rt-thread/src/timer.c:469-471 | a new duration leaves rows and deadline alone |
| `TimerObject.RtTimers.SetPeriodic` | BC_Cap_Sensor_RTT/rt-thread/src/timer.c:473-479 | a new mode leaves rows and deadline alone |
| `TimerObject.RtTimers.Check` | BC_Cap_Sensor_RTT/rt-thread/src/timer.c:494-556 | the firing loop ends, with the timers fired in the order of the specification |
| `TimerObject.RtTimers.TickIncrease` | BC_Cap_Sensor_RTT/rt-thread/src/timer.c:494-556 | one tick and its check keep the invariant of whole runs |
| `Bits.FfsIs` | BC_Cap_Sensor_RTT/rt-thread/src/kservice.c:1286-1330 | the table look-up gives the number of the lowest one bit plus one, and 0 for 0 |
| `ReadyBitmap.MarkIs` | BC_Cap_Sensor_RTT/rt-thread/src/scheduler.c:714-718 | setting the bits of a priority marks it and no other, for one level and for two |
| `ReadyBitmap.UnmarkIs` | BC_Cap_Sensor_RTT/rt-thread/src/scheduler.c:802-811 | clearing them unmarks it and no other; the group bit stays while its byte has bits |
| `ReadyBitmap.HighestIs` | BC_Cap_Sensor_RTT/rt-thread/src/scheduler.c:162-183 | the search finds the smallest marked priority, and the group word is zero exactly when none is marked |
| `SchedulerSpec.RunKeepsGood` | BC_Cap_Sensor_RTT/rt-thread/src/scheduler.c:246-925 | every run keeps a ready bit set exactly when its queue is non-empty, each thread in the one queue that fits its state or in none, and a single running thread |
| `SchedulerSpec.InsertKeeps` | BC_Cap_Sensor_RTT/rt-thread/src/scheduler.c:688-722 | insertion keeps all that, and a current thread becomes running instead of queued |
| `SchedulerSpec.RemoveKeeps` | BC_Cap_Sensor_RTT/rt-thread/src/scheduler.c:785-815 | removal leaves the thread in no queue and the bitmap exact |
| `SchedulerSpec.ScheduleKeeps` | BC_Cap_Sensor_RTT/rt-thread/src/scheduler.c:411-523 | rt_schedule keeps all that |
| `SchedulerSpec.ScheduleSettlesIff` | BC_Cap_Sensor_RTT/rt-thread/src/scheduler.c:411-523 | after an unlocked rt_schedule the running thread is at least as urgent as every ready one, exactly when there was a running or ready thread |
| `SchedulerSpec.IdleSettles` | BC_Cap_Sensor_RTT/rt-thread/src/scheduler.c:411-523 | with an idle thread that is ready or running this always holds |
| `SchedulerSpec.StartSettles` | BC_Cap_Sensor_RTT/rt-thread/src/scheduler.c:246-274 | the first thread switched to is a most urgent one |
| `SchedulerSpec.ScheduleRotates` | BC_Cap_Sensor_RTT/rt-thread/src/scheduler.c:430-459 | while threads share the most urgent priority one call moves the line of current thread and queue by one place |
| `SchedulerSpec.EachRunsOnce` | BC_Cap_Sensor_RTT/rt-thread/src/scheduler.c:430-459 | so k calls run each of k sharing threads exactly once and restore the line |
| `SchedulerSpec.NestingHoldsIff` | BC_Cap_Sensor_RTT/rt-thread/src/scheduler.c:855-942 | after n enters the scheduler stays locked until the n-th exit exactly when n is at most 0x8000, and then the n-th exit opens it |
| `SchedulerSpec.DeepNestingOpensEarly` | BC_Cap_Sensor_RTT/rt-thread/src/scheduler.c:855-942 | of 0x8001 levels the first exit opens the lock |
| `SchedulerCalls.ResumeSays` | BC_Cap_Sensor_RTT/rt-thread/src/thread.c:706-739 | a suspended thread becomes ready, last in the queue of its priority, or runs on if it is still current; any other is refused, and no other thread is touched |
| `SchedulerCalls.TimeoutSays` | BC_Cap_Sensor_RTT/rt-thread/src/thread.c:749-772 | a timeout does the same, and then the scheduler runs |
| `SchedulerCalls.SuspendSays` | BC_Cap_Sensor_RTT/rt-thread/src/thread.c:657-695 | a ready or running thread is suspended and in no queue, any other refused; no other thread is touched |
| `SchedulerCalls.PrioritySays` | BC_Cap_Sensor_RTT/rt-thread/src/thread.c:571-612 | the thread has the new priority and the same state, last in the new queue if it was ready; no other thread is touched |
| `SchedulerCalls.StartupSays` | BC_Cap_Sensor_RTT/rt-thread/src/thread.c:288-321 | the thread is ready at its initial priority, last in its queue, and then the scheduler runs if a thread did |
| `SchedulerCalls.ExitSays` | BC_Cap_Sensor_RTT/rt-thread/src/thread.c:80-115 | the thread is closed and in no queue, and then the scheduler runs |
| `SchedulerCalls.DetachSays` | BC_Cap_Sensor_RTT/rt-thread/src/thread.c:331-368 | the thread is closed and in no queue; no other thread is touched |
| `SchedulerCalls.ScheduleSays` | BC_Cap_Sensor_RTT/rt-thread/src/scheduler.c:411-523 | the first thread of the most urgent queue runs unless the current one runs and is strictly more urgent; one that ran goes last in its queue, and all others keep fields and places |
| `SchedulerCalls.ScheduleIdle` | BC_Cap_Sensor_RTT/rt-thread/src/scheduler.c:411-523 | with no thread ready, or while locked, nothing changes |
| `SchedulerObject.RtScheduler.constructor` | BC_Cap_Sensor_RTT/rt-thread/src/scheduler.c:191-239 | empty queues, empty bitmap, nobody running |
| `SchedulerObject.RtScheduler.InsertThread` | BC_Cap_Sensor_RTT/rt-thread/src/scheduler.c:688-722 | queue, table and group word as specified |
| `SchedulerObject.RtScheduler.RemoveThread` | BC_Cap_Sensor_RTT/rt-thread/src/scheduler.c:785-815 | queue, table and group word as specified |
| `SchedulerObject.RtScheduler.GetHighestPriorityThread` | BC_Cap_Sensor_RTT/rt-thread/src/scheduler.c:162-183 | the head of the queue of the smallest marked priority |
| `SchedulerObject.RtScheduler.Schedule` | BC_Cap_Sensor_RTT/rt-thread/src/scheduler.c:411-523 | the switch, or the current thread again |
| `SchedulerObject.RtScheduler.Start` | BC_Cap_Sensor_RTT/rt-thread/src/scheduler.c:246-274 | the first switch |
| `SchedulerObject.RtScheduler.StartThread` | BC_Cap_Sensor_RTT/rt-thread/src/thread.c:288-321 | priority fields set, thread ready, and scheduled if a thread runs |
| `SchedulerObject.RtScheduler.SuspendThread` | BC_Cap_Sensor_RTT/rt-thread/src/thread.c:657-695 | a ready or running thread leaves its queue; any other is refused |
| `SchedulerObject.RtScheduler.ResumeThread` | BC_Cap_Sensor_RTT/rt-thread/src/thread.c:706-739 | a suspended thread becomes ready; any other is refused |
| `SchedulerObject.RtScheduler.TimeoutThread` | BC_Cap_Sensor_RTT/rt-thread/src/thread.c:749-772 | a suspended thread becomes ready and the scheduler runs |
| `SchedulerObject.RtScheduler.ChangePriority` | BC_Cap_Sensor_RTT/rt-thread/src/thread.c:562-612 | a ready thread changes queue, any other only its fields |
| `SchedulerObject.RtScheduler.Exit` | BC_Cap_Sensor_RTT/rt-thread/src/thread.c:80-115 | the current thread closes and another is switched to |
| `SchedulerObject.RtScheduler.Detach` | BC_Cap_Sensor_RTT/rt-thread/src/thread.c:331-372 | the thread is closed and in no queue |
| `SchedulerObject.RtScheduler.EnterCritical` | BC_Cap_Sensor_RTT/rt-thread/src/scheduler.c:855-870 | one level deeper |
| `SchedulerObject.RtScheduler.ExitCritical` | BC_Cap_Sensor_RTT/rt-thread/src/scheduler.c:915-942 | one level up, scheduling at the outermost |
| `IpcList.ListSuspend` | BC_Cap_Sensor_RTT/rt-thread/src/ipc.c:79-122 | at the end, or in front of the first strictly less urgent thread |
| `IpcList.EnlistOrdered` | BC_Cap_Sensor_RTT/rt-thread/src/ipc.c:92-118 | the insertion keeps the list sorted by priority and arrival |
| `IpcList.PositionSays` | BC_Cap_Sensor_RTT/rt-thread/src/ipc.c:79-122 | at the end, or behind those at least as urgent that come first and in front of a strictly less urgent one |
| `IpcList.LastPositionIff` | BC_Cap_Sensor_RTT/rt-thread/src/ipc.c:79-122 | a thread joins the end of the list exactly under RT_IPC_FLAG_FIFO or when no waiter is less urgent |
| `IpcList.EnlistAdds` | BC_Cap_Sensor_RTT/rt-thread/src/ipc.c:79-122 | exactly the new thread is added |
| `MutexSpec.RunKeepsUrgency` | BC_Cap_Sensor_RTT/rt-thread/src/ipc.c:653-880 | in every reachable state of a priority mutex the waiters are sorted by urgency and arrival, the owner is at least as urgent as each, and value 1, no owner and hold 0 coincide |
| `MutexSpec.SoundIff` | BC_Cap_Sensor_RTT/rt-thread/src/ipc.c:680-684 | a step breaks the coherence of the fields exactly when the owner nests for the 256th time |
| `MutexSpec.LastReleaseRestores` | BC_Cap_Sensor_RTT/rt-thread/src/ipc.c:827-870 | whatever boosts came in between, the last release restores the owner to the priority it had at acquisition |
| `MutexSpec.OnlyOwnerBoosted` | BC_Cap_Sensor_RTT/rt-thread/src/ipc.c:720-727 | no step changes the priority of a thread other than the owner |
| `MutexSpec.StaysUrgentIff` | BC_Cap_Sensor_RTT/rt-thread/src/ipc.c:653-880 | under either flag a step leaves a waiter more urgent than the owner exactly when it is a last release that passes over a waiter more urgent than the first |
| `MutexSpec.HandoffUrgentIff` | BC_Cap_Sensor_RTT/rt-thread/src/ipc.c:841-860 | after a handoff the new owner is urgent enough exactly when the first waiter was no less urgent than the rest |
| `MutexSpec.FifoHandoffInverts` | BC_Cap_Sensor_RTT/rt-thread/src/ipc.c:841-860 | under RT_IPC_FLAG_FIFO a run of four calls ends with an owner less urgent than a waiter |
| `MutexSpec.OverNestedReleasesEarly` | BC_Cap_Sensor_RTT/rt-thread/src/ipc.c:680-684 | a thread that takes a new mutex 257 times gives it away with its first release |
| `MutexSpec.TakeSays` | BC_Cap_Sensor_RTT/rt-thread/src/ipc.c:653-780 | the owner nests, a free mutex is taken, another thread's is refused at timeout 0, and a thread that waits is listed and lends the owner its priority if that is more urgent |
| `MutexSpec.ReleaseSays` | BC_Cap_Sensor_RTT/rt-thread/src/ipc.c:789-880 | refused to others; one level less, or the priority restored and the mutex to the first waiter or to nobody |
| `MutexSpec.ExpireSays` | BC_Cap_Sensor_RTT/rt-thread/src/thread.c:749-772 | the waiter leaves its place and nothing else changes |
| `MutexObject.RtMutex.constructor` | BC_Cap_Sensor_RTT/rt-thread/src/ipc.c:529-550 | a free mutex |
| `MutexObject.RtMutex.Take` | BC_Cap_Sensor_RTT/rt-thread/src/ipc.c:653-778 | field by field as specified, sound again exactly when hold did not wrap |
| `MutexObject.RtMutex.Release` | BC_Cap_Sensor_RTT/rt-thread/src/ipc.c:789-880 | field by field as specified |
| `MutexObject.RtMutex.Timeout` | BC_Cap_Sensor_RTT/rt-thread/src/ipc.c:754-761 | the waiter leaves the list, everything else stays |
| `EventSpec.RunStaysQuiet` | BC_Cap_Sensor_RTT/rt-thread/src/ipc.c:1028-1268 | in every reachable state no suspended thread has its condition met by the set |
| `EventSpec.SweepLeavesQuiet` | BC_Cap_Sensor_RTT/rt-thread/src/ipc.c:1053-1100 | the single pass of a send suffices: nobody passed over is satisfied at its end |
| `EventSpec.SweepParts` | BC_Cap_Sensor_RTT/rt-thread/src/ipc.c:1053-1100 | the pass splits the waiters in two and only removes bits |
| `EventSpec.SweepWithoutClear` | BC_Cap_Sensor_RTT/rt-thread/src/ipc.c:1053-1100 | without RT_EVENT_FLAG_CLEAR exactly those satisfied by the whole set are resumed |
| `EventSpec.RecvServesIff` | BC_Cap_Sensor_RTT/rt-thread/src/ipc.c:1155-1180 | a receive is served at once exactly when all of its bits are set, with AND, or some of them, with OR alone; else it waits or times out |
| `EventSpec.RecvTakes` | BC_Cap_Sensor_RTT/rt-thread/src/ipc.c:1182-1236 | it gets the bits asked for that are set, CLEAR takes just those out; a thread that waits is listed with what it asked for, and a refusal changes nothing |
| `EventSpec.SendServesIff` | BC_Cap_Sensor_RTT/rt-thread/src/ipc.c:1053-1100 | a send resumes a waiter exactly when all, or some, of its bits are set when the pass comes to it; it gets those, CLEAR takes just those out, and any other waits on |
| `EventSpec.SetAtEnds` | BC_Cap_Sensor_RTT/rt-thread/src/ipc.c:1044-1100 | the pass starts with all bits sent added, and what its end leaves is the set |
| `EventSpec.ExpireLeaves` | BC_Cap_Sensor_RTT/rt-thread/src/ipc.c:1248-1280 | a timed-out thread leaves its place, a reset empties list and set |
| `EventSpec.BlockThenSendIff` | BC_Cap_Sensor_RTT/rt-thread/src/ipc.c:1028-1236 | for either flag and any place in the list: waiting and being sent bits gives the bits, and leaves the set, of receiving after the send, exactly when the thread would not be served or the waiters it overtakes clear no bit it takes |
| `EventSpec.BlockThenSendAtEnd` | BC_Cap_Sensor_RTT/rt-thread/src/ipc.c:1028-1236 | so for a thread that joins the end, as all do under RT_IPC_FLAG_FIFO and all but the more urgent under RT_IPC_FLAG_PRIO; the waiters left are the same too |
| `EventSpec.OvertakerTakesMore` | BC_Cap_Sensor_RTT/rt-thread/src/ipc.c:1028-1236 | by priority a thread may overtake, and get a bit that it would not get by asking later |
| `EventObject.RtEvent.constructor` | BC_Cap_Sensor_RTT/rt-thread/src/ipc.c:914-930 | an empty set |
| `EventObject.RtEvent.Send` | BC_Cap_Sensor_RTT/rt-thread/src/ipc.c:1028-1110 | the loop over the waiters does the specified pass and keeps the state quiet |
| `EventObject.RtEvent.Recv` | BC_Cap_Sensor_RTT/rt-thread/src/ipc.c:1126-1236 | bits at once, or an error, or a place in the list |
| `EventObject.RtEvent.Timeout` | BC_Cap_Sensor_RTT/rt-thread/src/ipc.c:1216-1220 | the waiter leaves the list |
| `MailboxSpec.RunKeepsInv` | BC_Cap_Sensor_RTT/rt-thread/src/ipc.c:1441-1713 | over all interleavings and timeouts no wakeup is lost, and the mails taken out followed by those in the box are the mails sent |
| `MailboxSpec.SendIsAppend` | BC_Cap_Sensor_RTT/rt-thread/src/ipc.c:1534-1541 | storing appends to the queue and succeeds exactly when there is room |
| `MailboxSpec.RecvIsPop` | BC_Cap_Sensor_RTT/rt-thread/src/ipc.c:1682-1690 | taking removes the oldest mail and succeeds exactly when there is one |
| `MailboxSpec.NeverBothStuck` | BC_Cap_Sensor_RTT/rt-thread/src/ipc.c:1441-1713 | with nobody on the way at most one side waits, and the box is then empty or full as its waiters think |
| `MailboxSpec.SendSays` | BC_Cap_Sensor_RTT/rt-thread/src/ipc.c:1441-1564 | a full box refuses at timeout 0 and else lists the sender; a send that finds room resumes the first waiting receiver |
| `MailboxSpec.RecvSays` | BC_Cap_Sensor_RTT/rt-thread/src/ipc.c:1589-1713 | an empty box refuses at timeout 0 and else lists the receiver; a receive that finds a mail takes the oldest and resumes the first waiting sender |
| `MailboxSpec.ExpireSays` | BC_Cap_Sensor_RTT/rt-thread/src/thread.c:749-772 | the thread leaves its place in the list it waits in, and nothing else changes |
| `MailboxObject.RtMailbox.constructor` | BC_Cap_Sensor_RTT/rt-thread/src/ipc.c:1293-1320 | an empty box |
| `MailboxObject.RtMailbox.Send` | BC_Cap_Sensor_RTT/rt-thread/src/ipc.c:1441-1560 | one critical section as specified, invariant kept |
| `MailboxObject.RtMailbox.Recv` | BC_Cap_Sensor_RTT/rt-thread/src/ipc.c:1589-1713 | one critical section as specified, invariant kept |
| `MailboxObject.RtMailbox.Reset` | BC_Cap_Sensor_RTT/rt-thread/src/ipc.c:1725-1757 | both lists and the box empty |
| `MsgQueueSpec.RunKeepsInv` | BC_Cap_Sensor_RTT/rt-thread/src/ipc.c:1963-2325 | under any interleaving every node is in exactly one of the free list, the message list or one thread's hands |
| `MsgQueueSpec.Conserved` | BC_Cap_Sensor_RTT/rt-thread/src/ipc.c:1963-2325 | free, queued and held nodes add up to the pool |
| `MsgQueueSpec.StepMovesMessages` | BC_Cap_Sensor_RTT/rt-thread/src/ipc.c:1963-2325 | messages leave in link order, urgent ones enter in front, and nothing else moves them |
| `MsgQueueSpec.HeldMessageStays` | BC_Cap_Sensor_RTT/rt-thread/src/ipc.c:1999-2002 | no step of another thread changes a message being copied |
| `MsgQueueSpec.ResetKeepsInv` | BC_Cap_Sensor_RTT/rt-thread/src/ipc.c:2279-2322 | a reset turns exactly the queued nodes into free ones |
| `MsgQueueSpec.StepPlaces` | BC_Cap_Sensor_RTT/rt-thread/src/ipc.c:1963-2322 | where each section puts its node; all other nodes and, but for a copy, all messages stay |
| `MsgQueueWaits.StepSays` | BC_Cap_Sensor_RTT/rt-thread/src/ipc.c:2018-2035 | a message resumes the receiver that waits first; a receive takes the first message, waits or gives up; a reset empties list and queue |
| `MsgQueueWaits.RunLosesNoWakeup` | BC_Cap_Sensor_RTT/rt-thread/src/ipc.c:1963-2322 | over all interleavings, timeouts and resets, while a receiver waits every message has a woken receiver on its way |
| `MsgQueueObject.RtMessageQueue.constructor` | BC_Cap_Sensor_RTT/rt-thread/src/ipc.c:1780-1825 | the pool linked into one free list |
| `MsgQueueObject.RtMessageQueue.Grab` | BC_Cap_Sensor_RTT/rt-thread/src/ipc.c:1980-2000 | the first free node is in the hands of the sender |
| `MsgQueueObject.RtMessageQueue.LinkTail` | BC_Cap_Sensor_RTT/rt-thread/src/ipc.c:2004-2020 | the node is last, tail points to it, entry counts it |
| `MsgQueueObject.RtMessageQueue.LinkHead` | BC_Cap_Sensor_RTT/rt-thread/src/ipc.c:2092-2104 | the node is first, and last too if it is alone |
| `MsgQueueObject.RtMessageQueue.Take` | BC_Cap_Sensor_RTT/rt-thread/src/ipc.c:2237-2250 | the first node is in the hands of the receiver |
| `MsgQueueObject.RtMessageQueue.Drop` | BC_Cap_Sensor_RTT/rt-thread/src/ipc.c:2255-2261 | the node is first on the free list |
| `MsgQueueObject.RtMessageQueue.Reset` | BC_Cap_Sensor_RTT/rt-thread/src/ipc.c:2279-2322 | the loop frees every queued node |
| `PageSpec.AllocTakes` | BC_Cap_Sensor_RTT/rt-thread/src/slab.c:236-267 | an allocation moves exactly the pages it returns out of the free set and keeps the list sorted with gaps |
| `PageSpec.AllocLowest` | BC_Cap_Sensor_RTT/rt-thread/src/slab.c:236-267 | what is handed out is the lowest stretch of that many free pages |
| `PageSpec.AllocFailsIff` | BC_Cap_Sensor_RTT/rt-thread/src/slab.c:236-267 | it fails exactly when there are not that many free pages in a row |
| `PageSpec.FreeAdds` | BC_Cap_Sensor_RTT/rt-thread/src/slab.c:272-322 | a release adds exactly its pages and keeps the list sorted with gaps, whatever merges it needs |
| `PageSpec.Canonical` | BC_Cap_Sensor_RTT/rt-thread/src/slab.c:236-322 | the list is determined by the set of free pages |
| `PageSpec.RunKeepsInv` | BC_Cap_Sensor_RTT/rt-thread/src/slab.c:236-322 | in every run no page is lost, doubled or handed out twice |
| `PageSpec.AllFreedIsInitial` | BC_Cap_Sensor_RTT/rt-thread/src/slab.c:236-334 | freeing every allocation in any order restores the single initial run |
| `PageObject.PageList.constructor` | BC_Cap_Sensor_RTT/rt-thread/src/slab.c:327-334 | one run of all pages |
| `PageObject.PageList.AllocPages` | BC_Cap_Sensor_RTT/rt-thread/src/slab.c:236-267 | the loop over the links does the specified first fit |
| `PageObject.PageList.FreePages` | BC_Cap_Sensor_RTT/rt-thread/src/slab.c:272-322 | the loop over the links does the specified insertion and merges |
| `SlabZoneSpec.ZoneindexIs` | BC_Cap_Sensor_RTT/rt-thread/src/slab.c:401-462 | every request below 16 KiB gets a class whose chunk size holds it and wastes under 8 bytes or an eighth |
| `SlabZoneSpec.SharedClassIff` | BC_Cap_Sensor_RTT/rt-thread/src/slab.c:401-462 | two requests share a class exactly when they round to the same chunk size |
| `SlabZoneSpec.NmaxIs` | BC_Cap_Sensor_RTT/rt-thread/src/slab.c:628-642 | every class fits at least two chunks into a zone, and they end inside it |
| `SlabZoneSpec.RunKeepsInv` | BC_Cap_Sensor_RTT/rt-thread/src/slab.c:478-904 | in every run z_nfree = (z_nmax - 1 - z_uindex) + the free chunks listed, and zone_array[i] holds exactly the zones of class i with chunks left |
| `SlabZoneSpec.AllocGives` | BC_Cap_Sensor_RTT/rt-thread/src/slab.c:534-659 | a chunk handed out was not live before and its class holds the request; null only without a zone and without pages |
| `SlabZoneSpec.AllocOthers` | BC_Cap_Sensor_RTT/rt-thread/src/slab.c:534-659 | no other chunk becomes or ceases to be live |
| `SlabZoneSpec.AllocChooses` | BC_Cap_Sensor_RTT/rt-thread/src/slab.c:534-659 | from the first zone of the class with a chunk, its unused area before its list; else from the empty zone kept last; else from new pages |
| `SlabZoneSpec.FreeRetires` | BC_Cap_Sensor_RTT/rt-thread/src/slab.c:845-903 | a zone leaves use exactly when its last chunk comes back and another of its class has chunks; it is kept, or given back when two are kept already |
| `SlabZoneSpec.TakeChunkIs` | BC_Cap_Sensor_RTT/rt-thread/src/slab.c:543-568 | the free-chunk branch never meets an empty list, and the chunk taken is one that was free |
| `SlabZoneSpec.FreeTakesBack` | BC_Cap_Sensor_RTT/rt-thread/src/slab.c:822-903 | a free takes back just its chunk; a zone leaves its class only when no chunk of it is live |
| `SlabZoneSpec.NoneLiveIff` | BC_Cap_Sensor_RTT/rt-thread/src/slab.c:854-856 | z_nfree equals z_nmax exactly when no chunk is live |
| `SlabZoneSpec.ChunksApart` | BC_Cap_Sensor_RTT/rt-thread/src/slab.c:628-648 | chunks lie behind the zone header, apart from each other and inside the zone |
| `SlabZoneSpec.ChunkAligned` | BC_Cap_Sensor_RTT/rt-thread/src/slab.c:631-638 | chunks of a power-of-two size start at multiples of it within the zone |
| `SlabSpec.RunKeepsApart` | BC_Cap_Sensor_RTT/rt-thread/src/slab.c:478-904 | in every run of rt_malloc and rt_free live blocks, chunks or pages, lie inside the heap and never share a byte, and rt_free finds each by its address |
| `SlabSpec.BlocksApart` | BC_Cap_Sensor_RTT/rt-thread/src/slab.c:478-667 | two live blocks do not overlap, whichever zones or pages they come from |
| `SlabSpec.BlockInHeap` | BC_Cap_Sensor_RTT/rt-thread/src/slab.c:341-396 | live blocks lie in the heap and clear of the usage table |
| `SlabSpec.MallocGives` | BC_Cap_Sensor_RTT/rt-thread/src/slab.c:478-667 | a block handed out was not live before and holds the request, all others stay where they are, and null changes nothing |
| `SlabSpec.MallocFailsIff` | BC_Cap_Sensor_RTT/rt-thread/src/slab.c:478-667 | null exactly for no bytes, or when no zone can serve and the pages wanted are not free in a row, none being wanted when the size wraps |
| `SlabSpec.ChunkFound` | BC_Cap_Sensor_RTT/rt-thread/src/slab.c:795-828 | the usage table leads from the address of a live chunk to its zone, and the offset there to the chunk |
| `SlabSpec.FreeFinds` | BC_Cap_Sensor_RTT/rt-thread/src/slab.c:771-904 | freeing the address of a live block takes back just that block, with its zone if it is given up |
| `SlabSpec.InitialInv` | BC_Cap_Sensor_RTT/rt-thread/src/slab.c:341-396 | the start: the usage table has its pages and nothing is live |
| `SlabZoneObject.SlabZones.constructor` | BC_Cap_Sensor_RTT/rt-thread/src/slab.c:191-198 | no zones |
| `SlabZoneObject.SlabZones.Malloc` | BC_Cap_Sensor_RTT/rt-thread/src/slab.c:534-659 | counters and lists as specified |
| `SlabZoneObject.SlabZones.FreeChunk` | BC_Cap_Sensor_RTT/rt-thread/src/slab.c:822-903 | counters and lists as specified, with the zone released if any |
| `PrintBuffer.Vsnprintf` | BC_Cap_Sensor_RTT/rt-thread/src/kservice.c:777-1040 | for every format, arguments and size the buffer gets the first min(len, size-1) characters of the whole text and a NUL, nothing else in it changes, and the length of the whole text is returned |
| `PrintBuffer.Output.Put` | BC_Cap_Sensor_RTT/rt-thread/src/kservice.c:814-816 | a character is stored only below the end but always counted |
| `PrintBuffer.Output.Finish` | BC_Cap_Sensor_RTT/rt-thread/src/kservice.c:1027-1034 | the NUL goes behind the text, or over the last character of a full buffer |
| `PrintBuffer.Output.MakeDigits` | BC_Cap_Sensor_RTT/rt-thread/src/kservice.c:676-683 | the dividing loop yields the digits in reverse and never needs more than ten places of tmp |
| `PrintBuffer.Output.PrintNumber` | BC_Cap_Sensor_RTT/rt-thread/src/kservice.c:606-775 | the padding loops produce the specified field |
| `PrintBuffer.Output.PutConversion` | BC_Cap_Sensor_RTT/rt-thread/src/kservice.c:888-1025 | each conversion character produces its text |
| `PrintBuffer.ScanFlags` | BC_Cap_Sensor_RTT/rt-thread/src/kservice.c:820-833 | the flag loop reads all flags |
| `PrintBuffer.SkipAtoi` | BC_Cap_Sensor_RTT/rt-thread/src/kservice.c:588-595 | the digit loop reads the whole number |
| `PrintLaws.FormatText` | BC_Cap_Sensor_RTT/rt-thread/src/kservice.c:806-818 | ordinary characters are copied |
| `PrintLaws.FormatDirective` | BC_Cap_Sensor_RTT/rt-thread/src/kservice.c:820-1025 | a directive of flags, width, precision, h or l and a conversion is replaced by the text of that conversion, with the flags in any order and the numerals at their value |
| `PrintLaws.StarRead` | BC_Cap_Sensor_RTT/rt-thread/src/kservice.c:835-865 | a star takes width or precision from the arguments, a negative width as its magnitude to the left, a negative precision as 0 |
| `PrintLaws.SignedSays` | BC_Cap_Sensor_RTT/rt-thread/src/kservice.c:978-1005 | %d and %i: a minus or the sign asked for, and the decimal digits of the magnitude of the signed 32-bit or, with h, 16-bit argument, in their field |
| `PrintLaws.UnsignedSays` | BC_Cap_Sensor_RTT/rt-thread/src/kservice.c:970-1005 | %u, %x and %X: the argument modulo 2^32 or, with h, 2^16, in radix 10 or 16, in small or large letters |
| `PrintLaws.PointerSays` | BC_Cap_Sensor_RTT/rt-thread/src/kservice.c:940-957 | %p: radix 16 with zeros to eight digits unless a width is given |
| `PrintLaws.TextSays` | BC_Cap_Sensor_RTT/rt-thread/src/kservice.c:888-962 | %s: the string cut at a positive precision, %c: the character, both padded with blanks; %%: a percent sign |
| `PrintLaws.OtherSays` | BC_Cap_Sensor_RTT/rt-thread/src/kservice.c:964-999 | %o prints as %x does; an unknown conversion stands as it is |
| `PrintLaws.PlainDecimal` | BC_Cap_Sensor_RTT/rt-thread/src/kservice.c:606-1040 | a plain %d of v is a minus if v is negative, and digits that read back as its magnitude |
| `PrintSpec.DigitsMean` | BC_Cap_Sensor_RTT/rt-thread/src/kservice.c:568-585 | the digits read back as the number, and only 0 starts with a zero |
| `PrintSpec.NumberWidth` | BC_Cap_Sensor_RTT/rt-thread/src/kservice.c:685-774 | the field has the width that the C rule gives it exactly when the precision is not 0, or the number is 0 and the width leaves nothing to pad |
| `PrintSpec.PrecisionZeroDropsDigits` | BC_Cap_Sensor_RTT/rt-thread/src/kservice.c:685-774 | a 5 under precision 0 is printed as nothing, and a 0 in a field of three as two characters |

## Left out

- MemHeapObject.MemHeap.Realloc: sizes within 39 bytes of 4 GiB are excluded, because the sums in its comparisons wrap there.
- MemHeapObject.MemHeap.constructor: asks for a pool that holds one minimal block; the code does not check.
- SmallMem.SmallHeap.Malloc: says nothing of a call that does not return, which is one that walks a heap of less than 12 bytes (`WalkEndsIff`).
- SmallMem.SmallHeap.Realloc: as SmallMem.SmallHeap.Malloc, for the rt_malloc inside it.
- SmallMemTheorems.MallocTakesLowest: for heaps of at least 12 bytes, on which the walk ends.
- MutexSpec.RunKeepsUrgency: one mutex, no priority changes from outside, and no 256-fold nesting.
- TimerRuns.CheckFires: callbacks that leave timers alone; `CallbackAgreesIff` says what others can do to the flag.
- TimerRuns.RunKeepsInv: a check on every tick, durations below RT_TICK_MAX/2, and periods of at least one tick, as the code assumes.
- SlabZoneObject.SlabZones.Malloc: what the page allocator would return is a parameter; `SlabSpec` puts both layers together, with the usage table.
- SlabSpec.MallocGives: pages, zones and the usage table are put together on values, not on the two classes, so that no update in place across both is captured.
- SchedulerObject.RtScheduler.ChangePriority: priorities below RT_THREAD_PRIORITY_MAX; a larger one indexes past the ready queues.
- SchedulerObject.RtScheduler.Detach: a thread that is not closed; detaching one twice works on the list of defunct threads, which is not modelled.
- SlabZoneSpec.ChunkAligned: alignment within the zone only, since zones are page aligned.
- MsgQueueObject.RtMessageQueue.Take: the links alone; waiting receivers and their wakeups are in `MsgQueueWaits`, on values.
- PrintBuffer.Vsnprintf: the buffer does not reach the end of the address space, widths and lengths stay below 2 GiB, and missing arguments count as 0.
- PrintSpec.DigitsMean: for radix 10 and 16, the two that `divide` knows; `PrintLaws.OtherSays` says what %o prints.
- The prefix of RT_PRINTF_SPECIAL and the 64-bit integers of RT_PRINTF_LONGLONG, which are not built.
- The multi-core branches, soft timers, signals and the retry after -RT_EINTR, hooks, debug output, object names and containers.
- Stack set-up and register-level context switches, drivers, board code and the build tools.
- The semaphore, the memory pool, rt_calloc, rt_memory_info and the slab rt_realloc, whose members would be easy beside the ones here.
- Several mutexes held by one thread.
