# Deimos kernel: a verified model of its scheduler, memory and number routines

This project models the parts of the Deimos i386 kernel that have state, loops and
invariants, and proves what they promise: the scheduler with its delta-encoded sleep queue,
the kernel heap, the memory of tasks, the physical frame allocator, address translation,
and the number printer and parser. `dafny verify dfyconfig.toml` checks everything.

Each component has two layers. One is a set of functions on values, about which the main
theorems are proved, most of them over every finite run. The other is the source in its own
form, with linked nodes, headers in memory, bitmaps and loops, proved method by method to
compute those functions.

| file | what it holds |
|---|---|
| `Words.dfy`, `Lists.dfy`, `Results.dfy` | 32-bit arithmetic; duplicate-free sequences; outcomes |
| `DeltaQueue.dfy` | the sleep queue as a value: insertion, tick, wake-up |
| `SchedCore.dfy` | each scheduler routine as a function on the scheduler's state, and the invariant |
| `SchedSystem.dfy` | the transition system of timer and running task, safety of all runs, the insertion loop as written |
| `SleepDeadlines.dfy`, `SleepCalls.dfy` | deadlines in ticks; what sleep and usleep make of their arguments |
| `TaskLifetimes.dfy` | bounded waiting, kills, conservation |
| `CreateCuts.dfy`, `KillCuts.dfy` | a timer tick inside create_kernel_task, on the links of the ready queue, and inside kill |
| `Scheduler.dfy` | kernel/sched.c on linked `Task` objects |
| `Blocks.dfy`, `HeapRuns.dfy`, `LargeRequests.dfy` | the heap as a list of blocks; runs; the allocator in 32-bit arithmetic |
| `KernelHeap.dfy`, `TaskMemory.dfy` | kernel/kalloc.c on headers in memory; new_task and free_task on top of it |
| `HeapCuts.dfy` | a timer tick inside kmalloc and kfree |
| `KernelMemory.dfy` | scheduler and heap together: who holds which block over whole runs |
| `StackTops.dfy` | where new_task writes the first words of a stack |
| `FrameRuns.dfy`, `FrameAllocator.dfy` | the frame allocator over runs, and on its bitmap |
| `Paging.dfy` | virt_to_phys, paging_init, and heap buffers in physical memory |
| `Numbers.dfy` | itoa and atoi |

## Assumptions about the environment

- Task 0, the idle task, only yields: it never sleeps, exits or is killed (kernel/kernel.c:61-63).
  `SwitchPanicsIff` says what happens without it.
- switch_task runs with interrupts off and is one step. sleep() is three steps, and a timer
  tick may come between any two of them.
- kmalloc, kmalloc_a, kfree, kill and create_kernel_task run with interrupts on and take no
  lock. Except in `CreateCuts.dfy`, `KillCuts.dfy` and `HeapCuts.dfy` each of them is one step,
  that is, it is assumed not to be interrupted; `KernelMemory.dfy` in particular rests on this.
- Heap clients write only inside what they were given, and free only what they hold. The
  kernel itself does not keep to this: setup_stack writes outside its block on every call
  (`PushedOutside`). What is said about blocks in `KernelMemory.dfy` is about the list the
  allocator keeps, as long as nobody overwrites it.

## Where the source departs from what it says it does

The code is modelled as it is. For each place where it falls short of its own comments the
exact condition under which it is right is proved.

- Insertion into the sleep queue (kernel/sched.c:134-155) faults when the new task is due
  before the head, and otherwise makes it oversleep by 2^32 ticks when it is due together
  with a queued task that is not the last due. `AsWrittenCorrectIffInDomain` and
  `OutsideDomain` give the exact domain, `AsWrittenStepIff` and `AsWrittenFaultsIff` carry it
  to the whole scheduler. The theorems about runs are about the loop with the smallest repair
  (no lower test on the running sum, and the head pointer kept up to date); by
  `AsWrittenRuns` they are about the code as written on every run that inserts inside the
  domain.
- sleep and usleep multiply their argument by 1000 in 32 bits (kernel/sched.c:404, 413). An
  argument above 4294967 wraps, and the call may return early: usleep(4294968), 72 minutes,
  after one tick. `SleepLastsIff` and `UsleepLastsIff` give the exact condition over runs.
- A kill is lost when the state it wrote is overwritten: by the wake-up (kernel/sched.c:202,
  386), or by sleep() if a task kills itself and then sleeps (kernel/sched.c:405, 414).
  `KillWorksIffReady` says for which targets a kill works on every run, `SelfKillWorksIff` on
  which runs it works for the caller itself, and `KilledWhileAsleepIsLost` that a sleeping
  target shows no trace of it.
- create_kernel_task enqueues with interrupts on (kernel/sched.c:79-80, 376). A tick between
  the two writes of enqueue_ready_task loses the task and, once the call resumes, ends in the
  empty-queue panic (`TickBetweenWrites`), or faults if the queue was empty (`EmptyFaults`); a
  tick between its test and the first write is harmless if and only if the queue is found as
  empty or nonempty as before (`StaleTestIff`).
- setup_stack adds STACK_SIZE to a pointer to 4-byte words (kernel/task.c:43). What it pushes,
  and the stack the task runs on, end 64 KiB behind the start of a block of 16 KiB.
  `PushedOutside`: on every heap that is outside the block. `HarmlessIff`: it does no harm if
  and only if those bytes lie in the data of one free block. `StacksClash`: tasks created one
  after the other on a fresh heap run on each other's memory.
- sched_init does not test what new_task returns (kernel/sched.c:304-305) and without memory
  writes through null, as `SchedInit` states; `BootedInv` starts from a heap with room.
- kill writes to a task it looked up before a tick (kernel/sched.c:383-386). `LateWrite` says
  what the write finds; `CutKillDangles`: if the target was doomed already, it is always freed
  memory.
- kmalloc and kfree use what they found before a tick. `LateMarkIff` and `LateMergeIff` say
  when a block taken, or a merge made, after it is still right, and `SplitCutIff` which blocks
  may be freed in the middle of split_block; `GivenTwice`: two calls for the same size can be
  given the same memory.
- In the aligned search of the heap the `continue` of kernel/kalloc.c:121 does not advance.
  `AlignedSearchEndsIff` says when the loop ends, and `AsWrittenRunsIff` on which runs the heap
  as written is the one of the other theorems, whose search moves on, as the comments say;
  `KernelAsWrittenIff` does so for runs of the whole kernel.
- Request sizes are rounded by adding `size % 4` (kernel/kalloc.c:96), which gives at least the
  request and no alignment; sizes within 22 bytes of 4 GiB wrap. `HonestIff` says when the
  answer is still right, `BlockFaultsIff` when kmalloc_a writes through a null pointer, and
  `Runs32` that all other runs are the same in 32 bits.
- reserve_region tests the wrong polarity (arch/i386/frame.c:76). `ReserveWorksIff`: it does
  what it says only on an empty region. `KernelNotReserved` and `KernelHandedOut`: the kernel's
  own frames stay free and are handed out.
- frame_init passes the last byte of a memory map entry as its size (arch/i386/frame.c:104).
  `MapEntryOpens` and `MapEntryWorksIff` say which frames are opened and when that is right.
- itoa returns a pointer behind the sign it wrote (kernel/stdlib/itoa.c:33, 62), as the contract of
  `Itoa` states; the text of the round trip starts at the buffer.

## Model

| member | source | states |
|---|---|---|
| DeltaQueue.RepairedInserts | kernel/sched.c:108-156 | the repaired insertion gives the new task exactly its target as remaining time and leaves every other remaining time and the relative order alone |
| DeltaQueue.RepairedIsInsert | kernel/sched.c:126-156 | the loop with its running sum equals the recursive reference insertion whenever the due times fit 32 bits |
| DeltaQueue.AsWrittenCorrectIffInDomain | kernel/sched.c:117-155 | the loop as written is right if and only if the queue is empty, the target is at least the total, or it lies strictly between two consecutive due times with a task before it; there it equals the repaired loop |
| DeltaQueue.OutsideDomain | kernel/sched.c:134-155 | outside that domain it writes through the null pointer exactly if the task is due before the head, and otherwise it is put last, all others as before, and sleeps 2^32 ticks too long |
| DeltaQueue.AsWrittenExamples | kernel/sched.c:134-155 | one concrete insertion of each failing kind |
| DeltaQueue.TickRefinesRemaining | kernel/sched.c:158-205 | a tick lowers every remaining time by one, wakes exactly the tasks that reach zero, in queue order, and leaves a head with nonzero delta |
| DeltaQueue.InsertSettled | kernel/sched.c:111-156 | insertion with a nonzero target keeps the head delta nonzero, the total inside 32 bits and the tasks distinct |
| SchedCore.SwitchKeeps | kernel/sched.c:208-263 | with the idle task awake, switch_task succeeds and keeps the whole scheduler invariant |
| SchedCore.SwitchPanicsIff | kernel/sched.c:85-92 | without that assumption, the empty-queue panic happens exactly when the caller does not stay runnable and everybody waiting is doomed |
| SchedCore.SwitchFrees | kernel/sched.c:253-262 | what a switch frees was doomed and waiting and is not the caller |
| SchedCore.SwitchEffect | kernel/sched.c:230-263 | what a switch changes and what it leaves alone: queues, states, saved ticks, live and freed tasks |
| SchedCore.WakeKeeps | kernel/sched.c:184-205 | update_sleep_queue keeps the invariant: the three places stay disjoint, duplicate-free and complete |
| SchedSystem.SleepTicksPositive | kernel/sched.c:404-413 | sleep and usleep never ask for zero ticks, however the 32-bit product wraps |
| SchedSystem.RunKeeps | kernel/sched.c:344-418 | no legal run from a well-formed state panics or faults, and every state it visits is well formed |
| SchedSystem.ReachableSafe | kernel/sched.c:301-418 | the same for everything reachable from sched_init |
| SchedSystem.AsWrittenStepIff | kernel/sched.c:111-263 | one step of the scheduler as written equals the repaired step if and only if it inserts nothing or inserts inside the domain |
| SchedSystem.AsWrittenFaultsIff | kernel/sched.c:130-138 | a step of the scheduler as written faults exactly when a task is put to sleep that is due before the head |
| SchedSystem.AsWrittenRuns | kernel/sched.c:111-418 | runs that insert only inside the domain are the same with both loops |
| SleepDeadlines.SleepDeadline | kernel/sched.c:111-205 | a task that goes to sleep for n ticks is asleep through the first n - 1 ticks and able to run right after the n-th, whatever else happens |
| SleepDeadlines.SleepsUntilDeadline | kernel/sched.c:184-205 | until then its remaining time is the original one less the ticks so far |
| SleepDeadlines.GoesToSleep | kernel/sched.c:241-245 | the task is queued for exactly the ticks it wrote, whether its own call or a tick gets to switch_task first |
| SleepDeadlines.NoEarlyReturn | kernel/sched.c:402-418 | wherever ticks cut into sleep(), it has not returned before as many ticks as it stored in sleep_ticks |
| SchedSystem.SleepTicksExact | kernel/sched.c:404-413 | sleep(n) stores 1000 * n + 1 ticks and usleep(n) n + 1, up to 4294967; beyond that what is left of the product in 32 bits |
| SchedSystem.SleepTicksEnoughIff | kernel/sched.c:404-413 | the ticks stored cover the time asked for if and only if the argument is at most 4294967 |
| SchedSystem.SleepTicksWrap | kernel/sched.c:404-413 | the first arguments that wrap: 705 ticks for 49 days, one tick for 72 minutes |
| SleepCalls.EarliestReturn | kernel/sched.c:402-418 | from every state there is a run on which the call returns at the tick stored, no later |
| SleepCalls.SleepLastsIff | kernel/sched.c:402-409 | on every run sleep(seconds) returns after at least 1000 * seconds ticks, if and only if seconds is at most 4294967 |
| SleepCalls.UsleepLastsIff | kernel/sched.c:411-418 | the same for usleep(millis) and millis ticks |
| SleepCalls.SleepIsBack | kernel/sched.c:402-409 | from every state there is a run on which sleep(seconds), up to 4294967, is back at tick 1000 * seconds + 1 |
| SleepCalls.UsleepIsBack | kernel/sched.c:411-418 | the same for usleep(millis) and tick millis + 1 |
| SleepCalls.UsleepReturnsAtOnce | kernel/sched.c:411-418 | from every state a run on which usleep(4294968) is back after one tick |
| TaskLifetimes.BoundedWaiting | kernel/sched.c:69-106 | a task at position k of the ready queue that is not killed runs within k + 1 switches on every run |
| TaskLifetimes.CreatedReady | kernel/sched.c:371-376 | a created task stands in state READY at the end of the ready queue |
| TaskLifetimes.CreatedRuns | kernel/sched.c:361-379 | unless it is killed, a created task runs on every run within as many switches as tasks were waiting and one more |
| TaskLifetimes.ExitDies | kernel/sched.c:394-398 | a task that calls sched_kill never runs again on any run and is freed within as many switches as tasks were waiting |
| TaskLifetimes.SwitchedOutAt | kernel/sched.c:230-263 | a task switched out awake waits at the end of the line, ready or doomed as it was, moved up by those taken off |
| TaskLifetimes.KilledWhileReady | kernel/sched.c:253-262 | a task killed in the ready queue never runs again and is freed within k + 1 switches |
| TaskLifetimes.KilledWhileAsleepIsLost | kernel/sched.c:193-204 | past the deadline of a sleeping target the run with the kill and the run without it are the same |
| TaskLifetimes.KillWorksIffReady | kernel/sched.c:381-387 | kill writes the doomed state and nothing else; the target of a kill, whoever it is, never runs after the next switch on any run if and only if it was in the ready queue when it was killed |
| TaskLifetimes.SelfKillWorksIff | kernel/sched.c:381-418 | a task that kills itself never runs again once switched out, on any run, if and only if it did not write the sleeping state before that switch |
| TaskLifetimes.StepFrees | kernel/sched.c:231-263 | every step frees only doomed waiting tasks and never the one executing it |
| TaskLifetimes.TasksConserved | kernel/sched.c:361-379 | over every run, live and freed tasks together are the initial ones plus the created ones, and nothing freed is live |
| Scheduler.Scheduler.SchedInit | kernel/sched.c:301-310 | the state sched_init leaves is the boot state of the model; without memory for the task it faults |
| Scheduler.Scheduler.EnqueueReadyTask | kernel/sched.c:69-82 | the links thread the old ready queue followed by the new task |
| Scheduler.Scheduler.GetNextReadyTask | kernel/sched.c:85-106 | the first task comes off, its link is null, and the links thread the rest |
| Scheduler.Scheduler.EnqueueSleepTask | kernel/sched.c:111-156 | the relinking loop computes the insertion of the model, and faults exactly where that does |
| Scheduler.Scheduler.FindPlace | kernel/sched.c:126-149 | the search loop stops at the first task that passes the test, and what it skipped stays in front |
| Scheduler.Scheduler.DequeueSleepTask | kernel/sched.c:160-181 | the head comes off exactly if its delta is zero |
| Scheduler.Scheduler.UpdateSleepQueue | kernel/sched.c:184-205 | the decrement and the wake loop compute the tick of the model |
| Scheduler.Scheduler.ParkRunning | kernel/sched.c:230-249 | what becomes of the current task, including the default panic |
| Scheduler.Scheduler.PickNext | kernel/sched.c:251-263 | the pick loop ends and computes the dispatch of the model |
| Scheduler.Scheduler.SwitchTask | kernel/sched.c:208-263 | together, the switch of the model with its panic and fault outcomes |
| Scheduler.Scheduler.DoScheduling | kernel/sched.c:344-359 | the timer's step of the model; before sched_init only the tick counter moves and all queues and tasks stay as they are; the running task's cpu_time goes up by one |
| Scheduler.Scheduler.FindTask | kernel/sched.c:39-66 | the running task, else the first match in the ready queue, else the first in the sleep queue, else null |
| Scheduler.Scheduler.Kill | kernel/sched.c:381-387 | the task find_task finds becomes doomed and nothing else changes |
| Scheduler.Scheduler.CreateKernelTask | kernel/sched.c:361-379 | the new task is in state READY at the end of the queue; without memory nothing changes and 0 is returned |
| Scheduler.Scheduler.SchedKill | kernel/sched.c:394-398 | the caller is doomed and switches; afterwards it is freed, or still doomed and not running |
| Scheduler.Scheduler.Sleep | kernel/sched.c:402-409 | product, both field writes and the switch, uninterrupted |
| Scheduler.Scheduler.Usleep | kernel/sched.c:411-418 | the same for usleep |
| KillCuts.LateWrite | kernel/sched.c:381-387 | whatever happens between lookup and write, the target is then either alive, and the call is an uncut one made now, or freed |
| KillCuts.CutKillDangles | kernel/sched.c:381-387 | a second kill of a waiting task, cut by a switch, always writes to freed memory: whenever the caller runs again its target is freed, on every run |
| KillCuts.SecondKillDangles | kernel/sched.c:251-263 | a doomed task ahead of another in the ready queue is freed before that one runs |
| CreateCuts.AddThreads | kernel/sched.c:69-82 | uninterrupted, enqueue_ready_task appends the task on the links |
| CreateCuts.TakeThreads | kernel/sched.c:85-106 | get_next_ready_task takes the first task off the links and panics exactly on the empty queue |
| CreateCuts.StaleTestIff | kernel/sched.c:71-80 | with its test made before a tick and its writes after it, the call appends the task if and only if the queue is as empty or nonempty as it was; otherwise it loses the whole queue or faults |
| CreateCuts.LinkOverwritten | kernel/sched.c:79-80 | with a tick between the writes, everything up to the second write is as if the task had never been created |
| CreateCuts.EmptyFaults | kernel/sched.c:73-74 | on an empty queue that tick writes through the null tail |
| CreateCuts.TornRuns | kernel/sched.c:69-106 | a queue whose tail is not on the chain from its head gives out that chain and then panics, whatever is enqueued |
| CreateCuts.TickBetweenWrites | kernel/sched.c:79-80 | the created task is in no queue and never picked, and the kernel panics at the pick after those queued when the call resumed |
| CreateCuts.TickEnqueues | kernel/sched.c:184-240 | a tick inside create_kernel_task enqueues the woken tasks and then the caller before it picks |
| Blocks.AllocFirstFit | kernel/kalloc.c:101-161 | exactly the first block that fits is used, and all others stay as they are |
| Blocks.AllocFailsIff | kernel/kalloc.c:101-161 | null is returned exactly when no free block can hold the request, after alignment if asked for |
| Blocks.AllocUsed | kernel/kalloc.c:107-154 | one used block is added, at the address returned and at least as big as the request; all others stay; aligned results are multiples of 4096 |
| Blocks.RoundedExact | kernel/kalloc.c:96 | the size is rounded up by at most three bytes, by one, two and three for 4k + 1, 4k + 2 and 4k + 3, and to a multiple of 4 exactly if it is even |
| Blocks.FitsIff | kernel/kalloc.c:108-121 | a block is passed over only if it is in use or has no place for the request, on a page boundary if aligned; the pointer is the first such place |
| Blocks.FoundExact | kernel/kalloc.c:127-151 | the block given has exactly the size needed if the rest can be cut off, and otherwise the whole room, always less than two headers more than needed |
| Blocks.LittleLost | kernel/kalloc.c:96-151 | besides its header a block has at most 23 bytes more than were asked for |
| Blocks.AllocKeeps | kernel/kalloc.c:43-67 | allocation keeps the tiling and leaves no two free neighbours |
| Blocks.FreeKeeps | kernel/kalloc.c:226-242 | release keeps the tiling and leaves no two free neighbours |
| Blocks.FreeUsed | kernel/kalloc.c:214-243 | release takes exactly the freed block out of the used ones |
| Blocks.FreeUndoesAlloc | kernel/kalloc.c:108-243 | freeing what was just allocated, plain or aligned, restores the block list exactly |
| Blocks.FreeIsFreeAt | kernel/kalloc.c:226-242 | the two merges by position and the release along the list are the same |
| HeapRuns.RunKeeps | kernel/kalloc.c:87-253 | the heap invariant holds after every legal sequence of kmalloc, kmalloc_a and kfree |
| HeapRuns.TakeGrants | kernel/kalloc.c:87-162 | a call that succeeds grants one new block with all the bytes asked for and at most 23 more and takes nothing from anybody; it fails, changing nothing, exactly if nothing fits |
| HeapRuns.HeapSafe | kernel/kalloc.c:164-253 | from kheap_init on, the blocks tile the heap, no two free ones touch, and the sizes add up to the initial size |
| HeapRuns.LiveSafe | kernel/kalloc.c:107-154 | a live allocation lies inside the heap with all its bytes, and every other block, header and data, lies before or behind it |
| HeapRuns.LiveDisjoint | kernel/kalloc.c:107-154 | live allocations do not overlap |
| HeapRuns.LiveStays | kernel/kalloc.c:87-243 | a live allocation stays where it is until it is freed |
| HeapRuns.FullyDefragments | kernel/kalloc.c:226-242 | whenever nothing is live, the heap is one free block of the original size again |
| HeapRuns.ReleaseAllEmpties | kernel/kalloc.c:214-243 | freeing all live allocations of any reachable heap, in any order, gets there |
| HeapRuns.UsedDetermines | kernel/kalloc.c:226-242 | two merged heaps over the same region with the same used blocks are equal: the order of allocations and frees leaves no trace |
| HeapRuns.AlignedSearchEndsIff | kernel/kalloc.c:101-158 | the aligned search as written ends if and only if the first block big enough has room behind its page boundary, and then agrees with the search that moves on |
| HeapRuns.AlignedSearchHangs | kernel/kalloc.c:116-121 | after three calls on a fresh heap it never ends, although the request could be met |
| HeapRuns.AllocAsWrittenIff | kernel/kalloc.c:101-158 | the aligned allocator as written gives the model's result where its search ends, and none elsewhere |
| HeapRuns.AsWrittenRunsIff | kernel/kalloc.c:87-243 | the heap as written gets through a run if and only if each of its aligned searches ends, and is then block by block the heap of the model |
| HeapRuns.Step32Iff | kernel/kalloc.c:87-243 | a call in 32-bit arithmetic does to the blocks what the model says if and only if its size does not wrap or nothing passes the wrapped tests |
| HeapRuns.Runs32 | kernel/kalloc.c:87-243 | runs of such calls are the same in 32 bits |
| HeapRuns.StopsIsEnds | kernel/kalloc.c:108-121 | the two conditions for the aligned search to end, with and without 32-bit sums, agree where nothing wraps |
| HeapCuts.LateMarkIff | kernel/kalloc.c:108-151 | kmalloc, cut between its test and its mark, gives a fresh block that is big enough if and only if a free block that fits still starts at the pointer |
| HeapCuts.AnywayIsPlace | kernel/kalloc.c:138-151 | on a block that is still free and fits, the resumed call does what the uncut one does |
| HeapCuts.GivenTwice | kernel/kalloc.c:108-151 | cut there by another call for the same size, both are given the same memory |
| HeapCuts.LateMergeIff | kernel/kalloc.c:227-241 | a merge of kfree made after a tick leaves what is in use alone if and only if both blocks are still free |
| HeapCuts.SplitCutIff | kernel/kalloc.c:57-64 | cut between its size and its links by the release of a block in use, split_block leaves a tiled heap if and only if that block is not a neighbour of the one being split |
| LargeRequests.Alloc32Iff | kernel/kalloc.c:87-162 | the 32-bit allocator gives the model's result if and only if the size does not wrap or nothing passes; otherwise it changes a list the model leaves alone, or faults |
| LargeRequests.SameWithoutWrap | kernel/kalloc.c:87-162 | for sizes that do not wrap the 32-bit allocator, plain or aligned, is the one of the model; in particular no split it calls is refused |
| LargeRequests.HonestIff | kernel/kalloc.c:96-153 | in 32-bit arithmetic kmalloc and kmalloc_a give null or enough memory if and only if the size does not wrap or no free block passes the wrapped tests |
| LargeRequests.BlockFaultsIff | kernel/kalloc.c:123-134 | exactly when the block found makes kmalloc_a write through a null pointer |
| LargeRequests.WrappedGets | kernel/kalloc.c:123-151 | how many bytes a wrapped request is given if it does not fault: none or two, or all the room there is |
| LargeRequests.AskedIsAlloc | kernel/kalloc.c:87-162 | the answer these two speak of is the block the allocator points into |
| LargeRequests.AlmostEverything | kernel/kalloc.c:96-153 | a concrete wrap: a request for 4 GiB less two bytes is given no bytes |
| LargeRequests.AlmostEverythingAligned | kernel/kalloc.c:128-131 | kmalloc_a for 4 GiB less twelve bytes writes through the null pointer of line 130 |
| KernelHeap.KernelHeap.Init | kernel/kalloc.c:164-172 | one free block of the given size |
| KernelHeap.KernelHeap.SplitBlock | kernel/kalloc.c:43-67 | the block is cut in two with all links right, or 0 is returned exactly when the cut is not inside its data |
| KernelHeap.KernelHeap.PlacePlain | kernel/kalloc.c:138-153 | the plain placement in 32-bit arithmetic; a split that is refused leaves the block whole |
| KernelHeap.KernelHeap.PlaceAligned | kernel/kalloc.c:113-134 | the aligned placement in 32-bit arithmetic, and exactly when a refused split is written through |
| KernelHeap.KernelHeap.KmallocInt | kernel/kalloc.c:87-162 | for every 32-bit size the walk over the headers computes the 32-bit first fit and faults exactly where that does; with the `continue` as written it hangs exactly where the search does not end; it panics only before kheap_init |
| KernelHeap.KernelHeap.MergeWithNext | kernel/kalloc.c:226-242 | two neighbours become one block with all links right |
| KernelHeap.KernelHeap.Kfree | kernel/kalloc.c:214-243 | the two merges compute the release of the model; it panics, changing nothing, exactly on a header with a wrong magic number |
| KernelHeap.KernelHeap.SanityCheck | kernel/kalloc.c:174-192 | on any chain of headers it panics if and only if one has a wrong magic number or a wrong back link |
| KernelHeap.KernelHeap.HeapIsSane | kernel/kalloc.c:174-192 | on a well-formed heap no header is of that kind |
| KernelHeap.AllocMoves | kernel/kalloc.c:199-207 | an allocation moves exactly the block it takes from the free total to the used one |
| KernelHeap.KernelHeap.Totals | kernel/kalloc.c:194-207 | each total is the size of the free, or the used, blocks, and together they are the size of the heap |
| TaskMemory.TaskRoundTrip | kernel/task.c:74-115 | freeing a task just created restores the heap block by block |
| TaskMemory.NewTask | kernel/task.c:74-103 | both blocks are allocated or the heap is as before, unless the search for the stack as written never ends; the stack block is page aligned |
| TaskMemory.FreeTask | kernel/task.c:111-115 | exactly the two blocks of the task are given back |
| KernelMemory.GoneFacts | kernel/sched.c:251-263 | a step removes exactly the tasks its pick loop frees, each once and never the one executing it, and adds the created one |
| KernelMemory.AllocOneKeeps | kernel/task.c:74-103 | creation takes two blocks that were not live, the one for the stack on a page boundary |
| KernelMemory.BootedInv | kernel/sched.c:301-310 | from any heap in use with room for the idle task, sched_init establishes the invariant of scheduler and heap together |
| KernelMemory.KernelSafe | kernel/sched.c:208-263 | over every run of scheduler steps mixed with heap calls by other code, nothing panics, the block list stays well formed, and every live task holds one block for its structure and one for its stack that nobody else holds |
| KernelMemory.SchedKeeps | kernel/sched.c:231-263 | every scheduler step, with its creation and its frees, keeps that invariant and the live blocks that belong to no task |
| KernelMemory.NoLeak | kernel/task.c:111-115 | over every run of the scheduler the live blocks that belong to no task stay exactly the same, so creating and destroying tasks leaks nothing |
| KernelMemory.OwnersStay | kernel/task.c:74-115 | a task keeps the same two blocks as long as it lives, and one that is freed never comes back |
| KernelMemory.HeapRestored | kernel/sched.c:251-263 | whenever the scheduler comes back to the tasks it started from, the heap is block by block what it was |
| KernelMemory.StackSafe | kernel/sched.c:251-263 | the task executing a step keeps its blocks through it, and the block allocated for its stack overlaps no block of another task |
| KernelMemory.KernelAsWrittenIff | kernel/kalloc.c:101-158 | with the aligned search as written the kernel gets through a run if and only if every search for a stack or for other code ends, and it is then the same run |
| StackTops.PushedOutside | kernel/task.c:39-65 | on every heap the words setup_stack pushes lie more than 47 KiB behind the block allocated; counted in bytes they would lie in it |
| StackTops.HarmlessIff | kernel/task.c:43-65 | bytes written anywhere touch no header, no block in use and nothing outside the heap if and only if they lie in the data of one free block |
| StackTops.StacksClash | kernel/task.c:33-103 | after sched_init and any number of creations, up to 58, on a fresh heap that starts on a page and has room for them, every word pushed for task k lies in the stack block of task k + 3, although the two blocks are apart |
| FrameRuns.FramesSafe | arch/i386/frame.c:121-160 | over every run no frame is handed out while live, total = free + used in 32 bits, the total stays, and the free and used counters keep their distances from the number of clear bits and of live frames |
| FrameRuns.FreeKeeps | arch/i386/frame.c:150-160 | the frame is free afterwards and no other bit changes, the total stays, and the used counter goes down exactly if the frame was used |
| FrameRuns.FreeUndoesAllocate | arch/i386/frame.c:121-160 | giving a frame back right away restores all bits and counters |
| FrameRuns.RegionFrames | arch/i386/frame.c:57-73 | the region loops run over exactly the frames that share a byte with the region |
| FrameRuns.AllocateKeeps | arch/i386/frame.c:121-148 | the result is the lowest free frame, below 4 GiB without wrapping, and 0 only on exhaustion; the total stays and one more is used |
| FrameRuns.OpenedAllKeeps | arch/i386/frame.c:53-67 | free_region clears exactly its frames other than 0, and keeps counters and safety; the used counter stays |
| FrameRuns.ReservedAllKeeps | arch/i386/frame.c:69-83 | reserve_region as written sets no bit, keeps the balance, and makes the free counter drift by the number of marked frames |
| FrameRuns.ReserveWorksIff | arch/i386/frame.c:69-83 | bits and counters come out as the comment of line 75 has it if and only if the region is empty |
| FrameRuns.InitSafe | arch/i386/frame.c:87-113 | whatever region calls frame_init makes, it leaves a state from which all runs are safe, and free are exactly the frames some free_region named |
| FrameRuns.KernelNotReserved | arch/i386/frame.c:111-112 | once the memory map has opened the kernel's frames, the call that should reserve them changes nothing |
| FrameRuns.KernelHandedOut | arch/i386/frame.c:121-148 | the call of alloc_frame that follows as many as there are free frames below the kernel returns the kernel's first frame |
| FrameRuns.KernelOpened | arch/i386/frame.c:111-112 | the concrete case of a bitmap in which just the kernel's region was opened |
| FrameRuns.SameEndIff | arch/i386/frame.c:53-67 | two end frames give the same result if and only if what lies between them is free already |
| FrameRuns.MapEntryOpens | arch/i386/frame.c:103-104 | a page-aligned memory map entry opens as many frames too many as lie below it, or none if its end leaves 32 bits |
| FrameRuns.MapEntryWorksIff | arch/i386/frame.c:103-104 | on the full bitmap the call is right if and only if both ends lie in the same frame, for a page-aligned entry if and only if it starts at 0 |
| FrameAllocator.SetOne | arch/i386/frame.c:38-41 | setting a bit of a word sets that bit and no other |
| FrameAllocator.ClearOne | arch/i386/frame.c:43-46 | clearing a bit of a word clears that bit and no other |
| FrameAllocator.FrameAllocator.FindClear | arch/i386/frame.c:127-135 | the nested search finds the lowest clear bit of the bitmap |
| FrameAllocator.FrameAllocator.AllocFrame | arch/i386/frame.c:121-148 | on the bitmap, the allocation of the model |
| FrameAllocator.FrameAllocator.FreeFrame | arch/i386/frame.c:150-160 | on the bitmap, the release of the model |
| FrameAllocator.FrameAllocator.FreeRegion | arch/i386/frame.c:53-67 | on the bitmap, the region loop of the model, its end computed in 32 bits |
| FrameAllocator.FrameAllocator.ReserveRegion | arch/i386/frame.c:69-83 | the same for the loop as written |
| Paging.PageDirectory.Init | arch/i386/paging.c:71-95 | after paging_init virt_to_phys maps the 4 MiB at 0xC0000000 to physical 0 on, and every other address to 0; the one entry is present, writable and large |
| Paging.SmallPageTranslation | arch/i386/paging.c:108-114 | an address in a 4 KiB page goes to the frame of its table entry, at the same offset, and to 0 if that is missing |
| Paging.LargePageTranslation | arch/i386/paging.c:104-106 | an address in a 4 MiB page goes to the frame of the directory entry, at the same offset |
| Paging.MissingTranslation | arch/i386/paging.c:99-109 | a missing page is 0, and a missing table, exactly then, a null access |
| Paging.IndicesMakeAddress | arch/i386/paging.c:38-59 | directory index, table index and offset together make up the address |
| Paging.BufferContiguous | arch/i386/mm.c:46-47 | every byte of every live heap allocation is at its virtual address less 0xC0000000, so every buffer is physically contiguous |
| Paging.FrameReadsBack | arch/i386/paging.c:35-36 | a frame that is set can be read back |
| Paging.FrameKeepsAttribs | arch/i386/paging.c:34-35 | setting the frame leaves the attributes alone |
| Numbers.PrintParse | kernel/stdlib/itoa.c:22-63 | for every 32-bit integer, parsing what 'd' prints gives the integer back |
| Numbers.DigitsValue | kernel/stdlib/itoa.c:39-45 | the digits evaluate to the number, in both radices |
| Numbers.DigitsCanonical | kernel/stdlib/itoa.c:39-45 | they are digits of the radix, without a leading zero |
| Numbers.TextStandsFor | kernel/stdlib/itoa.c:24-45 | 'x' writes the 32 bits in hexadecimal, 'u' in decimal, 'd' the absolute value behind a sign, all as canonical numerals |
| Numbers.Texts | kernel/stdlib/itoa.c:24-45 | one text of each kind |
| Numbers.TextFits | kernel/stdio/printf.c:27-45 | at most 11 characters are written before the terminator |
| Numbers.WriteDigits | kernel/stdlib/itoa.c:39-45 | the digit loop writes the numeral backwards and nothing else |
| Numbers.ReverseInPlace | kernel/stdlib/itoa.c:50-60 | the swap loop reverses the stretch in place |
| Numbers.Itoa | kernel/stdlib/itoa.c:22-63 | text and terminator are written and nothing behind them |
| Numbers.Atoi | kernel/stdlib/atoi.c:21-48 | space, sign and digit loops compute the number the string denotes, modulo 2^32 |
| Numbers.ParseSpace | kernel/stdlib/atoi.c:26-29 | leading space of each of the six kinds does not count |
| Numbers.ParsePlus | kernel/stdlib/atoi.c:36-39 | neither does a plus sign |
| Numbers.ParseStops | kernel/stdlib/atoi.c:41-45 | nor anything from the first character on that is no digit |
| Numbers.ParseNothing | kernel/stdlib/atoi.c:41-45 | a string that starts with anything else is 0 |
| Numbers.PrintAndParse | kernel/stdio/printf.c:27-45 | the round trip through a 20-byte buffer |

## Left out

- KernelMemory.KernelSafe: a timer tick inside kmalloc, kmalloc_a, kfree or create_kernel_task is not part of its runs, and neither are writes outside blocks; the source excludes neither (HeapCuts, CreateCuts, StackTops).
- KernelMemory.StackSafe: about the block allocated for the stack, not about the bytes the task runs on, which lie elsewhere (StackTops).
- TaskMemory.NewTask: the words setup_stack pushes are not written into the memory of the model; StackTops says where they go.
- KernelHeap.KernelHeap.KmallocInt: on a heap whose headers somebody has overwritten, where its magic check would fire, is not modelled.
- HeapCuts.LateMarkIff: the plain allocator; the aligned one, cut at the same place, is not modelled.
- Scheduler.Scheduler.CreateKernelTask: uninterrupted; CreateCuts treats ticks inside the call, on the ready queue alone and one cut at a time.
- Interrupt handler chains and PIC masks (arch/i386/isr.c, arch/i386/pic.c): a list with append and remove-first, which would only add easy members.
- Register save and restore, the assembly context switch, boot and interrupt stubs.
- The values setup_stack pushes; their place is modelled.
- Parsing of the multiboot memory map; the frame allocator starts from a full bitmap and arbitrary region calls.
- The parent pid of a task, which nothing reads; pids wrap at 2^32 and are not checked for reuse by the source.
- kcalloc and kmalloc_ap as calls: the first adds a multiplication and a memset, the second is covered by BufferContiguous.
- Drivers, network, file systems, terminal and shell.
