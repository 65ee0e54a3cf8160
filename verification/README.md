# A verified model of a small RTOS kernel

The project models an STM32 real-time kernel: its heap allocator, its preemptive scheduler with the
context switch, its interrupt-driven serial driver and its command console, in the configuration
that allocates task stacks on the heap.

Code that changes state is modelled as classes whose methods take the same steps: `Allocator` keeps
its block headers in the same array of words as the payloads, `Scheduler` compacts its table in
place, `Uart` lets the interrupt handler run between any two steps of thread code, `Console` edits a
line buffer that the tokenizer overwrites. Each method is proved against a specification on values,
and the theorems are about those values and about whole runs of them.

| files | what they hold |
|---|---|
| `Machine`, `Blocks`, `Heap`, `HeapLists`, `HeapMemory`, `Allocator`, `HeapTheorems` | the allocator: header words, the block list they encode, what each call does to list and memory, the code, runs |
| `Tasks`, `SchedulerSteps`, `SchedulerTheorems`, `Timing`, `TaskCalls` | the task table as a state machine: safety, fairness, timing, identifiers, and what each call gives its caller |
| `Kernel`, `KernelTheorems`, `Boot`, `BootTheorems`, `Scheduler` | table, heap and registers together: stack ownership, saved contexts, start-up, and the code |
| `Creation` | what may happen before, during and after the critical section of `task_create` |
| `KernelRuns` | every run of the kernel is a run of the scheduler: its theorems, for the kernel and from the start on |
| `Uart`, `UartRows` | the two ring buffers and the TXEIE bit; the transmit rows as they are declared |
| `Text`, `Printf`, `Cli`, `Console` | C strings, numerals, `cli_printf`, the tokenizer, the line editor and the dispatch |

Findings about the code, each stated as a lemma or a contract:

- The allocator is first-fit, although the repository's README calls it best-fit (`HeapTheorems.MallocStep`).
- Initialising the allocator again while something is allocated leaves the heap inconsistent, because
  the counter of allocated bytes is not reset; so does a pool whose size, once aligned, is not a
  multiple of 4 (`Allocators.Allocator.Init`).
- `allocator_realloc` with a size of the last three values of `size_t` rounds up to 0 and shrinks the
  block (`HeapTheorems.ReallocStep`, `Machine.AlignRoundsUp`).
- A second free of a block breaks the counters, whether the block is still listed or has been merged
  away (`HeapTheorems.DoubleFree`); the list itself stays exact (`HeapTheorems.FreeCountsIff`). A
  shrinking realloc can leave two free neighbours until the next free (`HeapTheorems.ShrinkMergedIff`).
- A header word can hold exactly the even sizes (`Machine.PackRoundTrip`).
- `task_create` tests the number of tasks before its critical section and reads the identifier it
  returns after it. Two creators can both pass the test for the last slot, and the second one then
  writes behind the table (`Creation.CreatorsOverrun`); this cannot happen when nobody is admitted
  unless there is room for all admitted before (`Creation.CreatorsFit`). The identifier returned is the
  new task's exactly when no event since has deleted or moved the task (`Creation.ReturnedIdIff`); with
  a zombie in the table a collection in between makes the call return 0 (`Creation.CreatorMisreports`).
- A sleep whose deadline wraps around ends at the first tick (`Timing.SleepEndsEarlyIff`), never ends
  (`Timing.SleepNeverEndsIff`), or in one case is still exact (`Timing.SleepIsExactIff`).
- Unblocking a sleeping task leaves its deadline set, and it is then never picked again
  (`SchedulerTheorems.UnblockedSleeperStarves`).
- Blocking a deleted task revives it (`SchedulerTheorems.BlockRevivesZombie`); it then stays until it
  exits or identifier 0 is deleted (`SchedulerTheorems.RevivedStays`). Deleting identifier 0 reports
  success whenever there is a zombie (`SchedulerTheorems.DeleteHitsIff`).
- A first task that is deleted before the start runs all the same, without an identifier
  (`BootTheorems.StartReachesInv`).
- Transmit rows are declared with 256 cells and indexed up to 512, so each shares its upper half with the
  next one. All instances send their bytes in order exactly when no two active ones are neighbours
  (`UartRows.FifoIff`); as they are registered from 0 upwards, that means a single one
  (`UartRows.RegisteredFifoIff`).
- Hexadecimal output loses its prefix in the last place of the line (`Printf.EmitIsPrefixIff`), and it is
  the usual numeral exactly when it needs no digit above nine; those come out as the letters k to p
  (`Text.HexIsUsualIff`, `Text.HexLetters`).
- Backspace on a full line takes a character other than the one just typed (`Consoles.BackspaceUndoesIff`).

## Model

| member | source | states |
|---|---|---|
| `Machine.AlignRoundsUp` | core/allocator.c:23 | rounding up gives the least multiple of 4 that is big enough, except for the last three sizes, where the 32-bit sum wraps and gives 0 |
| `Machine.HeaderFields` | core/allocator.c:10-24 | size and free flag are read back from the header word they were packed into |
| `Machine.PackRoundTrip` | core/allocator.c:63-68 | the flag is always read back, the size exactly when it is even |
| `Blocks.Conservation` | core/allocator.c:75-194 | in any tiling, payload words and headers add up to the whole heap |
| `Blocks.MergedIsCanonical` | core/allocator.c:132-151 | two tilings of the same heap without free neighbours and with the same allocated blocks are equal |
| `Blocks.CoalesceIsCanonical` | core/allocator.c:132-151 | the merge pass yields the one tiling with the same allocated blocks and no free neighbours, whatever list it starts from |
| `Blocks.CoalesceMerged` | core/allocator.c:132-151 | after the merge pass no two neighbours are free |
| `Blocks.CoalesceLive` | core/allocator.c:132-151 | the merge pass changes no allocated block |
| `Blocks.CoalesceTally` | core/allocator.c:132-151 | each merge turns one header into free payload, and no payload is lost |
| `Allocators.Allocator.Init` | core/allocator.c:52-73 | the heap begins at the least multiple of 4 at or above the pool and reaches exactly to the pool's end; two header words are written and the counters set, except that of allocated bytes; the heap is well formed exactly when that counter was 0 and the aligned pool is a multiple of 4 long and lies in memory; less than a header changes nothing |
| `Allocators.Allocator.Malloc` | core/allocator.c:75-118 | the code does to list, counters and memory what the malloc step says, and keeps the heap well formed |
| `Allocators.Allocator.Search` | core/allocator.c:79-116 | the walk over the headers in memory finds the first free block that fits, or none |
| `Allocators.Allocator.Split` | core/allocator.c:85-97 | splitting writes exactly the four header words of the two parts |
| `Allocators.Allocator.Free` | core/allocator.c:120-152 | for NULL, allocated and stale pointers alike: the word before the pointer gets its flag set and its size booked, with wrap-around, and the whole list is merged; the counters stay right exactly for NULL and allocated blocks, and then the free step is what happens |
| `Allocators.Allocator.Absorb` | core/allocator.c:136-146 | absorbing a free neighbour keeps the merge pass on its way to the same final list |
| `HeapMemory.FreedLive` | core/allocator.c:120-152 | on an allocated block of a well-formed heap no counter wraps |
| `Blocks.CoalesceReaches` | core/allocator.c:132-151 | after the merge pass the header of a former block is a header or payload, never a link |
| `Allocators.Allocator.Realloc` | core/allocator.c:154-194 | the code does what the realloc step says on all its paths |
| `Allocators.Allocator.Move` | core/allocator.c:182-194 | growing moves the whole old payload, or changes nothing when malloc fails |
| `Allocators.Allocator.Memcpy` | core/utils.c:63-70 | the destination holds what the source held, and nothing else is written |
| `Allocators.Allocator.LargestFreeBlock` | core/allocator.c:33-50 | the address of a free block of the largest free size, or 0 when there is none |
| `Allocators.Allocator.GetStats` | core/allocator.c:204-236 | used size is allocated payload plus all headers; the counts are those of the list; the largest block is the maximum |
| `Allocators.Allocator.CheckIntegrity` | core/allocator.c:238-283 | on any well-linked list, 0 exactly when the heap is initialised and both byte counters equal the sums over the list |
| `HeapMemory.GrantIsStep` | core/allocator.c:85-110 | writing the headers of a granted block touches no allocated payload and nothing outside the heap |
| `HeapMemory.MergeSafe` | core/allocator.c:136-146 | merging two headers keeps the list in memory exact and every allocated payload intact |
| `HeapMemory.ShrinkIsEffect` | core/allocator.c:167-180 | shrinking keeps the first words of the block and every other payload |
| `HeapMemory.MoveIsEffect` | core/allocator.c:182-194 | malloc, copy and free together move the contents and leave all others alone |
| `HeapTheorems.MallocStep` | core/allocator.c:75-118 | a granted block is the lowest free block that fits, overlaps no held block, and is between the rounded request and 8 bytes more; a failure changes nothing; merged lists stay merged |
| `HeapTheorems.FreeStep` | core/allocator.c:120-152 | exactly the freed block leaves the allocated set, and no free neighbours remain |
| `HeapTheorems.ReallocStep` | core/allocator.c:154-194 | one block is exchanged for another with the contents kept; in place exactly when it need not grow; big enough exactly when the request is below the last three sizes; a failed grow changes nothing |
| `HeapTheorems.ReallocEnds` | core/allocator.c:154-161 | with NULL it allocates like malloc, with size 0 it frees and returns NULL |
| `HeapTheorems.PayloadsDisjoint` | core/allocator.c:52-194 | different blocks share no word and lie inside the heap |
| `HeapTheorems.MallocSucceedsIff` | core/allocator.c:75-118 | a request succeeds exactly when it is not empty, not beyond the capacity, and its rounded size is at most the largest free block |
| `HeapTheorems.CanonicalControl` | core/allocator.c:120-152 | list and counters of a merged heap are determined by its allocated blocks |
| `HeapTheorems.FreesCommute` | core/allocator.c:120-152 | the order in which two blocks are freed does not matter |
| `HeapTheorems.FreeUndoesMalloc` | core/allocator.c:75-152 | freeing what was just granted restores list and counters exactly when the list had no free neighbours |
| `HeapTheorems.FreeCountsIff` | core/allocator.c:120-152 | freeing any pointer that the list reaches keeps the list exact, and keeps the counters right exactly when the pointer was allocated |
| `HeapTheorems.DoubleFree` | core/allocator.c:120-152 | after a free the pointer is still reached, as a block or inside a merged one, but not allocated; a second free changes no allocated block and takes two from the count of allocated blocks |
| `HeapTheorems.ShrinkMergedIff` | core/allocator.c:167-180 | shrinking leaves free neighbours exactly when it splits in front of a free block |
| `HeapTheorems.RunKeepsHeap` | core/allocator.c:52-194 | over every run from init: exact tiling, counters equal to sums and counts, free plus allocated plus headers equal the capacity, and with nothing allocated the state after init again |
| `HeapTheorems.RunKeepsTidy` | core/allocator.c:120-181 | over every run, free neighbours exist only while something is allocated |
| `HeapTheorems.RunSparesOthers` | core/allocator.c:75-194 | over every run, a block that no call names stays allocated with every payload word intact, and nothing outside the heap is written |
| `Tasks.RankMonotone` | core/scheduler.c:397-445 | compaction keeps order and never moves entries apart |
| `Tasks.SurvivorAt` | core/scheduler.c:397-445 | every surviving entry is found unchanged at its new place |
| `Tasks.Origin` | core/scheduler.c:397-445 | every entry after compaction comes from a surviving entry before |
| `SchedulerSteps.SwitchRunsOne` | core/scheduler.c:203-252 | after a switch exactly one task is RUNNING, the one all three variables designate, and it was READY: the fallback is never taken, whatever ticks strike during the search |
| `SchedulerSteps.GcIsStableFilter` | core/scheduler.c:397-445 | compaction keeps order and contents of survivors, leaves no hole, zeroes freed slots, and the pointers and the index designate the same tasks |
| `SchedulerSteps.StepKeepsGood` | core/scheduler.c:106-499 | every kernel call, tick and switch keeps the table well formed, also blocking a deleted task; `task_create` is two steps, its check and its section, and a switch records the stack pointer as PendSV_Handler does |
| `SchedulerTheorems.RunKeepsGood` | core/scheduler.c:106-499 | over every run, with any steps between the check and the section of a creation, the pointers and the index agree, the idle task exists, stacks are distinct, slots above the count are zeroed; that a section finds its slot in the table is `Creation.CreatorsFit` |
| `SchedulerTheorems.RunHasOneRunning` | core/scheduler.c:203-252 | over every run at most one task is RUNNING, and exactly one right after a switch |
| `SchedulerTheorems.StepMoves` | core/scheduler.c:397-445 | a task that is not garbage keeps its stack through every step and moves only under compaction |
| `SchedulerTheorems.SwitchCloses` | core/scheduler.c:216-233 | a switch that passes over a ready task brings the ring strictly closer to it |
| `SchedulerTheorems.GcCloses` | core/scheduler.c:397-445 | compaction never moves a surviving task away in the ring |
| `SchedulerTheorems.StepDistance` | core/scheduler.c:203-252 | the ring distance of a waiting task falls at each switch, rises by at most one per create, and otherwise never rises |
| `SchedulerTheorems.RunDistance` | core/scheduler.c:203-252 | over every run, distance plus switches is at most the distance at the start plus creations |
| `SchedulerTheorems.BoundedWaiting` | core/scheduler.c:203-252 | a task cannot stay ready and unpicked for as many switches as there were tasks, plus those created since |
| `SchedulerTheorems.SleepStarts` | core/scheduler.c:458-483 | a sleeping task is blocked with its deadline |
| `SchedulerTheorems.RunSleeps` | core/scheduler.c:458-499 | over every run that leaves it alone, a sleeper stays asleep, so unpicked, before its deadline, and the step that reaches it wakes it |
| `SchedulerTheorems.UnblockMakesEligibleIff` | core/scheduler.c:272-284 | unblocking makes a task eligible exactly when it was not sleeping, and otherwise leaves it READY with its deadline set |
| `SchedulerTheorems.UnblockedSleeperStarves` | core/scheduler.c:222-281 | an unblocked sleeper is never picked again in any run that leaves it alone |
| `SchedulerTheorems.BlockedStays` | core/scheduler.c:256-268 | a blocked task without a deadline stays BLOCKED over every run in which nobody unblocks or deletes it |
| `SchedulerTheorems.BlockRevivesZombie` | core/scheduler.c:256-268 | a zombie survives a collection exactly when it was blocked before |
| `SchedulerTheorems.StepRetiresIff` | core/scheduler.c:306-386 | a revived task is retired by a step exactly when it exits, or another task deletes identifier 0 and no slot before it has that |
| `SchedulerTheorems.RevivedStays` | core/scheduler.c:256-445 | over every run in which neither happens, the revived task stays in the table |
| `SchedulerTheorems.DeleteHitsIff` | core/scheduler.c:306-340 | deleting a real identifier succeeds exactly when a live task other than idle and caller has it, and retires that one; deleting 0 succeeds exactly when there is a zombie, and changes nothing |
| `SchedulerTheorems.RunKeepsOrder` | core/scheduler.c:130-175 | over every run of at most 65535 creations, tasks that have an identifier stand in strictly increasing order of it, and zombies have none |
| `SchedulerTheorems.StepKeepsNamesIff` | core/scheduler.c:256-268 | a step leaves a live task without an identifier exactly when it blocks a deleted one |
| `SchedulerTheorems.RunKeepsNames` | core/scheduler.c:130-175 | while no deleted task is blocked, every live task has an identifier, so all live tasks stand in increasing order |
| `Timing.TickByTick` | core/scheduler.c:486-499 | after any number of ticks a sleeper is eligible if its deadline has come at one of them, and asleep otherwise |
| `Timing.SleepIsExactIff` | core/scheduler.c:458-499 | a task that sleeps n ticks is blocked until the n-th tick and eligible at it if and only if the deadline does not wrap, or the sleep starts at the last tick before the wrap and lasts at least two |
| `Timing.SleepNeverEndsIff` | core/scheduler.c:458-499 | it sleeps through any number of ticks if and only if its deadline wraps to 0 |
| `Timing.SleepEndsEarlyIff` | core/scheduler.c:458-499 | every other sleep is over at the first tick |
| `Timing.StaysWaiting` | core/scheduler.c:203-252 | an eligible task that is left alone and not picked stays eligible in every step |
| `Timing.ReadyTaskRuns` | core/scheduler.c:203-252 | an eligible task that is left alone is picked within as many switches as there are tasks, plus those created since |
| `Timing.SleeperRuns` | core/scheduler.c:458-499 | a sleeper that is left alone is not picked before its deadline, and is picked within as many switches after it as there are tasks, plus those created since |
| `TaskCalls.CreatedEntry` | core/scheduler.c:156-171 | a created task is READY without a deadline, not idle, with the next identifier and the stack it was given, and no other entry changes |
| `TaskCalls.CreatedTaskRuns` | core/scheduler.c:106-252 | over every run a created task that is left alone is switched to within as many switches as there are tasks then, plus those created later |
| `TaskCalls.DeleteResults` | core/scheduler.c:306-340 | the result is "not found" exactly when no entry has the identifier, "idle" or "current" exactly when the first that has it is that, and the table is unchanged; otherwise that entry and no other becomes a zombie |
| `TaskCalls.BlockStops` | core/scheduler.c:256-268 | any used entry but the idle one becomes BLOCKED, keeps its deadline, and is not eligible; nothing else changes |
| `TaskCalls.BlockLasts` | core/scheduler.c:256-268 | from the call on it stays BLOCKED over every run in which nobody unblocks or deletes it, if it was not sleeping |
| `TaskCalls.UnblockFrees` | core/scheduler.c:272-284 | exactly a BLOCKED task becomes READY, and nothing else changes |
| `TaskCalls.UnblockRunsIff` | core/scheduler.c:222-284 | an unblocked task that is left alone for enough switches is switched to if and only if it was not sleeping |
| `TaskCalls.SleepRefuses` | core/scheduler.c:458-476 | sleeping for no ticks changes nothing, and the idle task is never blocked by it |
| `Creation.SectionFitsIff` | core/scheduler.c:128-140 | the slot that the section of a creation fills lies in the table exactly when the table is not full on entry |
| `Creation.CreatorsOverrun` | core/scheduler.c:106-140 | with one slot left, a creator that is preempted between check and section finds its slot behind the table |
| `Creation.CreatorsFit` | core/scheduler.c:106-140 | over every run in which nobody is admitted unless count and admitted creators together leave room, every section finds its slot in the table |
| `Creation.ReturnedIdIff` | core/scheduler.c:180-183 | over every run from the end of the section, what the call returns is the identifier of the new task exactly when no event since has deleted the task or moved it |
| `Creation.CreatorMisreports` | core/scheduler.c:180-183 | with a zombie in the table, a collection between section and read empties the slot, and the call returns 0 |
| `KernelRuns.StepProjects` | core/scheduler.c:106-499 | every action of the kernel is one event of the scheduler, with exactly the table that the action leaves |
| `KernelRuns.RunProjects` | core/scheduler.c:106-499 | the tables of every kernel run are a run of the scheduler |
| `KernelRuns.KernelOneRunning` | core/context_switch.S:79-105 | over every kernel run at most one task is RUNNING, and right after PendSV exactly the one it picked |
| `KernelRuns.KernelReadyTaskRuns` | core/scheduler.c:203-252 | in every kernel run a ready task that is left alone is switched to within as many switches as there are tasks, plus those created since |
| `KernelRuns.SpawnedTaskRuns` | core/scheduler.c:106-252 | in every kernel run a created task that is left alone is switched to within the same bound |
| `KernelRuns.StartedTaskRuns` | core/scheduler.c:187-252 | so is every task created before the start, unless it was blocked or deleted there; the first one runs at once |
| `KernelRuns.KernelSleeperRuns` | core/scheduler.c:458-499 | in every kernel run a sleeper that is left alone is not switched to before its deadline, and is within as many switches after it |
| `KernelRuns.KernelSleeperStarves` | core/scheduler.c:222-281 | in every kernel run an unblocked sleeper that is left alone is never switched to |
| `KernelRuns.KernelRevivedStays` | core/scheduler.c:256-445 | in every kernel run a revived task stays while nothing retires it |
| `KernelRuns.SpawnersFit` | core/scheduler.c:106-140 | in every kernel run in which nobody is admitted unless there is room for all admitted before, each section finds its slot in the table |
| `KernelRuns.KernelReturnedIdIff` | core/scheduler.c:180-183 | the same condition for the identifier returned, over every kernel run |
| `KernelRuns.OrderFromStart` | core/scheduler.c:130-200 | from the start on and for 65535 creations, tasks that have an identifier stand in increasing order of it, and those are all live tasks if no deleted one is blocked and the first was not deleted before the start |
| `Kernels.FirstPspFits` | core/scheduler.c:117-164 | the allocated size is a multiple of 8; the first frame lies above the canary, inside the stack, at most one word below its end, with its top word on an 8-byte boundary |
| `Kernels.StackBytes` | core/scheduler.c:113-122 | the stack size is the least multiple of 8 that is big enough, and at least 512 |
| `KernelTheorems.InvokeKeepsInv` | core/scheduler.c:256-499 | ticks and task calls keep ownership and saved contexts |
| `KernelTheorems.AllocKeepsInv` | core/allocator.c:75-118 | a task's own allocation disturbs no stack |
| `KernelTheorems.DropKeepsInv` | core/allocator.c:120-152 | a task's own free disturbs no stack |
| `KernelTheorems.ResizeKeepsInv` | core/allocator.c:154-194 | a task's own resizing disturbs no stack |
| `KernelTheorems.OwnWritesSpare` | core/scheduler.c:142-159 | writes to one's own stack, payloads and memory outside the heap reach no header and no other stack |
| `KernelTheorems.SwapRestores` | core/context_switch.S:79-105 | the task switched to finds the registers, the stack pointer and the stack recorded for it |
| `KernelTheorems.SpawnSuspends` | core/scheduler.c:106-183 | a created task has a new stack, big enough, with eight zeros and the hardware frame in bounds above the canary, which is 0xDEADBEEF in its first word; the call returns the task's identifier |
| `KernelTheorems.CreateFailsIff` | core/scheduler.c:106-155 | creation fails, and then changes nothing, exactly without a function, with a stack beyond 8192 bytes, with a full table, or when no free block holds the stack |
| `KernelTheorems.GcStacksAre` | core/scheduler.c:397-445 | compaction drops exactly the stacks of the zombies |
| `KernelTheorems.ReapKeepsInv` | core/scheduler.c:397-445 | collection frees the stack of every zombie, once, and no other block |
| `KernelTheorems.InvIsReady` | core/scheduler.c:397-413 | in a reachable state every zombie's stack may be freed, and every context that could be popped lies in memory |
| `KernelTheorems.RunKeepsInv` | core/scheduler.c:106-445 | over every run, with any steps between the check and the section of a creation, the allocated blocks are exactly the stacks of the table and the tasks' own payloads, no stack is shared, and each is as big as recorded; that a section finds its slot in the table is `KernelRuns.SpawnersFit` |
| `KernelTheorems.RunKeepsSaved` | core/context_switch.S:79-105 | over every run a context changes only when its task is switched away from |
| `KernelTheorems.ResumeRestoresContext` | core/context_switch.S:79-105 | a task resumes with the registers, stack pointer and stack it had when it was switched away from, whatever ran in between and wherever its entry moved |
| `KernelTheorems.FirstResumeReadsFrame` | core/scheduler.c:36-64 | the first resume loads zeros and finds exactly the frame laid down at creation, in bounds |
| `Boots.StartIsGood` | core/scheduler.c:68-197 | creating the idle task and entering the first task gives a well-formed table |
| `BootTheorems.BootRun` | core/scheduler.c:93-340 | any sequence of creations, failing or not, and of calls and ticks after power-up leaves a table that can be started |
| `BootTheorems.StartReachesInv` | core/scheduler.c:187-200 | starting establishes the invariant and the identifier order of all later runs; the first task runs with the context recorded for it, and the others wait to be picked; every live task has an identifier exactly when that held before and the first task was not deleted |
| `Schedulers.Scheduler.SysTick` | drivers/systick.c:50-58 | the handler is the tick step |
| `Schedulers.Scheduler.WakeSleepingTasks` | core/scheduler.c:486-499 | exactly the blocked tasks whose deadline has come are woken |
| `Schedulers.Scheduler.ScheduleNextTask` | core/scheduler.c:203-252 | with ticks before every look at the table, the task picked is eligible and no farther round the ring than any that was eligible at the start; the idle task only when none was |
| `Schedulers.Scheduler.PendSV` | core/context_switch.S:79-105 | saving, choosing, restoring and publishing are the switch step |
| `Schedulers.Scheduler.TaskBlock` | core/scheduler.c:256-268 | the code is the block step |
| `Schedulers.Scheduler.TaskUnblock` | core/scheduler.c:272-284 | the code is the unblock step |
| `Schedulers.Scheduler.TaskBlockCurrent` | core/scheduler.c:288-302 | the current task, if there is one, is blocked as by `task_block` |
| `Schedulers.Scheduler.TaskDelete` | core/scheduler.c:306-340 | the code is the delete step, with its four results |
| `Schedulers.Scheduler.TaskExit` | core/scheduler.c:380-386 | the code is the exit step |
| `Schedulers.Scheduler.TaskSleepTicks` | core/scheduler.c:458-483 | the code is the sleep step, and fails only without ticks or task |
| `Schedulers.Scheduler.TaskCreate` | core/scheduler.c:106-183 | the three parts in sequence with nothing between them, as before the start: entry, stack from the heap, first frame and canary; a failure changes nothing |
| `Schedulers.Scheduler.CreateCheck` | core/scheduler.c:106-128 | the tests before the section, and the stack size that comes out of them |
| `Schedulers.Scheduler.CreateSection` | core/scheduler.c:128-180 | the critical section is the create step, entered with room in the table |
| `Schedulers.Scheduler.InitializeStack` | core/scheduler.c:36-64 | sixteen words are written downwards, and no others |
| `Schedulers.Scheduler.SchedulerStart` | core/scheduler.c:187-200 | with at least one task, the idle task is created and marked and the first task is current; without any, nothing happens |
| `Schedulers.Scheduler.TaskGarbageCollection` | core/scheduler.c:397-445 | the in-place loop computes the stable filter and frees each zombie's stack once |
| `Uarts.RingPush` | drivers/uart.c:592-596 | the ring is full exactly with one cell unused; otherwise a stored byte is appended |
| `Uarts.RingPop` | drivers/uart.c:611-618 | the byte at the tail is the oldest |
| `Uarts.RingLength` | drivers/uart.c:529-542 | the distance formula is the number of bytes in the ring |
| `Uarts.RingAdvance` | drivers/uart.c:556-562 | moving the tail drops that many bytes from the front |
| `Uarts.Uart.IrqHandler` | drivers/uart.c:571-623 | one interrupt appends the received byte or counts an overflow, sends the oldest pending byte or shuts the source, and counts an error |
| `Uarts.Uart.Available` | drivers/uart.c:529-542 | the number of unread bytes |
| `Uarts.Uart.ReadBuffer` | drivers/uart.c:546-567 | interrupted between any two steps, also between its looks at head and tail, the reader gets the oldest bytes in order, all it asked for or all that were there, and writes no more of the destination; delivered plus waiting is always what was accepted |
| `Uarts.Uart.TxPendingCount` | drivers/uart.c:720-732 | the number of bytes not yet sent |
| `Uarts.Uart.WriteBuffer` | drivers/uart.c:657-699 | interrupted between any two steps, also between its looks at head and tail, a prefix is queued, as long as there was room for, and the transmit interrupt is on; sent plus pending is always what was queued |
| `Uarts.Uart.Drain` | drivers/uart.c:610-623 | finitely many transmit interrupts send everything pending in order and shut the source |
| `Uarts.Uart.Traffic` | drivers/uart.c:610-699 | in any interleaving of interrupts and writers, as many transmit interrupts as there were bytes pending have sent all those |
| `UartRows.RowInArrayIff` | drivers/uart.c:158 | all cells of a row lie in the array exactly for rows other than the last |
| `UartRows.RunKeepsFifo` | drivers/uart.c:610-689 | over every run of instances no two of which are neighbours, what each was given is what it has sent and what is pending, in order |
| `UartRows.NeighboursCollide` | drivers/uart.c:686 | with 257 bytes pending on one instance, one byte queued on the next overwrites the last of them |
| `UartRows.FifoIff` | drivers/uart.c:158 | all active instances keep their order over every run exactly when no two are neighbours |
| `UartRows.RegisteredFifoIff` | drivers/uart.c:179-201 | with instances registered from 0 upwards, exactly when there is at most one |
| `Text.Atoi` | core/utils.c:44-53 | the value of the leading digits, when it fits an int |
| `Text.StrCmp` | core/utils.c:72-78 | 0 exactly for equal strings, otherwise the difference at the first mismatch |
| `Text.ValueOfDecimal` | core/cli.c:137-150 | the numeral of n consists of digits and denotes n |
| `Text.DecimalRoundTrip` | core/utils.c:44-53 | parsing a numeral gives the number back, whatever non-digit follows |
| `Text.WordDigits` | core/cli.c:137-143 | a 32-bit number has at most ten decimal and eight hexadecimal digits |
| `Text.HexIsUsualIff` | core/cli.c:158-168 | the hexadecimal digits printed are the usual numeral exactly when none of them is above nine |
| `Text.HexLetters` | core/cli.c:162 | ten to fifteen come out as k to p |
| `Printf.EmitIsPrefixIff` | core/cli.c:105-193 | the output is the first 127 characters of the full expansion exactly unless a non-zero hexadecimal conversion starts in the last place |
| `Printf.PrintedThenParsed` | core/cli.c:137-150 | with ten places left, what %u prints is read back as the same number |
| `Printf.PrintsInt` | core/cli.c:114-136 | with eleven places left, what %d prints is a minus sign exactly for negative numbers, then digits that denote the absolute value |
| `Printf.PrintsOthers` | core/cli.c:151-182 | what %c, %s and %x print, and that NULL prints nothing |
| `Printf.PrintsPercent` | core/cli.c:183-188 | %% prints one percent sign, an unknown conversion nothing |
| `Printf.Digits` | core/cli.c:127-131 | the digit loop stores the whole numeral backwards; its bound never cuts |
| `Printf.PutNumber` | core/cli.c:133-136 | the numeral is appended as far as the line allows |
| `Printf.PutString` | core/cli.c:170-177 | the string is appended as far as the line allows |
| `Printf.Format` | core/cli.c:105-200 | the loop writes what the formatter's specification says, ends it with NUL, and never writes past the 128 cells |
| `Clis.SplitBlank` | core/cli.c:24-47 | a line of blanks has no words |
| `Clis.SplitWord` | core/cli.c:24-47 | a word after any blanks is the first of the words |
| `Clis.SplitJoin` | core/cli.c:24-47 | words joined by blanks split into themselves |
| `Clis.NoWordsIff` | core/cli.c:24-47 | a line has no words exactly when it holds only blanks and tabs |
| `Clis.SplitSuffix` | core/cli.c:24-47 | the line from a word on holds that word and all later ones |
| `Clis.Tokenize` | core/cli.c:24-47 | in place, argv points at the words of the line as C strings; on a line of more than fifteen the first fifteen agree and the last is the rest of the line |
| `Consoles.UnregisterUndoesIff` | core/cli.c:204-223 | unregistering undoes a registration exactly unless an older, different command has the name |
| `Consoles.UnregisterSparesIff` | core/cli.c:214-223 | removing one name changes what another runs exactly when that one was registered twice, differently, and the last registration moves in front |
| `Consoles.UnknownText` | core/cli.c:70-73 | the complaint about an unknown name, cut at 127 characters, and the hint after it |
| `Consoles.TypedInTwo` | core/cli.c:239-280 | typing in two goes is typing at once |
| `Consoles.TypingFillsTheLine` | core/cli.c:270-278 | printable keys are stored and echoed until the line holds 127 |
| `Consoles.BackspaceUndoesIff` | core/cli.c:263-278 | backspace undoes a printable key exactly when the line was not full |
| `Consoles.TypedCommandRuns` | core/cli.c:50-77 | up to fifteen words, typed and ended with Enter, reach the handler of the first command of that name unchanged; an unknown name reaches none |
| `Consoles.LongLine` | core/cli.c:24-47 | beyond fifteen words the sixteenth argument is the end of the line and holds all the remaining words |
| `Consoles.KeyEffects` | core/cli.c:256-278 | by code of the key: 10 and 13 finish the line, 8 and 127 erase and rub out, 32 to 126 are added and echoed while there is room, all others do nothing |
| `Consoles.FinishedLine` | core/cli.c:50-77 | after every finished line a new line comes first and the prompt last, one handler is called exactly if the first word is registered, and on a line of blanks nothing else happens |
| `Consoles.BlankLine` | core/cli.c:57-59 | blanks and Enter give their echoes, a new line and the prompt |
| `Consoles.Console.Register` | core/cli.c:204-210 | a complete command is added at the end unless the table is full |
| `Consoles.Console.Unregister` | core/cli.c:214-223 | the last command takes the place of the first of that name |
| `Consoles.Console.ProcessCmd` | core/cli.c:50-77 | the dispatch does what the specification of a reply says for the line in the buffer |
| `Consoles.Console.Keystroke` | core/cli.c:256-279 | each key edits the line and answers as specified, and keeps the line within 127 printable characters |

## Left out

- Byte granularity of memory: RAM is an array of 32-bit words below 4 GB, and `memcpy` moves a word at a time; every size the allocator copies is a multiple of 4.
- `Allocators.Allocator.Init`: the pool address is not NULL and does not wrap when it is aligned, and the first header fits in memory. Calls on a heap that is not well formed are modelled for `allocator_free` and `allocator_check_integrity` only.
- `Allocators.Allocator.Free`: the pointer is NULL, or the word before it is the header or payload of a listed block; a pointer that would set the flag in a link word, or outside the heap, is left out.
- `Allocators.Allocator.Realloc`: the pointer is NULL or allocated.
- `SchedulerTheorems.RunKeepsOrder`: states nothing beyond 65535 creations, after which the 16-bit identifiers repeat.
- `KernelTheorems.RunKeepsInv`: running code writes only its own stack, payloads it holds and memory outside the heap; a stack overflow is outside the model.
- `KernelTheorems.ResumeRestoresContext`: the hardware's own part of a context is taken as pushed and popped faithfully.
- `Schedulers.Scheduler.SchedulerStart`: stops before the assembly entry `task_create_first`, whose load of registers and stack pointer is part of `BootTheorems.StartReachesInv`; the jump itself is left out.
- `Boots.StartIsGood`: assumes that the idle task's stack could be allocated; a system without an idle task is not followed further.
- `Uarts.Uart.WriteBuffer`: a transmit row has the 512 cells its indices run over, all its own; what the rows as declared come to is `UartRows.FifoIff`.
- `Text.Atoi`: the number read fits an int, and the most negative int is not given to `%d`; beyond that C leaves the arithmetic undefined.
- `Printf.Format`: the format does not end in a lone `%` and the arguments have the types it asks for.
- `Consoles.Console.ProcessCmd`: what a command's handler does is outside; the model records which handler is called with which strings. Re-entry into the console from a handler is left out.
- `HeapTheorems.RunKeepsHeap`: runs begin at the first initialisation; later ones are `Allocators.Allocator.Init`.
- `Schedulers.Scheduler.CreateSection`: is not followed beyond the end of the table; `Creation.SectionFitsIff` says when it gets there.
- `Schedulers.Scheduler.TaskCreate`: nothing runs between its parts; what may is in `Creation`.
- Critical sections are atomic; the BASEPRI values that implement them and `core/stm32_alloc.c` are left out. Ticks during the search for the next task and interrupts inside the serial driver's calls are modelled although critical sections would exclude some of them.
- The console's sleep of 20 ticks when no character is there (core/cli.c:250-254).
- Pending a switch (`yield_cpu`) is not tracked: a switch may happen at any point of a run.
- The idle task's loop, which runs the collector every so many ticks: a collection may happen at any point of a run.
- Static stack allocation, `task_check_stack_overflow`, floating-point registers and memory barriers.
- Clock, GPIO and baud-rate set-up, polled transfers, `uart_flush`, and the receive callback.
- The help command's output, `app/app_commands.c`, and the allocator's two one-line getters: easy members.
