/** The scheduler's code over its table: each call is proved to do to the table, the heap and the
    registers exactly what the kernel's state machine says. */
module Schedulers {
  import opened Machine
  import opened Blocks
  import opened Heaps
  import opened HeapLists
  import opened HeapMemory
  import HeapTheorems
  import opened Allocators
  import opened Tasks
  import opened SchedulerSteps
  import opened Kernels
  import opened Boots

  class Scheduler {
    const taskList: array<Task>
    const heap: Allocator
    const taskExit: Word     // address of task_exit
    const idleFunction: Word // address of the idle loop
    var current: Ref
    var next: Ref
    var count: nat
    var curIdx: nat
    var nextId: nat
    var idle: Ref
    var ticks: Word          // systick_ticks
    var regs: seq<Word>      // R4 to R11 of the running task
    var psp: nat             // its process stack pointer, in words

    ghost function K(): Sched
      reads this, taskList
    {
      Sched(taskList[..], count, current, next, curIdx, nextId, idle, ticks)
    }

    ghost function X(): Kernel
      reads this, taskList, heap, heap.ram
    {
      Kernel(K(), heap.State(), regs, psp)
    }

    ghost predicate Shape()
      reads this
    {
      && taskList.Length == MAX_TASKS && count <= MAX_TASKS
      && (current.At? ==> current.index < MAX_TASKS)
      && (next.At? ==> next.index < MAX_TASKS)
      && (idle.At? ==> idle.index < MAX_TASKS)
    }

    constructor (memory: Allocator, exit: Word, idleEntry: Word)
      ensures Shape() && heap == memory && taskExit == exit && idleFunction == idleEntry
      ensures K() == Sched(Zeroed(MAX_TASKS), 0, Null, Null, 0, 0, Null, 0)
      ensures fresh(taskList)
    {
      taskList := new Task[MAX_TASKS](i => NO_TASK);
      heap, taskExit, idleFunction := memory, exit, idleEntry;
      current, next, idle := Null, Null, Null;
      count, curIdx, nextId, ticks := 0, 0, 0, 0;
      regs, psp := [0, 0, 0, 0, 0, 0, 0, 0], 0;
    }

    // ---------- ticks ----------

    method SysTick()
      requires Shape()
      modifies this`ticks, taskList
      ensures K() == Tasks.Tick(old(K()))
    {
      ticks := (ticks + 1) % WORD_LIMIT;
      WakeSleepingTasks();
    }

    method WakeSleepingTasks()
      requires Shape()
      modifies taskList
      ensures taskList[..] == Wake(old(taskList[..]), count, ticks)
    {
      var i := 0;
      while i < count
        invariant i <= count
        invariant forall j :: 0 <= j < MAX_TASKS ==>
                    taskList[j] == if j < i then WakeTask(old(taskList[j]), ticks) else old(taskList[j])
      {
        if taskList[i].state == Blocked && taskList[i].sleepUntil != 0 && ticks >= taskList[i].sleepUntil {
          taskList[i] := taskList[i].(state := Ready);
          taskList[i] := taskList[i].(sleepUntil := 0);
        }
        i := i + 1;
      }
    }

    /** Any number of SysTick interrupts. */
    method Interrupts() returns (ghost n: nat)
      requires Shape()
      modifies this`ticks, taskList
      ensures K() == Ticks(old(K()), n)
    {
      var pending: nat := *;
      n := 0;
      while pending > 0
        invariant K() == Ticks(old(K()), n)
      {
        SysTick();
        pending, n := pending - 1, n + 1;
      }
    }

    // ---------- choosing ----------

    method ScheduleNextTask() returns (ghost n: nat, ghost c: nat)
      requires Shape() && (current.At? && 0 < count ==> curIdx < count)
      requires idle.At? ==> idle.index < count
      modifies this`curIdx, this`next, this`current, this`ticks, taskList
      ensures count == 0 ==> K() == old(K())
      ensures count > 0 && old(current) == Null ==> K() == FirstRuns(old(K()))
      ensures count > 0 && old(current) != Null ==>
                && Picks(Demote(old(K())), Ticks(Demote(old(K())), n), c)
                && K() == Promote(Ticks(Demote(old(K())), n), c)
    {
      n, c := 0, 0;
      if count == 0 { return; }
      if current == Null {
        curIdx := 0;
        current := At(0);
        taskList[0] := taskList[0].(state := Running);
        next := current;
        return;
      }
      n, c := Scan();
    }

    /** The round-robin search, with interrupts allowed before every look at the table. */
    method Scan() returns (ghost n: nat, ghost c: nat)
      requires Shape() && 0 < count && curIdx < count && current.At?
      requires idle.At? ==> idle.index < count
      modifies this`curIdx, this`next, this`ticks, taskList
      ensures Picks(Demote(old(K())), Ticks(Demote(old(K())), n), c)
      ensures K() == Promote(Ticks(Demote(old(K())), n), c)
    {
      hide Ticks, Scanning, Picks, Dist, NoneEligible;
      ghost var d := Demote(K());
      var candidate: nat := (curIdx + 1) % count;
      if taskList[current.index].state == Running {
        taskList[current.index] := taskList[current.index].(state := Ready);
      }
      assert K() == d;
      ScanStarts(d, candidate);
      n := 0;
      var i := 0;
      while i < count
        invariant i <= count && Scanning(d, K(), n, i, candidate)
        invariant K() == d.(tasks := taskList[..], ticks := ticks)
        invariant i < count ==> candidate < count
      {
        n := Look(d, n, i, candidate);
        var t := taskList[candidate];
        if t.state == Ready && !t.isIdle && t.sleepUntil == 0 {
          ScanFound(d, K(), n, i, candidate);
          curIdx := candidate;
          next := At(candidate);
          taskList[candidate] := t.(state := Running);
          return n, candidate;
        }
        ScanMisses(d, K(), n, i, candidate);
        candidate := (candidate + 1) % count;
        i := i + 1;
      }
      n := Look(d, n, i, candidate);
      ScanFails(d, K(), n, candidate);
      c := Fallback();
    }

    /** Interrupts before the next look at the table. */
    method Look(ghost d: Sched, ghost n: nat, ghost i: nat, ghost candidate: nat) returns (ghost n': nat)
      requires Shape() && Scanning(d, K(), n, i, candidate)
      requires K() == d.(tasks := taskList[..], ticks := ticks)
      modifies this`ticks, taskList
      ensures Scanning(d, K(), n', i, candidate) && K() == Ticks(d, n')
      ensures K() == d.(tasks := taskList[..], ticks := ticks)
    {
      hide Ticks, Dist;
      ghost var e := K();
      ghost var more := Interrupts();
      ScanTicks(d, e, n, more, i, candidate);
      n' := n + more;
    }

    /** No task was found: the idle task, or whatever the index designates. */
    method Fallback() returns (ghost c: nat)
      requires Shape() && 0 < count && curIdx < count && (idle.At? ==> idle.index < count)
      modifies this`curIdx, this`next, taskList
      ensures c == if old(idle.At? && taskList[idle.index].state == Ready) then idle.index else old(curIdx)
      ensures K() == Promote(old(K()), c)
    {
      if idle != Null && taskList[idle.index].state == Ready {
        next := idle;
        c := idle.index;
        taskList[next.index] := taskList[next.index].(state := Running);
        IndexOfIdle();
        return;
      }
      c := curIdx;
      next := At(curIdx);
      taskList[next.index] := taskList[next.index].(state := Running);
    }

    /** The loop that looks up the idle task's own slot. */
    method IndexOfIdle()
      requires idle.At? && idle.index < count
      modifies this`curIdx
      ensures curIdx == idle.index
    {
      var i := 0;
      while i < count
        invariant i <= idle.index
      {
        if At(i) == idle {
          curIdx := i;
          return;
        }
        i := i + 1;
      }
    }

    // ---------- PendSV ----------

    method PendSV() returns (ghost n: nat, ghost c: nat)
      requires Shape() && 0 < count && curIdx < count && current.At?
      requires idle.At? ==> idle.index < count
      requires |regs| == 8 && 8 <= psp <= heap.ram.Length
      requires forall i :: 0 <= i < count && At(i) != current ==> taskList[i].psp + 8 <= heap.ram.Length
      modifies this, taskList, heap.ram
      ensures SwitchEffect(old(X()), n, c, X())
    {
      hide Picks, Ticks, Push, Demote;
      ghost var x := X();
      PushRegisters();
      psp := psp - 8;
      taskList[current.index] := taskList[current.index].(psp := psp);
      ghost var k1 := K();
      assert k1 == Stash(x.k, x.psp - 8);
      n, c := ScheduleNextTask();
      PickedInTable(k1, n, c);
      var q := taskList[next.index].psp;
      regs := heap.ram[q..q + 8];
      psp := q + 8;
      current := next;
      assert X().h == x.h.(m := Push(x.h.m, x.psp, x.regs));
    }

    method PushRegisters()
      requires |regs| == 8 && 8 <= psp <= heap.ram.Length
      modifies heap.ram
      ensures heap.ram[..] == Push(old(heap.ram[..]), psp, regs)
    {
      var i := 0;
      while i < 8
        invariant i <= 8
        invariant forall j :: 0 <= j < heap.ram.Length ==>
                    heap.ram[j] == if psp - 8 <= j < psp - 8 + i then regs[j - (psp - 8)] else old(heap.ram[j])
      {
        heap.ram[psp - 8 + i] := regs[i];
        i := i + 1;
      }
    }

    // ---------- task calls ----------

    method TaskBlock(task: Ref)
      requires Shape() && (task.At? ==> task.index < MAX_TASKS)
      modifies taskList
      ensures K() == if task.At? then Tasks.Block(old(K()), task.index) else old(K())
    {
      if task == Null { return; }
      if taskList[task.index].state != Unused && !taskList[task.index].isIdle {
        taskList[task.index] := taskList[task.index].(state := Blocked);
      }
    }

    method TaskUnblock(task: Ref)
      requires Shape() && (task.At? ==> task.index < MAX_TASKS)
      modifies taskList
      ensures K() == if task.At? then Tasks.Unblock(old(K()), task.index) else old(K())
    {
      if task == Null { return; }
      if taskList[task.index].state == Blocked {
        taskList[task.index] := taskList[task.index].(state := Ready);
      }
    }

    method TaskBlockCurrent()
      requires Shape()
      modifies taskList
      ensures K() == if current.At? then Tasks.Block(old(K()), current.index) else old(K())
    {
      TaskBlock(current);
    }

    method TaskDelete(id: nat) returns (result: DeleteResult)
      requires Shape()
      modifies taskList
      ensures (K(), result) == Tasks.Delete(old(K()), id)
    {
      var i := 0;
      while i < count
        invariant i <= count && forall j :: 0 <= j < i ==> taskList[j].id != id
      {
        if taskList[i].id == id { break; }
        i := i + 1;
      }
      FindIdUnique(taskList[..], count, id, i);
      if i == count { return NotFound; }
      if taskList[i].isIdle { return IsIdle; }
      if At(i) == current { return IsCurrent; }
      taskList[i] := taskList[i].(state := Zombie);
      taskList[i] := taskList[i].(id := 0);
      assert taskList[..] == old(taskList[..])[i := old(taskList[i]).(state := Zombie, id := 0)];
      return Success;
    }

    /** task_exit up to its endless yielding. */
    method TaskExit()
      requires Shape()
      modifies taskList
      ensures K() == Tasks.Exit(old(K()))
    {
      if current != Null {
        taskList[current.index] := taskList[current.index].(state := Zombie);
        taskList[current.index] := taskList[current.index].(id := 0);
      }
    }

    method TaskSleepTicks(n: Word) returns (result: int)
      requires Shape()
      modifies taskList
      ensures K() == Tasks.Sleep(old(K()), n)
      ensures result == if n == 0 || current == Null then -1 else 0
    {
      if n == 0 || current == Null { return -1; }
      taskList[current.index] := taskList[current.index].(sleepUntil := (ticks + n) % WORD_LIMIT);
      if taskList[current.index].state != Unused && !taskList[current.index].isIdle {
        taskList[current.index] := taskList[current.index].(state := Blocked);
      }
      return 0;
    }

    // ---------- creation ----------

    /** The whole call when nothing runs in between; other tasks may run after the check and before
        the identifier is read. */
    method TaskCreate(func: Word, arg: Word, size: Word) returns (r: int)
      requires Shape() && heap.Ok()
      modifies this`count, this`nextId, taskList, heap, heap.ram
      ensures CreateEffect(old(X()), func, arg, taskExit, size, r, X())
      ensures heap.Ok() && Shape()
    {
      hide CreateEffect, Valid;
      ghost var x := X();
      var admitted, bytes := CreateCheck(func, size);
      if !admitted {
        CreateRefused(x, func, arg, taskExit, size);
        return -1;
      }
      var created, slot := CreateSection(func, arg, bytes);
      CreateResized(x, func, arg, taskExit, size, bytes, if created then nextId else -1, X());
      if !created { return -1; }
      r := CreateReport(slot);
    }

    /** The tests before the critical section; `bytes` is the size of the stack to allocate. */
    method CreateCheck(func: Word, size: Word) returns (admitted: bool, bytes: Word)
      ensures admitted <==> count < MAX_TASKS && func != 0 && size <= STACK_MAX_SIZE_BYTES
      ensures admitted ==> bytes == StackBytes(size) == StackBytes(bytes)
    {
      bytes := size;
      if count >= MAX_TASKS || func == 0 { return false, bytes; }
      if bytes < STACK_MIN_SIZE_BYTES { bytes := STACK_MIN_SIZE_BYTES; }
      if bytes > STACK_MAX_SIZE_BYTES { return false, bytes; }
      bytes := (bytes + 7) / 8 * 8;
      return true, bytes;
    }

    /** The critical section. */
    method CreateSection(func: Word, arg: Word, bytes: Word) returns (created: bool, slot: nat)
      requires Shape() && heap.Ok() && count < MAX_TASKS && func != 0
      requires bytes <= STACK_MAX_SIZE_BYTES && StackBytes(bytes) == bytes
      modifies this`count, this`nextId, taskList, heap, heap.ram
      ensures CreateEffect(old(X()), func, arg, taskExit, bytes, if created then nextId else -1, X())
      ensures slot == Slot(old(taskList[..]), old(count)) < MAX_TASKS
      ensures created ==> taskList[slot].id == nextId
      ensures heap.Ok() && Shape()
    {
      hide Valid, MallocEffect, MallocOutcome, Framed, FirstPsp, FirstFrame, Tasks.Create, Slot, StackBytes;
      ghost var x := X();
      slot := FindSlot();
      var stack := heap.Malloc(bytes);
      MallocIs(x.h, bytes, stack, heap.State());
      if stack == 0 { return false, slot; }
      ghost var h1 := heap.State();
      StackFits(x.h, bytes, stack, h1);
      var p := stack / 4;
      FirstPspFits(p, bytes);
      Place(slot, p, bytes, func, arg);
      FreshBlockFilled(x.h, bytes, stack, h1, heap.ram[..]);
      return true, slot;
    }

    /** The identifier that is returned: that of the slot at the time of the return. */
    method CreateReport(slot: nat) returns (id: nat)
      requires slot < taskList.Length
      ensures id == taskList[slot].id
    {
      id := taskList[slot].id;
    }

    /** Fills in the entry and the stack of a new task. */
    method Place(slot: nat, p: nat, bytes: Word, func: Word, arg: Word)
      requires Shape() && slot <= count < MAX_TASKS && bytes % 8 == 0
      requires p < FirstPsp(p, bytes) && FirstPsp(p, bytes) + 16 <= p + bytes / 4 <= heap.ram.Length
      modifies this`count, this`nextId, taskList, heap.ram
      ensures K() == Tasks.Create(old(K()), slot, FirstPsp(p, bytes), p, bytes)
      ensures FramedAt(heap.ram[..], FirstPsp(p, bytes), FirstFrame(func, arg, taskExit))
      ensures heap.ram[p] == STACK_CANARY && Shape() && taskList[slot].id == nextId
      ensures forall j :: 0 <= j < heap.ram.Length && !(p <= j < p + bytes / 4) ==> heap.ram[j] == old(heap.ram[j])
    {
      var end := p + bytes / 4 - 1;
      end := end - end % 2;
      InitializeStack(end, func, arg);
      assert FirstPsp(p, bytes) == end - 15;
      hide FirstFrame, FirstPsp;
      taskList[slot] := taskList[slot].(stackPtr := p, stackSize := bytes, psp := end - 15);
      nextId := (nextId + 1) % 0x1_0000;
      taskList[slot] := taskList[slot].(state := Ready, isIdle := false, id := nextId, sleepUntil := 0);
      if slot == count { count := count + 1; }
      FrameStays(heap.ram[..], end - 15, FirstFrame(func, arg, taskExit), p, STACK_CANARY);
      heap.ram[p] := STACK_CANARY;
      assert taskList[..] == old(taskList[..])[slot := taskList[slot]];
    }

    /** The loop that looks for an unused slot. */
    method FindSlot() returns (slot: nat)
      requires Shape() && count < MAX_TASKS
      ensures slot == Slot(taskList[..], count)
    {
      slot := count;
      var i := 0;
      while i < count
        invariant i <= count && slot == count
        invariant forall j :: 0 <= j < i ==> taskList[j].state != Unused
      {
        if taskList[i].state == Unused {
          slot := i;
          break;
        }
        i := i + 1;
      }
      SlotUnique(taskList[..], count, slot);
    }

    /** Writes the first frame downwards from word `top`. */
    method InitializeStack(top: nat, func: Word, arg: Word)
      requires 15 <= top < heap.ram.Length
      modifies heap.ram
      ensures FramedAt(heap.ram[..], top - 15, FirstFrame(func, arg, taskExit))
      ensures forall j :: 0 <= j < heap.ram.Length && !(top - 15 <= j <= top) ==> heap.ram[j] == old(heap.ram[j])
    {
      var frame := FirstFrame(func, arg, taskExit);
      var i := 16;
      while i > 0
        invariant 0 <= i <= 16
        invariant forall j :: 0 <= j < heap.ram.Length ==>
                    heap.ram[j] == if top - 15 + i <= j <= top then frame[j - (top - 15)] else old(heap.ram[j])
      {
        i := i - 1;
        heap.ram[top - 15 + i] := frame[i];
      }
    }

    // ---------- start ----------

    /** scheduler_start up to the jump into the first task; mid is the state in which the idle task
        has been created. Unless that fails, the table is the well-formed one that runs start from. */
    method SchedulerStart() returns (ghost id: int, ghost mid: Kernel)
      requires Shape() && heap.Ok() && Booted(X())
      modifies this, taskList, heap, heap.ram
      ensures old(count) == 0 ==> X() == old(X())
      ensures old(count) > 0 ==> CreateEffect(old(X()), idleFunction, 0, taskExit, 512, id, mid)
      ensures old(count) > 0 && id >= 0 ==> X() == mid.(k := Started(mid.k)) && Good(K())
      ensures old(count) > 0 && id < 0 ==> X() == old(X()).(k := FirstRuns(old(K()))) && idle == Null
      ensures heap.Ok()
    {
      hide Good, Valid, CreateEffect, Booted;
      ghost var x := X();
      if count == 0 { return -1, x; }
      id, mid := CreateIdle();
      curIdx := 0;
      current, next := At(0), At(0);
      taskList[0] := taskList[0].(state := Running);
      if id >= 0 { StartIsGood(x, idleFunction, taskExit, id, mid); }
    }

    method CreateIdle() returns (ghost id: int, ghost mid: Kernel)
      requires Shape() && heap.Ok() && Booted(X()) && count > 0
      modifies this, taskList, heap, heap.ram
      ensures Shape() && heap.Ok()
      ensures CreateEffect(old(X()), idleFunction, 0, taskExit, 512, id, mid)
      ensures id < 0 ==> X() == old(X()) && idle == Null
      ensures id >= 0 ==> old(count) < MAX_TASKS && |mid.k.tasks| == MAX_TASKS && mid.k.count == old(count) + 1
      ensures id >= 0 ==> X() == mid.(k := WithIdle(mid.k, old(count)))
    {
      hide Valid, CreateEffect, Booted;
      ghost var x := X();
      var r := TaskCreate(idleFunction, 0, 512);
      id, mid := r, X();
      IdleCreated(x, idleFunction, taskExit, id, mid);
      if r < 0 { return; }
      var i := 0;
      while i < count
        invariant i <= x.k.count && X() == mid
        invariant forall j :: 0 <= j < i ==> taskList[j].id != r
      {
        if taskList[i].id == r {
          idle := At(i);
          taskList[i] := taskList[i].(isIdle := true);
          return;
        }
        i := i + 1;
      }
    }

    // ---------- garbage collection ----------

    method TaskGarbageCollection()
      requires Shape() && heap.Ok() && CollectReady(X())
      modifies this`current, this`next, this`idle, this`curIdx, this`count, taskList, heap, heap.ram
      ensures CollectEffect(old(X()), X())
      ensures heap.Ok() && Shape()
    {
      hide Valid, Survivors, Released, CollectReady, Compacted, Kept, DeadBelow, Gc, ZombieHolds, Rank, Zeroed;
      ghost var x := X();
      var read, write := 0, 0;
      CompactStarts(x);
      while read < count
        invariant read <= count == x.k.count && Compacted(x.k, K(), read, write)
        invariant heap.Ok() && Released(x.h, DeadBelow(x.k.tasks, read), heap.State())
        invariant regs == x.regs && psp == x.psp && Shape()
      {
        write := CollectEntry(read, write, x);
        read := read + 1;
      }
      ghost var g := K();
      CompactedAt(x.k, g, read, write);
      count := write;
      ClearFrom(count);
      CompactEnds(x.k, g, K(), write);
    }

    /** One turn of the collector's loop. */
    method CollectEntry(read: nat, write: nat, ghost x: Kernel) returns (write': nat)
      requires Shape() && read < count == x.k.count && Compacted(x.k, K(), read, write)
      requires heap.Ok() && CollectReady(x) && Valid(x.h)
      requires Released(x.h, DeadBelow(x.k.tasks, read), heap.State())
      modifies this`current, this`next, this`idle, this`curIdx, taskList, heap, heap.ram
      ensures Shape() && heap.Ok() && Compacted(x.k, K(), read + 1, write')
      ensures Released(x.h, DeadBelow(x.k.tasks, read + 1), heap.State())
    {
      hide Valid, Survivors, Released, CollectReady, Compacted, Kept, DeadBelow;
      ghost var g := K();
      CompactedAt(x.k, g, read, write);
      RetireZombie(read, x);
      assert Kept(x.k.tasks[read]) <==> taskList[read].state != Unused by { KeptIff(x.k.tasks[read]); }
      if taskList[read].state != Unused {
        if read != write { MoveEntry(read, write); }
        CompactKeeps(x.k, g, K(), read, write);
        return write + 1;
      }
      CompactDrops(x.k, g, K(), read, write);
      return write;
    }

    /** A zombie gives up its stack and becomes an unused slot. */
    method RetireZombie(read: nat, ghost x: Kernel)
      requires Shape() && read < count == x.k.count <= |x.k.tasks| && taskList[read] == x.k.tasks[read]
      requires heap.Ok() && CollectReady(x) && Valid(x.h)
      requires Released(x.h, DeadBelow(x.k.tasks, read), heap.State())
      modifies taskList, heap, heap.ram
      ensures heap.Ok() && Released(x.h, DeadBelow(x.k.tasks, read + 1), heap.State())
      ensures taskList[..] == old(taskList[..])[read := taskList[read]]
      ensures old(taskList[read].state) == Zombie ==> taskList[read].state == Unused
      ensures old(taskList[read].state) != Zombie ==> taskList[read] == old(taskList[read])
    {
      hide Valid, Released, CollectReady;
      DeadStep(x.k.tasks, read);
      if taskList[read].state == Zombie {
        if taskList[read].stackPtr != 0 {
          FreeStack(taskList[read].stackPtr, x, read);
          taskList[read] := taskList[read].(stackPtr := 0);
        }
        taskList[read] := taskList[read].(state := Unused);
      }
    }

    /** Frees the stack of zombie i. */
    method FreeStack(p: nat, ghost x: Kernel, ghost i: nat)
      requires heap.Ok() && i < x.k.count <= |x.k.tasks| && CollectReady(x)
      requires x.k.tasks[i].state == Zombie && x.k.tasks[i].stackPtr == p != 0
      requires Valid(x.h) && Released(x.h, DeadBelow(x.k.tasks, i), heap.State())
      modifies heap, heap.ram
      ensures heap.Ok() && Released(x.h, DeadBelow(x.k.tasks, i) + {p}, heap.State())
    {
      hide Listed, Counted, Released, FreeEffect, FreedEffect, CollectReady, Tiles;
      ghost var h := heap.State();
      StillAllocated(x, i, h);
      heap.Free(4 * p);
      ReleaseOne(x.h, DeadBelow(x.k.tasks, i), h, p, heap.State());
    }

    /** Copies an entry down and moves the pointers that designate it. */
    method MoveEntry(read: nat, write: nat)
      requires Shape() && write < read < count
      modifies this`current, this`next, this`idle, this`curIdx, taskList
      ensures taskList[..] == old(taskList[..])[write := old(taskList[read])]
      ensures current == (if old(current) == At(read) then At(write) else old(current))
      ensures next == (if old(next) == At(read) then At(write) else old(next))
      ensures idle == (if old(idle) == At(read) then At(write) else old(idle))
      ensures curIdx == (if old(current) == At(read) then write else old(curIdx))
      ensures Shape()
    {
      taskList[write] := taskList[read];
      if At(read) == current {
        current := At(write);
        curIdx := write;
      }
      if At(read) == next { next := At(write); }
      if idle == At(read) { idle := At(write); }
    }

    /** memset of the slots from n on. */
    method ClearFrom(n: nat)
      requires Shape() && n <= MAX_TASKS
      modifies taskList
      ensures taskList[..] == old(taskList[..n]) + Zeroed(MAX_TASKS - n)
    {
      var i := n;
      while i < MAX_TASKS
        invariant n <= i <= MAX_TASKS
        invariant forall j :: 0 <= j < MAX_TASKS ==>
                    taskList[j] == if n <= j < i then NO_TASK else old(taskList[j])
      {
        taskList[i] := NO_TASK;
        i := i + 1;
      }
    }
  }

  // ---------- the compaction loop ----------

  /** A pointer after the first n entries of `live` have been read. */
  function FollowTo(ref: Ref, live: seq<Task>, n: nat): Ref
    requires n <= |live|
  {
    if ref.At? && ref.index < n && Kept(live[ref.index]) then At(Rank(live, ref.index)) else ref
  }

  /** The table with `read` entries read and `write` of them kept. */
  ghost predicate Compacted(k: Sched, g: Sched, read: nat, write: nat) {
    && read <= k.count <= |k.tasks| == |g.tasks|
    && var live := k.tasks[..k.count];
    && write == Rank(live, read)
    && g.tasks[..write] == Survivors(live[..read])
    && (forall j :: read <= j < |k.tasks| ==> g.tasks[j] == k.tasks[j])
    && g == k.(tasks := g.tasks, current := FollowTo(k.current, live, read), next := FollowTo(k.next, live, read),
               idle := FollowTo(k.idle, live, read), curIdx := g.curIdx)
    && g.curIdx == if g.current != k.current then g.current.index else k.curIdx
  }

  lemma KeptIff(t: Task)
    ensures Kept(t) <==> t.state != Zombie && t.state != Unused
  {
  }

  lemma CompactedAt(k: Sched, g: Sched, read: nat, write: nat)
    requires Compacted(k, g, read, write)
    ensures write <= read <= k.count <= |k.tasks| == |g.tasks| && g.count == k.count
    ensures forall j :: read <= j < |k.tasks| ==> g.tasks[j] == k.tasks[j]
  {
  }

  lemma CompactStarts(x: Kernel)
    requires x.k.count <= |x.k.tasks| && Valid(x.h)
    ensures Compacted(x.k, x.k, 0, 0)
    ensures Released(x.h, DeadBelow(x.k.tasks, 0), x.h)
  {
    SameState(x.h, Live(x.h.c.bs));
  }

  lemma DeadStep(tasks: seq<Task>, n: nat)
    requires n < |tasks|
    ensures DeadBelow(tasks, n + 1) ==
              if tasks[n].state == Zombie && tasks[n].stackPtr != 0
              then DeadBelow(tasks, n) + {tasks[n].stackPtr} else DeadBelow(tasks, n)
  {
  }

  lemma CompactDrops(k: Sched, g: Sched, g': Sched, read: nat, write: nat)
    requires Compacted(k, g, read, write) && read < k.count && !Kept(k.tasks[read])
    requires |g'.tasks| == |g.tasks| && g' == g.(tasks := g'.tasks)
    requires forall j :: 0 <= j < |g.tasks| && j != read ==> g'.tasks[j] == g.tasks[j]
    ensures Compacted(k, g', read + 1, write)
  {
    var live := k.tasks[..k.count];
    RankStep(live, read);
    assert g'.tasks[..write] == g.tasks[..write];
  }

  lemma CompactKeeps(k: Sched, g: Sched, g': Sched, read: nat, write: nat)
    requires Compacted(k, g, read, write) && read < k.count && Kept(k.tasks[read])
    requires g' == g.(tasks := g.tasks[write := g.tasks[read]],
                      current := if g.current == At(read) then At(write) else g.current,
                      next := if g.next == At(read) then At(write) else g.next,
                      idle := if g.idle == At(read) then At(write) else g.idle,
                      curIdx := g'.curIdx)
    requires g'.curIdx == if g.current == At(read) && read != write then write else g.curIdx
    ensures Compacted(k, g', read + 1, write + 1)
  {
    var live := k.tasks[..k.count];
    RankStep(live, read);
    assert g'.tasks[..write + 1] == g.tasks[..write] + [k.tasks[read]];
    FollowStep(k.current, live, read);
    FollowStep(k.next, live, read);
    FollowStep(k.idle, live, read);
  }

  lemma FollowStep(ref: Ref, live: seq<Task>, n: nat)
    requires n < |live| && Kept(live[n])
    ensures FollowTo(ref, live, n + 1) ==
            if FollowTo(ref, live, n) == At(n) then At(Rank(live, n)) else FollowTo(ref, live, n)
    ensures FollowTo(ref, live, n) == At(n) <==> ref == At(n)
  {
  }

  lemma CompactEnds(k: Sched, g: Sched, g': Sched, write: nat)
    requires Compacted(k, g, k.count, write)
    requires g' == g.(tasks := g.tasks[..write] + Zeroed(|k.tasks| - write), count := write)
    ensures g' == Gc(k)
  {
    assert k.tasks[..k.count][..k.count] == k.tasks[..k.count];
  }

  lemma StillAllocated(x: Kernel, i: nat, h: Heap)
    requires i < x.k.count <= |x.k.tasks| && CollectReady(x) && Valid(x.h)
    requires x.k.tasks[i].state == Zombie && x.k.tasks[i].stackPtr != 0
    requires Released(x.h, DeadBelow(x.k.tasks, i), h)
    ensures 4 * x.k.tasks[i].stackPtr < WORD_LIMIT && IsLive(h.c.bs, 4 * x.k.tasks[i].stackPtr)
  {
    assert ZombieHolds(x, i);
    var p := x.k.tasks[i].stackPtr;
    var b := BlockAt(x.h.c.bs, 4 * p);
    assert b in Live(x.h.c.bs) && b.at + 2 == p && b.Ptr() == 4 * p;
    assert p !in DeadBelow(x.k.tasks, i);
    hide Listed, Counted, IndexOf;
    assert b in Live(h.c.bs);
    assert h.lo != 0 && Tiles(h.c.bs, h.lo, h.hi) by { LiveTiles(h, b); }
    FindLive(h.c.bs, h.lo, h.hi, b);
  }

  lemma LiveTiles(h: Heap, b: Blocks.Block)
    requires Valid(h) && b in Live(h.c.bs)
    ensures h.lo != 0 && Tiles(h.c.bs, h.lo, h.hi)
  {
  }

  lemma ReleaseOne(h0: Heap, dead: set<nat>, h: Heap, p: nat, h': Heap)
    requires Released(h0, dead, h) && 0 < 4 * p < WORD_LIMIT && IsLive(h.c.bs, 4 * p)
    requires FreeEffect(h, 4 * p, h')
    ensures Released(h0, dead + {p}, h')
  {
    hide FreeEffect, IsLive, Valid, Merged, Untouched;
    var b := FreedBlock(h, p, h');
    ReleaseMore(h0, dead, h, b, h');
    UntouchedLess(h0, Live(h.c.bs), Live(h'.c.bs), h.m);
    hide Live;
    UntouchedTrans(h0, h, Live(h'.c.bs), Live(h'.c.bs), h'.m);
  }

  lemma FreedBlock(h: Heap, p: nat, h': Heap) returns (b: Blocks.Block)
    requires Valid(h) && 0 < 4 * p < WORD_LIMIT && IsLive(h.c.bs, 4 * p) && FreeEffect(h, 4 * p, h')
    ensures b in Live(h.c.bs) && b.at + 2 == p && Live(h'.c.bs) == Live(h.c.bs) - {b}
    ensures Valid(h') && Merged(h'.c.bs) && h'.lo == h.lo && h'.hi == h.hi
    ensures Untouched(h, Live(h'.c.bs), h'.m)
  {
    hide Valid, Merged, Untouched, FreeOutcome;
    HeapTheorems.FreeStep(h, 4 * p, h');
    b := BlockAt(h.c.bs, 4 * p);
    assert b.Ptr() == 4 * p;
  }

  lemma UntouchedLess(h: Heap, keep: set<Blocks.Block>, keep': set<Blocks.Block>, m: seq<Word>)
    requires Untouched(h, keep, m) && keep' <= keep
    ensures Untouched(h, keep', m)
  {
  }

  lemma ReleaseMore(h0: Heap, dead: set<nat>, h: Heap, b: Blocks.Block, h': Heap)
    requires Valid(h) && b in Live(h.c.bs) && Live(h'.c.bs) == Live(h.c.bs) - {b}
    requires Live(h.c.bs) == (set d | d in Live(h0.c.bs) && d.at + 2 !in dead)
    ensures Live(h'.c.bs) == (set d | d in Live(h0.c.bs) && d.at + 2 !in dead + {b.at + 2})
  {
    LiveTiles(h, b);
    forall d | d in Live(h.c.bs) && d.at == b.at ensures d == b {
      SamePtrSameBlock(h.c.bs, h.lo, h.hi, b, d);
    }
  }

  lemma CreateRefused(x: Kernel, func: Word, arg: Word, exit: Word, size: Word)
    requires x.k.count <= |x.k.tasks| == MAX_TASKS
    requires x.k.count >= MAX_TASKS || func == 0 || size > STACK_MAX_SIZE_BYTES
    ensures CreateEffect(x, func, arg, exit, size, -1, x)
  {
  }

  lemma CreateResized(x: Kernel, func: Word, arg: Word, exit: Word, size: Word, bytes: Word, r: int, x': Kernel)
    requires x.k.count <= |x.k.tasks| == MAX_TASKS && size <= STACK_MAX_SIZE_BYTES && bytes <= STACK_MAX_SIZE_BYTES
    requires StackBytes(size) == StackBytes(bytes) && CreateEffect(x, func, arg, exit, bytes, r, x')
    ensures CreateEffect(x, func, arg, exit, size, r, x')
  {
    hide StackBytes, MallocOutcome, Framed, FirstPsp, FirstFrame, Tasks.Create, Slot, FramedAt;
  }

  lemma MallocIs(h: Heap, size: Word, r: int, h1: Heap)
    requires MallocEffect(h, size, r, h1)
    ensures (h1.c, r) == MallocOutcome(h.c, 4 * (h.hi - h.lo), size)
    ensures h1.lo == h.lo && h1.hi == h.hi && (r == 0 ==> h1 == h)
  {
  }

  /** The granted stack: where it is, and that the frame and the canary fit in it. */
  lemma StackFits(h: Heap, bytes: Word, stack: Word, h1: Heap)
    requires Valid(h) && MallocEffect(h, bytes, stack, h1) && stack != 0 && Valid(h1)
    ensures FirstFit(h.c.bs, WordsFor(bytes)) < |h.c.bs|
    ensures var p := h.c.bs[FirstFit(h.c.bs, WordsFor(bytes))].at + 2;
            stack == 4 * p && p + WordsFor(bytes) <= |h1.m|
  {
    assert Sound(h.c, h.lo, h.hi);
    hide Listed, Counted, Encoded, Untouched;
    MallocFound(h.c, h.lo, h.hi, 4 * (h.hi - h.lo), bytes);
    hide Grant, Carve;
    ValidBounds(h1);
  }

  lemma FrameStays(m: seq<Word>, at: nat, data: seq<Word>, p: nat, v: Word)
    requires FramedAt(m, at, data) && p < at && p < |m|
    ensures FramedAt(m[p := v], at, data)
  {
    assert m[p := v][at..at + |data|] == m[at..at + |data|];
  }

  /** Filling a fresh block disturbs nothing that was allocated before. */
  lemma FreshBlockFilled(h: Heap, bytes: Word, stack: Word, h1: Heap, m: seq<Word>)
    requires Valid(h) && MallocEffect(h, bytes, stack, h1) && stack != 0 && Valid(h1)
    requires FirstFit(h.c.bs, WordsFor(bytes)) < |h.c.bs| && |m| == |h1.m|
    requires var p := h.c.bs[FirstFit(h.c.bs, WordsFor(bytes))].at + 2;
             forall j :: 0 <= j < |m| && !(p <= j < p + WordsFor(bytes)) ==> m[j] == h1.m[j]
    ensures Valid(h1.(m := m)) && Framed(h, Live(h.c.bs), h1.(m := m))
  {
    var i, w := FirstFit(h.c.bs, WordsFor(bytes)), WordsFor(bytes);
    var b := Carve(h.c.bs[i], w)[0];
    GrantSound(h.c, h.lo, h.hi, i, w);
    FindLive(h1.c.bs, h1.lo, h1.hi, b);
    NewBlock(h.c, h.lo, h.hi, i, w);
    hide Listed, Counted, Carve, Grant, FirstFit, WordsFor;
    StoreSafe(h1, IndexOf(h1.c.bs, b.Ptr()), m);
    UntouchedTrans(h, h1, Live(h.c.bs), Live(h1.c.bs) - {b}, m);
  }

  lemma NewBlock(c: Control, lo: nat, hi: nat, i: nat, w: nat)
    requires Sound(c, lo, hi) && i < |c.bs| && Fits(c.bs[i], w)
    ensures Carve(c.bs[i], w)[0] !in Live(c.bs)
  {
    InBounds(c.bs, lo, hi);
  }

  lemma FindIdUnique(tasks: seq<Task>, count: nat, id: nat, i: nat)
    requires i <= count <= |tasks| && (i < count ==> tasks[i].id == id)
    requires forall j :: 0 <= j < i ==> tasks[j].id != id
    ensures FindId(tasks, count, id) == i
  {
  }

  lemma SlotUnique(tasks: seq<Task>, count: nat, i: nat)
    requires i <= count <= |tasks| && (i < count ==> tasks[i].state == Unused)
    requires forall j :: 0 <= j < i ==> tasks[j].state != Unused
    ensures Slot(tasks, count) == i
  {
  }

  /** The picked entry's stack pointer is the recorded one. */
  lemma PickedInTable(k1: Sched, n: nat, c: nat)
    requires k1.current.At? && k1.current.index < |k1.tasks|
    requires Picks(Demote(k1), Ticks(Demote(k1), n), c)
    requires k1.curIdx < k1.count && (k1.idle.At? ==> k1.idle.index < k1.count)
    ensures c < k1.count && c < |k1.tasks| && |Ticks(Demote(k1), n).tasks| == |k1.tasks|
    ensures Ticks(Demote(k1), n).tasks[c].psp == k1.tasks[c].psp
  {
    TicksWake(Demote(k1), n);
    assert Woken(Demote(k1).tasks[c], Ticks(Demote(k1), n).tasks[c]);
  }

  // ---------- the search loop ----------

  /** After i looks round the ring, n ticks since d, none of the slots passed was eligible at d. */
  ghost predicate Scanning(d: Sched, e: Sched, n: nat, i: nat, candidate: nat) {
    && e == Ticks(d, n) && d.curIdx < d.count <= |d.tasks|
    && (i < d.count ==> candidate < d.count && Dist(d.count, d.curIdx, candidate) == i + 1)
    && forall x :: 0 <= x < d.count && Dist(d.count, d.curIdx, x) <= i ==> !Eligible(d.tasks[x])
  }

  lemma ScanStarts(d: Sched, candidate: nat)
    requires d.curIdx < d.count <= |d.tasks| && candidate == (d.curIdx + 1) % d.count
    ensures Scanning(d, d, 0, 0, candidate) && candidate < d.count
  {
    NextSlot(d.curIdx, d.count);
  }

  lemma ScanTicks(d: Sched, e: Sched, n: nat, m: nat, i: nat, candidate: nat)
    requires Scanning(d, e, n, i, candidate)
    ensures Scanning(d, Ticks(e, m), n + m, i, candidate)
    ensures var e' := Ticks(e, m); e' == d.(tasks := e'.tasks, ticks := e'.ticks) && |e'.tasks| == |d.tasks|
  {
    TicksAdd(d, n, m);
    TicksWake(d, n + m);
  }

  /** A task eligible at d is eligible still. */
  lemma StillEligible(d: Sched, n: nat, x: nat)
    requires x < |d.tasks| && Eligible(d.tasks[x])
    ensures x < |Ticks(d, n).tasks| && Eligible(Ticks(d, n).tasks[x])
  {
    TicksWake(d, n);
    assert Woken(d.tasks[x], Ticks(d, n).tasks[x]);
  }

  lemma ScanMisses(d: Sched, e: Sched, n: nat, i: nat, candidate: nat)
    requires Scanning(d, e, n, i, candidate) && i < d.count && |e.tasks| == |d.tasks|
    requires candidate < |e.tasks| && !Eligible(e.tasks[candidate])
    ensures Scanning(d, e, n, i + 1, (candidate + 1) % d.count)
    ensures (candidate + 1) % d.count < d.count
  {
    NextSlot(candidate, d.count);
    if Eligible(d.tasks[candidate]) { StillEligible(d, n, candidate); }
  }

  lemma ScanFound(d: Sched, e: Sched, n: nat, i: nat, candidate: nat)
    requires Scanning(d, e, n, i, candidate) && i < d.count && |e.tasks| == |d.tasks| && e.count == d.count
    requires candidate < |e.tasks| && Eligible(e.tasks[candidate])
    ensures Picks(d, e, candidate)
  {
  }

  lemma ScanFails(d: Sched, e: Sched, n: nat, candidate: nat)
    requires Scanning(d, e, n, d.count, candidate)
    requires e == d.(tasks := e.tasks, ticks := e.ticks) && |e.tasks| == |d.tasks|
    requires e.idle.At? ==> e.idle.index < |e.tasks|
    ensures Picks(d, e, if e.idle.At? && e.tasks[e.idle.index].state == Ready then e.idle.index else e.curIdx)
  {
    forall x | 0 <= x < d.count ensures !Eligible(d.tasks[x]) {
      assert Dist(d.count, d.curIdx, x) <= d.count;
    }
  }

  lemma NextSlot(x: nat, count: nat)
    requires x < count
    ensures (x + 1) % count == Succ(x, count)
  {
    if x + 1 < count {
      assert (x + 1) % count == x + 1;
    }
  }

  lemma {:induction false} TicksAdd(k: Sched, n: nat, m: nat)
    ensures Ticks(Ticks(k, n), m) == Ticks(k, n + m)
  {
    if m > 0 { TicksAdd(k, n, m - 1); }
  }
}
