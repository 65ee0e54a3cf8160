/** Every boot ends in a state from which the kernel's theorems start. */
module BootTheorems {
  import opened Machine
  import opened Blocks
  import opened Heaps
  import HeapTheorems
  import opened Tasks
  import opened SchedulerSteps
  import opened SchedulerTheorems
  import opened Kernels
  import opened Boots
  import opened KernelTheorems

  /** After allocator_init and scheduler_init. */
  ghost predicate Powered(s: System) {
    && s.x.k == Sched(Zeroed(MAX_TASKS), 0, Null, Null, 0, 0, Null, s.x.k.ticks)
    && HeapTheorems.Initial(s.x.h) && |s.x.regs| == 8
    && s.user == {}
  }

  /** Before the start: each task is suspended with its first frame, and owns its stack. */
  ghost predicate Booting(s: System) {
    && Booted(s.x) && Core(s) && s.user == {}
    && s.x.k.curIdx == 0
    && (s.x.k.count > 0 ==> Suspended(s, 0))
  }

  lemma PoweredIsBooting(s: System)
    requires Powered(s)
    ensures Booting(s)
  {
    assert s.x.h.c.bs[0].free;
  }

  lemma SpawnKeepsBooting(s: System, func: Word, arg: Word, exit: Word, size: Word, r: int, s': System)
    requires Booting(s) && Shaped(s) && SpawnStep(s, func, arg, exit, size, r, s')
    ensures Booting(s')
  {
    hide Suspended, CreateEffect, Starts, Stacks, BigEnough, StackAfter, Valid;
    if r == -1 {
      SpawnFails(s, func, arg, exit, size, s');
    } else {
      BootSlot(s.x);
      hide Slot;
      SpawnKeepsCore(s, func, arg, exit, size, r, s');
      StaysBooted(s, s');
      hide Booted, Core;
    }
  }

  lemma SpawnFails(s: System, func: Word, arg: Word, exit: Word, size: Word, s': System)
    requires Shaped(s) && SpawnStep(s, func, arg, exit, size, -1, s')
    ensures s' == s
  {
    hide StackBytes, FirstPsp, FirstFrame, Framed;
    assert s'.x == s.x;
  }

  lemma StaysBooted(s: System, s': System)
    requires Booted(s.x) && Core(s) && Core(s') && s.x.k.count < MAX_TASKS
    requires s.x.k.count < |s'.x.k.tasks|
    requires var t := s'.x.k.tasks[s.x.k.count];
             && s'.x.k == Tasks.Create(s.x.k, s.x.k.count, t.psp, t.stackPtr, t.stackSize)
             && t.stackPtr !in Stacks(s.x.k) && t.stackPtr != 0
    ensures Booted(s'.x)
  {
    hide Suspended, BigEnough, Valid, IsLive, Starts;
    var k, k' := s.x.k, s'.x.k;
    forall i | 0 <= i < k'.count ensures BootEntry(s'.x, i) {
      assert i < k.count ==> BootEntry(s.x, i);
      assert k'.tasks[i].stackPtr in Stacks(k');
      var _ := BlockOf(s'.x.h, k'.tasks[i].stackPtr);
    }
    forall i | 0 <= i < k.count ensures k.tasks[i].stackPtr != k'.tasks[k.count].stackPtr {
      assert k.tasks[i].stackPtr in Stacks(k);
    }
  }

  lemma InvokeKeepsBooting(s: System, ev: Event, s': System)
    requires Booting(s) && InvokeStep(s, ev, s')
    ensures Booting(s')
  {
    hide Suspended, Enabled, Next, Valid, IsLive, Starts, Stacks, BigEnough, HeapTheorems.Tidy;
    InvokeTable(s.x.k, ev);
    InvokeKeepsBooted(s.x, ev);
    SameCore(s, s');
  }

  /** Every sequence of creations, calls and ticks after power-up leaves a table that scheduler_start
      accepts. */
  lemma {:induction false} BootRun(ss: seq<System>, es: seq<Action>)
    requires |ss| == |es| + 1 && Powered(ss[0])
    requires forall i :: 0 <= i < |es| ==> (es[i].Spawn? || es[i].Invoke?) && Step(ss[i], es[i], ss[i + 1])
    ensures Booting(ss[|es|])
  {
    if es == [] {
      PoweredIsBooting(ss[0]);
    } else {
      var n := |es| - 1;
      BootRun(ss[..n + 1], es[..n]);
      var e := es[n];
      assert Step(ss[n], e, ss[n + 1]);
      if e.Spawn? {
        SpawnKeepsBooting(ss[n], e.func, e.arg, e.exit, e.size, e.r, ss[n + 1]);
      } else {
        InvokeKeepsBooting(ss[n], e.e, ss[n + 1]);
      }
    }
  }

  /** scheduler_start: create the idle task, mark the first task RUNNING, and load R4 to R11 and the
      process stack pointer from its stack. */
  ghost predicate StartStep(s: System, idle: Word, exit: Word, r: int, mid: System, s': System)
    requires Shaped(s)
  {
    && SpawnStep(s, idle, 0, exit, 512, r, mid) && r != -1
    && 0 < mid.x.k.count <= |mid.x.k.tasks|
    && var psp := mid.x.k.tasks[0].psp;
    && psp + 8 <= |mid.x.h.m|
    && s' == mid.(x := Kernel(Started(mid.x.k), mid.x.h, mid.x.h.m[psp..psp + 8], psp + 8))
  }

  /** The start establishes the invariant of every later run, and the first task begins with the
      registers and stack pointer recorded when it was created. Every live task has an identifier
      unless a deleted one was blocked before, or the first one was deleted: that one runs. */
  lemma StartReachesInv(s: System, idle: Word, exit: Word, r: int, mid: System, s': System)
    requires Booting(s) && Shaped(s) && s.x.k.count > 0 && StartStep(s, idle, exit, r, mid, s')
    ensures Inv(s') && IdsOrdered(s'.x.k)
    ensures AllNamed(s'.x.k) <==> AllNamed(s.x.k) && s.x.k.tasks[0].state != Zombie
    ensures s.x.k.count < |s'.x.k.tasks| && s'.x.k.tasks[0].state == Running
    ensures forall i :: 0 < i < s.x.k.count && s.x.k.tasks[i].state == Ready ==> Waiting(s'.x.k, i)
    ensures var p := s.x.k.tasks[0].stackPtr;
            p in s'.saved && s'.x.regs == s'.saved[p].regs && s'.x.psp == s'.saved[p].psp
  {
    hide Good, CreateEffect, Suspended, StackAfter, IdsOrdered, AllNamed, Waiting;
    hide HeapTheorems.Tidy, Valid, Starts, Stacks, BigEnough, BootEntry, Slot;
    SpawnKeepsBooting(s, idle, 0, exit, 512, r, mid);
    BootSlot(s.x);
    CanaryLaid(s.x, idle, 0, exit, 512, r, mid.x);
    SpawnKeepsCore(s, idle, 0, exit, 512, r, mid);
    StartIsGood(s.x, idle, exit, r, mid.x);
    StartedOrdered(s.x, mid.x);
    StartedWait(s.x, mid.x);
    hide Booted, Core;
    SameCore(mid, s');
    SuspendedLoads(mid, 0);
  }

  /** Tasks are numbered in the order of their creation, from 1; the idle task comes last. */
  lemma StartedOrdered(x: Kernel, mid: Kernel)
    requires Booted(x) && x.k.count < MAX_TASKS == |mid.k.tasks|
    requires var t := mid.k.tasks[x.k.count];
             mid.k == Tasks.Create(x.k, x.k.count, t.psp, t.stackPtr, t.stackSize)
    ensures IdsOrdered(Started(mid.k))
    ensures x.k.count > 0 ==> (AllNamed(Started(mid.k)) <==> AllNamed(x.k) && x.k.tasks[0].state != Zombie)
  {
    hide Valid, IsLive;
    var k := Started(mid.k);
    forall i | 0 <= i < x.k.count
      ensures (k.tasks[i].id == 0 || k.tasks[i].id == i + 1) && k.tasks[i].id == x.k.tasks[i].id
      ensures k.tasks[i].state == if i == 0 then Running else x.k.tasks[i].state
      ensures x.k.tasks[i].state == Zombie ==> k.tasks[i].id == 0
    {
      assert BootEntry(x, i);
    }
    assert k.tasks[x.k.count].id == x.k.count + 1;
    if x.k.count > 0 && AllNamed(k) {
      assert k.tasks[0].id != 0;
      forall i | 0 <= i < x.k.count && x.k.tasks[i].state != Zombie ensures x.k.tasks[i].id != 0 {
        assert k.tasks[i].id != 0;
      }
    }
  }

  /** The tasks created before the start wait to be picked, unless they were blocked or deleted. */
  lemma StartedWait(x: Kernel, mid: Kernel)
    requires Booted(x) && 0 < x.k.count < MAX_TASKS == |mid.k.tasks|
    requires var t := mid.k.tasks[x.k.count];
             mid.k == Tasks.Create(x.k, x.k.count, t.psp, t.stackPtr, t.stackSize)
    ensures forall i :: 0 < i < x.k.count && x.k.tasks[i].state == Ready ==> Waiting(Started(mid.k), i)
  {
    hide Valid, IsLive;
    forall i | 0 < i < x.k.count && x.k.tasks[i].state == Ready ensures Waiting(Started(mid.k), i) {
      assert BootEntry(x, i);
    }
  }

  lemma SuspendedLoads(s: System, i: nat)
    requires i < |s.x.k.tasks| && Suspended(s, i)
    ensures var t := s.x.k.tasks[i];
            && t.stackPtr in s.saved && t.psp + 8 <= |s.x.h.m|
            && s.saved[t.stackPtr].regs == s.x.h.m[t.psp..t.psp + 8] && s.saved[t.stackPtr].psp == t.psp + 8
  {
    var t := s.x.k.tasks[i];
    var c := s.saved[t.stackPtr];
    FramedTwice(s.x.h.m, t.stackPtr, c.stack, t.psp - t.stackPtr, c.regs);
  }

  /** Nothing that Core speaks of has changed. */
  lemma SameCore(s: System, s': System)
    requires Core(s) && s'.saved == s.saved && s'.user == s.user && s'.x.h == s.x.h && |s'.x.regs| == 8
    requires s'.x.k.count == s.x.k.count && s'.x.k.curIdx == s.x.k.curIdx && |s'.x.k.tasks| == |s.x.k.tasks|
    requires forall i :: 0 <= i < |s.x.k.tasks| ==>
               && s'.x.k.tasks[i].stackPtr == s.x.k.tasks[i].stackPtr
               && s'.x.k.tasks[i].psp == s.x.k.tasks[i].psp
               && s'.x.k.tasks[i].stackSize == s.x.k.tasks[i].stackSize
    ensures Core(s')
    ensures forall i :: 0 <= i < |s.x.k.tasks| && Suspended(s, i) ==> Suspended(s', i)
  {
    hide HeapTheorems.Tidy, Starts, Stacks;
    var k, k' := s.x.k, s'.x.k;
    SameStacks(k, k');
    forall i | 0 <= i < k.count ensures BigEnough(s', i) && (i != k.curIdx ==> Suspended(s', i)) {
      assert BigEnough(s, i) && (i != k.curIdx ==> Suspended(s, i));
      BigEnoughKept(s, s', i, i);
    }
  }
}
