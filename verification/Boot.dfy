/** From an empty table to the first task: what task_create has left before scheduler_start, and
    what scheduler_start makes of it. */
module Boots {
  import opened Machine
  import opened Blocks
  import opened Heaps
  import opened Tasks
  import opened SchedulerSteps
  import opened Kernels

  /** Before scheduler_start: tasks that have been created, perhaps blocked or deleted, but not run,
      each with an allocated stack of its own. */
  ghost predicate Booted(x: Kernel) {
    && x.k.current == Null && x.k.idle == Null
    && |x.k.tasks| == MAX_TASKS && x.k.count <= MAX_TASKS && x.k.nextId == x.k.count
    && Valid(x.h)
    && (forall i :: 0 <= i < x.k.count ==> BootEntry(x, i))
    && (forall i :: x.k.count <= i < MAX_TASKS ==> x.k.tasks[i] == NO_TASK)
    && (forall i, j :: 0 <= i < j < x.k.count ==> x.k.tasks[i].stackPtr != x.k.tasks[j].stackPtr)
  }

  ghost predicate BootEntry(x: Kernel, i: nat)
    requires i < |x.k.tasks|
  {
    var t := x.k.tasks[i];
    && (t.state == Ready || t.state == Blocked || t.state == Zombie) && !t.isIdle && t.sleepUntil == 0
    && (t.id == 0 || t.id == i + 1) && (t.state == Zombie ==> t.id == 0)
    && t.stackPtr != 0 && IsLive(x.h.c.bs, 4 * t.stackPtr)
  }

  /** The first task is entered. */
  function FirstRuns(k: Sched): Sched
    requires |k.tasks| > 0
  {
    k.(tasks := k.tasks[0 := k.tasks[0].(state := Running)], curIdx := 0, current := At(0), next := At(0))
  }

  /** The last task created becomes the idle task, and the first task is entered. */
  function Started(k: Sched): Sched
    requires 0 < k.count <= |k.tasks|
  {
    FirstRuns(WithIdle(k, k.count - 1))
  }

  /** Entry i is made the idle task. */
  function WithIdle(k: Sched, i: nat): Sched
    requires i < |k.tasks|
  {
    k.(idle := At(i), tasks := k.tasks[i := k.tasks[i].(isIdle := true)])
  }

  /** The idle task gets the next slot and an identifier no other task has. */
  lemma IdleCreated(x: Kernel, func: Word, exit: Word, r: int, x': Kernel)
    requires Booted(x) && CreateEffect(x, func, 0, exit, 512, r, x')
    ensures r < 0 ==> x' == x && x.k.idle == Null
    ensures r >= 0 ==>
              && x.k.count < MAX_TASKS && |x'.k.tasks| == MAX_TASKS && x'.k.count == x.k.count + 1
              && x'.k.idle == Null && x'.k.tasks[x.k.count].id == r
              && forall j :: 0 <= j < x.k.count ==> x'.k.tasks[j] == x.k.tasks[j] && x'.k.tasks[j].id != r
  {
    hide CreateEffect, Slot, Valid, IsLive;
    BootSlot(x);
    CreatedShape(x, func, 0, exit, 512, r, x');
    if r >= 0 {
      assert r == x.k.nextId + 1;
      forall j | 0 <= j < x.k.count ensures x'.k.tasks[j] == x.k.tasks[j] && x'.k.tasks[j].id != r {
        assert BootEntry(x, j);
      }
    }
  }

  /** What creation does to the table, in short. */
  lemma CreatedShape(x: Kernel, func: Word, arg: Word, exit: Word, size: Word, r: int, x': Kernel)
    requires x.k.count <= |x.k.tasks| == MAX_TASKS && CreateEffect(x, func, arg, exit, size, r, x')
    ensures r < 0 ==> x' == x
    ensures r >= 0 ==> x.k.count < MAX_TASKS && r == x'.k.nextId && |x'.k.tasks| == MAX_TASKS
    ensures r >= 0 ==>
              var slot := Slot(x.k.tasks, x.k.count);
              var t := x'.k.tasks[slot];
              x'.k == Tasks.Create(x.k, slot, t.psp, t.stackPtr, t.stackSize)
  {
    hide StackBytes, FirstPsp, FirstFrame, MallocOutcome, Framed, Slot;
  }

  lemma BootSlot(x: Kernel)
    requires Booted(x)
    ensures Slot(x.k.tasks, x.k.count) == x.k.count
  {
    var r := Slot(x.k.tasks, x.k.count);
    assert r < x.k.count ==> BootEntry(x, r);
  }

  /** Calls and ticks before the start. */
  lemma InvokeKeepsBooted(x: Kernel, ev: Event)
    requires Booted(x) && Enabled(x.k, ev) && !ev.Create? && !ev.NoStack? && !ev.Collect? && !ev.Switch?
    ensures Booted(x.(k := Next(x.k, ev)))
  {
    hide Valid, IsLive;
    var x' := x.(k := Next(x.k, ev));
    if ev.Tick? {
      TicksWake(x.k, 1);
      assert Ticks(x.k, 0) == x.k;
    }
    forall i | 0 <= i < x.k.count ensures BootEntry(x', i) && x'.k.tasks[i].stackPtr == x.k.tasks[i].stackPtr {
      assert BootEntry(x, i);
    }
  }

  /** A new stack is none of those already allocated. */
  lemma NewStackDiffers(x: Kernel, func: Word, exit: Word, r: int, x': Kernel, j: nat)
    requires Booted(x) && CreateEffect(x, func, 0, exit, 512, r, x') && r >= 0 && j < x.k.count
    requires x.k.count < |x'.k.tasks|
    ensures x'.k.tasks[x.k.count].stackPtr != x.k.tasks[j].stackPtr && x'.k.tasks[x.k.count].stackPtr != 0
  {
    BootSlot(x);
    assert BootEntry(x, j);
    var h, p := x.h, x.k.tasks[j].stackPtr;
    var b, i := BlockAt(h.c.bs, 4 * p), FirstFit(h.c.bs, WordsFor(StackBytes(512)));
    assert b.at + 2 == p;
    hide Counted, WordsFor, StackBytes, BootEntry, FirstPsp;
    ValidBounds(h);
    assert h.c.bs[i].free && b in h.c.bs;
  }

  lemma StartIsGood(x: Kernel, func: Word, exit: Word, r: int, mid: Kernel)
    requires Booted(x) && 0 < x.k.count && CreateEffect(x, func, 0, exit, 512, r, mid) && r >= 0
    ensures mid.k.count == x.k.count + 1 <= |mid.k.tasks| && Good(Started(mid.k))
  {
    hide Valid, IsLive, CreateEffect, Slot;
    IdleCreated(x, func, exit, r, mid);
    CreatedShape(x, func, 0, exit, 512, r, mid);
    BootSlot(x);
    var k := Started(mid.k);
    forall i | 0 <= i < x.k.count
      ensures BootEntry(x, i) && k.tasks[i].stackPtr != k.tasks[x.k.count].stackPtr
    {
      NewStackDiffers(x, func, exit, r, mid, i);
    }
    NewStackDiffers(x, func, exit, r, mid, 0);
    assert Entry(k, x.k.count);
    forall i | 0 <= i < x.k.count ensures Entry(k, i) {
      assert BootEntry(x, i);
    }
  }
}
