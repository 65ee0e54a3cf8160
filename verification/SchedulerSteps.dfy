/** The scheduler as a state machine, and what every step keeps. */
module SchedulerSteps {
  import opened Machine
  import opened Tasks

  /** Entry i of a running system. */
  ghost predicate Entry(k: Sched, i: nat)
    requires i < |k.tasks|
  {
    var t := k.tasks[i];
    && t.state != Unused && t.stackPtr != 0
    && (t.isIdle ==> k.idle == At(i))
    && (t.state == Running ==> i == k.curIdx)
  }

  /** After scheduler_start: the pointers and the index agree, only the current task may be
      RUNNING, the idle task exists and is ready or running, every slot below the count is used and
      every slot above it is zeroed, and no two tasks share a stack. */
  ghost predicate Good(k: Sched) {
    && |k.tasks| == MAX_TASKS && 0 < k.count <= MAX_TASKS && k.nextId < 0x1_0000
    && k.curIdx < k.count && k.current == At(k.curIdx) && k.next == At(k.curIdx)
    && k.idle.At? && k.idle.index < k.count && k.tasks[k.idle.index].isIdle
    && k.tasks[k.idle.index].state == (if k.idle.index == k.curIdx then Running else Ready)
    && (forall i :: 0 <= i < k.count ==> Entry(k, i))
    && (forall i :: k.count <= i < MAX_TASKS ==> k.tasks[i] == NO_TASK)
    && (forall i, j :: 0 <= i < j < k.count ==> k.tasks[i].stackPtr != k.tasks[j].stackPtr)
  }

  /** A task that has exited no longer executes calls: only ticks and a switch can follow. Before the
      start there is no current task. */
  ghost predicate Alive(k: Sched) {
    k.curIdx < |k.tasks| && (k.current.At? ==> k.tasks[k.curIdx].state != Zombie)
  }

  /** A call of task_create is two events with any others between them: the check of its arguments
      and of the count, and the critical section. */
  datatype Event =
    | Check(admitted: bool)
    | Create(psp: nat, stack: nat, size: Word)
    | NoStack                 // the section, when there is no memory for the stack
    | Delete(id: nat)
    | Block(i: nat)
    | Unblock(i: nat)
    | Sleep(duration: Word)
    | Exit
    | Collect
    | Tick
    | Switch(psp: nat, n: nat, c: nat)  // PendSV: psp is stashed, n ticks strike, c is picked

  /** What callers must respect: the section of a create finds room in the table and a new stack
      is nobody else's, and the idle task does not exit. */
  ghost predicate Enabled(k: Sched, e: Event) {
    match e
    case Check(admitted) => Alive(k) && (admitted ==> k.count < MAX_TASKS)
    case NoStack => Alive(k)
    case Create(_, stack, _) =>
      && Alive(k) && k.count < MAX_TASKS && k.count < |k.tasks| && stack != 0
      && forall i :: 0 <= i < k.count && i < |k.tasks| ==> k.tasks[i].stackPtr != stack
    case Delete(_) => Alive(k) && k.count <= |k.tasks|
    case Block(i) => Alive(k) && i < k.count && i < |k.tasks|
    case Unblock(i) => Alive(k) && i < k.count && i < |k.tasks|
    case Sleep(_) => Alive(k)
    case Exit => Alive(k) && !k.tasks[k.curIdx].isIdle
    case Collect => Alive(k) && k.count <= |k.tasks|
    case Tick => true
    case Switch(psp, n, c) => Picks(Outgoing(k, psp), Ticks(Outgoing(k, psp), n), c)
  }

  /** PendSV: stash and demote, search while n ticks strike, promote c and publish it as current. */
  function SwitchTo(k: Sched, psp: nat, n: nat, c: nat): Sched
    requires c < |Ticks(Outgoing(k, psp), n).tasks|
  {
    Promote(Ticks(Outgoing(k, psp), n), c).(current := At(c))
  }

  ghost function Next(k: Sched, e: Event): Sched
    requires Enabled(k, e)
  {
    match e
    case Check(_) => k
    case NoStack => k
    case Create(psp, stack, size) => Tasks.Create(k, k.count, psp, stack, size)
    case Delete(id) => Tasks.Delete(k, id).0
    case Block(i) => Tasks.Block(k, i)
    case Unblock(i) => Tasks.Unblock(k, i)
    case Sleep(n) => Tasks.Sleep(k, n)
    case Exit => Tasks.Exit(k)
    case Collect => Gc(k)
    case Tick => Tasks.Tick(k)
    case Switch(psp, n, c) => SwitchTo(k, psp, n, c)
  }

  // ---------- ticks and switches ----------

  /** A task before and after some ticks: unchanged, or woken. */
  ghost predicate Woken(t: Task, t': Task) {
    t' == t || (t.state == Blocked && t.sleepUntil != 0 && t' == t.(state := Ready, sleepUntil := 0))
  }

  lemma {:induction false} TicksWake(k: Sched, n: nat)
    ensures var k' := Ticks(k, n);
            && k' == k.(tasks := k'.tasks, ticks := k'.ticks) && |k'.tasks| == |k.tasks|
            && forall i :: 0 <= i < |k.tasks| ==> Woken(k.tasks[i], k'.tasks[i])
  {
    if n > 0 { TicksWake(k, n - 1); }
  }

  lemma TicksKeepGood(k: Sched, n: nat)
    requires Good(k)
    ensures Good(Ticks(k, n))
  {
    TicksWake(k, n);
    var k' := Ticks(k, n);
    forall i | 0 <= i < k.count ensures Entry(k', i) {
      assert Entry(k, i) && Woken(k.tasks[i], k'.tasks[i]);
    }
    forall i | k.count <= i < MAX_TASKS ensures k'.tasks[i] == NO_TASK {
      assert Woken(k.tasks[i], k'.tasks[i]);
    }
    assert Woken(k.tasks[k.idle.index], k'.tasks[k.idle.index]);
  }

  /** The table while the search runs: as in Good, but nobody is RUNNING. */
  lemma SearchTable(k: Sched, psp: nat, n: nat)
    requires Good(k)
    ensures var e := Ticks(Outgoing(k, psp), n);
            && e == k.(tasks := e.tasks, ticks := e.ticks) && |e.tasks| == |k.tasks|
            && e.tasks[k.idle.index].state == Ready
            && forall i :: 0 <= i < |k.tasks| ==>
                 Woken(Outgoing(k, psp).tasks[i], e.tasks[i])
  {
    TicksWake(Outgoing(k, psp), n);
    assert Woken(Outgoing(k, psp).tasks[k.idle.index], Ticks(Outgoing(k, psp), n).tasks[k.idle.index]);
  }

  /** A switch ends with exactly one RUNNING task, which all three variables designate; the
      fallback that would resume a task that is not READY is never taken. */
  lemma SwitchRunsOne(k: Sched, psp: nat, n: nat, c: nat)
    requires Good(k) && Enabled(k, Switch(psp, n, c))
    ensures var k' := SwitchTo(k, psp, n, c);
            && Good(k') && c < k'.count
            && Ticks(Outgoing(k, psp), n).tasks[c].state == Ready
            && forall i :: 0 <= i < k'.count ==> (k'.tasks[i].state == Running <==> i == c)
  {
    hide Ticks;
    SearchTable(k, psp, n);
    var d, e, k' := Outgoing(k, psp), Ticks(Outgoing(k, psp), n), SwitchTo(k, psp, n, c);
    assert c < k.count && e.tasks[c].state == Ready;
    hide Picks;
    forall i | 0 <= i < k.count ensures Entry(k', i) && (k'.tasks[i].state == Running <==> i == c)
                                        && k'.tasks[i].stackPtr == k.tasks[i].stackPtr {
      assert Entry(k, i);
      assert Woken(d.tasks[i], e.tasks[i]);
    }
    forall i | k.count <= i < MAX_TASKS ensures k'.tasks[i] == NO_TASK {
      assert Woken(d.tasks[i], e.tasks[i]);
    }
    assert Entry(k, c);
  }

  // ---------- the task calls ----------

  lemma UpdateKeepsGood(k: Sched, i: nat, t: Task)
    requires Good(k) && i < k.count
    requires t.state != Unused && t.stackPtr == k.tasks[i].stackPtr && t.isIdle == k.tasks[i].isIdle
    requires t.state == Running ==> k.tasks[i].state == Running
    requires t.isIdle ==> t.state == k.tasks[i].state
    ensures Good(k.(tasks := k.tasks[i := t]))
  {
    var k' := k.(tasks := k.tasks[i := t]);
    forall j | 0 <= j < k.count ensures Entry(k', j) {
      assert Entry(k, j);
    }
  }

  lemma CreateKeepsGood(k: Sched, psp: nat, stack: nat, size: Word)
    requires Good(k) && Enabled(k, Create(psp, stack, size))
    ensures Good(Tasks.Create(k, k.count, psp, stack, size))
  {
    var k' := Tasks.Create(k, k.count, psp, stack, size);
    forall j | 0 <= j < k'.count ensures Entry(k', j) {
      assert j < k.count ==> Entry(k, j);
    }
  }

  // ---------- garbage collection ----------

  /** Garbage collection is a stable in-place filter: survivors keep their order and contents, no
      hole stays below the count, freed slots are zeroed, and the current, next and idle pointers
      and the index still designate the same tasks. */
  lemma GcIsStableFilter(k: Sched)
    requires Good(k) && Alive(k)
    ensures var k', live := Gc(k), k.tasks[..k.count];
            && k'.count == |Survivors(live)| && |k'.tasks| == MAX_TASKS
            && k'.ticks == k.ticks && k'.nextId == k.nextId
            && (forall i :: 0 <= i < k.count && Kept(k.tasks[i]) ==>
                  Rank(live, i) < k'.count && k'.tasks[Rank(live, i)] == k.tasks[i])
            && (forall i, j :: 0 <= i < j < k.count && Kept(k.tasks[i]) ==> Rank(live, i) < Rank(live, j))
            && (forall r :: 0 <= r < k'.count ==> Kept(k'.tasks[r]) && k'.tasks[r] == k.tasks[Origin(live, r)])
            && (forall r :: k'.count <= r < MAX_TASKS ==> k'.tasks[r] == NO_TASK)
            && k'.current == k'.next == At(k'.curIdx) && k'.curIdx == Rank(live, k.curIdx)
            && k'.tasks[k'.curIdx] == k.tasks[k.curIdx]
            && k'.idle == At(Rank(live, k.idle.index))
            && k'.tasks[k'.idle.index] == k.tasks[k.idle.index]
  {
    var k', live := Gc(k), k.tasks[..k.count];
    forall i | 0 <= i < k.count && Kept(k.tasks[i])
      ensures Rank(live, i) < k'.count && k'.tasks[Rank(live, i)] == k.tasks[i]
    {
      SurvivorAt(live, i);
    }
    forall i, j | 0 <= i < j < k.count && Kept(k.tasks[i]) ensures Rank(live, i) < Rank(live, j) {
      RankMonotone(live, i, j);
    }
    forall r | 0 <= r < k'.count ensures Kept(k'.tasks[r]) && k'.tasks[r] == k.tasks[Origin(live, r)] {
      assert live[Origin(live, r)] == k.tasks[Origin(live, r)];
    }
    assert Entry(k, k.curIdx) && Entry(k, k.idle.index);
  }

  lemma GcEntry(k: Sched, r: nat)
    requires Good(k) && Alive(k) && r < Gc(k).count && |Gc(k).tasks| == MAX_TASKS
    ensures Entry(Gc(k), r)
  {
    GcIsStableFilter(k);
    assert Entry(k, Origin(k.tasks[..k.count], r));
  }

  lemma GcStacks(k: Sched, r: nat, s: nat)
    requires Good(k) && Alive(k) && r < s < Gc(k).count && |Gc(k).tasks| == MAX_TASKS
    ensures Gc(k).tasks[r].stackPtr != Gc(k).tasks[s].stackPtr
  {
    GcIsStableFilter(k);
    var live := k.tasks[..k.count];
    assert k.tasks[Origin(live, r)].stackPtr != k.tasks[Origin(live, s)].stackPtr by {
      assert Origin(live, r) != Origin(live, s);
    }
  }

  lemma GcKeepsGood(k: Sched)
    requires Good(k) && Alive(k)
    ensures Good(Gc(k)) && Alive(Gc(k))
  {
    GcIsStableFilter(k);
    var k' := Gc(k);
    assert k' == k.(tasks := k'.tasks, count := k'.count, current := k'.current, next := k'.next,
                    idle := k'.idle, curIdx := k'.curIdx);
    forall r | 0 <= r < k'.count ensures Entry(k', r) { GcEntry(k, r); }
    forall r, s | 0 <= r < s < k'.count ensures k'.tasks[r].stackPtr != k'.tasks[s].stackPtr {
      GcStacks(k, r, s);
    }
    GcSurvivesIdle(k);
  }

  lemma GcSurvivesIdle(k: Sched)
    requires Good(k) && Alive(k)
    ensures Gc(k).curIdx < Gc(k).count && Gc(k).idle.At? && Gc(k).idle.index < Gc(k).count
    ensures Gc(k).idle.index == Gc(k).curIdx <==> k.idle.index == k.curIdx
  {
    GcIsStableFilter(k);
    assert Entry(k, k.curIdx);
    var live := k.tasks[..k.count];
    if k.idle.index < k.curIdx {
      RankMonotone(live, k.idle.index, k.curIdx);
    } else {
      RankMonotone(live, k.curIdx, k.idle.index);
    }
  }

  // ---------- every step ----------

  lemma StepKeepsGood(k: Sched, e: Event)
    requires Good(k) && Enabled(k, e)
    ensures Good(Next(k, e))
  {
    match e
    case Check(_) =>
    case NoStack =>
    case Create(psp, stack, size) => CreateKeepsGood(k, psp, stack, size);
    case Delete(id) =>
      var i := FindId(k.tasks, k.count, id);
      if i < k.count && !k.tasks[i].isIdle { UpdateKeepsGood(k, i, k.tasks[i].(state := Zombie, id := 0)); }
    case Block(i) =>
      if !k.tasks[i].isIdle { UpdateKeepsGood(k, i, k.tasks[i].(state := Blocked)); }
    case Unblock(i) =>
      assert Entry(k, i);
      if k.tasks[i].state == Blocked { UpdateKeepsGood(k, i, k.tasks[i].(state := Ready)); }
    case Sleep(n) =>
      assert Entry(k, k.curIdx);
      if n != 0 { UpdateKeepsGood(k, k.curIdx, Next(k, e).tasks[k.curIdx]); }
    case Exit => UpdateKeepsGood(k, k.curIdx, k.tasks[k.curIdx].(state := Zombie, id := 0));
    case Collect => GcKeepsGood(k);
    case Tick => TicksKeepGood(k, 1); assert Ticks(k, 0) == k;
    case Switch(psp, n, c) => SwitchRunsOne(k, psp, n, c);
  }
}
