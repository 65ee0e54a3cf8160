/** task_create is not atomic: it tests the number of tasks before its critical section, and reads
    the identifier that it returns after it. What can go wrong, and when it cannot. */
module Creation {
  import opened Machine
  import opened Tasks
  import opened SchedulerSteps
  import opened SchedulerTheorems

  // ---------- the check ----------

  /** The section puts the new task into the slot it finds, which is one of the table exactly when
      the table is not full on entry. */
  lemma SectionFitsIff(k: Sched)
    requires Good(k)
    ensures Slot(k.tasks, k.count) < |k.tasks| <==> k.count < MAX_TASKS
  {
    var r := Slot(k.tasks, k.count);
    assert r < k.count ==> Entry(k, r);
  }

  function AskingStep(e: Event): int {
    match e
    case Check(admitted) => if admitted then 1 else 0
    case Create(_, _, _) => -1
    case NoStack => -1
    case _ => 0
  }

  /** How many creators have been admitted and have not yet been through their section. */
  function Asking(es: seq<Event>): int {
    if es == [] then 0 else Asking(es[..|es| - 1]) + AskingStep(es[|es| - 1])
  }

  /** Nobody is admitted unless the table has room for it and for all creators admitted before. */
  ghost predicate Guarded(ks: seq<Sched>, es: seq<Event>) {
    && |ks| == |es| + 1
    && forall i :: 0 <= i < |es| && es[i] == Check(true) ==> ks[i].count + Asking(es[..i]) < MAX_TASKS
  }

  lemma StepCount(k: Sched, e: Event)
    requires Good(k) && Enabled(k, e)
    ensures Next(k, e).count <= k.count + (if e.Create? then 1 else 0)
  {
    match e
    case Switch(psp, n, c) => TicksWake(Outgoing(k, psp), n);
    case Collect => GcIsStableFilter(k); RankMonotone(k.tasks[..k.count], 0, k.count);
    case _ =>
  }

  /** Over every guarded run, the creators admitted and not yet served still fit into the table, so
      the section of each of them finds its slot in the table. */
  lemma {:induction false} CreatorsFit(ks: seq<Sched>, es: seq<Event>)
    requires Run(ks, es) && Guarded(ks, es)
    ensures ks[|es|].count + Asking(es) <= MAX_TASKS
    ensures ks[|es|].count <= |ks[|es|].tasks|
    ensures Asking(es) > 0 ==> Slot(ks[|es|].tasks, ks[|es|].count) < |ks[|es|].tasks|
    decreases |es|
  {
    hide Good, Next, Enabled, Slot;
    var n := |es| - 1;
    RunKeepsGood(ks, es, |es|);
    SectionFitsIff(ks[|es|]);
    if es == [] {
      CountInTable(ks[0]);
    } else {
      RunKeepsGood(ks, es, n);
      assert Guarded(ks[..n + 1], es[..n]) by {
        forall i | 0 <= i < n && es[..n][i] == Check(true)
          ensures ks[..n + 1][i].count + Asking(es[..n][..i]) < MAX_TASKS
        {
          assert es[..n][..i] == es[..i];
        }
      }
      CreatorsFit(ks[..n + 1], es[..n]);
      StepCount(ks[n], es[n]);
      CheckKeepsCount(ks[n], es[n]);
    }
  }

  lemma CountInTable(k: Sched)
    requires Good(k)
    ensures k.count <= MAX_TASKS == |k.tasks|
  {
  }

  lemma CheckKeepsCount(k: Sched, e: Event)
    requires Enabled(k, e)
    ensures e.Check? || e.NoStack? ==> Next(k, e) == k
  {
  }

  /** Without the guard the run can fail: with one slot left, a creator passes its check and is
      switched away from, a second one passes too and completes; when the first one enters its
      section, the slot it finds is behind the end of the table. */
  lemma CreatorsOverrun(k: Sched, sp: nat, n: nat, c: nat, psp: nat, stack: nat, size: Word)
      returns (ks: seq<Sched>, es: seq<Event>)
    requires Good(k) && Alive(k) && k.count == MAX_TASKS - 1 && Enabled(k, Switch(sp, n, c)) && c != k.curIdx
    requires stack != 0 && forall i :: 0 <= i < k.count ==> k.tasks[i].stackPtr != stack
    ensures es == [Check(true), Switch(sp, n, c), Check(true), Create(psp, stack, size)]
    ensures Run(ks, es) && ks[0] == k && !Guarded(ks, es)
    ensures Asking(es) == 1 && Slot(ks[4].tasks, ks[4].count) == |ks[4].tasks|
  {
    var e := Create(psp, stack, size);
    es := [Check(true), Switch(sp, n, c), Check(true), e];
    hide Good, Enabled, Next, Slot, Alive, Asking, Run;
    var k2 := Next(k, Switch(sp, n, c));
    SwitchedTable(k, sp, n, c);
    LastSlotTaken(k2, psp, stack, size);
    CheckPasses(k);
    CheckPasses(k2);
    ks := [k, k, k2, k2, Next(k2, e)];
    FourSteps(ks, es);
    AskingFour(es);
    assert es[2] == Check(true) && ks[2].count + Asking(es[..2]) == MAX_TASKS;
  }

  lemma CheckPasses(k: Sched)
    requires Alive(k) && k.count < MAX_TASKS
    ensures Enabled(k, Check(true)) && Next(k, Check(true)) == k
  {
  }

  lemma LastSlotTaken(k: Sched, psp: nat, stack: nat, size: Word)
    requires Good(k) && Alive(k) && k.count == MAX_TASKS - 1
    requires stack != 0 && forall i :: 0 <= i < k.count ==> k.tasks[i].stackPtr != stack
    ensures Enabled(k, Create(psp, stack, size))
    ensures var k' := Next(k, Create(psp, stack, size));
            k'.count <= |k'.tasks| && Slot(k'.tasks, k'.count) == |k'.tasks|
  {
    var k' := Next(k, Create(psp, stack, size));
    CreateKeepsGood(k, psp, stack, size);
    SectionFitsIff(k');
    hide Slot;
  }

  lemma FourSteps(ks: seq<Sched>, es: seq<Event>)
    requires |ks| == 5 && |es| == 4 && Good(ks[0])
    requires Enabled(ks[0], es[0]) && ks[1] == Next(ks[0], es[0])
    requires Enabled(ks[1], es[1]) && ks[2] == Next(ks[1], es[1])
    requires Enabled(ks[2], es[2]) && ks[3] == Next(ks[2], es[2])
    requires Enabled(ks[3], es[3]) && ks[4] == Next(ks[3], es[3])
    ensures Run(ks, es)
  {
    hide Good, Enabled, Next;
  }

  lemma SwitchedTable(k: Sched, psp: nat, n: nat, c: nat)
    requires Good(k) && Enabled(k, Switch(psp, n, c))
    ensures var k' := Next(k, Switch(psp, n, c));
            && Good(k') && Alive(k') && k'.count == k.count <= |k'.tasks| == |k.tasks|
            && forall i :: 0 <= i < |k.tasks| ==> k'.tasks[i].stackPtr == k.tasks[i].stackPtr
  {
    SearchTable(k, psp, n);
    SwitchRunsOne(k, psp, n, c);
    hide Good, Enabled;
  }

  lemma AskingFour(es: seq<Event>)
    requires |es| == 4 && es[0] == Check(true) && es[1].Switch? && es[2] == Check(true) && es[3].Create?
    ensures Asking(es[..2]) == 1 && Asking(es) == 1
  {
    assert es[..3][..2] == es[..2] && es[..2][..1] == es[..1] && es[..1][..0] == [];
    assert Asking(es[..1]) == 1 && Asking(es[..2]) == 1 && Asking(es[..3]) == 2;
  }

  // ---------- the identifier returned ----------

  /** The task with this identifier is in this slot, and in no other. */
  ghost predicate Present(k: Sched, slot: nat, id: nat) {
    && slot < k.count <= |k.tasks| && 0 < id <= k.nextId && k.tasks[slot].id == id
    && forall y :: 0 <= y < k.count && y != slot ==> k.tasks[y].id != id
  }

  /** The task with this identifier is gone, or in a slot further down. */
  ghost predicate Absent(k: Sched, slot: nat, id: nat) {
    && k.count <= |k.tasks| && 0 < id <= k.nextId
    && forall y :: 0 <= y < k.count && k.tasks[y].id == id ==> y < slot
  }

  /** The event deletes the task in this slot, or a collection moves it down over a dead one. */
  ghost predicate Disturbs(k: Sched, e: Event, slot: nat)
    requires slot < k.count <= |k.tasks|
  {
    match e
    case Delete(id) => id == k.tasks[slot].id && slot != k.curIdx && !k.tasks[slot].isIdle
    case Exit => slot == k.curIdx
    case Collect => exists y :: 0 <= y < slot && !Kept(k.tasks[y])
    case _ => false
  }

  lemma {:induction false} RankIsIff(ts: seq<Task>, i: nat)
    requires i <= |ts|
    ensures Rank(ts, i) == i <==> forall y :: 0 <= y < i ==> Kept(ts[y])
  {
    if i > 0 {
      RankStep(ts, i - 1);
      RankIsIff(ts, i - 1);
    }
  }

  lemma PresentStep(k: Sched, e: Event, slot: nat, id: nat)
    requires Good(k) && IdsOrdered(k) && Enabled(k, e) && Present(k, slot, id)
    requires e.Create? ==> k.nextId < 0xFFFF
    ensures if Disturbs(k, e, slot) then Absent(Next(k, e), slot, id) else Present(Next(k, e), slot, id)
  {
    hide Picks, Rank, Gc, Ticks, Outgoing, Promote, IdsOrdered, SwitchTo, Tasks.Tick, Entry;
    match e
    case Collect => PresentCollect(k, slot, id);
    case Switch(psp, n, c) => SwitchIds(k, psp, n, c);
    case Tick => TickIds(k);
    case _ =>
  }

  lemma PresentCollect(k: Sched, slot: nat, id: nat)
    requires Good(k) && Alive(k) && IdsOrdered(k) && Present(k, slot, id)
    ensures if Disturbs(k, Collect, slot) then Absent(Gc(k), slot, id) else Present(Gc(k), slot, id)
  {
    hide Gc, Rank, Origin, Survivors, Entry;
    var live := k.tasks[..k.count];
    GcIsStableFilter(k);
    RankIsIff(live, slot);
    NamedIsKept(k, slot);
    CollectedFrom(k, slot, id);
  }

  lemma NamedIsKept(k: Sched, slot: nat)
    requires Good(k) && IdsOrdered(k) && slot < k.count && k.tasks[slot].id != 0
    ensures Kept(k.tasks[slot])
  {
    assert Entry(k, slot);
  }

  /** After a collection the identifier is at the rank of its slot. */
  lemma CollectedFrom(k: Sched, slot: nat, id: nat)
    requires Good(k) && Alive(k) && Present(k, slot, id) && Kept(k.tasks[slot])
    ensures Gc(k).nextId == k.nextId
    ensures Present(Gc(k), Rank(k.tasks[..k.count], slot), id)
  {
    hide Gc, Rank, Survivors, Entry;
    var live := k.tasks[..k.count];
    GcIsStableFilter(k);
    GcKeepsGood(k);
    CountInTable(Gc(k));
    hide Good;
    forall r | 0 <= r < Gc(k).count && r != Rank(live, slot) ensures Gc(k).tasks[r].id != id {
      assert Origin(live, r) != slot;
    }
  }

  lemma AbsentStep(k: Sched, e: Event, slot: nat, id: nat)
    requires Good(k) && Enabled(k, e) && Absent(k, slot, id)
    requires e.Create? ==> k.nextId < 0xFFFF
    ensures Absent(Next(k, e), slot, id)
  {
    hide Picks, Rank, Gc, Ticks, Outgoing, Promote, SwitchTo, Tasks.Tick, Entry;
    match e
    case Collect => AbsentCollect(k, slot, id);
    case Switch(psp, n, c) => SwitchIds(k, psp, n, c);
    case Tick => TickIds(k);
    case _ =>
  }

  lemma AbsentCollect(k: Sched, slot: nat, id: nat)
    requires Good(k) && Alive(k) && Absent(k, slot, id)
    ensures Absent(Gc(k), slot, id)
  {
    hide Gc, Survivors, Entry;
    var live := k.tasks[..k.count];
    GcIsStableFilter(k);
    GcKeepsGood(k);
    CountInTable(Gc(k));
    hide Good;
    forall r | 0 <= r < Gc(k).count && Gc(k).tasks[r].id == id ensures r < slot {
      assert k.tasks[Origin(live, r)].id == id && Rank(live, Origin(live, r)) == r;
    }
  }

  lemma SwitchIds(k: Sched, psp: nat, n: nat, c: nat)
    requires Good(k) && Enabled(k, Switch(psp, n, c))
    ensures var k' := SwitchTo(k, psp, n, c);
            && k'.count == k.count && |k'.tasks| == |k.tasks| && k'.nextId == k.nextId
            && forall i :: 0 <= i < |k.tasks| ==> k'.tasks[i].id == k.tasks[i].id
  {
    hide Ticks;
    SearchTable(k, psp, n);
    SwitchRunsOne(k, psp, n, c);
    hide Good, Enabled;
  }

  lemma TickIds(k: Sched)
    ensures var k' := Tasks.Tick(k);
            && k'.count == k.count && |k'.tasks| == |k.tasks| && k'.nextId == k.nextId
            && forall i :: 0 <= i < |k.tasks| ==> k'.tasks[i].id == k.tasks[i].id
  {
    TicksWake(k, 1);
    assert Ticks(k, 0) == k;
  }

  /** Some of the first n events disturbed the task in its slot. */
  ghost predicate Disturbed(ks: seq<Sched>, es: seq<Event>, slot: nat, n: nat)
    requires n <= |es| && n <= |ks|
  {
    exists i :: 0 <= i < n && slot < ks[i].count <= |ks[i].tasks| && Disturbs(ks[i], es[i], slot)
                && forall j :: 0 <= j < i ==> Calm(ks[j], es[j], slot)
  }

  ghost predicate Calm(k: Sched, e: Event, slot: nat) {
    slot < k.count <= |k.tasks| && !Disturbs(k, e, slot)
  }

  lemma {:induction false} RunKeepsPresent(ks: seq<Sched>, es: seq<Event>, slot: nat, id: nat, n: nat)
    requires Run(ks, es) && n <= |es| && Present(ks[0], slot, id)
    requires IdsOrdered(ks[0]) && ks[0].nextId + Creates(es) <= 0xFFFF
    ensures Disturbed(ks, es, slot, n) ==> Absent(ks[n], slot, id)
    ensures !Disturbed(ks, es, slot, n) ==>
              Present(ks[n], slot, id) && forall j :: 0 <= j < n ==> Calm(ks[j], es[j], slot)
  {
    hide Good, Next, Enabled, IdsOrdered, Disturbs, Creates;
    if n > 0 {
      RunKeepsPresent(ks, es, slot, id, n - 1);
      RunKeepsGood(ks, es, n - 1);
      OrderedAt(ks, es, n - 1);
      if Disturbed(ks, es, slot, n - 1) {
        AbsentStep(ks[n - 1], es[n - 1], slot, id);
      } else {
        PresentStep(ks[n - 1], es[n - 1], slot, id);
      }
    }
  }

  lemma {:induction false} CreatesGrow(es: seq<Event>, n: nat)
    requires n < |es|
    ensures Creates(es[..n]) + (if es[n].Create? then 1 else 0) <= Creates(es)
    decreases |es|
  {
    var m := |es| - 1;
    if n < m {
      CreatesGrow(es[..m], n);
      assert es[..m][..n] == es[..n];
    }
  }

  /** Before step n the identifiers are ordered, and one is left for a creation. */
  lemma OrderedAt(ks: seq<Sched>, es: seq<Event>, n: nat)
    requires Run(ks, es) && n < |es| && IdsOrdered(ks[0]) && ks[0].nextId + Creates(es) <= 0xFFFF
    ensures IdsOrdered(ks[n]) && (es[n].Create? ==> ks[n].nextId < 0xFFFF)
  {
    hide Good, Next, Enabled, IdsOrdered, Creates;
    CreatesGrow(es, n);
    RunKeepsOrder(ks[..n + 1], es[..n]);
  }

  /** The call returns what its slot holds when it is read. Over every run from the end of the section,
      that is the identifier of the new task if and only if no event since has deleted the task or
      moved it. ks[0] is the state in which the section ends. */
  lemma ReturnedIdIff(ks: seq<Sched>, es: seq<Event>, slot: nat)
    requires Run(ks, es) && IdsOrdered(ks[0]) && ks[0].nextId + Creates(es) <= 0xFFFF
    requires slot < ks[0].count && ks[0].tasks[slot].id != 0
    ensures slot < |ks[|es|].tasks|
    ensures ks[|es|].tasks[slot].id == ks[0].tasks[slot].id <==>
            forall i :: 0 <= i < |es| ==> Calm(ks[i], es[i], slot)
  {
    RunKeepsGood(ks, es, 0);
    RunKeepsGood(ks, es, |es|);
    StartsPresent(ks[0], slot);
    hide Run, Creates, IdsOrdered, Disturbs;
    RunKeepsPresent(ks, es, slot, ks[0].tasks[slot].id, |es|);
    SlotReads(ks[|es|], slot, ks[0].tasks[slot].id);
  }

  lemma StartsPresent(k: Sched, slot: nat)
    requires Good(k) && IdsOrdered(k) && slot < k.count && k.tasks[slot].id != 0
    ensures Present(k, slot, k.tasks[slot].id)
  {
    hide Entry;
    forall y | 0 <= y < k.count && y != slot ensures k.tasks[y].id != k.tasks[slot].id {
      if y < slot { assert k.tasks[y].id != 0 ==> k.tasks[y].id < k.tasks[slot].id; }
    }
  }

  lemma SlotReads(k: Sched, slot: nat, id: nat)
    requires Good(k) && slot < MAX_TASKS && id > 0
    ensures slot < |k.tasks|
    ensures Present(k, slot, id) ==> k.tasks[slot].id == id
    ensures Absent(k, slot, id) ==> k.tasks[slot].id != id
  {
  }

  /** With a zombie in the table, a creator that is preempted by a collection between its section
      and the read finds its slot empty, and returns 0. */
  lemma CreatorMisreports(k: Sched, j: nat, psp: nat, stack: nat, size: Word)
      returns (ks: seq<Sched>, es: seq<Event>)
    requires Good(k) && j < k.count && k.tasks[j].state == Zombie && Enabled(k, Create(psp, stack, size))
    ensures es == [Create(psp, stack, size), Collect] && Run(ks, es) && ks[0] == k
    ensures ks[1].tasks[k.count].id == ks[1].nextId && ks[2].tasks[k.count] == NO_TASK
  {
    hide Gc, Entry;
    var k1 := Next(k, Create(psp, stack, size));
    CreateKeepsGood(k, psp, stack, size);
    es := [Create(psp, stack, size), Collect];
    ks := [k, k1, Gc(k1)];
    assert Kept(k1.tasks[k.count]) && !Kept(k1.tasks[j]);
    CollectionShrinks(k1, j);
  }

  lemma CollectionShrinks(k: Sched, j: nat)
    requires Good(k) && Alive(k) && j < k.count && !Kept(k.tasks[j])
    ensures Gc(k).count < k.count && Gc(k).tasks[k.count - 1] == NO_TASK
  {
    hide Gc, Survivors, Origin, Entry;
    var live := k.tasks[..k.count];
    assert live[..k.count] == live;
    GcIsStableFilter(k);
    RankIsIff(live, k.count);
    RankMonotone(live, 0, k.count);
  }
}
