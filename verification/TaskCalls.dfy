/** What a caller gets from each call on tasks, said of the table's entries; and what becomes of the
    task in every run after it. */
module TaskCalls {
  import opened Machine
  import opened Tasks
  import opened SchedulerSteps
  import opened SchedulerTheorems
  import opened Timing

  // ---------- create ----------

  /** A created task is READY, without a deadline, not the idle task, and has the next identifier; no
      other entry changes. */
  lemma CreatedEntry(k: Sched, i: nat, psp: nat, stack: nat, size: Word)
    requires i < |k.tasks| && k.nextId < 0xFFFF
    ensures var k' := Tasks.Create(k, i, psp, stack, size);
            && |k'.tasks| == |k.tasks| && k'.tasks[i].psp == psp && k'.tasks[i].stackPtr == stack
            && k'.tasks[i].stackSize == size && k'.tasks[i].state == Ready && k'.tasks[i].sleepUntil == 0
            && !k'.tasks[i].isIdle && k'.tasks[i].id == k.nextId + 1 == k'.nextId
            && forall j :: 0 <= j < |k.tasks| && j != i ==> k'.tasks[j] == k.tasks[j]
  {
  }

  lemma CreatedWaits(k: Sched, psp: nat, stack: nat, size: Word)
    requires Good(k) && Enabled(k, Create(psp, stack, size))
    ensures Waiting(Next(k, Create(psp, stack, size)), k.count)
  {
  }

  /** A created task that is left alone is switched to within as many switches as there are tasks
      then, plus those created later. */
  lemma CreatedTaskRuns(ks: seq<Sched>, es: seq<Event>, xs: seq<nat>)
    requires Run(ks, es) && es != [] && es[0].Create?
    requires |xs| == |es| && Traces(ks[1..], es[1..], xs) && xs[0] == ks[0].count
    requires forall i :: 0 < i < |es| ==> LeftAlone(ks[i], es[i], xs[i - 1])
    requires Switches(es[1..]) >= ks[1].count + Creates(es[1..])
    ensures exists i :: 0 < i < |es| && es[i].Switch? && es[i].c == xs[i - 1]
  {
    CreatedWaits(ks[0], es[0].psp, es[0].stack, es[0].size);
    RunKeepsGood(ks, es, 1);
    hide Good, Enabled, Next, Where, LeftAlone, Waiting, Switches, Creates;
    ReadyTaskRuns(ks[1..], es[1..], xs);
    var i: nat :| Picked(es[1..], xs, i);
    assert es[i + 1] == es[1..][i];
    assert es[i + 1].Switch? && es[i + 1].c == xs[i + 1 - 1];
  }

  // ---------- delete ----------

  /** Entry i is the first that has the identifier. */
  ghost predicate FirstWith(k: Sched, id: nat, i: nat) {
    && i < k.count <= |k.tasks| && k.tasks[i].id == id
    && forall j :: 0 <= j < i ==> k.tasks[j].id != id
  }

  /** The four results of task_delete, and what each does to the table. */
  lemma DeleteResults(k: Sched, id: nat)
    requires k.count <= |k.tasks|
    ensures var (k', r) := Tasks.Delete(k, id);
            && (r == NotFound <==> forall i :: 0 <= i < k.count ==> k.tasks[i].id != id)
            && (r == IsIdle <==> exists i: nat :: FirstWith(k, id, i) && k.tasks[i].isIdle)
            && (r == IsCurrent <==> exists i: nat :: FirstWith(k, id, i) && !k.tasks[i].isIdle && k.current == At(i))
            && (r == Success <==> exists i: nat :: FirstWith(k, id, i) && !k.tasks[i].isIdle && k.current != At(i))
            && (r != Success ==> k' == k)
            && (forall i: nat :: r == Success && FirstWith(k, id, i) ==>
                  k' == k.(tasks := k.tasks[i := k.tasks[i].(state := Zombie, id := 0)]))
  {
    var i := FindId(k.tasks, k.count, id);
    if i < k.count {
      assert FirstWith(k, id, i);
      forall j: nat | FirstWith(k, id, j) ensures j == i {}
    }
  }

  // ---------- block, unblock, sleep ----------

  /** Blocking takes any task but the idle one out of the search, and changes nothing else. */
  lemma BlockStops(k: Sched, i: nat)
    requires i < |k.tasks|
    ensures var k' := Tasks.Block(k, i);
            && (k.tasks[i].state != Unused && !k.tasks[i].isIdle ==>
                  k'.tasks[i].state == Blocked && k'.tasks[i].sleepUntil == k.tasks[i].sleepUntil
                  && !Eligible(k'.tasks[i]))
            && (k.tasks[i].state == Unused || k.tasks[i].isIdle ==> k' == k)
            && k' == k.(tasks := k.tasks[i := k'.tasks[i]])
  {
    assert k.tasks[i := k.tasks[i]] == k.tasks;
  }

  /** A task that is blocked, and has no deadline, stays BLOCKED over every run in which nobody
      unblocks or deletes it. */
  lemma BlockLasts(ks: seq<Sched>, es: seq<Event>, xs: seq<nat>, i: nat)
    requires Run(ks, es) && es != [] && es[0] == Event.Block(i)
    requires |xs| == |es| && Traces(ks[1..], es[1..], xs) && xs[0] == i
    requires ks[0].tasks[i].sleepUntil == 0 && !ks[0].tasks[i].isIdle
    requires forall j :: 0 < j < |es| ==> LeftAlone(ks[j], es[j], xs[j - 1])
    ensures xs[|es| - 1] < |ks[|es|].tasks| && ks[|es|].tasks[xs[|es| - 1]].state == Blocked
  {
    var k := ks[0];
    assert Good(k) && Enabled(k, es[0]) && ks[1] == Tasks.Block(k, i);
    assert Entry(k, i);
    BlockStops(k, i);
    RunKeepsGood(ks, es, 1);
    hide Good, Enabled, Next, Where, LeftAlone;
    BlockedStays(ks[1..], es[1..], xs);
  }

  /** Unblocking makes a BLOCKED task READY, keeps its deadline, and changes nothing else. */
  lemma UnblockFrees(k: Sched, i: nat)
    requires i < |k.tasks|
    ensures Tasks.Unblock(k, i) ==
            if k.tasks[i].state == Blocked then k.(tasks := k.tasks[i := k.tasks[i].(state := Ready)]) else k
  {
  }

  /** Unblocking a task that was not sleeping: left alone, it is switched to within the usual number
      of switches. Unblocking a sleeper: left alone, it never is. */
  lemma UnblockRunsIff(ks: seq<Sched>, es: seq<Event>, xs: seq<nat>, i: nat)
    requires Run(ks, es) && es != [] && es[0] == Event.Unblock(i)
    requires |xs| == |es| && Traces(ks[1..], es[1..], xs) && xs[0] == i
    requires ks[0].tasks[i].state == Blocked && !ks[0].tasks[i].isIdle
    requires forall j :: 0 < j < |es| ==> LeftAlone(ks[j], es[j], xs[j - 1])
    requires Switches(es[1..]) >= ks[1].count + Creates(es[1..])
    ensures (exists j :: 0 < j < |es| && es[j].Switch? && es[j].c == xs[j - 1]) <==> ks[0].tasks[i].sleepUntil == 0
  {
    var k := ks[0];
    assert Good(k) && Enabled(k, es[0]) && ks[1] == Tasks.Unblock(k, i);
    UnblockMakesEligibleIff(k, i);
    RunKeepsGood(ks, es, 1);
    hide Good, Enabled, Next, Where, LeftAlone, Switches, Creates, Eligible, Stuck, Tasks.Unblock;
    if k.tasks[i].sleepUntil == 0 {
      assert Waiting(ks[1], i);
      ReadyTaskRuns(ks[1..], es[1..], xs);
      var j: nat :| Picked(es[1..], xs, j);
      assert es[j + 1] == es[1..][j];
      assert es[j + 1].Switch? && es[j + 1].c == xs[j + 1 - 1];
    } else {
      forall j | 0 < j < |es| && es[j].Switch? ensures es[j].c != xs[j - 1] { StarvesAt(ks, es, xs, j); }
    }
  }

  lemma StarvesAt(ks: seq<Sched>, es: seq<Event>, xs: seq<nat>, j: nat)
    requires Run(ks, es) && 0 < j < |es| && es[j].Switch?
    requires |xs| == |es| && Traces(ks[1..], es[1..], xs)
    requires xs[0] < ks[1].count && xs[0] < |ks[1].tasks| && Stuck(ks[1].tasks[xs[0]])
    requires forall i :: 0 < i < |es| ==> LeftAlone(ks[i], es[i], xs[i - 1])
    ensures es[j].c != xs[j - 1]
  {
    RunKeepsGood(ks, es, 1);
    RunKeepsGood(ks, es, j);
    hide Good, Enabled, Next, Where, LeftAlone;
    UnblockedSleeperStarves(ks[1..][..j], es[1..][..j - 1], xs[..j]);
    NotPicked(ks[j], es[j], xs[j - 1]);
  }

  lemma NotPicked(k: Sched, e: Event, x: nat)
    requires Good(k) && Enabled(k, e) && e.Switch? && x < |k.tasks| && Stuck(k.tasks[x])
    ensures e.c != x
  {
    SwitchRunsOne(k, e.psp, e.n, e.c);
    SearchTable(k, e.psp, e.n);
    if e.c == x {
      SwitchStaysParked(k, e.psp, e.n, e.c, x);
    }
  }

  /** Sleeping for no ticks does nothing; the idle task keeps running whatever it asks for. */
  lemma SleepRefuses(k: Sched, n: Word)
    requires Good(k)
    ensures Tasks.Sleep(k, 0) == k
    ensures k.tasks[k.curIdx].isIdle ==> Tasks.Sleep(k, n).tasks[k.curIdx].state == k.tasks[k.curIdx].state
  {
  }
}
