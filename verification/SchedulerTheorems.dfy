/** Safety, fairness and timing of the scheduler over whole runs. */
module SchedulerTheorems {
  import opened Machine
  import opened Tasks
  import opened SchedulerSteps

  ghost predicate Run(ks: seq<Sched>, es: seq<Event>) {
    && |ks| == |es| + 1 && Good(ks[0])
    && forall i :: 0 <= i < |es| ==> Enabled(ks[i], es[i]) && ks[i + 1] == Next(ks[i], es[i])
  }

  lemma {:induction false} RunKeepsGood(ks: seq<Sched>, es: seq<Event>, n: nat)
    requires Run(ks, es) && n <= |es|
    ensures Good(ks[n])
  {
    if n > 0 {
      RunKeepsGood(ks, es, n - 1);
      StepKeepsGood(ks[n - 1], es[n - 1]);
    }
  }

  /** In every reachable state at most one task is RUNNING, and it is the current one; right after
      a switch exactly one is. */
  lemma RunHasOneRunning(ks: seq<Sched>, es: seq<Event>, n: nat)
    requires Run(ks, es) && n <= |es|
    ensures var k := ks[n];
            && |k.tasks| == MAX_TASKS && k.count <= MAX_TASKS && k.current == k.next == At(k.curIdx)
            && (forall i :: 0 <= i < k.count && k.tasks[i].state == Running ==> i == k.curIdx)
            && (n > 0 && es[n - 1].Switch? ==>
                  k.curIdx == es[n - 1].c && k.curIdx < k.count && k.tasks[k.curIdx].state == Running)
  {
    RunKeepsGood(ks, es, n);
    forall i | 0 <= i < ks[n].count && ks[n].tasks[i].state == Running ensures i == ks[n].curIdx {
      assert Entry(ks[n], i);
    }
    if n > 0 && es[n - 1].Switch? {
      RunKeepsGood(ks, es, n - 1);
      SwitchRunsOne(ks[n - 1], es[n - 1].psp, es[n - 1].n, es[n - 1].c);
    }
  }

  // ---------- following one task ----------

  /** Entry i of the table is the task whose stack is p; stacks identify tasks for life, entries
      move. */
  ghost predicate Holds(k: Sched, i: nat, p: nat) {
    i < k.count && i < |k.tasks| && k.tasks[i].stackPtr == p
  }

  /** Where the task of entry i is after one step. */
  function Where(k: Sched, e: Event, i: nat): nat
    requires i < k.count <= |k.tasks|
  {
    if e == Collect then Rank(k.tasks[..k.count], i) else i
  }

  /** A task that is not garbage keeps its stack, and moves only when the table is compacted. */
  lemma StepMoves(k: Sched, e: Event, i: nat, p: nat)
    requires Good(k) && Enabled(k, e) && Holds(k, i, p) && (e == Collect ==> Kept(k.tasks[i]))
    ensures Holds(Next(k, e), Where(k, e, i), p)
    ensures e == Collect ==> Next(k, e).tasks[Where(k, e, i)] == k.tasks[i]
    ensures e.Tick? ==> Next(k, e).tasks[i] == WakeTask(k.tasks[i], Next(k, e).ticks)
  {
    hide Gc, Rank, Picks, Entry;
    match e
    case Collect => GcIsStableFilter(k); hide Good;
    case Switch(psp, n, c) => SwitchMoves(k, psp, n, c, i, p);
    case _ =>
  }

  lemma SwitchMoves(k: Sched, psp: nat, n: nat, c: nat, i: nat, p: nat)
    requires Good(k) && Enabled(k, Switch(psp, n, c)) && Holds(k, i, p)
    ensures Holds(SwitchTo(k, psp, n, c), i, p)
  {
    SearchTable(k, psp, n);
    hide Gc, Rank, Entry, Good;
    assert Woken(Outgoing(k, psp).tasks[i], Ticks(Outgoing(k, psp), n).tasks[i]);
  }

  // ---------- bounded waiting ----------

  /** The task at entry i is ready to be picked. */
  ghost predicate Waiting(k: Sched, i: nat) {
    i < k.count && i < |k.tasks| && Eligible(k.tasks[i])
  }

  lemma DistRange(count: nat, from: nat, x: nat, y: nat)
    requires from < count && x < count && y < count
    ensures 1 <= Dist(count, from, x) <= count
    ensures Dist(count, from, x) == Dist(count, from, y) ==> x == y
    ensures Dist(count, from, x) < Dist(count, from, y) ==>
              Dist(count, x, y) == Dist(count, from, y) - Dist(count, from, x)
  {
  }

  /** A switch that passes over a waiting task brings the ring strictly closer to it. */
  lemma SwitchCloses(k: Sched, psp: nat, n: nat, c: nat, x: nat)
    requires Good(k) && Enabled(k, Switch(psp, n, c)) && Waiting(k, x) && c != x
    ensures Dist(k.count, SwitchTo(k, psp, n, c).curIdx, x) < Dist(k.count, k.curIdx, x)
  {
    SearchTable(k, psp, n);
    SwitchRunsOne(k, psp, n, c);
    var d := Outgoing(k, psp);
    assert d.count == k.count && d.curIdx == k.curIdx && Eligible(d.tasks[x]);
    assert Dist(d.count, d.curIdx, c) <= Dist(d.count, d.curIdx, x);
    DistRange(k.count, k.curIdx, c, x);
  }

  /** Compaction never moves a surviving task away. */
  lemma GcCloses(k: Sched, x: nat)
    requires Good(k) && Alive(k) && x < k.count && Kept(k.tasks[x])
    ensures Dist(Gc(k).count, Gc(k).curIdx, Rank(k.tasks[..k.count], x)) <= Dist(k.count, k.curIdx, x)
  {
    GcIsStableFilter(k);
    var live := k.tasks[..k.count];
    assert Entry(k, k.curIdx) && live[..k.count] == live;
    if x > k.curIdx {
      RankMonotone(live, k.curIdx, x);
    } else {
      RankMonotone(live, x, k.curIdx);
      RankMonotone(live, k.curIdx, k.count);
    }
  }

  /** How far the task is after a step, compared with before: strictly closer after a switch, at
      most one farther after a create, otherwise no farther. */
  lemma StepDistance(k: Sched, e: Event, i: nat, p: nat)
    requires Good(k) && Enabled(k, e) && Waiting(k, i) && Holds(k, i, p)
    requires Waiting(Next(k, e), Where(k, e, i))
    ensures var k', i' := Next(k, e), Where(k, e, i);
            Dist(k'.count, k'.curIdx, i') + (if e.Switch? then 1 else 0)
              <= Dist(k.count, k.curIdx, i) + (if e.Create? then 1 else 0)
  {
    match e
    case Switch(psp, n, c) =>
      SwitchRunsOne(k, psp, n, c);
      SearchTable(k, psp, n);
      if c != i { SwitchCloses(k, psp, n, c, i); }
    case Collect => GcCloses(k, i);
    case _ =>
  }

  function Switches(es: seq<Event>): nat {
    if es == [] then 0 else Switches(es[..|es| - 1]) + (if es[|es| - 1].Switch? then 1 else 0)
  }

  function Creates(es: seq<Event>): nat {
    if es == [] then 0 else Creates(es[..|es| - 1]) + (if es[|es| - 1].Create? then 1 else 0)
  }

  /** `xs` traces the entry of one task through the run. */
  ghost predicate Traces(ks: seq<Sched>, es: seq<Event>, xs: seq<nat>) {
    && |xs| == |ks| == |es| + 1
    && forall i :: 0 <= i < |es| ==>
         ks[i].count <= |ks[i].tasks| && xs[i] < ks[i].count && xs[i + 1] == Where(ks[i], es[i], xs[i])
  }

  lemma {:induction false} RunDistance(ks: seq<Sched>, es: seq<Event>, xs: seq<nat>)
    requires Run(ks, es) && Traces(ks, es, xs)
    requires forall i :: 0 <= i <= |es| ==> Waiting(ks[i], xs[i])
    ensures Dist(ks[|es|].count, ks[|es|].curIdx, xs[|es|]) + Switches(es)
              <= Dist(ks[0].count, ks[0].curIdx, xs[0]) + Creates(es)
    decreases |es|
  {
    hide Good, Next, Enabled, Dist, Where;
    if es != [] {
      var n := |es| - 1;
      RunKeepsGood(ks, es, n);
      RunDistance(ks[..n + 1], es[..n], xs[..n + 1]);
      assert Waiting(ks[n + 1], xs[n + 1]) && xs[n + 1] == Where(ks[n], es[n], xs[n]);
      StepDistance(ks[n], es[n], xs[n], ks[n].tasks[xs[n]].stackPtr);
    }
  }

  /** Bounded waiting: while a task stays ready without being picked, there can be fewer switches
      than tasks in the table at the start plus tasks created since. */
  lemma BoundedWaiting(ks: seq<Sched>, es: seq<Event>, xs: seq<nat>)
    requires Run(ks, es) && Traces(ks, es, xs)
    requires forall i :: 0 <= i <= |es| ==> Waiting(ks[i], xs[i])
    ensures Switches(es) < ks[0].count + Creates(es)
  {
    RunDistance(ks, es, xs);
    RunKeepsGood(ks, es, |es|);
    hide Run, Next, Enabled, Traces, Dist;
    DistRange(ks[|es|].count, ks[|es|].curIdx, xs[|es|], xs[|es|]);
    DistRange(ks[0].count, ks[0].curIdx, xs[0], xs[0]);
  }

  // ---------- sleeping ----------

  /** The ticks of one event, also those that strike during a switch. */
  function TicksOf(e: Event): nat {
    match e
    case Tick => 1
    case Switch(_, n, _) => n
    case _ => 0
  }

  function TicksIn(es: seq<Event>): nat {
    if es == [] then 0
    else
      TicksIn(es[..|es| - 1]) + TicksOf(es[|es| - 1])
  }

  /** Nobody blocks, unblocks or deletes entry x. */
  ghost predicate LeftAlone(k: Sched, e: Event, x: nat) {
    match e
    case Block(i) => i != x
    case Unblock(i) => i != x
    case Delete(id) => x < |k.tasks| && id != k.tasks[x].id
    case Sleep(_) => k.curIdx != x
    case Exit => k.curIdx != x
    case _ => true
  }

  /** Asleep until tick u; or woken by it, and eligible. */
  ghost predicate Asleep(t: Task, u: Word) { t.state == Blocked && t.sleepUntil == u && !t.isIdle }
  ghost predicate Awake(t: Task) { Eligible(t) }

  lemma {:induction false} TicksSleep(k: Sched, n: nat, x: nat, u: Word)
    requires x < k.count && x < |k.tasks| && u != 0
    requires Asleep(k.tasks[x], u) && k.ticks < u
    ensures |Ticks(k, n).tasks| == |k.tasks| && Ticks(k, n).count == k.count
    ensures k.ticks + n < u ==> Asleep(Ticks(k, n).tasks[x], u) && Ticks(k, n).ticks == k.ticks + n
    ensures k.ticks + n >= u ==> Awake(Ticks(k, n).tasks[x])
  {
    if n > 0 { TicksSleep(k, n - 1, x, u); }
  }

  lemma SleepStarts(k: Sched, n: Word)
    requires Good(k) && Enabled(k, Event.Sleep(n)) && n > 0 && !k.tasks[k.curIdx].isIdle
    requires k.ticks + n < WORD_LIMIT
    ensures var k' := Next(k, Event.Sleep(n));
            Asleep(k'.tasks[k.curIdx], k.ticks + n) && k'.ticks == k.ticks
  {
    assert Entry(k, k.curIdx);
  }

  lemma SwitchSleeps(k: Sched, psp: nat, n: nat, c: nat, x: nat, u: Word)
    requires Good(k) && Enabled(k, Switch(psp, n, c))
    requires x < k.count && Asleep(k.tasks[x], u) && k.ticks < u
    ensures var k' := SwitchTo(k, psp, n, c);
            && x < |k'.tasks|
            && if k.ticks + n < u then Asleep(k'.tasks[x], u) && k'.ticks == k.ticks + n
               else Awake(k'.tasks[x]) || (c == x && k'.tasks[x].state == Running)
  {
    TicksSleep(Outgoing(k, psp), n, x, u);
    SwitchRunsOne(k, psp, n, c);
    hide Good, Enabled;
    if k.ticks + n < u { assert c != x; }
  }

  lemma TickSleeps(k: Sched, x: nat, u: Word)
    requires x < k.count && x < |k.tasks| && Asleep(k.tasks[x], u) && k.ticks < u
    ensures var k' := Tasks.Tick(k);
            && x < |k'.tasks|
            && if k.ticks + 1 < u then Asleep(k'.tasks[x], u) && k'.ticks == k.ticks + 1 else Awake(k'.tasks[x])
  {
    TicksSleep(k, 1, x, u);
    assert Ticks(k, 0) == k;
  }

  lemma StepSleeps(k: Sched, e: Event, x: nat, u: Word)
    requires Good(k) && Enabled(k, e) && LeftAlone(k, e, x)
    requires x < k.count && Asleep(k.tasks[x], u) && k.ticks < u
    ensures var k', x' := Next(k, e), Where(k, e, x);
            && x' < |k'.tasks|
            && if k.ticks + TicksOf(e) < u
               then Asleep(k'.tasks[x'], u) && k'.ticks == k.ticks + TicksOf(e)
               else Awake(k'.tasks[x']) || (e.Switch? && e.c == x && k'.tasks[x'].state == Running)
  {
    hide Gc, Rank, Picks, Entry, SwitchTo, Tasks.Tick, Asleep, Awake;
    match e
    case Collect => CollectSleeps(k, x, u);
    case Tick => TickSleeps(k, x, u);
    case Switch(psp, n, c) => SwitchSleeps(k, psp, n, c, x, u);
    case _ => CallSleeps(k, e, x, u);
  }

  lemma CollectSleeps(k: Sched, x: nat, u: Word)
    requires Good(k) && Alive(k) && x < k.count && Asleep(k.tasks[x], u)
    ensures var k', x' := Gc(k), Rank(k.tasks[..k.count], x);
            x' < |k'.tasks| && Asleep(k'.tasks[x'], u) && k'.ticks == k.ticks
  {
    hide Gc, Rank;
    GcIsStableFilter(k);
  }

  lemma CallSleeps(k: Sched, e: Event, x: nat, u: Word)
    requires Good(k) && Enabled(k, e) && LeftAlone(k, e, x) && x < k.count && Asleep(k.tasks[x], u)
    requires !e.Collect? && !e.Tick? && !e.Switch?
    ensures var k' := Next(k, e); x < |k'.tasks| && Asleep(k'.tasks[x], u) && k'.ticks == k.ticks
  {
    hide Entry;
    assert e.Delete? ==> FindId(k.tasks, k.count, e.id) != x;
  }

  /** Timeliness: a task asleep until tick u that nobody blocks, unblocks or deletes stays asleep,
      so is not picked, in every state before tick u, and the step that reaches tick u wakes it
      (and possibly picks it at once). */
  lemma {:induction false} RunSleeps(ks: seq<Sched>, es: seq<Event>, xs: seq<nat>, u: Word)
    requires Run(ks, es) && Traces(ks, es, xs)
    requires forall i :: 0 <= i < |es| ==> LeftAlone(ks[i], es[i], xs[i])
    requires xs[0] < ks[0].count && xs[0] < |ks[0].tasks| && Asleep(ks[0].tasks[xs[0]], u) && ks[0].ticks < u
    requires es != [] ==> ks[0].ticks + TicksIn(es[..|es| - 1]) < u
    ensures var n := |es|;
            && xs[n] < |ks[n].tasks|
            && if ks[0].ticks + TicksIn(es) < u
               then Asleep(ks[n].tasks[xs[n]], u) && ks[n].ticks == ks[0].ticks + TicksIn(es)
               else
                 && n > 0
                 && (Awake(ks[n].tasks[xs[n]]) ||
                     (es[n - 1].Switch? && es[n - 1].c == xs[n - 1] && ks[n].tasks[xs[n]].state == Running))
    decreases |es|
  {
    hide Good, Next, Enabled, Where, LeftAlone, Asleep, Awake;
    if es != [] {
      var n := |es| - 1;
      if n > 0 { TicksGrow(es[..n]); }
      RunSleeps(ks[..n + 1], es[..n], xs[..n + 1], u);
      RunKeepsGood(ks, es, n);
      StepSleeps(ks[n], es[n], xs[n], u);
      assert xs[n + 1] == Where(ks[n], es[n], xs[n]);
    }
  }

  lemma TicksGrow(es: seq<Event>)
    requires es != []
    ensures TicksIn(es) == TicksIn(es[..|es| - 1]) + TicksOf(es[|es| - 1])
  {
  }

  // ---------- calls that break a promise ----------

  /** task_unblock does not clear the deadline, so it makes a blocked task eligible exactly when
      the task was not sleeping. */
  lemma UnblockMakesEligibleIff(k: Sched, i: nat)
    requires i < |k.tasks| && k.tasks[i].state == Blocked
    ensures Eligible(Tasks.Unblock(k, i).tasks[i]) <==> !k.tasks[i].isIdle && k.tasks[i].sleepUntil == 0
    ensures Stuck(Tasks.Unblock(k, i).tasks[i]) <==> !k.tasks[i].isIdle && k.tasks[i].sleepUntil != 0
  {
  }

  /** READY with a deadline still set. */
  ghost predicate Stuck(t: Task) { t.state == Ready && t.sleepUntil != 0 && !t.isIdle }

  /** BLOCKED without a deadline. */
  ghost predicate Waits(t: Task) { t.state == Blocked && t.sleepUntil == 0 && !t.isIdle }

  /** The two conditions that neither a tick nor the search ends. */
  ghost predicate Parked(t: Task) { Stuck(t) || Waits(t) }

  /** A sleeper that was unblocked by hand is never picked again, by any run in which nobody blocks
      or deletes it: ticks wake only BLOCKED tasks, and the search skips a set deadline. */
  lemma UnblockedSleeperStarves(ks: seq<Sched>, es: seq<Event>, xs: seq<nat>)
    requires Run(ks, es) && Traces(ks, es, xs)
    requires forall i :: 0 <= i < |es| ==> LeftAlone(ks[i], es[i], xs[i])
    requires xs[0] < ks[0].count && Stuck(ks[0].tasks[xs[0]])
    ensures xs[|es|] < |ks[|es|].tasks| && Stuck(ks[|es|].tasks[xs[|es|]])
  {
    RunKeepsGood(ks, es, 0);
    hide Run, Traces, LeftAlone, Good;
    RunStaysParked(ks, es, xs);
  }

  /** A task that was blocked, and was not sleeping, stays BLOCKED, so is not picked, over every run
      in which nobody unblocks or deletes it. */
  lemma BlockedStays(ks: seq<Sched>, es: seq<Event>, xs: seq<nat>)
    requires Run(ks, es) && Traces(ks, es, xs)
    requires forall i :: 0 <= i < |es| ==> LeftAlone(ks[i], es[i], xs[i])
    requires xs[0] < ks[0].count && Waits(ks[0].tasks[xs[0]])
    ensures xs[|es|] < |ks[|es|].tasks| && Waits(ks[|es|].tasks[xs[|es|]])
  {
    RunKeepsGood(ks, es, 0);
    hide Run, Traces, LeftAlone, Good;
    RunStaysParked(ks, es, xs);
  }

  lemma {:induction false} RunStaysParked(ks: seq<Sched>, es: seq<Event>, xs: seq<nat>)
    requires Run(ks, es) && Traces(ks, es, xs)
    requires forall i :: 0 <= i < |es| ==> LeftAlone(ks[i], es[i], xs[i])
    requires xs[0] < ks[0].count && Parked(ks[0].tasks[xs[0]])
    ensures xs[|es|] < |ks[|es|].tasks| && SameWait(ks[0].tasks[xs[0]], ks[|es|].tasks[xs[|es|]])
    decreases |es|
  {
    RunKeepsGood(ks, es, 0);
    hide Good, Next, Enabled, Where, LeftAlone;
    if es != [] {
      var n := |es| - 1;
      RunStaysParked(ks[..n + 1], es[..n], xs[..n + 1]);
      RunKeepsGood(ks, es, n);
      StepStaysParked(ks[n], es[n], xs[n]);
      assert xs[n + 1] == Where(ks[n], es[n], xs[n]);
    }
  }

  ghost predicate SameWait(t: Task, t': Task) {
    t'.state == t.state && t'.sleepUntil == t.sleepUntil && t'.isIdle == t.isIdle
  }

  lemma StepStaysParked(k: Sched, e: Event, x: nat)
    requires Good(k) && Enabled(k, e) && LeftAlone(k, e, x)
    requires x < k.count && Parked(k.tasks[x])
    ensures var k', x' := Next(k, e), Where(k, e, x);
            x' < |k'.tasks| && SameWait(k.tasks[x], k'.tasks[x'])
  {
    hide Gc, Rank, Picks, Entry, SwitchTo;
    match e
    case Collect => CollectStaysParked(k, x);
    case Switch(psp, n, c) => SwitchStaysParked(k, psp, n, c, x);
    case Delete(id) => assert FindId(k.tasks, k.count, id) != x;
    case _ =>
  }

  lemma CollectStaysParked(k: Sched, x: nat)
    requires Good(k) && Alive(k) && x < k.count && Parked(k.tasks[x])
    ensures var x' := Rank(k.tasks[..k.count], x);
            x' < |Gc(k).tasks| && SameWait(k.tasks[x], Gc(k).tasks[x'])
  {
    hide Gc, Rank;
    GcIsStableFilter(k);
  }

  lemma SwitchStaysParked(k: Sched, psp: nat, n: nat, c: nat, x: nat)
    requires Good(k) && Enabled(k, Switch(psp, n, c)) && x < k.count && Parked(k.tasks[x])
    ensures x < |SwitchTo(k, psp, n, c).tasks| && SameWait(k.tasks[x], SwitchTo(k, psp, n, c).tasks[x])
  {
    SearchTable(k, psp, n);
    SwitchRunsOne(k, psp, n, c);
    hide Good;
    TicksLeaveParked(Outgoing(k, psp), n, x);
  }

  lemma {:induction false} TicksLeaveParked(k: Sched, n: nat, x: nat)
    requires x < |k.tasks| && Parked(k.tasks[x])
    ensures |Ticks(k, n).tasks| == |k.tasks| && Ticks(k, n).tasks[x] == k.tasks[x]
  {
    if n > 0 { TicksLeaveParked(k, n - 1, x); }
  }

  /** Garbage collection drops a zombie, unless task_block was given it first: blocking overwrites
      the ZOMBIE state, and the collection keeps the deleted task. */
  lemma BlockRevivesZombie(k: Sched, i: nat, j: nat)
    requires Good(k) && i < k.count && j < k.count
    requires k.tasks[i].state == Zombie && !k.tasks[i].isIdle
    ensures Kept(Tasks.Block(k, j).tasks[i]) <==> i == j
    ensures i == j ==> exists r :: 0 <= r < Gc(Tasks.Block(k, j)).count &&
                         Gc(Tasks.Block(k, j)).tasks[r] == k.tasks[i].(state := Blocked)
  {
    if i == j {
      var k' := Tasks.Block(k, j);
      var live := k'.tasks[..k'.count];
      SurvivorAt(live, i);
      assert Gc(k').tasks[Rank(live, i)] == k.tasks[i].(state := Blocked);
    }
  }

  /** Deleted, so without an identifier, and yet kept. */
  ghost predicate Revived(t: Task) { Kept(t) && t.id == 0 && !t.isIdle }

  /** What can retire a revived task: it exits, or identifier 0 is deleted by another task while no
      slot before it has that identifier. */
  ghost predicate Retires(k: Sched, e: Event, x: nat) {
    || (e == Exit && k.curIdx == x)
    || (e == Delete(0) && k.count <= |k.tasks| && FindId(k.tasks, k.count, 0) == x && k.curIdx != x)
  }

  lemma StepRetiresIff(k: Sched, e: Event, x: nat)
    requires Good(k) && Enabled(k, e) && x < k.count && Revived(k.tasks[x])
    ensures var k', x' := Next(k, e), Where(k, e, x);
            x' < k'.count && x' < |k'.tasks| && (Revived(k'.tasks[x']) <==> !Retires(k, e, x))
  {
    hide Gc, Rank, Picks, SwitchTo, Entry;
    match e
    case Collect => CollectKeepsRevived(k, x);
    case Switch(psp, n, c) => SwitchKeepsRevived(k, psp, n, c, x);
    case _ =>
  }

  lemma CollectKeepsRevived(k: Sched, x: nat)
    requires Good(k) && Alive(k) && x < k.count && Revived(k.tasks[x])
    ensures var k', x' := Gc(k), Rank(k.tasks[..k.count], x);
            x' < k'.count <= |k'.tasks| && Revived(k'.tasks[x'])
  {
    hide Gc, Rank;
    GcIsStableFilter(k);
    GcKeepsGood(k);
  }

  lemma SwitchKeepsRevived(k: Sched, psp: nat, n: nat, c: nat, x: nat)
    requires Good(k) && Enabled(k, Switch(psp, n, c)) && x < k.count && Revived(k.tasks[x])
    ensures var k' := SwitchTo(k, psp, n, c); x < k'.count <= |k'.tasks| && Revived(k'.tasks[x])
  {
    SearchTable(k, psp, n);
    SwitchRunsOne(k, psp, n, c);
    hide Good, Enabled;
    assert Woken(Outgoing(k, psp).tasks[x], Ticks(Outgoing(k, psp), n).tasks[x]);
  }

  /** A revived task stays in the table over any run in which nothing retires it. */
  lemma {:induction false} RevivedStays(ks: seq<Sched>, es: seq<Event>, xs: seq<nat>)
    requires Run(ks, es) && Traces(ks, es, xs)
    requires xs[0] < ks[0].count && Revived(ks[0].tasks[xs[0]])
    requires forall i :: 0 <= i < |es| ==> !Retires(ks[i], es[i], xs[i])
    ensures xs[|es|] < ks[|es|].count && xs[|es|] < |ks[|es|].tasks| && Revived(ks[|es|].tasks[xs[|es|]])
    decreases |es|
  {
    RunKeepsGood(ks, es, 0);
    hide Good, Next, Enabled, Where, Retires, Revived;
    if es != [] {
      var n := |es| - 1;
      RevivedStays(ks[..n + 1], es[..n], xs[..n + 1]);
      RunKeepsGood(ks, es, n);
      StepRetiresIff(ks[n], es[n], xs[n]);
      assert xs[n + 1] == Where(ks[n], es[n], xs[n]);
    }
  }

  // ---------- identifiers ----------

  /** Tasks that have an identifier stand in the order of their creation; zombies have lost theirs. */
  ghost predicate IdsOrdered(k: Sched) {
    && (forall i :: 0 <= i < k.count && i < |k.tasks| && k.tasks[i].state == Zombie ==> k.tasks[i].id == 0)
    && (forall i :: 0 <= i < k.count && i < |k.tasks| ==> k.tasks[i].id <= k.nextId)
    && (forall i, j :: 0 <= i < j < k.count && j < |k.tasks| && k.tasks[i].id != 0 && k.tasks[j].id != 0
                       ==> k.tasks[i].id < k.tasks[j].id)
  }

  /** Every live task has an identifier. */
  ghost predicate AllNamed(k: Sched) {
    forall i :: 0 <= i < k.count && i < |k.tasks| && k.tasks[i].state != Zombie ==> k.tasks[i].id != 0
  }

  /** A deleted task is blocked, which makes it live without an identifier. */
  ghost predicate Revives(k: Sched, e: Event) {
    e.Block? && e.i < |k.tasks| && k.tasks[e.i].state == Zombie
  }

  lemma StepKeepsOrder(k: Sched, e: Event)
    requires Good(k) && Enabled(k, e) && IdsOrdered(k)
    requires e.Create? ==> k.nextId < 0xFFFF
    ensures IdsOrdered(Next(k, e))
    ensures Next(k, e).nextId == k.nextId + (if e.Create? then 1 else 0)
  {
    hide IdsOrdered, Gc, Picks, Rank, Promote, Outgoing, Ticks;
    match e
    case Create(psp, stack, size) => CreateKeepsOrder(k, psp, stack, size);
    case Collect => GcIsStableFilter(k); GcKeepsOrder(k); hide Good;
    case Switch(psp, n, c) => SwitchKeepsOrder(k, psp, n, c); hide Good;
    case Tick => TickKeepsOrder(k);
    case _ => CallKeepsOrder(k, e);
  }

  lemma CallKeepsOrder(k: Sched, e: Event)
    requires Good(k) && Enabled(k, e) && IdsOrdered(k)
    requires e.Check? || e.NoStack? || e.Delete? || e.Block? || e.Unblock? || e.Sleep? || e.Exit?
    ensures IdsOrdered(Next(k, e)) && Next(k, e).nextId == k.nextId
  {
    UnnamedZombies(k);
    hide IdsOrdered;
    SameIds(k, Next(k, e));
  }

  /** Reviving a deleted task is the one step that leaves a live task without an identifier. */
  lemma StepKeepsNamesIff(k: Sched, e: Event)
    requires Good(k) && Enabled(k, e) && IdsOrdered(k) && AllNamed(k)
    requires e.Create? ==> k.nextId < 0xFFFF
    ensures AllNamed(Next(k, e)) <==> !Revives(k, e)
  {
    hide Gc, Picks, Rank, SwitchTo, Tasks.Tick, Entry;
    match e
    case Collect => CollectKeepsNames(k);
    case Switch(psp, n, c) => SwitchKeepsNames(k, psp, n, c);
    case Block(i) => BlockNames(k, i);
    case Tick => TickKeepsNames(k);
    case _ =>
  }

  lemma CollectKeepsNames(k: Sched)
    requires Good(k) && Alive(k) && AllNamed(k)
    ensures AllNamed(Gc(k))
  {
    hide Gc, Rank, Survivors, Entry;
    GcIsStableFilter(k);
  }

  lemma TickKeepsNames(k: Sched)
    requires AllNamed(k)
    ensures AllNamed(Tasks.Tick(k))
  {
    TicksWake(k, 1);
    assert Ticks(k, 0) == k;
  }

  lemma BlockNames(k: Sched, i: nat)
    requires Good(k) && i < k.count && IdsOrdered(k) && AllNamed(k)
    ensures AllNamed(Tasks.Block(k, i)) <==> k.tasks[i].state != Zombie
  {
    assert Entry(k, i) && Entry(k, k.idle.index);
    if k.tasks[i].state == Zombie { assert Tasks.Block(k, i).tasks[i].id == 0; }
  }

  lemma SwitchKeepsNames(k: Sched, psp: nat, n: nat, c: nat)
    requires Good(k) && Enabled(k, Switch(psp, n, c)) && AllNamed(k)
    ensures AllNamed(SwitchTo(k, psp, n, c))
  {
    hide Ticks;
    SearchTable(k, psp, n);
    SwitchRunsOne(k, psp, n, c);
    hide Good, Enabled;
    var d := Outgoing(k, psp);
    assert forall i :: 0 <= i < |k.tasks| ==> Woken(d.tasks[i], Ticks(d, n).tasks[i]);
  }

  /** task_delete by a real identifier succeeds exactly when a live task other than the idle and the
      calling one has it, and retires that one task. Identifier 0 belongs to the zombies unless one
      has been revived: deleting it reports success exactly when there is a zombie, and does nothing. */
  lemma DeleteHitsIff(k: Sched, id: nat)
    requires Good(k) && Alive(k) && IdsOrdered(k)
    ensures id != 0 ==>
              (Tasks.Delete(k, id).1 == Success <==>
               exists i :: 0 <= i < k.count && i != k.curIdx && !k.tasks[i].isIdle && k.tasks[i].id == id)
    ensures id != 0 ==>
              forall i :: 0 <= i < k.count && i != k.curIdx && !k.tasks[i].isIdle && k.tasks[i].id == id ==>
                k.tasks[i].state != Zombie
                && Tasks.Delete(k, id).0.tasks == k.tasks[i := k.tasks[i].(state := Zombie, id := 0)]
    ensures AllNamed(k) ==>
              && (Tasks.Delete(k, 0).1 == Success <==> exists i :: 0 <= i < k.count && k.tasks[i].state == Zombie)
              && Tasks.Delete(k, 0).0 == k
  {
    var i, j := FindId(k.tasks, k.count, id), FindId(k.tasks, k.count, 0);
    assert j < k.count ==> Entry(k, j);
    assert Entry(k, k.idle.index);
    if j < k.count && AllNamed(k) {
      assert k.tasks[j].(state := Zombie, id := 0) == k.tasks[j];
    }
  }

  lemma SwitchKeepsOrder(k: Sched, psp: nat, n: nat, c: nat)
    requires Good(k) && Enabled(k, Switch(psp, n, c)) && IdsOrdered(k)
    ensures IdsOrdered(SwitchTo(k, psp, n, c)) && SwitchTo(k, psp, n, c).nextId == k.nextId
  {
    SearchTable(k, psp, n);
    SwitchRunsOne(k, psp, n, c);
    var k' := SwitchTo(k, psp, n, c);
    hide Good, IdsOrdered, Enabled, Ticks, Outgoing;
    SameIds(k, k');
  }

  lemma CreateKeepsOrder(k: Sched, psp: nat, stack: nat, size: Word)
    requires Good(k) && IdsOrdered(k) && k.nextId < 0xFFFF && k.count < MAX_TASKS
    ensures IdsOrdered(Tasks.Create(k, k.count, psp, stack, size))
  {
  }

  lemma UnnamedZombies(k: Sched)
    requires IdsOrdered(k)
    ensures forall i :: 0 <= i < k.count && i < |k.tasks| && k.tasks[i].state == Zombie ==> k.tasks[i].id == 0
  {
  }

  lemma TickKeepsOrder(k: Sched)
    requires Good(k) && IdsOrdered(k)
    ensures IdsOrdered(Tasks.Tick(k)) && Tasks.Tick(k).nextId == k.nextId
  {
    TicksWake(k, 1);
    assert Ticks(k, 0) == k;
    UnnamedZombies(k);
    hide IdsOrdered;
    SameIds(k, Tasks.Tick(k));
  }

  lemma SameIds(k: Sched, k': Sched)
    requires IdsOrdered(k) && k'.count == k.count && |k'.tasks| == |k.tasks| && k'.nextId == k.nextId
    requires k.count <= |k.tasks|
    requires forall i :: 0 <= i < k.count ==>
               k'.tasks[i].id == 0 || (k'.tasks[i].state != Zombie && k'.tasks[i].id == k.tasks[i].id)
    ensures IdsOrdered(k')
  {
  }

  lemma GcKeepsOrder(k: Sched)
    requires Good(k) && Alive(k) && IdsOrdered(k)
    ensures IdsOrdered(Gc(k))
  {
    hide Gc, Survivors, Rank, Origin, Entry;
    GcIsStableFilter(k);
    var k', live := Gc(k), k.tasks[..k.count];
    forall r, s | 0 <= r < s < k'.count && k'.tasks[r].id != 0 && k'.tasks[s].id != 0
      ensures k'.tasks[r].id < k'.tasks[s].id
    {
      OriginGrows(live, r, s);
    }
  }

  lemma OriginGrows(ts: seq<Task>, r: nat, s: nat)
    requires r < s < |Survivors(ts)|
    ensures Origin(ts, r) < Origin(ts, s)
  {
    if Origin(ts, s) <= Origin(ts, r) { RankMonotone(ts, Origin(ts, s), Origin(ts, r)); }
  }

  /** For the first 65535 creations, tasks that have an identifier stand in strictly increasing order
      of it. */
  lemma {:induction false} RunKeepsOrder(ks: seq<Sched>, es: seq<Event>)
    requires Run(ks, es) && IdsOrdered(ks[0]) && ks[0].nextId + Creates(es) <= 0xFFFF
    ensures IdsOrdered(ks[|es|]) && ks[|es|].nextId == ks[0].nextId + Creates(es)
    decreases |es|
  {
    hide Good, Next, Enabled, IdsOrdered;
    if es != [] {
      var n := |es| - 1;
      RunKeepsOrder(ks[..n + 1], es[..n]);
      RunKeepsGood(ks, es, n);
      StepKeepsOrder(ks[n], es[n]);
    }
  }

  /** As long as no deleted task is blocked, those are all the live tasks. */
  lemma {:induction false} RunKeepsNames(ks: seq<Sched>, es: seq<Event>)
    requires Run(ks, es) && IdsOrdered(ks[0]) && AllNamed(ks[0]) && ks[0].nextId + Creates(es) <= 0xFFFF
    requires forall i :: 0 <= i < |es| ==> !Revives(ks[i], es[i])
    ensures AllNamed(ks[|es|])
    decreases |es|
  {
    hide Good, Next, Enabled, IdsOrdered, AllNamed, Revives;
    if es != [] {
      var n := |es| - 1;
      RunKeepsNames(ks[..n + 1], es[..n]);
      RunKeepsOrder(ks[..n + 1], es[..n]);
      RunKeepsGood(ks, es, n);
      StepKeepsNamesIff(ks[n], es[n]);
    }
  }
}
