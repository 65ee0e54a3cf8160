/** When a sleeping task wakes, and that a woken task runs. */
module Timing {
  import opened Machine
  import opened Tasks
  import opened SchedulerSteps
  import opened SchedulerTheorems

  // ---------- one sleep, tick by tick ----------

  /** The tick counter i ticks after it showed t. */
  function Clock(t: Word, i: nat): Word {
    Wrap(t + i)
  }

  /** Among the m ticks after t there is one at which deadline u has come; 0 means no deadline. */
  predicate DueBy(t: Word, u: Word, m: nat) {
    m > 0 && (DueBy(t, u, m - 1) || (u != 0 && Clock(t, m) >= u))
  }

  lemma ClockStep(t: Word, m: nat)
    requires m > 0
    ensures Wrap(Clock(t, m - 1) + 1) == Clock(t, m)
  {
    WrapAdd(t + (m - 1), 1);
  }

  lemma {:induction false} TickByTick(k: Sched, m: nat, x: nat, u: Word)
    requires x < k.count && x < |k.tasks| && Asleep(k.tasks[x], u)
    ensures var k' := Ticks(k, m);
            && k'.ticks == Clock(k.ticks, m) && k'.count == k.count && |k'.tasks| == |k.tasks|
            && if DueBy(k.ticks, u, m) then Awake(k'.tasks[x]) else Asleep(k'.tasks[x], u)
  {
    if m > 0 {
      TickByTick(k, m - 1, x, u);
      ClockStep(k.ticks, m);
      hide Clock, Wrap;
    }
  }

  lemma {:induction false} DueWhen(t: Word, u: Word, m: nat)
    ensures DueBy(t, u, m) <==> u != 0 && exists i :: 0 < i <= m && Clock(t, i) >= u
  {
    hide Clock;
    if m > 0 {
      DueWhen(t, u, m - 1);
      assert u != 0 && Clock(t, m) >= u ==> DueBy(t, u, m);
    }
  }

  /** Entry x is asleep until the n-th tick, and that tick makes it eligible. */
  ghost predicate WakesAt(k: Sched, x: nat, n: nat) {
    && x < |Ticks(k, n).tasks| && Awake(Ticks(k, n).tasks[x])
    && forall i :: 0 <= i < n ==> Sleeps(k, x, i)
  }

  ghost predicate Sleeps(k: Sched, x: nat, m: nat) {
    x < |Ticks(k, m).tasks| && Ticks(k, m).tasks[x].state == Blocked
  }

  /** The state that task_sleep_ticks leaves. */
  lemma Slept(k: Sched, n: Word)
    requires Good(k) && Enabled(k, Event.Sleep(n)) && n > 0 && !k.tasks[k.curIdx].isIdle
    ensures var k' := Next(k, Event.Sleep(n));
            && k.curIdx < k'.count && k'.count <= |k'.tasks| && k'.ticks == k.ticks
            && Asleep(k'.tasks[k.curIdx], Wrap(k.ticks + n))
  {
    assert Entry(k, k.curIdx);
  }

  lemma ClockArithmetic(t: Word, n: Word)
    requires n > 0
    ensures Clock(t, n) == Wrap(t + n)
    ensures t + n < WORD_LIMIT ==> forall i :: 0 < i < n ==> Clock(t, i) < Wrap(t + n)
    ensures t == WORD_LIMIT - 1 ==> forall i :: 0 < i < n ==> Clock(t, i) < Wrap(t + n)
    ensures t + n == WORD_LIMIT <==> Wrap(t + n) == 0
    ensures t + n > WORD_LIMIT && t != WORD_LIMIT - 1 ==> n > 1 && Clock(t, 1) >= Wrap(t + n)
  {
    forall i | 0 < i < n && (t + n < WORD_LIMIT || t == WORD_LIMIT - 1) ensures Clock(t, i) < Wrap(t + n) {
      if t == WORD_LIMIT - 1 {
        assert Wrap(t + i) == i - 1 && Wrap(t + n) == n - 1;
      }
    }
  }

  /** A sleep of n ticks ends at exactly the n-th tick if and only if its deadline does not wrap, or
      it begins at the last tick before the counter does and lasts at least two. */
  lemma SleepIsExactIff(k: Sched, n: Word)
    requires Good(k) && Enabled(k, Event.Sleep(n)) && n > 0 && !k.tasks[k.curIdx].isIdle
    ensures WakesAt(Next(k, Event.Sleep(n)), k.curIdx, n) <==>
              k.ticks + n < WORD_LIMIT || (k.ticks == WORD_LIMIT - 1 && n >= 2)
  {
    var k', x, t, u := Next(k, Event.Sleep(n)), k.curIdx, k.ticks, Wrap(k.ticks + n);
    Slept(k, n);
    ClockArithmetic(t, n);
    hide Good, Next, Enabled, Clock, Wrap;
    TickByTick(k', n, x, u);
    DueWhen(t, u, n);
    forall i | 0 <= i < n && !DueBy(t, u, i) ensures Sleeps(k', x, i) { TickByTick(k', i, x, u); }
    if t + n < WORD_LIMIT || (t == WORD_LIMIT - 1 && n >= 2) {
      forall i | 0 <= i < n ensures !DueBy(t, u, i) { DueWhen(t, u, i); }
    } else if t + n > WORD_LIMIT {
      DueWhen(t, u, 1);
      TickByTick(k', 1, x, u);
      assert !Sleeps(k', x, 1);
    }
  }

  /** A sleep never ends if and only if its deadline wraps to 0, which means no deadline. */
  lemma SleepNeverEndsIff(k: Sched, n: Word)
    requires Good(k) && Enabled(k, Event.Sleep(n)) && n > 0 && !k.tasks[k.curIdx].isIdle
    ensures (forall m: nat :: Sleeps(Next(k, Event.Sleep(n)), k.curIdx, m)) <==> k.ticks + n == WORD_LIMIT
  {
    var k', x, t, u := Next(k, Event.Sleep(n)), k.curIdx, k.ticks, Wrap(k.ticks + n);
    Slept(k, n);
    ClockArithmetic(t, n);
    hide Good, Next, Enabled, Clock, Wrap;
    if u == 0 {
      forall m: nat ensures Sleeps(k', x, m) {
        DueWhen(t, u, m);
        TickByTick(k', m, x, u);
      }
    } else {
      DueWhen(t, u, n);
      TickByTick(k', n, x, u);
      assert !Sleeps(k', x, n);
    }
  }

  /** Every other sleep ends early, at the very first tick. */
  lemma SleepEndsEarlyIff(k: Sched, n: Word)
    requires Good(k) && Enabled(k, Event.Sleep(n)) && n > 0 && !k.tasks[k.curIdx].isIdle
    ensures (n > 1 && WakesAt(Next(k, Event.Sleep(n)), k.curIdx, 1)) <==>
              k.ticks + n > WORD_LIMIT && k.ticks != WORD_LIMIT - 1
  {
    var k', x, t, u := Next(k, Event.Sleep(n)), k.curIdx, k.ticks, Wrap(k.ticks + n);
    Slept(k, n);
    ClockArithmetic(t, n);
    hide Good, Next, Enabled, Clock, Wrap;
    TickByTick(k', 0, x, u);
    TickByTick(k', 1, x, u);
    assert Sleeps(k', x, 0);
    DueWhen(t, u, 0);
    DueWhen(t, u, 1);
  }

  // ---------- an eligible task runs ----------

  /** Left alone and not picked, a waiting task goes on waiting. */
  lemma StaysWaiting(k: Sched, e: Event, x: nat)
    requires Good(k) && Enabled(k, e) && Waiting(k, x) && LeftAlone(k, e, x)
    requires !(e.Switch? && e.c == x)
    ensures Waiting(Next(k, e), Where(k, e, x))
  {
    hide Gc, Rank, Picks, SwitchTo;
    match e
    case Collect => GcIsStableFilter(k);
    case Switch(psp, n, c) => SwitchPasses(k, psp, n, c, x);
    case Tick => TicksWake(k, 1); assert Ticks(k, 0) == k;
    case Delete(id) => assert FindId(k.tasks, k.count, id) != x;
    case _ =>
  }

  lemma SwitchPasses(k: Sched, psp: nat, n: nat, c: nat, x: nat)
    requires Good(k) && Enabled(k, Switch(psp, n, c)) && Waiting(k, x) && c != x
    ensures Waiting(SwitchTo(k, psp, n, c), x)
  {
    SearchTable(k, psp, n);
    hide Good, Enabled;
    assert Woken(Outgoing(k, psp).tasks[x], Ticks(Outgoing(k, psp), n).tasks[x]);
  }

  /** Step i picks the traced task. */
  ghost predicate Picked(es: seq<Event>, xs: seq<nat>, i: nat) {
    i < |es| && i < |xs| && es[i].Switch? && es[i].c == xs[i]
  }

  lemma {:induction false} WaitsUntilPicked(ks: seq<Sched>, es: seq<Event>, xs: seq<nat>, n: nat)
    requires Run(ks, es) && Traces(ks, es, xs) && n <= |es| && Waiting(ks[0], xs[0])
    requires forall i :: 0 <= i < |es| ==> LeftAlone(ks[i], es[i], xs[i])
    requires forall i :: 0 <= i < n ==> !Picked(es, xs, i)
    ensures Waiting(ks[n], xs[n])
  {
    hide Good, Next, Enabled, Where, LeftAlone, Waiting;
    if n > 0 {
      WaitsUntilPicked(ks, es, xs, n - 1);
      RunKeepsGood(ks, es, n - 1);
      assert !Picked(es, xs, n - 1);
      StaysWaiting(ks[n - 1], es[n - 1], xs[n - 1]);
      assert xs[n] == Where(ks[n - 1], es[n - 1], xs[n - 1]);
    }
  }

  /** Fairness: a ready task that nobody blocks or deletes is picked by one of the next switches, as
      many as there are tasks in the table and tasks created meanwhile. */
  lemma ReadyTaskRuns(ks: seq<Sched>, es: seq<Event>, xs: seq<nat>)
    requires Run(ks, es) && Traces(ks, es, xs) && Waiting(ks[0], xs[0])
    requires forall i :: 0 <= i < |es| ==> LeftAlone(ks[i], es[i], xs[i])
    requires Switches(es) >= ks[0].count + Creates(es)
    ensures exists i :: Picked(es, xs, i)
  {
    hide Good, Next, Enabled, Where, LeftAlone, Waiting;
    if forall i :: 0 <= i < |es| ==> !Picked(es, xs, i) {
      forall n | 0 <= n <= |es| ensures Waiting(ks[n], xs[n]) { WaitsUntilPicked(ks, es, xs, n); }
      BoundedWaiting(ks, es, xs);
    }
  }

  // ---------- a sleeper wakes in time and then runs ----------

  lemma {:induction false} TicksInGrows(es: seq<Event>, i: nat, j: nat)
    requires i <= j <= |es|
    ensures TicksIn(es[..i]) <= TicksIn(es[..j])
    decreases j
  {
    if i < j {
      TicksInGrows(es, i, j - 1);
      assert es[..j][..j - 1] == es[..j - 1];
    }
  }

  /** What RunSleeps says of the first n steps of a run. */
  lemma PrefixSleeps(ks: seq<Sched>, es: seq<Event>, xs: seq<nat>, u: Word, n: nat)
    requires Run(ks, es) && Traces(ks, es, xs) && 0 < n <= |es|
    requires forall i :: 0 <= i < |es| ==> LeftAlone(ks[i], es[i], xs[i])
    requires xs[0] < ks[0].count && xs[0] < |ks[0].tasks| && Asleep(ks[0].tasks[xs[0]], u) && ks[0].ticks < u
    requires ks[0].ticks + TicksIn(es[..n - 1]) < u
    ensures xs[n] < |ks[n].tasks|
    ensures if ks[0].ticks + TicksIn(es[..n]) < u then Asleep(ks[n].tasks[xs[n]], u)
            else Awake(ks[n].tasks[xs[n]]) || (Picked(es, xs, n - 1) && ks[n].tasks[xs[n]].state == Running)
  {
    hide Good, Next, Enabled, Where, LeftAlone, Asleep, Awake;
    assert es[..n][..n - 1] == es[..n - 1];
    RunSleeps(ks[..n + 1], es[..n], xs[..n + 1], u);
  }

  /** A task asleep until tick u, left alone, is not picked before the step that reaches tick u, and
      is picked by that step or by one of the next switches, as many as there are tasks in the table
      and tasks created meanwhile. Step m - 1 is the one that reaches tick u. */
  lemma SleeperRuns(ks: seq<Sched>, es: seq<Event>, xs: seq<nat>, u: Word, m: nat)
    requires Run(ks, es) && Traces(ks, es, xs) && 0 < m <= |es|
    requires forall i :: 0 <= i < |es| ==> LeftAlone(ks[i], es[i], xs[i])
    requires xs[0] < ks[0].count && xs[0] < |ks[0].tasks| && Asleep(ks[0].tasks[xs[0]], u) && ks[0].ticks < u
    requires ks[0].ticks + TicksIn(es[..m - 1]) < u <= ks[0].ticks + TicksIn(es[..m])
    requires Switches(es[m..]) >= ks[m].count + Creates(es[m..])
    ensures forall i :: 0 <= i < m - 1 ==> !Picked(es, xs, i)
    ensures exists i :: m - 1 <= i && Picked(es, xs, i)
  {
    hide Run, Traces, Good, Next, Enabled, Where, LeftAlone, Asleep, Awake;
    forall i | 0 <= i < m - 1 ensures !Picked(es, xs, i) { NotPickedAsleep(ks, es, xs, u, m, i); }
    PrefixSleeps(ks, es, xs, u, m);
    if !Picked(es, xs, m - 1) { WokenRuns(ks, es, xs, m); }
  }

  lemma NotPickedAsleep(ks: seq<Sched>, es: seq<Event>, xs: seq<nat>, u: Word, m: nat, i: nat)
    requires Run(ks, es) && Traces(ks, es, xs) && i + 1 < m <= |es|
    requires forall j :: 0 <= j < |es| ==> LeftAlone(ks[j], es[j], xs[j])
    requires xs[0] < ks[0].count && xs[0] < |ks[0].tasks| && Asleep(ks[0].tasks[xs[0]], u) && ks[0].ticks < u
    requires ks[0].ticks + TicksIn(es[..m - 1]) < u
    ensures !Picked(es, xs, i)
  {
    AsleepAt(ks, es, xs, u, m, i + 1);
    hide Traces, LeftAlone, Enabled, Next, Good, TicksIn, Where;
    if Picked(es, xs, i) {
      RunKeepsGood(ks, es, i);
      PickedRuns(ks, es, xs, i);
    }
  }

  lemma AsleepAt(ks: seq<Sched>, es: seq<Event>, xs: seq<nat>, u: Word, m: nat, i: nat)
    requires Run(ks, es) && Traces(ks, es, xs) && 0 < i < m <= |es|
    requires forall j :: 0 <= j < |es| ==> LeftAlone(ks[j], es[j], xs[j])
    requires xs[0] < ks[0].count && xs[0] < |ks[0].tasks| && Asleep(ks[0].tasks[xs[0]], u) && ks[0].ticks < u
    requires ks[0].ticks + TicksIn(es[..m - 1]) < u
    ensures xs[i] < |ks[i].tasks| && Asleep(ks[i].tasks[xs[i]], u)
  {
    hide LeftAlone, Enabled, Next, Good, TicksIn, Where, Asleep, Run;
    TicksInGrows(es, i - 1, m - 1);
    TicksInGrows(es, i, m - 1);
    PrefixSleeps(ks, es, xs, u, i);
  }

  lemma PickedRuns(ks: seq<Sched>, es: seq<Event>, xs: seq<nat>, i: nat)
    requires Run(ks, es) && Traces(ks, es, xs) && Picked(es, xs, i) && Good(ks[i])
    ensures xs[i + 1] == xs[i] && xs[i] < |ks[i + 1].tasks| && ks[i + 1].tasks[xs[i]].state == Running
  {
    hide Picks, Ticks, Outgoing, Entry;
    SwitchRunsOne(ks[i], es[i].psp, es[i].n, es[i].c);
  }

  lemma WokenRuns(ks: seq<Sched>, es: seq<Event>, xs: seq<nat>, m: nat)
    requires Run(ks, es) && Traces(ks, es, xs) && m <= |es|
    requires forall i :: 0 <= i < |es| ==> LeftAlone(ks[i], es[i], xs[i])
    requires xs[m] < |ks[m].tasks| && Awake(ks[m].tasks[xs[m]])
    requires Switches(es[m..]) >= ks[m].count + Creates(es[m..])
    ensures exists i :: m <= i && Picked(es, xs, i)
  {
    RunKeepsGood(ks, es, m);
    assert m < |es|;
    hide Next, Enabled, Where, LeftAlone, Switches, Creates;
    assert Waiting(ks[m], xs[m]);
    hide Good;
    ReadyTaskRuns(ks[m..], es[m..], xs[m..]);
    var i :| Picked(es[m..], xs[m..], i);
    assert Picked(es, xs, m + i);
  }
}
