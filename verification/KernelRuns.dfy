/** Every run of the kernel is a run of the scheduler, so what holds over all runs of the scheduler
    holds over all runs of the kernel, from the start on. */
module KernelRuns {
  import opened Machine
  import opened Tasks
  import opened SchedulerSteps
  import opened SchedulerTheorems
  import opened Timing
  import opened Creation
  import opened TaskCalls
  import opened Kernels
  import opened Boots
  import K = KernelTheorems
  import BootTheorems

  // ---------- the projection ----------

  /** What an action is to the scheduler; what tasks do on their own account is nothing to it. */
  function EventOf(s: K.System, e: K.Action, s': K.System): Event {
    match e
    case Spawn(_, _, _, _, r) =>
      if r == -1 || s.x.k.count >= |s'.x.k.tasks| then NoStack
      else
        var t := s'.x.k.tasks[s.x.k.count];
        Create(t.psp, t.stackPtr, t.stackSize)
    case Reap => Collect
    case Swap(n, c) => Switch(if s.x.psp >= 8 then s.x.psp - 8 else 0, n, c)
    case Invoke(ev) => ev
    case _ => Check(false)
  }

  lemma StepProjects(s: K.System, e: K.Action, s': K.System)
    requires K.Inv(s) && K.Step(s, e, s')
    ensures var ev := EventOf(s, e, s'); Enabled(s.x.k, ev) && s'.x.k == Next(s.x.k, ev)
  {
    hide K.Core, Good, Gc, Picks, Ticks, Outgoing, SwitchTo, CreateEffect, K.StackAfter;
    match e
    case Spawn(func, arg, exit, size, r) => SpawnProjects(s, func, arg, exit, size, r, s');
    case Swap(n, c) => SwapProjects(s, n, c, s');
    case _ =>
  }

  lemma SwapProjects(s: K.System, n: nat, c: nat, s': K.System)
    requires K.Shaped(s) && K.SwapStep(s, n, c, s')
    ensures s.x.psp >= 8 && Enabled(s.x.k, Switch(s.x.psp - 8, n, c))
    ensures s'.x.k == Next(s.x.k, Switch(s.x.psp - 8, n, c))
  {
    hide Picks, Ticks, Outgoing, SwitchTo, K.StackAfter, K.HasBlock;
  }

  lemma SpawnProjects(s: K.System, func: Word, arg: Word, exit: Word, size: Word, r: int, s': K.System)
    requires K.Inv(s) && K.Shaped(s) && K.SpawnStep(s, func, arg, exit, size, r, s')
    ensures var ev := EventOf(s, K.Spawn(func, arg, exit, size, r), s');
            Enabled(s.x.k, ev) && s'.x.k == Next(s.x.k, ev)
  {
    if r == -1 {
      hide StackBytes, FirstPsp, FirstFrame;
    } else {
      hide CreateEffect, K.StackAfter, K.Suspended, K.BigEnough;
      K.InvIsCompact(s);
      K.SpawnKeepsCore(s, func, arg, exit, size, r, s');
      StacksExclude(s.x.k, s'.x.k.tasks[s.x.k.count].stackPtr);
      hide K.Core, K.Stacks, Good;
    }
  }

  lemma StacksExclude(k: Sched, p: nat)
    requires k.count <= |k.tasks| && p !in K.Stacks(k)
    ensures forall i :: 0 <= i < k.count ==> k.tasks[i].stackPtr != p
  {
    forall i | 0 <= i < k.count ensures k.tasks[i].stackPtr != p { assert k.tasks[i].stackPtr in K.Stacks(k); }
  }

  function Tables(ss: seq<K.System>): (ks: seq<Sched>)
    ensures |ks| == |ss| && forall i :: 0 <= i < |ss| ==> ks[i] == ss[i].x.k
  {
    seq(|ss|, i requires 0 <= i < |ss| => ss[i].x.k)
  }

  function Events(ss: seq<K.System>, es: seq<K.Action>): (evs: seq<Event>)
    requires |ss| == |es| + 1
    ensures |evs| == |es| && forall i :: 0 <= i < |es| ==> evs[i] == EventOf(ss[i], es[i], ss[i + 1])
  {
    seq(|es|, i requires 0 <= i < |es| => EventOf(ss[i], es[i], ss[i + 1]))
  }

  /** The tables of a kernel run are a run of the scheduler. */
  lemma RunProjects(ss: seq<K.System>, es: seq<K.Action>)
    requires K.Run(ss, es)
    ensures Run(Tables(ss), Events(ss, es))
  {
    hide K.Inv, K.Step, EventOf, Enabled, Next, Good;
    InvIsGood(ss[0]);
    forall i | 0 <= i < |es|
      ensures Enabled(Tables(ss)[i], Events(ss, es)[i]) && Tables(ss)[i + 1] == Next(Tables(ss)[i], Events(ss, es)[i])
    {
      K.RunKeepsInv(ss, es, i);
      StepProjects(ss[i], es[i], ss[i + 1]);
    }
  }

  lemma InvIsGood(s: K.System)
    requires K.Inv(s)
    ensures Good(s.x.k)
  {
  }

  // ---------- safety and fairness of the kernel ----------

  /** The actions trace the entry of one task. */
  ghost predicate Follows(ss: seq<K.System>, es: seq<K.Action>, xs: seq<nat>) {
    |ss| == |es| + 1 && Traces(Tables(ss), Events(ss, es), xs)
  }

  /** No other task and not the task itself blocks, unblocks, deletes or puts it to sleep. */
  ghost predicate Undisturbed(ss: seq<K.System>, es: seq<K.Action>, xs: seq<nat>) {
    && |ss| == |es| + 1 == |xs|
    && forall i :: 0 <= i < |es| ==> LeftAlone(Tables(ss)[i], Events(ss, es)[i], xs[i])
  }

  /** Action i is PendSV switching to the traced task. */
  ghost predicate Runs(es: seq<K.Action>, xs: seq<nat>, i: nat) {
    i < |es| && i < |xs| && es[i].Swap? && es[i].c == xs[i]
  }

  lemma PickedRuns(ss: seq<K.System>, es: seq<K.Action>, xs: seq<nat>, i: nat)
    requires K.Run(ss, es) && i < |es|
    ensures Picked(Events(ss, es), xs, i) <==> Runs(es, xs, i)
  {
    var ev := Events(ss, es)[i];
    assert K.Step(ss[i], es[i], ss[i + 1]) && ev == EventOf(ss[i], es[i], ss[i + 1]);
    hide K.Inv, K.SpawnStep, K.ReapStep, K.SwapStep, K.AllocStep, K.DropStep, K.ResizeStep, K.ComputeStep;
  }

  lemma KernelOneRunning(ss: seq<K.System>, es: seq<K.Action>, n: nat)
    requires K.Run(ss, es) && n <= |es|
    ensures var k := ss[n].x.k;
            && k.count <= |k.tasks| && k.current == k.next == At(k.curIdx)
            && (forall i :: 0 <= i < k.count && k.tasks[i].state == Running ==> i == k.curIdx)
            && (n > 0 && es[n - 1].Swap? ==>
                  k.curIdx == es[n - 1].c && k.curIdx < k.count && k.tasks[k.curIdx].state == Running)
  {
    hide K.Inv, K.Step, Run;
    RunProjects(ss, es);
    RunHasOneRunning(Tables(ss), Events(ss, es), n);
  }

  /** A ready task that is left alone is switched to by one of the next switches, as many as there
      are tasks in the table and tasks created meanwhile. */
  lemma KernelReadyTaskRuns(ss: seq<K.System>, es: seq<K.Action>, xs: seq<nat>)
    requires K.Run(ss, es) && Follows(ss, es, xs) && Undisturbed(ss, es, xs)
    requires Waiting(ss[0].x.k, xs[0])
    requires Switches(Events(ss, es)) >= ss[0].x.k.count + Creates(Events(ss, es))
    ensures exists i :: Runs(es, xs, i)
  {
    hide K.Run, Run, Traces, LeftAlone, Waiting, Runs;
    RunProjects(ss, es);
    ReadyTaskRuns(Tables(ss), Events(ss, es), xs);
    var i :| Picked(Events(ss, es), xs, i);
    PickedRuns(ss, es, xs, i);
  }

  /** A task created in a run and left alone is switched to within as many switches as there are tasks
      then, plus those created later. */
  lemma SpawnedTaskRuns(ss: seq<K.System>, es: seq<K.Action>, xs: seq<nat>)
    requires K.Run(ss, es) && es != [] && es[0].Spawn? && es[0].r != -1
    requires Follows(ss[1..], es[1..], xs) && Undisturbed(ss[1..], es[1..], xs) && xs[0] == ss[0].x.k.count
    requires Switches(Events(ss[1..], es[1..])) >= ss[1].x.k.count + Creates(Events(ss[1..], es[1..]))
    ensures exists i :: Runs(es[1..], xs, i)
  {
    hide K.Inv, K.Step, Follows, Undisturbed, Runs, Waiting, Switches, Creates;
    K.RunKeepsInv(ss, es, 1);
    assert K.Step(ss[0], es[0], ss[1]);
    SpawnedWaits(ss[0], es[0], ss[1]);
    KernelReadyTaskRuns(ss[1..], es[1..], xs);
  }

  lemma SpawnedWaits(s: K.System, e: K.Action, s': K.System)
    requires K.Inv(s) && K.Step(s, e, s') && e.Spawn? && e.r != -1
    ensures Waiting(s'.x.k, s.x.k.count)
  {
    hide K.Core, CreateEffect, K.StackAfter, Waiting;
    StepProjects(s, e, s');
    InvIsGood(s);
    K.InvIsCompact(s);
    K.SpawnKeepsCore(s, e.func, e.arg, e.exit, e.size, e.r, s');
    hide Good;
    var t := s'.x.k.tasks[s.x.k.count];
    assert EventOf(s, e, s') == Create(t.psp, t.stackPtr, t.stackSize);
    CreatedWaits(s.x.k, t.psp, t.stackPtr, t.stackSize);
  }

  /** A task created before the start, not blocked or deleted before it, not the first, and left alone
      is switched to within as many switches as there are tasks then, plus those created later; the
      first one runs at once. */
  lemma StartedTaskRuns(s: K.System, idle: Word, exit: Word, r: int, mid: K.System,
                        ss: seq<K.System>, es: seq<K.Action>, xs: seq<nat>)
    requires BootTheorems.Booting(s) && K.Shaped(s) && 0 < s.x.k.count && |ss| == |es| + 1
    requires BootTheorems.StartStep(s, idle, exit, r, mid, ss[0])
    requires forall i :: 0 <= i < |es| ==> K.Step(ss[i], es[i], ss[i + 1])
    requires Follows(ss, es, xs) && Undisturbed(ss, es, xs)
    requires 0 < xs[0] < s.x.k.count && s.x.k.tasks[xs[0]].state == Ready
    requires Switches(Events(ss, es)) >= ss[0].x.k.count + Creates(Events(ss, es))
    ensures ss[0].x.k.tasks[0].state == Running && exists i :: Runs(es, xs, i)
  {
    hide BootTheorems.Booting, BootTheorems.StartStep, K.Inv, K.Step, Follows, Undisturbed, Runs, Waiting;
    BootTheorems.StartReachesInv(s, idle, exit, r, mid, ss[0]);
    KernelReadyTaskRuns(ss, es, xs);
  }

  /** A sleeper that is left alone is not switched to before the step that reaches its deadline,
      and is switched to by that step or one of the next switches, bounded in the same way. */
  lemma KernelSleeperRuns(ss: seq<K.System>, es: seq<K.Action>, xs: seq<nat>, u: Word, m: nat)
    requires K.Run(ss, es) && Follows(ss, es, xs) && Undisturbed(ss, es, xs) && 0 < m <= |es|
    requires xs[0] < |ss[0].x.k.tasks| && Asleep(ss[0].x.k.tasks[xs[0]], u) && ss[0].x.k.ticks < u
    requires var evs := Events(ss, es);
             && ss[0].x.k.ticks + TicksIn(evs[..m - 1]) < u <= ss[0].x.k.ticks + TicksIn(evs[..m])
             && Switches(evs[m..]) >= ss[m].x.k.count + Creates(evs[m..])
    ensures forall i :: 0 <= i < m - 1 ==> !Runs(es, xs, i)
    ensures exists i :: m - 1 <= i && Runs(es, xs, i)
  {
    assert xs[0] < Tables(ss)[0].count;
    hide K.Run, Run, Traces, LeftAlone, Asleep, Runs, Picked;
    RunProjects(ss, es);
    SleeperRuns(Tables(ss), Events(ss, es), xs, u, m);
    forall i | 0 <= i < m - 1 ensures !Runs(es, xs, i) { PickedRuns(ss, es, xs, i); }
    var i :| m - 1 <= i && Picked(Events(ss, es), xs, i);
    PickedInRun(Events(ss, es), xs, i);
    PickedRuns(ss, es, xs, i);
  }

  lemma PickedInRun(evs: seq<Event>, xs: seq<nat>, i: nat)
    requires Picked(evs, xs, i)
    ensures i < |evs|
  {
  }

  /** A sleeper that was unblocked by hand is never switched to again while it is left alone. */
  lemma KernelSleeperStarves(ss: seq<K.System>, es: seq<K.Action>, xs: seq<nat>)
    requires K.Run(ss, es) && Follows(ss, es, xs) && Undisturbed(ss, es, xs)
    requires xs[0] < ss[0].x.k.count && xs[0] < |ss[0].x.k.tasks| && Stuck(ss[0].x.k.tasks[xs[0]])
    ensures xs[|es|] < |ss[|es|].x.k.tasks| && Stuck(ss[|es|].x.k.tasks[xs[|es|]])
  {
    hide K.Run, Run, Traces, LeftAlone, Stuck;
    RunProjects(ss, es);
    UnblockedSleeperStarves(Tables(ss), Events(ss, es), xs);
  }

  /** A revived task stays in the table while nothing retires it. */
  lemma KernelRevivedStays(ss: seq<K.System>, es: seq<K.Action>, xs: seq<nat>)
    requires K.Run(ss, es) && Follows(ss, es, xs)
    requires xs[0] < ss[0].x.k.count <= |ss[0].x.k.tasks| && Revived(ss[0].x.k.tasks[xs[0]])
    requires forall i :: 0 <= i < |es| ==> !Retires(ss[i].x.k, Events(ss, es)[i], xs[i])
    ensures xs[|es|] < ss[|es|].x.k.count && xs[|es|] < |ss[|es|].x.k.tasks|
    ensures Revived(ss[|es|].x.k.tasks[xs[|es|]])
  {
    hide K.Run, Run, Traces, Retires, Revived;
    RunProjects(ss, es);
    RevivedStays(Tables(ss), Events(ss, es), xs);
  }

  // ---------- creation in the kernel ----------

  /** In every run in which nobody is admitted to creating a task unless there is room for all those
      admitted before, each section finds its slot in the table. */
  lemma SpawnersFit(ss: seq<K.System>, es: seq<K.Action>)
    requires |ss| == |es| + 1 && K.Run(ss, es) && Guarded(Tables(ss), Events(ss, es))
    ensures var k, asking := ss[|es|].x.k, Asking(Events(ss, es));
            && k.count + asking <= MAX_TASKS && k.count <= |k.tasks|
            && (asking > 0 ==> Slot(k.tasks, k.count) < |k.tasks|)
  {
    hide K.Run, Run, Guarded, Slot;
    RunProjects(ss, es);
    CreatorsFit(Tables(ss), Events(ss, es));
  }

  /** The identifier read by task_create is that of the new task if and only if nothing since the end
      of its section has deleted or moved that task. */
  lemma KernelReturnedIdIff(ss: seq<K.System>, es: seq<K.Action>, slot: nat)
    requires |ss| == |es| + 1 && K.Run(ss, es) && IdsOrdered(ss[0].x.k)
    requires ss[0].x.k.nextId + Creates(Events(ss, es)) <= 0xFFFF
    requires slot < ss[0].x.k.count <= |ss[0].x.k.tasks| && ss[0].x.k.tasks[slot].id != 0
    ensures slot < |ss[|es|].x.k.tasks|
    ensures ss[|es|].x.k.tasks[slot].id == ss[0].x.k.tasks[slot].id <==>
            forall i :: 0 <= i < |es| ==> Calm(ss[i].x.k, Events(ss, es)[i], slot)
  {
    hide K.Run, Run, IdsOrdered, Calm;
    RunProjects(ss, es);
    ReturnedIdIff(Tables(ss), Events(ss, es), slot);
  }

  /** From the start of the kernel and for the first 65535 creations, tasks that have an identifier
      stand in strictly increasing order of it, and those are all live tasks if no deleted task is
      blocked, before the start or after, and the first task was not deleted before it. */
  lemma OrderFromStart(s: K.System, idle: Word, exit: Word, r: int, mid: K.System,
                       ss: seq<K.System>, es: seq<K.Action>)
    requires BootTheorems.Booting(s) && K.Shaped(s) && 0 < s.x.k.count && |ss| == |es| + 1
    requires BootTheorems.StartStep(s, idle, exit, r, mid, ss[0])
    requires forall i :: 0 <= i < |es| ==> K.Step(ss[i], es[i], ss[i + 1])
    requires ss[0].x.k.nextId + Creates(Events(ss, es)) <= 0xFFFF
    ensures K.Run(ss, es) && IdsOrdered(ss[|es|].x.k)
    ensures AllNamed(s.x.k) && s.x.k.tasks[0].state != Zombie
            && (forall i :: 0 <= i < |es| ==> !Revives(ss[i].x.k, Events(ss, es)[i]))
            ==> AllNamed(ss[|es|].x.k)
  {
    hide BootTheorems.Booting, BootTheorems.StartStep, K.Inv, K.Step, IdsOrdered, AllNamed, Revives, Run;
    BootTheorems.StartReachesInv(s, idle, exit, r, mid, ss[0]);
    RunProjects(ss, es);
    RunKeepsOrder(Tables(ss), Events(ss, es));
    if AllNamed(ss[0].x.k) && forall i :: 0 <= i < |es| ==> !Revives(ss[i].x.k, Events(ss, es)[i]) {
      RunKeepsNames(Tables(ss), Events(ss, es));
    }
  }
}
