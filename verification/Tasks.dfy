/** The task table and the scheduler's variables as a value, and every operation on them. */
module Tasks {
  import opened Machine

  const MAX_TASKS: nat := 58

  datatype State = Unused | Ready | Running | Blocked | Zombie

  /** The pointers are `uint32_t *`: word indices into RAM. The size is in bytes. */
  datatype Task = Task(psp: nat, sleepUntil: Word, stackPtr: nat, stackSize: Word,
                       state: State, isIdle: bool, id: nat)

  /** A zeroed slot. */
  const NO_TASK: Task := Task(0, 0, 0, 0, Unused, false, 0)

  /** A `task_t *`: NULL or a slot of the table. */
  datatype Ref = Null | At(index: nat)

  datatype Sched = Sched(tasks: seq<Task>, count: nat, current: Ref, next: Ref, curIdx: nat,
                         nextId: nat, idle: Ref, ticks: Word)

  // ---------- choosing ----------

  predicate Eligible(t: Task) {
    t.state == Ready && !t.isIdle && t.sleepUntil == 0
  }

  /** How many slots after `from`, going round a table of `count`, slot x is reached: 1 to count. */
  function Dist(count: nat, from: nat, x: nat): int {
    if x > from then x - from else x + count - from
  }

  /** The running task steps back to READY before the search. */
  function Demote(k: Sched): Sched {
    if k.current.At? && k.current.index < |k.tasks| && k.tasks[k.current.index].state == Running then
      k.(tasks := k.tasks[k.current.index := k.tasks[k.current.index].(state := Ready)])
    else k
  }

  /** The running task's stack pointer is recorded in its entry. */
  function Stash(k: Sched, psp: nat): Sched {
    if k.current.At? && k.current.index < |k.tasks| then
      k.(tasks := k.tasks[k.current.index := k.tasks[k.current.index].(psp := psp)])
    else k
  }

  /** The table when the search begins. */
  function Outgoing(k: Sched, psp: nat): Sched {
    Demote(Stash(k, psp))
  }

  /** Task c becomes the one to run. */
  function Promote(k: Sched, c: nat): Sched
    requires c < |k.tasks|
  {
    k.(tasks := k.tasks[c := k.tasks[c].(state := Running)], curIdx := c, next := At(c))
  }

  ghost predicate NoneEligible(k: Sched) {
    forall x :: 0 <= x < k.count && x < |k.tasks| ==> !Eligible(k.tasks[x])
  }

  /** What the search may pick when it starts from d and SysTick has turned d into e by the time it
      ends: an eligible task no farther round the table than any task that was eligible when the
      search began; else the idle task; else whatever the index designates. */
  ghost predicate Picks(d: Sched, e: Sched, c: nat) {
    && c < |e.tasks| && |d.tasks| == |e.tasks|
    && if c < e.count && Eligible(e.tasks[c]) then
         forall x :: 0 <= x < d.count && x < |d.tasks| && Eligible(d.tasks[x]) ==>
           Dist(d.count, d.curIdx, c) <= Dist(d.count, d.curIdx, x)
       else
         && NoneEligible(d)
         && if e.idle.At? && e.idle.index < |e.tasks| && e.tasks[e.idle.index].state == Ready
            then At(c) == e.idle else c == e.curIdx
  }

  // ---------- ticks ----------

  function WakeTask(t: Task, now: Word): Task {
    if t.state == Blocked && t.sleepUntil != 0 && now >= t.sleepUntil
    then t.(state := Ready, sleepUntil := 0) else t
  }

  function Wake(tasks: seq<Task>, count: nat, now: Word): (r: seq<Task>)
    ensures |r| == |tasks|
    ensures forall i :: 0 <= i < |tasks| ==> r[i] == if i < count then WakeTask(tasks[i], now) else tasks[i]
  {
    seq(|tasks|, i requires 0 <= i < |tasks| => if i < count then WakeTask(tasks[i], now) else tasks[i])
  }

  function Tick(k: Sched): Sched {
    var now: Word := (k.ticks + 1) % WORD_LIMIT;
    k.(ticks := now, tasks := Wake(k.tasks, k.count, now))
  }

  function Ticks(k: Sched, n: nat): Sched {
    if n == 0 then k else Tick(Ticks(k, n - 1))
  }

  // ---------- the task calls ----------

  function SetState(k: Sched, i: nat, s: State): Sched
    requires i < |k.tasks|
  {
    k.(tasks := k.tasks[i := k.tasks[i].(state := s)])
  }

  function Block(k: Sched, i: nat): Sched
    requires i < |k.tasks|
  {
    if k.tasks[i].state != Unused && !k.tasks[i].isIdle then SetState(k, i, Blocked) else k
  }

  function Unblock(k: Sched, i: nat): Sched
    requires i < |k.tasks|
  {
    if k.tasks[i].state == Blocked then SetState(k, i, Ready) else k
  }

  /** The first slot below `count` with this id, or `count`. */
  function FindId(tasks: seq<Task>, count: nat, id: nat): (r: nat)
    requires count <= |tasks|
    ensures r <= count
    ensures r < count ==> tasks[r].id == id
    ensures forall i :: 0 <= i < r ==> tasks[i].id != id
    decreases count
  {
    if count == 0 then 0
    else
      var r := FindId(tasks, count - 1, id);
      if r < count - 1 || tasks[r].id == id then r else count
  }

  datatype DeleteResult = Success | NotFound | IsIdle | IsCurrent

  function Delete(k: Sched, id: nat): (Sched, DeleteResult)
    requires k.count <= |k.tasks|
  {
    var i := FindId(k.tasks, k.count, id);
    if i == k.count then (k, NotFound)
    else if k.tasks[i].isIdle then (k, IsIdle)
    else if k.current == At(i) then (k, IsCurrent)
    else (k.(tasks := k.tasks[i := k.tasks[i].(state := Zombie, id := 0)]), Success)
  }

  function Exit(k: Sched): Sched {
    if k.current.At? && k.current.index < |k.tasks| then
      k.(tasks := k.tasks[k.current.index := k.tasks[k.current.index].(state := Zombie, id := 0)])
    else k
  }

  function Sleep(k: Sched, n: Word): Sched {
    if n == 0 || k.current.Null? || k.current.index >= |k.tasks| then k
    else
      var t := k.tasks[k.current.index].(sleepUntil := (k.ticks + n) % WORD_LIMIT);
      var t' := if t.state != Unused && !t.isIdle then t.(state := Blocked) else t;
      k.(tasks := k.tasks[k.current.index := t'])
  }

  /** The first unused slot below the count, or the one at the count. */
  function Slot(tasks: seq<Task>, count: nat): (r: nat)
    requires count <= |tasks|
    ensures r <= count
    ensures r < count ==> tasks[r].state == Unused
    ensures forall i :: 0 <= i < r ==> tasks[i].state != Unused
    decreases count
  {
    if count == 0 then 0
    else
      var r := Slot(tasks, count - 1);
      if r < count - 1 || tasks[r].state == Unused then r else count
  }

  /** A new entry with an allocated stack and its first frame at psp goes to slot i. */
  function Create(k: Sched, i: nat, psp: nat, stack: nat, size: Word): Sched
    requires i < |k.tasks|
  {
    var id := (k.nextId + 1) % 0x1_0000;
    k.(tasks := k.tasks[i := Task(psp, 0, stack, size, Ready, false, id)],
       count := if i == k.count then k.count + 1 else k.count,
       nextId := id)
  }

  // ---------- garbage collection ----------

  predicate Kept(t: Task) {
    t.state != Zombie && t.state != Unused
  }

  /** The entries that garbage collection keeps, in order. */
  function Survivors(ts: seq<Task>): (r: seq<Task>)
    ensures |r| <= |ts|
  {
    if ts == [] then []
    else
      var n := |ts| - 1;
      Survivors(ts[..n]) + (if Kept(ts[n]) then [ts[n]] else [])
  }

  /** Where entry i goes: past the survivors before it. */
  function Rank(ts: seq<Task>, i: nat): (r: nat)
    requires i <= |ts|
    ensures r <= i
  {
    |Survivors(ts[..i])|
  }

  function Zeroed(n: nat): (r: seq<Task>)
    ensures |r| == n && forall i :: 0 <= i < n ==> r[i] == NO_TASK
  {
    seq(n, i => NO_TASK)
  }

  /** A pointer follows its entry if the entry survives. */
  function Follow(k: Sched, ref: Ref): Ref
    requires k.count <= |k.tasks|
  {
    if ref.At? && ref.index < k.count && Kept(k.tasks[ref.index])
    then At(Rank(k.tasks[..k.count], ref.index)) else ref
  }

  function Gc(k: Sched): Sched
    requires k.count <= |k.tasks|
  {
    var kept := Survivors(k.tasks[..k.count]);
    k.(tasks := kept + Zeroed(|k.tasks| - |kept|),
       count := |kept|,
       current := Follow(k, k.current),
       next := Follow(k, k.next),
       idle := Follow(k, k.idle),
       curIdx := if Follow(k, k.current) != k.current then Follow(k, k.current).index else k.curIdx)
  }

  // ---------- the filter ----------

  lemma {:induction false} RankStep(ts: seq<Task>, i: nat)
    requires i < |ts|
    ensures Rank(ts, i + 1) == Rank(ts, i) + (if Kept(ts[i]) then 1 else 0)
    ensures Survivors(ts[..i + 1]) == Survivors(ts[..i]) + (if Kept(ts[i]) then [ts[i]] else [])
  {
    assert ts[..i + 1][..i] == ts[..i];
  }

  /** Ranks grow with positions, never faster than the positions do. */
  lemma {:induction false} RankMonotone(ts: seq<Task>, i: nat, j: nat)
    requires i <= j <= |ts|
    ensures Rank(ts, i) <= Rank(ts, j) <= Rank(ts, i) + (j - i)
    ensures i < j && Kept(ts[i]) ==> Rank(ts, i) < Rank(ts, j)
    ensures Survivors(ts[..i]) <= Survivors(ts[..j])
    decreases j
  {
    if i < j {
      RankMonotone(ts, i, j - 1);
      RankStep(ts, j - 1);
    }
  }

  /** A survivor is found, unchanged, at its rank. */
  lemma SurvivorAt(ts: seq<Task>, i: nat)
    requires i < |ts| && Kept(ts[i])
    ensures Rank(ts, i) < |Survivors(ts)| && Survivors(ts)[Rank(ts, i)] == ts[i]
  {
    RankStep(ts, i);
    RankMonotone(ts, i + 1, |ts|);
    assert ts[..|ts|] == ts;
  }

  /** The position a surviving entry came from. */
  function {:induction false} Origin(ts: seq<Task>, r: nat): (i: nat)
    requires r < |Survivors(ts)|
    ensures i < |ts| && Kept(ts[i]) && Rank(ts, i) == r && Survivors(ts)[r] == ts[i]
    decreases |ts|
  {
    var n := |ts| - 1;
    if r < |Survivors(ts[..n])| then
      var i := Origin(ts[..n], r);
      assert ts[..n][..i] == ts[..i];
      i
    else
      n
  }
}
