/** Stacks are owned and contexts survive, over every run of the kernel. */
module KernelTheorems {
  import opened Machine
  import opened Blocks
  import opened Heaps
  import opened HeapLists
  import opened HeapMemory
  import HeapTheorems
  import opened Tasks
  import opened SchedulerSteps
  import opened Kernels

  /** What a suspended task must find again: its registers, its stack pointer, and its whole stack
      as it was once the registers were pushed. */
  datatype Context = Context(regs: seq<Word>, psp: nat, stack: seq<Word>)

  /** The kernel with its history: the context each stack's task was last suspended with, and the
      payloads that tasks have allocated for themselves. Stacks and payloads are known by their
      first word. */
  datatype System = System(x: Kernel, saved: map<nat, Context>, user: set<nat>)

  ghost function Starts(bs: seq<Block>): set<nat> {
    set b | b in Live(bs) :: b.at + 2
  }

  ghost function Stacks(k: Sched): set<nat> {
    set i | 0 <= i < k.count && i < |k.tasks| :: k.tasks[i].stackPtr
  }

  /** The number of payload words of the allocated block that starts at word p. */
  ghost predicate HasBlock(h: Heap, p: nat, words: nat) {
    p >= 2 && Blocks.Block.Block(p - 2, words, false) in Live(h.c.bs) && p + words <= |h.m|
  }

  /** Entry i is suspended with the context recorded for its stack: the stack lies untouched in its
      block and the stack pointer and registers can be restored from it. */
  ghost predicate Suspended(s: System, i: nat)
    requires i < |s.x.k.tasks|
  {
    var t := s.x.k.tasks[i];
    && t.stackPtr in s.saved
    && var c := s.saved[t.stackPtr];
    && c.psp == t.psp + 8 && |c.regs| == 8
    && t.stackPtr <= t.psp && c.psp <= t.stackPtr + |c.stack|
    && HasBlock(s.x.h, t.stackPtr, |c.stack|)
    && FramedAt(s.x.h.m, t.stackPtr, c.stack)
    && FramedAt(c.stack, t.psp - t.stackPtr, c.regs)
  }

  /** The allocated blocks are exactly the stacks of the table and the tasks' own payloads, each
      stack is at least as big as its entry says, and every task but the running one is suspended
      with its recorded context. */
  ghost predicate Inv(s: System) {
    Good(s.x.k) && Core(s)
  }

  ghost predicate Core(s: System) {
    && s.x.k.count <= |s.x.k.tasks|
    && HeapTheorems.Tidy(s.x.h) && s.x.h.lo != 0 && |s.x.regs| == 8
    && Starts(s.x.h.c.bs) == Stacks(s.x.k) + s.user && Stacks(s.x.k) !! s.user
    && (forall i :: 0 <= i < s.x.k.count ==> BigEnough(s, i))
    && (forall i :: 0 <= i < s.x.k.count && i != s.x.k.curIdx ==> Suspended(s, i))
  }

  ghost predicate BigEnough(s: System, i: nat)
    requires i < |s.x.k.tasks|
  {
    var t := s.x.k.tasks[i];
    && STACK_MIN_SIZE_BYTES <= t.stackSize
    && exists w: nat :: HasBlock(s.x.h, t.stackPtr, w) && t.stackSize <= 4 * w
  }

  // ---------- steps ----------

  /** q is the first word of what the allocator returned, 0 for NULL. */
  datatype Action =
    | Spawn(func: Word, arg: Word, exit: Word, size: Word, r: int) // the section of task_create
    | Reap
    | Swap(n: nat, c: nat)
    | Invoke(e: Event)               // tick, delete, block, unblock, sleep, exit, check of task_create
    | Alloc(size: Word, q: nat)      // a task allocates for itself
    | Drop(p: nat)                   // and frees
    | Resize(p: nat, size: Word, q: nat)
    | Compute                        // the running task executes its own code

  /** What the running task may write: its own stack, the tasks' payloads, and memory outside the
      heap. */
  ghost predicate OwnMemory(s: System, j: nat)
    requires s.x.k.curIdx < |s.x.k.tasks|
  {
    || !(s.x.h.lo <= j < s.x.h.hi)
    || exists b: Blocks.Block :: b in Live(s.x.h.c.bs) && b.at + 2 <= j < b.End() && Mine(s, b)
  }

  ghost predicate Mine(s: System, b: Blocks.Block)
    requires s.x.k.curIdx < |s.x.k.tasks|
  {
    b.at + 2 in s.user || b.at + 2 == s.x.k.tasks[s.x.k.curIdx].stackPtr
  }

  ghost predicate ComputeEffect(s: System, x': Kernel)
    requires s.x.k.curIdx < |s.x.k.tasks|
  {
    && x' == s.x.(h := s.x.h.(m := x'.h.m), regs := x'.regs, psp := x'.psp)
    && |x'.regs| == 8 && |x'.h.m| == |s.x.h.m|
    && forall j :: 0 <= j < |s.x.h.m| && !OwnMemory(s, j) ==> x'.h.m[j] == s.x.h.m[j]
  }

  /** The running task's stack pointer leaves room on its own stack for the eight registers. */
  ghost predicate RoomToSwitch(s: System) {
    && s.x.k.curIdx < |s.x.k.tasks|
    && var p := s.x.k.tasks[s.x.k.curIdx].stackPtr;
    && p + 8 <= s.x.psp
    && exists w: nat :: HasBlock(s.x.h, p, w) && s.x.psp <= p + w
  }

  ghost function StackAfter(x: Kernel, p: nat): seq<Word> {
    if exists w: nat :: HasBlock(x.h, p, w) then
      var w: nat :| HasBlock(x.h, p, w);
      x.h.m[p..p + w]
    else []
  }

  /** Word p is the start of an allocated payload. */
  ghost predicate Holdable(h: Heap, p: nat) {
    0 < 4 * p < WORD_LIMIT && IsLive(h.c.bs, 4 * p)
  }

  ghost predicate Shaped(s: System) {
    s.x.k.count <= |s.x.k.tasks| == MAX_TASKS && s.x.k.curIdx < MAX_TASKS
  }

  /** The critical section of task_create, entered with room in the table; the check that comes
      before it is an action of its own. */
  ghost predicate SpawnStep(s: System, func: Word, arg: Word, exit: Word, size: Word, r: int, s': System)
    requires Shaped(s)
  {
    && Alive(s.x.k) && s.x.k.count < MAX_TASKS && func != 0 && size <= STACK_MAX_SIZE_BYTES
    && CreateEffect(s.x, func, arg, exit, size, r, s'.x)
    && s'.user == s.user
    && s'.saved == if r == -1 then s.saved else
         var t := s'.x.k.tasks[s.x.k.count];
         s.saved[t.stackPtr := Context([0, 0, 0, 0, 0, 0, 0, 0], t.psp + 8, StackAfter(s'.x, t.stackPtr))]
  }

  ghost predicate ReapStep(s: System, s': System)
    requires Shaped(s)
  {
    Alive(s.x.k) && CollectEffect(s.x, s'.x) && s'.saved == s.saved && s'.user == s.user
  }

  ghost predicate SwapStep(s: System, n: nat, c: nat, s': System)
    requires Shaped(s)
  {
    && RoomToSwitch(s) && SwitchEffect(s.x, n, c, s'.x)
    && s'.user == s.user
    && var p := s.x.k.tasks[s.x.k.curIdx].stackPtr;
    && s'.saved == s.saved[p := Context(s.x.regs, s.x.psp, StackAfter(s'.x, p))]
  }

  ghost predicate InvokeStep(s: System, e: Event, s': System) {
    && !e.Create? && !e.NoStack? && !e.Collect? && !e.Switch?
    && Enabled(s.x.k, e)
    && s' == s.(x := s.x.(k := Next(s.x.k, e)))
  }

  ghost predicate AllocStep(s: System, size: Word, q: nat, s': System) {
    && Alive(s.x.k) && MallocEffect(s.x.h, size, 4 * q, s'.x.h)
    && s' == s.(x := s.x.(h := s'.x.h), user := if q == 0 then s.user else s.user + {q})
  }

  ghost predicate DropStep(s: System, p: nat, s': System) {
    && Alive(s.x.k) && p in s.user && Holdable(s.x.h, p) && FreeEffect(s.x.h, 4 * p, s'.x.h)
    && s' == s.(x := s.x.(h := s'.x.h), user := s.user - {p})
  }

  ghost predicate ResizeStep(s: System, p: nat, size: Word, q: nat, s': System) {
    && Alive(s.x.k) && p in s.user && Holdable(s.x.h, p) && size != 0
    && ReallocEffect(s.x.h, 4 * p, size, 4 * q, s'.x.h)
    && s' == s.(x := s.x.(h := s'.x.h), user := if q == 0 then s.user else s.user - {p} + {q})
  }

  ghost predicate ComputeStep(s: System, s': System)
    requires Shaped(s)
  {
    Alive(s.x.k) && ComputeEffect(s, s'.x) && s'.saved == s.saved && s'.user == s.user
  }

  ghost predicate Step(s: System, e: Action, s': System) {
    && Shaped(s)
    && match e
       case Spawn(func, arg, exit, size, r) => SpawnStep(s, func, arg, exit, size, r, s')
       case Reap => ReapStep(s, s')
       case Swap(n, c) => SwapStep(s, n, c, s')
       case Invoke(ev) => InvokeStep(s, ev, s')
       case Alloc(size, q) => AllocStep(s, size, q, s')
       case Drop(p) => DropStep(s, p, s')
       case Resize(p, size, q) => ResizeStep(s, p, size, q, s')
       case Compute => ComputeStep(s, s')
  }

  // ---------- blocks and their first words ----------

  lemma BlockOf(h: Heap, p: nat) returns (b: Blocks.Block)
    requires Valid(h) && p in Starts(h.c.bs)
    ensures b in Live(h.c.bs) && b.at + 2 == p && HasBlock(h, p, b.words)
    ensures IsLive(h.c.bs, 4 * p) && BlockAt(h.c.bs, 4 * p) == b && 0 < 4 * p < WORD_LIMIT
  {
    b :| b in Live(h.c.bs) && b.at + 2 == p;
    ValidBounds(h);
    FindLive(h.c.bs, h.lo, h.hi, b);
  }

  lemma OneBlock(h: Heap, b: Blocks.Block, b': Blocks.Block)
    requires Valid(h) && b in Live(h.c.bs) && b' in Live(h.c.bs) && b.at == b'.at
    ensures b == b'
  {
    SamePtrSameBlock(h.c.bs, h.lo, h.hi, b, b');
  }

  lemma StartsMinus(h: Heap, b: Blocks.Block, h': Heap)
    requires Valid(h) && b in Live(h.c.bs) && Live(h'.c.bs) == Live(h.c.bs) - {b}
    ensures Starts(h'.c.bs) == Starts(h.c.bs) - {b.at + 2}
  {
    forall d | d in Live(h.c.bs) && d.at == b.at ensures d == b { OneBlock(h, b, d); }
  }

  lemma StartsPlus(h: Heap, b: Blocks.Block, h': Heap)
    requires Live(h'.c.bs) == Live(h.c.bs) + {b}
    ensures Starts(h'.c.bs) == Starts(h.c.bs) + {b.at + 2}
  {
  }

  /** A block that stays allocated with its payload keeps serving as the same stack. */
  lemma SuspendedKept(s: System, s': System, i: nat, j: nat)
    requires i < |s.x.k.tasks| && j < |s'.x.k.tasks| && Suspended(s, i)
    requires var t, t' := s.x.k.tasks[i], s'.x.k.tasks[j];
             && t'.stackPtr == t.stackPtr && t'.psp == t.psp
             && t.stackPtr in s'.saved && s'.saved[t.stackPtr] == s.saved[t.stackPtr]
             && StackKept(s.x.h, t.stackPtr, |s.saved[t.stackPtr].stack|, s'.x.h)
    ensures Suspended(s', j)
  {
  }

  ghost predicate StackKept(h: Heap, p: nat, w: nat, h': Heap) {
    HasBlock(h, p, w) ==> HasBlock(h', p, w) && h'.m[p..p + w] == h.m[p..p + w]
  }

  lemma KeptBy(h: Heap, keep: set<Blocks.Block>, h': Heap, p: nat, w: nat)
    requires Untouched(h, keep, h'.m) && keep <= Live(h'.c.bs)
    requires p >= 2 && Blocks.Block.Block(p - 2, w, false) in keep
    ensures StackKept(h, p, w, h')
  {
    var b := Blocks.Block.Block(p - 2, w, false);
    assert b.End() <= |h.m| && Payload(h'.m, b, h.m[b.at + 2..b.End()]);
  }

  lemma BigEnoughKept(s: System, s': System, i: nat, j: nat)
    requires i < |s.x.k.tasks| && j < |s'.x.k.tasks| && BigEnough(s, i)
    requires var t, t' := s.x.k.tasks[i], s'.x.k.tasks[j];
             && t'.stackPtr == t.stackPtr && t'.stackSize == t.stackSize
             && forall w :: HasBlock(s.x.h, t.stackPtr, w) ==> HasBlock(s'.x.h, t.stackPtr, w)
    ensures BigEnough(s', j)
  {
  }

  // ---------- steps that leave the table's stacks alone ----------

  /** What Inv asks of memory, given that no entry changes its stack or its stack pointer. */
  lemma InvKept(s: System, s': System)
    requires Inv(s) && Good(s'.x.k) && HeapTheorems.Tidy(s'.x.h) && s'.x.h.lo != 0 && |s'.x.regs| == 8
    requires s'.x.k.count == s.x.k.count && s'.x.k.curIdx == s.x.k.curIdx && s'.saved == s.saved
    requires forall i :: 0 <= i < s.x.k.count ==>
               && s'.x.k.tasks[i].stackPtr == s.x.k.tasks[i].stackPtr
               && s'.x.k.tasks[i].psp == s.x.k.tasks[i].psp
               && s'.x.k.tasks[i].stackSize == s.x.k.tasks[i].stackSize
    requires Starts(s'.x.h.c.bs) == Stacks(s'.x.k) + s'.user && Stacks(s'.x.k) !! s'.user
    requires forall p: nat, w: nat {:trigger HasBlock(s.x.h, p, w)} :: p in Stacks(s.x.k) && HasBlock(s.x.h, p, w) ==>
               && HasBlock(s'.x.h, p, w)
               && (p != s.x.k.tasks[s.x.k.curIdx].stackPtr ==> StackKept(s.x.h, p, w, s'.x.h))
    ensures Inv(s')
  {
    forall i | 0 <= i < s.x.k.count ensures BigEnough(s', i) {
      assert BigEnough(s, i) && s.x.k.tasks[i].stackPtr in Stacks(s.x.k);
      BigEnoughKept(s, s', i, i);
    }
    forall i | 0 <= i < s.x.k.count && i != s.x.k.curIdx ensures Suspended(s', i) {
      assert Suspended(s, i) && s.x.k.tasks[i].stackPtr in Stacks(s.x.k);
      SuspendedKept(s, s', i, i);
    }
  }

  lemma SameStacks(k: Sched, k': Sched)
    requires k'.count == k.count && |k'.tasks| == |k.tasks|
    requires forall i :: 0 <= i < |k.tasks| ==> k'.tasks[i].stackPtr == k.tasks[i].stackPtr
    ensures Stacks(k') == Stacks(k)
  {
  }

  lemma InvokeKeepsInv(s: System, ev: Event, s': System)
    requires Inv(s) && InvokeStep(s, ev, s')
    ensures Inv(s')
  {
    hide Good, Next, Enabled, Suspended, BigEnough, HeapTheorems.Tidy, Starts, Stacks;
    StepKeepsGood(s.x.k, ev);
    InvokeTable(s.x.k, ev);
    SameStacks(s.x.k, s'.x.k);
    InvKept(s, s');
  }

  /** Calls and ticks leave every stack where it is. */
  lemma InvokeTable(k: Sched, ev: Event)
    requires Enabled(k, ev) && !ev.Create? && !ev.Collect? && !ev.Switch?
    ensures var k' := Next(k, ev);
            && k'.count == k.count && k'.curIdx == k.curIdx && |k'.tasks| == |k.tasks|
            && forall i :: 0 <= i < |k.tasks| ==>
                 && k'.tasks[i].stackPtr == k.tasks[i].stackPtr && k'.tasks[i].psp == k.tasks[i].psp
                 && k'.tasks[i].stackSize == k.tasks[i].stackSize
  {
    hide Entry;
    if ev.Tick? {
      TicksWake(k, 1);
      assert Ticks(k, 0) == k;
    }
  }

  /** Heap steps of the tasks' own: blocks in `keep` are still there, and the stacks are among them. */
  lemma HeapStepKeepsInv(s: System, s': System, keep: set<Blocks.Block>)
    requires Inv(s) && HeapTheorems.Tidy(s'.x.h) && s'.x.h.lo == s.x.h.lo
    requires s' == System(s.x.(h := s'.x.h), s.saved, s'.user)
    requires Untouched(s.x.h, keep, s'.x.h.m) && keep <= Live(s'.x.h.c.bs)
    requires forall b :: b in Live(s.x.h.c.bs) && b.at + 2 in Stacks(s.x.k) ==> b in keep
    requires Starts(s'.x.h.c.bs) == Stacks(s.x.k) + s'.user && Stacks(s.x.k) !! s'.user
    ensures Inv(s')
  {
    forall p: nat, w: nat | p in Stacks(s.x.k) && HasBlock(s.x.h, p, w)
      ensures StackKept(s.x.h, p, w, s'.x.h)
    {
      KeptBy(s.x.h, keep, s'.x.h, p, w);
    }
    hide Good, Suspended, BigEnough, HeapTheorems.Tidy;
    InvKept(s, s');
  }

  lemma AllocKeepsInv(s: System, size: Word, q: nat, s': System)
    requires Inv(s) && AllocStep(s, size, q, s')
    ensures Inv(s')
  {
    hide Good, Suspended, BigEnough, MallocEffect, Alive;
    HeapTheorems.MallocKeepsTidy(s.x.h, size, 4 * q, s'.x.h);
    AllocStarts(s.x.h, size, q, s'.x.h);
    hide HeapTheorems.Tidy, Starts, Stacks;
    HeapStepKeepsInv(s, s', Live(s.x.h.c.bs));
  }

  lemma AllocStarts(h: Heap, size: Word, q: nat, h': Heap)
    requires Valid(h) && MallocEffect(h, size, 4 * q, h')
    ensures q == 0 ==> h' == h
    ensures q != 0 ==> q !in Starts(h.c.bs) && Starts(h'.c.bs) == Starts(h.c.bs) + {q}
    ensures Untouched(h, Live(h.c.bs), h'.m) && Live(h.c.bs) <= Live(h'.c.bs)
  {
    HeapTheorems.MallocStep(h, size, 4 * q, h');
    if q != 0 {
      var b := BlockAt(h'.c.bs, 4 * q);
      assert q == b.at + 2;
      NewStart(h, b);
      StartsPlus(h, b, h');
    } else {
      SameState(h, Live(h.c.bs));
    }
  }

  lemma NewStart(h: Heap, b: Blocks.Block)
    requires forall d :: d in Live(h.c.bs) ==> d.End() <= b.at || b.End() <= d.at
    ensures b.at + 2 !in Starts(h.c.bs)
  {
  }

  lemma DropKeepsInv(s: System, p: nat, s': System)
    requires Inv(s) && DropStep(s, p, s')
    ensures Inv(s')
  {
    hide Good, Suspended, BigEnough, FreeEffect, Alive;
    HeapTheorems.FreeKeepsTidy(s.x.h, 4 * p, s'.x.h);
    DropStarts(s.x.h, p, s'.x.h);
    OthersStay(s, p);
    hide Inv, HeapTheorems.Tidy, Stacks, Untouched, Starts, BlockAt;
    HeapStepKeepsInv(s, s', Live(s'.x.h.c.bs));
  }

  /** Giving up one's own payload touches no stack. */
  lemma OthersStay(s: System, p: nat)
    requires Inv(s) && p in s.user && Holdable(s.x.h, p)
    ensures forall b :: b in Live(s.x.h.c.bs) && b.at + 2 in Stacks(s.x.k) ==>
              b in Live(s.x.h.c.bs) - {BlockAt(s.x.h.c.bs, 4 * p)}
    ensures forall q {:trigger s.user + {q}} :: q == p || q !in Starts(s.x.h.c.bs) ==>
              && Starts(s.x.h.c.bs) - {p} + {q} == Stacks(s.x.k) + (s.user - {p} + {q})
              && Stacks(s.x.k) !! s.user - {p} + {q}
    ensures Starts(s.x.h.c.bs) - {p} == Stacks(s.x.k) + (s.user - {p})
    ensures Stacks(s.x.k) !! s.user - {p}
    ensures s.x.h.lo != 0
  {
    var _ := BlockOf(s.x.h, p);
  }

  lemma DropStarts(h: Heap, p: nat, h': Heap)
    requires Valid(h) && p in Starts(h.c.bs) && Holdable(h, p) && FreeEffect(h, 4 * p, h')
    ensures Starts(h'.c.bs) == Starts(h.c.bs) - {p}
    ensures Live(h'.c.bs) == Live(h.c.bs) - {BlockAt(h.c.bs, 4 * p)} && Untouched(h, Live(h'.c.bs), h'.m)
  {
    hide Valid, Starts, FreeOutcome, Encoded, Untouched, Merged;
    var b := BlockOf(h, p);
    HeapTheorems.FreeStep(h, 4 * p, h');
    StartsMinus(h, b, h');
  }

  lemma ResizeKeepsInv(s: System, p: nat, size: Word, q: nat, s': System)
    requires Inv(s) && ResizeStep(s, p, size, q, s')
    ensures Inv(s')
  {
    hide Good, Suspended, BigEnough, ReallocEffect, Alive;
    var h, h' := s.x.h, s'.x.h;
    HeapTheorems.ReallocKeepsTidy(h, 4 * p, size, 4 * q, h');
    ResizeStarts(h, p, size, q, h');
    if q != 0 {
      ResizeSpares(h, p, size, q, h');
      OthersStay(s, p);
      assert Stacks(s.x.k) !! s'.user && Starts(h'.c.bs) == Stacks(s.x.k) + s'.user by {
        var _ := s.user + {q};
      }
      hide Inv, HeapTheorems.Tidy, Stacks, Untouched, Starts, BlockAt;
      HeapStepKeepsInv(s, s', Live(h.c.bs) - {BlockAt(h.c.bs, 4 * p)});
    }
  }

  lemma ResizeStarts(h: Heap, p: nat, size: Word, q: nat, h': Heap)
    requires Valid(h) && Valid(h') && p in Starts(h.c.bs) && Holdable(h, p) && size != 0
    requires ReallocEffect(h, 4 * p, size, 4 * q, h')
    ensures q == 0 ==> h' == h
    ensures q != 0 ==>
              && Starts(h'.c.bs) == Starts(h.c.bs) - {p} + {q}
              && (q == p || q !in Starts(h.c.bs))
  {
    if q != 0 {
      hide ReallocEffect, Listed, Counted, Starts;
      var b := BlockOf(h, p);
      HeapTheorems.ReallocLive(h, 4 * p, size, 4 * q, h');
      var b' := BlockAt(h'.c.bs, 4 * q);
      assert b'.Ptr() == 4 * q;
      assert b'.at + 2 == q && b.at + 2 == p;
      hide IsLive, BlockAt;
      ReplacedStarts(h, b, p, b', q, h');
    }
  }

  lemma ReplacedStarts(h: Heap, b: Blocks.Block, p: nat, b': Blocks.Block, q: nat, h': Heap)
    requires p == b.at + 2 && q == b'.at + 2
    requires Valid(h) && Valid(h') && b in Live(h.c.bs) && Live(h'.c.bs) == Live(h.c.bs) - {b} + {b'}
    requires b'.at == b.at || b' !in Live(h.c.bs)
    ensures Starts(h'.c.bs) == Starts(h.c.bs) - {p} + {q}
    ensures q == p || q !in Starts(h.c.bs)
  {
    hide Listed, Counted;
    forall d | d in Live(h.c.bs) && d.at == b.at ensures d == b { OneBlock(h, b, d); }
    assert b' in Live(h'.c.bs);
    forall d | d in Live(h'.c.bs) && d.at == b'.at ensures d == b' { OneBlock(h', b', d); }
  }

  lemma ResizeSpares(h: Heap, p: nat, size: Word, q: nat, h': Heap)
    requires Valid(h) && p in Starts(h.c.bs) && Holdable(h, p) && size != 0 && q != 0
    requires ReallocEffect(h, 4 * p, size, 4 * q, h')
    ensures Untouched(h, Live(h.c.bs) - {BlockAt(h.c.bs, 4 * p)}, h'.m)
    ensures Live(h.c.bs) - {BlockAt(h.c.bs, 4 * p)} <= Live(h'.c.bs)
  {
    HeapTheorems.ReallocLive(h, 4 * p, size, 4 * q, h');
  }

  // ---------- the running task's own writes ----------

  /** Writes to one's own memory reach no header and no other task's stack. */
  lemma OwnWritesSpare(s: System, m': seq<Word>)
    requires Inv(s) && |m'| == |s.x.h.m|
    requires forall j :: 0 <= j < |m'| && !OwnMemory(s, j) ==> m'[j] == s.x.h.m[j]
    ensures HeapTheorems.Tidy(s.x.h.(m := m'))
    ensures forall p: nat, w: nat {:trigger HasBlock(s.x.h, p, w)} :: p in Stacks(s.x.k) && HasBlock(s.x.h, p, w) ==>
              && HasBlock(s.x.h.(m := m'), p, w)
              && (p != s.x.k.tasks[s.x.k.curIdx].stackPtr ==> StackKept(s.x.h, p, w, s.x.h.(m := m')))
  {
    assert s.x.k.curIdx < |s.x.k.tasks|;
    hide Good, Suspended, BigEnough, Counted;
    var h := s.x.h;
    forall i | 0 <= i < |h.c.bs| ensures Header(m', h.c.bs, i) {
      ListAt(h, i);
      assert Header(h.m, h.c.bs, i);
      HeaderNotOwn(s, i, h.c.bs[i].at);
      HeaderNotOwn(s, i, h.c.bs[i].at + 1);
    }
    forall p: nat, w: nat | p in Stacks(s.x.k) && HasBlock(h, p, w) && p != s.x.k.tasks[s.x.k.curIdx].stackPtr
      ensures StackKept(h, p, w, h.(m := m'))
    {
      forall j | p <= j < p + w ensures m'[j] == h.m[j] { StackNotOwn(s, p, w, j); }
    }
  }

  lemma HeaderNotOwn(s: System, i: nat, j: nat)
    requires Valid(s.x.h) && i < |s.x.h.c.bs| && s.x.k.curIdx < |s.x.k.tasks|
    requires s.x.h.c.bs[i].at <= j < s.x.h.c.bs[i].at + 2
    ensures !OwnMemory(s, j)
  {
    var h := s.x.h;
    ValidBounds(h);
    forall b | b in Live(h.c.bs) ensures !(b.at + 2 <= j < b.End()) {
      var k :| 0 <= k < |h.c.bs| && h.c.bs[k] == b;
    }
  }

  lemma StackNotOwn(s: System, p: nat, w: nat, j: nat)
    requires Valid(s.x.h) && s.x.k.curIdx < |s.x.k.tasks| && HasBlock(s.x.h, p, w) && p <= j < p + w
    requires p !in s.user && p != s.x.k.tasks[s.x.k.curIdx].stackPtr
    ensures !OwnMemory(s, j)
  {
    var h, d := s.x.h, Blocks.Block.Block(p - 2, w, false);
    ListBounds(h, d);
    forall b: Blocks.Block | b in Live(h.c.bs) && b.at + 2 <= j < b.End() ensures !Mine(s, b) {
      OneOwner(h, b, d, j);
    }
  }

  lemma ListBounds(h: Heap, d: Blocks.Block)
    requires Valid(h) && d in h.c.bs
    ensures h.lo <= d.at && d.End() <= h.hi
  {
    ValidBounds(h);
  }

  lemma OneOwner(h: Heap, b: Blocks.Block, d: Blocks.Block, j: nat)
    requires Valid(h) && b in h.c.bs && d in h.c.bs
    requires b.at + 2 <= j < b.End() && d.at + 2 <= j < d.End()
    ensures b == d
  {
    ValidBounds(h);
  }

  lemma ComputeKeepsInv(s: System, s': System)
    requires Inv(s) && Shaped(s) && ComputeStep(s, s')
    ensures Inv(s')
  {
    OwnWritesSpare(s, s'.x.h.m);
    hide Good, Suspended, BigEnough, HeapTheorems.Tidy, OwnMemory;
    InvKept(s, s');
  }

  // ---------- switching ----------

  lemma StackAfterIs(x: Kernel, p: nat, w: nat)
    requires Valid(x.h) && HasBlock(x.h, p, w)
    ensures StackAfter(x, p) == x.h.m[p..p + w]
  {
    forall w' | HasBlock(x.h, p, w') ensures w' == w {
      OneBlock(x.h, Blocks.Block.Block(p - 2, w, false), Blocks.Block.Block(p - 2, w', false));
    }
  }

  /** Pushing the registers writes only the running task's own stack. */
  lemma PushIsOwn(s: System)
    requires Inv(s) && RoomToSwitch(s)
    ensures 8 <= s.x.psp <= |s.x.h.m|
    ensures forall j :: 0 <= j < |s.x.h.m| && !OwnMemory(s, j) ==>
              Push(s.x.h.m, s.x.psp, s.x.regs)[j] == s.x.h.m[j]
  {
    var p := s.x.k.tasks[s.x.k.curIdx].stackPtr;
    var w: nat :| HasBlock(s.x.h, p, w) && s.x.psp <= p + w;
    var d := Blocks.Block.Block(p - 2, w, false);
    var m' := Push(s.x.h.m, s.x.psp, s.x.regs);
    forall j | 0 <= j < |m'| && !OwnMemory(s, j) ensures m'[j] == s.x.h.m[j] {
      assert Mine(s, d);
      assert !(d.at + 2 <= j < d.End());
    }
  }

  /** What a switch does to the table: stacks stay where they are, the outgoing task's stack pointer
      is recorded, and the picked task runs. */
  lemma SwitchTable(k: Sched, psp: nat, n: nat, c: nat)
    requires Good(k) && Enabled(k, Switch(psp, n, c))
    ensures var k' := SwitchTo(k, psp, n, c);
            && Good(k') && k'.curIdx == c && c < k.count && k'.count == k.count && |k'.tasks| == |k.tasks|
            && forall i :: 0 <= i < |k.tasks| ==>
                 && k'.tasks[i].stackPtr == k.tasks[i].stackPtr && k'.tasks[i].stackSize == k.tasks[i].stackSize
                 && k'.tasks[i].psp == if i == k.curIdx then psp else k.tasks[i].psp
  {
    hide Ticks;
    SearchTable(k, psp, n);
    SwitchRunsOne(k, psp, n, c);
    hide Good, Enabled;
  }

  lemma PushedFrame(m: seq<Word>, psp: nat, regs: seq<Word>, p: nat, w: nat)
    requires |regs| == 8 && p + 8 <= psp <= p + w <= |m|
    ensures FramedAt(Push(m, psp, regs)[p..p + w], psp - 8 - p, regs)
  {
    var m' := Push(m, psp, regs);
    assert m'[psp - 8..psp] == regs;
    assert m'[p..p + w][psp - 8 - p..psp - p] == m'[psp - 8..psp];
  }

  /** The outgoing task is suspended with exactly the registers and stack pointer it had. */
  lemma OutgoingSuspended(s: System, n: nat, c: nat, s': System)
    requires Inv(s) && Shaped(s) && SwapStep(s, n, c, s') && Valid(s'.x.h)
    requires s.x.k.curIdx < |s'.x.k.tasks|
    requires s'.x.k.tasks[s.x.k.curIdx].stackPtr == s.x.k.tasks[s.x.k.curIdx].stackPtr
    requires s'.x.k.tasks[s.x.k.curIdx].psp == s.x.psp - 8
    ensures Suspended(s', s.x.k.curIdx)
  {
    hide Good, SwitchTo, Picks, Push, Starts, Stacks, BigEnough, HeapTheorems.Tidy, Ticks, Demote;
    var p := s.x.k.tasks[s.x.k.curIdx].stackPtr;
    var w: nat :| HasBlock(s.x.h, p, w) && s.x.psp <= p + w;
    hide Valid, Inv;
    StackAfterIs(s'.x, p, w);
    PushedFrame(s.x.h.m, s.x.psp, s.x.regs, p, w);
  }

  /** Once the registers are pushed, every task of the table could be resumed. */
  lemma AllSuspended(s: System, n: nat, c: nat, s': System)
    requires Inv(s) && Shaped(s) && SwapStep(s, n, c, s')
    ensures Good(s'.x.k) && HeapTheorems.Tidy(s'.x.h) && c < s.x.k.count == s'.x.k.count && s'.x.k.curIdx == c
    ensures forall i :: 0 <= i < s.x.k.count ==> Suspended(s', i) && BigEnough(s', i)
    ensures Stacks(s'.x.k) == Stacks(s.x.k) && c < |s'.x.k.tasks|
  {
    hide Push, Picks, SwitchTo, Starts, HeapTheorems.Tidy, HasBlock, FramedAt;
    var k, k' := s.x.k, s'.x.k;
    PushIsOwn(s);
    TidyIsValid(s.x.h);
    OwnWritesSpare(s, s'.x.h.m);
    TidyIsValid(s'.x.h);
    SwitchTable(k, s.x.psp - 8, n, c);
    SameStacks(k, k');
    OutgoingSuspended(s, n, c, s');
    forall i | 0 <= i < k.count ensures Suspended(s', i) && BigEnough(s', i) {
      assert BigEnough(s, i) && k.tasks[i].stackPtr in Stacks(k);
      BigEnoughKept(s, s', i, i);
      if i != k.curIdx {
        assert Suspended(s, i);
        StacksDiffer(k, i, k.curIdx);
        SuspendedKept(s, s', i, i);
      }
    }
  }

  lemma StacksDiffer(k: Sched, i: nat, j: nat)
    requires Good(k) && i < k.count && j < k.count && i != j
    ensures k.tasks[i].stackPtr != k.tasks[j].stackPtr
  {
    var a, b := if i < j then i else j, if i < j then j else i;
    assert k.tasks[a].stackPtr != k.tasks[b].stackPtr;
  }

  lemma SwapKeepsInv(s: System, n: nat, c: nat, s': System)
    requires Inv(s) && Shaped(s) && SwapStep(s, n, c, s')
    ensures Inv(s')
  {
    AllSuspended(s, n, c, s');
    hide Good, Suspended, BigEnough, Starts, Stacks, HeapTheorems.Tidy, Picks;
  }

  /** PendSV resumes a task with the registers and stack pointer recorded for its stack, and finds
      the stack itself exactly as recorded. */
  lemma SwapRestores(s: System, n: nat, c: nat, s': System)
    requires Inv(s) && Shaped(s) && SwapStep(s, n, c, s')
    ensures c < |s'.x.k.tasks| && s'.x.k.tasks[c].stackPtr in s'.saved
    ensures var ctx := s'.saved[s'.x.k.tasks[c].stackPtr];
            && s'.x.regs == ctx.regs && s'.x.psp == ctx.psp
            && FramedAt(s'.x.h.m, s'.x.k.tasks[c].stackPtr, ctx.stack)
  {
    hide Good, Inv, HeapTheorems.Tidy, Picks, Push, HasBlock, SwitchTo, StackAfter, BigEnough, Stacks;
    AllSuspended(s, n, c, s');
    assert Suspended(s', c);
    var t := s'.x.k.tasks[c];
    var ctx := s'.saved[t.stackPtr];
    FramedTwice(s'.x.h.m, t.stackPtr, ctx.stack, t.psp - t.stackPtr, ctx.regs);
  }

  lemma FramedTwice(m: seq<Word>, at: nat, data: seq<Word>, offset: nat, part: seq<Word>)
    requires FramedAt(m, at, data) && FramedAt(data, offset, part)
    ensures FramedAt(m, at + offset, part)
  {
    forall j | 0 <= j < |part| ensures m[at + offset + j] == part[j] {
      assert data[offset + j] == data[offset..offset + |part|][j];
      assert m[at..at + |data|][offset + j] == m[at + offset + j];
    }
  }

  /** Part of a block of memory, seen inside the block and in memory. */
  lemma FramedWithin(m: seq<Word>, at: nat, w: nat, offset: nat, part: seq<Word>)
    requires at + offset + |part| <= at + w <= |m| && FramedAt(m, at + offset, part)
    ensures FramedAt(m[at..at + w], offset, part)
  {
    forall j | 0 <= j < |part| ensures m[at..at + w][offset + j] == part[j] {
      assert m[at + offset..at + offset + |part|][j] == m[at + offset + j];
    }
  }

  // ---------- creating ----------

  /** What creating a task relies on: no unused slot below the count. */
  ghost predicate Compact(s: System) {
    Shaped(s) && Core(s) && Slot(s.x.k.tasks, s.x.k.count) == s.x.k.count
  }

  lemma InvIsCompact(s: System)
    requires Inv(s) && Shaped(s)
    ensures Compact(s)
  {
    var r := Slot(s.x.k.tasks, s.x.k.count);
    assert r < s.x.k.count ==> Entry(s.x.k, r);
  }

  /** The stack that create obtained is new, and as big as asked for. */
  lemma SpawnBlock(s: System, func: Word, arg: Word, exit: Word, size: Word, r: int, x': Kernel)
      returns (p: nat, w: nat)
    requires Compact(s) && CreateEffect(s.x, func, arg, exit, size, r, x') && r != -1
    ensures size <= STACK_MAX_SIZE_BYTES && s.x.k.count < MAX_TASKS && func != 0
    ensures HeapTheorems.Tidy(x'.h) && x'.h.lo == s.x.h.lo
    ensures p !in Starts(s.x.h.c.bs) && Starts(x'.h.c.bs) == Starts(s.x.h.c.bs) + {p}
    ensures Live(s.x.h.c.bs) <= Live(x'.h.c.bs) && Untouched(s.x.h, Live(s.x.h.c.bs), x'.h.m)
    ensures HasBlock(x'.h, p, w) && WordsFor(StackBytes(size)) <= w
    ensures var bytes := StackBytes(size);
            && FirstPsp(p, bytes) >= 0
            && x'.k == Tasks.Create(s.x.k, s.x.k.count, FirstPsp(p, bytes), p, bytes)
            && FramedAt(x'.h.m, FirstPsp(p, bytes), FirstFrame(func, arg, exit))
    ensures x'.regs == s.x.regs
  {
    hide HeapTheorems.Tidy, Starts, Stacks, Suspended, BigEnough;
    hide FirstPsp, FirstFrame, Tasks.Create, CreateEffect, Slot;
    p := SpawnParts(s.x, func, arg, exit, size, r, x');
    var bytes := StackBytes(size);
    HeapTheorems.MallocKeepsTidy(s.x.h, bytes, 4 * p, x'.h);
    TidyIsValid(s.x.h);
    TidyIsValid(x'.h);
    AllocStarts(s.x.h, bytes, p, x'.h);
    w := MallocBlock(s.x.h, bytes, p, x'.h);
  }

  lemma TidyIsValid(h: Heap)
    requires HeapTheorems.Tidy(h)
    ensures Valid(h)
  {
  }

  lemma MallocBlock(h: Heap, bytes: Word, p: nat, h': Heap) returns (w: nat)
    requires Valid(h) && Valid(h') && MallocEffect(h, bytes, 4 * p, h') && p != 0
    ensures HasBlock(h', p, w) && WordsFor(bytes) <= w
  {
    hide Valid, MallocEffect, Merged, FirstFit;
    HeapTheorems.MallocStep(h, bytes, 4 * p, h');
    var b := BlockAt(h'.c.bs, 4 * p);
    assert b.at + 2 == p;
    w := b.words;
    BlockInHeap(h', b);
  }

  /** What creation asks of the allocator, and what it does to the table. */
  lemma SpawnParts(x: Kernel, func: Word, arg: Word, exit: Word, size: Word, r: int, x': Kernel)
      returns (p: nat)
    requires x.k.count <= |x.k.tasks| == MAX_TASKS && Slot(x.k.tasks, x.k.count) == x.k.count
    requires CreateEffect(x, func, arg, exit, size, r, x') && r != -1
    ensures size <= STACK_MAX_SIZE_BYTES && x.k.count < MAX_TASKS && func != 0
    ensures MallocEffect(x.h, StackBytes(size), 4 * p, x'.h) && p != 0
    ensures var bytes := StackBytes(size);
            && FirstPsp(p, bytes) >= 0
            && x'.k == Tasks.Create(x.k, x.k.count, FirstPsp(p, bytes), p, bytes)
            && FramedAt(x'.h.m, FirstPsp(p, bytes), FirstFrame(func, arg, exit))
    ensures x'.regs == x.regs
  {
    hide StackBytes, FirstPsp, FirstFrame, Tasks.Create, Slot, Framed, FramedAt, WordsFor, Grant;
    p := x.h.c.bs[FirstFit(x.h.c.bs, WordsFor(StackBytes(size)))].at + 2;
  }

  lemma BlockInHeap(h: Heap, b: Blocks.Block)
    requires Valid(h) && b in Live(h.c.bs)
    ensures HasBlock(h, b.at + 2, b.words)
  {
    ValidBounds(h);
  }

  /** A created task is suspended with eight zero registers, and its stack holds its first frame in
      bounds, above the canary. */
  lemma SpawnSuspends(s: System, func: Word, arg: Word, exit: Word, size: Word, r: int, s': System)
    requires Compact(s) && SpawnStep(s, func, arg, exit, size, r, s') && r != -1
    ensures s.x.k.count < |s'.x.k.tasks| && Suspended(s', s.x.k.count) && BigEnough(s', s.x.k.count)
    ensures var t := s'.x.k.tasks[s.x.k.count];
            && t.stackPtr !in Starts(s.x.h.c.bs) && t.stackPtr in s'.saved
            && var ctx := s'.saved[t.stackPtr];
            && ctx.regs == [0, 0, 0, 0, 0, 0, 0, 0]
            && t.stackPtr + 8 < ctx.psp && ctx.psp + 8 <= t.stackPtr + |ctx.stack|
            && FramedAt(ctx.stack, ctx.psp - t.stackPtr, [arg, 0, 0, 0, 0, exit, func, 0x0100_0000])
    ensures var p := s'.x.k.tasks[s.x.k.count].stackPtr;
            p < |s'.x.h.m| && s'.x.h.m[p] == 0xDEAD_BEEF && r == s'.x.k.tasks[s.x.k.count].id
  {
    hide Good, Suspended, BigEnough, Starts, Stacks, Slot, FirstFrame, CreateEffect, FirstPsp, StackBytes;
    CanaryLaid(s.x, func, arg, exit, size, r, s'.x);
    var p, w := SpawnBlock(s, func, arg, exit, size, r, s'.x);
    var bytes, i := StackBytes(size), s.x.k.count;
    FirstPspFits(p, size);
    var psp := FirstPsp(p, bytes);
    assert s'.x.k.tasks[i] == Task(psp, 0, p, bytes, Ready, false, (s.x.k.nextId + 1) % 0x1_0000);
    StackAfterIs(s'.x, p, w);
    hide Inv, WordsFor, Valid, Untouched, StackAfter;
    NewlySuspended(s', i, p, w, psp, func, arg, exit);
  }

  lemma CanaryLaid(x: Kernel, func: Word, arg: Word, exit: Word, size: Word, r: int, x': Kernel)
    requires x.k.count <= |x.k.tasks| == MAX_TASKS && Slot(x.k.tasks, x.k.count) == x.k.count
    requires CreateEffect(x, func, arg, exit, size, r, x') && r != -1
    ensures x.k.count < |x'.k.tasks|
    ensures var p := x'.k.tasks[x.k.count].stackPtr; p < |x'.h.m| && x'.h.m[p] == 0xDEAD_BEEF
    ensures r == x'.k.tasks[x.k.count].id == x'.k.nextId
  {
    hide StackBytes, FirstPsp, FirstFrame, Slot, Framed, FramedAt, WordsFor, Grant;
  }

  /** Exactly when task_create fails: no function, a stack beyond 8192 bytes, a full table, or no free
      block for the stack. */
  lemma CreateFailsIff(x: Kernel, func: Word, arg: Word, exit: Word, size: Word, r: int, x': Kernel)
    requires x.k.count <= |x.k.tasks| == MAX_TASKS && Valid(x.h) && CreateEffect(x, func, arg, exit, size, r, x')
    ensures r == -1 <==>
            || func == 0 || size > 8192 || x.k.count >= 58
            || StackBytes(size) > 4 * (x.h.hi - x.h.lo) || StackBytes(size) > 4 * LargestFree(x.h.c.bs)
    ensures r == -1 ==> x' == x
  {
    if func != 0 && size <= 8192 && x.k.count < MAX_TASKS {
      var bytes := StackBytes(size);
      AlignRoundsUp(bytes);
      FirstPspFits(0, size);
      hide StackBytes, FirstPsp, FirstFrame, Slot, FramedAt, Tasks.Create;
      FitsIff(x.h, bytes);
    }
  }

  lemma FitsIff(h: Heap, bytes: Word)
    requires Valid(h) && 0 < bytes && 4 * WordsFor(bytes) == bytes
    ensures MallocOutcome(h.c, 4 * (h.hi - h.lo), bytes).1 != 0 <==>
            bytes <= 4 * (h.hi - h.lo) && bytes <= 4 * LargestFree(h.c.bs)
  {
    hide Encoded, Counted, Grant, LargestFree, FirstFit, WordsFor;
    ValidBounds(h);
    var w, largest := WordsFor(bytes), LargestFree(h.c.bs);
    if w <= largest {
      var b :| b in h.c.bs && b.free && b.words == largest;
      assert Fits(b, w);
    }
  }

  lemma NewlySuspended(s: System, i: nat, p: nat, w: nat, psp: nat, func: Word, arg: Word, exit: Word)
    requires i < |s.x.k.tasks| && HasBlock(s.x.h, p, w)
    requires s.x.k.tasks[i].stackPtr == p && s.x.k.tasks[i].psp == psp
    requires STACK_MIN_SIZE_BYTES <= s.x.k.tasks[i].stackSize <= 4 * w
    requires p in s.saved && s.saved[p] == Context([0, 0, 0, 0, 0, 0, 0, 0], psp + 8, s.x.h.m[p..p + w])
    requires p < psp && psp + 16 <= p + w && FramedAt(s.x.h.m, psp, FirstFrame(func, arg, exit))
    ensures Suspended(s, i) && BigEnough(s, i)
    ensures FramedAt(s.saved[p].stack, psp + 8 - p, [arg, 0, 0, 0, 0, exit, func, 0x0100_0000])
  {
    FrameParts(s.x.h.m, psp, func, arg, exit, p, w);
  }

  lemma FrameParts(m: seq<Word>, psp: nat, func: Word, arg: Word, exit: Word, p: nat, w: nat)
    requires p <= psp && psp + 16 <= p + w <= |m| && FramedAt(m, psp, FirstFrame(func, arg, exit))
    ensures FramedAt(m[p..p + w], psp - p, [0, 0, 0, 0, 0, 0, 0, 0])
    ensures FramedAt(m[p..p + w], psp + 8 - p, [arg, 0, 0, 0, 0, exit, func, 0x0100_0000])
  {
    var frame := FirstFrame(func, arg, exit);
    FramedTwice(m, psp, frame, 0, frame[..8]);
    FramedTwice(m, psp, frame, 8, frame[8..]);
    FramedWithin(m, p, w, psp - p, frame[..8]);
    FramedWithin(m, p, w, psp + 8 - p, frame[8..]);
  }

  lemma SpawnKeepsInv(s: System, func: Word, arg: Word, exit: Word, size: Word, r: int, s': System)
    requires Inv(s) && Shaped(s) && SpawnStep(s, func, arg, exit, size, r, s')
    ensures Inv(s')
  {
    if r == -1 {
      assert s'.x == s.x && s' == s;
    } else {
      InvIsCompact(s);
      SpawnKeepsCore(s, func, arg, exit, size, r, s');
      var k, k' := s.x.k, s'.x.k;
      CreateKeepsGood(k, k'.tasks[k.count].psp, k'.tasks[k.count].stackPtr, k'.tasks[k.count].stackSize);
    }
  }

  lemma SpawnKeepsCore(s: System, func: Word, arg: Word, exit: Word, size: Word, r: int, s': System)
    requires Compact(s) && SpawnStep(s, func, arg, exit, size, r, s') && r != -1
    ensures Core(s') && s.x.k.count < MAX_TASKS
    ensures var t := s'.x.k.tasks[s.x.k.count];
            && s'.x.k == Tasks.Create(s.x.k, s.x.k.count, t.psp, t.stackPtr, t.stackSize)
            && t.stackPtr !in Stacks(s.x.k) && t.stackPtr != 0
    ensures forall i :: 0 <= i <= s.x.k.count && (i == s.x.k.count || Suspended(s, i)) ==> Suspended(s', i)
  {
    SpawnTable(s, func, arg, exit, size, r, s');
    SpawnEntries(s, func, arg, exit, size, r, s');
    hide Suspended, BigEnough, Starts, Stacks, CreateEffect, HeapTheorems.Tidy;
  }

  lemma SpawnTable(s: System, func: Word, arg: Word, exit: Word, size: Word, r: int, s': System)
    requires Compact(s) && SpawnStep(s, func, arg, exit, size, r, s') && r != -1
    ensures HeapTheorems.Tidy(s'.x.h) && s'.x.h.lo == s.x.h.lo && s'.x.regs == s.x.regs
    ensures s.x.k.count < MAX_TASKS
    ensures var t := s'.x.k.tasks[s.x.k.count];
            && s'.x.k == Tasks.Create(s.x.k, s.x.k.count, t.psp, t.stackPtr, t.stackSize)
            && t.stackPtr !in Starts(s.x.h.c.bs) && t.stackPtr != 0
            && Starts(s'.x.h.c.bs) == Starts(s.x.h.c.bs) + {t.stackPtr}
            && Stacks(s'.x.k) == Stacks(s.x.k) + {t.stackPtr}
  {
    hide Suspended, BigEnough, Starts, CreateEffect, FirstPsp, StackBytes, StackAfter;
    var p, w := SpawnBlock(s, func, arg, exit, size, r, s'.x);
    SpawnStacks(s.x.k, s'.x.k, p);
  }

  lemma SpawnEntries(s: System, func: Word, arg: Word, exit: Word, size: Word, r: int, s': System)
    requires Compact(s) && SpawnStep(s, func, arg, exit, size, r, s') && r != -1
    requires |s'.x.k.tasks| == |s.x.k.tasks| && s.x.k.count < MAX_TASKS
    ensures forall i :: 0 <= i <= s.x.k.count ==>
              BigEnough(s', i) && (i == s.x.k.count || Suspended(s, i) ==> Suspended(s', i))
  {
    hide Suspended, BigEnough, Starts, Stacks, CreateEffect, FirstPsp, StackBytes, StackAfter;
    var p, w := SpawnBlock(s, func, arg, exit, size, r, s'.x);
    SpawnSuspends(s, func, arg, exit, size, r, s');
    hide Good, Untouched, HasBlock, WordsFor, HeapTheorems.Tidy;
    forall i | 0 <= i < s.x.k.count ensures BigEnough(s', i) && (Suspended(s, i) ==> Suspended(s', i)) {
      SpawnSparesEntry(s, p, s', i);
    }
  }

  lemma SpawnStacks(k: Sched, k': Sched, p: nat)
    requires k.count < |k.tasks| && k'.count == k.count + 1 && |k'.tasks| == |k.tasks|
    requires k'.tasks == k.tasks[k.count := k'.tasks[k.count]] && k'.tasks[k.count].stackPtr == p
    ensures Stacks(k') == Stacks(k) + {p}
  {
    assert k'.tasks[k.count].stackPtr in Stacks(k');
    forall i | 0 <= i < k.count ensures k.tasks[i].stackPtr in Stacks(k') {
      assert k'.tasks[i] == k.tasks[i];
    }
  }

  lemma SpawnSparesEntry(s: System, p: nat, s': System, i: nat)
    requires Core(s) && i < s.x.k.count && |s'.x.k.tasks| == |s.x.k.tasks|
    requires s'.x.k.tasks[i] == s.x.k.tasks[i] && p !in Starts(s.x.h.c.bs)
    requires s'.saved == s.saved[p := if p in s'.saved then s'.saved[p] else Context([], 0, [])]
    requires Live(s.x.h.c.bs) <= Live(s'.x.h.c.bs) && Untouched(s.x.h, Live(s.x.h.c.bs), s'.x.h.m)
    ensures BigEnough(s', i) && (Suspended(s, i) ==> Suspended(s', i))
  {
    var q := s.x.k.tasks[i].stackPtr;
    assert q in Stacks(s.x.k) && BigEnough(s, i);
    BigEnoughKept(s, s', i, i);
    if Suspended(s, i) {
      KeptBy(s.x.h, Live(s.x.h.c.bs), s'.x.h, q, |s.saved[q].stack|);
      SuspendedKept(s, s', i, i);
    }
  }

  // ---------- collecting ----------

  /** Compaction drops exactly the stacks of the zombies. */
  lemma GcStacksAre(k: Sched)
    requires Good(k) && Alive(k)
    ensures Stacks(Gc(k)) == Stacks(k) - Dead(k)
  {
    GcIsStableFilter(k);
    var k', live := Gc(k), k.tasks[..k.count];
    forall p | p in Stacks(k) - Dead(k) ensures p in Stacks(k') {
      var i :| 0 <= i < k.count && k.tasks[i].stackPtr == p;
      assert Entry(k, i) && k'.tasks[Rank(live, i)] == k.tasks[i];
    }
    forall r | 0 <= r < k'.count ensures k'.tasks[r].stackPtr in Stacks(k) - Dead(k) {
      var i := Origin(live, r);
      assert k.tasks[i].stackPtr in Stacks(k);
      forall j | 0 <= j < k.count && k.tasks[j].state == Zombie ensures k.tasks[j].stackPtr != k.tasks[i].stackPtr {
        StacksDiffer(k, i, j);
      }
    }
  }

  lemma ReleasedStarts(h: Heap, dead: set<nat>, h': Heap)
    requires Released(h, dead, h')
    ensures Starts(h'.c.bs) == Starts(h.c.bs) - dead
  {
  }

  /** Collection frees the stack of every zombie, once, and no other block; the surviving tasks keep
      their stacks and contexts wherever their entries go. */
  lemma ReapKeepsInv(s: System, s': System)
    requires Inv(s) && Shaped(s) && ReapStep(s, s')
    ensures Inv(s')
    ensures Starts(s'.x.h.c.bs) == Starts(s.x.h.c.bs) - Dead(s.x.k) && Dead(s.x.k) <= Starts(s.x.h.c.bs)
  {
    hide Gc, Starts, Suspended, BigEnough, HeapTheorems.Tidy;
    var k, k' := s.x.k, s'.x.k;
    GcKeepsGood(k);
    GcStacksAre(k);
    ReleasedStarts(s.x.h, Dead(k), s'.x.h);
    ReapTidy(s, s');
    assert Dead(k) <= Stacks(k);
    hide Good, Released, Dead, Stacks;
    forall r | 0 <= r < k'.count
      ensures r < |k'.tasks| && BigEnough(s', r) && (r != k'.curIdx ==> Suspended(s', r))
    {
      ReapSparesEntry(s, s', r);
    }
  }

  lemma ReapTidy(s: System, s': System)
    requires Inv(s) && Shaped(s) && ReapStep(s, s')
    ensures HeapTheorems.Tidy(s'.x.h)
  {
  }

  lemma ReapSparesEntry(s: System, s': System, r: nat)
    requires Inv(s) && Shaped(s) && ReapStep(s, s') && r < s'.x.k.count
    ensures r < |s'.x.k.tasks| && BigEnough(s', r) && (r != s'.x.k.curIdx ==> Suspended(s', r))
  {
    var i := ReapOrigin(s.x.k, r);
    assert BigEnough(s, i) && (r != s'.x.k.curIdx ==> Suspended(s, i));
    hide Good, Gc, Inv, Dead, Stacks, Suspended, BigEnough, Starts;
    var p := s.x.k.tasks[i].stackPtr;
    forall w: nat | HasBlock(s.x.h, p, w) ensures HasBlock(s'.x.h, p, w) && StackKept(s.x.h, p, w, s'.x.h) {
      KeptBy(s.x.h, Live(s'.x.h.c.bs), s'.x.h, p, w);
    }
    BigEnoughKept(s, s', i, r);
    if r != s'.x.k.curIdx { SuspendedKept(s, s', i, r); }
  }

  /** Where the survivor in slot r was before compaction. */
  lemma ReapOrigin(k: Sched, r: nat) returns (i: nat)
    requires Good(k) && Alive(k) && r < Gc(k).count
    ensures i < k.count && r < |Gc(k).tasks| && Gc(k).tasks[r] == k.tasks[i]
    ensures k.tasks[i].stackPtr !in Dead(k) && (r != Gc(k).curIdx ==> i != k.curIdx)
  {
    hide Origin, Rank, Kept, Dead, Stacks;
    GcIsStableFilter(k);
    GcStacksAre(k);
    i := Origin(k.tasks[..k.count], r);
    InStacks(Gc(k), r);
    hide Gc;
  }

  lemma InStacks(k: Sched, i: nat)
    requires i < k.count && i < |k.tasks|
    ensures k.tasks[i].stackPtr in Stacks(k)
  {
  }

  /** In a reachable state the collector may free every zombie's stack, and every context that
      PendSV might pop lies in memory. */
  lemma InvIsReady(s: System)
    requires Inv(s)
    ensures s.x.k.count <= |s.x.k.tasks| && CollectReady(s.x)
    ensures forall i :: 0 <= i < s.x.k.count && i != s.x.k.curIdx ==> s.x.k.tasks[i].psp + 8 <= |s.x.h.m|
  {
    forall i | 0 <= i < s.x.k.count && s.x.k.tasks[i].state == Zombie ensures ZombieHolds(s.x, i) {
      assert s.x.k.tasks[i].stackPtr in Stacks(s.x.k);
      var _ := BlockOf(s.x.h, s.x.k.tasks[i].stackPtr);
    }
    forall i | 0 <= i < s.x.k.count && i != s.x.k.curIdx ensures s.x.k.tasks[i].psp + 8 <= |s.x.h.m| {
      assert Suspended(s, i);
    }
  }

  // ---------- every step, every run ----------

  lemma StepKeepsInv(s: System, e: Action, s': System)
    requires Inv(s) && Step(s, e, s')
    ensures Inv(s')
  {
    hide Inv, SpawnStep, ReapStep, SwapStep, InvokeStep, AllocStep, DropStep, ResizeStep, ComputeStep;
    match e
    case Spawn(func, arg, exit, size, r) => SpawnKeepsInv(s, func, arg, exit, size, r, s');
    case Reap => ReapKeepsInv(s, s');
    case Swap(n, c) => SwapKeepsInv(s, n, c, s');
    case Invoke(ev) => InvokeKeepsInv(s, ev, s');
    case Alloc(size, q) => AllocKeepsInv(s, size, q, s');
    case Drop(p) => DropKeepsInv(s, p, s');
    case Resize(p, size, q) => ResizeKeepsInv(s, p, size, q, s');
    case Compute => ComputeKeepsInv(s, s');
  }

  ghost predicate Run(ss: seq<System>, es: seq<Action>) {
    && |ss| == |es| + 1 && Inv(ss[0])
    && forall i :: 0 <= i < |es| ==> Step(ss[i], es[i], ss[i + 1])
  }

  /** Ownership over every run: the allocated blocks are always exactly the stacks of the table and
      the tasks' own payloads, no two tasks share a stack, and every stack is as big as recorded. */
  lemma {:induction false} RunKeepsInv(ss: seq<System>, es: seq<Action>, n: nat)
    requires Run(ss, es) && n <= |es|
    ensures Inv(ss[n])
  {
    hide Step, Good, Core;
    if n > 0 {
      RunKeepsInv(ss, es, n - 1);
      StepKeepsInv(ss[n - 1], es[n - 1], ss[n]);
    }
  }

  /** The stack whose recorded context the action replaces: that of the task switched away from, or
      the new stack of a created task. */
  ghost predicate Records(s: System, e: Action, s': System, p: nat) {
    match e
    case Swap(_, _) => s.x.k.curIdx < |s.x.k.tasks| && s.x.k.tasks[s.x.k.curIdx].stackPtr == p
    case Spawn(_, _, _, _, r) =>
      r != -1 && s.x.k.count < |s'.x.k.tasks| && s'.x.k.tasks[s.x.k.count].stackPtr == p
    case _ => false
  }

  lemma StepKeepsSaved(s: System, e: Action, s': System, p: nat)
    requires Step(s, e, s') && !Records(s, e, s', p) && Inv(s)
    requires p in s.saved
    ensures p in s'.saved && s'.saved[p] == s.saved[p]
  {
    hide Inv, CreateEffect, SwitchEffect, StackAfter;
    if e.Spawn? && e.r != -1 {
      InvIsCompact(s);
      var q, w := SpawnBlock(s, e.func, e.arg, e.exit, e.size, e.r, s'.x);
    }
  }

  lemma {:induction false} RunKeepsSaved(ss: seq<System>, es: seq<Action>, a: nat, b: nat, p: nat)
    requires Run(ss, es) && a <= b <= |es|
    requires forall i :: a <= i < b ==> !Records(ss[i], es[i], ss[i + 1], p)
    requires p in ss[a].saved
    ensures p in ss[b].saved && ss[b].saved[p] == ss[a].saved[p]
    decreases b
  {
    hide Step, Inv, Records;
    if a < b {
      RunKeepsSaved(ss, es, a, b - 1, p);
      RunKeepsInv(ss, es, b - 1);
      StepKeepsSaved(ss[b - 1], es[b - 1], ss[b], p);
    }
  }

  /** Contexts survive: a task switched away from at step a and next switched to at step b, whatever
      runs, is created, deleted, collected, allocated or freed in between and wherever its entry has
      moved, resumes with the registers and the stack pointer it had, and with its stack as it was. */
  lemma ResumeRestoresContext(ss: seq<System>, es: seq<Action>, a: nat, b: nat, p: nat)
    requires Run(ss, es) && a < b < |es| && es[a].Swap? && es[b].Swap?
    requires ss[a].x.k.curIdx < |ss[a].x.k.tasks| && ss[a].x.k.tasks[ss[a].x.k.curIdx].stackPtr == p
    requires forall i :: a < i <= b ==> !Records(ss[i], es[i], ss[i + 1], p)
    requires es[b].c < |ss[b + 1].x.k.tasks| && ss[b + 1].x.k.tasks[es[b].c].stackPtr == p
    ensures ss[b + 1].x.regs == ss[a].x.regs && ss[b + 1].x.psp == ss[a].x.psp
    ensures FramedAt(ss[b + 1].x.h.m, p, StackAfter(ss[a + 1].x, p))
  {
    hide Inv, SwitchEffect, StackAfter, FramedAt;
    RunKeepsInv(ss, es, b);
    assert Step(ss[a], es[a], ss[a + 1]) && Step(ss[b], es[b], ss[b + 1]);
    RunKeepsSaved(ss, es, a + 1, b + 1, p);
    hide Run;
    SwapRestores(ss[b], es[b].n, es[b].c, ss[b + 1]);
  }

  /** The first switch to a task created at step a loads eight zeros and leaves the stack pointer at
      the hardware frame that starts the task function with its argument and task_exit as return
      address; the frame lies inside the task's stack. */
  lemma FirstResumeReadsFrame(ss: seq<System>, es: seq<Action>, a: nat, b: nat, p: nat)
    requires Run(ss, es) && a < b < |es| && es[a].Spawn? && es[b].Swap?
    requires Records(ss[a], es[a], ss[a + 1], p)
    requires forall i :: a < i <= b ==> !Records(ss[i], es[i], ss[i + 1], p)
    requires es[b].c < |ss[b + 1].x.k.tasks| && ss[b + 1].x.k.tasks[es[b].c].stackPtr == p
    ensures var x := ss[b + 1].x;
            && x.regs == [0, 0, 0, 0, 0, 0, 0, 0]
            && p + 8 < x.psp
            && FramedAt(x.h.m, x.psp, [es[a].arg, 0, 0, 0, 0, es[a].exit, es[a].func, 0x0100_0000])
            && exists w: nat :: HasBlock(x.h, p, w) && x.psp + 8 <= p + w
  {
    hide Inv, Good, Suspended, CreateEffect, SwitchEffect;
    RunKeepsInv(ss, es, a);
    RunKeepsInv(ss, es, b);
    assert Step(ss[a], es[a], ss[a + 1]) && Step(ss[b], es[b], ss[b + 1]);
    InvIsCompact(ss[a]);
    SpawnSuspends(ss[a], es[a].func, es[a].arg, es[a].exit, es[a].size, es[a].r, ss[a + 1]);
    RunKeepsSaved(ss, es, a + 1, b + 1, p);
    hide Run, StackAfter;
    ResumedInFrame(ss[b], es[b].n, es[b].c, ss[b + 1], p,
                   [es[a].arg, 0, 0, 0, 0, es[a].exit, es[a].func, 0x0100_0000]);
  }

  lemma ResumedInFrame(s: System, n: nat, c: nat, s': System, p: nat, frame: seq<Word>)
    requires Inv(s) && Shaped(s) && SwapStep(s, n, c, s') && |frame| == 8
    requires c < |s'.x.k.tasks| && s'.x.k.tasks[c].stackPtr == p && p in s'.saved
    requires var ctx := s'.saved[p]; p + 8 < ctx.psp && FramedAt(ctx.stack, ctx.psp - p, frame)
    ensures s'.x.regs == s'.saved[p].regs && s'.x.psp == s'.saved[p].psp
    ensures FramedAt(s'.x.h.m, s'.x.psp, frame)
    ensures exists w: nat :: HasBlock(s'.x.h, p, w) && s'.x.psp + 8 <= p + w
  {
    SwapRestores(s, n, c, s');
    AllSuspended(s, n, c, s');
    assert Suspended(s', c);
    hide Inv, Good, SwapStep, HeapTheorems.Tidy;
    var ctx := s'.saved[p];
    FramedTwice(s'.x.h.m, p, ctx.stack, ctx.psp - p, frame);
  }
}
