/** The kernel as one state: the task table, the heap that holds the stacks, and the registers of
    the running task; and what each kernel entry does to it. */
module Kernels {
  import opened Machine
  import opened Blocks
  import opened Heaps
  import opened Tasks
  import opened SchedulerSteps

  const STACK_MIN_SIZE_BYTES: Word := 512
  const STACK_MAX_SIZE_BYTES: Word := 8192
  const STACK_CANARY: Word := 0xDEAD_BEEF

  /** `regs` is R4 to R11 and `psp` the process stack pointer (in words) of the running task. */
  datatype Kernel = Kernel(k: Sched, h: Heap, regs: seq<Word>, psp: nat)

  // ---------- creating a task ----------

  /** The stack size actually allocated: at least the minimum, and a multiple of 8. */
  function StackBytes(size: Word): (r: Word)
    requires size <= STACK_MAX_SIZE_BYTES
    ensures size <= r && STACK_MIN_SIZE_BYTES <= r <= STACK_MAX_SIZE_BYTES && r % 8 == 0
    ensures r < size + 8 || r == 512
  {
    ((if size < STACK_MIN_SIZE_BYTES then STACK_MIN_SIZE_BYTES else size) + 7) / 8 * 8
  }

  /** Where the first context goes on a stack of `bytes` bytes at word p: 16 words that end at the
      last word of the stack or, to start the top on an 8-byte boundary, one word below. */
  function FirstPsp(p: nat, bytes: Word): int {
    var end := p + bytes / 4 - 1;
    end - end % 2 - 15
  }

  /** The 16 words that the first switch to a task pops: R4-R11, then the hardware frame. */
  function FirstFrame(func: Word, arg: Word, exit: Word): (r: seq<Word>)
    ensures |r| == 16
  {
    [0, 0, 0, 0, 0, 0, 0, 0] + [arg, 0, 0, 0, 0, exit, func, 0x0100_0000]
  }

  /** The first frame fits: 16 words above the canary and within the allocated size, at most one word
      below the end of the stack, and with its top word on an 8-byte boundary. */
  lemma FirstPspFits(p: nat, size: Word)
    requires size <= STACK_MAX_SIZE_BYTES
    ensures var bytes := StackBytes(size);
            && bytes % 8 == 0 && 4 * WordsFor(bytes) == bytes
            && p < FirstPsp(p, bytes) && FirstPsp(p, bytes) + 16 <= p + WordsFor(bytes)
            && p + WordsFor(bytes) <= FirstPsp(p, bytes) + 17 && 4 * (FirstPsp(p, bytes) + 15) % 8 == 0
  {
    hide StackBytes, FirstPsp, WordsFor;
    WordsOfBytes(StackBytes(size));
    FrameAtTop(p, StackBytes(size));
  }

  lemma WordsOfBytes(bytes: Word)
    requires bytes % 8 == 0 && bytes <= STACK_MAX_SIZE_BYTES
    ensures WordsFor(bytes) == bytes / 4 && 4 * (bytes / 4) == bytes
  {
    var q := bytes / 8;
    assert bytes == 8 * q;
    assert (bytes + 3) % WORD_LIMIT == 4 * (2 * q) + 3;
    Quarter(2 * q);
  }

  lemma Quarter(n: nat)
    ensures (4 * n + 3) / 4 == n && 4 * n / 4 == n
  {
  }

  lemma FrameAtTop(p: nat, bytes: Word)
    requires 512 <= bytes && 4 * (bytes / 4) == bytes
    ensures p < FirstPsp(p, bytes) && p + bytes / 4 - 17 <= FirstPsp(p, bytes) <= p + bytes / 4 - 16
    ensures 4 * (FirstPsp(p, bytes) + 15) % 8 == 0
  {
    var end := p + bytes / 4 - 1;
    var half := end / 2;
    assert end - end % 2 == 2 * half;
    assert FirstPsp(p, bytes) + 15 == 2 * half;
    assert 4 * (2 * half) == 8 * half;
  }

  ghost predicate CreateEffect(x: Kernel, func: Word, arg: Word, exit: Word, size: Word, r: int, x': Kernel)
    requires x.k.count <= |x.k.tasks| == MAX_TASKS
  {
    if x.k.count >= MAX_TASKS || func == 0 || size > STACK_MAX_SIZE_BYTES then
      r == -1 && x' == x
    else
      var bytes := StackBytes(size);
      var (c', a) := MallocOutcome(x.h.c, 4 * (x.h.hi - x.h.lo), bytes);
      if a == 0 then r == -1 && x' == x
      else
        var i, slot := FirstFit(x.h.c.bs, WordsFor(bytes)), Slot(x.k.tasks, x.k.count);
        && i < |x.h.c.bs|
        && var p := x.h.c.bs[i].at + 2;
        && FirstPsp(p, bytes) >= 0
        && x' == x.(k := Tasks.Create(x.k, slot, FirstPsp(p, bytes), p, bytes), h := x'.h)
        && r == x'.k.nextId
        && x'.h.c == c' && Framed(x.h, Live(x.h.c.bs), x'.h)
        && FramedAt(x'.h.m, FirstPsp(p, bytes), FirstFrame(func, arg, exit))
        && p < |x'.h.m| && x'.h.m[p] == STACK_CANARY
  }

  /** `data` lies at word `at` of memory. */
  ghost predicate FramedAt(m: seq<Word>, at: nat, data: seq<Word>) {
    at + |data| <= |m| && m[at..at + |data|] == data
  }

  // ---------- collecting ----------

  /** The stacks of the zombies among the first n entries. */
  ghost function DeadBelow(tasks: seq<Task>, n: nat): set<nat> {
    set i | 0 <= i < n && i < |tasks| && tasks[i].state == Zombie && tasks[i].stackPtr != 0 :: tasks[i].stackPtr
  }

  ghost function Dead(k: Sched): set<nat> {
    DeadBelow(k.tasks, k.count)
  }

  /** The blocks at `dead` have been freed, once each, and nothing else has changed hands. */
  ghost predicate Released(h: Heap, dead: set<nat>, h': Heap) {
    && Valid(h') && h'.lo == h.lo && h'.hi == h.hi
    && Live(h'.c.bs) == (set b | b in Live(h.c.bs) && b.at + 2 !in dead)
    && Untouched(h, Live(h'.c.bs), h'.m)
    && (dead == {} ==> h' == h)
    && (dead != {} ==> Merged(h'.c.bs))
  }

  /** What allocator_free asks: each zombie's stack is an allocated block, and no two are the same. */
  ghost predicate CollectReady(x: Kernel)
    requires x.k.count <= |x.k.tasks|
  {
    && (forall i :: 0 <= i < x.k.count && x.k.tasks[i].state == Zombie ==> ZombieHolds(x, i))
    && (forall i, j :: 0 <= i < j < x.k.count && x.k.tasks[i].state == Zombie && x.k.tasks[j].state == Zombie ==>
          x.k.tasks[i].stackPtr == 0 || x.k.tasks[i].stackPtr != x.k.tasks[j].stackPtr)
  }

  ghost predicate ZombieHolds(x: Kernel, i: nat)
    requires i < |x.k.tasks|
  {
    var p := x.k.tasks[i].stackPtr;
    p == 0 || (4 * p < WORD_LIMIT && IsLive(x.h.c.bs, 4 * p))
  }

  ghost predicate CollectEffect(x: Kernel, x': Kernel)
    requires x.k.count <= |x.k.tasks|
  {
    x' == x.(k := Gc(x.k), h := x'.h) && Released(x.h, Dead(x.k), x'.h)
  }

  // ---------- switching ----------

  function Push(m: seq<Word>, psp: nat, regs: seq<Word>): (m': seq<Word>)
    requires |regs| <= psp <= |m|
    ensures |m'| == |m|
  {
    m[..psp - |regs|] + regs + m[psp..]
  }

  /** PendSV: push R4-R11 on the outgoing stack, record its pointer, choose, and pop R4-R11 from the
      incoming stack; n ticks strike during the search and entry c is picked. */
  ghost predicate SwitchEffect(x: Kernel, n: nat, c: nat, x': Kernel) {
    && x.k.current.At? && x.k.current.index < |x.k.tasks|
    && |x.regs| == 8 && 8 <= x.psp <= |x.h.m|
    && var d, m1 := Outgoing(x.k, x.psp - 8), Push(x.h.m, x.psp, x.regs);
    && Picks(d, Ticks(d, n), c)
    && x'.k == SwitchTo(x.k, x.psp - 8, n, c)
    && x'.h == x.h.(m := m1)
    && var q := x'.k.tasks[c].psp;
    && q + 8 <= |m1| && x'.regs == m1[q..q + 8] && x'.psp == q + 8
  }
}
