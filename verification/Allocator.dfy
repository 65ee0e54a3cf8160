/** The heap allocator: an address-ordered block list whose headers live in the pool itself. */
module Allocators {
  import opened Machine
  import opened Blocks
  import opened Heaps
  import opened HeapMemory
  import opened HeapLists

  class Allocator {
    const ram: array<Word>  // all of RAM; word k is at byte address 4 * k
    var head: Word          // address of the first header, 0 before initialisation
    var memCapacity: Word
    var freeMem: Word
    var allocatedMem: Word
    var freeBlocks: Word
    var allocatedBlocks: Word
    ghost var lo: nat         // the heap in words
    ghost var hi: nat
    ghost var bs: seq<Block>  // the list that the headers encode

    ghost function State(): Heap
      reads this, ram
    {
      Heap(ram[..], lo, hi, Control(bs, freeMem, allocatedMem, freeBlocks, allocatedBlocks))
    }

    /** The list in memory is exact and starts at `head`; the counters may say anything. */
    ghost predicate Linked()
      reads this, ram
    {
      Listed(State()) && head == 4 * lo && memCapacity == 4 * (hi - lo)
    }

    /** The counters agree with the list as well. */
    ghost predicate Ok()
      reads this, ram
    {
      Valid(State()) && head == 4 * lo && memCapacity == 4 * (hi - lo)
    }

    constructor (memory: array<Word>)
      requires memory.Length < 0x4000_0000
      ensures ram == memory && State() == Heap(memory[..], 0, 0, Control([], 0, 0, 0, 0))
      ensures Ok()
    {
      ram := memory;
      head, memCapacity, freeMem, allocatedMem, freeBlocks, allocatedBlocks := 0, 0, 0, 0, 0, 0;
      lo, hi, bs := 0, 0, [];
    }

    // ---------- header words ----------

    method Load(addr: Word, ghost k: nat) returns (v: Word)
      requires addr == 4 * k && k < ram.Length
      ensures v == ram[k]
    {
      v := ram[addr / 4];
    }

    method Store(addr: Word, v: Word, ghost k: nat)
      requires addr == 4 * k && k < ram.Length
      modifies ram
      ensures ram[..] == old(ram[..])[k := v]
    {
      ram[addr / 4] := v;
    }

    /** The size and flag packed into the header of block b at address curr. */
    method ReadHeader(curr: Word, ghost b: Block) returns (size: Word, free: bool)
      requires curr == 4 * b.at && b.at < ram.Length && 4 * b.words + 1 < WORD_LIMIT
      requires ram[b.at] == 4 * b.words + (if b.free then 1 else 0)
      ensures size == 4 * b.words && free == b.free
    {
      HeaderFields(b.words, b.free);
      var header := Load(curr, b.at);
      size, free := SizeField(header), FreeFlag(header);
    }

    method WriteHeader(curr: Word, size: Word, free: bool, ghost b: Block)
      requires curr == 4 * b.at && b.at < ram.Length && 4 * b.words + 1 < WORD_LIMIT
      requires size == 4 * b.words
      modifies ram
      ensures ram[..] == old(ram[..])[b.at := 4 * b.words + (if free then 1 else 0)]
    {
      HeaderFields(b.words, free);
      Store(curr, Pack(size, free), b.at);
    }

    // ---------- initialisation ----------

    /** Any pool whose first header fits in memory is taken. `rest` is what alignment leaves of the
        pool; when that is negative, the subtraction wraps around. The heap begins at the least
        multiple of 4 at or above the pool's address and reaches exactly to the pool's end. It is well
        formed exactly when `rest` is a multiple of 4, the pool lies in memory, and, since the counter
        of allocated bytes survives initialisation, that counter was 0. */
    method Init(pool: Word, size: Word)
      requires ram.Length < 0x4000_0000 && 0 < pool <= WORD_LIMIT - 4
      requires var rest := pool + size - Align(pool);
               rest >= 8 || rest < 0 ==> Align(pool) + 8 <= 4 * ram.Length
      modifies this, ram
      ensures 0 <= pool + size - Align(pool) < 8 ==>
                State() == old(State()) && head == old(head) && memCapacity == old(memCapacity)
      ensures var rest := pool + size - Align(pool);
              rest >= 8 || rest < 0 ==>
                && head % 4 == 0 && pool <= head < pool + 4
                && (rest >= 8 ==> head + memCapacity == pool + size)
                && (rest < 0 ==> head + memCapacity == pool + size + WORD_LIMIT)
                && State() == Heap(old(ram[..])[head / 4 := Pack(memCapacity - 8, true)][head / 4 + 1 := 0],
                                   head / 4, head / 4 + memCapacity / 4,
                                   Control([Block(head / 4, memCapacity / 4 - 2, true)],
                                           memCapacity - 8, old(allocatedMem), 1, 0))
                && (Ok() <==> old(allocatedMem) == 0 && rest % 4 == 0 && 8 <= rest && pool + size <= 4 * ram.Length)
    {
      hide Valid;
      AlignRoundsUp(pool);
      var aligned := Align(pool);
      var usable := Wrap(size - (aligned - pool));
      LossWraps(pool, size);
      if usable < 8 { return; }
      head := aligned;
      memCapacity := usable;
      freeMem := usable - 8;
      ghost var start := aligned / 4;
      Store(head, Pack(freeMem, true), start);
      Store(head + 4, 0, start + 1);
      freeBlocks := 1;
      allocatedBlocks := 0;
      ghost var b := Block(start, usable / 4 - 2, true);
      lo, hi, bs := start, start + usable / 4, [b];
      FreshHeap(State(), usable);
    }

    // ---------- malloc ----------

    method Malloc(size: Word) returns (r: Word)
      requires Ok()
      modifies this, ram
      ensures MallocEffect(old(State()), size, r, State())
      ensures Ok()
    {
      hide Listed, Counted;
      ghost var h := State();
      SameState(h, Live(bs));
      if size == 0 || size > memCapacity { return 0; }
      var aligned := Align(size);
      var curr, i := Search(aligned, WordsFor(size));
      if curr == 0 { return 0; }
      ListAt(h, i);
      ghost var w := WordsFor(size);
      ghost var h' := h.(m := GrantWrites(h.m, bs[i], w), c := Grant(h.c, i, w));
      GrantIsStep(h, size, i, h');
      Take(curr, aligned, i, w);
      assert State() == h';
      return curr + 8;
    }

    /** Malloc's loop: the address of the first free block that is big enough, or 0. */
    method Search(aligned: Word, ghost w: nat) returns (curr: Word, ghost i: nat)
      requires Ok() && aligned == 4 * w
      ensures i == FirstFit(bs, w)
      ensures curr == if FirstFit(bs, w) < |bs| then 4 * bs[FirstFit(bs, w)].at else 0
      ensures curr == 0 <==> FirstFit(bs, w) == |bs|
    {
      ghost var h := State();
      curr := head;
      i := 0;
      ListStart(h);
      while curr != 0
        invariant i <= |bs| && curr == if i < |bs| then 4 * bs[i].at else 0
        invariant forall k :: 0 <= k < i ==> !Fits(bs[k], w)
        decreases |bs| - i
      {
        ListAt(h, i);
        var currSize, isFree := ReadHeader(curr, bs[i]);
        if isFree && currSize >= aligned { break; }
        curr := Load(curr + 4, bs[i].at + 1);
        i := i + 1;
      }
      FirstFitUnique(bs, w, i);
    }

    /** What malloc does with the block it has chosen, block i at address curr. */
    method Take(curr: Word, aligned: Word, ghost i: nat, ghost w: nat)
      requires i < |bs| && curr == 4 * bs[i].at && Fits(bs[i], w) && aligned == 4 * w
      requires bs[i].End() <= ram.Length < 0x4000_0000 && ram[bs[i].at] == 4 * bs[i].words + 1
      requires CountersInRange(Grant(State().c, i, w))
      modifies this, ram
      ensures ram[..] == GrantWrites(old(ram[..]), old(bs[i]), w)
      ensures State().c == Grant(old(State().c), i, w)
      ensures head == old(head) && memCapacity == old(memCapacity) && lo == old(lo) && hi == old(hi)
    {
      ghost var b := bs[i];
      var currSize, _ := ReadHeader(curr, b);
      bs := Splice(bs, i, Carve(b, w));
      if currSize >= aligned + 8 + 4 {
        Split(curr, currSize, aligned, b, w);
        freeMem := freeMem - (aligned + 8);
        allocatedMem := allocatedMem + aligned;
        allocatedBlocks := allocatedBlocks + 1;
      } else {
        freeMem := freeMem - currSize;
        allocatedMem := allocatedMem + currSize;
        freeBlocks := freeBlocks - 1;
        allocatedBlocks := allocatedBlocks + 1;
        WriteHeader(curr, currSize, false, b);
      }
    }

    /** Splits block b at address curr after `aligned` payload bytes, leaving a free remainder. */
    method Split(curr: Word, currSize: Word, aligned: Word, ghost b: Block, ghost w: nat)
      requires curr == 4 * b.at && currSize == 4 * b.words && aligned == 4 * w
      requires w + 3 <= b.words && b.End() <= ram.Length < 0x4000_0000
      modifies ram
      ensures ram[..] == SplitWrites(old(ram[..]), b, w, old(ram[b.at + 1]))
    {
      var next := curr + 8 + aligned;
      ghost var rest := Block(b.at + 2 + w, b.words - w - 2, true);
      WriteHeader(next, currSize - aligned - 8, true, rest);
      var link := Load(curr + 4, b.at + 1);
      Store(next + 4, link, rest.at + 1);
      Store(curr + 4, next, b.at + 1);
      WriteHeader(curr, aligned, false, Block(b.at, w, false));
    }

    // ---------- free ----------

    /** The counters stay right exactly when the pointer is NULL or an allocated block; the list
        stays exact for every pointer that it reaches. */
    method Free(ptr: Word)
      requires Linked() && (ptr == 0 || Reached(bs, ptr))
      modifies this, ram
      ensures Linked()
      ensures if ptr == 0 then State() == old(State()) else FreedEffect(old(State()), ptr, State())
      ensures old(Ok()) ==> (Ok() <==> ptr == 0 || IsLive(old(bs), ptr))
      ensures old(Ok()) && Ok() ==> FreeEffect(old(State()), ptr, State())
    {
      hide Listed, Counted, FreeEffect, FreedEffect, Untouched, Coalesce, MergedTo, Merging, IndexOf;
      ghost var h := State();
      if ptr == 0 {
        FreeNull(h);
        return;
      }
      Mark(ptr);
      Coalescing(MarkedHeap(h, ptr), h, ptr);
      if Counted(h.c) { FreedCounts(h, ptr, State()); }
    }

    /** Sets the free flag in the word before ptr and moves the size found there between the
        counters. */
    method Mark(ptr: Word)
      requires Linked() && Reached(bs, ptr)
      modifies this, ram
      ensures Linked() && bs != [] && ptr / 4 - 2 < ram.Length
      ensures lo == old(lo) && hi == old(hi) && head == old(head) && memCapacity == old(memCapacity)
      ensures State() == MarkedHeap(old(State()), ptr)
    {
      hide Listed, Reached, Flagged, Pack, SizeField, Wrap;
      ghost var h, a := State(), ptr / 4 - 2;
      ReachedInHeap(h, ptr);
      MarkSafe(h, ptr);
      var blockToFree := ptr - 8;
      var header := Load(blockToFree, a);
      Store(blockToFree, Pack(header, true), a);
      PackKeepsSize(header);
      header := Load(blockToFree, a);
      var blockMem := SizeField(header);
      freeMem := Wrap(freeMem + blockMem);
      allocatedMem := Wrap(allocatedMem - blockMem);
      freeBlocks := Wrap(freeBlocks + 1);
      allocatedBlocks := Wrap(allocatedBlocks - 1);
      bs := Flagged(bs, ptr);
    }

    /** The merge pass over the whole list. */
    method Coalescing(ghost marked: Heap, ghost h: Heap, ghost ptr: Word)
      requires Linked() && bs != [] && 8 <= ptr && ptr / 4 - 2 < |h.m|
      requires State() == marked == MarkedHeap(h, ptr)
      modifies this, ram
      ensures Linked() && FreedEffect(h, ptr, State())
    {
      hide Listed, Counted, FreedEffect, Untouched, Coalesce, MergedTo, Merging, MarkedHeap;
      var curr := head;
      ghost var j := 0;
      ListStart(marked);
      MergingStarts(marked);
      while true
        invariant Merging(marked, State(), j) && j < |bs| && curr == 4 * bs[j].at && Linked()
        decreases |bs| - j
      {
        ListAt(State(), j);
        var next := Load(curr + 4, bs[j].at + 1);
        if next == 0 { break; }
        ListAt(State(), j + 1);
        var currSize, currFree := ReadHeader(curr, bs[j]);
        var nextSize, nextFree := ReadHeader(next, bs[j + 1]);
        if currFree && nextFree {
          Absorb(curr, currSize, next, nextSize, j, marked);
        } else {
          MergingSkips(marked, State(), j);
          curr := next;
          j := j + 1;
        }
      }
      FreedIsEffect(h, ptr, j, State());
    }

    /** Free block j absorbs its free right neighbour. */
    method Absorb(curr: Word, currSize: Word, next: Word, nextSize: Word, ghost j: nat, ghost h: Heap)
      requires Linked() && Merging(h, State(), j) && j + 1 < |bs| && bs[j].free && bs[j + 1].free
      requires curr == 4 * bs[j].at && currSize == 4 * bs[j].words
      requires next == 4 * bs[j + 1].at && nextSize == 4 * bs[j + 1].words
      requires bs[j].End() == bs[j + 1].at && bs[j + 1].End() <= ram.Length < 0x4000_0000
      modifies this, ram
      ensures Linked() && Merging(h, State(), j) && bs == MergeAt(old(bs), j)
    {
      hide Merging, MergeAt, Listed;
      ghost var g := State();
      ghost var g' := g.(m := MergeWrites(g.m, bs, j), c := Absorbed(g.c, j));
      MergingAbsorbs(h, g, j, g');
      MergingListed(h, g', j);
      freeMem := Wrap(freeMem + 8);
      freeBlocks := Wrap(freeBlocks - 1);
      WriteHeader(curr, currSize + 8 + nextSize, true, Join(bs[j], bs[j + 1]));
      var link := Load(next + 4, bs[j + 1].at + 1);
      Store(curr + 4, link, bs[j].at + 1);
      bs := g'.c.bs;
      assert State() == g';
    }

    // ---------- realloc ----------

    method Realloc(ptr: Word, newSize: Word) returns (r: Word)
      requires Ok() && (ptr == 0 || IsLive(bs, ptr))
      modifies this, ram
      ensures ReallocEffect(old(State()), ptr, newSize, r, State())
      ensures Ok()
    {
      hide Listed, Counted, FreeEffect, MallocEffect, ReallocEffect;
      ghost var h := State();
      if ptr == 0 {
        r := Malloc(newSize);
        ReallocDelegates(h, ptr, newSize, r, State());
        return;
      }
      if newSize == 0 {
        Free(ptr);
        ReallocDelegates(h, ptr, newSize, 0, State());
        return 0;
      }
      ghost var i, w := IndexOf(bs, ptr), WordsFor(newSize);
      ListAt(h, i);
      var block := ptr - 8;
      var currSize, _ := ReadHeader(block, bs[i]);
      var alignedNew := Align(newSize);
      if currSize >= alignedNew {
        if currSize >= alignedNew + 8 + 4 {
          ShrinkTo(block, currSize, alignedNew, i, newSize);
        } else {
          KeepIsEffect(h, i, newSize);
        }
        return ptr;
      }
      r := Move(ptr, newSize, currSize, i);
    }

    /** Cuts block i down and leaves the rest as a free block, without coalescing. */
    method ShrinkTo(block: Word, currSize: Word, alignedNew: Word, ghost i: nat, ghost newSize: Word)
      requires Ok() && i < |bs| && !bs[i].free && newSize != 0
      requires i == IndexOf(bs, bs[i].Ptr()) && bs[i].End() <= ram.Length < 0x4000_0000
      requires block == 4 * bs[i].at && currSize == 4 * bs[i].words && alignedNew == Align(newSize)
      requires alignedNew + 12 <= currSize && block + 8 < WORD_LIMIT
      modifies this, ram
      ensures IsLive(old(bs), block + 8)
      ensures ReallocEffect(old(State()), block + 8, newSize, block + 8, State())
      ensures Ok()
    {
      hide Listed, Counted, ReallocEffect, IndexOf;
      ghost var h, b, w := State(), bs[i], WordsFor(newSize);
      ghost var h' := h.(m := SplitWrites(h.m, b, w, h.m[b.at + 1]), c := Shrink(h.c, i, w));
      ShrinkIsEffect(h, i, newSize, w, h');
      var remaining := currSize - alignedNew - 8;
      Split(block, currSize, alignedNew, b, w);
      bs := h'.c.bs;
      freeMem := freeMem + remaining;
      allocatedMem := allocatedMem - (remaining + 8);
      freeBlocks := freeBlocks + 1;
      assert State() == h';
    }

    /** Growing: allocate, copy, free. */
    method Move(ptr: Word, newSize: Word, currSize: Word, ghost i: nat) returns (r: Word)
      requires Ok() && ptr != 0 && IsLive(bs, ptr) && i == IndexOf(bs, ptr)
      requires currSize == 4 * bs[i].words && newSize != 0 && WordsFor(newSize) > bs[i].words
      modifies this, ram
      ensures ReallocEffect(old(State()), ptr, newSize, r, State())
      ensures Ok()
    {
      hide Listed, Counted, ReallocEffect, FreeEffect, FreedEffect, MallocEffect, Framed, Copied, Untouched, Inside;
      ghost var h, b := State(), bs[i];
      ListAt(h, i);
      r := Malloc(newSize);
      if r == 0 {
        MoveFails(h, ptr, newSize, State());
        return;
      }
      ghost var h1 := State();
      MallocMakesLive(h, ptr, newSize, r, h1);
      CopyPayload(ptr, r, currSize, b, BlockAt(bs, r));
      ghost var h2 := State();
      Free(ptr);
      MoveIsEffect(h, ptr, newSize, r, h1, h2, State());
    }

    /** Copies the payload of block b into the bigger block b'. */
    method CopyPayload(ptr: Word, r: Word, n: Word, ghost b: Block, ghost b': Block)
      requires Ok() && IsLive(bs, ptr) && IsLive(bs, r) && b == BlockAt(bs, ptr) && b' == BlockAt(bs, r)
      requires n == 4 * b.words && b.words <= b'.words && (b'.End() <= b.at || b.End() <= b'.at)
      modifies ram
      ensures Ok() && Framed(old(State()), Live(bs) - {b'}, State())
      ensures Copied(old(ram[..]), b, ram[..], b', b.words)
    {
      hide Listed, Counted, Framed, Copied, IsLive, BlockAt;
      ghost var h1 := State();
      PayloadAt(h1, ptr);
      PayloadAt(h1, r);
      Memcpy(r, ptr, n, b'.at + 2, b.at + 2, b.words);
      CopySafe(h1, ptr, r, State());
    }

    /** memcpy between disjoint regions, a word at a time: k words from word s to word d of RAM. */
    method Memcpy(dest: Word, src: Word, n: Word, ghost d: nat, ghost s: nat, ghost k: nat)
      requires dest == 4 * d && src == 4 * s && n == 4 * k
      requires d + k <= ram.Length < 0x4000_0000 && s + k <= ram.Length
      requires d + k <= s || s + k <= d
      modifies ram
      ensures ram[d..d + k] == old(ram[s..s + k])
      ensures forall j :: 0 <= j < ram.Length && !(d <= j < d + k) ==> ram[j] == old(ram[j])
    {
      var copied := 0;
      ghost var j := 0;
      while copied < n
        invariant copied == 4 * j && j <= k
        invariant ram[d..d + j] == old(ram[s..s + j])
        invariant forall x :: 0 <= x < ram.Length && !(d <= x < d + j) ==> ram[x] == old(ram[x])
      {
        var v := Load(src + copied, s + j);
        Store(dest + copied, v, d + j);
        copied := copied + 4;
        j := j + 1;
      }
    }

    // ---------- diagnostics ----------

    /** Address of the first block of the largest free size, or 0. */
    method LargestFreeBlock() returns (largest: Word, ghost k: nat)
      requires Ok()
      ensures if LargestFree(bs) == 0 then largest == 0
              else k < |bs| && largest == 4 * bs[k].at && bs[k].free && bs[k].words == LargestFree(bs)
      ensures largest == 0 <==> LargestFree(bs) == 0
    {
      hide Listed, Counted, Best;
      ghost var h := State();
      var curr := head;
      var largestFree := 0;
      ghost var i := 0;
      largest, k := 0, 0;
      ListStart(h);
      BestNone(bs);
      while curr != 0
        invariant i <= |bs| && curr == if i < |bs| then 4 * bs[i].at else 0
        invariant Best(bs, i, largestFree, largest, k)
        decreases |bs| - i
      {
        ListAt(h, i);
        BestNext(bs, i, largestFree, largest, k);
        var size, isFree := ReadHeader(curr, bs[i]);
        if isFree && size > largestFree {
          largestFree, largest, k := size, curr, i;
        }
        curr := Load(curr + 4, bs[i].at + 1);
        i := i + 1;
      }
      BestAll(bs, largestFree, largest, k);
    }

    /** The reported sizes: what is used is the allocated payload plus every header. */
    method GetStats() returns (code: int, stats: HeapStats)
      requires Ok()
      ensures head == 0 ==> code == -1 && stats == HeapStats(0, 0, 0, 0, 0, 0)
      ensures head != 0 ==>
                && code == 0
                && stats.totalSize == 4 * (hi - lo)
                && stats.freeSize == 4 * TallyOf(bs).freeWords
                && stats.usedSize == 4 * TallyOf(bs).liveWords + 8 * |bs|
                && stats.largestFreeBlock == 4 * LargestFree(bs)
                && stats.allocatedBlocks == |Live(bs)| && stats.freeBlocks == |bs| - |Live(bs)|
    {
      if head == 0 { return -1, HeapStats(0, 0, 0, 0, 0, 0); }
      CountersFit(State());
      Conservation(bs, lo, hi);
      LiveCount(bs, lo, hi);
      var block, k := LargestFreeBlock();
      var largest := 0;
      if block != 0 {
        ListAt(State(), k);
        var size, _ := ReadHeader(block, bs[k]);
        largest := size;
      }
      return 0, HeapStats(memCapacity, memCapacity - freeMem, freeMem, largest, allocatedBlocks, freeBlocks);
    }

    /** Walks any well-linked list and compares the sums found with the two byte counters. */
    method CheckIntegrity() returns (code: int)
      requires Listed(State()) && head == 4 * lo && memCapacity == 4 * (hi - lo)
      ensures code == 0 || code == -1
      ensures code == 0 <==>
                && head != 0
                && freeMem == 4 * TallyOf(bs).freeWords && allocatedMem == 4 * TallyOf(bs).liveWords
    {
      if head == 0 { return -1; }
      ghost var h := State();
      SumsFit(h);
      assert TallyOf(bs[..0]) == Tally(0, 0, 0, 0);
      hide Listed, TallyOf;
      var calculatedFree, allocatedSize := 0, 0;
      var curr := head;
      ghost var i := 0;
      ListStart(h);
      while curr != 0
        invariant i <= |bs| && curr == if i < |bs| then 4 * bs[i].at else 0
        invariant calculatedFree == 4 * TallyOf(bs[..i]).freeWords
        invariant allocatedSize == 4 * TallyOf(bs[..i]).liveWords
        decreases |bs| - i
      {
        ListAt(h, i);
        TallyPrefix(bs, i);
        if curr < head || curr >= head + memCapacity { return -1; }
        var size, isFree := ReadHeader(curr, bs[i]);
        if size > memCapacity { return -1; }
        if isFree {
          calculatedFree := calculatedFree + size;
        } else {
          allocatedSize := allocatedSize + size;
        }
        curr := Load(curr + 4, bs[i].at + 1);
        i := i + 1;
      }
      assert bs[..i] == bs;
      if calculatedFree != freeMem { return -1; }
      if allocatedSize != allocatedMem { return -1; }
      return 0;
    }
  }

  /** When the single block that init writes is a well-formed heap. */
  lemma FreshHeap(h: Heap, usable: Word)
    requires 8 <= usable && 0 < h.lo && h.lo + 1 < |h.m| < 0x4000_0000 && h.hi == h.lo + usable / 4
    requires h.m[h.lo] == Pack(usable - 8, true) && h.m[h.lo + 1] == 0
    requires h.c.bs == [Block(h.lo, usable / 4 - 2, true)]
    requires h.c.freeMem == usable - 8 && h.c.freeBlocks == 1 && h.c.allocBlocks == 0
    ensures usable % 4 == 0 ==> (Valid(h) <==> h.c.allocMem == 0 && h.hi <= |h.m|)
  {
    TallySingle(h.c.bs[0]);
    if usable % 4 == 0 { HeaderFields(usable / 4 - 2, true); }
    assert Valid(h) ==> Header(h.m, h.c.bs, 0);
    assert h.hi <= |h.m| && usable % 4 == 0 ==> Header(h.m, h.c.bs, 0);
  }

  /** What the subtraction of the alignment loss gives. */
  lemma LossWraps(pool: Word, size: Word)
    requires 0 < pool <= WORD_LIMIT - 4
    ensures var rest := pool + size - Align(pool);
            && -4 < rest && (rest < 0 ==> Wrap(rest) == rest + WORD_LIMIT >= WORD_LIMIT - 3 && Wrap(rest) % 4 != 0)
            && (rest >= 0 ==> Wrap(rest) == rest)
  {
    AlignRoundsUp(pool);
  }

  datatype HeapStats = HeapStats(totalSize: Word, usedSize: Word, freeSize: Word,
                                 largestFreeBlock: Word, allocatedBlocks: Word, freeBlocks: Word)

  /** Block k, at address `largest`, is the biggest free block among the first i, or there is none. */
  ghost predicate Best(bs: seq<Block>, i: nat, size: int, largest: int, k: nat) {
    && i <= |bs| && size == 4 * LargestFree(bs[..i])
    && if size == 0 then largest == 0
       else k < |bs| && bs[k].at > 0 && largest == 4 * bs[k].at && bs[k].free && 4 * bs[k].words == size
  }

  lemma BestNone(bs: seq<Block>)
    ensures Best(bs, 0, 0, 0, 0)
  {
  }

  lemma BestNext(bs: seq<Block>, i: nat, size: int, largest: int, k: nat)
    requires Best(bs, i, size, largest, k) && i < |bs| && bs[i].at > 0
    ensures if bs[i].free && 4 * bs[i].words > size then Best(bs, i + 1, 4 * bs[i].words, 4 * bs[i].at, i)
            else Best(bs, i + 1, size, largest, k)
  {
    LargestFreeConcat(bs[..i], bs[i]);
    assert bs[..i + 1] == bs[..i] + [bs[i]];
  }

  lemma BestAll(bs: seq<Block>, size: int, largest: int, k: nat)
    requires Best(bs, |bs|, size, largest, k)
    ensures if LargestFree(bs) == 0 then largest == 0
            else k < |bs| && largest == 4 * bs[k].at && bs[k].free && bs[k].words == LargestFree(bs)
    ensures largest == 0 <==> LargestFree(bs) == 0
  {
    assert bs[..|bs|] == bs;
  }
}
