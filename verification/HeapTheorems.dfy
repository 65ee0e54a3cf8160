/** What holds after every allocator call and after every run of calls. */
module HeapTheorems {
  import opened Machine
  import opened Blocks
  import opened Heaps
  import opened HeapLists
  import opened HeapMemory

  // ---------- one call ----------

  /** A request for `size` bytes was granted as block b: the lowest free block that fits served
      it, b is at most one unsplittable remainder (8 bytes) bigger than the rounded request, and
      overlaps no block held before. */
  ghost predicate GrantedAs(h: Heap, size: Word, b: Block) {
    var i := FirstFit(h.c.bs, WordsFor(size));
    && i < |h.c.bs| && b.at == h.c.bs[i].at
    && (forall x :: x in h.c.bs && Fits(x, WordsFor(size)) ==> b.at <= x.at)
    && !b.free && size <= Align(size) <= 4 * b.words <= Align(size) + 8
    && (forall x :: x in Live(h.c.bs) ==> x.End() <= b.at || b.End() <= x.at)
  }

  lemma GrantedFirstFit(h: Heap, size: Word)
    requires Valid(h) && 0 < size <= 4 * (h.hi - h.lo) && FirstFit(h.c.bs, WordsFor(size)) < |h.c.bs|
    ensures var i := FirstFit(h.c.bs, WordsFor(size));
            GrantedAs(h, size, Carve(h.c.bs[i], WordsFor(size))[0])
  {
    AlignRoundsUp(size);
    ValidBounds(h);
  }

  lemma MallocStep(h: Heap, size: Word, r: int, h': Heap)
    requires Valid(h) && MallocEffect(h, size, r, h')
    ensures Valid(h')
    ensures r == 0 ==> h' == h
    ensures r != 0 ==>
              && IsLive(h'.c.bs, r)
              && GrantedAs(h, size, BlockAt(h'.c.bs, r))
              && Live(h'.c.bs) == Live(h.c.bs) + {BlockAt(h'.c.bs, r)}
    ensures Merged(h.c.bs) ==> Merged(h'.c.bs)
  {
    var w := WordsFor(size);
    var i := FirstFit(h.c.bs, w);
    if size != 0 && size <= 4 * (h.hi - h.lo) && i < |h.c.bs| {
      GrantSound(h.c, h.lo, h.hi, i, w);
      if Merged(h.c.bs) { GrantMerged(h.c.bs, i, w); }
      GrantedFirstFit(h, size);
      FindLive(h'.c.bs, h.lo, h.hi, Carve(h.c.bs[i], w)[0]);
    }
  }

  lemma FreeStep(h: Heap, p: Word, h': Heap)
    requires Valid(h) && (p == 0 || IsLive(h.c.bs, p)) && FreeEffect(h, p, h')
    ensures Valid(h')
    ensures p == 0 ==> h' == h
    ensures p != 0 ==> Merged(h'.c.bs) && Live(h'.c.bs) == Live(h.c.bs) - {BlockAt(h.c.bs, p)}
  {
    if p != 0 { ReleaseSound(h.c, h.lo, h.hi, IndexOf(h.c.bs, p)); }
  }

  /** A resized block keeps its contents as far as the smaller size reaches, stays in place unless
      it must grow, and is big enough unless rounding up the request wrapped around. */
  lemma ReallocStep(h: Heap, p: Word, size: Word, r: int, h': Heap)
    requires Valid(h) && p != 0 && size != 0
    requires IsLive(h.c.bs, p) && ReallocEffect(h, p, size, r, h')
    ensures Valid(h')
    ensures r == 0 ==> h' == h && 4 * BlockAt(h.c.bs, p).words < size
    ensures r != 0 ==>
              var b, b' := BlockAt(h.c.bs, p), BlockAt(h'.c.bs, r);
              && Live(h'.c.bs) == Live(h.c.bs) - {b} + {b'}
              && (r == p <==> WordsFor(size) <= b.words)
              && (r == p ==> b'.at == b.at) && (r != p ==> b' !in Live(h.c.bs))
              && (size <= 4 * b'.words <==> size < WORD_LIMIT - 3)
              && Copied(h.m, b, h'.m, b', if r == p then WordsFor(size) else b.words)
  {
    var i := IndexOf(h.c.bs, p);
    AlignRoundsUp(size);
    BlockFits(h, i);
    SoundList(h);
    hide Encoded, Sound, WordsFor, Untouched, IndexOf, FreeOutcome, Shrink;
    if WordsFor(size) <= BlockAt(h.c.bs, p).words {
      ShrunkInPlace(h.c, h.lo, h.hi, i, WordsFor(size));
      SoundIsValid(h, h');
    } else {
      MovedElsewhere(h.c, h.lo, h.hi, 4 * (h.hi - h.lo), p, size);
      if r != 0 { SoundIsValid(h, h'); }
    }
  }

  lemma ShrunkInPlace(c: Control, lo: nat, hi: nat, i: nat, w: nat)
    requires Sound(c, lo, hi) && i < |c.bs| && !c.bs[i].free && w <= c.bs[i].words
    ensures var c', b, p := Shrink(c, i, w), c.bs[i], c.bs[i].Ptr();
            && Sound(c', lo, hi) && IsLive(c'.bs, p)
            && var b' := BlockAt(c'.bs, p);
            Live(c'.bs) == Live(c.bs) - {b} + {b'} && b'.at == b.at && w <= b'.words <= b.words
  {
    ShrinkSound(c, lo, hi, i, w);
    hide Counted, Shrink;
    FindLive(Shrink(c, i, w).bs, lo, hi, Carve(c.bs[i], w)[0]);
  }

  lemma MovedElsewhere(c: Control, lo: nat, hi: nat, cap: int, p: Word, size: Word)
    requires Sound(c, lo, hi) && p != 0 && size != 0 && IsLive(c.bs, p)
    requires WordsFor(size) > BlockAt(c.bs, p).words
    ensures var (c', r) := ReallocOutcome(c, cap, p, size);
            if r == 0 then c' == c else
            && Sound(c', lo, hi) && IsLive(c'.bs, r) && r != p
            && var b, b' := BlockAt(c.bs, p), BlockAt(c'.bs, r);
            Live(c'.bs) == Live(c.bs) - {b} + {b'} && b' !in Live(c.bs) && WordsFor(size) <= b'.words
  {
    hide Sound, MallocOutcome, FreeOutcome, WordsFor, IndexOf;
    MoveSound(c, lo, hi, cap, p, size);
    MallocFound(c, lo, hi, cap, size);
  }

  /** With NULL realloc allocates, and with size 0 it frees and returns NULL. */
  lemma ReallocEnds(h: Heap, p: Word, size: Word, r: int, h': Heap)
    requires Valid(h) && (p == 0 || IsLive(h.c.bs, p)) && ReallocEffect(h, p, size, r, h')
    ensures p == 0 && r == 0 ==> h' == h
    ensures p == 0 && r != 0 ==> IsLive(h'.c.bs, r) && Live(h'.c.bs) == Live(h.c.bs) + {BlockAt(h'.c.bs, r)}
    ensures p == 0 && r != 0 ==> GrantedAs(h, size, BlockAt(h'.c.bs, r))
    ensures p != 0 && size == 0 ==> r == 0 && Live(h'.c.bs) == Live(h.c.bs) - {BlockAt(h.c.bs, p)}
  {
    hide Valid, MallocEffect, FreeEffect, Merged, GrantedAs;
    if p == 0 { MallocStep(h, size, r, h'); }
    if p != 0 && size == 0 { FreeStep(h, p, h'); }
  }

  /** The same, as far as ownership goes: one block is exchanged for one that is in the same place
      or new. */
  lemma ReallocLive(h: Heap, p: Word, size: Word, r: int, h': Heap)
    requires Valid(h) && p != 0 && size != 0 && r != 0
    requires IsLive(h.c.bs, p) && ReallocEffect(h, p, size, r, h')
    ensures IsLive(h'.c.bs, r)
    ensures var b, b' := BlockAt(h.c.bs, p), BlockAt(h'.c.bs, r);
            Live(h'.c.bs) == Live(h.c.bs) - {b} + {b'} && (b'.at == b.at || b' !in Live(h.c.bs))
    ensures Untouched(h, Live(h.c.bs) - {BlockAt(h.c.bs, p)}, h'.m)
  {
    ReallocStep(h, p, size, r, h');
  }

  lemma BlockFits(h: Heap, i: nat)
    requires Valid(h) && i < |h.c.bs|
    ensures 4 * h.c.bs[i].words < WORD_LIMIT - 12
  {
    ValidBounds(h);
  }

  /** Payloads of different blocks never share a word. */
  lemma PayloadsDisjoint(h: Heap, b: Block, b': Block)
    requires Valid(h) && b in h.c.bs && b' in h.c.bs && b != b'
    ensures b.End() <= b'.at || b'.End() <= b.at
    ensures h.lo <= b.at && b.End() <= h.hi <= |h.m|
  {
    BlocksApart(h, b, b');
  }

  /** A request succeeds exactly when it is neither empty nor beyond the capacity and fits into what
      get_stats reports as the largest free block; before initialisation none does. */
  lemma MallocSucceedsIff(h: Heap, size: Word, r: int, h': Heap)
    requires Valid(h) && MallocEffect(h, size, r, h')
    ensures r != 0 <==> 0 < size <= 4 * (h.hi - h.lo) && Align(size) <= 4 * LargestFree(h.c.bs)
  {
    AlignRoundsUp(size);
    ValidBounds(h);
    var w, largest := WordsFor(size), LargestFree(h.c.bs);
    if 0 < largest && w <= largest {
      var b :| b in h.c.bs && b.free && b.words == largest;
      assert Fits(b, w);
    }
  }

  // ---------- calls that undo one another ----------

  /** The control part of a heap is a function of its allocated blocks once it is merged. */
  lemma CanonicalControl(c: Control, c': Control, lo: nat, hi: nat)
    requires Sound(c, lo, hi) && Merged(c.bs)
    requires Sound(c', lo, hi) && Merged(c'.bs)
    requires Live(c.bs) == Live(c'.bs)
    ensures c == c'
  {
    MergedIsCanonical(c.bs, c'.bs, lo, hi);
  }

  /** The order in which two blocks are freed leaves no trace. */
  lemma FreesCommute(c: Control, lo: nat, hi: nat, p: Word, q: Word)
    requires Sound(c, lo, hi) && p != 0 && q != 0 && p != q
    requires IsLive(c.bs, p) && IsLive(c.bs, q)
    ensures FreeOutcome(FreeOutcome(c, p), q) == FreeOutcome(FreeOutcome(c, q), p)
  {
    var b, d := BlockAt(c.bs, p), BlockAt(c.bs, q);
    assert b in Live(c.bs) && d in Live(c.bs) && b != d;
    ReleaseFound(c, lo, hi, p, d);
    ReleaseFound(c, lo, hi, q, b);
    ReleaseSound(FreeOutcome(c, p), lo, hi, IndexOf(FreeOutcome(c, p).bs, q));
    ReleaseSound(FreeOutcome(c, q), lo, hi, IndexOf(FreeOutcome(c, q).bs, p));
    hide Tiles, Merged, TallyOf, Coalesce, Release, FreeOutcome, IndexOf;
    CanonicalControl(FreeOutcome(FreeOutcome(c, p), q), FreeOutcome(FreeOutcome(c, q), p), lo, hi);
  }

  /** Freeing what malloc just granted restores the list and all counters, exactly when the list
      had no free neighbours to begin with. */
  lemma FreeUndoesMalloc(c: Control, lo: nat, hi: nat, size: Word)
    requires Sound(c, lo, hi) && 0 < lo
    requires MallocOutcome(c, 4 * (hi - lo), size).1 != 0
    ensures var (c1, r) := MallocOutcome(c, 4 * (hi - lo), size);
            FreeOutcome(c1, r) == c <==> Merged(c.bs)
  {
    var (c1, r) := MallocOutcome(c, 4 * (hi - lo), size);
    MallocFound(c, lo, hi, 4 * (hi - lo), size);
    ReleaseSound(c1, lo, hi, IndexOf(c1.bs, r));
    var c2 := FreeOutcome(c1, r);
    assert Live(c2.bs) == Live(c.bs);
    if Merged(c.bs) { CanonicalControl(c, c2, lo, hi); }
  }

  /** Freeing any pointer that the list reaches keeps the list exact, and keeps the counters right
      exactly when the pointer was allocated. */
  lemma FreeCountsIff(h: Heap, p: Word, h': Heap)
    requires Valid(h) && Reached(h.c.bs, p) && FreedEffect(h, p, h')
    ensures Listed(h')
    ensures Counted(h'.c) <==> IsLive(h.c.bs, p)
  {
    FreedCounts(h, p, h');
    hide Reached, Coalesce, Flagged, Encoded, Pack, SizeField, IndexOf;
    ReachedInHeap(h, p);
    MarkSafe(h, p);
    CoalesceTiles(Flagged(h.c.bs, p), h.lo, h.hi);
  }

  /** A double free: whether the block is still listed or has been merged into its left neighbour,
      its pointer is reached but not allocated, so the second free breaks the counters. */
  lemma DoubleFree(h: Heap, p: Word, h1: Heap, h2: Heap)
    requires Valid(h) && p != 0 && IsLive(h.c.bs, p) && FreeEffect(h, p, h1)
    ensures Valid(h1) && Reached(h1.c.bs, p) && !IsLive(h1.c.bs, p)
    ensures FreedEffect(h1, p, h2) ==>
              !Counted(h2.c) && h2.c.allocBlocks == Wrap(h.c.allocBlocks - 2) && Live(h2.c.bs) == Live(h1.c.bs)
  {
    hide Valid, Reached, FreeEffect, FreedEffect, Merged, Live, IsLive;
    FreeStep(h, p, h1);
    FreedIsGone(h, p, h1);
    FreedIsReached(h, p, h1);
    if FreedEffect(h1, p, h2) { SecondFree(h1, p, h2); }
  }

  lemma FreedIsGone(h: Heap, p: Word, h1: Heap)
    requires Valid(h) && p != 0 && IsLive(h.c.bs, p) && FreeEffect(h, p, h1)
    requires Live(h1.c.bs) == Live(h.c.bs) - {BlockAt(h.c.bs, p)}
    ensures !IsLive(h1.c.bs, p) && h1.c.allocBlocks == h.c.allocBlocks - 1
  {
    hide Encoded, Counted, Framed, Coalesce;
    var b := BlockAt(h.c.bs, p);
    assert b in Live(h.c.bs);
    if IsLive(h1.c.bs, p) {
      assert BlockAt(h1.c.bs, p) in Live(h1.c.bs);
      SamePtrSameBlock(h.c.bs, h.lo, h.hi, b, BlockAt(h1.c.bs, p));
    }
  }

  lemma SecondFree(h1: Heap, p: Word, h2: Heap)
    requires Valid(h1) && Reached(h1.c.bs, p) && !IsLive(h1.c.bs, p) && FreedEffect(h1, p, h2)
    ensures !Counted(h2.c)
    ensures h2.c.allocBlocks == Wrap(h1.c.allocBlocks - 1) && Live(h2.c.bs) == Live(h1.c.bs)
  {
    hide Valid, Counted, Encoded, Untouched, Coalesce, Reached, IsLive, Flagged, SizeField, Pack, Wrap, Live;
    FreeCountsIff(h1, p, h2);
    FlagIdle(h1.c.bs, p);
    CoalesceLive(h1.c.bs);
  }

  lemma FreedIsReached(h: Heap, p: Word, h1: Heap)
    requires Valid(h) && p != 0 && IsLive(h.c.bs, p) && FreeEffect(h, p, h1)
    ensures Reached(h1.c.bs, p)
  {
    var i := IndexOf(h.c.bs, p);
    ListAt(h, i);
    ReleaseReaches(h, i);
    hide Valid, Framed, Release;
    ReachedThrough(h1.c.bs, p, h.c.bs[i].at);
  }

  lemma ReleaseReaches(h: Heap, i: nat)
    requires Valid(h) && i < |h.c.bs|
    ensures exists x :: x in Release(h.c, i).bs && (x.at == h.c.bs[i].at || x.at + 2 <= h.c.bs[i].at < x.End())
  {
    hide Encoded, Counted;
    var b, marked := h.c.bs[i], Splice(h.c.bs, i, [h.c.bs[i].(free := true)]);
    SpliceTiles(h.c.bs, h.lo, h.hi, i, [b.(free := true)]);
    hide Listed;
    assert marked[i].at == b.at;
    CoalesceReaches(marked, h.lo, h.hi, i);
  }

  lemma ReachedThrough(bs: seq<Block>, p: Word, a: nat)
    requires p == 4 * a + 8 && exists x :: x in bs && (x.at == a || x.at + 2 <= a < x.End())
    ensures Reached(bs, p)
  {
    var x :| x in bs && (x.at == a || x.at + 2 <= a < x.End());
    if x.at == a {
      var k :| 0 <= k < |bs| && bs[k] == x;
      assert bs[k].Ptr() == p;
    } else {
      assert Inside(bs, a);
    }
  }

  /** Shrinking in place is the one call that can leave two free neighbours: it does so exactly
      when a remainder is split off in front of a free block. */
  lemma ShrinkMergedIff(c: Control, i: nat, w: nat)
    requires i < |c.bs| && !c.bs[i].free && w <= c.bs[i].words && Merged(c.bs)
    ensures Merged(Shrink(c, i, w).bs) <==>
              !(w + 3 <= c.bs[i].words && i + 1 < |c.bs| && c.bs[i + 1].free)
  {
    var bs, cut := c.bs, Carve(c.bs[i], w);
    var r := Splice(bs, i, cut);
    if w + 3 <= bs[i].words {
      forall k | 0 <= k < |r| - 1 && k != i + 1 ensures !(r[k].free && r[k + 1].free) {
        SpliceAt(bs, i, cut, k);
        SpliceAt(bs, i, cut, k + 1);
        assert k + 1 < i ==> !(bs[k].free && bs[k + 1].free);
        assert k > i + 1 ==> !(bs[k - 1].free && bs[k].free);
      }
      if i + 1 < |bs| {
        SpliceAt(bs, i, cut, i + 1);
        SpliceAt(bs, i, cut, i + 2);
        assert r[i + 1].free && r[i + 2] == bs[i + 1];
      }
    }
  }

  // ---------- runs ----------

  /** One call, or one caller writing inside a block it holds. */
  datatype Call =
    | Malloc(size: Word)
    | Free(ptr: Word)
    | Realloc(ptr: Word, size: Word)
    | Write(ptr: Word)

  /** Callers pass only NULL or pointers they hold. */
  ghost predicate Enabled(h: Heap, call: Call) {
    match call
    case Malloc(_) => true
    case Free(p) => p == 0 || IsLive(h.c.bs, p)
    case Realloc(p, _) => p == 0 || IsLive(h.c.bs, p)
    case Write(p) => IsLive(h.c.bs, p)
  }

  ghost predicate WriteEffect(h: Heap, p: Word, h': Heap)
    requires IsLive(h.c.bs, p)
  {
    var b := BlockAt(h.c.bs, p);
    && h' == h.(m := h'.m) && |h'.m| == |h.m|
    && forall k :: 0 <= k < |h.m| && !(b.at + 2 <= k < b.End()) ==> h'.m[k] == h.m[k]
  }

  ghost predicate Step(h: Heap, call: Call, r: int, h': Heap)
    requires Enabled(h, call)
  {
    match call
    case Malloc(size) => MallocEffect(h, size, r, h')
    case Free(p) => FreeEffect(h, p, h')
    case Realloc(p, size) => ReallocEffect(h, p, size, r, h')
    case Write(p) => WriteEffect(h, p, h')
  }

  ghost predicate Run(hs: seq<Heap>, calls: seq<Call>, rs: seq<int>) {
    && |hs| == |calls| + 1 && |rs| == |calls|
    && forall i :: 0 <= i < |calls| ==> Enabled(hs[i], calls[i]) && Step(hs[i], calls[i], rs[i], hs[i + 1])
  }

  /** The state after the first init. */
  ghost predicate Initial(h: Heap) {
    && 0 < h.lo && h.lo + 2 <= h.hi
    && h.c == Control([Block(h.lo, h.hi - h.lo - 2, true)], 4 * (h.hi - h.lo) - 8, 0, 1, 0)
    && Valid(h)
  }

  /** Free neighbours can exist only while something is allocated. */
  ghost predicate Tidy(h: Heap) {
    Valid(h) && (Merged(h.c.bs) || Live(h.c.bs) != {})
  }

  lemma StepKeepsTidy(h: Heap, call: Call, r: int, h': Heap)
    requires Tidy(h) && Enabled(h, call) && Step(h, call, r, h')
    ensures Tidy(h') && h'.lo == h.lo && h'.hi == h.hi
  {
    hide Listed, Counted, MallocEffect, FreeEffect, Merged;
    match call
    case Malloc(size) =>
      MallocKeepsTidy(h, size, r, h');
    case Free(p) =>
      FreeKeepsTidy(h, p, h');
    case Realloc(p, size) =>
      ReallocKeepsTidy(h, p, size, r, h');
    case Write(p) =>
      StoreSafe(h, IndexOf(h.c.bs, p), h'.m);
  }

  lemma MallocKeepsTidy(h: Heap, size: Word, r: int, h': Heap)
    requires Tidy(h) && MallocEffect(h, size, r, h')
    ensures Tidy(h') && h'.lo == h.lo && h'.hi == h.hi
  {
    MallocStep(h, size, r, h');
  }

  lemma FreeKeepsTidy(h: Heap, p: Word, h': Heap)
    requires Tidy(h) && (p == 0 || IsLive(h.c.bs, p)) && FreeEffect(h, p, h')
    ensures Tidy(h') && h'.lo == h.lo && h'.hi == h.hi
  {
    FreeStep(h, p, h');
  }

  lemma ReallocKeepsTidy(h: Heap, p: Word, size: Word, r: int, h': Heap)
    requires Tidy(h) && (p == 0 || IsLive(h.c.bs, p)) && ReallocEffect(h, p, size, r, h')
    ensures Tidy(h') && h'.lo == h.lo && h'.hi == h.hi
  {
    if p == 0 {
      MallocKeepsTidy(h, size, r, h');
    } else if size == 0 {
      FreeKeepsTidy(h, p, h');
    } else {
      ReallocStep(h, p, size, r, h');
      assert r != 0 ==> BlockAt(h'.c.bs, r) in Live(h'.c.bs);
    }
  }

  /** Every run from init keeps the list an exact tiling, the counters equal to its sums and
      counts, and no word of the heap unaccounted for; with nothing allocated the heap is one
      free block again. */
  lemma {:induction false} RunKeepsHeap(hs: seq<Heap>, calls: seq<Call>, rs: seq<int>)
    requires Run(hs, calls, rs) && Initial(hs[0])
    ensures var h := hs[|calls|];
            && Valid(h) && h.lo == hs[0].lo && h.hi == hs[0].hi
            && h.c.freeMem + h.c.allocMem + 8 * (h.c.freeBlocks + h.c.allocBlocks) == 4 * (h.hi - h.lo)
            && (h.c.allocBlocks == 0 ==> h.c == hs[0].c)
  {
    RunKeepsTidy(hs, calls, rs);
    var h := hs[|calls|];
    CountersFit(h);
    LiveCountZero(h.c.bs);
    if h.c.allocBlocks == 0 { MergedAndEmpty(h.c.bs, h.lo, h.hi); TallySingle(h.c.bs[0]); }
  }

  lemma {:induction false} RunKeepsTidy(hs: seq<Heap>, calls: seq<Call>, rs: seq<int>)
    requires Run(hs, calls, rs) && Tidy(hs[0])
    ensures Tidy(hs[|calls|]) && hs[|calls|].lo == hs[0].lo && hs[|calls|].hi == hs[0].hi
    decreases |calls|
  {
    if calls != [] {
      var n := |calls| - 1;
      RunKeepsTidy(hs[..n + 1], calls[..n], rs[..n]);
      StepKeepsTidy(hs[n], calls[n], rs[n], hs[n + 1]);
    }
  }

  /** The pointer a call is given. */
  function Given(call: Call): int {
    match call
    case Malloc(_) => 0
    case Free(p) => p
    case Realloc(p, _) => p
    case Write(p) => p
  }

  lemma StepSparesOthers(h: Heap, call: Call, r: int, h': Heap, b: Block)
    requires Tidy(h) && Enabled(h, call) && Step(h, call, r, h')
    requires b in Live(h.c.bs) && Given(call) != b.Ptr() && b.End() <= |h.m|
    ensures b in Live(h'.c.bs) && Payload(h'.m, b, h.m[b.at + 2..b.End()])
    ensures |h'.m| == |h.m|
    ensures forall k :: 0 <= k < |h.m| && !(h.lo <= k < h.hi) ==> h'.m[k] == h.m[k]
  {
    match call
    case Malloc(size) =>
      MallocStep(h, size, r, h');
    case Free(p) =>
      FreeStep(h, p, h');
    case Realloc(p, size) =>
      if p == 0 {
        MallocStep(h, size, r, h');
      } else if size == 0 {
        FreeStep(h, p, h');
      } else {
        ReallocStep(h, p, size, r, h');
      }
    case Write(p) =>
      StoreSafe(h, IndexOf(h.c.bs, p), h'.m);
  }

  /** Over any run, a block that no call is given stays allocated with every payload word intact,
      and no call ever writes outside the heap. */
  lemma {:induction false} RunSparesOthers(hs: seq<Heap>, calls: seq<Call>, rs: seq<int>, b: Block)
    requires Run(hs, calls, rs) && Tidy(hs[0])
    requires b in Live(hs[0].c.bs) && b.End() <= |hs[0].m|
    requires forall i :: 0 <= i < |calls| ==> Given(calls[i]) != b.Ptr()
    ensures var h, h' := hs[0], hs[|calls|];
            && b in Live(h'.c.bs) && Payload(h'.m, b, h.m[b.at + 2..b.End()])
            && |h'.m| == |h.m|
            && forall k :: 0 <= k < |h.m| && !(h.lo <= k < h.hi) ==> h'.m[k] == h.m[k]
    decreases |calls|
  {
    if calls != [] {
      var n := |calls| - 1;
      RunSparesOthers(hs[..n + 1], calls[..n], rs[..n], b);
      RunKeepsTidy(hs[..n + 1], calls[..n], rs[..n]);
      StepSparesOthers(hs[n], calls[n], rs[n], hs[n + 1], b);
    }
  }
}
