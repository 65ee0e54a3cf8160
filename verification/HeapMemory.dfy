/** Header writes share memory with the payloads: which list they encode, and what they spare. */
module HeapMemory {
  import opened Machine
  import opened Blocks
  import opened Heaps
  import opened HeapLists

  /** Memory after a split of block b at w words: a new free header inside the payload, then the
      link and the size of the front part. */
  function SplitWrites(m: seq<Word>, b: Block, w: nat, next: Word): (m': seq<Word>)
    requires w + 3 <= b.words && b.End() <= |m| < 0x4000_0000
    ensures |m'| == |m|
  {
    m[b.at + 2 + w := 4 * (b.words - w - 2) + 1]
     [b.at + 3 + w := next]
     [b.at + 1 := 4 * (b.at + 2 + w)]
     [b.at := 4 * w]
  }

  lemma SpliceAt(bs: seq<Block>, i: nat, mid: seq<Block>, k: nat)
    requires i < |bs| && k < |bs| + |mid| - 1
    ensures Splice(bs, i, mid)[k] ==
            if k < i then bs[k] else if k < i + |mid| then mid[k - i] else bs[k + 1 - |mid|]
  {
  }

  ghost predicate Apart(bs: seq<Block>, i: nat, j: nat)
    requires i < |bs| && j < |bs|
  {
    j == i || bs[j].End() <= bs[i].at || bs[i].End() <= bs[j].at
  }

  lemma SplitHeader(m: seq<Word>, bs: seq<Block>, i: nat, w: nat, k: nat)
    requires i < |bs| && w + 3 <= bs[i].words && bs[i].End() <= |m| < 0x4000_0000
    requires k < |bs| + 1 && Header(m, bs, i)
    requires var j := if k <= i then k else k - 1; Header(m, bs, j) && Apart(bs, i, j)
    ensures Header(SplitWrites(m, bs[i], w, m[bs[i].at + 1]), Splice(bs, i, Carve(bs[i], w)), k)
  {
    var cut := Carve(bs[i], w);
    SpliceAt(bs, i, cut, k);
    if k + 1 < |bs| + 1 { SpliceAt(bs, i, cut, k + 1); }
    if k < i {
      assert Splice(bs, i, cut)[k] == bs[k];
    } else if k > i + 1 {
      assert Splice(bs, i, cut)[k] == bs[k - 1];
    }
  }

  lemma SplitEncodes(m: seq<Word>, bs: seq<Block>, i: nat, w: nat)
    requires Encoded(m, bs) && InOrder(bs) && |m| < 0x4000_0000
    requires i < |bs| && w + 3 <= bs[i].words && bs[i].End() <= |m|
    ensures Encoded(SplitWrites(m, bs[i], w, m[bs[i].at + 1]), Splice(bs, i, Carve(bs[i], w)))
  {
    var m' := SplitWrites(m, bs[i], w, m[bs[i].at + 1]);
    var r := Splice(bs, i, Carve(bs[i], w));
    forall k | 0 <= k < |r| ensures Header(m', r, k) {
      assert Header(m, bs, i) && Header(m, bs, if k <= i then k else k - 1);
      SplitHeader(m, bs, i, w, k);
    }
  }

  lemma SplitSpares(h: Heap, i: nat, w: nat)
    requires Listed(h) && i < |h.c.bs| && w + 3 <= h.c.bs[i].words
    requires h.c.bs[i].End() <= |h.m| < 0x4000_0000
    ensures var b := h.c.bs[i];
            Untouched(h, Live(h.c.bs) - {b}, SplitWrites(h.m, b, w, h.m[b.at + 1]))
  {
    hide Listed, Untouched, Live;
    SparesOthers(h, i, SplitWrites(h.m, h.c.bs[i], w, h.m[h.c.bs[i].at + 1]));
  }

  lemma SplitKeepsFront(m: seq<Word>, b: Block, w: nat)
    requires w + 3 <= b.words && b.End() <= |m| < 0x4000_0000
    ensures var m' := SplitWrites(m, b, w, m[b.at + 1]);
            m'[b.at + 2..b.at + 2 + w] == m[b.at + 2..b.at + 2 + w]
  {
  }

  /** Writes confined to one block leave everything else alone. */
  lemma SparesOthers(h: Heap, i: nat, m': seq<Word>)
    requires Listed(h) && i < |h.c.bs| && |m'| == |h.m|
    requires forall k :: 0 <= k < |h.m| && !(h.c.bs[i].at <= k < h.c.bs[i].End()) ==> m'[k] == h.m[k]
    ensures Untouched(h, Live(h.c.bs) - {h.c.bs[i]}, m')
  {
    ValidBounds(h);
    forall b | b in Live(h.c.bs) - {h.c.bs[i]}
      ensures b.End() <= |h.m| && Payload(m', b, h.m[b.at + 2..b.End()])
    {
      var j :| 0 <= j < |h.c.bs| && h.c.bs[j] == b;
      assert j != i;
    }
  }

  lemma FlagHeader(m: seq<Word>, bs: seq<Block>, i: nat, free: bool, k: nat)
    requires i < |bs| && bs[i].End() <= |m| < 0x4000_0000
    requires k < |bs| && Header(m, bs, k) && Apart(bs, i, k)
    ensures Header(m[bs[i].at := 4 * bs[i].words + (if free then 1 else 0)],
                   Splice(bs, i, [bs[i].(free := free)]), k)
  {
    var flagged := [bs[i].(free := free)];
    SpliceAt(bs, i, flagged, k);
    if k + 1 < |bs| { SpliceAt(bs, i, flagged, k + 1); }
  }

  /** Rewriting the size word of block i with another flag re-encodes the list with that flag. */
  lemma FlagEncodes(m: seq<Word>, bs: seq<Block>, i: nat, free: bool)
    requires Encoded(m, bs) && InOrder(bs) && |m| < 0x4000_0000
    requires i < |bs| && bs[i].End() <= |m|
    ensures Encoded(m[bs[i].at := 4 * bs[i].words + (if free then 1 else 0)],
                    Splice(bs, i, [bs[i].(free := free)]))
  {
    var m' := m[bs[i].at := 4 * bs[i].words + (if free then 1 else 0)];
    var r := Splice(bs, i, [bs[i].(free := free)]);
    forall k | 0 <= k < |r| ensures Header(m', r, k) {
      assert Header(m, bs, k);
      FlagHeader(m, bs, i, free, k);
    }
  }

  lemma FlagSpares(h: Heap, i: nat, v: Word)
    requires Listed(h) && i < |h.c.bs| && h.c.bs[i].End() <= |h.m|
    ensures Untouched(h, Live(h.c.bs), h.m[h.c.bs[i].at := v])
  {
    var b := h.c.bs[i];
    var m' := h.m[b.at := v];
    SparesOthers(h, i, m');
    assert m'[b.at + 2..b.End()] == h.m[b.at + 2..b.End()];
  }

  // ---------- granting ----------

  function GrantWrites(m: seq<Word>, b: Block, w: nat): (m': seq<Word>)
    requires w <= b.words && b.End() <= |m| < 0x4000_0000
    ensures |m'| == |m|
  {
    if b.words >= w + 3 then SplitWrites(m, b, w, m[b.at + 1])
    else m[b.at := 4 * b.words]
  }

  lemma GrantEncodes(h: Heap, i: nat, w: nat)
    requires Valid(h) && i < |h.c.bs| && Fits(h.c.bs[i], w) && h.c.bs[i].End() <= |h.m|
    ensures Encoded(GrantWrites(h.m, h.c.bs[i], w), Splice(h.c.bs, i, Carve(h.c.bs[i], w)))
  {
    ValidBounds(h);
    if h.c.bs[i].words >= w + 3 {
      SplitEncodes(h.m, h.c.bs, i, w);
    } else {
      FlagEncodes(h.m, h.c.bs, i, false);
    }
  }

  lemma GrantSpares(h: Heap, i: nat, w: nat)
    requires Valid(h) && i < |h.c.bs| && Fits(h.c.bs[i], w) && h.c.bs[i].End() <= |h.m|
    ensures Untouched(h, Live(h.c.bs), GrantWrites(h.m, h.c.bs[i], w))
  {
    if h.c.bs[i].words >= w + 3 {
      SplitSpares(h, i, w);
    } else {
      FlagSpares(h, i, 4 * h.c.bs[i].words);
    }
    assert h.c.bs[i] !in Live(h.c.bs);
  }

  /** Taking w words from block i keeps the heap valid and every held payload intact. */
  lemma GrantSafe(h: Heap, i: nat, w: nat, h': Heap)
    requires Valid(h) && i < |h.c.bs| && Fits(h.c.bs[i], w) && h.c.bs[i].End() <= |h.m|
    requires h' == h.(m := GrantWrites(h.m, h.c.bs[i], w), c := Grant(h.c, i, w))
    ensures Valid(h') && CountersInRange(h'.c)
    ensures Untouched(h, Live(h.c.bs), h'.m)
  {
    GrantEncodes(h, i, w);
    GrantSpares(h, i, w);
    GrantSound(h.c, h.lo, h.hi, i, w);
    CountersFit(h');
  }

  lemma GrantIsStep(h: Heap, size: Word, i: nat, h': Heap)
    requires Valid(h) && 0 < size <= 4 * (h.hi - h.lo)
    requires i == FirstFit(h.c.bs, WordsFor(size)) && i < |h.c.bs| && h.c.bs[i].End() <= |h.m|
    requires h' == h.(m := GrantWrites(h.m, h.c.bs[i], WordsFor(size)), c := Grant(h.c, i, WordsFor(size)))
    ensures Valid(h') && CountersInRange(h'.c)
    ensures MallocEffect(h, size, h.c.bs[i].Ptr(), h')
  {
    GrantSafe(h, i, WordsFor(size), h');
  }

  // ---------- coalescing ----------

  function MergeWrites(m: seq<Word>, bs: seq<Block>, i: nat): (m': seq<Word>)
    requires i + 1 < |bs| && bs[i].End() == bs[i + 1].at && bs[i + 1].End() <= |m| < 0x4000_0000
    ensures |m'| == |m|
  {
    m[bs[i].at := 4 * (bs[i].words + 2 + bs[i + 1].words) + 1]
     [bs[i].at + 1 := m[bs[i + 1].at + 1]]
  }

  lemma MergeHeader(m: seq<Word>, bs: seq<Block>, i: nat, k: nat)
    requires i + 1 < |bs| && bs[i].End() == bs[i + 1].at && bs[i + 1].End() <= |m| < 0x4000_0000
    requires k + 1 < |bs| && Header(m, bs, i + 1)
    requires var j := if k <= i then k else k + 1; Header(m, bs, j) && Apart(bs, i, j)
    ensures Header(MergeWrites(m, bs, i), MergeAt(bs, i), k)
  {
    var r := MergeAt(bs, i);
    assert r[k] == if k < i then bs[k] else if k == i then Join(bs[i], bs[i + 1]) else bs[k + 1];
    if k + 1 < |r| {
      assert r[k + 1] == if k + 1 < i then bs[k + 1]
                         else if k + 1 == i then Join(bs[i], bs[i + 1]) else bs[k + 2];
    }
  }

  lemma MergeEncodes(m: seq<Word>, bs: seq<Block>, i: nat)
    requires Encoded(m, bs) && InOrder(bs) && |m| < 0x4000_0000
    requires i + 1 < |bs| && bs[i].End() == bs[i + 1].at && bs[i + 1].End() <= |m|
    ensures Encoded(MergeWrites(m, bs, i), MergeAt(bs, i))
  {
    var m' := MergeWrites(m, bs, i);
    var r := MergeAt(bs, i);
    forall k | 0 <= k < |r| ensures Header(m', r, k) {
      assert Header(m, bs, i + 1) && Header(m, bs, if k <= i then k else k + 1);
      MergeHeader(m, bs, i, k);
    }
  }

  lemma MergeSpares(h: Heap, i: nat)
    requires Listed(h) && i + 1 < |h.c.bs| && h.c.bs[i].free
    requires h.c.bs[i].End() == h.c.bs[i + 1].at && h.c.bs[i + 1].End() <= |h.m|
    ensures Untouched(h, Live(h.c.bs), MergeWrites(h.m, h.c.bs, i))
  {
    SparesOthers(h, i, MergeWrites(h.m, h.c.bs, i));
    assert h.c.bs[i] !in Live(h.c.bs);
  }

  function Absorbed(c: Control, j: nat): Control
    requires j + 1 < |c.bs|
  {
    c.(bs := MergeAt(c.bs, j), freeMem := Wrap(c.freeMem + 8), freeBlocks := Wrap(c.freeBlocks - 1))
  }

  lemma MergeSafe(h: Heap, i: nat, h': Heap)
    requires Listed(h) && i + 1 < |h.c.bs| && h.c.bs[i].free && h.c.bs[i + 1].free
    requires h.c.bs[i].End() == h.c.bs[i + 1].at && h.c.bs[i + 1].End() <= |h.m|
    requires h' == h.(m := MergeWrites(h.m, h.c.bs, i), c := Absorbed(h.c, i))
    ensures Listed(h')
    ensures Untouched(h, Live(h.c.bs), h'.m) && Live(h'.c.bs) == Live(h.c.bs)
  {
    ValidBounds(h);
    MergeEncodes(h.m, h.c.bs, i);
    MergeSpares(h, i);
    MergeAtTiles(h.c.bs, h.lo, h.hi, i);
    MergeAtTally(h.c.bs, i);
  }

  lemma UntouchedTrans(h: Heap, h1: Heap, keep: set<Block>, keep1: set<Block>, m: seq<Word>)
    requires Untouched(h, keep, h1.m) && Untouched(h1, keep1, m)
    requires keep <= keep1 && h1.lo == h.lo && h1.hi == h.hi
    ensures Untouched(h, keep, m)
  {
    forall b | b in keep ensures Payload(m, b, h.m[b.at + 2..b.End()]) {
      assert Payload(h1.m, b, h.m[b.at + 2..b.End()]);
      assert Payload(m, b, h1.m[b.at + 2..b.End()]);
    }
  }

  // ---------- the coalescing loop ----------

  /** The pass started at h stands on block j of g, and neighbours before j are already merged. */
  ghost predicate Merging(h: Heap, g: Heap, j: nat) {
    && Listed(g) && g.lo == h.lo && g.hi == h.hi && j < |g.c.bs|
    && g.c.bs[..j] + Coalesce(g.c.bs[j..]) == Coalesce(h.c.bs)
    && g.c == MergedTo(h.c, g.c.bs)
    && Live(g.c.bs) == Live(h.c.bs) && Untouched(h, Live(h.c.bs), g.m)
  }

  lemma MergingStarts(h: Heap)
    requires Listed(h) && h.c.bs != [] && CountersInRange(h.c)
    ensures Merging(h, h, 0)
  {
    SameState(h, Live(h.c.bs));
    assert h.c.bs[0..] == h.c.bs;
  }

  lemma MergingAbsorbs(h: Heap, g: Heap, j: nat, g': Heap)
    requires Merging(h, g, j) && j + 1 < |g.c.bs| && g.c.bs[j].free && g.c.bs[j + 1].free
    requires g.c.bs[j].End() == g.c.bs[j + 1].at && g.c.bs[j + 1].End() <= |g.m|
    requires g' == g.(m := MergeWrites(g.m, g.c.bs, j), c := Absorbed(g.c, j))
    ensures Merging(h, g', j)
  {
    hide Listed, Coalesce, Live, MergeWrites, Untouched, Wrap;
    MergeSafe(g, j, g');
    CoalesceMergeAt(g.c.bs, j);
    UntouchedTrans(h, g, Live(h.c.bs), Live(g.c.bs), g'.m);
    var merges := |h.c.bs| - |g.c.bs|;
    WrapAdd(h.c.freeMem + 8 * merges, 8);
    WrapAdd(h.c.freeBlocks - merges, -1);
  }

  lemma MergingListed(h: Heap, g: Heap, j: nat)
    requires Merging(h, g, j)
    ensures Listed(g) && g.lo == h.lo && g.hi == h.hi && j < |g.c.bs|
  {
  }

  lemma MergingSkips(h: Heap, g: Heap, j: nat)
    requires Merging(h, g, j) && j + 1 < |g.c.bs| && !(g.c.bs[j].free && g.c.bs[j + 1].free)
    ensures Merging(h, g, j + 1)
  {
    CoalesceSkip(g.c.bs, j);
  }

  lemma MergingEnds(h: Heap, g: Heap, j: nat)
    requires Merging(h, g, j) && j + 1 == |g.c.bs|
    ensures g.c.bs == Coalesce(h.c.bs)
  {
    assert g.c.bs[j..] == [g.c.bs[j]];
    assert g.c.bs == g.c.bs[..j] + [g.c.bs[j]];
  }

  // ---------- freeing ----------

  /** The heap once the word before p has its free flag set and its size is booked as freed. */
  function MarkedHeap(h: Heap, p: Word): Heap
    requires 8 <= p && p / 4 - 2 < |h.m|
  {
    var a := p / 4 - 2;
    h.(m := h.m[a := Pack(h.m[a], true)], c := Marked(h.c, p, SizeField(h.m[a])))
  }

  lemma ReachedInHeap(h: Heap, p: Word)
    requires Listed(h) && Reached(h.c.bs, p)
    ensures 0 <= p / 4 - 2 < |h.m| && h.c.bs != []
    ensures p == 4 * (p / 4 - 2) + 8
  {
    ValidBounds(h);
  }

  /** Setting the flag keeps the list exact, whether a header or a payload word is hit. */
  lemma MarkSafe(h: Heap, p: Word)
    requires Listed(h) && Reached(h.c.bs, p) && p / 4 - 2 < |h.m|
    ensures Listed(MarkedHeap(h, p)) && CountersInRange(MarkedHeap(h, p).c)
    ensures |Flagged(h.c.bs, p)| == |h.c.bs| > 0
  {
    hide Listed, IndexOf, SizeField, Pack, Wrap;
    var i := IndexOf(h.c.bs, p);
    if i < |h.c.bs| {
      MarkHeader(h, p, i);
    } else {
      MarkPayload(h, p / 4 - 2, MarkedHeap(h, p).c);
    }
  }

  lemma MarkPayload(h: Heap, a: nat, c: Control)
    requires Listed(h) && Inside(h.c.bs, a) && a < |h.m| && c.bs == h.c.bs
    ensures Listed(h.(m := h.m[a := Pack(h.m[a], true)], c := c)) && h.c.bs != []
  {
    ValidBounds(h);
    var b :| b in h.c.bs && b.at + 2 <= a < b.End();
    var k :| 0 <= k < |h.c.bs| && h.c.bs[k] == b;
    StoreSafe(h, k, h.m[a := Pack(h.m[a], true)]);
  }

  lemma MarkHeader(h: Heap, p: Word, i: nat)
    requires Listed(h) && 8 <= p && p / 4 - 2 < |h.m| && i == IndexOf(h.c.bs, p) < |h.c.bs|
    ensures Listed(MarkedHeap(h, p))
    ensures h.m[p / 4 - 2] == 4 * h.c.bs[i].words + (if h.c.bs[i].free then 1 else 0)
    ensures SizeField(h.m[p / 4 - 2]) == 4 * h.c.bs[i].words
  {
    var b := h.c.bs[i];
    ListAt(h, i);
    HeaderFields(b.words, b.free);
    FlagListed(h, i, MarkedHeap(h, p).c);
    hide Listed, IndexOf, Wrap;
  }

  lemma FlagListed(h: Heap, i: nat, c: Control)
    requires Listed(h) && i < |h.c.bs| && h.c.bs[i].End() <= |h.m|
    requires c.bs == Splice(h.c.bs, i, [h.c.bs[i].(free := true)])
    ensures Listed(h.(m := h.m[h.c.bs[i].at := 4 * h.c.bs[i].words + 1], c := c))
  {
    ValidBounds(h);
    FlagEncodes(h.m, h.c.bs, i, true);
    hide Encoded, Header;
    SpliceTiles(h.c.bs, h.lo, h.hi, i, [h.c.bs[i].(free := true)]);
  }

  lemma FreedIsEffect(h: Heap, p: Word, j: nat, h': Heap)
    requires 8 <= p && p / 4 - 2 < |h.m|
    requires Merging(MarkedHeap(h, p), h', j) && j + 1 == |h'.c.bs|
    ensures FreedEffect(h, p, h')
  {
    MergingEnds(MarkedHeap(h, p), h', j);
  }

  /** The counters survive exactly the frees of allocated blocks: any other moves the number of
      allocated blocks, while the list keeps as many. */
  lemma FreedCounts(h: Heap, p: Word, h': Heap)
    requires Valid(h) && Reached(h.c.bs, p) && FreedEffect(h, p, h')
    ensures Counted(h'.c) <==> IsLive(h.c.bs, p)
    ensures IsLive(h.c.bs, p) ==> FreeEffect(h, p, h')
  {
    hide Listed, Counted, FreedEffect, FreeEffect, IsLive, Reached;
    if IsLive(h.c.bs, p) {
      FreedLive(h, p, h');
    } else {
      FreedIdle(h, p, h');
    }
  }

  lemma FreedIdle(h: Heap, p: Word, h': Heap)
    requires Valid(h) && !IsLive(h.c.bs, p) && FreedEffect(h, p, h')
    ensures !Counted(h'.c)
  {
    FlagIdle(h.c.bs, p);
    CountersFit(h);
    hide Listed, Untouched, Encoded, Flagged, Coalesce, TallyOf, SizeField, Pack;
    CoalesceTally(h.c.bs);
  }

  lemma FlagIdle(bs: seq<Block>, p: Word)
    requires !IsLive(bs, p)
    ensures Flagged(bs, p) == bs
  {
  }

  /** On an allocated block of a sound heap nothing wraps: it is given back as specified. */
  lemma FreedLive(h: Heap, p: Word, h': Heap)
    requires Valid(h) && IsLive(h.c.bs, p) && FreedEffect(h, p, h')
    ensures FreeEffect(h, p, h') && Valid(h')
  {
    hide Tiles, Coalesce, Untouched, Encoded, Release, Freed, IndexOf, Counted, Pack, SizeField;
    var i := IndexOf(h.c.bs, p);
    MarkHeader(h, p, i);
    ListAt(h, i);
    ReleaseSound(h.c, h.lo, h.hi, i);
    ReleaseFits(h, i);
    FreedIsRelease(h.c, p, h.m[p / 4 - 2]);
    FreedSpares(h, i, Pack(h.m[p / 4 - 2], true), Live(h'.c.bs), h'.m);
  }

  lemma FreedSpares(h: Heap, i: nat, v: Word, keep: set<Block>, m': seq<Word>)
    requires Listed(h) && i < |h.c.bs| && h.c.bs[i].End() <= |h.m| && keep <= Live(h.c.bs)
    requires Untouched(h.(m := h.m[h.c.bs[i].at := v]), keep, m')
    ensures Untouched(h, keep, m') && |m'| == |h.m|
  {
    FlagSpares(h, i, v);
    hide Listed, Live;
    UntouchedTrans(h, h.(m := h.m[h.c.bs[i].at := v]), keep, keep, m');
  }

  lemma ReleaseFits(h: Heap, i: nat)
    requires Valid(h) && i < |h.c.bs| && Sound(Release(h.c, i), h.lo, h.hi) && h.lo != 0
    ensures CountersInRange(Release(h.c, i))
  {
    Conservation(Release(h.c, i).bs, h.lo, h.hi);
  }

  lemma FreedIsRelease(c: Control, p: Word, word: Word)
    requires IndexOf(c.bs, p) < |c.bs| && SizeField(word) == 4 * c.bs[IndexOf(c.bs, p)].words
    requires CountersInRange(Release(c, IndexOf(c.bs, p)))
    ensures Freed(c, p, word) == Release(c, IndexOf(c.bs, p))
  {
    hide Coalesce, IndexOf, Wrap, SizeField;
    var r := Release(c, IndexOf(c.bs, p));
    var merges := |c.bs| - |r.bs|;
    WrapAdd(c.freeMem + SizeField(word), 8 * merges);
    WrapAdd(c.freeBlocks + 1, -merges);
    WrapAdd(r.freeMem, 0);
    WrapAdd(r.freeBlocks, 0);
    WrapAdd(r.allocMem, 0);
    WrapAdd(r.allocBlocks, 0);
  }

  lemma FreeNull(h: Heap)
    requires Listed(h)
    ensures FreeEffect(h, 0, h)
  {
    SameState(h, Live(h.c.bs));
  }

  // ---------- resizing ----------

  /** Writes inside one payload keep the list, and every other payload. */
  lemma StoreSafe(h: Heap, i: nat, m': seq<Word>)
    requires Listed(h) && i < |h.c.bs| && |m'| == |h.m|
    requires forall k :: 0 <= k < |h.m| && !(h.c.bs[i].at + 2 <= k < h.c.bs[i].End()) ==> m'[k] == h.m[k]
    ensures Listed(h.(m := m')) && (Valid(h) ==> Valid(h.(m := m')))
    ensures Framed(h, Live(h.c.bs) - {h.c.bs[i]}, h.(m := m'))
  {
    ValidBounds(h);
    forall k | 0 <= k < |h.c.bs| ensures Header(m', h.c.bs, k) {
      assert Header(h.m, h.c.bs, k);
      assert Apart(h.c.bs, i, k);
    }
    SparesOthers(h, i, m');
  }

  lemma ShrinkSafe(h: Heap, i: nat, w: nat, h': Heap)
    requires Valid(h) && i < |h.c.bs| && !h.c.bs[i].free && h.c.bs[i].End() <= |h.m|
    requires w + 3 <= h.c.bs[i].words
    requires h' == h.(m := SplitWrites(h.m, h.c.bs[i], w, h.m[h.c.bs[i].at + 1]), c := Shrink(h.c, i, w))
    ensures Valid(h') && CountersInRange(h'.c)
    ensures Framed(h, Live(h.c.bs) - {h.c.bs[i]}, h')
    ensures Carve(h.c.bs[i], w)[0] in Live(h'.c.bs)
  {
    assert h'.c.bs == Splice(h.c.bs, i, Carve(h.c.bs[i], w));
    hide SplitWrites, Encoded, Shrink, Splice, Carve, Untouched, Valid, Sound, Live;
    ShrinkIsSplit(h.c, i, w);
    SoundList(h);
    ShrinkSound(h.c, h.lo, h.hi, i, w);
    ShrinkEncodes(h, i, w);
    SoundIsValid(h, h');
    CountersFit(h');
  }

  lemma ShrinkIsSplit(c: Control, i: nat, w: nat)
    requires i < |c.bs| && w + 3 <= c.bs[i].words
    ensures Shrink(c, i, w).bs == Splice(c.bs, i, Carve(c.bs[i], w))
  {
  }

  lemma ShrinkEncodes(h: Heap, i: nat, w: nat)
    requires Valid(h) && i < |h.c.bs| && h.c.bs[i].End() <= |h.m| < 0x4000_0000 && w + 3 <= h.c.bs[i].words
    ensures var m' := SplitWrites(h.m, h.c.bs[i], w, h.m[h.c.bs[i].at + 1]);
            && Encoded(m', Splice(h.c.bs, i, Carve(h.c.bs[i], w)))
            && Untouched(h, Live(h.c.bs) - {h.c.bs[i]}, m')
  {
    hide SplitWrites, Splice, Carve, Untouched, Valid, Listed, Encoded, InOrder, Live;
    ValidIsListed(h);
    ListedParts(h);
    SplitSpares(h, i, w);
    SplitEncodes(h.m, h.c.bs, i, w);
  }

  lemma ListedParts(h: Heap)
    requires Listed(h)
    ensures Encoded(h.m, h.c.bs) && InOrder(h.c.bs)
  {
    ValidBounds(h);
  }

  lemma ShrinkIsEffect(h: Heap, i: nat, size: Word, w: nat, h': Heap)
    requires Valid(h) && i < |h.c.bs| && !h.c.bs[i].free && h.c.bs[i].End() <= |h.m|
    requires size != 0 && WordsFor(size) == w && w + 3 <= h.c.bs[i].words
    requires h' == h.(m := SplitWrites(h.m, h.c.bs[i], w, h.m[h.c.bs[i].at + 1]), c := Shrink(h.c, i, w))
    requires i == IndexOf(h.c.bs, h.c.bs[i].Ptr()) && 4 * h.c.bs[i].at + 8 < WORD_LIMIT
    ensures Valid(h') && CountersInRange(h'.c)
    ensures ReallocEffect(h, h.c.bs[i].Ptr(), size, h.c.bs[i].Ptr(), h')
  {
    hide Valid, SplitWrites, Shrink, IndexOf, Listed, Splice, Framed, Live, WordsFor, Carve, IsLive;
    hide MallocOutcome, FreeOutcome;
    var b, b' := h.c.bs[i], Carve(h.c.bs[i], w)[0];
    ValidIsListed(h);
    CarveFront(b, w);
    ShrinkSafe(h, i, w, h');
    SplitKeepsFront(h.m, b, w);
    assert Copied(h.m, b, h'.m, b', w);
    hide Copied;
    FoundIn(h', b');
    LiveAt(h, i);
  }

  lemma CarveFront(b: Block, w: nat)
    requires w + 3 <= b.words
    ensures Carve(b, w)[0] == Block(b.at, w, false)
  {
  }

  lemma LiveAt(h: Heap, i: nat)
    requires i < |h.c.bs| && !h.c.bs[i].free && i == IndexOf(h.c.bs, h.c.bs[i].Ptr())
    ensures IsLive(h.c.bs, h.c.bs[i].Ptr()) && BlockAt(h.c.bs, h.c.bs[i].Ptr()) == h.c.bs[i]
  {
  }

  lemma FoundIn(h: Heap, b: Block)
    requires Valid(h) && b in Live(h.c.bs)
    ensures IsLive(h.c.bs, b.Ptr()) && BlockAt(h.c.bs, b.Ptr()) == b
  {
    FindLive(h.c.bs, h.lo, h.hi, b);
  }

  lemma KeepIsEffect(h: Heap, i: nat, size: Word)
    requires Valid(h) && i < |h.c.bs| && !h.c.bs[i].free && h.c.bs[i].End() <= |h.m|
    requires size != 0 && WordsFor(size) <= h.c.bs[i].words < WordsFor(size) + 3
    requires i == IndexOf(h.c.bs, h.c.bs[i].Ptr()) && 4 * h.c.bs[i].at + 8 < WORD_LIMIT
    ensures ReallocEffect(h, h.c.bs[i].Ptr(), size, h.c.bs[i].Ptr(), h)
  {
    SameState(h, Live(h.c.bs) - {h.c.bs[i]});
  }

  /** Grant, copy, release. */
  ghost predicate MovedBy(h: Heap, p: Word, size: Word, r: Word, h1: Heap, h2: Heap, h3: Heap) {
    && Valid(h) && p != 0 && IsLive(h.c.bs, p) && r != 0
    && MallocEffect(h, size, r, h1)
    && IsLive(h1.c.bs, r)
    && var b, b' := BlockAt(h.c.bs, p), BlockAt(h1.c.bs, r);
    && h2.c == h1.c && Framed(h1, Live(h1.c.bs) - {b'}, h2)
    && WordsFor(size) > b.words
    && Copied(h1.m, b, h2.m, b', b.words)
    && Valid(h2) && IsLive(h2.c.bs, p) && FreeEffect(h2, p, h3)
  }

  lemma MoveIsEffect(h: Heap, p: Word, size: Word, r: Word, h1: Heap, h2: Heap, h3: Heap)
    requires MovedBy(h, p, size, r, h1, h2, h3)
    ensures size != 0 && ReallocEffect(h, p, size, r, h3)
  {
    MoveLive(h, p, size, r, h1, h3);
    hide Encoded, Tiles, TallyOf, Coalesce, IndexOf, FirstFit, Carve, Splice, Release, Grant, Valid, Live, IsLive;
    MoveFramed(h, h1, h2, h3, BlockAt(h.c.bs, p), BlockAt(h1.c.bs, r));
  }

  lemma MoveLive(h: Heap, p: Word, size: Word, r: Word, h1: Heap, h3: Heap)
    requires Valid(h) && p != 0 && IsLive(h.c.bs, p) && r != 0
    requires (h1.c, r as int) == MallocOutcome(h.c, 4 * (h.hi - h.lo), size) && h3.c == FreeOutcome(h1.c, p)
    ensures size != 0 && IsLive(h1.c.bs, r) && IsLive(h3.c.bs, r)
    ensures var b, b' := BlockAt(h.c.bs, p), BlockAt(h1.c.bs, r);
            && b in Live(h.c.bs) && b' !in Live(h.c.bs) && BlockAt(h3.c.bs, r) == b'
            && WordsFor(size) <= b'.words
            && Live(h1.c.bs) == Live(h.c.bs) + {b'} && Live(h3.c.bs) == Live(h.c.bs) - {b} + {b'}
  {
    SoundList(h);
    assert size != 0;
    hide Valid, Sound, MallocOutcome, FreeOutcome, Merged, IndexOf, WordsFor;
    MoveSound(h.c, h.lo, h.hi, 4 * (h.hi - h.lo), p, size);
    MallocFound(h.c, h.lo, h.hi, 4 * (h.hi - h.lo), size);
  }

  lemma MoveFramed(h: Heap, h1: Heap, h2: Heap, h3: Heap, b: Block, b': Block)
    requires Framed(h, Live(h.c.bs), h1) && Framed(h1, Live(h1.c.bs) - {b'}, h2)
    requires Framed(h2, Live(h3.c.bs), h3)
    requires b in Live(h.c.bs) && b' !in Live(h.c.bs) && Live(h1.c.bs) == Live(h.c.bs) + {b'}
    requires Live(h3.c.bs) == Live(h.c.bs) - {b} + {b'}
    requires Copied(h1.m, b, h2.m, b', b.words) && b.words <= b'.words
    ensures Framed(h, Live(h.c.bs) - {b}, h3)
    ensures Copied(h.m, b, h3.m, b', b.words)
  {
    hide Encoded, Live;
    UntouchedTrans(h, h1, Live(h.c.bs) - {b}, Live(h1.c.bs) - {b'}, h2.m);
    UntouchedTrans(h, h2, Live(h.c.bs) - {b}, Live(h3.c.bs), h3.m);
    assert b.End() <= |h.m| && Payload(h1.m, b, h.m[b.at + 2..b.End()]);
    assert b'.End() <= |h2.m| && Payload(h3.m, b', h2.m[b'.at + 2..b'.End()]);
    SlicesCopied(h.m, h1.m, h2.m, h3.m, b, b');
  }

  lemma SlicesCopied(m: seq<Word>, m1: seq<Word>, m2: seq<Word>, m3: seq<Word>, b: Block, b': Block)
    requires b.End() <= |m| && Payload(m1, b, m[b.at + 2..b.End()])
    requires Copied(m1, b, m2, b', b.words)
    requires b'.End() <= |m2| && Payload(m3, b', m2[b'.at + 2..b'.End()]) && b.words <= b'.words
    ensures Copied(m, b, m3, b', b.words)
  {
    SliceFront(m3, b'.at + 2, b'.words, b.words);
    SliceFront(m2, b'.at + 2, b'.words, b.words);
  }

  lemma SliceFront(s: seq<Word>, at: nat, n: nat, k: nat)
    requires k <= n && at + n <= |s|
    ensures s[at..at + k] == s[at..at + n][..k]
  {
  }

  lemma ReallocDelegates(h: Heap, p: Word, size: Word, r: Word, h': Heap)
    requires Valid(h) && (p == 0 || IsLive(h.c.bs, p))
    requires if p == 0 then MallocEffect(h, size, r, h') else size == 0 && r == 0 && FreeEffect(h, p, h')
    ensures ReallocEffect(h, p, size, r, h')
  {
  }

  lemma MoveFails(h: Heap, p: Word, size: Word, h': Heap)
    requires Valid(h) && p != 0 && IsLive(h.c.bs, p) && size != 0
    requires WordsFor(size) > BlockAt(h.c.bs, p).words && MallocEffect(h, size, 0, h')
    ensures ReallocEffect(h, p, size, 0, h')
  {
    SameState(h, Live(h.c.bs) - {BlockAt(h.c.bs, p)});
  }

  lemma MallocMakesLive(h: Heap, p: Word, size: Word, r: Word, h1: Heap)
    requires Valid(h) && p != 0 && IsLive(h.c.bs, p) && MallocEffect(h, size, r, h1) && r != 0
    requires Valid(h1)
    ensures IsLive(h1.c.bs, r) && IsLive(h1.c.bs, p) && BlockAt(h1.c.bs, p) == BlockAt(h.c.bs, p)
    ensures WordsFor(size) <= BlockAt(h1.c.bs, r).words
    ensures var b, b' := BlockAt(h.c.bs, p), BlockAt(h1.c.bs, r);
            b'.End() <= b.at || b.End() <= b'.at
  {
    SoundList(h);
    hide Valid, MallocOutcome, FreeOutcome, Framed, Sound, Merged, IndexOf;
    MallocFound(h.c, h.lo, h.hi, 4 * (h.hi - h.lo), size);
    MoveSound(h.c, h.lo, h.hi, 4 * (h.hi - h.lo), p, size);
    ValidIsListed(h1);
    BlocksApart(h1, BlockAt(h1.c.bs, p), BlockAt(h1.c.bs, r));
  }

  lemma ValidIsListed(h: Heap)
    requires Valid(h)
    ensures Listed(h) && |h.m| < 0x4000_0000
  {
  }

  lemma PayloadAt(h: Heap, p: Word)
    requires Valid(h) && IsLive(h.c.bs, p)
    ensures var b := BlockAt(h.c.bs, p); b.End() <= |h.m| < 0x4000_0000 && p == 4 * (b.at + 2)
  {
    ListAt(h, IndexOf(h.c.bs, p));
  }

  /** The copy of a growing realloc, as a step of the heap. */
  lemma CopySafe(h1: Heap, p: Word, r: Word, h2: Heap)
    requires Valid(h1) && IsLive(h1.c.bs, p) && IsLive(h1.c.bs, r)
    requires h2 == h1.(m := h2.m) && |h2.m| == |h1.m|
    requires var b, b' := BlockAt(h1.c.bs, p), BlockAt(h1.c.bs, r);
             && b.End() <= |h1.m| && b'.End() <= |h1.m| && b.words <= b'.words
             && h2.m[b'.at + 2..b'.at + 2 + b.words] == h1.m[b.at + 2..b.at + 2 + b.words]
             && forall j :: 0 <= j < |h1.m| && !(b'.at + 2 <= j < b'.at + 2 + b.words) ==> h2.m[j] == h1.m[j]
    ensures Valid(h2) && Framed(h1, Live(h1.c.bs) - {BlockAt(h1.c.bs, r)}, h2)
    ensures Copied(h1.m, BlockAt(h1.c.bs, p), h2.m, BlockAt(h1.c.bs, r), BlockAt(h1.c.bs, p).words)
  {
    StoreSafe(h1, IndexOf(h1.c.bs, r), h2.m);
  }
}
