/** The three list operations keep the tiling and the counters. */
module HeapLists {
  import opened Machine
  import opened Blocks
  import opened Heaps

  ghost predicate Sound(c: Control, lo: nat, hi: nat) {
    Counted(c) && Tiles(c.bs, lo, hi)
  }

  // ---------- the three list operations ----------

  lemma GrantSound(c: Control, lo: nat, hi: nat, i: nat, w: nat)
    requires Sound(c, lo, hi) && i < |c.bs| && Fits(c.bs[i], w)
    ensures Sound(Grant(c, i, w), lo, hi)
    ensures Live(Grant(c, i, w).bs) == Live(c.bs) + {Carve(c.bs[i], w)[0]}
  {
    var cut := Carve(c.bs[i], w);
    SpliceTiles(c.bs, lo, hi, i, cut);
    SpliceLive(c.bs, lo, hi, i, cut);
    TallySplice(c.bs, i, cut);
    CarveTally(c.bs[i], w);
    assert Live(cut) == {cut[0]};
    assert c.bs[i] !in Live(c.bs);
  }

  /** A granted block is surrounded by no new pair of free neighbours. */
  lemma GrantMerged(bs: seq<Block>, i: nat, w: nat)
    requires i < |bs| && Fits(bs[i], w) && Merged(bs)
    ensures Merged(Splice(bs, i, Carve(bs[i], w)))
  {
    var cut := Carve(bs[i], w);
    var r := Splice(bs, i, cut);
    forall k | 0 <= k < |r| - 1 ensures !(r[k].free && r[k + 1].free) {
      if k + 1 < i {
        assert r[k] == bs[k] && r[k + 1] == bs[k + 1];
      } else if k + 1 == i {
        assert r[k + 1] == cut[0];
      } else if k == i {
        assert r[k] == cut[0];
      } else if k == i + |cut| - 1 {
        assert r[k + 1] == bs[i + 1];
      } else {
        assert r[k] == bs[k - |cut| + 1] && r[k + 1] == bs[k - |cut| + 2];
      }
    }
  }

  lemma CarveTally(b: Block, w: nat)
    requires w <= b.words
    ensures var cut := Carve(b, w);
            TallyOf(cut) == if |cut| == 1 then Tally(0, b.words, 0, 1)
                            else Tally(b.words - w - 2, w, 1, 1)
  {
    var cut := Carve(b, w);
    TallySingle(cut[0]);
    if |cut| == 2 {
      TallySingle(cut[1]);
      TallyConcat([cut[0]], [cut[1]]);
      assert cut == [cut[0]] + [cut[1]];
    } else {
      assert cut == [cut[0]];
    }
  }

  lemma ShrinkSound(c: Control, lo: nat, hi: nat, i: nat, w: nat)
    requires Sound(c, lo, hi) && i < |c.bs| && !c.bs[i].free && w <= c.bs[i].words
    ensures Sound(Shrink(c, i, w), lo, hi)
    ensures Live(Shrink(c, i, w).bs) == Live(c.bs) - {c.bs[i]} + {Carve(c.bs[i], w)[0]}
  {
    var cut := Carve(c.bs[i], w);
    SpliceTiles(c.bs, lo, hi, i, cut);
    SpliceLive(c.bs, lo, hi, i, cut);
    TallySplice(c.bs, i, cut);
    CarveTally(c.bs[i], w);
    assert Live(cut) == {cut[0]};
    assert c.bs[i] in Live(c.bs);
  }

  lemma FlagSound(c: Control, lo: nat, hi: nat, i: nat)
    requires Sound(c, lo, hi) && i < |c.bs| && !c.bs[i].free
    ensures var b := c.bs[i];
            var marked := Splice(c.bs, i, [b.(free := true)]);
            && Tiles(marked, lo, hi)
            && Live(marked) == Live(c.bs) - {b}
            && TallyOf(marked).Plus(Tally(0, b.words, 0, 1)) == TallyOf(c.bs).Plus(Tally(b.words, 0, 1, 0))
  {
    var freed := [c.bs[i].(free := true)];
    SpliceTiles(c.bs, lo, hi, i, freed);
    SpliceLive(c.bs, lo, hi, i, freed);
    TallySplice(c.bs, i, freed);
    TallySingle(freed[0]);
    assert Live(freed) == {};
  }

  lemma ReleaseSound(c: Control, lo: nat, hi: nat, i: nat)
    requires Sound(c, lo, hi) && i < |c.bs| && !c.bs[i].free
    ensures Sound(Release(c, i), lo, hi)
    ensures Live(Release(c, i).bs) == Live(c.bs) - {c.bs[i]}
    ensures Merged(Release(c, i).bs)
  {
    FlagSound(c, lo, hi, i);
    var marked := Splice(c.bs, i, [c.bs[i].(free := true)]);
    CoalesceTiles(marked, lo, hi);
    CoalesceLive(marked);
    CoalesceMerged(marked);
    CoalesceTally(marked);
  }

  ghost predicate CountersInRange(c: Control) {
    && 0 <= c.freeMem < WORD_LIMIT && 0 <= c.allocMem < WORD_LIMIT
    && 0 <= c.freeBlocks < WORD_LIMIT && 0 <= c.allocBlocks < WORD_LIMIT
  }

  /** The counters never leave the range of a machine word. */
  lemma CountersFit(h: Heap)
    requires Valid(h)
    ensures CountersInRange(h.c)
    ensures 0 <= h.c.freeMem <= 4 * (h.hi - h.lo) && 0 <= h.c.allocMem <= 4 * (h.hi - h.lo)
    ensures h.c.freeMem + h.c.allocMem + 8 * (h.c.freeBlocks + h.c.allocBlocks) == 4 * (h.hi - h.lo)
    ensures 0 <= h.c.freeBlocks <= 4 * (h.hi - h.lo) && 0 <= h.c.allocBlocks <= 4 * (h.hi - h.lo)
  {
    if h.lo != 0 { Conservation(h.c.bs, h.lo, h.hi); }
  }

  /** Walking the list in memory: `head` is block 0, and the words at block i give its size, its
      flag and the address of block i + 1. */
  lemma ListStart(h: Heap)
    requires Listed(h)
    ensures 4 * h.lo == if 0 < |h.c.bs| then 4 * h.c.bs[0].at else 0
    ensures forall i :: 0 <= i < |h.c.bs| ==> h.c.bs[i].at > 0
  {
    ValidBounds(h);
  }

  lemma ListAt(h: Heap, i: nat)
    requires Listed(h) && i < |h.c.bs|
    ensures 0 < h.c.bs[i].at && h.c.bs[i].End() <= |h.m| < 0x4000_0000
    ensures var b := h.c.bs[i];
            && h.m[b.at] == 4 * b.words + (if b.free then 1 else 0)
            && h.m[b.at + 1] == (if i + 1 < |h.c.bs| then 4 * h.c.bs[i + 1].at else 0)
    ensures h.lo <= h.c.bs[i].at && h.c.bs[i].End() <= h.hi
    ensures i + 1 < |h.c.bs| ==> h.c.bs[i + 1].at == h.c.bs[i].End()
  {
    ValidBounds(h);
    assert Header(h.m, h.c.bs, i);
  }

  lemma BlocksApart(h: Heap, b: Block, b': Block)
    requires Listed(h) && b in h.c.bs && b' in h.c.bs && b != b'
    ensures b.End() <= b'.at || b'.End() <= b.at
    ensures h.lo <= b.at && b.End() <= h.hi <= |h.m|
  {
    ValidBounds(h);
  }

  lemma SoundList(h: Heap)
    requires Valid(h) && h.c.bs != []
    ensures Sound(h.c, h.lo, h.hi) && 0 < h.lo
  {
  }

  lemma SoundIsValid(h: Heap, h': Heap)
    requires Valid(h) && h.lo != 0 && Sound(h'.c, h.lo, h.hi)
    requires h'.lo == h.lo && h'.hi == h.hi && Encoded(h'.m, h'.c.bs) && |h'.m| == |h.m|
    ensures Valid(h')
  {
  }

  lemma SumsFit(h: Heap)
    requires Listed(h) && h.lo != 0
    ensures TallyOf(h.c.bs).freeWords + TallyOf(h.c.bs).liveWords <= h.hi - h.lo
    ensures h.hi <= |h.m| < 0x4000_0000
  {
    Conservation(h.c.bs, h.lo, h.hi);
  }

  lemma SameState(h: Heap, keep: set<Block>)
    requires Listed(h) && keep <= Live(h.c.bs)
    ensures Framed(h, keep, h)
  {
    ValidBounds(h);
    forall b | b in keep ensures b.End() <= |h.m| {
      var i :| 0 <= i < |h.c.bs| && h.c.bs[i] == b;
    }
  }

  // ---------- one step ----------

  lemma MallocFound(c: Control, lo: nat, hi: nat, cap: int, size: Word)
    requires Sound(c, lo, hi)
    ensures var (c1, r) := MallocOutcome(c, cap, size);
            r != 0 ==>
              && Sound(c1, lo, hi) && IsLive(c1.bs, r)
              && c1.bs[IndexOf(c1.bs, r)] !in Live(c.bs)
              && WordsFor(size) <= c1.bs[IndexOf(c1.bs, r)].words
              && Live(c1.bs) == Live(c.bs) + {c1.bs[IndexOf(c1.bs, r)]}
  {
    var w := WordsFor(size);
    var k := FirstFit(c.bs, w);
    if size != 0 && size <= cap && k < |c.bs| {
      var granted := Carve(c.bs[k], w)[0];
      GrantSound(c, lo, hi, k, w);
      FindLive(Grant(c, k, w).bs, lo, hi, granted);
      InBounds(c.bs, lo, hi);
      assert granted !in Live(c.bs);
    }
  }

  lemma ReleaseFound(c: Control, lo: nat, hi: nat, p: Word, other: Block)
    requires Sound(c, lo, hi) && p != 0 && IsLive(c.bs, p)
    requires other in Live(c.bs) && other != c.bs[IndexOf(c.bs, p)]
    ensures var c' := FreeOutcome(c, p);
            && Sound(c', lo, hi) && Merged(c'.bs)
            && IsLive(c'.bs, other.Ptr()) && c'.bs[IndexOf(c'.bs, other.Ptr())] == other
            && Live(c'.bs) == Live(c.bs) - {c.bs[IndexOf(c.bs, p)]}
  {
    ReleaseSound(c, lo, hi, IndexOf(c.bs, p));
    FindLive(FreeOutcome(c, p).bs, lo, hi, other);
  }

  /** A growing realloc: grant elsewhere, then release the old block. */
  lemma MoveSound(c: Control, lo: nat, hi: nat, cap: int, p: Word, size: Word)
    requires Sound(c, lo, hi) && p != 0 && IsLive(c.bs, p)
    ensures var (c1, r) := MallocOutcome(c, cap, size);
            var was, c2 := c.bs[IndexOf(c.bs, p)], FreeOutcome(c1, p);
            r != 0 ==>
              && IsLive(c1.bs, p) && c1.bs[IndexOf(c1.bs, p)] == was
              && IsLive(c1.bs, r) && c1.bs[IndexOf(c1.bs, r)] != was
              && Sound(c2, lo, hi) && Merged(c2.bs)
              && IsLive(c2.bs, r) && c2.bs[IndexOf(c2.bs, r)] == c1.bs[IndexOf(c1.bs, r)]
              && Live(c2.bs) == Live(c.bs) - {was} + {c2.bs[IndexOf(c2.bs, r)]}
  {
    var was := c.bs[IndexOf(c.bs, p)];
    var (c1, r) := MallocOutcome(c, cap, size);
    MallocFound(c, lo, hi, cap, size);
    if r != 0 {
      assert was in Live(c.bs);
      FindLive(c1.bs, lo, hi, was);
      ReleaseFound(c1, lo, hi, p, c1.bs[IndexOf(c1.bs, r)]);
    }
  }
}
