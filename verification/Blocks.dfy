/** Block lists of the heap, in units of words: where each block starts, how many payload words
    follow its two-word header, and whether it is free. */
module Blocks {

  datatype Block = Block(at: nat, words: nat, free: bool) {
    function End(): nat { at + 2 + words }

    /** The byte address handed to the caller: just past the header. */
    function Ptr(): nat { 4 * at + 8 }
  }

  /** The blocks cover [lo, hi) exactly: each one starts where its predecessor ends. */
  ghost predicate Tiles(bs: seq<Block>, lo: nat, hi: nat) {
    && bs != []
    && bs[0].at == lo
    && bs[|bs| - 1].End() == hi
    && forall i :: 0 <= i < |bs| - 1 ==> bs[i].End() == bs[i + 1].at
  }

  /** No two neighbours are both free. */
  ghost predicate Merged(bs: seq<Block>) {
    forall i :: 0 <= i < |bs| - 1 ==> !(bs[i].free && bs[i + 1].free)
  }

  /** The allocated blocks, as a set. */
  ghost function Live(bs: seq<Block>): set<Block> {
    set b | b in bs && !b.free
  }

  /** `bs` with block `i` replaced by the blocks `mid`. */
  function Splice(bs: seq<Block>, i: nat, mid: seq<Block>): seq<Block>
    requires i < |bs|
  {
    bs[..i] + mid + bs[i + 1..]
  }

  // ---------- choosing and carving ----------

  predicate Fits(b: Block, w: nat) {
    b.free && b.words >= w
  }

  /** What is left of a block once its first `w` words are granted: a free remainder is split off
      only if it can hold a header and at least one word. */
  function Carve(b: Block, w: nat): (r: seq<Block>)
    requires w <= b.words
    ensures Tiles(r, b.at, b.End())
    ensures !r[0].free && w <= r[0].words <= w + 2
    ensures |r| == 1 <==> b.words < w + 3
    ensures |r| == 2 ==> r[0].words == w && r[1].free && r[1].words >= 1
  {
    if b.words >= w + 3 then
      [Block(b.at, w, false), Block(b.at + 2 + w, b.words - w - 2, true)]
    else
      [Block(b.at, b.words, false)]
  }

  /** The index of the first free block with at least `w` words, or |bs|. */
  function FirstFit(bs: seq<Block>, w: nat): (r: nat)
    ensures r <= |bs|
    ensures r < |bs| ==> Fits(bs[r], w)
    ensures forall k :: 0 <= k < r ==> !Fits(bs[k], w)
  {
    if bs == [] then 0
    else if Fits(bs[0], w) then 0
    else
      var tail := bs[1..];
      assert forall k :: 0 < k < |bs| ==> bs[k] == tail[k - 1];
      1 + FirstFit(tail, w)
  }

  lemma FirstFitUnique(bs: seq<Block>, w: nat, r: nat)
    requires r <= |bs|
    requires r < |bs| ==> Fits(bs[r], w)
    requires forall k :: 0 <= k < r ==> !Fits(bs[k], w)
    ensures r == FirstFit(bs, w)
  {
  }

  // ---------- order and disjointness ----------

  lemma {:induction false} Ordered(bs: seq<Block>, lo: nat, hi: nat, i: nat, j: nat)
    requires Tiles(bs, lo, hi) && i < j < |bs|
    ensures bs[i].End() <= bs[j].at
    decreases j
  {
    if i + 1 < j { Ordered(bs, lo, hi, i, j - 1); }
  }

  ghost predicate InOrder(bs: seq<Block>) {
    forall i, j :: 0 <= i < j < |bs| ==> bs[i].End() <= bs[j].at
  }

  lemma InBounds(bs: seq<Block>, lo: nat, hi: nat)
    requires Tiles(bs, lo, hi)
    ensures forall i :: 0 <= i < |bs| ==> lo <= bs[i].at < bs[i].End() <= hi
    ensures InOrder(bs)
  {
    forall i, j | 0 <= i < j < |bs| ensures bs[i].End() <= bs[j].at { Ordered(bs, lo, hi, i, j); }
    forall i | 0 <= i < |bs| ensures lo <= bs[i].at < bs[i].End() <= hi {
      if i > 0 { Ordered(bs, lo, hi, 0, i); }
      if i < |bs| - 1 { Ordered(bs, lo, hi, i, |bs| - 1); }
    }
  }

  lemma {:induction false} SpliceTiles(bs: seq<Block>, lo: nat, hi: nat, i: nat, mid: seq<Block>)
    requires Tiles(bs, lo, hi) && i < |bs|
    requires Tiles(mid, bs[i].at, bs[i].End())
    ensures Tiles(Splice(bs, i, mid), lo, hi)
  {
    var r := Splice(bs, i, mid);
    forall k | 0 <= k < |r| - 1 ensures r[k].End() == r[k + 1].at {
      if k < i {
        assert r[k] == bs[k];
      } else if k < i + |mid| {
        assert r[k] == mid[k - i];
      } else {
        assert r[k] == bs[k - |mid| + 1];
      }
      if k + 1 < i {
        assert r[k + 1] == bs[k + 1];
      } else if k + 1 < i + |mid| {
        assert r[k + 1] == mid[k + 1 - i];
      } else {
        assert r[k + 1] == bs[k + 1 - |mid| + 1];
      }
    }
  }

  lemma SpliceMembers(bs: seq<Block>, i: nat, mid: seq<Block>)
    requires i < |bs|
    ensures forall b :: b in Splice(bs, i, mid) <==> b in bs[..i] || b in mid || b in bs[i + 1..]
    ensures forall b :: b in bs <==> b in bs[..i] || b == bs[i] || b in bs[i + 1..]
  {
    assert bs == bs[..i] + [bs[i]] + bs[i + 1..];
  }

  /** Replacing a block changes the live set by that block's own contribution only. */
  lemma SpliceLive(bs: seq<Block>, lo: nat, hi: nat, i: nat, mid: seq<Block>)
    requires Tiles(bs, lo, hi) && i < |bs|
    ensures Live(Splice(bs, i, mid)) == (Live(bs) - {bs[i]}) + Live(mid)
  {
    SpliceMembers(bs, i, mid);
    InBounds(bs, lo, hi);
    assert bs[i] !in bs[..i] && bs[i] !in bs[i + 1..];
  }

  /** Blocks of one tiling are determined by their address. */
  lemma SamePtrSameBlock(bs: seq<Block>, lo: nat, hi: nat, a: Block, b: Block)
    requires Tiles(bs, lo, hi) && a in bs && b in bs && a.at == b.at
    ensures a == b
  {
    InBounds(bs, lo, hi);
  }

  // ---------- counters ----------

  /** Payload words and number of blocks, free and allocated. */
  datatype Tally = Tally(freeWords: nat, liveWords: nat, freeCount: nat, liveCount: nat) {
    function Plus(t: Tally): Tally {
      Tally(freeWords + t.freeWords, liveWords + t.liveWords,
            freeCount + t.freeCount, liveCount + t.liveCount)
    }
  }

  function TallyOne(b: Block): Tally {
    if b.free then Tally(b.words, 0, 1, 0) else Tally(0, b.words, 0, 1)
  }

  function TallyOf(bs: seq<Block>): Tally {
    if bs == [] then Tally(0, 0, 0, 0) else TallyOne(bs[0]).Plus(TallyOf(bs[1..]))
  }

  lemma {:induction false} TallyConcat(xs: seq<Block>, ys: seq<Block>)
    ensures TallyOf(xs + ys) == TallyOf(xs).Plus(TallyOf(ys))
  {
    if xs == [] {
      assert xs + ys == ys;
    } else {
      var both := xs + ys;
      assert both[1..] == xs[1..] + ys && both[0] == xs[0];
      TallyConcat(xs[1..], ys);
      assert TallyOf(both) == TallyOne(xs[0]).Plus(TallyOf(xs[1..]).Plus(TallyOf(ys)));
    }
  }

  lemma TallySplice(bs: seq<Block>, i: nat, mid: seq<Block>)
    requires i < |bs|
    ensures TallyOf(Splice(bs, i, mid)).Plus(TallyOne(bs[i])) == TallyOf(bs).Plus(TallyOf(mid))
  {
    TallyConcat(bs[..i] + mid, bs[i + 1..]);
    TallyConcat(bs[..i], mid);
    assert bs == bs[..i] + ([bs[i]] + bs[i + 1..]);
    TallyConcat(bs[..i], [bs[i]] + bs[i + 1..]);
    assert TallyOf([bs[i]] + bs[i + 1..]) == TallyOne(bs[i]).Plus(TallyOf(bs[i + 1..]));
  }

  /** Payloads and headers together account for every word of the heap. */
  lemma {:induction false} Conservation(bs: seq<Block>, lo: nat, hi: nat)
    requires Tiles(bs, lo, hi)
    ensures var t := TallyOf(bs);
            t.freeWords + t.liveWords + 2 * (t.freeCount + t.liveCount) == hi - lo
    ensures TallyOf(bs).freeCount + TallyOf(bs).liveCount == |bs|
  {
    if |bs| > 1 {
      Conservation(bs[1..], bs[1].at, hi);
    } else {
      assert bs[1..] == [];
    }
  }

  lemma {:induction false} LiveCountZero(bs: seq<Block>)
    ensures TallyOf(bs).liveCount == 0 <==> Live(bs) == {}
  {
    if bs != [] {
      LiveCountZero(bs[1..]);
      assert forall b :: b in bs <==> b == bs[0] || b in bs[1..];
      if !bs[0].free { assert bs[0] in Live(bs); }
      assert Live(bs) == Live(bs[1..]) + (if bs[0].free then {} else {bs[0]});
    }
  }

  lemma {:induction false} LiveCount(bs: seq<Block>, lo: nat, hi: nat)
    requires Tiles(bs, lo, hi)
    ensures |Live(bs)| == TallyOf(bs).liveCount
  {
    if |bs| > 1 {
      LiveTail(bs, lo, hi);
      LiveCount(bs[1..], bs[1].at, hi);
      assert bs[0].free || bs[0] in Live(bs);
    } else {
      assert bs == [bs[0]] && bs[1..] == [];
      assert Live(bs) == if bs[0].free then {} else {bs[0]};
    }
  }

  // ---------- the canonical layout ----------

  /** A tiling without neighbouring free blocks is determined by its allocated blocks alone. */
  lemma {:induction false} MergedIsCanonical(xs: seq<Block>, ys: seq<Block>, lo: nat, hi: nat)
    requires Tiles(xs, lo, hi) && Merged(xs)
    requires Tiles(ys, lo, hi) && Merged(ys)
    requires Live(xs) == Live(ys)
    ensures xs == ys
  {
    HeadsAgree(xs, ys, lo, hi);
    HeadsAgree(ys, xs, lo, hi);
    assert xs[0] == ys[0];
    if |xs| > 1 && |ys| > 1 {
      LiveTail(xs, lo, hi);
      LiveTail(ys, lo, hi);
      MergedIsCanonical(xs[1..], ys[1..], xs[1].at, hi);
      assert xs == [xs[0]] + xs[1..] && ys == [ys[0]] + ys[1..];
    } else {
      InBounds(xs, lo, hi);
      InBounds(ys, lo, hi);
    }
  }

  lemma HeadsAgree(xs: seq<Block>, ys: seq<Block>, lo: nat, hi: nat)
    requires Tiles(xs, lo, hi) && Merged(xs)
    requires Tiles(ys, lo, hi) && Merged(ys)
    requires Live(xs) == Live(ys)
    ensures xs[0].free ==> ys[0].free && ys[0].End() <= xs[0].End()
    ensures !xs[0].free ==> xs[0] == ys[0]
  {
    InBounds(xs, lo, hi);
    InBounds(ys, lo, hi);
    if !xs[0].free {
      assert xs[0] in Live(ys);
    } else {
      assert forall b :: b in Live(xs) ==> b.at > lo;
      assert ys[0].free <==> ys[0] !in Live(ys);
      if |xs| > 1 { assert xs[1] in Live(xs); assert xs[1] in Live(ys); }
    }
  }

  lemma LiveTail(bs: seq<Block>, lo: nat, hi: nat)
    requires Tiles(bs, lo, hi) && |bs| > 1
    ensures Tiles(bs[1..], bs[1].at, hi)
    ensures Live(bs[1..]) == Live(bs) - {bs[0]}
  {
    InBounds(bs, lo, hi);
    assert forall b :: b in bs <==> b == bs[0] || b in bs[1..];
    assert bs[0] !in bs[1..];
  }

  lemma MergedStart(bs: seq<Block>)
    requires Merged(bs)
    ensures |bs| > 1 ==> !(bs[0].free && bs[1].free)
  {
  }

  lemma NoLiveAllFree(bs: seq<Block>)
    requires Live(bs) == {}
    ensures forall b :: b in bs ==> b.free
  {
    forall b | b in bs ensures b.free { assert b !in Live(bs); }
  }

  /** With nothing allocated the canonical layout is one free block. */
  lemma MergedAndEmpty(bs: seq<Block>, lo: nat, hi: nat)
    requires Tiles(bs, lo, hi) && Merged(bs) && Live(bs) == {}
    ensures hi >= lo + 2 && bs == [Block(lo, hi - lo - 2, true)]
  {
    NoLiveAllFree(bs);
    MergedStart(bs);
  }

  // ---------- coalescing ----------

  function Join(a: Block, b: Block): Block {
    Block(a.at, a.words + 2 + b.words, true)
  }

  /** One left-to-right pass that absorbs every free block into a free left neighbour. */
  function Coalesce(bs: seq<Block>): (r: seq<Block>)
    ensures |r| <= |bs| && (bs != [] ==> r != [])
    decreases |bs|
  {
    if |bs| < 2 then bs
    else if bs[0].free && bs[1].free then Coalesce([Join(bs[0], bs[1])] + bs[2..])
    else [bs[0]] + Coalesce(bs[1..])
  }

  lemma {:induction false} CoalesceTiles(bs: seq<Block>, lo: nat, hi: nat)
    requires Tiles(bs, lo, hi)
    ensures Tiles(Coalesce(bs), lo, hi)
    decreases |bs|
  {
    if |bs| >= 2 {
      if bs[0].free && bs[1].free {
        var joined := [Join(bs[0], bs[1])] + bs[2..];
        forall i | 0 <= i < |joined| - 1 ensures joined[i].End() == joined[i + 1].at {
          assert bs[i + 1].End() == bs[i + 2].at;
        }
        CoalesceTiles(joined, lo, hi);
      } else {
        assert Tiles(bs[1..], bs[1].at, hi);
        CoalesceTiles(bs[1..], bs[1].at, hi);
      }
    }
  }

  lemma {:induction false} CoalesceMerged(bs: seq<Block>)
    ensures Merged(Coalesce(bs))
    ensures bs != [] && !bs[0].free ==> !Coalesce(bs)[0].free
    decreases |bs|
  {
    if |bs| >= 2 {
      if bs[0].free && bs[1].free {
        CoalesceMerged([Join(bs[0], bs[1])] + bs[2..]);
      } else {
        CoalesceMerged(bs[1..]);
      }
    }
  }

  lemma {:induction false} CoalesceLive(bs: seq<Block>)
    ensures Live(Coalesce(bs)) == Live(bs)
    decreases |bs|
  {
    if |bs| >= 2 {
      if bs[0].free && bs[1].free {
        var joined := [Join(bs[0], bs[1])] + bs[2..];
        CoalesceLive(joined);
        assert bs == [bs[0], bs[1]] + bs[2..];
        assert Live(joined) == Live(bs[2..]) == Live(bs);
      } else {
        CoalesceLive(bs[1..]);
        LiveCons(bs[0], bs[1..]);
        LiveCons(bs[0], Coalesce(bs[1..]));
        assert bs == [bs[0]] + bs[1..];
      }
    }
  }

  /** Blocks of the merged list begin where blocks of the original began. */
  lemma {:induction false} CoalesceStarts(bs: seq<Block>, x: Block)
    requires x in Coalesce(bs)
    ensures exists y :: y in bs && y.at == x.at
    decreases |bs|
  {
    if |bs| >= 2 {
      if bs[0].free && bs[1].free {
        var joined := [Join(bs[0], bs[1])] + bs[2..];
        CoalesceStarts(joined, x);
        var y :| y in joined && y.at == x.at;
        assert y == joined[0] ==> bs[0].at == x.at;
      } else if x != bs[0] {
        CoalesceStarts(bs[1..], x);
      }
    }
  }

  lemma {:induction false} Covered(bs: seq<Block>, lo: nat, hi: nat, a: nat) returns (x: Block)
    requires Tiles(bs, lo, hi) && lo <= a < hi
    ensures x in bs && x.at <= a < x.End()
  {
    x := bs[0];
    if x.End() <= a {
      assert Tiles(bs[1..], bs[1].at, hi);
      x := Covered(bs[1..], bs[1].at, hi, a);
    }
  }

  /** After merging, the first word of a block is still the first of some block, or payload. */
  lemma CoalesceReaches(bs: seq<Block>, lo: nat, hi: nat, i: nat)
    requires Tiles(bs, lo, hi) && i < |bs|
    ensures exists x :: x in Coalesce(bs) && (x.at == bs[i].at || x.at + 2 <= bs[i].at < x.End())
  {
    InBounds(bs, lo, hi);
    CoalesceTiles(bs, lo, hi);
    hide Coalesce, InOrder;
    var x := Covered(Coalesce(bs), lo, hi, bs[i].at);
    CoalesceStarts(bs, x);
    hide Tiles;
    var y :| y in bs && y.at == x.at;
    BeginsBefore(bs, y, i);
  }

  lemma BeginsBefore(bs: seq<Block>, y: Block, i: nat)
    requires InOrder(bs) && y in bs && i < |bs| && y.at <= bs[i].at
    ensures y.at == bs[i].at || y.at + 2 <= bs[i].at
  {
    var k :| 0 <= k < |bs| && bs[k] == y;
    if k < i { assert bs[k].End() <= bs[i].at; }
  }

  lemma LiveCons(b: Block, bs: seq<Block>)
    ensures Live([b] + bs) == Live(bs) + (if b.free then {} else {b})
  {
  }

  /** Each merge turns one header into two free words and drops one free block. */
  lemma {:induction false} CoalesceTally(bs: seq<Block>)
    ensures var t, t', k := TallyOf(bs), TallyOf(Coalesce(bs)), |bs| - |Coalesce(bs)|;
            && t'.liveWords == t.liveWords && t'.liveCount == t.liveCount
            && t'.freeWords == t.freeWords + 2 * k
            && t'.freeCount == t.freeCount - k
    decreases |bs|
  {
    if |bs| >= 2 {
      if bs[0].free && bs[1].free {
        var joined := [Join(bs[0], bs[1])] + bs[2..];
        CoalesceTally(joined);
        assert joined[1..] == bs[2..] && bs[1..][1..] == bs[2..];
      } else {
        CoalesceTally(bs[1..]);
        assert Coalesce(bs)[1..] == Coalesce(bs[1..]);
      }
    }
  }

  /** Merging one pair does not change what the whole pass yields. */
  lemma CoalesceMergeAt(bs: seq<Block>, i: nat)
    requires i + 1 < |bs| && bs[i].free && bs[i + 1].free
    ensures MergeAt(bs, i)[..i] == bs[..i]
    ensures Coalesce(MergeAt(bs, i)[i..]) == Coalesce(bs[i..])
  {
    var rest := bs[i..];
    assert rest[0] == bs[i] && rest[1] == bs[i + 1] && rest[2..] == bs[i + 2..];
    assert MergeAt(bs, i)[i..] == [Join(rest[0], rest[1])] + rest[2..];
  }

  lemma CoalesceSkip(bs: seq<Block>, i: nat)
    requires i + 1 < |bs| && !(bs[i].free && bs[i + 1].free)
    ensures bs[..i] + Coalesce(bs[i..]) == bs[..i + 1] + Coalesce(bs[i + 1..])
  {
    var rest := bs[i..];
    assert rest[0] == bs[i] && rest[1] == bs[i + 1] && rest[1..] == bs[i + 1..];
    assert bs[..i + 1] == bs[..i] + [bs[i]];
  }

  /** One merge of the coalescing pass. */
  function MergeAt(bs: seq<Block>, i: nat): seq<Block>
    requires i + 1 < |bs|
  {
    bs[..i] + [Join(bs[i], bs[i + 1])] + bs[i + 2..]
  }

  lemma MergeAtTiles(bs: seq<Block>, lo: nat, hi: nat, i: nat)
    requires Tiles(bs, lo, hi) && i + 1 < |bs|
    ensures Tiles(MergeAt(bs, i), lo, hi)
  {
    var r := MergeAt(bs, i);
    forall k | 0 <= k < |r| - 1 ensures r[k].End() == r[k + 1].at {
      if k + 1 < i {
        assert r[k] == bs[k] && r[k + 1] == bs[k + 1];
      } else if k + 1 == i {
        assert r[k] == bs[k] && r[k + 1].at == bs[k + 1].at;
      } else if k == i {
        assert r[k].End() == bs[k + 1].End() && r[k + 1] == bs[k + 2];
      } else {
        assert r[k] == bs[k + 1] && r[k + 1] == bs[k + 2];
      }
    }
  }

  lemma MergeAtTally(bs: seq<Block>, i: nat)
    requires i + 1 < |bs| && bs[i].free && bs[i + 1].free
    ensures TallyOf(MergeAt(bs, i)).Plus(Tally(0, 0, 1, 0)) == TallyOf(bs).Plus(Tally(2, 0, 0, 0))
    ensures Live(MergeAt(bs, i)) == Live(bs)
  {
    hide Live, MergeAt, TallyOf;
    MergeAtParts(bs, i);
    var front, back := bs[..i], bs[i + 2..];
    LiveParts(front, [bs[i], bs[i + 1]], back);
    LiveParts(front, [Join(bs[i], bs[i + 1])], back);
    TallyPair(front, bs[i], bs[i + 1], back);
  }

  lemma MergeAtParts(bs: seq<Block>, i: nat)
    requires i + 1 < |bs|
    ensures bs == bs[..i] + ([bs[i], bs[i + 1]] + bs[i + 2..])
    ensures MergeAt(bs, i) == bs[..i] + ([Join(bs[i], bs[i + 1])] + bs[i + 2..])
  {
  }

  lemma TallyPair(front: seq<Block>, a: Block, b: Block, back: seq<Block>)
    requires a.free && b.free
    ensures TallyOf(front + ([Join(a, b)] + back)).Plus(Tally(0, 0, 1, 0)) ==
            TallyOf(front + ([a, b] + back)).Plus(Tally(2, 0, 0, 0))
  {
    hide TallyOf;
    TallyConcat(front, [a, b] + back);
    TallyConcat(front, [Join(a, b)] + back);
    assert [a, b] + back == [a] + ([b] + back);
    TallyCons(a, [b] + back);
    TallyCons(b, back);
    TallyCons(Join(a, b), back);
  }

  lemma TallyCons(b: Block, bs: seq<Block>)
    ensures TallyOf([b] + bs) == TallyOne(b).Plus(TallyOf(bs))
  {
    assert ([b] + bs)[1..] == bs;
  }

  /** Free blocks in the middle add nothing to the allocated ones. */
  lemma LiveParts(front: seq<Block>, mid: seq<Block>, back: seq<Block>)
    requires forall b :: b in mid ==> b.free
    ensures Live(front + (mid + back)) == Live(front) + Live(back)
  {
  }

  /** Whatever order or number of merges produced it, a merged tiling with the same allocated
      blocks is the coalesced one. */
  lemma CoalesceIsCanonical(bs: seq<Block>, lo: nat, hi: nat, ys: seq<Block>)
    requires Tiles(bs, lo, hi)
    ensures Tiles(ys, lo, hi) && Merged(ys) && Live(ys) == Live(bs) <==> ys == Coalesce(bs)
  {
    CoalesceTiles(bs, lo, hi);
    CoalesceMerged(bs);
    CoalesceLive(bs);
    if Tiles(ys, lo, hi) && Merged(ys) && Live(ys) == Live(bs) {
      MergedIsCanonical(ys, Coalesce(bs), lo, hi);
    }
  }

  /** The largest free payload, 0 when there is none. */
  function LargestFree(bs: seq<Block>): (r: nat)
    ensures forall b :: b in bs && b.free ==> b.words <= r
    ensures r > 0 ==> exists b :: b in bs && b.free && b.words == r
  {
    if bs == [] then 0
    else
      var r := LargestFree(bs[1..]);
      assert forall b :: b in bs ==> b == bs[0] || b in bs[1..];
      if bs[0].free && bs[0].words > r then bs[0].words else r
  }

  lemma LargestFreeConcat(xs: seq<Block>, b: Block)
    ensures LargestFree(xs + [b]) ==
            if b.free && b.words > LargestFree(xs) then b.words else LargestFree(xs)
  {
    var all := xs + [b];
    assert b in all;
    forall x | x in xs ensures x in all {}
  }

  /** The sums over a prefix never exceed the sums over the list. */
  lemma TallyPrefix(bs: seq<Block>, i: nat)
    requires i < |bs|
    ensures TallyOf(bs[..i + 1]) == TallyOf(bs[..i]).Plus(TallyOne(bs[i]))
    ensures TallyOf(bs[..i + 1]).freeWords <= TallyOf(bs).freeWords
    ensures TallyOf(bs[..i + 1]).liveWords <= TallyOf(bs).liveWords
  {
    hide TallyOf;
    assert bs[..i + 1] == bs[..i] + [bs[i]] && bs == bs[..i + 1] + bs[i + 1..];
    TallyConcat(bs[..i], [bs[i]]);
    TallyConcat(bs[..i + 1], bs[i + 1..]);
    TallySingle(bs[i]);
  }

  lemma TallySingle(b: Block)
    ensures TallyOf([b]) == TallyOne(b)
  {
    assert [b][1..] == [];
  }
}
