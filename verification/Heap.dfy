/** The heap as a value: raw memory with the block headers inside it, the block list those headers
    encode, and the running counters. Each allocator call is a step between two such values. */
module Heaps {
  import opened Machine
  import opened Blocks

  /** The block list and the four counters (in bytes and in blocks). */
  datatype Control = Control(bs: seq<Block>, freeMem: int, allocMem: int,
                             freeBlocks: int, allocBlocks: int)

  /** `m` is all of RAM, word k at byte address 4 * k; the heap is words [lo, hi), and lo == hi == 0
      before initialisation. */
  datatype Heap = Heap(m: seq<Word>, lo: nat, hi: nat, c: Control)

  // ---------- well-formed heaps ----------

  /** The two header words of block i: packed size and flag, and the address of the next block. */
  ghost predicate Header(m: seq<Word>, bs: seq<Block>, i: nat)
    requires i < |bs|
  {
    && bs[i].End() <= |m|
    && m[bs[i].at] == 4 * bs[i].words + (if bs[i].free then 1 else 0)
    && m[bs[i].at + 1] == (if i + 1 < |bs| then 4 * bs[i + 1].at else 0)
  }

  ghost predicate Encoded(m: seq<Word>, bs: seq<Block>) {
    forall i :: 0 <= i < |bs| ==> Header(m, bs, i)
  }

  ghost predicate Counted(c: Control) {
    var t := TallyOf(c.bs);
    && c.freeMem == 4 * t.freeWords && c.allocMem == 4 * t.liveWords
    && c.freeBlocks == t.freeCount && c.allocBlocks == t.liveCount
  }

  ghost predicate Valid(h: Heap) {
    Listed(h) && Counted(h.c)
  }

  /** The list in memory is an exact tiling of the heap, whatever the counters say. */
  ghost predicate Listed(h: Heap) {
    && |h.m| < 0x4000_0000
    && Encoded(h.m, h.c.bs)
    && if h.lo == 0 then h.hi == 0 && h.c.bs == []
       else h.hi <= |h.m| && Tiles(h.c.bs, h.lo, h.hi)
  }

  lemma ValidBounds(h: Heap)
    requires Listed(h)
    ensures forall i :: 0 <= i < |h.c.bs| ==>
              0 < h.lo <= h.c.bs[i].at < h.c.bs[i].End() <= h.hi <= |h.m|
    ensures InOrder(h.c.bs)
  {
    if h.lo != 0 { InBounds(h.c.bs, h.lo, h.hi); }
  }

  // ---------- what each call does to the list and the counters ----------

  /** Index of the block whose payload starts at byte address p, or |bs|. */
  function IndexOf(bs: seq<Block>, p: int): (r: nat)
    ensures r <= |bs|
    ensures r < |bs| ==> bs[r].Ptr() == p
    ensures forall k :: 0 <= k < r ==> bs[k].Ptr() != p
  {
    if bs == [] || bs[0].Ptr() == p then 0
    else
      var tail := bs[1..];
      assert forall k :: 0 < k < |bs| ==> bs[k] == tail[k - 1];
      1 + IndexOf(tail, p)
  }

  predicate IsLive(bs: seq<Block>, p: int) {
    var i := IndexOf(bs, p);
    i < |bs| && !bs[i].free
  }

  lemma IndexOfBlock(bs: seq<Block>, lo: nat, hi: nat, i: nat)
    requires Tiles(bs, lo, hi) && i < |bs|
    ensures IndexOf(bs, bs[i].Ptr()) == i
  {
    InBounds(bs, lo, hi);
  }

  /** A live block is found by its pointer. */
  lemma FindLive(bs: seq<Block>, lo: nat, hi: nat, b: Block)
    requires Tiles(bs, lo, hi) && b in Live(bs)
    ensures IsLive(bs, b.Ptr()) && bs[IndexOf(bs, b.Ptr())] == b
  {
    var i :| 0 <= i < |bs| && bs[i] == b;
    IndexOfBlock(bs, lo, hi, i);
  }

  /** Take w words from the free block i. */
  function Grant(c: Control, i: nat, w: nat): Control
    requires i < |c.bs| && Fits(c.bs[i], w)
  {
    var cut := Carve(c.bs[i], w);
    Control(Splice(c.bs, i, cut),
            c.freeMem - 4 * (if |cut| == 2 then w + 2 else c.bs[i].words),
            c.allocMem + 4 * cut[0].words,
            c.freeBlocks - (if |cut| == 2 then 0 else 1),
            c.allocBlocks + 1)
  }

  /** Give back block i and coalesce. */
  function Release(c: Control, i: nat): Control
    requires i < |c.bs|
  {
    var b := c.bs[i];
    var bs := Coalesce(Splice(c.bs, i, [b.(free := true)]));
    var merges := |c.bs| - |bs|;
    Control(bs,
            c.freeMem + 4 * b.words + 8 * merges,
            c.allocMem - 4 * b.words,
            c.freeBlocks + 1 - merges,
            c.allocBlocks - 1)
  }

  /** Keep only w words of the allocated block i. */
  function Shrink(c: Control, i: nat, w: nat): Control
    requires i < |c.bs| && w <= c.bs[i].words
  {
    var cut := Carve(c.bs[i], w);
    if |cut| == 1 then c
    else Control(Splice(c.bs, i, cut),
                 c.freeMem + 4 * cut[1].words,
                 c.allocMem - 4 * (cut[1].words + 2),
                 c.freeBlocks + 1,
                 c.allocBlocks)
  }

  function MallocOutcome(c: Control, cap: int, size: Word): (Control, int) {
    var w := WordsFor(size);
    var i := FirstFit(c.bs, w);
    if size == 0 || size > cap || i == |c.bs| then (c, 0)
    else (Grant(c, i, w), c.bs[i].Ptr())
  }

  /** For NULL and allocated pointers; Freed says what becomes of the others. */
  function FreeOutcome(c: Control, p: int): Control {
    var i := IndexOf(c.bs, p);
    if p == 0 || i == |c.bs| then c else Release(c, i)
  }

  function ReallocOutcome(c: Control, cap: int, p: Word, size: Word): (Control, int) {
    var i := IndexOf(c.bs, p);
    if p == 0 || i == |c.bs| then MallocOutcome(c, cap, size)
    else if size == 0 then (FreeOutcome(c, p), 0)
    else if WordsFor(size) <= c.bs[i].words then (Shrink(c, i, WordsFor(size)), p)
    else
      var (c1, r) := MallocOutcome(c, cap, size);
      (if r == 0 then c else FreeOutcome(c1, p), r)
  }

  // ---------- what each call does to memory ----------

  ghost predicate Payload(m: seq<Word>, b: Block, data: seq<Word>) {
    b.End() <= |m| && m[b.at + 2..b.End()] == data
  }

  /** Every word outside the heap and every payload word of the blocks in `keep` is unchanged. */
  ghost predicate Untouched(h: Heap, keep: set<Block>, m': seq<Word>) {
    && |m'| == |h.m|
    && (forall k :: 0 <= k < |h.m| && !(h.lo <= k < h.hi) ==> m'[k] == h.m[k])
    && (forall b :: b in keep ==> b.End() <= |h.m| && Payload(m', b, h.m[b.at + 2..b.End()]))
  }

  /** The new headers are in memory; everything outside the heap and every block in `keep` is as
      before. */
  ghost predicate Framed(h: Heap, keep: set<Block>, h': Heap) {
    && h'.lo == h.lo && h'.hi == h.hi
    && Encoded(h'.m, h'.c.bs)
    && Untouched(h, keep, h'.m)
  }

  ghost predicate MallocEffect(h: Heap, size: Word, r: int, h': Heap) {
    && (h'.c, r) == MallocOutcome(h.c, 4 * (h.hi - h.lo), size)
    && Framed(h, Live(h.c.bs), h')
    && (r == 0 ==> h' == h)
  }

  ghost predicate FreeEffect(h: Heap, p: Word, h': Heap)
    requires p == 0 || IsLive(h.c.bs, p)
  {
    && h'.c == FreeOutcome(h.c, p)
    && Framed(h, Live(h'.c.bs), h')
    && (p == 0 ==> h' == h)
  }

  // ---------- freeing any pointer ----------

  /** p is the payload address of a listed block, allocated or free, or the word where its header
      would be is payload of some block: what a pointer that was once allocated points to. */
  ghost predicate Reached(bs: seq<Block>, p: Word) {
    && 8 <= p && p % 4 == 0
    && (IndexOf(bs, p) < |bs| || Inside(bs, p / 4 - 2))
  }

  ghost predicate Inside(bs: seq<Block>, a: int) {
    exists b :: b in bs && b.at + 2 <= a < b.End()
  }

  /** The list once the header that p points behind has its free flag set. */
  function Flagged(bs: seq<Block>, p: Word): seq<Block> {
    var i := IndexOf(bs, p);
    if i < |bs| then Splice(bs, i, [bs[i].(free := true)]) else bs
  }

  /** The counters after `size` bytes have been booked as freed. */
  function Marked(c: Control, p: Word, size: Word): Control {
    Control(Flagged(c.bs, p), Wrap(c.freeMem + size), Wrap(c.allocMem - size),
            Wrap(c.freeBlocks + 1), Wrap(c.allocBlocks - 1))
  }

  /** The counters after merging list c.bs down to list bs: 8 more free bytes a merge. */
  function MergedTo(c: Control, bs: seq<Block>): Control {
    var merges := |c.bs| - |bs|;
    c.(bs := bs, freeMem := Wrap(c.freeMem + 8 * merges), freeBlocks := Wrap(c.freeBlocks - merges))
  }

  /** What free makes of list and counters when the word before p, header or not, is `word`. */
  function Freed(c: Control, p: Word, word: Word): Control {
    MergedTo(Marked(c, p, SizeField(word)), Coalesce(Flagged(c.bs, p)))
  }

  /** Freeing any pointer the list reaches: the word that is taken for the header gets its free
      flag set, its size is booked, and the whole list is merged. */
  ghost predicate FreedEffect(h: Heap, p: Word, h': Heap) {
    var a := p / 4 - 2;
    && 0 <= a < |h.m|
    && h'.c == Freed(h.c, p, h.m[a])
    && h'.lo == h.lo && h'.hi == h.hi && Encoded(h'.m, h'.c.bs)
    && Untouched(h.(m := h.m[a := Pack(h.m[a], true)]), Live(h'.c.bs), h'.m)
  }

  /** The first n payload words of b, in m, are the first of b' in m'. */
  ghost predicate Copied(m: seq<Word>, b: Block, m': seq<Word>, b': Block, n: nat) {
    && b.at + 2 + n <= |m| && b'.at + 2 + n <= |m'|
    && m'[b'.at + 2..b'.at + 2 + n] == m[b.at + 2..b.at + 2 + n]
  }

  function BlockAt(bs: seq<Block>, p: int): Block
    requires IsLive(bs, p)
  {
    bs[IndexOf(bs, p)]
  }

  /** Resizing block b: in place when it shrinks, otherwise moved with its contents. */
  ghost predicate ReallocEffect(h: Heap, p: Word, size: Word, r: int, h': Heap)
    requires p == 0 || IsLive(h.c.bs, p)
  {
    if p == 0 then MallocEffect(h, size, r, h')
    else if size == 0 then r == 0 && FreeEffect(h, p, h')
    else
      var b := BlockAt(h.c.bs, p);
      && (h'.c, r) == ReallocOutcome(h.c, 4 * (h.hi - h.lo), p, size)
      && Framed(h, Live(h.c.bs) - {b}, h')
      && (r == 0 ==> h' == h)
      && (r != 0 ==>
          && IsLive(h'.c.bs, r)
          && Copied(h.m, b, h'.m, BlockAt(h'.c.bs, r),
                    if WordsFor(size) <= b.words then WordsFor(size) else b.words))
  }
}
