/** The 32-bit machine words, and the mask arithmetic of the allocator's header macros. */
module Machine {

  const WORD_LIMIT: int := 0x1_0000_0000

  type Word = x: int | 0 <= x < 0x1_0000_0000

  datatype Option<T> = None | Some(value: T)

  /** The next place round a table or a ring of n. */
  function Succ(i: nat, n: nat): nat {
    if i + 1 >= n then 0 else i + 1
  }

  /** What a machine word keeps of a sum or a difference. */
  function Wrap(x: int): Word { x % WORD_LIMIT }

  lemma WrapAdd(x: int, y: int)
    ensures Wrap(Wrap(x) + y) == Wrap(x + y)
    ensures 0 <= x < WORD_LIMIT ==> Wrap(x) == x
  {
  }

  /** `ALIGN`: round up to a multiple of 4; the addition is 32 bits wide and wraps. */
  function Align(size: Word): Word {
    4 * WordsFor(size)
  }

  function WordsFor(size: Word): nat {
    (size + 3) % WORD_LIMIT / 4
  }

  /** `UPDATE_SIZE_AND_FREE`: bit 0 is the free flag, the other bits are the size. */
  function Pack(size: Word, free: bool): Word {
    size - size % 2 + (if free then 1 else 0)
  }

  /** `GET_SIZE` */
  function SizeField(header: Word): Word {
    header - header % 2
  }

  /** `GET_FREE` */
  predicate FreeFlag(header: Word) {
    header % 2 == 1
  }

  /** Below the last three words, rounding up gives the least multiple of 4 that is big enough;
      for those three the sum wraps and the request shrinks to nothing. */
  lemma AlignRoundsUp(size: Word)
    ensures size < WORD_LIMIT - 3 ==>
              size <= Align(size) < size + 4 && Align(size) % 4 == 0
    ensures size >= WORD_LIMIT - 3 ==> Align(size) == 0
  {
    if size >= WORD_LIMIT - 3 {
      assert (size + 3) % WORD_LIMIT == size + 3 - WORD_LIMIT;
    }
  }

  /** What is read back from a header word. */
  lemma HeaderFields(words: nat, free: bool)
    requires 4 * words + 1 < WORD_LIMIT
    ensures Pack(4 * words, free) == 4 * words + (if free then 1 else 0)
    ensures SizeField(Pack(4 * words, free)) == 4 * words
    ensures FreeFlag(Pack(4 * words, free)) == free
  {
    var size: Word := 4 * words;
    assert size == 2 * (2 * words);
    EvenSize(2 * words, free);
  }

  lemma EvenSize(half: nat, free: bool)
    requires 2 * half + 1 < WORD_LIMIT
    ensures Pack(2 * half, free) == 2 * half + (if free then 1 else 0)
    ensures SizeField(Pack(2 * half, free)) == 2 * half
    ensures FreeFlag(Pack(2 * half, free)) == free
  {
  }

  /** Setting the flag leaves the size field as it was. */
  lemma PackKeepsSize(header: Word)
    ensures SizeField(Pack(header, true)) == SizeField(header)
  {
  }

  /** The flag and the size share one word without disturbing each other exactly for even sizes. */
  lemma PackRoundTrip(size: Word, free: bool)
    ensures FreeFlag(Pack(size, free)) == free
    ensures SizeField(Pack(size, free)) == size <==> size % 2 == 0
  {
  }
}
