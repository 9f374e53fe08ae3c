/**
 * Dropping a drain over zero-sized elements. Such a vector stores nothing
 * but its length, so its observable state is the length and the number of
 * element drops run so far. Drop does no copying: it sets the length to
 * cover the elements still owned and truncates to `head + tail_len`, which
 * runs the drop of every element it cuts off.
 *
 * `ArrayVec`'s drop counts the elements it cuts off as `tail - head`, the
 * whole drained range, even after the iterator has handed some of them out
 * (and the caller has dropped those); `SmallVec`'s counts only the
 * `remaining` ones. The first is modelled as written and shown to drop an
 * element twice; the second is the corrected drop the containers use.
 */
module ZstDrains {
  /** A vector of zero-sized elements: its length, and the element drops run so far. */
  datatype ZstState = ZstState(len: nat, drops: nat)

  /** `truncate(n)`: drops the `len - n` elements past `n` when `n < len`. */
  function ZstTruncate(s: ZstState, n: nat): (r: ZstState)
    ensures r.len == if n < s.len then n else s.len
    ensures r.drops == s.drops + (s.len - r.len)
  {
    if n < s.len then ZstState(n, s.drops + (s.len - n)) else s
  }

  /**
   * `ArrayVec`'s drain drop for zero-sized elements, as written: with the
   * length at `head`, it sets the length to `head + (tail - head) + tail_len`
   * and truncates to `head + tail_len`.
   */
  function ArrayVecZstDrainDrop(s: ZstState, tail: nat, tailLen: nat): (r: ZstState)
    requires s.len <= tail
    ensures r == ZstState(s.len + tailLen, s.drops + (tail - s.len))
  {
    ZstTruncate(ZstState(s.len + (tail - s.len) + tailLen, s.drops), s.len + tailLen)
  }

  /**
   * The drain drop for zero-sized elements, with `remaining` drained elements
   * not yet handed out: sets the length to `head + remaining + tail_len` and
   * truncates to `head + tail_len`.
   */
  function ZstDrainDrop(s: ZstState, remaining: nat, tailLen: nat): (r: ZstState)
    ensures r == ZstState(s.len + tailLen, s.drops + remaining)
  {
    ZstTruncate(ZstState(s.len + remaining + tailLen, s.drops), s.len + tailLen)
  }

  /**
   * A whole drain of `m` elements after a head of `head`: the caller takes
   * `taken` of them from the iterator and drops each, then the drain is
   * dropped. With the corrected drop every drained element is dropped exactly
   * once and the tail closes up.
   */
  lemma ZstDrainDropsEachOnce(head: nat, drops: nat, m: nat, taken: nat, tailLen: nat)
    requires taken <= m
    ensures var r := ZstDrainDrop(ZstState(head, drops + taken), m - taken, tailLen);
            r.len == head + tailLen && r.drops == drops + m
  {
  }

  /**
   * As written, `ArrayVec`'s drop drops each drained element exactly once if
   * and only if the caller took none of them from the iterator.
   */
  lemma ArrayVecZstDropsOnceIffUntouched(head: nat, drops: nat, m: nat, taken: nat, tailLen: nat)
    requires taken <= m
    ensures var r := ArrayVecZstDrainDrop(ZstState(head, drops + taken), head + m, tailLen);
            r.len == head + tailLen && (r.drops == drops + m <==> taken == 0)
  {
  }

  /**
   * The input that shows it: two zero-sized elements, `drain(0..2)`, one
   * call of `next()` (whose element the caller drops), then the drain is
   * dropped. Three drops run for two elements; the corrected drop runs two.
   */
  lemma ArrayVecZstDoubleDrop()
    ensures ArrayVecZstDrainDrop(ZstState(0, 1), 2, 0) == ZstState(0, 3)
    ensures ZstDrainDrop(ZstState(0, 1), 1, 0) == ZstState(0, 2)
  {
  }

  /**
   * The zero-sized drain test: eight elements; `drain(1..3)` fully consumed
   * leaves 6 with 2 drops, then `drain(..)` unconsumed leaves 0 with 8.
   */
  lemma ZstDrainTest()
    ensures ZstDrainDrop(ZstState(1, 2), 0, 5) == ZstState(6, 2)
    ensures ZstDrainDrop(ZstState(0, 2), 6, 0) == ZstState(0, 8)
  {
  }
}
