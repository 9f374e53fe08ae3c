/**
 * Draining a range out of a `SmallVec`. `drain(range)` resolves the range
 * bounds exactly as `ArrayVec`'s drain does, cuts the length back to the
 * start of the range and returns an iterator over the drained elements;
 * dropping the iterator drops the elements it did not hand out, moves the
 * tail down to the start of the range in whichever slot array is in use,
 * hands the vacated slots to the policy and sets the length to
 * `start + tail_len`. The mode never changes.
 */
module SmallVecDrains {
  import opened Wrappers
  import opened Memory
  import opened SpareMemory
  import opened SmallVecs
  import opened ArrayVecDrains
  import ZstDrains
  import LengthType

  /**
   * The live drain. Its slice iterator is `[front, back)`; `tail` and
   * `tail_len` locate the elements after the range, and both are `L::MAX`
   * when the range was empty.
   */
  class Drain<T> {
    const sv: SmallVec<T>
    const tail: nat
    const tailLen: nat
    var front: nat
    var back: nat
    /** The drained elements not yet handed out, front to back. */
    ghost var Remaining: seq<T>
    /** The elements after the drained range. */
    ghost const Tail: seq<T>

    /** The marker of an empty drained range. */
    predicate IsEmptyRange()
      reads this, sv
    {
      tail == sv.lmax && tailLen == sv.lmax
    }

    ghost predicate Valid()
      reads this, sv, sv.buf, sv.buf.local, sv.buf.heap
    {
      && sv.Shape()
      && |Remaining| == back - front
      && if IsEmptyRange() then sv.Valid() && front == back && Tail == []
         else
           var a := sv.Slots();
           && sv.Length() <= front <= back <= tail && sv.Length() < tail && tail + tailLen <= a.Length
           && |sv.Contents| == sv.Length() && (forall i :: 0 <= i < sv.Length() ==> a[i] == Val(sv.Contents[i]))
           && (forall i :: front <= i < back ==> a[i] == Val(Remaining[i - front]))
           && |Tail| == tailLen && (forall i :: tail <= i < tail + tailLen ==> a[i] == Val(Tail[i - tail]))
           && HoldsPattern(sv.sm, a, tail + tailLen, a.Length)
    }

    constructor Make(v: SmallVec<T>, t: nat, tl: nat, f: nat, b: nat, ghost rem: seq<T>, ghost tl0: seq<T>)
      ensures sv == v && tail == t && tailLen == tl && front == f && back == b
      ensures Remaining == rem && Tail == tl0
    {
      sv := v;
      tail := t;
      tailLen := tl;
      front := f;
      back := b;
      Remaining := rem;
      Tail := tl0;
    }

    /** `next()`: the first remaining drained element. */
    method Next() returns (r: Option<T>)
      requires Valid()
      modifies this
      ensures Valid()
      ensures old(Remaining) == [] ==> r.None? && Remaining == []
      ensures old(Remaining) != [] ==> r == Some(old(Remaining)[0]) && Remaining == old(Remaining)[1..]
    {
      if front < back {
        r := Some(sv.Slots()[front].v);
        front := front + 1;
        Remaining := Remaining[1..];
      } else {
        r := None;
      }
    }

    /** `next_back()`: the last remaining drained element. */
    method NextBack() returns (r: Option<T>)
      requires Valid()
      modifies this
      ensures Valid()
      ensures old(Remaining) == [] ==> r.None? && Remaining == []
      ensures old(Remaining) != [] ==> r == Some(old(Remaining)[|old(Remaining)| - 1])
                                       && Remaining == old(Remaining)[..|old(Remaining)| - 1]
    {
      if front < back {
        back := back - 1;
        r := Some(sv.Slots()[back].v);
        Remaining := Remaining[..|Remaining| - 1];
      } else {
        r := None;
      }
    }

    /** `size_hint()`: exact, the number of remaining drained elements; the same as `ArrayVec`'s drain in the source. */
    function SizeHint(): (r: (nat, Option<nat>))
      reads this, sv, sv.buf, sv.buf.local, sv.buf.heap
      requires Valid()
      ensures r == (|Remaining|, Some(|Remaining|))
    {
      (back - front, Some(back - front))
    }

    /** `len()` of the exact-size iterator; the same as `ArrayVec`'s drain in the source. */
    function Len(): (r: nat)
      reads this, sv, sv.buf, sv.buf.local, sv.buf.heap
      requires Valid()
      ensures r == |Remaining|
    {
      back - front
    }

    /** `as_slice()`: the remaining drained elements. */
    function AsSlice(): (r: seq<T>)
      reads this, sv, sv.buf, sv.buf.local, sv.buf.heap
      requires Valid()
      ensures r == Remaining
    {
      var a := sv.Slots();
      seq(back - front, i reads this, a requires 0 <= i < back - front && back <= a.Length && a[front + i].Val?
                        => a[front + i].v)
    }

    /**
     * `DropGuard::drop`: in the slot array in use, moves the `tail_len`
     * tail elements down to the head, hands the `tail - head` slots after
     * the new end to the policy and sets the length to `head + tail_len`;
     * with an empty tail only the gap goes to the policy.
     */
    method GuardDrop()
      requires Valid() && !IsEmptyRange()
      modifies sv, sv.buf, sv.Slots()
      ensures sv.Valid() && sv.Contents == old(sv.Contents) + Tail
      ensures sv.Capacity() == old(sv.Cap()) && sv.IsHeap() == old(sv.IsHeap())
      ensures sv.Slots() == old(sv.Slots())
      ensures tailLen > 0 ==> sv.Slots()[..] == Wipe(sv.sm, Moved(old(sv.Slots()[..]), tail, old(sv.Length()), tailLen),
                                                     old(sv.Length()) + tailLen, tail - old(sv.Length()))
      ensures tailLen == 0 ==> sv.Slots()[..] == Wipe(sv.sm, old(sv.Slots()[..]), old(sv.Length()), tail - old(sv.Length()))
    {
      if tailLen > 0 {
        GuardDropTail();
      } else {
        GuardDropGap();
      }
    }

    /** `DropGuard::drop` with a non-empty tail: the tail closes up the gap and the length is set. */
    method GuardDropTail()
      requires Valid() && !IsEmptyRange() && tailLen > 0
      modifies sv, sv.buf, sv.Slots()
      ensures sv.Valid() && sv.Contents == old(sv.Contents) + Tail
      ensures sv.Capacity() == old(sv.Cap()) && sv.IsHeap() == old(sv.IsHeap())
      ensures sv.Slots() == old(sv.Slots())
      ensures sv.Slots()[..] == Wipe(sv.sm, Moved(old(sv.Slots()[..]), tail, old(sv.Length()), tailLen),
                                     old(sv.Length()) + tailLen, tail - old(sv.Length()))
    {
      var a := sv.Slots();
      var head := sv.Length();
      ghost var c0 := sv.Contents;
      CloseTail(sv.sm, a, head, tail, tailLen, c0, Tail);
      sv.SetLen(head + tailLen);
      sv.Contents := c0 + Tail;
    }

    /** `DropGuard::drop` with an empty tail: only the gap goes to the policy; the length stays at the head. */
    method GuardDropGap()
      requires Valid() && !IsEmptyRange() && tailLen == 0
      modifies sv.Slots()
      ensures sv.Valid() && sv.Contents == old(sv.Contents) + Tail
      ensures sv.Slots()[..] == Wipe(sv.sm, old(sv.Slots()[..]), old(sv.Length()), tail - old(sv.Length()))
    {
      var a := sv.Slots();
      var head := sv.Length();
      ghost var a0 := a[..];
      Init(sv.sm, a, head, tail - head);
      GapKeeps(sv.sm, a0, sv.Contents, head, tail, a[..]);
      assert sv.Contents + Tail == sv.Contents;
    }

    /**
     * `drop()`: nothing for an empty range; otherwise drops the `remaining`
     * drained elements not handed out (`dropped` of them) and runs the
     * guard. The length and the drop count are those of the drop for
     * zero-sized elements, which counts `remaining` too.
     */
    method Drop() returns (dropped: nat)
      requires Valid()
      modifies sv, sv.buf, sv.Slots()
      ensures sv.Valid() && sv.Capacity() == old(sv.Cap()) && sv.IsHeap() == old(sv.IsHeap())
      ensures IsEmptyRange() ==> dropped == 0 && sv.Contents == old(sv.Contents) && sv.Slots()[..] == old(sv.Slots()[..])
      ensures !IsEmptyRange() ==> sv.Contents == old(sv.Contents) + Tail
                                  && ZstDrains.ZstDrainDrop(ZstDrains.ZstState(old(sv.Length()), 0), old(|Remaining|), tailLen)
                                     == ZstDrains.ZstState(|sv.Contents|, dropped)
    {
      if tailLen == sv.lmax && tail == sv.lmax {
        return 0;
      }
      dropped := back - front;
      GuardDrop();
    }
  }

  /**
   * The body of `drain` once the range `[start, end)` is resolved: a
   * non-empty range cuts the length back to `start`; an empty one leaves the
   * vector as it is and is marked by `tail = tail_len = L::MAX`. Only the
   * length changes.
   */
  method DrainResolved<T>(v: SmallVec<T>, start: nat, end: nat) returns (d: Drain<T>)
    requires v.Valid() && start <= end <= v.Len()
    modifies v, v.buf
    ensures v.Slots() == old(v.Slots()) && v.Slots()[..] == old(v.Slots()[..])
    ensures v.Cap() == old(v.Cap()) && v.IsHeap() == old(v.IsHeap())
    ensures fresh(d) && d.sv == v && d.Valid() && d.Remaining == old(v.Contents)[start..end]
    ensures start < end ==> v.Contents == old(v.Contents)[..start] && d.Tail == old(v.Contents)[end..] && !d.IsEmptyRange()
    ensures start == end ==> v.Contents == old(v.Contents) && d.IsEmptyRange()
  {
    var len := v.Length();
    if start < end {
      ghost var c := v.Contents;
      ghost var a := v.Slots();
      assert forall i :: start <= i < end ==> a[i] == Val(c[start..end][i - start]);
      assert forall i :: end <= i < len ==> a[i] == Val(c[end..][i - end]);
      v.SetLen(start);
      v.Contents := c[..start];
      d := new Drain.Make(v, end, len - end, start, end, c[start..end], c[end..]);
    } else {
      d := new Drain.Make(v, v.lmax, v.lmax, 0, 0, [], []);
    }
  }

  /** `drain(range)`: the panic of a bad range, with no change; otherwise the drain over the resolved range. */
  method StartDrain<T>(v: SmallVec<T>, startB: Bound, endB: Bound) returns (r: Result<Drain<T>, RangePanic>)
    requires v.Valid() && InUsize(startB) && InUsize(endB)
    modifies v, v.buf
    ensures v.Slots() == old(v.Slots()) && v.Slots()[..] == old(v.Slots()[..])
    ensures v.Cap() == old(v.Cap()) && v.IsHeap() == old(v.IsHeap())
    ensures r.Err? ==> ResolveRange(startB, endB, |old(v.Contents)|) == Err(r.error)
                       && v.Valid() && v.Contents == old(v.Contents)
    ensures r.Ok? ==> ResolveRange(startB, endB, |old(v.Contents)|).Ok?
    ensures r.Ok? ==> fresh(r.value) && r.value.sv == v && r.value.Valid()
    ensures r.Ok? ==>
              var (s, e) := ResolveRange(startB, endB, |old(v.Contents)|).value;
              && r.value.Remaining == old(v.Contents)[s..e]
              && (s < e ==> v.Contents == old(v.Contents)[..s] && r.value.Tail == old(v.Contents)[e..]
                            && !r.value.IsEmptyRange())
              && (s == e ==> v.Contents == old(v.Contents) && r.value.IsEmptyRange())
  {
    var range := ResolveRange(startB, endB, v.Length());
    if range.Err? {
      return Err(range.error);
    }
    var d := DrainResolved(v, range.value.0, range.value.1);
    r := Ok(d);
  }
}
