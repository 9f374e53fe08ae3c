/**
 * Draining a range out of an `ArrayVec`. `drain(range)` resolves the range
 * bounds against the length, cuts the vector's length back to the start of
 * the range and returns an iterator over the drained elements; dropping the
 * iterator drops the elements it did not hand out, moves the tail down to
 * the start of the range, hands the vacated slots to the policy and sets
 * the length to `start + tail_len`.
 */
module ArrayVecDrains {
  import opened Wrappers
  import opened Memory
  import opened SpareMemory
  import opened ArrayVecs
  import ZstDrains
  import LengthType

  /** `usize::MAX` on a 64-bit target. */
  const USIZE_MAX: nat := LengthType.Max(LengthType.Usize)

  /** One end of a `RangeBounds<usize>`. */
  datatype Bound = Included(at: nat) | Excluded(at: nat) | Unbounded

  /** The panics of `drain` on a bad range. */
  datatype RangePanic = EndBoundOverflows | InvalidEndBound | StartBoundOverflows | InvalidRange

  predicate InUsize(b: Bound)
  {
    b.Unbounded? || b.at <= USIZE_MAX
  }

  /**
   * The drained range `[start, end)` of a `drain(range)` on a vector of
   * length `len`, or the panic it raises. The end bound is resolved and
   * checked against `len` before the start bound is looked at.
   */
  function ResolveRange(startB: Bound, endB: Bound, len: nat): (r: Result<(nat, nat), RangePanic>)
    requires InUsize(startB) && InUsize(endB)
    ensures r.Ok? ==> r.value.0 <= r.value.1 <= len
  {
    var endR: Result<nat, RangePanic> :=
      match endB
      case Included(e) => if e == USIZE_MAX then Err(EndBoundOverflows) else Ok(e + 1)
      case Excluded(e) => Ok(e)
      case Unbounded => Ok(len);
    if endR.Err? then Err(endR.error)
    else if endR.value > len then Err(InvalidEndBound)
    else
      var startR: Result<nat, RangePanic> :=
        match startB
        case Included(s) => Ok(s)
        case Excluded(s) => if s == USIZE_MAX then Err(StartBoundOverflows) else Ok(s + 1)
        case Unbounded => Ok(0);
      if startR.Err? then Err(startR.error)
      else if startR.value > endR.value then Err(InvalidRange)
      else Ok((startR.value, endR.value))
  }

  /** A half-open range `a..b` drains `[a, b)` exactly when `a <= b <= len`; `..` drains everything. */
  lemma ResolveRangeLaws(a: nat, b: nat, len: nat)
    requires a <= USIZE_MAX && b <= USIZE_MAX
    ensures ResolveRange(Included(a), Excluded(b), len).Ok? <==> a <= b <= len
    ensures a <= b <= len ==> ResolveRange(Included(a), Excluded(b), len) == Ok((a, b))
    ensures b < USIZE_MAX ==> ResolveRange(Included(a), Included(b), len) == ResolveRange(Included(a), Excluded(b + 1), len)
    ensures ResolveRange(Unbounded, Unbounded, len) == Ok((0, len))
    ensures b > len ==> ResolveRange(Included(a), Excluded(b), len) == Err(InvalidEndBound)
    ensures ResolveRange(Unbounded, Included(USIZE_MAX), len) == Err(EndBoundOverflows)
  {
  }

  /**
   * The live drain. Its slice iterator is `[front, back)`; `tail` and
   * `tail_len` locate the elements after the range, and both are `L::MAX`
   * when the range was empty.
   */
  class Drain<T> {
    const av: ArrayVec<T>
    const tail: nat
    const tailLen: nat
    var front: nat
    var back: nat
    /** The drained elements not yet handed out, front to back. */
    ghost var Remaining: seq<T>
    /** The elements after the drained range. */
    ghost const Tail: seq<T>

    /** The marker of an empty drained range. */
    predicate IsEmptyRange()
      reads this, av
    {
      tail == av.lmax && tailLen == av.lmax
    }

    ghost predicate Valid()
      reads this, av, av.arr
    {
      && av.lmax == LengthType.Max(av.width) && av.arr.Length == av.capacity <= av.lmax
      && |Remaining| == back - front
      && if IsEmptyRange() then av.Valid() && front == back && Tail == []
         else
           && av.len <= front <= back <= tail && av.len < tail && tail + tailLen <= av.capacity
           && |av.Contents| == av.len && (forall i :: 0 <= i < av.len ==> av.arr[i] == Val(av.Contents[i]))
           && (forall i :: front <= i < back ==> av.arr[i] == Val(Remaining[i - front]))
           && |Tail| == tailLen && (forall i :: tail <= i < tail + tailLen ==> av.arr[i] == Val(Tail[i - tail]))
           && HoldsPattern(av.sm, av.arr, tail + tailLen, av.capacity)
    }

    constructor Make(v: ArrayVec<T>, t: nat, tl: nat, f: nat, b: nat, ghost rem: seq<T>, ghost tl0: seq<T>)
      ensures av == v && tail == t && tailLen == tl && front == f && back == b
      ensures Remaining == rem && Tail == tl0
    {
      av := v;
      tail := t;
      tailLen := tl;
      front := f;
      back := b;
      Remaining := rem;
      Tail := tl0;
    }

    /** `next()`: the first remaining drained element. */
    method Next() returns (r: Option<T>)
      requires Valid()
      modifies this
      ensures Valid()
      ensures old(Remaining) == [] ==> r.None? && Remaining == []
      ensures old(Remaining) != [] ==> r == Some(old(Remaining)[0]) && Remaining == old(Remaining)[1..]
    {
      if front < back {
        r := Some(av.arr[front].v);
        front := front + 1;
        Remaining := Remaining[1..];
      } else {
        r := None;
      }
    }

    /** `next_back()`: the last remaining drained element. */
    method NextBack() returns (r: Option<T>)
      requires Valid()
      modifies this
      ensures Valid()
      ensures old(Remaining) == [] ==> r.None? && Remaining == []
      ensures old(Remaining) != [] ==> r == Some(old(Remaining)[|old(Remaining)| - 1])
                                       && Remaining == old(Remaining)[..|old(Remaining)| - 1]
    {
      if front < back {
        back := back - 1;
        r := Some(av.arr[back].v);
        Remaining := Remaining[..|Remaining| - 1];
      } else {
        r := None;
      }
    }

    /** `size_hint()`: exact, the number of remaining drained elements. */
    function SizeHint(): (r: (nat, Option<nat>))
      reads this, av, av.arr
      requires Valid()
      ensures r == (|Remaining|, Some(|Remaining|))
    {
      (back - front, Some(back - front))
    }

    /** `len()` of the exact-size iterator. */
    function Len(): (r: nat)
      reads this, av, av.arr
      requires Valid()
      ensures r == |Remaining|
    {
      back - front
    }

    /** `as_slice()`: the remaining drained elements. */
    function AsSlice(): (r: seq<T>)
      reads this, av, av.arr
      requires Valid()
      ensures r == Remaining
    {
      seq(back - front, i reads this, av.arr requires 0 <= i < back - front && back <= av.arr.Length && av.arr[front + i].Val?
                        => av.arr[front + i].v)
    }

    /**
     * `DropGuard::drop`: moves the `tail_len` tail elements down to the head,
     * hands the `tail - head` slots after the new end to the policy and sets
     * the length to `head + tail_len`.
     */
    method GuardDrop()
      requires Valid() && !IsEmptyRange()
      modifies av, av.arr
      ensures av.Valid() && av.Contents == old(av.Contents) + Tail
      ensures tailLen > 0 ==> av.arr[..] == Wipe(av.sm, Moved(old(av.arr[..]), tail, old(av.len), tailLen), old(av.len) + tailLen, tail - old(av.len))
      ensures tailLen == 0 ==> av.arr[..] == Wipe(av.sm, old(av.arr[..]), old(av.len), tail - old(av.len))
    {
      if tailLen > 0 {
        GuardDropTail();
      } else {
        GuardDropGap();
      }
    }

    /** `DropGuard::drop` with a non-empty tail: the tail closes up the gap and the length is set. */
    method GuardDropTail()
      requires Valid() && !IsEmptyRange() && tailLen > 0
      modifies av, av.arr
      ensures av.Valid() && av.Contents == old(av.Contents) + Tail
      ensures av.arr[..] == Wipe(av.sm, Moved(old(av.arr[..]), tail, old(av.len), tailLen), old(av.len) + tailLen, tail - old(av.len))
    {
      var head := av.len;
      ghost var a0 := av.arr[..];
      ghost var c0 := av.Contents;
      CloseTail(av.sm, av.arr, head, tail, tailLen, c0, Tail);
      av.SetLen(head + tailLen);
      av.Contents := c0 + Tail;
    }

    /** `DropGuard::drop` with an empty tail: only the gap goes to the policy; the length stays at the head. */
    method GuardDropGap()
      requires Valid() && !IsEmptyRange() && tailLen == 0
      modifies av.arr
      ensures av.Valid() && av.Contents == old(av.Contents) + Tail
      ensures av.arr[..] == Wipe(av.sm, old(av.arr[..]), old(av.len), tail - old(av.len))
    {
      var head := av.len;
      ghost var a0 := av.arr[..];
      Init(av.sm, av.arr, head, tail - head);
      GapKeeps(av.sm, a0, av.Contents, head, tail, av.arr[..]);
      assert av.Contents + Tail == av.Contents;
    }

    /**
     * `drop()`: nothing for an empty range; otherwise drops the remaining
     * drained elements (`dropped` of them) and runs the guard. The
     * length and the drops agree with the corrected drop for zero-sized
     * elements.
     */
    method Drop() returns (dropped: nat)
      requires Valid()
      modifies av, av.arr
      ensures av.Valid()
      ensures IsEmptyRange() ==> dropped == 0 && av.len == old(av.len) && av.Contents == old(av.Contents)
                                 && av.arr[..] == old(av.arr[..])
      ensures !IsEmptyRange() ==> av.Contents == old(av.Contents) + Tail
                                  && ZstDrains.ZstDrainDrop(ZstDrains.ZstState(old(av.len), 0), old(|Remaining|), tailLen)
                                     == ZstDrains.ZstState(av.len, dropped)
      ensures !IsEmptyRange() && tailLen > 0 ==>
                av.arr[..] == Wipe(av.sm, Moved(old(av.arr[..]), tail, old(av.len), tailLen), old(av.len) + tailLen, tail - old(av.len))
      ensures !IsEmptyRange() && tailLen == 0 ==> av.arr[..] == Wipe(av.sm, old(av.arr[..]), old(av.len), tail - old(av.len))
    {
      if tailLen == av.lmax && tail == av.lmax {
        return 0;
      }
      dropped := back - front;
      GuardDrop();
    }
  }

  /** The moves of `DropGuard::drop` for a non-empty tail: the tail moves down to `head` and the `tail - head` slots after it go to the policy. */
  method MoveTailDown<T>(sm: Policy, a: array<Slot<T>>, head: nat, tail: nat, tailLen: nat)
    requires head < tail && tail + tailLen <= a.Length
    modifies a
    ensures a[..] == Wipe(sm, Moved(old(a[..]), tail, head, tailLen), head + tailLen, tail - head)
  {
    Move(a, tail, head, tailLen);
    Init(sm, a, head + tailLen, tail - head);
  }

  /**
   * The moves of `DropGuard::drop` for a non-empty tail, over the slots
   * holding `c0` live and `t` at `tail`: afterwards `c0 + t` is live and the
   * pattern holds after it.
   */
  method CloseTail<T>(sm: Policy, a: array<Slot<T>>, head: nat, tail: nat, tailLen: nat, ghost c0: seq<T>, ghost t: seq<T>)
    requires |c0| == head < tail && |t| == tailLen && tail + tailLen <= a.Length
    requires forall i :: 0 <= i < |c0| ==> a[i] == Val(c0[i])
    requires forall j :: 0 <= j < |t| ==> a[tail + j] == Val(t[j])
    requires sm.Pattern? ==> forall i :: tail + |t| <= i < a.Length ==> a[i] == Wiped(sm.p)
    modifies a
    ensures a[..] == Wipe(sm, Moved(old(a[..]), tail, |c0|, |t|), |c0| + |t|, tail - |c0|)
    ensures forall i :: 0 <= i < |c0| + |t| ==> a[i] == Val((c0 + t)[i])
    ensures sm.Pattern? ==> forall i :: |c0| + |t| <= i < a.Length ==> a[i] == Wiped(sm.p)
  {
    ghost var a0 := a[..];
    MoveTailDown(sm, a, head, tail, tailLen);
    GuardKeeps(sm, a0, c0, head, tail, t, Moved(a0, tail, head, tailLen), a[..]);
  }

  /**
   * The guard's move on the slots as a sequence: with the live elements `c0`
   * in `[0, head)`, the tail `t` at `tail` and the pattern after it, moving
   * the tail down to `head` (`a1`) and handing the `tail - head` slots after
   * it to the policy (`a2`) leaves `c0 + t` in front and the pattern after it.
   */
  lemma GuardKeeps<T>(sm: Policy, a0: seq<Slot<T>>, c0: seq<T>, head: nat, tail: nat, t: seq<T>,
                      a1: seq<Slot<T>>, a2: seq<Slot<T>>)
    requires |c0| == head < tail && tail + |t| <= |a0|
    requires forall i :: 0 <= i < head ==> a0[i] == Val(c0[i])
    requires forall j :: 0 <= j < |t| ==> a0[tail + j] == Val(t[j])
    requires sm.Pattern? ==> forall i :: tail + |t| <= i < |a0| ==> a0[i] == Wiped(sm.p)
    requires a1 == Moved(a0, tail, head, |t|) && a2 == Wipe(sm, a1, head + |t|, tail - head)
    ensures |a2| == |a0|
    ensures forall i :: 0 <= i < head + |t| ==> a2[i] == Val((c0 + t)[i])
    ensures sm.Pattern? ==> forall i :: head + |t| <= i < |a2| ==> a2[i] == Wiped(sm.p)
  {
  }

  /** With an empty tail, handing the `tail - head` slots after the live elements to the policy leaves the pattern from `head` on. */
  lemma GapKeeps<T>(sm: Policy, a0: seq<Slot<T>>, c0: seq<T>, head: nat, tail: nat, a2: seq<Slot<T>>)
    requires |c0| == head <= tail <= |a0|
    requires forall i :: 0 <= i < head ==> a0[i] == Val(c0[i])
    requires sm.Pattern? ==> forall i :: tail <= i < |a0| ==> a0[i] == Wiped(sm.p)
    requires a2 == Wipe(sm, a0, head, tail - head)
    ensures |a2| == |a0|
    ensures forall i :: 0 <= i < head ==> a2[i] == Val(c0[i])
    ensures sm.Pattern? ==> forall i :: head <= i < |a2| ==> a2[i] == Wiped(sm.p)
  {
  }

  /**
   * The body of `drain` once the range `[start, end)` is resolved: a
   * non-empty range cuts the length back to `start`; an empty one leaves the
   * vector as it is and is marked by `tail = tail_len = L::MAX`. Only the
   * length changes.
   */
  method DrainResolved<T>(v: ArrayVec<T>, start: nat, end: nat) returns (d: Drain<T>)
    requires v.Valid() && start <= end <= v.len
    modifies v
    ensures v.arr[..] == old(v.arr[..])
    ensures fresh(d) && d.av == v && d.Valid() && d.Remaining == old(v.Contents)[start..end]
    ensures start < end ==> v.Contents == old(v.Contents)[..start] && d.Tail == old(v.Contents)[end..] && !d.IsEmptyRange()
    ensures start == end ==> v.Contents == old(v.Contents) && v.len == old(v.len) && d.IsEmptyRange()
  {
    var len := v.len;
    if start < end {
      ghost var c := v.Contents;
      assert forall i :: start <= i < end ==> v.arr[i] == Val(c[start..end][i - start]);
      assert forall i :: end <= i < len ==> v.arr[i] == Val(c[end..][i - end]);
      v.SetLen(start);
      v.Contents := c[..start];
      d := new Drain.Make(v, end, len - end, start, end, c[start..end], c[end..]);
    } else {
      d := new Drain.Make(v, v.lmax, v.lmax, 0, 0, [], []);
    }
  }

  /** `drain(range)`: the panic of a bad range, with no change; otherwise the drain over the resolved range. */
  method StartDrain<T>(v: ArrayVec<T>, startB: Bound, endB: Bound) returns (r: Result<Drain<T>, RangePanic>)
    requires v.Valid() && InUsize(startB) && InUsize(endB)
    modifies v
    ensures v.arr[..] == old(v.arr[..])
    ensures r.Err? ==> ResolveRange(startB, endB, old(v.len)) == Err(r.error)
                       && v.len == old(v.len) && v.Contents == old(v.Contents)
    ensures r.Ok? ==> ResolveRange(startB, endB, old(v.len)).Ok?
    ensures r.Ok? ==> fresh(r.value) && r.value.av == v && r.value.Valid()
    ensures r.Ok? ==>
              var (s, e) := ResolveRange(startB, endB, old(v.len)).value;
              && r.value.Remaining == old(v.Contents)[s..e]
              && (s < e ==> v.Contents == old(v.Contents)[..s] && r.value.Tail == old(v.Contents)[e..]
                            && !r.value.IsEmptyRange())
              && (s == e ==> v.Contents == old(v.Contents) && r.value.IsEmptyRange())
  {
    var range := ResolveRange(startB, endB, v.len);
    if range.Err? {
      return Err(range.error);
    }
    var d := DrainResolved(v, range.value.0, range.value.1);
    r := Ok(d);
  }

  /**
   * `v.drain(start..end)` followed by dropping the iterator: the drained
   * elements are `old[start..end]`, and the vector is left holding
   * `old[..start] + old[end..]`, whether or not the range is empty.
   */
  method DrainClosesUp<T>(v: ArrayVec<T>, start: nat, end: nat) returns (drained: seq<T>)
    requires v.Valid() && start <= end <= v.len
    modifies v, v.arr
    ensures v.Valid()
    ensures drained == old(v.Contents)[start..end]
    ensures v.Contents == old(v.Contents)[..start] + old(v.Contents)[end..]
    ensures |v.Contents| == |old(v.Contents)| - (end - start)
  {
    ghost var c := v.Contents;
    LengthType.MaxValues();
    ResolveRangeLaws(start, end, v.len);
    var r := StartDrain(v, Included(start), Excluded(end));
    assert r.Ok?;
    var d := r.value;
    drained := d.AsSlice();
    var _ := d.Drop();
    if start == end {
      assert c[..start] + c[end..] == c;
    }
  }

  /** An empty range is the only drain marked with `tail = tail_len = L::MAX`. */
  lemma NonEmptyDrainIsNotMarked(lmax: nat, capacity: nat, tail: nat, tailLen: nat)
    requires capacity <= lmax && 0 < tail && tail + tailLen <= capacity
    ensures !(tail == lmax && tailLen == lmax)
  {
  }
}
