/**
 * `SmallVec`: a vector that keeps up to `C` elements in a local array and
 * moves them to a heap buffer once it needs more room. One length-type
 * field, `capacity`, tells the two modes apart: while it is at most `C` the
 * vector is local and the field is the length; once it exceeds `C` the
 * vector is on the heap, the field is the heap capacity and the length sits
 * in the buffer next to the heap pointer. A vector never returns to local
 * storage. The live elements fill the front of the slot array in use, and
 * every slot the vector vacates or allocates is handed to the spare-memory
 * policy, so under a pattern policy every slot in `[len, capacity)` holds
 * the pattern. Zero-sized element types are not modelled.
 */
module SmallVecs {
  import opened Wrappers
  import opened Memory
  import opened SpareMemory
  import opened Errors
  import opened SeqOps
  import opened Retaining
  import opened Reservations
  import LengthType

  /** The live elements `xs` fill the front of `a`; under a pattern policy every slot after them holds the pattern. */
  ghost predicate Stores<T>(sm: Policy, a: array<Slot<T>>, xs: seq<T>)
    reads a
  {
    && |xs| <= a.Length
    && (forall i :: 0 <= i < |xs| ==> a[i] == Val(xs[i]))
    && HoldsPattern(sm, a, |xs|, a.Length)
  }

  /**
   * `Buffer`: the local array of `C` slots and the heap pair
   * (pointer, length), kept as separate fields where the source overlays
   * them in one union. The pair is only meaningful once the vector is on
   * the heap; before that the pointer is a dangling empty array.
   */
  class Buffer<T> {
    /** The local array, `[MaybeUninit<T>; C]`. */
    const local: array<Slot<T>>
    /** The heap pointer. */
    var heap: array<Slot<T>>
    /** The heap length. */
    var heapLen: nat
    /** `L::MAX`, the bound of the heap length. */
    const lmax: nat

    /** `Buffer::new()` (`Local::new()`): the local array, all `C` slots handed to the policy. */
    constructor New(c: nat, max: nat, sm: Policy)
      ensures fresh(local) && fresh(heap) && local.Length == c && lmax == max && heapLen == 0
      ensures Stores(sm, local, [])
    {
      local := new Slot<T>[c](_ => Uninit);
      heap := new Slot<T>[0];
      heapLen := 0;
      lmax := max;
      new;
      Init(sm, local, 0, c);
    }

    /** `set_heap(p, l)`: sets both components of the heap pair. */
    method SetHeap(p: array<Slot<T>>, l: nat)
      requires l <= lmax
      modifies this
      ensures heap == p && heapLen == l
    {
      heap := p;
      heapLen := l;
    }

    /** `set_heap_ptr(p)`: only the pointer changes. */
    method SetHeapPtr(p: array<Slot<T>>)
      modifies this
      ensures heap == p && heapLen == old(heapLen)
    {
      heap := p;
    }

    /** `set_heap_len(l)`: only the length changes. */
    method SetHeapLen(l: nat)
      requires l <= lmax
      modifies this
      ensures heapLen == l && heap == old(heap)
    {
      heapLen := l;
    }

    /** `heap_len_add_assign(c)`: the heap length grows by `c`. */
    method HeapLenAddAssign(c: nat)
      requires heapLen + c <= lmax
      modifies this
      ensures heapLen == old(heapLen) + c && heap == old(heap)
    {
      heapLen := heapLen + c;
    }
  }

  /** `SetLenOnDrop`: on drop, an armed guard sets the vector's length to `len`; an unarmed one does nothing. */
  datatype SetLenOnDrop = SetLenOnDrop(len: nat, armed: bool)

  class SmallVec<T> {
    /** `C`, the number of elements the local array holds. */
    const localCap: nat
    /** `L`, the length type. */
    const width: LengthType.Width
    /** `L::MAX`. */
    const lmax: nat
    /** `SM`, the spare-memory policy. */
    const sm: Policy
    /** `size_of::<T>()` in bytes. */
    const elemSize: nat
    /** The allocator: whether a request of `n` bytes succeeds. */
    const grants: nat -> bool
    /** The local/heap union. */
    const buf: Buffer<T>
    /** The `capacity` field: the length while local (`<= C`), the heap capacity on the heap (`> C`). */
    var capacity: nat
    /** The live elements, in order. */
    ghost var Contents: seq<T>

    /** `is_heap()`. */
    predicate IsHeap()
      reads this
    {
      capacity > localCap
    }

    /** The slot array `len_mut_p()` points into: the local array while local, the heap array otherwise. */
    function Slots(): array<Slot<T>>
      reads this, buf
    {
      if capacity <= localCap then buf.local else buf.heap
    }

    /** The length as the mode encodes it: the `capacity` field while local, the heap length otherwise. */
    function Length(): nat
      reads this, buf
    {
      if capacity <= localCap then capacity else buf.heapLen
    }

    /** The capacity as the mode encodes it: `max(capacity, C)`. */
    function Cap(): nat
      reads this
    {
      if capacity <= localCap then localCap else capacity
    }

    /** The mode encoding: the local array has `C` slots; on the heap the array has `capacity` slots and holds the length. */
    ghost predicate Shape()
      reads this, buf
    {
      && lmax == LengthType.Max(width) && localCap <= lmax && elemSize > 0 && buf.lmax == lmax
      && buf.local.Length == localCap
      && (capacity > localCap ==> buf.heap != buf.local && buf.heap.Length == capacity <= lmax && buf.heapLen <= capacity)
    }

    ghost predicate Valid()
      reads this, buf, buf.local, buf.heap
    {
      && Shape()
      && |Contents| == Length()
      && Stores(sm, Slots(), Contents)
    }

    /** `new()`: an empty local vector whose `C` slots have been handed to the policy. */
    constructor New(w: LengthType.Width, c: nat, policy: Policy, size: nat, alloc: nat -> bool)
      requires c <= LengthType.Max(w) && size > 0
      ensures Valid() && fresh(buf) && fresh(buf.local) && fresh(buf.heap)
      ensures localCap == c && width == w && sm == policy && elemSize == size && grants == alloc
      ensures Contents == [] && !IsHeap()
    {
      localCap := c;
      width := w;
      lmax := LengthType.Max(w);
      sm := policy;
      elemSize := size;
      grants := alloc;
      buf := new Buffer<T>.New(c, LengthType.Max(w), policy);
      capacity := 0;
      Contents := [];
    }

    /** `len()`: the number of live elements. */
    function Len(): (n: nat)
      reads this, buf, buf.local, buf.heap
      requires Valid()
      ensures n == |Contents| <= Capacity()
    {
      Length()
    }

    /** `capacity()`: `C` while local, the heap capacity on the heap. */
    function Capacity(): (n: nat)
      reads this, buf, buf.local, buf.heap
      requires Valid()
      ensures n == Slots().Length && localCap <= n <= lmax
      ensures IsHeap() <==> n > localCap
    {
      Cap()
    }

    /** `is_local()`: the elements live in the local array. */
    function IsLocal(): (r: bool)
      reads this, buf, buf.local, buf.heap
      requires Valid()
      ensures r <==> Slots() == buf.local
      ensures r <==> !IsHeap()
    {
      capacity <= localCap
    }

    /** `spare_capacity()`. */
    function SpareCapacity(): (r: nat)
      reads this, buf, buf.local, buf.heap
      requires Valid()
      ensures r + |Contents| == Capacity()
    {
      if capacity <= localCap then localCap - capacity else capacity - buf.heapLen
    }

    /** `is_full()`. */
    function IsFull(): (r: bool)
      reads this, buf, buf.local, buf.heap
      requires Valid()
      ensures r <==> |Contents| == Capacity()
    {
      if capacity <= localCap then capacity == localCap else capacity == buf.heapLen
    }

    /** `is_empty()`. */
    function IsEmpty(): (r: bool)
      reads this, buf, buf.local, buf.heap
      requires Valid()
      ensures r <==> Contents == []
    {
      Length() == 0
    }

    /** `as_slice()`: the live elements. */
    function AsSlice(): (r: seq<T>)
      reads this, buf, buf.local, buf.heap
      requires Valid()
      ensures r == Contents
    {
      var a := Slots();
      seq(Length(), i reads this, buf, a requires 0 <= i < Length() && Length() <= a.Length && a[i].Val? => a[i].v)
    }

    /**
     * `set_len(n)`: the `capacity` field while local, the heap length
     * otherwise. Only the length changes; the mode and the slots stay.
     */
    method SetLen(n: nat)
      requires buf.lmax == lmax && localCap <= lmax && n <= Cap() && (capacity > localCap ==> capacity <= lmax)
      modifies this, buf
      ensures Length() == n && Contents == old(Contents)
      ensures capacity <= localCap <==> old(capacity) <= localCap
      ensures Cap() == old(Cap()) && Slots() == old(Slots()) && buf.heap == old(buf.heap)
    {
      if capacity <= localCap {
        capacity := n;
      } else {
        buf.SetHeapLen(n);
      }
    }

    /** The drop of a `SetLenOnDrop` guard over this vector. */
    method DropGuard(g: SetLenOnDrop)
      requires Valid() && g.len <= Capacity() && (g.armed ==> g.len == |Contents|)
      modifies this, buf
      ensures Valid() && Contents == old(Contents) && Cap() == old(Cap()) && IsHeap() == old(IsHeap())
      ensures g.armed ==> Len() == g.len
      ensures !g.armed ==> capacity == old(capacity) && buf.heapLen == old(buf.heapLen)
    {
      if g.armed {
        SetLen(g.len);
      }
    }

    /** The outcome `reserve_core(additional)` has on this vector: its new capacity, or the error. */
    ghost function Reservation(additional: nat, exact: bool): Result<nat, ReservationError>
      reads this, buf, buf.local, buf.heap
      requires Valid()
    {
      Reserved(width, elemSize, grants, Len(), Capacity(), additional, exact)
    }

    /** The reservation `try_resize(_with)` makes to reach length `new_len`: `new_len - len` more elements. */
    ghost function ReservationTo(newLen: nat): Result<nat, ReservationError>
      reads this, buf, buf.local, buf.heap
      requires Valid()
    {
      Reservation(if newLen > Len() then newLen - Len() else 0, false)
    }

    /**
     * The promotion in `reserve_core`: allocates `new_cap` slots, copies the
     * local elements (and, unless the policy is a no-op, the local spare
     * slots) to the front, hands the slots past `C` and then the vacated
     * local slots to the policy, and records the heap pair with the old
     * length.
     */
    method Promote(newCap: nat)
      requires Valid() && capacity <= localCap < newCap <= lmax
      modifies this, buf, buf.local
      ensures Valid() && Contents == old(Contents) && capacity == newCap && IsHeap()
      ensures fresh(buf.heap) && buf.heapLen == old(capacity)
    {
      var len := capacity;
      var p := new Slot<T>[newCap](_ => Uninit);
      var n := if Noop(sm) then len else localCap;
      CopyAcross(buf.local, p, n);
      if !Noop(sm) {
        Init(sm, p, localCap, newCap - localCap);
      }
      PromotedStores(sm, buf.local[..], Contents, p[..], n, localCap);
      if !Noop(sm) {
        Init(sm, buf.local, 0, len);
      }
      buf.SetHeap(p, len);
      capacity := newCap;
    }

    /**
     * The heap growth in `reserve_core`: a new array of `new_cap` slots
     * holding the whole old array (a `realloc` for a no-op policy; for any
     * other policy an allocation and a copy, after which the old live slots
     * go to the policy before the old array is freed), its new slots handed
     * to the policy.
     */
    method GrowHeap(newCap: nat)
      requires Valid() && localCap < capacity < newCap <= lmax
      modifies this, buf, buf.heap
      ensures Valid() && Contents == old(Contents) && capacity == newCap && IsHeap()
      ensures fresh(buf.heap) && buf.heapLen == old(buf.heapLen)
    {
      var cap := capacity;
      var old_p := buf.heap;
      var p := new Slot<T>[newCap](_ => Uninit);
      CopyAcross(old_p, p, cap);
      if !Noop(sm) {
        Init(sm, p, cap, newCap - cap);
      }
      PromotedStores(sm, old_p[..], Contents, p[..], cap, cap);
      if !Noop(sm) {
        Init(sm, old_p, 0, buf.heapLen);
      }
      buf.SetHeapPtr(p);
      capacity := newCap;
    }

    /**
     * `reserve_core(additional, nc)`: nothing when the spare capacity
     * covers `additional`; otherwise the growth rule's capacity, checked
     * against `isize::MAX` bytes and allocated, after which the elements
     * sit in the new heap array. A failure changes nothing.
     */
    method ReserveCore(additional: nat, exact: bool) returns (r: Result<(), ReservationError>)
      requires Valid()
      modifies this, buf, buf.local, buf.heap
      ensures Valid() && Contents == old(Contents)
      ensures r.Ok? ==> old(Len()) + additional <= Capacity()
      ensures var res := Reserved(width, elemSize, grants, old(Len()), old(Capacity()), additional, exact);
              && (r.Ok? <==> res.Ok?)
              && (r.Err? ==> r.error == res.error)
              && (r.Ok? ==> Capacity() == res.value)
      ensures r.Err? || Capacity() == old(Capacity()) ==>
                capacity == old(capacity) && buf.heap == old(buf.heap) && buf.heapLen == old(buf.heapLen)
      ensures r.Ok? && Capacity() != old(Capacity()) ==> IsHeap() && fresh(buf.heap)
    {
      var len := Len();
      var cap := Capacity();
      if additional <= cap - len {
        return Ok(());
      }
      var nc := NewCapacity(width, len, additional, exact);
      if nc.Err? {
        return Err(nc.error);
      }
      var a := Allocate(elemSize, grants, nc.value);
      if a.Err? {
        return Err(a.error);
      }
      ReservedLaws(width, elemSize, grants, len, cap, additional, exact);
      if capacity <= localCap {
        Promote(nc.value);
      } else {
        GrowHeap(nc.value);
      }
      r := Ok(());
    }

    /** `try_reserve(additional)`: `reserve_core` with the power-of-two growth rule. */
    method TryReserve(additional: nat) returns (r: Result<(), ReservationError>)
      requires Valid()
      modifies this, buf, buf.local, buf.heap
      ensures Valid() && Contents == old(Contents)
      ensures var res := Reserved(width, elemSize, grants, old(Len()), old(Capacity()), additional, false);
              && (r.Ok? <==> res.Ok?)
              && (r.Err? ==> r.error == res.error && Capacity() == old(Capacity()) && IsHeap() == old(IsHeap()))
              && (r.Ok? ==> Capacity() == res.value && (IsHeap() <==> old(IsHeap()) || res.value != old(Capacity())))
    {
      r := ReserveCore(additional, false);
    }

    /** `try_reserve_exact(additional)`: `reserve_core` growing to exactly `len + additional`. */
    method TryReserveExact(additional: nat) returns (r: Result<(), ReservationError>)
      requires Valid()
      modifies this, buf, buf.local, buf.heap
      ensures Valid() && Contents == old(Contents)
      ensures var res := Reserved(width, elemSize, grants, old(Len()), old(Capacity()), additional, true);
              && (r.Ok? <==> res.Ok?)
              && (r.Err? ==> r.error == res.error && Capacity() == old(Capacity()) && IsHeap() == old(IsHeap()))
              && (r.Ok? ==> Capacity() == res.value && (IsHeap() <==> old(IsHeap()) || res.value != old(Capacity())))
    {
      r := ReserveCore(additional, true);
    }
    /** `with_capacity(n)`: a new vector after `reserve_exact(n)`, which panics unless the reservation succeeds. */
    static method WithCapacity(w: LengthType.Width, c: nat, policy: Policy, size: nat, alloc: nat -> bool, n: nat)
      returns (v: SmallVec<T>)
      requires c <= LengthType.Max(w) && size > 0
      requires Reserved(w, size, alloc, 0, c, n, true).Ok?
      ensures fresh(v) && v.Valid() && v.Contents == []
      ensures v.localCap == c && v.width == w && v.sm == policy && v.elemSize == size && v.grants == alloc
      ensures v.Capacity() == Reserved(w, size, alloc, 0, c, n, true).value
      ensures v.IsHeap() <==> n > c
    {
      v := new SmallVec<T>.New(w, c, policy, size, alloc);
      var r := v.ReserveCore(n, true);
      ReservedLaws(w, size, alloc, 0, c, n, true);
    }

    /**
     * Writes `e` into the first spare slot and counts it: the write and
     * length increment that `try_push`, `try_extend_impl` and
     * `try_resize(_with)` perform once there is room.
     */
    method AppendOne(e: T)
      requires Valid() && Len() < Capacity()
      modifies this, buf, Slots()
      ensures Valid() && Contents == old(Contents) + [e]
      ensures Capacity() == old(Capacity()) && IsHeap() == old(IsHeap()) && buf.heap == old(buf.heap)
    {
      var a := Slots();
      var n := Length();
      a[n] := Val(e);
      SetLen(n + 1);
      Contents := Contents + [e];
    }

    /**
     * `try_push(e)`: appends `e`, first reserving room for one more element
     * (power-of-two growth) when the vector is full. A failed reservation
     * changes nothing.
     */
    method TryPush(e: T) returns (r: Result<(), ReservationError>)
      requires Valid()
      modifies this, buf, buf.local, buf.heap
      ensures Valid()
      ensures r.Ok? <==> old(Reservation(1, false)).Ok?
      ensures r.Ok? ==> Contents == old(Contents) + [e] && Capacity() == old(Reservation(1, false)).value
      ensures r.Err? ==> r.error == old(Reservation(1, false)).error && Contents == old(Contents) && Capacity() == old(Capacity())
      ensures IsHeap() <==> old(IsHeap()) || Capacity() != old(Capacity())
    {
      var cap := capacity;
      if cap < localCap {
        AppendOne(e);
      } else {
        if cap == localCap || buf.heapLen == cap {
          r := ReserveCore(1, false);
          if r.Err? {
            return;
          }
        }
        AppendOne(e);
      }
      r := Ok(());
    }

    /** `pop()`: the last element, its slot handed to the policy; `None` (and no change) when empty. */
    method Pop() returns (r: Option<T>)
      requires Valid()
      modifies this, buf, buf.local, buf.heap
      ensures Valid() && Capacity() == old(Capacity()) && IsHeap() == old(IsHeap())
      ensures r.None? <==> old(Contents) == []
      ensures r.Some? ==> r.value == old(Contents)[|old(Contents)| - 1] && Contents == old(Contents)[..|old(Contents)| - 1]
      ensures r.None? ==> Contents == old(Contents)
    {
      var n := Length();
      if n == 0 {
        return None;
      }
      var a := Slots();
      SetLen(n - 1);
      var e := a[n - 1].v;
      Init(sm, a, n - 1, 1);
      Contents := Contents[..n - 1];
      r := Some(e);
    }

    /** `truncate(n)`: drops the elements `[n, len)` and hands their slots to the policy; the mode never changes. */
    method Truncate(n: nat)
      requires Valid()
      modifies this, buf, buf.local, buf.heap
      ensures Valid() && Capacity() == old(Capacity()) && IsHeap() == old(IsHeap())
      ensures Contents == if n < |old(Contents)| then old(Contents)[..n] else old(Contents)
      ensures buf.heap == old(buf.heap)
    {
      var myLen := Length();
      if n < myLen {
        var a := Slots();
        SetLen(n);
        Init(sm, a, n, myLen - n);
        Contents := Contents[..n];
      }
    }

    /** `clear()`: `truncate(0)`; a heap vector stays on the heap. */
    method Clear()
      requires Valid()
      modifies this, buf, buf.local, buf.heap
      ensures Valid() && Contents == [] && Capacity() == old(Capacity()) && IsHeap() == old(IsHeap())
      ensures buf.heap == old(buf.heap)
    {
      Truncate(0);
    }

    /**
     * Shifts `[index, len)` one slot right, writes `value` at `index` and
     * counts it: the tail of `try_insert` once there is room.
     */
    method InsertSpare(index: nat, value: T)
      requires Valid() && index <= Len() < Capacity()
      modifies this, buf, Slots()
      ensures Valid() && Contents == InsertAt(old(Contents), index, value)
      ensures Capacity() == old(Capacity()) && IsHeap() == old(IsHeap()) && buf.heap == old(buf.heap)
    {
      var a := Slots();
      var n := Length();
      ghost var c := InsertAt(Contents, index, value);
      SetLen(n + 1);
      Move(a, index, index + 1, n - index);
      a[index] := Val(value);
      assert forall i :: 0 <= i <= n ==> a[i] == Val(c[i]);
      Contents := c;
    }

    /**
     * `try_insert(index, value)`: `InvalidIndex` when `index > len`, checked
     * before any reservation; otherwise, when the vector is full, a
     * reservation for one more element whose failure is reported and
     * changes nothing; then the insertion.
     */
    method TryInsert(index: nat, value: T) returns (r: Result<(), SmallVecInsertError>)
      requires Valid()
      modifies this, buf, buf.local, buf.heap
      ensures Valid()
      ensures r == Err(InvalidIndexS) <==> index > |old(Contents)|
      ensures index <= |old(Contents)| ==>
                && (r.Ok? <==> old(Reservation(1, false)).Ok?)
                && (r.Err? ==> r == Err(ReservationErrorS(old(Reservation(1, false)).error)))
      ensures r.Ok? ==> Contents == InsertAt(old(Contents), index, value) && Capacity() == old(Reservation(1, false)).value
      ensures r.Err? ==> Contents == old(Contents) && Capacity() == old(Capacity())
      ensures IsHeap() <==> old(IsHeap()) || Capacity() != old(Capacity())
    {
      var len := Length();
      if index > len {
        return Err(InvalidIndexS);
      }
      if len == Cap() {
        var rr := ReserveCore(1, false);
        if rr.Err? {
          return Err(ReservationErrorS(rr.error));
        }
      }
      InsertSpare(index, value);
      r := Ok(());
    }

    /**
     * `try_remove(index)`: `None` (and no change) iff `index >= len`;
     * otherwise the element, the rest shifted left and the vacated last
     * slot handed to the policy.
     */
    method TryRemove(index: nat) returns (r: Option<T>)
      requires Valid()
      modifies this, buf, buf.local, buf.heap
      ensures Valid() && Capacity() == old(Capacity()) && IsHeap() == old(IsHeap())
      ensures r.None? <==> index >= |old(Contents)|
      ensures r.Some? ==> r.value == old(Contents)[index] && Contents == RemoveAt(old(Contents), index)
      ensures r.None? ==> Contents == old(Contents)
    {
      var len := Length();
      if index >= len {
        return None;
      }
      var a := Slots();
      SetLen(len - 1);
      var value := a[index].v;
      var toCopy := len - index - 1;
      Move(a, index + 1, index, toCopy);
      Init(sm, a, index + toCopy, 1);
      Contents := RemoveAt(Contents, index);
      r := Some(value);
    }

    /**
     * `try_swap_remove(index)`: `None` (and no change) iff `index >= len`;
     * otherwise the element, the last element moved into its slot and the
     * last slot handed to the policy.
     */
    method TrySwapRemove(index: nat) returns (r: Option<T>)
      requires Valid()
      modifies this, buf, buf.local, buf.heap
      ensures Valid() && Capacity() == old(Capacity()) && IsHeap() == old(IsHeap())
      ensures r.None? <==> index >= |old(Contents)|
      ensures r.Some? ==> r.value == old(Contents)[index] && Contents == SwapRemoveAt(old(Contents), index)
      ensures r.None? ==> Contents == old(Contents)
    {
      var len := Length();
      if index >= len {
        return None;
      }
      var a := Slots();
      SetLen(len - 1);
      var value := a[index].v;
      Move(a, len - 1, index, 1);
      Init(sm, a, len - 1, 1);
      Contents := SwapRemoveAt(Contents, index);
      r := Some(value);
    }
    /**
     * `RetainGuard::drop` on the slot array in use: the unprocessed elements
     * `[processed, n)` move left by `deleted`, the `deleted` slots from the
     * new end go to the policy, and the length becomes `n - deleted`.
     */
    method RetainGuardDrop(a: array<Slot<T>>, n: nat, processed: nat, deleted: nat)
      requires a == Slots() && deleted <= processed <= n <= a.Length == Cap()
      requires buf.lmax == lmax && localCap <= lmax && (capacity > localCap ==> capacity <= lmax)
      modifies this, buf, a
      ensures Length() == n - deleted && Contents == old(Contents)
      ensures Slots() == a && Cap() == old(Cap()) && (capacity <= localCap <==> old(capacity) <= localCap)
      ensures buf.heap == old(buf.heap)
      ensures a[..] == if deleted > 0
                       then Wipe(sm, Moved(old(a[..]), processed, processed - deleted, n - processed), n - deleted, deleted)
                       else old(a[..])
      ensures forall i :: 0 <= i < processed - deleted || n <= i < a.Length ==> a[i] == old(a[i])
      ensures HoldsPattern(sm, a, n - deleted, n)
    {
      CloseGap(sm, a, n, processed, deleted);
      SetLen(n - deleted);
    }

    /** The end of `retain_mut`: every element visited, the guard closes the gap and sets the length. */
    method RetainFinish<S>(a: array<Slot<T>>, f: (S, T) -> Visit<S, T>, st: S, n: nat, deleted: nat, u: S,
                           ghost orig: seq<T>, ghost spare: seq<Slot<T>>, ghost kept: seq<T>)
      requires n == |orig| && RetainProgress(a, f, st, orig, spare, n, deleted, u, kept)
      requires a == Slots() && a.Length == Cap() && HoldsPattern(sm, a, n, a.Length)
      requires Shape()
      modifies this, buf, a
      ensures Valid() && (u, Contents) == Retained(f, st, orig)
      ensures Cap() == old(Cap()) && (capacity <= localCap <==> old(capacity) <= localCap)
    {
      assert orig[..n] == orig;
      RetainGuardDrop(a, n, n, deleted);
      assert forall i :: 0 <= i < n - deleted ==> a[i] == Val(kept[i]);
      assert HoldsPattern(sm, a, n - deleted, a.Length);
      Contents := kept;
    }

    /**
     * `retain_mut(f)`: with the length set to zero, visits every element
     * once, in index order, letting `f` mutate it and decide whether it
     * stays; the kept elements close up in their original order and the
     * guard restores the length. The mode never changes.
     */
    method RetainMut<S>(f: (S, T) -> Visit<S, T>, st: S) returns (st': S)
      requires Valid()
      modifies this, buf, buf.local, buf.heap
      ensures Valid() && (st', Contents) == Retained(f, st, old(Contents))
      ensures Capacity() == old(Capacity()) && IsHeap() == old(IsHeap())
    {
      var n := Length();
      var a := Slots();
      ghost var orig := Contents;
      ghost var spare := a[n..];
      SetLen(0);
      RetainStart(a, f, st, orig, spare);
      var processed, deleted, u, kept := RetainFirstLoop(a, f, st, n, orig, spare);
      processed, deleted, u, kept := RetainSecondLoop(a, f, st, n, processed, deleted, u, orig, spare, kept);
      RetainFinish(a, f, st, n, deleted, u, orig, spare, kept);
      st' := u;
    }

    /**
     * One item of the loop of `try_extend_impl`: when the vector is full,
     * room for one more element (power-of-two growth), then the write. A
     * failed reservation changes nothing.
     */
    method ExtendStep(e: T) returns (r: Result<(), ReservationError>)
      requires Valid()
      modifies this, buf, buf.local, buf.heap
      ensures Valid()
      ensures r.Ok? ==> Contents == old(Contents) + [e]
      ensures r.Err? ==> Contents == old(Contents)
      ensures ((forall n :: grants(n)) && elemSize * lmax <= ISIZE_MAX && |old(Contents)| < lmax) ==> r.Ok?
      ensures Capacity() >= old(Capacity()) && (old(IsHeap()) ==> IsHeap())
      ensures buf.heap == old(buf.heap) || fresh(buf.heap)
    {
      if Length() >= Cap() {
        ReservedSucceeds(width, elemSize, grants, Len(), Cap(), 1, false);
        ReservedLaws(width, elemSize, grants, Len(), Cap(), 1, false);
        r := ReserveCore(1, false);
        if r.Err? {
          return;
        }
      }
      AppendOne(e);
      r := Ok(());
    }

    /**
     * `try_extend_impl(items)`: reserves room for the iterator's size hint,
     * then writes the items one by one, reserving room for one more
     * whenever the vector is full; an armed `SetLenOnDrop` guard makes
     * every element written before a failure stay. `k` counts the items
     * appended. The length is set as each element is written rather than
     * when the guard is dropped, which leaves the same vector behind.
     */
    method TryExtend(items: seq<T>, hint: nat) returns (r: Result<(), ReservationError>, ghost k: nat)
      requires Valid()
      modifies this, buf, buf.local, buf.heap
      ensures Valid() && k <= |items| && Contents == old(Contents) + items[..k]
      ensures r.Ok? ==> k == |items|
      ensures k < |items| ==> r.Err?
      ensures old(Reservation(hint, false)).Err? ==> r == Err(old(Reservation(hint, false)).error) && k == 0
      ensures |old(Contents)| + |items| > lmax ==> r.Err?
      ensures ((forall n :: grants(n)) && elemSize * lmax <= ISIZE_MAX
               && |old(Contents)| + hint <= lmax && |old(Contents)| + |items| <= lmax) ==> r.Ok?
      ensures Capacity() >= old(Capacity()) && (old(IsHeap()) ==> IsHeap())
    {
      var len := Length();
      var g := SetLenOnDrop(len, true);
      k := 0;
      ReservedSucceeds(width, elemSize, grants, len, Cap(), hint, false);
      r := ReserveCore(hint, false);
      if r.Err? {
        DropGuard(g);
        return;
      }
      r, k := ExtendLoop(items, g);
    }

    /** The loop of `try_extend_impl`, with the armed guard `g` counting the length. */
    method ExtendLoop(items: seq<T>, g0: SetLenOnDrop) returns (r: Result<(), ReservationError>, ghost k: nat)
      requires Valid() && g0 == SetLenOnDrop(|Contents|, true)
      modifies this, buf, buf.local, buf.heap
      ensures Valid() && k <= |items| && Contents == old(Contents) + items[..k]
      ensures r.Ok? ==> k == |items|
      ensures k < |items| ==> r.Err?
      ensures ((forall n :: grants(n)) && elemSize * lmax <= ISIZE_MAX && |old(Contents)| + |items| <= lmax) ==> r.Ok?
      ensures Capacity() >= old(Capacity()) && (old(IsHeap()) ==> IsHeap())
    {
      var g := g0;
      r := Ok(());
      k := 0;
      var i := 0;
      while i < |items|
        invariant k == i && (buf.heap == old(buf.heap) || fresh(buf.heap))
        invariant Valid() && k <= |items| && Contents == old(Contents) + items[..k] && g == SetLenOnDrop(|Contents|, true)
        invariant Capacity() >= old(Capacity()) && (old(IsHeap()) ==> IsHeap())
        invariant r.Ok?
      {
        r := ExtendStep(items[i]);
        if r.Err? {
          DropGuard(g);
          return;
        }
        assert items[..i + 1] == items[..i] + [items[i]];
        g := g.(len := g.len + 1);
        i := i + 1;
        k := i;
      }
      assert items[..k] == items;
      DropGuard(g);
    }

    /**
     * The reservation of `try_resize(_with)` for a longer vector: when
     * `new_len` exceeds the capacity, room for `new_len - len` more
     * elements (power-of-two growth); a failure changes nothing.
     */
    method ReserveFor(newLen: nat) returns (r: Result<(), ReservationError>)
      requires Valid() && Len() < newLen
      modifies this, buf, buf.local, buf.heap
      ensures Valid() && Contents == old(Contents)
      ensures r.Err? <==> old(ReservationTo(newLen)).Err?
      ensures newLen > lmax ==> r == Err(CapacityOverflow)
      ensures r.Err? ==> r.error == old(ReservationTo(newLen)).error && Capacity() == old(Capacity())
      ensures r.Ok? ==> newLen <= Capacity() == old(ReservationTo(newLen)).value
      ensures IsHeap() <==> old(IsHeap()) || Capacity() != old(Capacity())
      ensures buf.heap == old(buf.heap) || fresh(buf.heap)
    {
      var len := Length();
      ReservedLaws(width, elemSize, grants, len, Cap(), newLen - len, false);
      if newLen > Cap() {
        r := ReserveCore(newLen - len, false);
      } else {
        r := Ok(());
      }
    }

    /**
     * The filling loop of `try_resize_with`: under an armed `SetLenOnDrop`
     * guard, writes what `f` generates until the length is `new_len`.
     */
    method FillWith<S>(newLen: nat, gen: S -> Gen<S, T>, st: S) returns (st': S)
      requires Valid() && Len() <= newLen <= Capacity()
      modifies this, buf, Slots()
      ensures Valid() && Capacity() == old(Capacity()) && IsHeap() == old(IsHeap())
      ensures st' == Generated(gen, st, newLen - old(Len())).0
      ensures Contents == old(Contents) + Generated(gen, st, newLen - old(Len())).1
    {
      ghost var len := Len();
      st' := st;
      var g := SetLenOnDrop(Length(), true);
      while g.len < newLen
        invariant Valid() && len <= g.len <= newLen <= Capacity() && g == SetLenOnDrop(|Contents|, true)
        invariant Capacity() == old(Capacity()) && IsHeap() == old(IsHeap()) && Slots() == old(Slots()) && buf.heap == old(buf.heap)
        invariant st' == Generated(gen, st, g.len - len).0
        invariant Contents == old(Contents) + Generated(gen, st, g.len - len).1
        decreases newLen - g.len
      {
        var v := gen(st');
        AppendOne(v.item);
        st' := v.state;
        g := g.(len := g.len + 1);
      }
      DropGuard(g);
    }

    /**
     * The filling loop of `try_resize`: under an armed `SetLenOnDrop` guard,
     * writes clones of `value` until the length is `new_len`.
     */
    method Fill(newLen: nat, value: T)
      requires Valid() && Len() <= newLen <= Capacity()
      modifies this, buf, Slots()
      ensures Valid() && Capacity() == old(Capacity()) && IsHeap() == old(IsHeap())
      ensures Contents == old(Contents) + Repeat(value, newLen - old(Len()))
    {
      ghost var len := Len();
      var g := SetLenOnDrop(Length(), true);
      while g.len < newLen
        invariant Valid() && len <= g.len <= newLen <= Capacity() && g == SetLenOnDrop(|Contents|, true)
        invariant Capacity() == old(Capacity()) && IsHeap() == old(IsHeap()) && Slots() == old(Slots()) && buf.heap == old(buf.heap)
        invariant Contents == old(Contents) + Repeat(value, g.len - len)
        decreases newLen - g.len
      {
        AppendOne(value);
        assert Repeat(value, g.len - len) + [value] == Repeat(value, g.len + 1 - len);
        g := g.(len := g.len + 1);
      }
      DropGuard(g);
    }

    /**
     * `try_resize_with(new_len, f)`: truncates when `new_len < len`;
     * otherwise, after reserving `new_len - len` more when `new_len`
     * exceeds the capacity (a failure changes nothing), appends what `f`
     * generates, in generation order, under an armed `SetLenOnDrop` guard.
     */
    method TryResizeWith<S>(newLen: nat, gen: S -> Gen<S, T>, st: S) returns (r: Result<(), ReservationError>, st': S)
      requires Valid()
      modifies this, buf, buf.local, buf.heap
      ensures Valid()
      ensures r.Err? <==> newLen > |old(Contents)| && old(ReservationTo(newLen)).Err?
      ensures newLen > lmax ==> r == Err(CapacityOverflow)
      ensures r.Err? ==> r.error == old(ReservationTo(newLen)).error
                         && Contents == old(Contents) && Capacity() == old(Capacity()) && st' == st
      ensures r.Ok? && newLen < |old(Contents)| ==> st' == st && Contents == old(Contents)[..newLen] && Capacity() == old(Capacity())
      ensures r.Ok? && newLen >= |old(Contents)| ==>
                st' == Generated(gen, st, newLen - |old(Contents)|).0
                && Contents == old(Contents) + Generated(gen, st, newLen - |old(Contents)|).1
      ensures IsHeap() <==> old(IsHeap()) || Capacity() != old(Capacity())
    {
      st' := st;
      var len := Length();
      if newLen < len {
        Truncate(newLen);
        return Ok(()), st';
      } else if newLen == len {
        return Ok(()), st';
      }
      r := ReserveFor(newLen);
      if r.Err? {
        return r, st';
      }
      st' := FillWith(newLen, gen, st);
      r := Ok(());
    }

    /**
     * `try_resize(new_len, value)`: as `try_resize_with`, appending clones
     * of `value` (the last one is `value` itself).
     */
    method TryResize(newLen: nat, value: T) returns (r: Result<(), ReservationError>)
      requires Valid()
      modifies this, buf, buf.local, buf.heap
      ensures Valid()
      ensures r.Err? <==> newLen > |old(Contents)| && old(ReservationTo(newLen)).Err?
      ensures newLen > lmax ==> r == Err(CapacityOverflow)
      ensures r.Err? ==> r.error == old(ReservationTo(newLen)).error
                         && Contents == old(Contents) && Capacity() == old(Capacity())
      ensures r.Ok? && newLen < |old(Contents)| ==> Contents == old(Contents)[..newLen] && Capacity() == old(Capacity())
      ensures r.Ok? && newLen >= |old(Contents)| ==> Contents == old(Contents) + Repeat(value, newLen - |old(Contents)|)
      ensures IsHeap() <==> old(IsHeap()) || Capacity() != old(Capacity())
    {
      var len := Length();
      if newLen < len {
        Truncate(newLen);
        return Ok(());
      } else if newLen == len {
        return Ok(());
      }
      r := ReserveFor(newLen);
      if r.Err? {
        return r;
      }
      Fill(newLen, value);
      r := Ok(());
    }

    /** Copies `s` into the spare slots after the live elements and counts them. */
    method CopySpare(s: seq<T>)
      requires Valid() && Len() + |s| <= Capacity()
      modifies this, buf, Slots()
      ensures Valid() && Contents == old(Contents) + s
      ensures Capacity() == old(Capacity()) && IsHeap() == old(IsHeap()) && buf.heap == old(buf.heap)
    {
      var a := Slots();
      var n := Length();
      ghost var c := Contents + s;
      CopyIn(a, n, Vals(s));
      assert forall i :: 0 <= i < |c| ==> a[i] == Val(c[i]);
      SetLen(n + |s|);
      Contents := c;
    }

    /**
     * `try_copy_from_slice(s)`: all or nothing; reserves room for `s`
     * (power-of-two growth) when the spare capacity is short, then copies.
     */
    method TryCopyFromSlice(s: seq<T>) returns (r: Result<(), ReservationError>)
      requires Valid()
      modifies this, buf, buf.local, buf.heap
      ensures Valid()
      ensures r.Ok? <==> old(Reservation(|s|, false)).Ok?
      ensures r.Ok? ==> Contents == old(Contents) + s && Capacity() == old(Reservation(|s|, false)).value
      ensures r.Err? ==> r.error == old(Reservation(|s|, false)).error && Contents == old(Contents) && Capacity() == old(Capacity())
      ensures IsHeap() <==> old(IsHeap()) || Capacity() != old(Capacity())
      ensures buf.heap == old(buf.heap) || fresh(buf.heap)
    {
      var curLen := Length();
      if Cap() - curLen < |s| {
        r := ReserveCore(|s|, false);
        if r.Err? {
          return;
        }
      }
      CopySpare(s);
      r := Ok(());
    }

    /**
     * `clone_from_slice_unchecked(s)`: appends clones of `s` one element at
     * a time, the length counting exactly the clones written so far.
     */
    method CloneFromSliceUnchecked(s: seq<T>)
      requires Valid() && Len() + |s| <= Capacity()
      modifies this, buf, Slots()
      ensures Valid() && Contents == old(Contents) + s
      ensures Capacity() == old(Capacity()) && IsHeap() == old(IsHeap()) && buf.heap == old(buf.heap)
    {
      var k := 0;
      while k < |s|
        invariant Valid() && k <= |s| && Contents == old(Contents) + s[..k]
        invariant Capacity() == old(Capacity()) && IsHeap() == old(IsHeap()) && buf.heap == old(buf.heap)
        invariant Slots() == old(Slots())
      {
        AppendOne(s[k]);
        assert s[..k + 1] == s[..k] + [s[k]];
        k := k + 1;
      }
      assert s[..k] == s;
    }

    /** `try_from_iter(items)`: a new vector extended by `items`. */
    static method TryFromIter(w: LengthType.Width, c: nat, policy: Policy, size: nat, alloc: nat -> bool, items: seq<T>, hint: nat)
      returns (r: Result<SmallVec<T>, ReservationError>)
      requires c <= LengthType.Max(w) && size > 0
      ensures r.Ok? ==> fresh(r.value) && r.value.Valid() && r.value.Contents == items
      ensures r.Ok? ==> r.value.localCap == c && r.value.width == w && r.value.sm == policy
      ensures Reserved(w, size, alloc, 0, c, hint, false).Err? ==> r == Err(Reserved(w, size, alloc, 0, c, hint, false).error)
      ensures |items| > LengthType.Max(w) ==> r.Err?
      ensures ((forall n :: alloc(n)) && size * LengthType.Max(w) <= ISIZE_MAX
               && hint <= LengthType.Max(w) && |items| <= LengthType.Max(w)) ==> r.Ok?
    {
      var tmp := new SmallVec<T>.New(w, c, policy, size, alloc);
      var res, k := tmp.TryExtend(items, hint);
      if res.Err? {
        return Err(res.error);
      }
      assert items[..k] == items;
      r := Ok(tmp);
    }
  }

  /**
   * The slots of a grown array: copying the first `n` of the old slots `a0`
   * (at least the live ones, and all the spare ones when the policy is not a
   * no-op) into a fresh array and handing its slots past `|a0|` to the policy
   * keeps the elements in front and the pattern after them.
   */
  lemma PromotedStores<T>(sm: Policy, a0: seq<Slot<T>>, xs: seq<T>, p: seq<Slot<T>>, n: nat, c: nat)
    requires |xs| <= n <= c == |a0| <= |p| && (!Noop(sm) ==> n == c)
    requires forall i :: 0 <= i < |xs| ==> a0[i] == Val(xs[i])
    requires sm.Pattern? ==> forall i :: |xs| <= i < |a0| ==> a0[i] == Wiped(sm.p)
    requires forall i :: 0 <= i < n ==> p[i] == a0[i]
    requires sm.Pattern? ==> forall i :: c <= i < |p| ==> p[i] == Wiped(sm.p)
    ensures forall i :: 0 <= i < |xs| ==> p[i] == Val(xs[i])
    ensures sm.Pattern? ==> forall i :: |xs| <= i < |p| ==> p[i] == Wiped(sm.p)
  {
  }
}
