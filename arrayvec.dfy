/**
 * `ArrayVec`: a vector of at most `C` elements kept in a fixed array. The
 * slots `[0, len)` hold the live elements in order; every slot the vector
 * vacates is handed to the spare-memory policy, so under a pattern policy
 * every slot in `[len, C)` holds the pattern. The length is kept in a length
 * type, so `C` may not exceed that type's maximum.
 */
module ArrayVecs {
  import opened Wrappers
  import opened Memory
  import opened SpareMemory
  import opened Errors
  import opened SeqOps
  import opened Retaining
  import LengthType

  class ArrayVec<T> {
    /** `C`, the fixed capacity. */
    const capacity: nat
    /** `L`, the length type. */
    const width: LengthType.Width
    /** `L::MAX`, the largest length the length type holds. */
    const lmax: nat
    /** `SM`, the spare-memory policy. */
    const sm: Policy
    /** The `C` slots. */
    const arr: array<Slot<T>>
    /** The number of live elements. */
    var len: nat
    /** The live elements, in order. */
    ghost var Contents: seq<T>

    ghost predicate Valid()
      reads this, arr
    {
      && lmax == LengthType.Max(width) && arr.Length == capacity && capacity <= lmax
      && len <= capacity && |Contents| == len
      && (forall i :: 0 <= i < len ==> arr[i] == Val(Contents[i]))
      && HoldsPattern(sm, arr, len, capacity)
    }

    /** `new()`: an empty vector whose `C` slots have all been handed to the policy. */
    constructor New(w: LengthType.Width, c: nat, policy: Policy)
      requires c <= LengthType.Max(w)
      ensures Valid() && fresh(arr)
      ensures capacity == c && width == w && sm == policy
      ensures Contents == [] && arr[..] == Wipe(policy, seq(c, _ => Uninit), 0, c)
    {
      capacity := c;
      width := w;
      lmax := LengthType.Max(w);
      sm := policy;
      arr := new Slot<T>[c](_ => Uninit);
      len := 0;
      Contents := [];
      new;
      assert arr[..] == seq(c, _ => Uninit);
      Init(sm, arr, 0, c);
    }

    /** `len()`. */
    function Len(): (n: nat)
      reads this, arr
      requires Valid()
      ensures n == |Contents| && n <= capacity
    {
      len
    }

    /** `is_empty()`. */
    function IsEmpty(): (r: bool)
      reads this, arr
      requires Valid()
      ensures r <==> Contents == []
    {
      len == 0
    }

    /** `is_full()`. */
    function IsFull(): (r: bool)
      reads this, arr
      requires Valid()
      ensures r <==> |Contents| == capacity
    {
      len == capacity
    }

    /** `spare_capacity()`. */
    function SpareCapacity(): (r: nat)
      reads this, arr
      requires Valid()
      ensures r + |Contents| == capacity
    {
      capacity - len
    }

    /** `has_spare_capacity()`. */
    function HasSpareCapacity(): (r: bool)
      reads this, arr
      requires Valid()
      ensures r <==> |Contents| < capacity
    {
      len < capacity
    }

    /** `as_slice()`: the live elements. */
    function AsSlice(): (r: seq<T>)
      reads this, arr
      requires Valid()
      ensures r == Contents
    {
      seq(len, i reads this, arr requires 0 <= i < len && len <= arr.Length && arr[i].Val? => arr[i].v)
    }

    /** `set_len(n)`: only the length changes. */
    method SetLen(n: nat)
      requires n <= capacity
      modifies this
      ensures len == n && Contents == old(Contents)
    {
      len := n;
    }

    /** `push_unchecked(value)`: writes `value` into the first spare slot. */
    method PushUnchecked(value: T)
      requires Valid() && len < capacity
      modifies this, arr
      ensures Valid()
      ensures Contents == old(Contents) + [value]
      ensures arr[..] == old(arr[..])[old(len) := Val(value)]
    {
      arr[len] := Val(value);
      SetLen(len + 1);
      Contents := Contents + [value];
    }

    /** `try_push(e)`: appends iff there is a spare slot. */
    method TryPush(e: T) returns (r: Result<(), CapacityError>)
      requires Valid()
      modifies this, arr
      ensures Valid()
      ensures r.Ok? <==> old(len) < capacity
      ensures r.Ok? ==> Contents == old(Contents) + [e] && arr[..] == old(arr[..])[old(len) := Val(e)]
      ensures r.Err? ==> Contents == old(Contents) && len == old(len) && arr[..] == old(arr[..])
    {
      if len < capacity {
        PushUnchecked(e);
        r := Ok(());
      } else {
        r := Err(CapacityError);
      }
    }

    /** `try_push_val(value)`: as `try_push`, handing `value` back on failure. */
    method TryPushVal(value: T) returns (r: Result<(), CapacityErrorVal<T>>)
      requires Valid()
      modifies this, arr
      ensures Valid()
      ensures r.Ok? <==> old(len) < capacity
      ensures r.Ok? ==> Contents == old(Contents) + [value] && arr[..] == old(arr[..])[old(len) := Val(value)]
      ensures r.Err? ==> r.error.value == value
      ensures r.Err? ==> Contents == old(Contents) && len == old(len) && arr[..] == old(arr[..])
    {
      if len < capacity {
        PushUnchecked(value);
        r := Ok(());
      } else {
        r := Err(CapacityErrorVal(value));
      }
    }

    /** `pop_unchecked()`: takes the last element out and hands its slot to the policy. */
    method PopUnchecked() returns (e: T)
      requires Valid() && len > 0
      modifies this, arr
      ensures Valid()
      ensures e == old(Contents)[old(len) - 1] && Contents == old(Contents)[..old(len) - 1]
      ensures arr[..] == Wipe(sm, old(arr[..]), old(len) - 1, 1)
    {
      len := len - 1;
      e := arr[len].v;
      Init(sm, arr, len, 1);
      Contents := Contents[..len];
    }

    /** `pop()`: the last element, or `None` (and no change) when empty. */
    method Pop() returns (r: Option<T>)
      requires Valid()
      modifies this, arr
      ensures Valid()
      ensures r.None? <==> old(Contents) == []
      ensures r.Some? ==> r.value == old(Contents)[old(len) - 1] && Contents == old(Contents)[..old(len) - 1]
                          && arr[..] == Wipe(sm, old(arr[..]), old(len) - 1, 1)
      ensures r.None? ==> Contents == old(Contents) && len == old(len) && arr[..] == old(arr[..])
    {
      if len > 0 {
        var e := PopUnchecked();
        r := Some(e);
      } else {
        r := None;
      }
    }

    /** `truncate(n)`: drops the elements `[n, len)` and hands exactly their slots to the policy. */
    method Truncate(n: nat)
      requires Valid()
      modifies this, arr
      ensures Valid()
      ensures n < old(len) ==> Contents == old(Contents)[..n] && arr[..] == Wipe(sm, old(arr[..]), n, old(len) - n)
      ensures n >= old(len) ==> Contents == old(Contents) && len == old(len) && arr[..] == old(arr[..])
    {
      var myLen := len;
      if n < myLen {
        SetLen(n);
        Init(sm, arr, n, myLen - n);
        Contents := Contents[..n];
      }
    }

    /** `try_from_iter(items)`: a new vector holding `items`, failing iff there are more than `C` of them. */
    static method TryFromIter(w: LengthType.Width, c: nat, policy: Policy, items: seq<T>)
      returns (r: Result<ArrayVec<T>, CapacityError>)
      requires c <= LengthType.Max(w)
      ensures r.Ok? <==> |items| <= c
      ensures r.Ok? ==> fresh(r.value) && fresh(r.value.arr) && r.value.Valid()
      ensures r.Ok? ==> r.value.Contents == items && r.value.capacity == c && r.value.width == w && r.value.sm == policy
    {
      var tmp := new ArrayVec<T>.New(w, c, policy);
      var k := 0;
      while k < |items|
        invariant 0 <= k <= |items| && k <= c
        invariant fresh(tmp) && fresh(tmp.arr) && tmp.Valid() && tmp.capacity == c && tmp.width == w && tmp.sm == policy
        invariant tmp.Contents == items[..k]
      {
        if tmp.len >= c {
          return Err(CapacityError);
        }
        tmp.arr[tmp.len] := Val(items[k]);
        tmp.len := tmp.len + 1;
        tmp.Contents := tmp.Contents + [items[k]];
        assert items[..k + 1] == items[..k] + [items[k]];
        k := k + 1;
      }
      assert items[..k] == items;
      r := Ok(tmp);
    }

    /** `insert_unchecked(index, value)`: shifts `[index, len)` one slot right and writes `value` at `index`. */
    method InsertUnchecked(index: nat, value: T)
      requires Valid() && index <= len < capacity
      modifies this, arr
      ensures Valid()
      ensures Contents == InsertAt(old(Contents), index, value)
      ensures arr[..] == Moved(old(arr[..]), index, index + 1, old(len) - index)[index := Val(value)]
    {
      var n := len;
      ghost var c := InsertAt(Contents, index, value);
      Move(arr, index, index + 1, n - index);
      arr[index] := Val(value);
      assert forall i :: 0 <= i <= n ==> arr[i] == Val(c[i]);
      SetLen(n + 1);
      Contents := c;
    }

    /** `try_insert(index, value)`: `InvalidIndex` when `index > len`, else `InsufficientCapacity` when full. */
    method TryInsert(index: nat, value: T) returns (r: Result<(), InsertError>)
      requires Valid()
      modifies this, arr
      ensures Valid()
      ensures r == Err(InvalidIndex) <==> index > old(len)
      ensures r == Err(InsufficientCapacity) <==> index <= old(len) == capacity
      ensures r.Ok? ==> Contents == InsertAt(old(Contents), index, value)
                        && arr[..] == Moved(old(arr[..]), index, index + 1, old(len) - index)[index := Val(value)]
      ensures r.Err? ==> Contents == old(Contents) && len == old(len) && arr[..] == old(arr[..])
    {
      var n := len;
      if index > n {
        return Err(InvalidIndex);
      }
      if n >= capacity {
        return Err(InsufficientCapacity);
      }
      InsertUnchecked(index, value);
      r := Ok(());
    }

    /** `try_insert_val(index, value)`: as `try_insert`, handing `value` back on failure. */
    method TryInsertVal(index: nat, value: T) returns (r: Result<(), InsertErrorVal<T>>)
      requires Valid()
      modifies this, arr
      ensures Valid()
      ensures r == Err(InvalidIndexVal(value)) <==> index > old(len)
      ensures r == Err(InsufficientCapacityVal(value)) <==> index <= old(len) == capacity
      ensures r.Ok? ==> Contents == InsertAt(old(Contents), index, value)
                        && arr[..] == Moved(old(arr[..]), index, index + 1, old(len) - index)[index := Val(value)]
      ensures r.Err? ==> Contents == old(Contents) && len == old(len) && arr[..] == old(arr[..])
    {
      if index > len {
        return Err(InvalidIndexVal(value));
      }
      if len >= capacity {
        return Err(InsufficientCapacityVal(value));
      }
      InsertUnchecked(index, value);
      r := Ok(());
    }

    /** `remove_unchecked(index)`: takes `index` out, shifts the rest left and hands the last slot to the policy. */
    method RemoveUnchecked(index: nat) returns (e: T)
      requires Valid() && index < len
      modifies this, arr
      ensures Valid()
      ensures e == old(Contents)[index] && Contents == RemoveAt(old(Contents), index)
      ensures arr[..] == Wipe(sm, Moved(old(arr[..]), index + 1, index, old(len) - index - 1), old(len) - 1, 1)
    {
      e := arr[index].v;
      Move(arr, index + 1, index, len - index - 1);
      len := len - 1;
      Init(sm, arr, len, 1);
      Contents := RemoveAt(Contents, index);
    }

    /** `try_remove(index)`: `None` (and no change) iff `index >= len`. */
    method TryRemove(index: nat) returns (r: Option<T>)
      requires Valid()
      modifies this, arr
      ensures Valid()
      ensures r.None? <==> index >= old(len)
      ensures r.Some? ==> r.value == old(Contents)[index] && Contents == RemoveAt(old(Contents), index)
                          && arr[..] == Wipe(sm, Moved(old(arr[..]), index + 1, index, old(len) - index - 1), old(len) - 1, 1)
      ensures r.None? ==> Contents == old(Contents) && len == old(len) && arr[..] == old(arr[..])
    {
      if index < len {
        var e := RemoveUnchecked(index);
        r := Some(e);
      } else {
        r := None;
      }
    }

    /** `swap_remove_unchecked(index)`: takes `index` out and moves the last element into its slot. */
    method SwapRemoveUnchecked(index: nat) returns (e: T)
      requires Valid() && index < len
      modifies this, arr
      ensures Valid()
      ensures e == old(Contents)[index] && Contents == SwapRemoveAt(old(Contents), index)
      ensures arr[..] == Wipe(sm, Moved(old(arr[..]), old(len) - 1, index, 1), old(len) - 1, 1)
    {
      e := arr[index].v;
      len := len - 1;
      Move(arr, len, index, 1);
      Init(sm, arr, len, 1);
      Contents := SwapRemoveAt(Contents, index);
    }

    /** `try_swap_remove(index)`: `None` (and no change) iff `index >= len`. */
    method TrySwapRemove(index: nat) returns (r: Option<T>)
      requires Valid()
      modifies this, arr
      ensures Valid()
      ensures r.None? <==> index >= old(len)
      ensures r.Some? ==> r.value == old(Contents)[index] && Contents == SwapRemoveAt(old(Contents), index)
                          && arr[..] == Wipe(sm, Moved(old(arr[..]), old(len) - 1, index, 1), old(len) - 1, 1)
      ensures r.None? ==> Contents == old(Contents) && len == old(len) && arr[..] == old(arr[..])
    {
      if index < len {
        var e := SwapRemoveUnchecked(index);
        r := Some(e);
      } else {
        r := None;
      }
    }

    /**
     * `RetainGuard::drop`: moves the unprocessed elements `[processed, n)`
     * left by `deleted`, hands the `deleted` slots from the new end to the
     * policy, and sets the length to `n - deleted`. Nothing moves when
     * nothing was deleted.
     */
    method RetainGuardDrop(n: nat, processed: nat, deleted: nat)
      requires deleted <= processed <= n <= capacity == arr.Length
      modifies this, arr
      ensures len == n - deleted && Contents == old(Contents)
      ensures arr[..] == if deleted > 0
                         then Wipe(sm, Moved(old(arr[..]), processed, processed - deleted, n - processed), n - deleted, deleted)
                         else old(arr[..])
      ensures forall i :: 0 <= i < processed - deleted || n <= i < arr.Length ==> arr[i] == old(arr[i])
      ensures HoldsPattern(sm, arr, n - deleted, n)
    {
      CloseGap(sm, arr, n, processed, deleted);
      SetLen(n - deleted);
    }


    /** The end of `retain_mut`: every element visited, the guard closes the gap and sets the length. */
    method RetainFinish<S>(f: (S, T) -> Visit<S, T>, st: S, n: nat, deleted: nat, u: S,
                           ghost orig: seq<T>, ghost spare: seq<Slot<T>>, ghost kept: seq<T>)
      requires n == |orig| && RetainProgress(arr, f, st, orig, spare, n, deleted, u, kept)
      requires lmax == LengthType.Max(width) && arr.Length == capacity <= lmax && HoldsPattern(sm, arr, n, capacity)
      modifies this, arr
      ensures Valid() && (u, Contents) == Retained(f, st, orig)
      ensures forall i :: n <= i < capacity ==> arr[i] == old(arr[i])
    {
      assert orig[..n] == orig;
      RetainGuardDrop(n, n, deleted);
      assert forall i :: 0 <= i < n - deleted ==> arr[i] == Val(kept[i]);
      assert HoldsPattern(sm, arr, n - deleted, capacity);
      Contents := kept;
    }

    /**
     * `retain_mut(f)`: visits every element once, in index order, letting `f`
     * mutate it and decide whether it stays; the kept elements close up in
     * their original order and the guard then fixes the length.
     */
    method RetainMut<S>(f: (S, T) -> Visit<S, T>, st: S) returns (st': S)
      requires Valid()
      modifies this, arr
      ensures Valid()
      ensures (st', Contents) == Retained(f, st, old(Contents))
      ensures forall i :: old(len) <= i < capacity ==> arr[i] == old(arr[i])
    {
      var n := len;
      ghost var orig := Contents;
      ghost var spare := arr[n..];
      SetLen(0);
      RetainStart(arr, f, st, orig, spare);
      var processed, deleted, u, kept := RetainFirstLoop(arr, f, st, n, orig, spare);
      processed, deleted, u, kept := RetainSecondLoop(arr, f, st, n, processed, deleted, u, orig, spare, kept);
      RetainFinish(f, st, n, deleted, u, orig, spare, kept);
      st' := u;
    }

    /**
     * `try_resize_with(new_len, f)`: `CapacityError` (and no change) when
     * `new_len > C`; truncates when `new_len < len`; otherwise appends what
     * `f` generates, in generation order, until the length is `new_len`.
     */
    method TryResizeWith<S>(newLen: nat, gen: S -> Gen<S, T>, st: S) returns (r: Result<(), CapacityError>, st': S)
      requires Valid()
      modifies this, arr
      ensures Valid()
      ensures r.Err? <==> newLen > capacity
      ensures r.Err? ==> Contents == old(Contents) && len == old(len) && arr[..] == old(arr[..]) && st' == st
      ensures r.Ok? && newLen < old(len) ==>
                st' == st && Contents == old(Contents)[..newLen] && arr[..] == Wipe(sm, old(arr[..]), newLen, old(len) - newLen)
      ensures r.Ok? && newLen >= old(len) ==>
                st' == Generated(gen, st, newLen - old(len)).0
                && Contents == old(Contents) + Generated(gen, st, newLen - old(len)).1
    {
      st' := st;
      if newLen > capacity {
        return Err(CapacityError), st';
      }
      if newLen < len {
        Truncate(newLen);
        return Ok(()), st';
      }
      while len < newLen
        invariant Valid() && old(len) <= len <= newLen
        invariant st' == Generated(gen, st, len - old(len)).0
        invariant Contents == old(Contents) + Generated(gen, st, len - old(len)).1
        decreases newLen - len
      {
        var g := gen(st');
        PushUnchecked(g.item);
        st' := g.state;
      }
      r := Ok(());
    }

    /**
     * `try_resize(new_len, value)`: as `try_resize_with`, appending clones of
     * `value`.
     */
    method TryResize(newLen: nat, value: T) returns (r: Result<(), CapacityError>)
      requires Valid()
      modifies this, arr
      ensures Valid()
      ensures r.Err? <==> newLen > capacity
      ensures r.Err? ==> Contents == old(Contents) && len == old(len) && arr[..] == old(arr[..])
      ensures r.Ok? && newLen < old(len) ==>
                Contents == old(Contents)[..newLen] && arr[..] == Wipe(sm, old(arr[..]), newLen, old(len) - newLen)
      ensures r.Ok? && newLen >= old(len) ==> Contents == old(Contents) + Repeat(value, newLen - old(len))
    {
      if newLen > capacity {
        return Err(CapacityError);
      }
      if newLen < len {
        Truncate(newLen);
        return Ok(());
      }
      while len < newLen
        invariant Valid() && old(len) <= len <= newLen
        invariant Contents == old(Contents) + Repeat(value, len - old(len))
        decreases newLen - len
      {
        PushUnchecked(value);
        assert Repeat(value, len - 1 - old(len)) + [value] == Repeat(value, len - old(len));
      }
      r := Ok(());
    }

    /** `copy_from_slice_unchecked(s)`: copies `s` into the spare slots after the live elements. */
    method CopyFromSliceUnchecked(s: seq<T>)
      requires Valid() && len + |s| <= capacity
      modifies this, arr
      ensures Valid()
      ensures Contents == old(Contents) + s
      ensures arr[..] == Written(old(arr[..]), old(len), Vals(s))
    {
      CopyIn(arr, len, Vals(s));
      len := len + |s|;
      Contents := Contents + s;
    }

    /** `try_copy_from_slice(s)`: all or nothing against `len + s.len() <= C`. */
    method TryCopyFromSlice(s: seq<T>) returns (r: Result<(), CapacityError>)
      requires Valid()
      modifies this, arr
      ensures Valid()
      ensures r.Ok? <==> old(len) + |s| <= capacity
      ensures r.Ok? ==> Contents == old(Contents) + s && arr[..] == Written(old(arr[..]), old(len), Vals(s))
      ensures r.Err? ==> Contents == old(Contents) && len == old(len) && arr[..] == old(arr[..])
    {
      if len + |s| > capacity {
        return Err(CapacityError);
      }
      CopyFromSliceUnchecked(s);
      r := Ok(());
    }

    /**
     * `_clone_from_unchecked(s)`: clones `s` into an empty vector one element
     * at a time, the length counting exactly the clones written so far.
     */
    method CloneFromUnchecked(s: seq<T>)
      requires Valid() && len == 0 && |s| <= capacity
      modifies this, arr
      ensures Valid()
      ensures Contents == s
      ensures arr[..] == Written(old(arr[..]), 0, Vals(s))
    {
      var k := 0;
      while k < |s|
        invariant Valid() && k <= |s| && len == k
        invariant Contents == s[..k]
        invariant forall i :: 0 <= i < arr.Length ==> arr[i] == if i < k then Val(s[i]) else old(arr[i])
      {
        arr[len] := Val(s[k]);
        len := len + 1;
        Contents := Contents + [s[k]];
        assert s[..k + 1] == s[..k] + [s[k]];
        k := k + 1;
      }
      assert s[..k] == s;
      assert arr[..] == Written(old(arr[..]), 0, Vals(s));
    }
  }
}
