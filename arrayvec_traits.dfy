/**
 * The conversions and standard traits of `ArrayVec` that do work: building a
 * vector from a slice or an array, `Extend`, `Clone` and `clone_from`, and
 * the `io::Write` sink of a byte vector.
 */
module ArrayVecTraits {
  import opened Wrappers
  import opened Memory
  import opened SpareMemory
  import opened Errors
  import opened ArrayVecs
  import LengthType

  /**
   * `TryFrom<&[T]>` (and, identically, `TryFrom<&mut [T]>`): `CapacityError`
   * when the slice is longer than `C`, otherwise a new vector holding clones
   * of its elements in order.
   */
  method TryFromSlice<T>(w: LengthType.Width, c: nat, policy: Policy, s: seq<T>) returns (r: Result<ArrayVec<T>, CapacityError>)
    requires c <= LengthType.Max(w)
    ensures r.Ok? <==> |s| <= c
    ensures r.Ok? ==> fresh(r.value) && fresh(r.value.arr) && r.value.Valid()
    ensures r.Ok? ==> r.value.Contents == s && r.value.capacity == c && r.value.width == w && r.value.sm == policy
  {
    if |s| > c {
      return Err(CapacityError);
    }
    var tmp := new ArrayVec<T>.New(w, c, policy);
    tmp.CloneFromUnchecked(s);
    r := Ok(tmp);
  }

  /**
   * `TryFrom<[T; N]>`: `CapacityError` iff `N > C`; otherwise the `N`
   * elements are moved in with one bulk copy and the length set to `N`.
   */
  method TryFromArray<T>(w: LengthType.Width, c: nat, policy: Policy, a: seq<T>) returns (r: Result<ArrayVec<T>, CapacityError>)
    requires c <= LengthType.Max(w)
    ensures r.Ok? <==> |a| <= c
    ensures r.Ok? ==> fresh(r.value) && fresh(r.value.arr) && r.value.Valid()
    ensures r.Ok? ==> r.value.Contents == a && r.value.capacity == c && r.value.width == w && r.value.sm == policy
    ensures r.Ok? ==> r.value.arr[..] == Written(Wipe(policy, seq(c, _ => Uninit), 0, c), 0, Vals(a))
  {
    if |a| > c {
      return Err(CapacityError);
    }
    var tmp := new ArrayVec<T>.New(w, c, policy);
    CopyIn(tmp.arr, 0, Vals(a));
    tmp.SetLen(|a|);
    tmp.Contents := a;
    r := Ok(tmp);
  }

  /**
   * `Extend::extend(items)`: pushes the items one by one. `push` panics on
   * the first item that does not fit, `Err` here; the items pushed before it
   * stay in the vector.
   */
  method Extend<T>(v: ArrayVec<T>, items: seq<T>) returns (r: Result<(), CapacityError>)
    requires v.Valid()
    modifies v, v.arr
    ensures v.Valid()
    ensures r.Ok? <==> old(v.len) + |items| <= v.capacity
    ensures r.Ok? ==> v.Contents == old(v.Contents) + items
    ensures r.Err? ==> v.Contents == old(v.Contents) + items[..v.capacity - old(v.len)]
  {
    var k := 0;
    while k < |items|
      invariant v.Valid() && k <= |items| && v.len == old(v.len) + k
      invariant v.Contents == old(v.Contents) + items[..k]
    {
      var p := v.TryPush(items[k]);
      if p.Err? {
        return Err(CapacityError);
      }
      assert items[..k + 1] == items[..k] + [items[k]];
      k := k + 1;
    }
    assert items[..k] == items;
    r := Ok(());
  }

  /** `clone()`: a new, independent vector of the same type holding the same elements. */
  method Clone<T>(src: ArrayVec<T>) returns (r: ArrayVec<T>)
    requires src.Valid()
    ensures fresh(r) && fresh(r.arr) && r.Valid()
    ensures r.Contents == src.Contents && r.capacity == src.capacity && r.width == src.width && r.sm == src.sm
  {
    r := new ArrayVec<T>.New(src.width, src.capacity, src.sm);
    r.CloneFromUnchecked(src.AsSlice());
  }

  /**
   * `clone_from(source)`: truncates to 0, dropping the old elements and
   * wiping their slots, then clones the source's elements in.
   */
  method CloneFrom<T>(v: ArrayVec<T>, source: ArrayVec<T>)
    requires v.Valid() && source.Valid() && v.arr != source.arr
    requires v.capacity == source.capacity && v.width == source.width && v.sm == source.sm
    modifies v, v.arr
    ensures v.Valid() && v.Contents == source.Contents
    ensures v.arr[..] == Written(Wipe(v.sm, old(v.arr[..]), 0, old(v.len)), 0, Vals(source.Contents))
  {
    v.Truncate(0);
    v.CloneFromUnchecked(source.AsSlice());
  }

  /**
   * `io::Write::write(buf)` on a byte vector: copies as much of `buf` as
   * fits in the spare capacity and returns that count; it never fails.
   */
  method Write(v: ArrayVec<byte>, buf: seq<byte>) returns (r: Result<nat, IoError>)
    requires v.Valid()
    modifies v, v.arr
    ensures v.Valid()
    ensures r.Ok?
    ensures r.value == if |buf| < v.capacity - old(v.len) then |buf| else v.capacity - old(v.len)
    ensures v.Contents == old(v.Contents) + buf[..r.value]
    ensures v.arr[..] == Written(old(v.arr[..]), old(v.len), Vals(buf[..r.value]))
  {
    var spare := v.SpareCapacity();
    var n := if spare < |buf| then spare else |buf|;
    v.CopyFromSliceUnchecked(buf[..n]);
    r := Ok(n);
  }

  /** `io::Write::flush()`: nothing to flush. */
  method Flush(v: ArrayVec<byte>) returns (r: Result<(), IoError>)
    ensures r.Ok?
  {
    r := Ok(());
  }

  /**
   * The writer test: into 16 bytes, "thisisatest" is written whole (11)
   * and then only the 5 bytes "ofiow" of "ofiowrite"; an empty write writes 0.
   */
  method WriteExample() returns (n1: nat, n2: nat, n3: nat, contents: seq<byte>)
    ensures n1 == 11 && n2 == 5 && n3 == 0
    ensures contents == [0x74, 0x68, 0x69, 0x73, 0x69, 0x73, 0x61, 0x74, 0x65, 0x73, 0x74, 0x6F, 0x66, 0x69, 0x6F, 0x77]
  {
    var v := new ArrayVec<byte>.New(LengthType.Usize, 16, Uninitialized);
    var r1 := Write(v, [0x74, 0x68, 0x69, 0x73, 0x69, 0x73, 0x61, 0x74, 0x65, 0x73, 0x74]);
    var r2 := Write(v, [0x6F, 0x66, 0x69, 0x6F, 0x77, 0x72, 0x69, 0x74, 0x65]);
    var r3 := Write(v, []);
    n1, n2, n3 := r1.value, r2.value, r3.value;
    contents := v.AsSlice();
  }
}
