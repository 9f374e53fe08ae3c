/**
 * The conversions and standard traits of `SmallVec` that do work: building
 * a vector from a slice or an array, `Clone` and `clone_from`, `Extend`, the
 * `io::Write` sink of a byte vector, and `Drop`.
 */
module SmallVecTraits {
  import opened Wrappers
  import opened Memory
  import opened SpareMemory
  import opened Errors
  import opened SmallVecs
  import opened Reservations
  import LengthType

  /**
   * `TryFrom<&[T]>` (and, identically, `TryFrom<&mut [T]>`): a new vector
   * reserves exactly the slice's length, reporting the reservation's error,
   * then clones the elements in. The result stays local when the slice fits
   * in `C`, and otherwise sits on a heap array of exactly `|s|` slots.
   */
  method TryFromSlice<T>(w: LengthType.Width, c: nat, policy: Policy, size: nat, alloc: nat -> bool, s: seq<T>)
    returns (r: Result<SmallVec<T>, ReservationError>)
    requires c <= LengthType.Max(w) && size > 0
    ensures var res := Reserved(w, size, alloc, 0, c, |s|, true);
            && (r.Ok? <==> res.Ok?)
            && (r.Err? ==> r.error == res.error)
    ensures |s| > LengthType.Max(w) ==> r == Err(CapacityOverflow)
    ensures r.Ok? ==> fresh(r.value) && r.value.Valid() && r.value.Contents == s
    ensures r.Ok? ==> r.value.localCap == c && r.value.width == w && r.value.sm == policy
    ensures r.Ok? ==> r.value.Capacity() == (if |s| <= c then c else |s|) && (r.value.IsHeap() <==> |s| > c)
  {
    var tmp := new SmallVec<T>.New(w, c, policy, size, alloc);
    ReservedLaws(w, size, alloc, 0, c, |s|, true);
    var res := tmp.ReserveCore(|s|, true);
    if res.Err? {
      return Err(res.error);
    }
    tmp.CloneFromSliceUnchecked(s);
    r := Ok(tmp);
  }

  /**
   * `TryFrom<[T; N]>`: the same exact reservation of `N` slots, after which
   * the `N` elements are moved in with one bulk copy and the length is set
   * to `N`.
   */
  method TryFromArray<T>(w: LengthType.Width, c: nat, policy: Policy, size: nat, alloc: nat -> bool, a: seq<T>)
    returns (r: Result<SmallVec<T>, ReservationError>)
    requires c <= LengthType.Max(w) && size > 0
    ensures var res := Reserved(w, size, alloc, 0, c, |a|, true);
            && (r.Ok? <==> res.Ok?)
            && (r.Err? ==> r.error == res.error)
    ensures |a| > LengthType.Max(w) ==> r == Err(CapacityOverflow)
    ensures r.Ok? ==> fresh(r.value) && r.value.Valid() && r.value.Contents == a
    ensures r.Ok? ==> r.value.localCap == c && r.value.width == w && r.value.sm == policy
    ensures r.Ok? ==> r.value.Capacity() == (if |a| <= c then c else |a|) && (r.value.IsHeap() <==> |a| > c)
  {
    var tmp := new SmallVec<T>.New(w, c, policy, size, alloc);
    ReservedLaws(w, size, alloc, 0, c, |a|, true);
    var res := tmp.ReserveCore(|a|, true);
    if res.Err? {
      return Err(res.error);
    }
    tmp.CopySpare(a);
    r := Ok(tmp);
  }

  /**
   * The array conversion of the tests: `[5, 6, 7]` into a `usize` vector
   * with `C = 2` succeeds, on a heap array of three slots.
   */
  method TryFromArrayExample() returns (r: Result<SmallVec<nat>, ReservationError>)
    ensures r.Ok? && r.value.Valid() && r.value.Contents == [5, 6, 7]
    ensures r.value.IsHeap() && r.value.Capacity() == 3
  {
    r := TryFromArray(LengthType.Usize, 2, Uninitialized, 8, _ => true, [5, 6, 7]);
  }

  /**
   * `clone()`: a new vector of the same type holding the same elements. It
   * is local when the elements fit in `C`; otherwise it reserves exactly
   * their number, and a failing reservation panics, so it is required to
   * succeed.
   */
  method Clone<T>(src: SmallVec<T>) returns (r: SmallVec<T>)
    requires src.Valid()
    requires |src.Contents| > src.localCap ==>
               Reserved(src.width, src.elemSize, src.grants, 0, src.localCap, |src.Contents|, true).Ok?
    ensures fresh(r) && r.Valid() && r.Contents == src.Contents
    ensures r.localCap == src.localCap && r.width == src.width && r.sm == src.sm
    ensures r.elemSize == src.elemSize && r.grants == src.grants
    ensures r.IsHeap() <==> |src.Contents| > src.localCap
    ensures r.Capacity() == if |src.Contents| <= src.localCap then src.localCap else |src.Contents|
  {
    var s := src.AsSlice();
    r := new SmallVec<T>.New(src.width, src.localCap, src.sm, src.elemSize, src.grants);
    if |s| > src.localCap {
      ReservedLaws(r.width, r.elemSize, r.grants, 0, r.localCap, |s|, true);
      var res := r.ReserveCore(|s|, true);
    }
    r.CloneFromSliceUnchecked(s);
  }

  /**
   * `clone_from(source)`: clears the vector, then keeps its buffer (local,
   * or heap) when the source's elements fit in it and otherwise reserves
   * exactly their number; a failing reservation panics, so it is required to
   * succeed. The source's elements are then cloned in.
   */
  method CloneFrom<T>(v: SmallVec<T>, source: SmallVec<T>)
    requires v.Valid() && source.Valid()
    requires v != source && v.buf != source.buf && {v.buf.local, v.buf.heap} !! {source.buf.local, source.buf.heap}
    requires Reserved(v.width, v.elemSize, v.grants, 0, v.Capacity(), |source.Contents|, true).Ok?
    modifies v, v.buf, v.buf.local, v.buf.heap
    ensures v.Valid() && v.Contents == source.Contents
    ensures v.Capacity() == Reserved(v.width, v.elemSize, v.grants, 0, old(v.Capacity()), |source.Contents|, true).value
    ensures v.Capacity() == if |source.Contents| <= old(v.Capacity()) then old(v.Capacity()) else |source.Contents|
    ensures v.IsHeap() <==> old(v.IsHeap()) || |source.Contents| > old(v.Capacity())
  {
    ReservedLaws(v.width, v.elemSize, v.grants, 0, v.Capacity(), |source.Contents|, true);
    v.Clear();
    var s := source.AsSlice();
    if v.capacity <= v.localCap {
      if |s| > v.localCap {
        var res := v.ReserveCore(|s|, true);
      }
    } else if |s| > v.capacity {
      var res := v.ReserveCore(|s|, true);
    }
    v.CloneFromSliceUnchecked(s);
  }

  /**
   * `Extend::extend(items)`: `try_extend_impl` with the iterator's lower
   * size hint `hint`; its failures panic, `Err` here. The first `k` items
   * are in the vector whatever happens, and on `Ok` all of them are.
   */
  method Extend<T>(v: SmallVec<T>, items: seq<T>, hint: nat) returns (r: Result<(), ReservationError>, ghost k: nat)
    requires v.Valid()
    modifies v, v.buf, v.buf.local, v.buf.heap
    ensures v.Valid() && k <= |items| && v.Contents == old(v.Contents) + items[..k]
    ensures r.Ok? ==> k == |items|
    ensures k < |items| ==> r.Err?
    ensures r.Ok? ==> v.Contents == old(v.Contents) + items
    ensures |old(v.Contents)| + |items| > v.lmax ==> r.Err?
    ensures ((forall n :: v.grants(n)) && v.elemSize * v.lmax <= ISIZE_MAX
             && |old(v.Contents)| + hint <= v.lmax && |old(v.Contents)| + |items| <= v.lmax) ==> r.Ok?
  {
    r, k := v.TryExtend(items, hint);
    if r.Ok? {
      assert items[..k] == items;
    }
  }

  /**
   * The capacities of the extend test over `u8` with `C = 6`: five items
   * fit in the local array; five more, reserved at once from length 5 or
   * one at a time from lengths 6 and 8, move the vector to 16 heap slots.
   */
  lemma ExtendCapacityExamples(grants: nat -> bool)
    requires forall n :: grants(n)
    ensures Reserved(LengthType.U8, 512, grants, 0, 6, 5, false) == Ok(6)
    ensures Reserved(LengthType.U8, 512, grants, 5, 6, 5, false) == Ok(16)
    ensures Reserved(LengthType.U8, 512, grants, 6, 6, 1, false) == Ok(8)
    ensures Reserved(LengthType.U8, 512, grants, 8, 8, 1, false) == Ok(16)
  {
    assert LengthType.NextPowerOfTwoOrMax(LengthType.U8, 10) == 16;
    assert LengthType.NextPowerOfTwoOrMax(LengthType.U8, 7) == 8;
    assert LengthType.NextPowerOfTwoOrMax(LengthType.U8, 9) == 16;
  }

  /** The panic test: extending an empty `u8`-length vector by 300 items fails. */
  method ExtendOverflowExample() returns (r: Result<(), ReservationError>)
    ensures r.Err?
  {
    var v := new SmallVec<nat>.New(LengthType.U8, 6, Uninitialized, 512, _ => true);
    ghost var k;
    r, k := Extend(v, seq(300, i => i), 0);
  }

  /**
   * `io::Write::write(buf)` on a byte vector: `try_copy_from_slice`, whose
   * reservation error becomes `OutOfMemory`; on success all of `buf` is
   * appended and its length returned, on failure nothing changes.
   */
  method Write(v: SmallVec<byte>, buf: seq<byte>) returns (r: Result<nat, IoError>)
    requires v.Valid()
    modifies v, v.buf, v.buf.local, v.buf.heap
    ensures v.Valid()
    ensures r.Ok? <==> old(v.Reservation(|buf|, false)).Ok?
    ensures r.Ok? ==> r.value == |buf| && v.Contents == old(v.Contents) + buf
    ensures r.Ok? ==> v.Capacity() == old(v.Reservation(|buf|, false)).value
    ensures r.Err? ==> r.error == OutOfMemory && v.Contents == old(v.Contents) && v.Capacity() == old(v.Capacity())
    ensures |old(v.Contents)| + |buf| > v.lmax ==> r == Err(OutOfMemory)
    ensures buf == [] ==> r == Ok(0) && v.Contents == old(v.Contents)
    ensures v.buf.heap == old(v.buf.heap) || fresh(v.buf.heap)
  {
    ReservedLaws(v.width, v.elemSize, v.grants, v.Len(), v.Capacity(), |buf|, false);
    var res := v.TryCopyFromSlice(buf);
    if res.Err? {
      return Err(OutOfMemory);
    }
    r := Ok(|buf|);
  }

  /** `io::Write::flush()`: nothing to flush; the same as `ArrayVec`'s in the source. */
  method Flush(v: SmallVec<byte>) returns (r: Result<(), IoError>)
    ensures r.Ok?
  {
    r := Ok(());
  }

  /**
   * The writer tests over `usize` with `C = 16`: "thisisatest" is written
   * whole (11 bytes, still local) and then "ofiowrite" (9 bytes, moving to
   * the heap); an empty write writes 0.
   */
  method WriteExample() returns (n1: nat, n2: nat, n3: nat, contents: seq<byte>)
    ensures n1 == 11 && n2 == 9 && n3 == 0
    ensures contents == [0x74, 0x68, 0x69, 0x73, 0x69, 0x73, 0x61, 0x74, 0x65, 0x73, 0x74]
                        + [0x6F, 0x66, 0x69, 0x6F, 0x77, 0x72, 0x69, 0x74, 0x65]
  {
    var v := new SmallVec<byte>.New(LengthType.Usize, 16, Uninitialized, 1, _ => true);
    var s1: seq<byte> := [0x74, 0x68, 0x69, 0x73, 0x69, 0x73, 0x61, 0x74, 0x65, 0x73, 0x74];
    var s2: seq<byte> := [0x6F, 0x66, 0x69, 0x6F, 0x77, 0x72, 0x69, 0x74, 0x65];
    var r1 := Write(v, s1);
    assert r1 == Ok(11) && v.Len() == 11 && v.Capacity() == 16;
    assert LengthType.NextPowerOfTwoOrMax(LengthType.Usize, 20) == 32;
    var r2 := Write(v, s2);
    assert r2 == Ok(9) && v.AsSlice() == s1 + s2;
    var r3 := Write(v, []);
    n1, n2, n3 := r1.value, r2.value, r3.value;
    contents := v.AsSlice();
  }

  /**
   * The out-of-memory test: a `u8`-length byte vector holding 255 bytes
   * refuses one more with `OutOfMemory` and keeps its 255 bytes.
   */
  method WriteOutOfMemoryExample(v: SmallVec<byte>) returns (r: Result<nat, IoError>)
    requires v.Valid() && v.width == LengthType.U8 && |v.Contents| == 255
    modifies v, v.buf, v.buf.local, v.buf.heap
    ensures r == Err(OutOfMemory) && v.Valid() && v.Contents == old(v.Contents)
  {
    r := Write(v, [0x61]);
  }

  /**
   * `drop()`: truncates to 0, dropping every element, and then releases the
   * heap array exactly when the vector is on the heap; `freed` says whether
   * it did.
   */
  method Drop<T>(v: SmallVec<T>) returns (freed: bool)
    requires v.Valid()
    modifies v, v.buf, v.buf.local, v.buf.heap
    ensures v.Valid() && v.Contents == []
    ensures freed <==> old(v.IsHeap())
    ensures v.Capacity() == old(v.Capacity())
  {
    v.Truncate(0);
    freed := v.capacity > v.localCap;
  }
}
