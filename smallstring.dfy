/**
 * `SmallString`: a UTF-8 string that keeps up to `C` bytes in a local array
 * and moves them to a heap buffer once it needs more room. As in
 * `SmallVec`, the one length-type field `capacity` tells the modes apart:
 * at most `C` it is the length of a local string, above `C` it is the heap
 * capacity and the length sits in the buffer next to the heap pointer. A
 * string never returns to local storage. The live bytes are valid UTF-8 at
 * the front of the byte array in use, and every byte the string vacates or
 * allocates is handed to the spare-memory policy. The operations that panic
 * (a failed reservation, an index off a char boundary) require that they
 * do not.
 */
module SmallStrings {
  import opened Wrappers
  import opened Memory
  import opened SpareMemory
  import opened Errors
  import opened SeqOps
  import opened StrBuffers
  import opened Reservations
  import Utf8
  import LengthType

  /**
   * The bytes of a grown array: the first `n` old bytes `a0` copied to the
   * front (at least the live ones, and all of them unless the policy is a
   * no-op) and, under a pattern policy, the pattern in every byte past the
   * old array. It holds the same string.
   */
  lemma GrownBuf(sm: Policy, a0: seq<byte>, len: nat, n: nat, p: seq<byte>)
    requires StrBuf(sm, a0, len) && len <= n <= |a0| <= |p| && (!Noop(sm) ==> n == |a0|)
    requires p[..n] == a0[..n]
    requires sm.Pattern? ==> forall i :: |a0| <= i < |p| ==> p[i] == sm.p
    ensures StrBuf(sm, p, len) && p[..len] == a0[..len]
  {
    assert p[..len] == p[..n][..len];
    assert a0[..len] == a0[..n][..len];
    if sm.Pattern? {
      forall i | len <= i < |p|
        ensures p[i] == sm.p
      {
        if i < n {
          assert p[i] == p[..n][i];
        }
      }
    }
  }

  /**
   * `Buffer`: the local array of `C` bytes and the heap pair
   * (pointer, length), kept as separate fields where the source overlays
   * them in one union. The pair is only meaningful once the string is on
   * the heap; before that the pointer is a dangling empty array.
   */
  class Buffer {
    /** The local array, `[MaybeUninit<u8>; C]`. */
    const local: array<byte>
    /** The heap pointer. */
    var heap: array<byte>
    /** The heap length. */
    var heapLen: nat
    /** `L::MAX`, the bound of the heap length. */
    const lmax: nat

    /** `Buffer::new()` (`Local::new()`): the local array, all `C` bytes handed to the policy. */
    constructor New(c: nat, max: nat, sm: Policy)
      ensures fresh(local) && fresh(heap) && local.Length == c && lmax == max && heapLen == 0
      ensures StrBuf(sm, local[..], 0)
    {
      local := new byte[c];
      heap := new byte[0];
      heapLen := 0;
      lmax := max;
      new;
      ghost var a0 := local[..];
      InitBytes(sm, local, 0, c);
      WipedIsEmpty(sm, a0, local[..]);
    }

    /**
     * `Buffer::local_from_bytes(bytes)` (`Local::from_bytes`): the valid
     * bytes copied to the front of the local array and the `C - |bytes|`
     * bytes after them handed to the policy.
     */
    constructor LocalFromBytes(c: nat, max: nat, sm: Policy, bytes: seq<byte>)
      requires |bytes| <= c && Utf8.Valid(bytes)
      ensures fresh(local) && fresh(heap) && local.Length == c && lmax == max && heapLen == 0
      ensures StrBuf(sm, local[..], |bytes|) && local[..|bytes|] == bytes
    {
      local := new byte[c];
      heap := new byte[0];
      heapLen := 0;
      lmax := max;
      new;
      ghost var a0 := local[..];
      CopyIn(local, 0, bytes);
      InitBytes(sm, local, |bytes|, c - |bytes|);
      FillKeeps(sm, a0, bytes, c - |bytes|, local[..]);
    }

    /**
     * `Buffer::heap(p, len)`: the heap pair `(p, len)`; unless the policy is
     * a no-op, the local bytes are first handed to the policy as by
     * `Buffer::new()`.
     */
    constructor Heap(c: nat, max: nat, sm: Policy, p: array<byte>, len: nat)
      requires len <= max
      ensures fresh(local) && local.Length == c && lmax == max && heap == p && heapLen == len
      ensures !Noop(sm) ==> StrBuf(sm, local[..], 0)
    {
      local := new byte[c];
      heap := p;
      heapLen := len;
      lmax := max;
      new;
      if !Noop(sm) {
        ghost var a0 := local[..];
        InitBytes(sm, local, 0, c);
        WipedIsEmpty(sm, a0, local[..]);
      }
    }

    /** `set_heap(p, l)`: sets both components of the heap pair. */
    method SetHeap(p: array<byte>, l: nat)
      requires l <= lmax
      modifies this
      ensures heap == p && heapLen == l
    {
      heap := p;
      heapLen := l;
    }

    /** `set_heap_ptr(p)`: only the pointer changes. */
    method SetHeapPtr(p: array<byte>)
      modifies this
      ensures heap == p && heapLen == old(heapLen)
    {
      heap := p;
    }

    /** `set_heap_len(l)`: only the length changes. */
    method SetHeapLen(l: nat)
      requires l <= lmax
      modifies this
      ensures heapLen == l && heap == old(heap)
    {
      heapLen := l;
    }
  }

  /**
   * `heap_buffer(n)`: a heap array of `n` bytes, all handed to the policy,
   * recorded in a buffer as a heap pair of length 0.
   */
  method HeapBuffer(c: nat, max: nat, sm: Policy, n: nat) returns (b: Buffer)
    ensures fresh(b) && fresh(b.local) && fresh(b.heap) && b.local.Length == c && b.lmax == max
    ensures b.heap.Length == n && b.heapLen == 0 && StrBuf(sm, b.heap[..], 0)
  {
    var p := new byte[n];
    ghost var a0 := p[..];
    InitBytes(sm, p, 0, n);
    WipedIsEmpty(sm, a0, p[..]);
    b := new Buffer.Heap(c, max, sm, p, 0);
  }

  /**
   * Moves the bytes after the run `[idx, idx + k)` of the first `n` down
   * over it (`ptr::copy`) and, unless the policy is a no-op, hands the `k`
   * bytes after the new end to the policy.
   */
  method CutBytes(sm: Policy, a: array<byte>, n: nat, idx: nat, k: nat)
    requires idx + k <= n <= a.Length
    modifies a
    ensures a[..] == CutFrom(sm, old(a[..]), n, idx, k)
  {
    Move(a, idx + k, idx, n - k - idx);
    if !Noop(sm) {
      InitBytes(sm, a, n - k, k);
    }
  }

  /** Moves the bytes `[idx, n)` up by `|x|` (`ptr::copy`) and copies `x` into the gap. */
  method SpliceBytes(a: array<byte>, n: nat, idx: nat, x: seq<byte>)
    requires idx <= n && n + |x| <= a.Length
    modifies a
    ensures a[..] == Spliced(old(a[..]), n, idx, x)
  {
    Move(a, idx, idx + |x|, n - idx);
    CopyIn(a, idx, x);
  }

  class SmallString {
    /** `C`, the number of bytes the local array holds. */
    const localCap: nat
    /** `L`, the length type. */
    const width: LengthType.Width
    /** `L::MAX`. */
    const lmax: nat
    /** `SM`, the spare-memory policy. */
    const sm: Policy
    /** The allocator: whether a request of `n` bytes succeeds. */
    const grants: nat -> bool
    /** The local/heap union. */
    const buf: Buffer
    /** The `capacity` field: the length while local (`<= C`), the heap capacity on the heap (`> C`). */
    var capacity: nat

    /** Whether the string is on the heap. */
    predicate IsHeap()
      reads this
    {
      capacity > localCap
    }

    /** The byte array in use: the local array while local, the heap array otherwise. */
    function Bytes(): array<byte>
      reads this, buf
    {
      if capacity <= localCap then buf.local else buf.heap
    }

    /** The length as the mode encodes it: the `capacity` field while local, the heap length otherwise. */
    function Length(): nat
      reads this, buf
    {
      if capacity <= localCap then capacity else buf.heapLen
    }

    /** The capacity as the mode encodes it: `max(capacity, C)`. */
    function Cap(): nat
      reads this
    {
      if capacity <= localCap then localCap else capacity
    }

    /** The mode encoding: the local array has `C` bytes; on the heap the array has `capacity` bytes and holds the length. */
    ghost predicate Shape()
      reads this, buf
    {
      && lmax == LengthType.Max(width) && localCap <= lmax && buf.lmax == lmax
      && buf.local.Length == localCap
      && (capacity > localCap ==> buf.heap != buf.local && buf.heap.Length == capacity <= lmax && buf.heapLen <= capacity)
    }

    ghost predicate Valid()
      reads this, buf, buf.local, buf.heap
    {
      Shape() && StrBuf(sm, Bytes()[..], Length())
    }

    /** `new()`: an empty local string whose `C` bytes have been handed to the policy. */
    constructor New(w: LengthType.Width, c: nat, policy: Policy, alloc: nat -> bool)
      requires c <= LengthType.Max(w)
      ensures Valid() && fresh(buf) && fresh(buf.local) && fresh(buf.heap)
      ensures localCap == c && width == w && sm == policy && grants == alloc
      ensures AsBytes() == [] && !IsHeap()
    {
      localCap := c;
      width := w;
      lmax := LengthType.Max(w);
      sm := policy;
      grants := alloc;
      buf := new Buffer.New(c, LengthType.Max(w), policy);
      capacity := 0;
    }

    /** `Self { buf, capacity }`: a string over a buffer that already holds it in the mode `cap` encodes. */
    constructor FromBuffer(w: LengthType.Width, c: nat, policy: Policy, alloc: nat -> bool, b: Buffer, cap: nat)
      requires c <= LengthType.Max(w) && b.lmax == LengthType.Max(w) && b.local.Length == c
      requires cap <= c ==> StrBuf(policy, b.local[..], cap)
      requires cap > c ==> && b.heap != b.local && b.heap.Length == cap <= LengthType.Max(w) && b.heapLen <= cap
                           && StrBuf(policy, b.heap[..], b.heapLen)
      ensures Valid() && buf == b && capacity == cap
      ensures localCap == c && width == w && sm == policy && grants == alloc
    {
      localCap := c;
      width := w;
      lmax := LengthType.Max(w);
      sm := policy;
      grants := alloc;
      buf := b;
      capacity := cap;
    }

    /**
     * `with_capacity(n)`: the empty local string when `n <= C`, otherwise
     * an empty string on a heap array of exactly `n` bytes. `L::new(n)`
     * and the allocation panic when they fail, so they are required to
     * succeed.
     */
    static method WithCapacity(w: LengthType.Width, c: nat, policy: Policy, alloc: nat -> bool, n: nat) returns (s: SmallString)
      requires c <= LengthType.Max(w)
      requires n > c ==> n <= LengthType.Max(w) && Allocate(1, alloc, n).Ok?
      ensures fresh(s) && s.Valid() && s.AsBytes() == []
      ensures s.localCap == c && s.width == w && s.sm == policy && s.grants == alloc
      ensures s.Capacity() == (if n <= c then c else n) && (s.IsHeap() <==> n > c)
    {
      if n <= c {
        s := new SmallString.New(w, c, policy, alloc);
      } else {
        var b := HeapBuffer(c, LengthType.Max(w), policy, n);
        s := new SmallString.FromBuffer(w, c, policy, alloc, b, n);
      }
    }

    /**
     * `try_from_bytes(bytes)` on valid UTF-8: `CapacityOverflow` past
     * `L::MAX`; a local string when the bytes fit in `C`; otherwise a heap
     * array of exactly `|bytes|` bytes, or the allocation's error. This is
     * the outcome of an exact reservation of `|bytes|` on an empty string.
     */
    static method TryFromBytes(w: LengthType.Width, c: nat, policy: Policy, alloc: nat -> bool, bytes: seq<byte>)
      returns (r: Result<SmallString, ReservationError>)
      requires c <= LengthType.Max(w) && Utf8.Valid(bytes)
      ensures var res := Reserved(w, 1, alloc, 0, c, |bytes|, true);
              && (r.Ok? <==> res.Ok?)
              && (r.Err? ==> r.error == res.error)
      ensures |bytes| > LengthType.Max(w) ==> r == Err(CapacityOverflow)
      ensures r.Ok? ==> fresh(r.value) && r.value.Valid() && r.value.AsBytes() == bytes
      ensures r.Ok? ==> r.value.localCap == c && r.value.width == w && r.value.sm == policy && r.value.grants == alloc
      ensures r.Ok? ==> r.value.Capacity() == (if |bytes| <= c then c else |bytes|) && (r.value.IsHeap() <==> |bytes| > c)
    {
      var len := |bytes|;
      if len > LengthType.Max(w) {
        return Err(CapacityOverflow);
      }
      if len <= c {
        var b := new Buffer.LocalFromBytes(c, LengthType.Max(w), policy, bytes);
        var s := new SmallString.FromBuffer(w, c, policy, alloc, b, len);
        return Ok(s);
      }
      var a := Allocate(1, alloc, len);
      if a.Err? {
        return Err(a.error);
      }
      var p := new byte[len];
      CopyIn(p, 0, bytes);
      assert p[..len] == p[..] == bytes;
      var b := new Buffer.Heap(c, LengthType.Max(w), policy, p, len);
      var s := new SmallString.FromBuffer(w, c, policy, alloc, b, len);
      r := Ok(s);
    }

    /** `as_bytes()` and `as_str()`: the live bytes, which are valid UTF-8. */
    function AsBytes(): (r: seq<byte>)
      reads this, buf, buf.local, buf.heap
      requires Valid()
      ensures |r| <= Capacity() && Utf8.Valid(r)
    {
      Bytes()[..Length()]
    }

    /** `len()`: the number of bytes. */
    function Len(): (n: nat)
      reads this, buf, buf.local, buf.heap
      requires Valid()
      ensures n == |AsBytes()| <= Capacity()
    {
      Length()
    }

    /** `capacity()`: `max(capacity, C)`, the length of the byte array in use. */
    function Capacity(): (n: nat)
      reads this, buf, buf.local, buf.heap
      requires Valid()
      ensures n == Bytes().Length && localCap <= n <= lmax
      ensures IsHeap() <==> n > localCap
    {
      Cap()
    }

    /** `is_empty()`. */
    function IsEmpty(): (r: bool)
      reads this, buf, buf.local, buf.heap
      requires Valid()
      ensures r <==> AsBytes() == []
    {
      Length() == 0
    }

    /**
     * Stores `n` as the length: the `capacity` field while local, the heap
     * length otherwise. Only the length changes; the mode and the array stay.
     */
    method SetLen(n: nat)
      requires buf.lmax == lmax && localCap <= lmax && n <= Cap() && (capacity > localCap ==> capacity <= lmax)
      modifies this, buf
      ensures Length() == n
      ensures capacity <= localCap <==> old(capacity) <= localCap
      ensures Cap() == old(Cap()) && Bytes() == old(Bytes()) && buf.heap == old(buf.heap)
    {
      if capacity <= localCap {
        capacity := n;
      } else {
        buf.SetHeapLen(n);
      }
    }

    /** The outcome `reserve_core(additional)` has on this string: its new capacity, or the error that panics. */
    ghost function Reservation(additional: nat, exact: bool): Result<nat, ReservationError>
      reads this, buf, buf.local, buf.heap
      requires Valid()
    {
      Reserved(width, 1, grants, Len(), Capacity(), additional, exact)
    }

    /**
     * The promotion in `reserve_core`: allocates `new_cap` bytes, copies the
     * local string (and, unless the policy is a no-op, the local spare
     * bytes) to the front, hands the bytes past `C` and then the vacated
     * local bytes to the policy, and records the heap pair with the old
     * length.
     */
    method Promote(newCap: nat)
      requires Valid() && capacity <= localCap < newCap <= lmax
      modifies this, buf, buf.local
      ensures Valid() && AsBytes() == old(AsBytes()) && capacity == newCap && IsHeap()
      ensures fresh(buf.heap) && buf.heapLen == old(capacity)
    {
      var len := capacity;
      var p := new byte[newCap];
      var n := if Noop(sm) then len else localCap;
      ghost var a0 := buf.local[..];
      CopyAcross(buf.local, p, n);
      if !Noop(sm) {
        InitBytes(sm, p, localCap, newCap - localCap);
      }
      GrownBuf(sm, a0, len, n, p[..]);
      if !Noop(sm) {
        InitBytes(sm, buf.local, 0, len);
      }
      buf.SetHeap(p, len);
      capacity := newCap;
    }

    /**
     * The heap growth in `reserve_core`: a new array of `new_cap` bytes
     * holding the whole old array (a `realloc` for a no-op policy; for any
     * other policy an allocation and a copy, after which the old live bytes
     * go to the policy before the old array is freed), its new bytes handed
     * to the policy.
     */
    method GrowHeap(newCap: nat)
      requires Valid() && localCap < capacity < newCap <= lmax
      modifies this, buf, buf.heap
      ensures Valid() && AsBytes() == old(AsBytes()) && capacity == newCap && IsHeap()
      ensures fresh(buf.heap) && buf.heapLen == old(buf.heapLen)
    {
      var cap := capacity;
      var oldP := buf.heap;
      var p := new byte[newCap];
      ghost var a0 := oldP[..];
      CopyAcross(oldP, p, cap);
      if !Noop(sm) {
        InitBytes(sm, p, cap, newCap - cap);
      }
      GrownBuf(sm, a0, buf.heapLen, cap, p[..]);
      if !Noop(sm) {
        InitBytes(sm, oldP, 0, buf.heapLen);
      }
      buf.SetHeapPtr(p);
      capacity := newCap;
    }

    /**
     * `reserve_core(additional, nc)`: nothing when the spare capacity covers
     * `additional`; otherwise the string moves to a heap array of the growth
     * rule's capacity. The growth rule's overflow and a failed allocation
     * panic, so the reservation is required to succeed.
     */
    method ReserveCore(additional: nat, exact: bool)
      requires Valid() && Reservation(additional, exact).Ok?
      modifies this, buf, buf.local, buf.heap
      ensures Valid() && AsBytes() == old(AsBytes())
      ensures Capacity() == old(Reservation(additional, exact)).value && old(Len()) + additional <= Capacity()
      ensures Capacity() == old(Capacity()) ==> capacity == old(capacity) && buf.heap == old(buf.heap) && buf.heapLen == old(buf.heapLen)
      ensures Capacity() != old(Capacity()) ==> IsHeap() && fresh(buf.heap)
    {
      var len := Len();
      var cap := Capacity();
      ReservedLaws(width, 1, grants, len, cap, additional, exact);
      if additional <= cap - len {
        return;
      }
      var nc := NewCapacity(width, len, additional, exact);
      if capacity <= localCap {
        Promote(nc.value);
      } else {
        GrowHeap(nc.value);
      }
    }

    /** `reserve(additional)`: `reserve_core` with the power-of-two growth rule. */
    method Reserve(additional: nat)
      requires Valid() && Reservation(additional, false).Ok?
      modifies this, buf, buf.local, buf.heap
      ensures Valid() && AsBytes() == old(AsBytes())
      ensures Capacity() == old(Reservation(additional, false)).value && old(Len()) + additional <= Capacity()
      ensures IsHeap() <==> old(IsHeap()) || Capacity() != old(Capacity())
      ensures buf.heap == old(buf.heap) || fresh(buf.heap)
    {
      ReserveCore(additional, false);
    }

    /** `reserve_exact(additional)`: `reserve_core` with the exact growth rule. */
    method ReserveExact(additional: nat)
      requires Valid() && Reservation(additional, true).Ok?
      modifies this, buf, buf.local, buf.heap
      ensures Valid() && AsBytes() == old(AsBytes())
      ensures Capacity() == old(Reservation(additional, true)).value && old(Len()) + additional <= Capacity()
      ensures IsHeap() <==> old(IsHeap()) || Capacity() != old(Capacity())
      ensures buf.heap == old(buf.heap) || fresh(buf.heap)
    {
      ReserveCore(additional, true);
    }

    /** `clear()`: hands the live bytes to the policy and sets the length to 0; a heap string stays on the heap. */
    method Clear()
      requires Valid()
      modifies this, buf, buf.local, buf.heap
      ensures Valid() && AsBytes() == []
      ensures Capacity() == old(Capacity()) && IsHeap() == old(IsHeap()) && Bytes() == old(Bytes())
      ensures Bytes()[..] == WipeBytes(sm, old(Bytes()[..]), 0, old(Len()))
    {
      var a := Bytes();
      var n := Length();
      ghost var a0 := a[..];
      InitBytes(sm, a, 0, n);
      SetLen(0);
      TruncateKeeps(sm, a0, n, 0, a[..]);
    }

    /**
     * `truncate(new_len)`: nothing when `new_len >= len`; otherwise `new_len`
     * must be a char boundary (the source panics if not), the bytes after it
     * go to the policy and the length becomes `new_len`.
     */
    method Truncate(newLen: nat)
      requires Valid() && (newLen < Len() ==> Utf8.IsCharBoundary(AsBytes(), newLen))
      modifies this, buf, buf.local, buf.heap
      ensures Valid() && Capacity() == old(Capacity()) && IsHeap() == old(IsHeap()) && Bytes() == old(Bytes())
      ensures AsBytes() == if newLen < old(Len()) then old(AsBytes())[..newLen] else old(AsBytes())
      ensures Bytes()[..] == if newLen < old(Len()) then WipeBytes(sm, old(Bytes()[..]), newLen, old(Len()) - newLen)
                             else old(Bytes()[..])
    {
      var a := Bytes();
      var len := Length();
      if newLen >= len {
        return;
      }
      ghost var a0 := a[..];
      if !Noop(sm) {
        InitBytes(sm, a, newLen, len - newLen);
      }
      assert a[..] == WipeBytes(sm, a0, newLen, len - newLen);
      SetLen(newLen);
      TruncateKeeps(sm, a0, len, newLen, a[..]);
    }

    /** Copies the valid run `x`, which fits, after the live bytes and counts it: the tail of the push operations. */
    method AppendSpare(x: seq<byte>)
      requires Valid() && Utf8.Valid(x) && Len() + |x| <= Capacity()
      modifies this, buf, Bytes()
      ensures Valid() && AsBytes() == old(AsBytes()) + x
      ensures Capacity() == old(Capacity()) && IsHeap() == old(IsHeap()) && buf.heap == old(buf.heap)
    {
      var a := Bytes();
      var n := Length();
      ghost var a0 := a[..];
      CopyIn(a, n, x);
      AppendKeeps(sm, a0, n, x, a[..]);
      SetLen(n + |x|);
    }

    /**
     * `push_str(s)` (`extend_from_slice`): reserves `|s|` with the
     * power-of-two rule when the spare bytes are short, then appends `s`.
     */
    method PushStr(s: seq<byte>)
      requires Valid() && Utf8.Valid(s) && Reservation(|s|, false).Ok?
      modifies this, buf, buf.local, buf.heap
      ensures Valid() && AsBytes() == old(AsBytes()) + s
      ensures Capacity() == old(Reservation(|s|, false)).value
      ensures IsHeap() <==> old(IsHeap()) || Capacity() != old(Capacity())
      ensures buf.heap == old(buf.heap) || fresh(buf.heap)
    {
      if Capacity() - Len() < |s| {
        ReserveCore(|s|, false);
      } else {
        ReservedLaws(width, 1, grants, Len(), Capacity(), |s|, false);
      }
      AppendSpare(s);
    }

    /** `push(ch)`: reserves `len_utf8(ch)` when the spare bytes are short, then appends the encoding of `ch`. */
    method Push(ch: char)
      requires Valid() && Reservation(Utf8.LenUtf8(ch), false).Ok?
      modifies this, buf, buf.local, buf.heap
      ensures Valid() && AsBytes() == old(AsBytes()) + Utf8.Encode(ch)
      ensures Capacity() == old(Reservation(Utf8.LenUtf8(ch), false)).value
      ensures IsHeap() <==> old(IsHeap()) || Capacity() != old(Capacity())
      ensures buf.heap == old(buf.heap) || fresh(buf.heap)
    {
      var u8len := Utf8.LenUtf8(ch);
      if Capacity() - Len() < u8len {
        ReserveCore(u8len, false);
      } else {
        ReservedLaws(width, 1, grants, Len(), Capacity(), u8len, false);
      }
      Utf8.ValidEncode(ch);
      AppendSpare(Utf8.Encode(ch));
    }

    /**
     * `pop()`: removes the last char and hands its bytes to the policy;
     * `None`, and no change, iff the string is empty.
     */
    method Pop() returns (r: Option<char>)
      requires Valid()
      modifies this, buf, buf.local, buf.heap
      ensures Valid() && Capacity() == old(Capacity()) && IsHeap() == old(IsHeap()) && Bytes() == old(Bytes())
      ensures r.None? <==> old(AsBytes()) == []
      ensures r.Some? ==> old(AsBytes()) == AsBytes() + Utf8.Encode(r.value)
      ensures r.Some? ==> Bytes()[..] == WipeBytes(sm, old(Bytes()[..]), Len(), Utf8.LenUtf8(r.value))
      ensures r.None? ==> Bytes()[..] == old(Bytes()[..])
    {
      var a := Bytes();
      var len := Length();
      if len == 0 {
        return None;
      }
      var ch := Utf8.LastChar(a[..len]);
      var chLen := Utf8.LenUtf8(ch);
      var newLen := len - chLen;
      ghost var a0 := a[..];
      InitBytes(sm, a, newLen, chLen);
      SetLen(newLen);
      TruncateKeeps(sm, a0, len, newLen, a[..]);
      r := Some(ch);
    }

    /**
     * Moves the bytes from the char boundary `idx` up by `|x|` and copies
     * the valid run `x`, which fits, into the gap: the tail of the insert
     * operations.
     */
    method SpliceSpare(idx: nat, x: seq<byte>)
      requires Valid() && Utf8.Valid(x) && Utf8.IsCharBoundary(AsBytes(), idx) && Len() + |x| <= Capacity()
      modifies this, buf, Bytes()
      ensures Valid() && AsBytes() == SpliceAt(old(AsBytes()), idx, x)
      ensures Capacity() == old(Capacity()) && IsHeap() == old(IsHeap()) && buf.heap == old(buf.heap)
    {
      var a := Bytes();
      var n := Length();
      ghost var a0 := a[..];
      assert a0[..n] == AsBytes();
      SpliceBytes(a, n, idx, x);
      SpliceKeeps(sm, a0, n, idx, x, a[..]);
      SetLen(n + |x|);
    }

    /**
     * `insert(idx, ch)`: reserves `len_utf8(ch)` when the spare bytes are
     * short, then splices the encoding of `ch` in at `idx`, which must be a
     * char boundary (the source panics if not).
     */
    method Insert(idx: nat, ch: char)
      requires Valid() && Utf8.IsCharBoundary(AsBytes(), idx) && Reservation(Utf8.LenUtf8(ch), false).Ok?
      modifies this, buf, buf.local, buf.heap
      ensures Valid() && AsBytes() == SpliceAt(old(AsBytes()), idx, Utf8.Encode(ch))
      ensures Capacity() == old(Reservation(Utf8.LenUtf8(ch), false)).value
      ensures IsHeap() <==> old(IsHeap()) || Capacity() != old(Capacity())
      ensures buf.heap == old(buf.heap) || fresh(buf.heap)
    {
      var chLen := Utf8.LenUtf8(ch);
      if Capacity() - Len() < chLen {
        ReserveCore(chLen, false);
      } else {
        ReservedLaws(width, 1, grants, Len(), Capacity(), chLen, false);
      }
      Utf8.ValidEncode(ch);
      SpliceSpare(idx, Utf8.Encode(ch));
    }

    /**
     * `insert_str(idx, s)`: reserves `|s|` when the spare bytes are short,
     * then splices `s` in at `idx`, which must be a char boundary (the
     * source panics if not).
     */
    method InsertStr(idx: nat, s: seq<byte>)
      requires Valid() && Utf8.Valid(s) && Utf8.IsCharBoundary(AsBytes(), idx) && Reservation(|s|, false).Ok?
      modifies this, buf, buf.local, buf.heap
      ensures Valid() && AsBytes() == SpliceAt(old(AsBytes()), idx, s)
      ensures Capacity() == old(Reservation(|s|, false)).value
      ensures IsHeap() <==> old(IsHeap()) || Capacity() != old(Capacity())
      ensures buf.heap == old(buf.heap) || fresh(buf.heap)
    {
      if Capacity() - Len() < |s| {
        ReserveCore(|s|, false);
      } else {
        ReservedLaws(width, 1, grants, Len(), Capacity(), |s|, false);
      }
      SpliceSpare(idx, s);
    }

    /**
     * `remove(idx)`: returns the char starting at `idx`, moves the bytes
     * after it down over it and hands the freed bytes at the end to the
     * policy. `idx` must be a char boundary before the end (the source
     * panics if not).
     */
    method Remove(idx: nat) returns (ch: char)
      requires Valid() && idx < Len() && Utf8.IsCharBoundary(AsBytes(), idx)
      modifies this, buf, buf.local, buf.heap
      ensures Valid() && Capacity() == old(Capacity()) && IsHeap() == old(IsHeap()) && Bytes() == old(Bytes())
      ensures idx + Utf8.LenUtf8(ch) <= old(Len()) && old(AsBytes())[idx..idx + Utf8.LenUtf8(ch)] == Utf8.Encode(ch)
      ensures AsBytes() == old(AsBytes())[..idx] + old(AsBytes())[idx + Utf8.LenUtf8(ch)..]
      ensures old(AsBytes()) == SpliceAt(AsBytes(), idx, Utf8.Encode(ch))
      ensures Bytes()[..] == CutFrom(sm, old(Bytes()[..]), old(Len()), idx, Utf8.LenUtf8(ch))
    {
      var s0 := AsBytes();
      ch := Utf8.CharAt(s0, idx);
      var k := Utf8.LenUtf8(ch);
      assert s0[idx..idx + k] == Utf8.Encode(ch);
      Cut(idx, k);
    }

    /**
     * Cuts the run `[idx, idx + k)` out of the string, provided what is
     * left is valid: the tail of `remove`.
     */
    method Cut(idx: nat, k: nat)
      requires Valid() && idx + k <= Len() && Utf8.Valid(AsBytes()[..idx] + AsBytes()[idx + k..])
      modifies this, buf, Bytes()
      ensures Valid() && Capacity() == old(Capacity()) && IsHeap() == old(IsHeap()) && Bytes() == old(Bytes())
      ensures AsBytes() == old(AsBytes())[..idx] + old(AsBytes())[idx + k..]
      ensures old(AsBytes()) == SpliceAt(AsBytes(), idx, old(AsBytes())[idx..idx + k])
      ensures Bytes()[..] == CutFrom(sm, old(Bytes()[..]), old(Len()), idx, k)
    {
      var a := Bytes();
      var len := Length();
      ghost var a0 := a[..];
      ghost var s0 := a0[..len];
      assert s0 == AsBytes();
      assert Utf8.Valid(s0[..idx] + s0[idx + k..]);
      CutBytes(sm, a, len, idx, k);
      CutKeeps(sm, a0, len, idx, k, a[..]);
      SetLen(len - k);
    }
  }

  /**
   * The `push_str` test over `u8` with `C = 4` and the pattern 0xAA: "ab"
   * and "cd" fit locally, and "a" after "abcd" moves the string to a heap
   * array of 8 bytes.
   */
  method PushStrExample() returns (caps: seq<nat>, len: nat)
    ensures caps == [4, 4, 8] && len == 5
  {
    var s := new SmallString.New(LengthType.U8, 4, Pattern(0xAA), _ => true);
    var ab: seq<byte> := [0x61, 0x62];
    var cd: seq<byte> := [0x63, 0x64];
    var a: seq<byte> := [0x61];
    Utf8.AsciiValid(ab);
    Utf8.AsciiValid(cd);
    Utf8.AsciiValid(a);
    s.PushStr(ab);
    var c1 := s.Capacity();
    assert s.Len() == 2 && c1 == 4;
    s.PushStr(cd);
    var c2 := s.Capacity();
    assert s.Len() == 4 && c2 == 4;
    assert LengthType.NextPowerOfTwoOrMax(LengthType.U8, 5) == 8;
    s.PushStr(a);
    caps := [c1, c2, s.Capacity()];
    len := s.Len();
  }

  /**
   * The `push` test over `u8` with `C = 4`: after 'a', 'b' and '€' the
   * string holds 5 bytes in a heap array of 8, and after two more '€' it
   * holds 11 bytes in a heap array of 16.
   */
  method PushExample() returns (len1: nat, cap1: nat, len2: nat, cap2: nat)
    ensures len1 == 5 && cap1 == 8 && len2 == 11 && cap2 == 16
  {
    var s := new SmallString.New(LengthType.U8, 4, Pattern(0xAA), _ => true);
    s.Push('a');
    assert s.Len() == 1 && s.Capacity() == 4;
    s.Push('b');
    assert s.Len() == 2 && s.Capacity() == 4;
    assert LengthType.NextPowerOfTwoOrMax(LengthType.U8, 5) == 8;
    s.Push('€');
    len1, cap1 := s.Len(), s.Capacity();
    assert len1 == 5 && cap1 == 8;
    s.Push('€');
    assert s.Len() == 8 && s.Capacity() == 8;
    assert LengthType.NextPowerOfTwoOrMax(LengthType.U8, 11) == 16;
    s.Push('€');
    len2, cap2 := s.Len(), s.Capacity();
  }
}
