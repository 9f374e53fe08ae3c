/**
 * `ArrayString`: a UTF-8 string of at most `C` bytes kept in a fixed byte
 * array. The bytes `[0, len)` are the string and always form valid UTF-8;
 * every byte the string vacates is handed to the spare-memory policy, so
 * under a pattern policy every byte in `[len, C)` is the pattern byte.
 * A `&str` argument is a byte sequence that is valid UTF-8.
 */
module ArrayStrings {
  import opened Wrappers
  import opened Memory
  import opened SpareMemory
  import opened Errors
  import opened SeqOps
  import opened StrBuffers
  import Utf8
  import LengthType

  class ArrayString {
    /** `C`, the capacity in bytes. */
    const capacity: nat
    /** `L`, the length type. */
    const width: LengthType.Width
    /** `L::MAX`. */
    const lmax: nat
    /** `SM`, the spare-memory policy. */
    const sm: Policy
    /** The `C` bytes. */
    const arr: array<byte>
    /** The length of the string in bytes. */
    var len: nat

    ghost predicate Valid()
      reads this, arr
    {
      && lmax == LengthType.Max(width) && arr.Length == capacity && capacity <= lmax
      && StrBuf(sm, arr[..], len)
    }

    /** `new()`: the empty string; all `C` bytes have been handed to the policy (otherwise they are whatever the memory held). */
    constructor New(w: LengthType.Width, c: nat, policy: Policy)
      requires c <= LengthType.Max(w)
      ensures Valid() && fresh(arr)
      ensures capacity == c && width == w && sm == policy && len == 0
      ensures policy.Pattern? ==> arr[..] == seq(c, _ => policy.p)
    {
      capacity := c;
      width := w;
      lmax := LengthType.Max(w);
      sm := policy;
      arr := new byte[c];
      len := 0;
      new;
      ghost var a0 := arr[..];
      InitBytes(sm, arr, 0, c);
      WipedIsEmpty(sm, a0, arr[..]);
    }

    /**
     * `new_raw(|s|)` followed by a copy of the valid bytes `s` to the front
     * and the policy over the `C - |s|` bytes after them: the construction
     * shared by `clone` and the `TryFrom` conversions. The other bytes are
     * whatever the memory held.
     */
    constructor FromBytes(w: LengthType.Width, c: nat, policy: Policy, s: seq<byte>)
      requires c <= LengthType.Max(w) && |s| <= c && Utf8.Valid(s)
      ensures Valid() && fresh(arr)
      ensures capacity == c && width == w && sm == policy && AsBytes() == s
    {
      capacity := c;
      width := w;
      lmax := LengthType.Max(w);
      sm := policy;
      arr := new byte[c];
      len := |s|;
      new;
      ghost var a0 := arr[..];
      CopyIn(arr, 0, s);
      InitBytes(sm, arr, |s|, c - |s|);
      FillKeeps(sm, a0, s, c - |s|, arr[..]);
    }

    /** `as_bytes()` and `as_str()`: the bytes of the string, which are valid UTF-8. */
    function AsBytes(): (r: seq<byte>)
      reads this, arr
      requires Valid()
      ensures |r| == len <= capacity && Utf8.Valid(r)
    {
      arr[..len]
    }

    /** `len()`. */
    function Len(): (n: nat)
      reads this, arr
      requires Valid()
      ensures n == |AsBytes()| && n <= capacity
    {
      len
    }

    /** `is_empty()`. */
    function IsEmpty(): (r: bool)
      reads this, arr
      requires Valid()
      ensures r <==> AsBytes() == []
    {
      len == 0
    }

    /** `spare_capacity()`. */
    function SpareCapacity(): (r: nat)
      reads this, arr
      requires Valid()
      ensures r + |AsBytes()| == capacity
    {
      capacity - len
    }

    /** `clear()`: the empty string; the `len` bytes it had are handed to the policy. */
    method Clear()
      requires Valid()
      modifies this, arr
      ensures Valid() && AsBytes() == []
      ensures arr[..] == WipeBytes(sm, old(arr[..]), 0, old(len))
    {
      Shrink(0);
    }

    /** Cuts the string at the char boundary `m`, handing the bytes after it to the policy: the common step of the truncating operations. */
    method Shrink(m: nat)
      requires Valid() && m <= len && Utf8.IsCharBoundary(AsBytes(), m)
      modifies this, arr
      ensures Valid() && AsBytes() == old(AsBytes())[..m]
      ensures arr[..] == WipeBytes(sm, old(arr[..]), m, old(len) - m)
    {
      var n := len;
      ghost var a0 := arr[..];
      len := m;
      InitBytes(sm, arr, m, n - m);
      TruncateKeeps(sm, a0, n, m, arr[..]);
    }

    /** Appends the valid run `x`, which fits: the common step of the push operations. */
    method Append(x: seq<byte>)
      requires Valid() && Utf8.Valid(x) && len + |x| <= capacity
      modifies this, arr
      ensures Valid()
      ensures AsBytes() == old(AsBytes()) + x
      ensures arr[..] == Written(old(arr[..]), old(len), x)
    {
      var n := len;
      ghost var a0 := arr[..];
      CopyIn(arr, n, x);
      AppendKeeps(sm, a0, n, x, arr[..]);
      len := n + |x|;
    }

    /** `push_unchecked(ch)`: encodes `ch` into the spare bytes. */
    method PushUnchecked(ch: char)
      requires Valid() && Utf8.LenUtf8(ch) <= capacity - len
      modifies this, arr
      ensures Valid()
      ensures AsBytes() == old(AsBytes()) + Utf8.Encode(ch)
      ensures arr[..] == Written(old(arr[..]), old(len), Utf8.Encode(ch))
    {
      Utf8.ValidEncode(ch);
      Append(Utf8.Encode(ch));
    }

    /** `try_push(ch)`: appends `ch` iff its encoding fits in the spare bytes. */
    method TryPush(ch: char) returns (r: Result<(), CapacityError>)
      requires Valid()
      modifies this, arr
      ensures Valid()
      ensures r.Ok? <==> Utf8.LenUtf8(ch) <= capacity - old(len)
      ensures r.Ok? ==> AsBytes() == old(AsBytes()) + Utf8.Encode(ch)
                        && arr[..] == Written(old(arr[..]), old(len), Utf8.Encode(ch))
      ensures r.Err? ==> len == old(len) && arr[..] == old(arr[..])
    {
      if Utf8.LenUtf8(ch) > capacity - len {
        return Err(CapacityError);
      }
      PushUnchecked(ch);
      r := Ok(());
    }

    /** `push_str_unchecked(s)`: copies `s` into the spare bytes. */
    method PushStrUnchecked(s: seq<byte>)
      requires Valid() && Utf8.Valid(s) && |s| <= capacity - len
      modifies this, arr
      ensures Valid()
      ensures AsBytes() == old(AsBytes()) + s
      ensures arr[..] == Written(old(arr[..]), old(len), s)
    {
      Append(s);
    }

    /** `try_push_str(s)`: appends `s` iff it fits in the spare bytes. */
    method TryPushStr(s: seq<byte>) returns (r: Result<(), CapacityError>)
      requires Valid() && Utf8.Valid(s)
      modifies this, arr
      ensures Valid()
      ensures r.Ok? <==> |s| <= capacity - old(len)
      ensures r.Ok? ==> AsBytes() == old(AsBytes()) + s && arr[..] == Written(old(arr[..]), old(len), s)
      ensures r.Err? ==> len == old(len) && arr[..] == old(arr[..])
    {
      if |s| > capacity - len {
        return Err(CapacityError);
      }
      PushStrUnchecked(s);
      r := Ok(());
    }

    /**
     * `add_str(s)`: appends the longest prefix of `s` that fits in the spare
     * bytes and ends on a char boundary of `s`, and returns its length.
     */
    method AddStr(s: seq<byte>) returns (n: nat)
      requires Valid() && Utf8.Valid(s)
      modifies this, arr
      ensures Valid()
      ensures n <= |s| && n <= capacity - old(len) && Utf8.IsCharBoundary(s, n)
      ensures n == |s| <==> |s| <= capacity - old(len)
      ensures forall m :: n < m <= |s| && m <= capacity - old(len) ==> !Utf8.IsCharBoundary(s, m)
      ensures n == Utf8.FitLen(s, capacity - old(len))
      ensures AsBytes() == old(AsBytes()) + s[..n]
      ensures arr[..] == Written(old(arr[..]), old(len), s[..n])
    {
      var spare := capacity - len;
      n := |s|;
      if n > spare {
        n := spare;
        while !Utf8.IsCharBoundary(s, n)
          invariant n <= spare < |s|
          invariant forall m :: n < m <= spare ==> !Utf8.IsCharBoundary(s, m)
          decreases n
        {
          n := n - 1;
        }
      }
      Utf8.ValidSplit(s, n);
      Append(s[..n]);
    }

    /** `pop()`: removes the last char and hands its bytes to the policy; `None` (and no change) iff the string is empty. */
    method Pop() returns (r: Option<char>)
      requires Valid()
      modifies this, arr
      ensures Valid()
      ensures r.None? <==> old(AsBytes()) == []
      ensures r.Some? ==> old(AsBytes()) == AsBytes() + Utf8.Encode(r.value)
      ensures r.Some? ==> arr[..] == WipeBytes(sm, old(arr[..]), len, Utf8.LenUtf8(r.value))
      ensures r.None? ==> len == old(len) && arr[..] == old(arr[..])
    {
      if len == 0 {
        return None;
      }
      var ch := Utf8.LastChar(arr[..len]);
      Shrink(len - Utf8.LenUtf8(ch));
      r := Some(ch);
    }

    /** Splices the valid run `x` in at the char boundary `idx`: the common step of the insert operations. */
    method Splice(idx: nat, x: seq<byte>)
      requires Valid() && Utf8.Valid(x) && Utf8.IsCharBoundary(AsBytes(), idx) && len + |x| <= capacity
      modifies this, arr
      ensures Valid()
      ensures AsBytes() == SpliceAt(old(AsBytes()), idx, x)
      ensures arr[..] == Spliced(old(arr[..]), old(len), idx, x)
    {
      ghost var n := len;
      ghost var a0 := arr[..];
      SpliceBytes(idx, x);
      SpliceKeeps(sm, a0, n, idx, x, arr[..]);
    }

    /** Moves the bytes from `idx` up by `|x|` (`ptr::copy`) and copies `x` into the gap. */
    method SpliceBytes(idx: nat, x: seq<byte>)
      requires idx <= len && len + |x| <= arr.Length
      modifies this, arr
      ensures len == old(len) + |x|
      ensures arr[..] == Spliced(old(arr[..]), old(len), idx, x)
    {
      var n := len;
      len := n + |x|;
      Move(arr, idx, idx + |x|, n - idx);
      CopyIn(arr, idx, x);
    }

    /** `try_insert(idx, ch)`: `InvalidIndex` unless `idx` is a char boundary, else `InsufficientCapacity` unless `ch` fits. */
    method TryInsert(idx: nat, ch: char) returns (r: Result<(), InsertError>)
      requires Valid()
      modifies this, arr
      ensures Valid()
      ensures r == Err(InvalidIndex) <==> !Utf8.IsCharBoundary(old(AsBytes()), idx)
      ensures r == Err(InsufficientCapacity) <==>
                Utf8.IsCharBoundary(old(AsBytes()), idx) && Utf8.LenUtf8(ch) > capacity - old(len)
      ensures r.Ok? ==> AsBytes() == SpliceAt(old(AsBytes()), idx, Utf8.Encode(ch))
                        && arr[..] == Spliced(old(arr[..]), old(len), idx, Utf8.Encode(ch))
      ensures r.Err? ==> len == old(len) && arr[..] == old(arr[..])
    {
      if !Utf8.IsCharBoundary(arr[..len], idx) {
        return Err(InvalidIndex);
      }
      var chLen := Utf8.LenUtf8(ch);
      if chLen > capacity - len {
        return Err(InsufficientCapacity);
      }
      Utf8.ValidEncode(ch);
      Splice(idx, Utf8.Encode(ch));
      r := Ok(());
    }

    /** `try_insert_str(idx, s)`: `InvalidIndex` unless `idx` is a char boundary, else `InsufficientCapacity` unless `s` fits. */
    method TryInsertStr(idx: nat, s: seq<byte>) returns (r: Result<(), InsertError>)
      requires Valid() && Utf8.Valid(s)
      modifies this, arr
      ensures Valid()
      ensures r == Err(InvalidIndex) <==> !Utf8.IsCharBoundary(old(AsBytes()), idx)
      ensures r == Err(InsufficientCapacity) <==> Utf8.IsCharBoundary(old(AsBytes()), idx) && |s| > capacity - old(len)
      ensures r.Ok? ==> AsBytes() == SpliceAt(old(AsBytes()), idx, s)
                        && arr[..] == Spliced(old(arr[..]), old(len), idx, s)
      ensures r.Err? ==> len == old(len) && arr[..] == old(arr[..])
    {
      if !Utf8.IsCharBoundary(arr[..len], idx) {
        return Err(InvalidIndex);
      }
      if |s| > capacity - len {
        return Err(InsufficientCapacity);
      }
      Splice(idx, s);
      r := Ok(());
    }

    /** Cuts the run `[idx, idx + k)` out of the string, provided what is left is valid: the common step of the remove operations. */
    method Cut(idx: nat, k: nat)
      requires Valid() && idx + k <= len && Utf8.Valid(AsBytes()[..idx] + AsBytes()[idx + k..])
      modifies this, arr
      ensures Valid()
      ensures AsBytes() == old(AsBytes())[..idx] + old(AsBytes())[idx + k..]
      ensures old(AsBytes()) == SpliceAt(AsBytes(), idx, old(AsBytes())[idx..idx + k])
      ensures arr[..] == CutFrom(sm, old(arr[..]), old(len), idx, k)
    {
      ghost var n := len;
      ghost var a0 := arr[..];
      CutBytes(idx, k);
      CutKeeps(sm, a0, n, idx, k, arr[..]);
    }

    /** Moves the bytes after the run `[idx, idx + k)` down over it (`ptr::copy`) and hands the `k` bytes after the new end to the policy. */
    method CutBytes(idx: nat, k: nat)
      requires idx + k <= len <= arr.Length
      modifies this, arr
      ensures len == old(len) - k
      ensures arr[..] == CutFrom(sm, old(arr[..]), old(len), idx, k)
    {
      var n := len;
      len := n - k;
      Move(arr, idx + k, idx, n - k - idx);
      InitBytes(sm, arr, n - k, k);
    }

    /**
     * `try_remove(idx)`: removes and returns the char starting at `idx`,
     * shifting the rest left and handing the freed bytes to the policy;
     * `IndexError` (and no change) unless `idx` is a char boundary before the end.
     */
    method TryRemove(idx: nat) returns (r: Result<char, IndexError>)
      requires Valid()
      modifies this, arr
      ensures Valid()
      ensures r.Err? <==> !Utf8.IsCharBoundary(old(AsBytes()), idx) || idx >= old(len)
      ensures r.Ok? ==> idx + Utf8.LenUtf8(r.value) <= old(len) && idx <= len
      ensures r.Ok? ==> old(AsBytes()) == SpliceAt(AsBytes(), idx, Utf8.Encode(r.value))
      ensures r.Ok? ==> len == old(len) - Utf8.LenUtf8(r.value)
      ensures r.Ok? ==> arr[..] == CutFrom(sm, old(arr[..]), old(len), idx, Utf8.LenUtf8(r.value))
      ensures r.Err? ==> len == old(len) && arr[..] == old(arr[..])
    {
      if !Utf8.IsCharBoundary(arr[..len], idx) || idx >= len {
        return Err(IndexError);
      }
      var ch := Utf8.CharAt(arr[..len], idx);
      Cut(idx, Utf8.LenUtf8(ch));
      r := Ok(ch);
    }

    /**
     * `clone_from(source)`: copies the source's bytes to the front and takes
     * its length; when the string shrinks, the `old_len - len` bytes after the
     * new end are handed to the policy, otherwise none are.
     */
    method CloneFrom(source: ArrayString)
      requires Valid() && source.Valid() && source.arr != arr && source.capacity == capacity && source.sm == sm
      modifies this, arr
      ensures Valid() && AsBytes() == source.AsBytes()
      ensures arr[..] == WipeBytes(sm, Written(old(arr[..]), 0, source.AsBytes()), source.len,
                                   if old(len) > source.len then old(len) - source.len else 0)
    {
      var oldLen := len;
      var n := source.len;
      ghost var a0 := arr[..];
      CopyIn(arr, 0, source.arr[..n]);
      len := n;
      var spare := if oldLen > n then oldLen - n else 0;
      InitBytes(sm, arr, n, spare);
      FillKeeps(sm, a0, source.arr[..n], spare, arr[..]);
    }

    /** `try_truncate(n)`: cuts the string to `n` bytes, handing the rest to the policy; no change when `n >= len`, `IndexError` unless `n` is a char boundary. */
    method TryTruncate(n: nat) returns (r: Result<(), IndexError>)
      requires Valid()
      modifies this, arr
      ensures Valid()
      ensures r.Err? <==> n < old(len) && !Utf8.IsCharBoundary(old(AsBytes()), n)
      ensures r.Ok? && n < old(len) ==> AsBytes() == old(AsBytes())[..n] && arr[..] == WipeBytes(sm, old(arr[..]), n, old(len) - n)
      ensures r.Err? || n >= old(len) ==> len == old(len) && arr[..] == old(arr[..])
    {
      if n >= len {
        return Ok(());
      }
      if !Utf8.IsCharBoundary(arr[..len], n) {
        return Err(IndexError);
      }
      Shrink(n);
      r := Ok(());
    }
  }
}
