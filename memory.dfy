/**
 * The raw memory moves the containers are built from: `ptr::copy` (a move
 * inside one buffer, the regions may overlap), `ptr::copy_nonoverlapping`
 * from a slice, and a copy from one buffer to another.
 */
module Memory {
  newtype byte = x: int | 0 <= x < 0x100

  /** The largest object size, in bytes, a layout may describe: `isize::MAX` on a 64-bit target. */
  const ISIZE_MAX: nat := 0x7FFF_FFFF_FFFF_FFFF

  /** The contents of a buffer after `n` items were moved from `src` to `dst`. */
  function Moved<E>(s: seq<E>, src: nat, dst: nat, n: nat): (r: seq<E>)
    requires src + n <= |s| && dst + n <= |s|
    ensures |r| == |s|
    ensures forall i :: 0 <= i < |s| ==> r[i] == if dst <= i < dst + n then s[src + (i - dst)] else s[i]
  {
    seq(|s|, i requires 0 <= i < |s| => if dst <= i < dst + n then s[src + (i - dst)] else s[i])
  }

  /** The contents of a buffer after `x` was copied to position `dst`. */
  function Written<E>(s: seq<E>, dst: nat, x: seq<E>): (r: seq<E>)
    requires dst + |x| <= |s|
    ensures |r| == |s|
    ensures forall i :: 0 <= i < |s| ==> r[i] == if dst <= i < dst + |x| then x[i - dst] else s[i]
  {
    seq(|s|, i requires 0 <= i < |s| => if dst <= i < dst + |x| then x[i - dst] else s[i])
  }

  /** The buffer after the items `[idx, n)` were moved up by `|x|` and `x` was written into the gap. */
  function Spliced<E>(a: seq<E>, n: nat, idx: nat, x: seq<E>): (r: seq<E>)
    requires idx <= n && n + |x| <= |a|
    ensures |r| == |a|
  {
    Written(Moved(a, idx, idx + |x|, n - idx), idx, x)
  }

  /** Opening a gap of `|x|` at `idx` in the first `n` items and writing `x` into it splices `x` in. */
  lemma SpliceIn<E>(a: seq<E>, n: nat, idx: nat, x: seq<E>)
    requires idx <= n && n + |x| <= |a|
    ensures var r := Spliced(a, n, idx, x);
            r[..n + |x|] == a[..idx] + x + a[idx..n] && r[n + |x|..] == a[n + |x|..]
  {
    var r := Spliced(a, n, idx, x);
    assert forall i :: 0 <= i < n + |x| ==> r[i] == (a[..idx] + x + a[idx..n])[i];
  }

  /** Writing `x` right after the first `n` items appends it to them. */
  lemma AppendIn<E>(a: seq<E>, n: nat, x: seq<E>)
    requires n + |x| <= |a|
    ensures var r := Written(a, n, x);
            r[..n + |x|] == a[..n] + x && r[n + |x|..] == a[n + |x|..]
  {
    var r := Written(a, n, x);
    assert forall i :: 0 <= i < n + |x| ==> r[i] == (a[..n] + x)[i];
  }

  /** Moving the items after a run of `k` at `idx` down over it cuts the run out. */
  lemma CutOut<E>(a: seq<E>, n: nat, idx: nat, k: nat)
    requires idx + k <= n <= |a|
    ensures var r := Moved(a, idx + k, idx, n - k - idx);
            r[..n - k] == a[..idx] + a[idx + k..n] && r[n..] == a[n..]
  {
    var r := Moved(a, idx + k, idx, n - k - idx);
    assert forall i :: 0 <= i < n - k ==> r[i] == (a[..idx] + a[idx + k..n])[i];
  }

  /** `ptr::copy(a + src, a + dst, n)`: copies front to back or back to front so that overlap is harmless. */
  method Move<E>(a: array<E>, src: nat, dst: nat, n: nat)
    requires src + n <= a.Length && dst + n <= a.Length
    modifies a
    ensures a[..] == Moved(old(a[..]), src, dst, n)
  {
    if dst <= src {
      MoveDown(a, src, dst, n);
    } else {
      MoveUp(a, src, dst, n);
    }
  }

  /** A move towards the front, copying front to back. */
  method MoveDown<E>(a: array<E>, src: nat, dst: nat, n: nat)
    requires dst <= src && src + n <= a.Length
    modifies a
    ensures a[..] == Moved(old(a[..]), src, dst, n)
  {
    var k := 0;
    while k < n
      invariant 0 <= k <= n
      invariant forall i :: 0 <= i < a.Length ==>
        a[i] == if dst <= i < dst + k then old(a[src + (i - dst)]) else old(a[i])
    {
      assert a[src + k] == old(a[src + k]);
      a[dst + k] := a[src + k];
      k := k + 1;
    }
    assert forall i :: 0 <= i < a.Length ==> a[i] == Moved(old(a[..]), src, dst, n)[i];
  }

  /** A move towards the back, copying back to front. */
  method MoveUp<E>(a: array<E>, src: nat, dst: nat, n: nat)
    requires src < dst && dst + n <= a.Length
    modifies a
    ensures a[..] == Moved(old(a[..]), src, dst, n)
  {
    var k := n;
    while k > 0
      invariant 0 <= k <= n
      invariant forall i :: 0 <= i < a.Length ==>
        a[i] == if dst + k <= i < dst + n then old(a[src + (i - dst)]) else old(a[i])
    {
      k := k - 1;
      assert a[src + k] == old(a[src + k]);
      a[dst + k] := a[src + k];
    }
    assert forall i :: 0 <= i < a.Length ==> a[i] == Moved(old(a[..]), src, dst, n)[i];
  }

  /** `ptr::copy_nonoverlapping(x.as_ptr(), a + dst, x.len())`. */
  method CopyIn<E>(a: array<E>, dst: nat, x: seq<E>)
    requires dst + |x| <= a.Length
    modifies a
    ensures a[..] == Written(old(a[..]), dst, x)
  {
    var k := 0;
    while k < |x|
      invariant 0 <= k <= |x|
      invariant forall i :: 0 <= i < a.Length ==>
        a[i] == if dst <= i < dst + k then x[i - dst] else old(a[i])
    {
      a[dst + k] := x[k];
      k := k + 1;
    }
  }

  /** `ptr::copy_nonoverlapping(src, dst, n)` between two distinct buffers. */
  method CopyAcross<E>(src: array<E>, dst: array<E>, n: nat)
    requires src != dst && n <= src.Length && n <= dst.Length
    modifies dst
    ensures dst[..] == Written(old(dst[..]), 0, src[..n])
  {
    var k := 0;
    while k < n
      invariant 0 <= k <= n
      invariant forall i :: 0 <= i < dst.Length ==> dst[i] == if i < k then src[i] else old(dst[i])
    {
      dst[k] := src[k];
      k := k + 1;
    }
  }
}
