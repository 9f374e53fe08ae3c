/**
 * Spare-memory policies. A container hands every slot it vacates (and, on
 * construction, every slot it owns) to its policy: `Uninitialized` leaves the
 * slot as it is, `Pattern(p)` overwrites every byte of it with `p`, and
 * `Zeroed` is `Pattern(0)`.
 *
 * The bytes of an element are not modelled. A slot of an element buffer is
 * `Val(v)` (it holds the bytes of `v`: a live element, or a stale copy left
 * behind by a move), `Wiped(p)` (every byte is `p`), or `Uninit` (never
 * written). A byte buffer holds plain bytes.
 */
module SpareMemory {
  import opened Memory

  datatype Policy = Uninitialized | Pattern(p: byte)

  /** `Zeroed` is the pattern policy with pattern byte 0. */
  const Zeroed: Policy := Pattern(0)

  datatype Slot<T> = Val(v: T) | Wiped(p: byte) | Uninit

  /** `SM::NOOP`: whether `init` does nothing. */
  predicate Noop(sm: Policy)
  {
    sm.Uninitialized?
  }

  /** The slots holding `x`, in order. */
  function Vals<T>(x: seq<T>): (r: seq<Slot<T>>)
    ensures |r| == |x|
    ensures forall i :: 0 <= i < |x| ==> r[i] == Val(x[i])
  {
    seq(|x|, i requires 0 <= i < |x| => Val(x[i]))
  }

  /** The slots after `SM::init(dst, n)`. */
  function Wipe<T>(sm: Policy, s: seq<Slot<T>>, dst: nat, n: nat): (r: seq<Slot<T>>)
    requires dst + n <= |s|
    ensures |r| == |s|
    ensures forall i :: 0 <= i < |s| ==>
      r[i] == if sm.Pattern? && dst <= i < dst + n then Wiped(sm.p) else s[i]
  {
    seq(|s|, i requires 0 <= i < |s| => if sm.Pattern? && dst <= i < dst + n then Wiped(sm.p) else s[i])
  }

  /** The bytes after `SM::init(dst, n)` on a byte buffer (`init_bytes` in the older revision). */
  function WipeBytes(sm: Policy, s: seq<byte>, dst: nat, n: nat): (r: seq<byte>)
    requires dst + n <= |s|
    ensures |r| == |s|
    ensures forall i :: 0 <= i < |s| ==>
      r[i] == if sm.Pattern? && dst <= i < dst + n then sm.p else s[i]
  {
    seq(|s|, i requires 0 <= i < |s| => if sm.Pattern? && dst <= i < dst + n then sm.p else s[i])
  }

  /** Under a pattern policy, the slots `[lo, hi)` of `a` hold the pattern. */
  ghost predicate HoldsPattern<T>(sm: Policy, a: array<Slot<T>>, lo: int, hi: int)
    reads a
  {
    sm.Pattern? ==> forall i :: lo <= i < hi && 0 <= i < a.Length ==> a[i] == Wiped(sm.p)
  }

  /** Under a pattern policy, the bytes `[lo, hi)` of `a` are the pattern byte. */
  ghost predicate BytesHoldPattern(sm: Policy, a: array<byte>, lo: int, hi: int)
    reads a
  {
    sm.Pattern? ==> forall i :: lo <= i < hi && 0 <= i < a.Length ==> a[i] == sm.p
  }

  /** `SM::init(dst, count)` on a buffer of elements (`ptr::write_bytes` for a pattern). */
  method Init<T>(sm: Policy, a: array<Slot<T>>, dst: nat, count: nat)
    requires dst + count <= a.Length
    modifies a
    ensures a[..] == Wipe(sm, old(a[..]), dst, count)
  {
    if sm.Pattern? {
      var k := 0;
      while k < count
        invariant 0 <= k <= count
        invariant forall i :: 0 <= i < a.Length ==>
          a[i] == if dst <= i < dst + k then Wiped(sm.p) else old(a[i])
      {
        a[dst + k] := Wiped(sm.p);
        k := k + 1;
      }
    }
  }

  /** `SM::init(dst, count)` on a byte buffer; `init_bytes` of the older revision. */
  method InitBytes(sm: Policy, a: array<byte>, dst: nat, count: nat)
    requires dst + count <= a.Length
    modifies a
    ensures a[..] == WipeBytes(sm, old(a[..]), dst, count)
  {
    if sm.Pattern? {
      var k := 0;
      while k < count
        invariant 0 <= k <= count
        invariant forall i :: 0 <= i < a.Length ==> a[i] == if dst <= i < dst + k then sm.p else old(a[i])
      {
        a[dst + k] := sm.p;
        k := k + 1;
      }
    }
  }

  /** Wiping a run twice is wiping it once, and an uninitialized policy wipes nothing. */
  lemma WipeIdempotent<T>(sm: Policy, s: seq<Slot<T>>, dst: nat, n: nat)
    requires dst + n <= |s|
    ensures Wipe(sm, Wipe(sm, s, dst, n), dst, n) == Wipe(sm, s, dst, n)
    ensures Noop(sm) ==> Wipe(sm, s, dst, n) == s
  {
  }

  /** The three policy examples on the element run `[o, 1, 2, 3, o, o]`, wiped at 1 for 3 slots. */
  lemma PolicyExamples(o: int)
    ensures Wipe(Uninitialized, [Val(o), Val(1), Val(2), Val(3), Val(o), Val(o)], 1, 3)
         == [Val(o), Val(1), Val(2), Val(3), Val(o), Val(o)]
    ensures Wipe(Zeroed, [Val(o), Val(1), Val(2), Val(3), Val(o), Val(o)], 1, 3)
         == [Val(o), Wiped(0), Wiped(0), Wiped(0), Val(o), Val(o)]
    ensures Wipe(Pattern(0xAB), [Val(o), Val(1), Val(2), Val(3), Val(o), Val(o)], 1, 3)
         == [Val(o), Wiped(0xAB), Wiped(0xAB), Wiped(0xAB), Val(o), Val(o)]
  {
    var s := [Val(o), Val(1), Val(2), Val(3), Val(o), Val(o)];
    assert Wipe(Zeroed, s, 1, 3) == [Val(o), Wiped(0), Wiped(0), Wiped(0), Val(o), Val(o)];
    assert Wipe(Pattern(0xAB), s, 1, 3) == [Val(o), Wiped(0xAB), Wiped(0xAB), Wiped(0xAB), Val(o), Val(o)];
  }
}
