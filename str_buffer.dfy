/**
 * The byte buffer of a string container, as a sequence: its first `len`
 * bytes are the string and form valid UTF-8, and under a pattern policy
 * every byte after them is the pattern byte. Each lemma takes the buffer
 * before and after one of the moves a string operation performs and shows
 * the buffer is still a string buffer, with the contents it should have.
 */
module StrBuffers {
  import opened Memory
  import opened SpareMemory
  import Utf8
  import SeqOps

  /** `s` is a string buffer whose first `len` bytes are live. */
  ghost predicate StrBuf(sm: Policy, s: seq<byte>, len: nat)
  {
    && len <= |s|
    && Utf8.Valid(s[..len])
    && (sm.Pattern? ==> forall i :: len <= i < |s| ==> s[i] == sm.p)
  }

  /** A buffer handed wholly to the policy is an empty string buffer. */
  lemma WipedIsEmpty(sm: Policy, a0: seq<byte>, a1: seq<byte>)
    requires a1 == WipeBytes(sm, a0, 0, |a0|)
    ensures StrBuf(sm, a1, 0)
  {
    assert a1[..0] == [];
  }

  /** Writing the valid run `x` after the live bytes appends it. */
  lemma AppendKeeps(sm: Policy, a0: seq<byte>, n: nat, x: seq<byte>, a1: seq<byte>)
    requires StrBuf(sm, a0, n) && Utf8.Valid(x) && n + |x| <= |a0|
    requires a1 == Written(a0, n, x)
    ensures StrBuf(sm, a1, n + |x|) && a1[..n + |x|] == a0[..n] + x
  {
    AppendIn(a0, n, x);
    Utf8.ValidConcat(a0[..n], x);
    PatternTail(sm, a0, n, a1, n + |x|);
  }

  /** Opening a gap at the char boundary `idx` and writing the valid run `x` into it splices `x` in. */
  lemma SpliceKeeps(sm: Policy, a0: seq<byte>, n: nat, idx: nat, x: seq<byte>, a2: seq<byte>)
    requires StrBuf(sm, a0, n) && Utf8.Valid(x) && Utf8.IsCharBoundary(a0[..n], idx) && n + |x| <= |a0|
    requires idx <= n && a2 == Spliced(a0, n, idx, x)
    ensures StrBuf(sm, a2, n + |x|) && a2[..n + |x|] == SeqOps.SpliceAt(a0[..n], idx, x)
  {
    SpliceIn(a0, n, idx, x);
    SpliceLive(a0, n, idx, x, a2[..n + |x|]);
    PatternTail(sm, a0, n, a2, n + |x|);
  }

  /** The live bytes after a splice, in terms of the old live bytes: valid when `x` went in at a char boundary. */
  lemma SpliceLive(a0: seq<byte>, n: nat, idx: nat, x: seq<byte>, t: seq<byte>)
    requires idx <= n <= |a0| && t == a0[..idx] + x + a0[idx..n]
    requires Utf8.Valid(a0[..n]) && Utf8.Valid(x) && Utf8.IsCharBoundary(a0[..n], idx)
    ensures t == SeqOps.SpliceAt(a0[..n], idx, x) && Utf8.Valid(t)
  {
    var s0 := a0[..n];
    assert a0[..idx] == s0[..idx] && a0[idx..n] == s0[idx..];
    Utf8.InsertValid(s0, idx, x);
  }

  /** The spare bytes from `lo1` on are those of `a0` from `lo1` on, so they keep its pattern. */
  lemma PatternTail(sm: Policy, a0: seq<byte>, lo0: nat, a1: seq<byte>, lo1: nat)
    requires lo0 <= lo1 <= |a0| == |a1| && a1[lo1..] == a0[lo1..]
    requires sm.Pattern? ==> forall i :: lo0 <= i < |a0| ==> a0[i] == sm.p
    ensures sm.Pattern? ==> forall i :: lo1 <= i < |a1| ==> a1[i] == sm.p
  {
    assert forall i :: lo1 <= i < |a1| ==> a1[i] == a1[lo1..][i - lo1] == a0[lo1..][i - lo1] == a0[i];
  }

  /** The buffer after the live bytes from `idx + k` to `n` were moved down by `k` and the `k` bytes after the new end were handed to the policy. */
  function CutFrom(sm: Policy, a: seq<byte>, n: nat, idx: nat, k: nat): (r: seq<byte>)
    requires idx + k <= n <= |a|
    ensures |r| == |a|
  {
    WipeBytes(sm, Moved(a, idx + k, idx, n - k - idx), n - k, k)
  }

  /**
   * Cutting the run `[idx, idx + k)` out of the live bytes (`a1`: moving the
   * rest down) and handing the `k` bytes after the new end to the policy
   * (`a2`) leaves the live bytes without that run, provided what is left is
   * valid; splicing the run back in gives the old live bytes.
   */
  lemma CutKeeps(sm: Policy, a0: seq<byte>, n: nat, idx: nat, k: nat, a2: seq<byte>)
    requires StrBuf(sm, a0, n) && idx + k <= n
    requires Utf8.Valid(a0[..n][..idx] + a0[..n][idx + k..])
    requires a2 == CutFrom(sm, a0, n, idx, k)
    ensures StrBuf(sm, a2, n - k) && a2[..n - k] == a0[..n][..idx] + a0[..n][idx + k..]
    ensures a0[..n] == SeqOps.SpliceAt(a2[..n - k], idx, a0[..n][idx..idx + k])
  {
    var s0 := a0[..n];
    CutShape(sm, a0, n, idx, k, a2);
    assert a0[..idx] == s0[..idx] && a0[idx + k..n] == s0[idx + k..];
    PatternTail(sm, a0, n, a2, n);
    RejoinCut(s0, a2[..n - k], idx, k);
  }

  /** The live bytes and the pattern bytes of a buffer after a cut. */
  lemma CutShape(sm: Policy, a0: seq<byte>, n: nat, idx: nat, k: nat, a2: seq<byte>)
    requires idx + k <= n <= |a0| && a2 == CutFrom(sm, a0, n, idx, k)
    ensures a2[..n - k] == a0[..idx] + a0[idx + k..n]
    ensures a2[n..] == a0[n..]
    ensures sm.Pattern? ==> forall i :: n - k <= i < n ==> a2[i] == sm.p
  {
    var a1 := Moved(a0, idx + k, idx, n - k - idx);
    CutOut(a0, n, idx, k);
    assert a2[..n - k] == a1[..n - k];
    assert a2[n..] == a1[n..];
  }

  /** Splicing a cut-out run back in where it was gives the sequence it was cut from. */
  lemma RejoinCut<E>(s0: seq<E>, t: seq<E>, idx: nat, k: nat)
    requires idx + k <= |s0| && t == s0[..idx] + s0[idx + k..]
    ensures s0 == SeqOps.SpliceAt(t, idx, s0[idx..idx + k])
  {
    assert t[..idx] == s0[..idx] && t[idx..] == s0[idx + k..];
    assert s0 == s0[..idx] + s0[idx..idx + k] + s0[idx + k..];
  }

  /**
   * Writing the valid run `x` to the front of a buffer and handing the
   * `spare` bytes after it to the policy makes `x` the string, provided the
   * bytes after those already hold the pattern.
   */
  lemma FillKeeps(sm: Policy, a0: seq<byte>, x: seq<byte>, spare: nat, a2: seq<byte>)
    requires Utf8.Valid(x) && |x| + spare <= |a0|
    requires sm.Pattern? ==> forall i :: |x| + spare <= i < |a0| ==> a0[i] == sm.p
    requires a2 == WipeBytes(sm, Written(a0, 0, x), |x|, spare)
    ensures StrBuf(sm, a2, |x|) && a2[..|x|] == x
  {
    var a1 := Written(a0, 0, x);
    assert a1[..|x|] == x by {
      AppendIn(a0, 0, x);
      assert a0[..0] + x == x;
    }
    assert a2[..|x|] == x;
  }

  /** Handing the live bytes from the char boundary `m` on to the policy truncates the string at `m`. */
  lemma TruncateKeeps(sm: Policy, a0: seq<byte>, n: nat, m: nat, a1: seq<byte>)
    requires StrBuf(sm, a0, n) && m <= n && Utf8.IsCharBoundary(a0[..n], m)
    requires a1 == WipeBytes(sm, a0, m, n - m)
    ensures StrBuf(sm, a1, m) && a1[..m] == a0[..n][..m]
  {
    Utf8.ValidSplit(a0[..n], m);
    assert a1[..m] == a0[..m] == a0[..n][..m];
  }
}
