/**
 * The element-sequence operations the containers are specified by: insertion
 * and removal at an index, swap-removal, the stateful retain fold and the
 * stateful generator of `resize_with`, with the laws relating them.
 */
module SeqOps {
  /** `s` with `x` inserted before position `i`. */
  function InsertAt<T>(s: seq<T>, i: nat, x: T): (r: seq<T>)
    requires i <= |s|
    ensures |r| == |s| + 1 && r[i] == x
    ensures forall j :: 0 <= j < i ==> r[j] == s[j]
    ensures forall j :: i < j < |r| ==> r[j] == s[j - 1]
  {
    s[..i] + [x] + s[i..]
  }

  /** `s` with the run `x` inserted before position `i`. */
  function SpliceAt<T>(s: seq<T>, i: nat, x: seq<T>): (r: seq<T>)
    requires i <= |s|
    ensures |r| == |s| + |x|
  {
    s[..i] + x + s[i..]
  }

  /** `s` without its element at `i`, the others keeping their order. */
  function RemoveAt<T>(s: seq<T>, i: nat): (r: seq<T>)
    requires i < |s|
    ensures |r| == |s| - 1
    ensures forall j :: 0 <= j < i ==> r[j] == s[j]
    ensures forall j :: i <= j < |r| ==> r[j] == s[j + 1]
  {
    s[..i] + s[i + 1..]
  }

  /** `s` with its element at `i` replaced by its last element, and the last position dropped. */
  function SwapRemoveAt<T>(s: seq<T>, i: nat): (r: seq<T>)
    requires i < |s|
    ensures |r| == |s| - 1
    ensures forall j :: 0 <= j < |r| && j != i ==> r[j] == s[j]
    ensures i < |r| ==> r[i] == s[|s| - 1]
  {
    if i == |s| - 1 then s[..i] else s[..|s| - 1][i := s[|s| - 1]]
  }

  /** Concatenation is associative. */
  lemma AppendAssoc<T>(a: seq<T>, b: seq<T>, c: seq<T>)
    ensures (a + b) + c == a + (b + c)
  {
  }

  /** Removing what was just inserted gives back the original sequence. */
  lemma RemoveInsert<T>(s: seq<T>, i: nat, x: T)
    requires i <= |s|
    ensures RemoveAt(InsertAt(s, i, x), i) == s
  {
    assert RemoveAt(InsertAt(s, i, x), i) == s[..i] + s[i..];
    assert s[..i] + s[i..] == s;
  }

  /** Re-inserting a removed element at its index gives back the original sequence. */
  lemma InsertRemove<T>(s: seq<T>, i: nat)
    requires i < |s|
    ensures InsertAt(RemoveAt(s, i), i, s[i]) == s
  {
  }

  /** Removing at `i` keeps every other element, so `s` is the result plus `s[i]`. */
  lemma {:induction false} RemoveAtMultiset<T>(s: seq<T>, i: nat)
    requires i < |s|
    ensures multiset(RemoveAt(s, i)) + multiset{s[i]} == multiset(s)
  {
    assert s == s[..i] + [s[i]] + s[i + 1..];
    calc {
      multiset(s);
      multiset(s[..i]) + multiset{s[i]} + multiset(s[i + 1..]);
      multiset(s[..i] + s[i + 1..]) + multiset{s[i]};
    }
  }

  /** Swap-removal is a removal up to order: the result together with `s[i]` is a permutation of `s`. */
  lemma {:induction false} SwapRemoveAtMultiset<T>(s: seq<T>, i: nat)
    requires i < |s|
    ensures multiset(SwapRemoveAt(s, i)) + multiset{s[i]} == multiset(s)
  {
    var n := |s| - 1;
    if i == n {
      assert s == s[..n] + [s[n]];
    } else {
      var init := s[..n];
      assert s == init + [s[n]];
      assert multiset(init[i := s[n]]) == multiset(init) - multiset{init[i]} + multiset{s[n]};
      assert init[i] == s[i];
    }
  }

  /** Swap-removing the last element is removing it. */
  lemma SwapRemoveLast<T>(s: seq<T>)
    requires |s| > 0
    ensures SwapRemoveAt(s, |s| - 1) == RemoveAt(s, |s| - 1)
  {
  }

  /** What a retain closure does with one element: its new state, the element as it mutated it, and whether to keep it. */
  datatype Visit<S, T> = Visit(state: S, item: T, keep: bool)

  /**
   * Visiting the elements of `s` in index order with the stateful closure `f`:
   * the closure's final state and the (mutated) elements it kept, in order.
   */
  function Retained<S, T>(f: (S, T) -> Visit<S, T>, st: S, s: seq<T>): (r: (S, seq<T>))
    ensures |r.1| <= |s|
    decreases |s|
  {
    if s == [] then (st, [])
    else
      var prev := Retained(f, st, s[..|s| - 1]);
      var v := f(prev.0, s[|s| - 1]);
      (v.state, if v.keep then prev.1 + [v.item] else prev.1)
  }

  /** One more visit: retaining over `s[..k + 1]` is retaining over `s[..k]` and then visiting `s[k]`. */
  lemma RetainedStep<S, T>(f: (S, T) -> Visit<S, T>, st: S, s: seq<T>, k: nat)
    requires k < |s|
    ensures var prev := Retained(f, st, s[..k]);
            var v := f(prev.0, s[k]);
            Retained(f, st, s[..k + 1]) == (v.state, if v.keep then prev.1 + [v.item] else prev.1)
  {
    assert s[..k + 1][..k] == s[..k];
  }

  /** The elements of `s` satisfying `p`, in order (defined front to back). */
  function Filter<T>(p: T -> bool, s: seq<T>): (r: seq<T>)
    ensures |r| <= |s|
    ensures forall x :: x in r ==> x in s && p(x)
  {
    if s == [] then [] else (if p(s[0]) then [s[0]] else []) + Filter(p, s[1..])
  }

  lemma {:induction false} FilterSnoc<T>(p: T -> bool, s: seq<T>, x: T)
    ensures Filter(p, s + [x]) == Filter(p, s) + (if p(x) then [x] else [])
    decreases |s|
  {
    if s == [] {
      assert [x][1..] == [];
    } else {
      assert (s + [x])[0] == s[0];
      assert (s + [x])[1..] == s[1..] + [x];
      FilterSnoc(p, s[1..], x);
    }
  }

  /**
   * A closure that keeps state and elements unchanged and decides by `p` alone
   * retains exactly `Filter(p, s)`: retain keeps the accepted elements in their
   * original relative order.
   */
  lemma {:induction false} RetainedIsFilter<S, T>(f: (S, T) -> Visit<S, T>, p: T -> bool, st: S, s: seq<T>)
    requires forall u, x :: f(u, x) == Visit(u, x, p(x))
    ensures Retained(f, st, s) == (st, Filter(p, s))
    decreases |s|
  {
    if s != [] {
      var init := s[..|s| - 1];
      var x := s[|s| - 1];
      RetainedIsFilter(f, p, st, init);
      FilterSnoc(p, init, x);
      assert init + [x] == s;
      assert s[..|s| - 1] == init;
      assert Retained(f, st, init) == (st, Filter(p, init));
      assert f(st, x) == Visit(st, x, p(x));
      if !p(x) {
        assert Filter(p, init) + [] == Filter(p, init);
      }
    }
  }

  /**
   * A closure whose state records the elements it is shown sees every element
   * exactly once, in index order.
   */
  lemma {:induction false} RetainedVisitsInOrder<T>(f: (seq<T>, T) -> Visit<seq<T>, T>, st: seq<T>, s: seq<T>)
    requires forall u, x :: f(u, x).state == u + [x]
    ensures Retained(f, st, s).0 == st + s
    decreases |s|
  {
    if s != [] {
      var init := s[..|s| - 1];
      RetainedVisitsInOrder(f, st, init);
      assert init + [s[|s| - 1]] == s;
    }
  }

  /** Retaining with a closure that keeps everything unmutated changes nothing. */
  lemma {:induction false} RetainedKeepAll<S, T>(f: (S, T) -> Visit<S, T>, st: S, s: seq<T>)
    requires forall u, x :: f(u, x) == Visit(u, x, true)
    ensures Retained(f, st, s) == (st, s)
    decreases |s|
  {
    if s != [] {
      RetainedKeepAll(f, st, s[..|s| - 1]);
      assert s[..|s| - 1] + [s[|s| - 1]] == s;
    }
  }

  /** What a generator produces on one call: its new state and the element. */
  datatype Gen<S, T> = Gen(state: S, item: T)

  /** `n` calls of the stateful generator `gen`: its final state and the elements, in generation order. */
  function Generated<S, T>(gen: S -> Gen<S, T>, st: S, n: nat): (r: (S, seq<T>))
    ensures |r.1| == n
  {
    if n == 0 then (st, [])
    else
      var prev := Generated(gen, st, n - 1);
      var g := gen(prev.0);
      (g.state, prev.1 + [g.item])
  }

  /** `n` clones of `v`. */
  function Repeat<T>(v: T, n: nat): (r: seq<T>)
    ensures |r| == n && forall i :: 0 <= i < n ==> r[i] == v
  {
    seq(n, _ => v)
  }

  /** A generator returning `v` without changing its state generates `n` copies of `v`: `resize` is `resize_with` of a clone. */
  lemma {:induction false} GeneratedConstant<S, T>(gen: S -> Gen<S, T>, st: S, v: T, n: nat)
    requires forall u :: gen(u) == Gen(u, v)
    ensures Generated(gen, st, n) == (st, Repeat(v, n))
  {
    if n > 0 {
      GeneratedConstant(gen, st, v, n - 1);
      assert Repeat(v, n - 1) + [v] == Repeat(v, n);
    }
  }

  /** A counting generator yields its successive states: the elements come in generation order. */
  lemma {:induction false} GeneratedCounter(gen: nat -> Gen<nat, nat>, st: nat, n: nat)
    requires forall u :: gen(u) == Gen(u + 1, u)
    ensures Generated(gen, st, n).0 == st + n
    ensures forall i :: 0 <= i < n ==> Generated(gen, st, n).1[i] == st + i
  {
    if n > 0 {
      GeneratedCounter(gen, st, n - 1);
    }
  }
}
