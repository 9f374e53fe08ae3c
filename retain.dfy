/**
 * The compaction loop of `retain_mut`, shared by `ArrayVec` and `SmallVec`:
 * with the length set to zero, it visits the live elements of a slot array
 * in index order, lets the closure mutate each one and decide whether it
 * stays, and copies every kept element down over the gap the rejected ones
 * left. The guard then moves any unvisited elements down, hands the vacated
 * slots to the policy and restores the length.
 */
module Retaining {
  import opened Memory
  import opened SpareMemory
  import opened SeqOps

  /**
   * The moves of `RetainGuard::drop` on the slots: the unprocessed elements
   * `[processed, n)` move left by `deleted` and the `deleted` slots from the
   * new end go to the policy. Nothing moves when nothing was deleted.
   */
  method CloseGap<T>(sm: Policy, a: array<Slot<T>>, n: nat, processed: nat, deleted: nat)
    requires deleted <= processed <= n <= a.Length
    modifies a
    ensures a[..] == if deleted > 0
                     then Wipe(sm, Moved(old(a[..]), processed, processed - deleted, n - processed), n - deleted, deleted)
                     else old(a[..])
    ensures forall i :: 0 <= i < processed - deleted || n <= i < a.Length ==> a[i] == old(a[i])
    ensures HoldsPattern(sm, a, n - deleted, n)
  {
    if deleted > 0 {
      ghost var a0 := a[..];
      Move(a, processed, processed - deleted, n - processed);
      ghost var a1 := a[..];
      assert forall i :: 0 <= i < processed - deleted || n <= i < a.Length ==> a1[i] == a0[i];
      Init(sm, a, n - deleted, deleted);
      assert forall i :: 0 <= i < processed - deleted || n <= i < a.Length ==> a[i] == a1[i];
    }
  }

  /**
   * The slots during `retain_mut` over the elements `orig` (followed by the
   * spare slots `spare`): after `processed` visits, `deleted` of them
   * rejected, the kept elements fill `[0, processed - deleted)`, the
   * unvisited ones are still in `[processed, |orig|)`, and the closure is in
   * state `u`.
   */
  ghost predicate RetainProgress<S, T>(a: array<Slot<T>>, f: (S, T) -> Visit<S, T>, st: S, orig: seq<T>, spare: seq<Slot<T>>,
                                    processed: nat, deleted: nat, u: S, kept: seq<T>)
    reads a
  {
    && |orig| + |spare| == a.Length
    && deleted <= processed <= |orig| && |kept| == processed - deleted
    && (forall i :: 0 <= i < processed - deleted ==> a[i] == Val(kept[i]))
    && (forall i :: processed <= i < |orig| ==> a[i] == Val(orig[i]))
    && (forall i :: |orig| <= i < a.Length ==> a[i] == spare[i - |orig|])
    && (u, kept) == Retained(f, st, orig[..processed])
  }

  /** Before the first visit: nothing processed, the elements and the spare slots in place. */
  lemma RetainStart<S, T>(a: array<Slot<T>>, f: (S, T) -> Visit<S, T>, st: S, orig: seq<T>, spare: seq<Slot<T>>)
    requires |orig| <= a.Length && spare == a[|orig|..]
    requires forall i :: 0 <= i < |orig| ==> a[i] == Val(orig[i])
    ensures RetainProgress(a, f, st, orig, spare, 0, 0, st, [])
  {
    assert orig[..0] == [];
  }

  /** The first loop of `retain_mut`: visits in place until the first rejected element. */
  method RetainFirstLoop<S, T>(a: array<Slot<T>>, f: (S, T) -> Visit<S, T>, st: S, n: nat, ghost orig: seq<T>, ghost spare: seq<Slot<T>>)
    returns (processed: nat, deleted: nat, u: S, ghost kept: seq<T>)
    requires n == |orig| && RetainProgress(a, f, st, orig, spare, 0, 0, st, [])
    modifies a
    ensures RetainProgress(a, f, st, orig, spare, processed, deleted, u, kept)
    ensures deleted == 0 ==> processed == n
  {
    processed, deleted, u, kept := 0, 0, st, [];
    while processed < n
      invariant deleted == 0 && RetainProgress(a, f, st, orig, spare, processed, deleted, u, kept)
    {
      var keep;
      keep, u, kept := RetainVisit(a, f, st, orig, spare, processed, deleted, u, kept);
      if !keep {
        processed := processed + 1;
        deleted := deleted + 1;
        break;
      }
      processed := processed + 1;
    }
  }

  /** The second loop of `retain_mut`: visits the rest, copying every kept element down into the gap. */
  method RetainSecondLoop<S, T>(a: array<Slot<T>>, f: (S, T) -> Visit<S, T>, st: S, n: nat, processed0: nat, deleted0: nat, u0: S,
                             ghost orig: seq<T>, ghost spare: seq<Slot<T>>, ghost kept0: seq<T>)
    returns (processed: nat, deleted: nat, u: S, ghost kept: seq<T>)
    requires n == |orig| && RetainProgress(a, f, st, orig, spare, processed0, deleted0, u0, kept0)
    modifies a
    ensures processed == n && RetainProgress(a, f, st, orig, spare, processed, deleted, u, kept)
  {
    processed, deleted, u, kept := processed0, deleted0, u0, kept0;
    while processed < n
      invariant RetainProgress(a, f, st, orig, spare, processed, deleted, u, kept)
      decreases n - processed
    {
      var keep;
      keep, u, kept := RetainVisit(a, f, st, orig, spare, processed, deleted, u, kept);
      if !keep {
        processed := processed + 1;
        deleted := deleted + 1;
        continue;
      }
      processed := processed + 1;
    }
  }

  /**
   * One visit of `retain_mut`: `f` mutates the element at `processed` and
   * decides whether it stays; a kept element is copied down into the gap
   * when elements were deleted before it.
   */
  method RetainVisit<S, T>(a: array<Slot<T>>, f: (S, T) -> Visit<S, T>, st: S, ghost orig: seq<T>, ghost spare: seq<Slot<T>>,
                        processed: nat, deleted: nat, u: S, ghost kept: seq<T>)
    returns (keep: bool, u': S, ghost kept': seq<T>)
    requires processed < |orig| && RetainProgress(a, f, st, orig, spare, processed, deleted, u, kept)
    modifies a
    ensures keep == f(u, orig[processed]).keep && u' == f(u, orig[processed]).state
    ensures RetainProgress(a, f, st, orig, spare, processed + 1, if keep then deleted else deleted + 1, u', kept')
  {
    RetainedStep(f, st, orig, processed);
    var v := f(u, a[processed].v);
    a[processed] := Val(v.item);
    keep, u' := v.keep, v.state;
    if keep {
      if deleted > 0 {
        a[processed - deleted] := a[processed];
      }
      kept' := kept + [v.item];
    } else {
      kept' := kept;
    }
  }
}
