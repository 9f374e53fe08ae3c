/**
 * The capacity a small container grows to. `reserve_core` keeps the buffer
 * when the spare capacity already covers the request; otherwise it asks the
 * growth rule for a new capacity (the exact sum `len + additional`, or the
 * next power of two of it capped at `L::MAX`), fails with
 * `CapacityOverflow` when the sum does not fit the length type or the array
 * would exceed `isize::MAX` bytes, and fails with `AllocError` when the
 * allocator refuses the request. The allocator is a parameter: `grants(n)`
 * says whether a request of `n` bytes succeeds.
 */
module Reservations {
  import opened Wrappers
  import opened Errors
  import opened LengthType
  import opened Memory

  /**
   * The growth rule `nc(len, additional)`: `checked_add_usize`, then, unless
   * the reservation is exact, `next_power_of_two_or_max`.
   */
  function NewCapacity(w: Width, len: nat, additional: nat, exact: bool): (r: Result<nat, ReservationError>)
  {
    match CheckedAddUsize(w, len, additional)
    case None => Err(CapacityOverflow)
    case Some(n) => Ok(if exact then n else NextPowerOfTwoOrMax(w, n))
  }

  /**
   * `Layout::array::<T>(n)` and the allocation of `n` elements of
   * `elem_size` bytes: `CapacityOverflow` past `isize::MAX` bytes,
   * `AllocError` when the allocator refuses.
   */
  function Allocate(elemSize: nat, grants: nat -> bool, n: nat): (r: Result<nat, ReservationError>)
  {
    if elemSize * n > ISIZE_MAX then Err(CapacityOverflow)
    else if !grants(elemSize * n) then Err(AllocError(elemSize * n))
    else Ok(n)
  }

  /**
   * The capacity after `reserve_core(additional)` on a container of length
   * `len` and capacity `cap`, or the error it reports.
   */
  function Reserved(w: Width, elemSize: nat, grants: nat -> bool, len: nat, cap: nat, additional: nat, exact: bool)
    : (r: Result<nat, ReservationError>)
    requires len <= cap
  {
    if additional <= cap - len then Ok(cap)
    else match NewCapacity(w, len, additional, exact)
         case Err(e) => Err(e)
         case Ok(n) => Allocate(elemSize, grants, n)
  }

  /**
   * What a reservation promises: on success the capacity never shrinks and
   * covers `len + additional`; it only changes when the spare capacity was
   * short, and then it is the exact sum or the next power of two of it
   * capped at `L::MAX`, and the array fits in `isize::MAX` bytes. It fails
   * only when growth was needed, with `CapacityOverflow` exactly when the
   * sum exceeds `L::MAX` or the array would exceed `isize::MAX` bytes.
   */
  lemma ReservedLaws(w: Width, elemSize: nat, grants: nat -> bool, len: nat, cap: nat, additional: nat, exact: bool)
    requires len <= cap <= Max(w)
    ensures var r := Reserved(w, elemSize, grants, len, cap, additional, exact);
            && (additional <= cap - len ==> r == Ok(cap))
            && (r.Ok? ==> cap <= r.value <= Max(w) && len + additional <= r.value)
            && (r.Ok? && r.value != cap ==>
                  && additional > cap - len && elemSize * r.value <= ISIZE_MAX && grants(elemSize * r.value)
                  && r.value == if exact then len + additional else NextPowerOfTwoOrMax(w, len + additional))
            && (r.Err? ==> additional > cap - len)
            && (r == Err(CapacityOverflow) <==>
                  additional > cap - len
                  && (len + additional > Max(w)
                      || elemSize * (if exact then len + additional else NextPowerOfTwoOrMax(w, len + additional)) > ISIZE_MAX))
  {
    if len + additional <= Max(w) {
      NextPowerOfTwoOrMaxLaws(w, len + additional);
    }
  }

  /**
   * A reservation fails only through overflow or a refusing allocator: when
   * every request is granted, `L::MAX` elements fit in `isize::MAX` bytes
   * and `len + additional` fits the length type, it succeeds.
   */
  lemma ReservedSucceeds(w: Width, elemSize: nat, grants: nat -> bool, len: nat, cap: nat, additional: nat, exact: bool)
    requires len <= cap <= Max(w)
    ensures (forall n :: grants(n)) && elemSize * Max(w) <= ISIZE_MAX && len + additional <= Max(w) ==>
              Reserved(w, elemSize, grants, len, cap, additional, exact).Ok?
  {
    if (forall n :: grants(n)) && elemSize * Max(w) <= ISIZE_MAX && len + additional <= Max(w) && additional > cap - len {
      NextPowerOfTwoOrMaxLaws(w, len + additional);
      var n := if exact then len + additional else NextPowerOfTwoOrMax(w, len + additional);
      MulMonotone(elemSize, n, Max(w));
    }
  }

  lemma MulMonotone(a: nat, b: nat, c: nat)
    requires b <= c
    ensures a * b <= a * c
  {
  }

  /**
   * The exact reservations of the tests over `u8` with `C = 4`: one more
   * element at length 4 gives capacity 5, a hundred more at length 5 gives
   * 105, ten more at length 128 gives 138, and 256 more overflows.
   */
  lemma ReserveExactExamples(elemSize: nat, grants: nat -> bool)
    requires 0 < elemSize <= 8 && forall n :: grants(n)
    ensures Reserved(U8, elemSize, grants, 3, 4, 1, true) == Ok(4)
    ensures Reserved(U8, elemSize, grants, 4, 4, 1, true) == Ok(5)
    ensures Reserved(U8, elemSize, grants, 5, 5, 100, true) == Ok(105)
    ensures Reserved(U8, elemSize, grants, 128, 128, 10, true) == Ok(138)
    ensures Reserved(U8, elemSize, grants, 0, 4, 256, true) == Err(CapacityOverflow)
  {
  }

  /**
   * The power-of-two reservations of the tests over `u8` with `C = 4`: 4
   * plus one gives 8, 5 plus a hundred gives 128, and 128 plus ten gives
   * `u8::MAX`, 255, because 256 does not fit.
   */
  lemma ReserveExamples(elemSize: nat, grants: nat -> bool)
    requires 0 < elemSize <= 8 && forall n :: grants(n)
    ensures Reserved(U8, elemSize, grants, 4, 4, 1, false) == Ok(8)
    ensures Reserved(U8, elemSize, grants, 5, 8, 100, false) == Ok(128)
    ensures Reserved(U8, elemSize, grants, 128, 128, 10, false) == Ok(255)
    ensures Reserved(U8, elemSize, grants, 0, 4, 8, false) == Ok(8)
    ensures Reserved(U8, elemSize, grants, 0, 8, 9, false) == Ok(16)
    ensures Reserved(U8, elemSize, grants, 0, 16, 17, false) == Ok(32)
  {
    assert NextPowerOfTwoOrMax(U8, 5) == 8;
    assert NextPowerOfTwoOrMax(U8, 105) == 128;
    assert NextPowerOfTwoOrMax(U8, 138) == 255;
    assert NextPowerOfTwoOrMax(U8, 9) == 16;
    assert NextPowerOfTwoOrMax(U8, 17) == 32;
  }

  /**
   * Over `usize`, reserving `isize::MAX` more eight-byte elements overflows
   * the byte size of the array even though the length fits.
   */
  lemma ReserveByteOverflowExample(grants: nat -> bool)
    ensures Reserved(Usize, 8, grants, 0, 4, ISIZE_MAX, false) == Err(CapacityOverflow)
    ensures Reserved(Usize, 8, grants, 0, 16, ISIZE_MAX, false) == Err(CapacityOverflow)
  {
    NextPowerOfTwoOrMaxLaws(Usize, ISIZE_MAX);
  }
}
