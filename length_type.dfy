/**
 * Length types: the unsigned counter a collection keeps its length (and, for
 * the small variants, its capacity) in. A length type over an `N`-bit
 * unsigned integer supports at most `2^N - 1` elements; every constructor
 * and update requires the resulting value to stay within that bound.
 */
module LengthType {
  import opened Wrappers

  /** The underlying unsigned integer of a length type. The target is 64-bit, so `usize` has 64 bits. */
  datatype Width = U8 | U16 | U32 | U64 | Usize

  datatype Ordering = Less | Equal | Greater

  function Bits(w: Width): nat
  {
    match w
    case U8 => 8
    case U16 => 16
    case U32 => 32
    case U64 => 64
    case Usize => 64
  }

  function Pow2(n: nat): (r: nat)
    ensures r >= 1
  {
    if n == 0 then 1 else 2 * Pow2(n - 1)
  }

  lemma {:induction false} Pow2Add(a: nat, b: nat)
    ensures Pow2(a + b) == Pow2(a) * Pow2(b)
  {
    if b > 0 {
      Pow2Add(a, b - 1);
      assert Pow2(a + b) == 2 * Pow2(a + b - 1);
    }
  }

  lemma Pow2Widths()
    ensures Pow2(8) == 0x100 && Pow2(16) == 0x1_0000 && Pow2(32) == 0x1_0000_0000
    ensures Pow2(64) == 0x1_0000_0000_0000_0000
  {
    Pow2Of32();
    Pow2Add(32, 32);
  }

  lemma Pow2Of16()
    ensures Pow2(8) == 0x100 && Pow2(16) == 0x1_0000
  {
    Pow2Add(8, 8);
  }

  lemma Pow2Of32()
    ensures Pow2(8) == 0x100 && Pow2(16) == 0x1_0000 && Pow2(32) == 0x1_0000_0000
  {
    Pow2Of16();
    Pow2Add(16, 16);
  }

  /** `L::MAX`: the maximum of the underlying type, `2^N - 1` for `N` bits. */
  function Max(w: Width): (r: nat)
    ensures r + 1 == Pow2(Bits(w))
  {
    Pow2Widths();
    match w
    case U8 => 0xFF
    case U16 => 0xFFFF
    case U32 => 0xFFFF_FFFF
    case U64 => 0xFFFF_FFFF_FFFF_FFFF
    case Usize => 0xFFFF_FFFF_FFFF_FFFF
  }

  /** A length value of width `width`; `set`, `+=` and `-=` update it in place. */
  class Length {
    const width: Width
    var value: nat

    ghost predicate Valid()
      reads this
    {
      value <= Max(width)
    }

    /** `L::new(v)`: debug-asserts `v <= MAX`. */
    constructor New(w: Width, v: nat)
      requires v <= Max(w)
      ensures Valid() && width == w
      ensures AsUsize() == v
    {
      width := w;
      value := v;
    }

    /** `as_usize`: the numeric value, never above `MAX`. */
    function AsUsize(): (r: nat)
      reads this
      requires Valid()
      ensures r <= Max(width)
    {
      value
    }

    /** `set(v)`: debug-asserts `v <= MAX`. */
    method Set(v: nat)
      requires v <= Max(width)
      modifies this
      ensures Valid() && AsUsize() == v
    {
      value := v;
    }

    /** `+= r`: debug-asserts that the sum stays within `MAX`. */
    method AddAssign(r: nat)
      requires Valid() && value + r <= Max(width)
      modifies this
      ensures Valid() && AsUsize() == old(AsUsize()) + r
    {
      value := value + r;
    }

    /** `-= r`: debug-asserts that the value does not go below zero. */
    method SubAssign(r: nat)
      requires Valid() && r <= value
      modifies this
      ensures Valid() && AsUsize() == old(AsUsize()) - r
    {
      value := value - r;
    }

    /** `PartialEq<usize>`: equality with a `usize` compares the numeric value. */
    function EqUsize(other: nat): (r: bool)
      reads this
      requires Valid()
      ensures r <==> AsUsize() == other
    {
      value == other
    }

    /** `PartialOrd<usize>`: ordering against a `usize` is the ordering of the numeric value. */
    function CmpUsize(other: nat): (r: Ordering)
      reads this
      requires Valid()
      ensures r == Less <==> AsUsize() < other
      ensures r == Equal <==> AsUsize() == other
      ensures r == Greater <==> AsUsize() > other
    {
      if value < other then Less else if value == other then Equal else Greater
    }
  }

  /** `U8::MAX` is 255 and every wider type can represent every value of a narrower one. */
  lemma MaxValues()
    ensures Max(U8) == 255 && Max(U16) == 65535 && Max(U32) == 4294967295
    ensures Max(U8) < Max(U16) < Max(U32) < Max(U64) == Max(Usize)
  {
  }
  /** `checked_add_usize(a)` on a length holding `v`: the sum, or nothing when it exceeds `L::MAX`. */
  function CheckedAddUsize(w: Width, v: nat, a: nat): (r: Option<nat>)
    ensures r.Some? <==> v + a <= Max(w)
    ensures r.Some? ==> r.value == v + a
  {
    if v + a <= Max(w) then Some(v + a) else None
  }

  /** `n` is a power of two. */
  predicate IsPowerOfTwo(n: nat)
  {
    n == 1 || (n >= 2 && n % 2 == 0 && IsPowerOfTwo(n / 2))
  }

  /** The smallest power of two at or above `x`, searching upwards from the power of two `p`. */
  function NextPowerOfTwoFrom(x: nat, p: nat): (r: nat)
    requires IsPowerOfTwo(p)
    decreases x - p
  {
    if x <= p then p else NextPowerOfTwoFrom(x, 2 * p)
  }

  /** `next_power_of_two()`: the smallest power of two not below `x` (`1` for `0`). */
  function NextPowerOfTwo(x: nat): (r: nat)
  {
    NextPowerOfTwoFrom(x, 1)
  }

  /**
   * The search from `p` stays on powers of two, ends at or above `x`, and its
   * half is below `x` unless it never moved past `p`.
   */
  lemma {:induction false} NextPowerOfTwoFromLaws(x: nat, p: nat)
    requires IsPowerOfTwo(p)
    ensures var r := NextPowerOfTwoFrom(x, p);
            IsPowerOfTwo(r) && x <= r && p <= r && (r == p || r / 2 < x)
    decreases x - p
  {
    if x > p {
      assert IsPowerOfTwo(2 * p) by { assert (2 * p) / 2 == p; }
      NextPowerOfTwoFromLaws(x, 2 * p);
    }
  }

  /** The next power of two is a power of two at or above `x`, and the smallest such: its half is below `x`. */
  lemma NextPowerOfTwoLaws(x: nat)
    ensures var r := NextPowerOfTwo(x);
            IsPowerOfTwo(r) && x <= r && (r == 1 || r / 2 < x)
  {
    NextPowerOfTwoFromLaws(x, 1);
  }

  /**
   * `next_power_of_two_or_max()` on a length holding `v`: the next power of
   * two, or `L::MAX` when that does not fit in the length type.
   */
  function NextPowerOfTwoOrMax(w: Width, v: nat): (r: nat)
  {
    var n := NextPowerOfTwo(v);
    if n > Max(w) then Max(w) else n
  }

  /**
   * For a length value `v`, the result lies between `v` and `L::MAX`; it is
   * `L::MAX` or the smallest power of two not below `v`.
   */
  lemma NextPowerOfTwoOrMaxLaws(w: Width, v: nat)
    requires v <= Max(w)
    ensures var r := NextPowerOfTwoOrMax(w, v);
            && v <= r <= Max(w)
            && (r == Max(w) || (IsPowerOfTwo(r) && r == NextPowerOfTwo(v)))
            && (NextPowerOfTwo(v) <= Max(w) ==> r == NextPowerOfTwo(v))
  {
    NextPowerOfTwoLaws(v);
  }

  /** The growth steps of the tests: 5 goes to 8, 105 to 128, and 138 over `u8` to 255. */
  lemma NextPowerOfTwoExamples()
    ensures NextPowerOfTwo(0) == 1 && NextPowerOfTwo(5) == 8 && NextPowerOfTwo(105) == 128
    ensures NextPowerOfTwoOrMax(U8, 5) == 8 && NextPowerOfTwoOrMax(U8, 138) == 255
    ensures NextPowerOfTwoOrMax(U8, 128) == 128
  {
  }
}
