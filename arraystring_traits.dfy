/**
 * The conversions and standard traits of `ArrayString` that do work:
 * `TryFrom<&str>` and `TryFrom<char>`, `Clone`, `fmt::Write` (every fragment
 * whole or an error) and the lossy formatter `format_lossy`, whose writer
 * keeps the longest fitting part of every fragment that ends on a char
 * boundary.
 *
 * What `format_args!` hands a writer is modelled as a sequence of fragments:
 * string pieces, written with `write_str`, and chars formatted on their own,
 * written with `write_char`.
 */
module ArrayStringTraits {
  import opened Wrappers
  import opened Memory
  import opened SpareMemory
  import opened Errors
  import opened ArrayStrings
  import Utf8
  import LengthType
  import SeqOps

  /**
   * `TryFrom<&str>` (and, identically, `TryFrom<&mut str>` and
   * `TryFrom<&String>`): `CapacityError` when `s` is longer than `C` bytes,
   * otherwise a new string holding `s` whose spare bytes went to the policy.
   */
  method TryFromStr(w: LengthType.Width, c: nat, policy: Policy, s: seq<byte>) returns (r: Result<ArrayString, CapacityError>)
    requires c <= LengthType.Max(w) && Utf8.Valid(s)
    ensures r.Ok? <==> |s| <= c
    ensures r.Ok? ==> fresh(r.value) && fresh(r.value.arr) && r.value.Valid()
    ensures r.Ok? ==> r.value.AsBytes() == s && r.value.capacity == c && r.value.width == w && r.value.sm == policy
  {
    if |s| > c {
      return Err(CapacityError);
    }
    var tmp := new ArrayString.FromBytes(w, c, policy, s);
    r := Ok(tmp);
  }

  /** `TryFrom<char>`: `CapacityError` when the UTF-8 encoding of `ch` is longer than `C`, otherwise a new string holding just `ch`. */
  method TryFromChar(w: LengthType.Width, c: nat, policy: Policy, ch: char) returns (r: Result<ArrayString, CapacityError>)
    requires c <= LengthType.Max(w)
    ensures r.Ok? <==> Utf8.LenUtf8(ch) <= c
    ensures r.Ok? ==> fresh(r.value) && fresh(r.value.arr) && r.value.Valid()
    ensures r.Ok? ==> r.value.AsBytes() == Utf8.Encode(ch) && r.value.capacity == c && r.value.width == w && r.value.sm == policy
  {
    var chLen := Utf8.LenUtf8(ch);
    if chLen > c {
      return Err(CapacityError);
    }
    Utf8.ValidEncode(ch);
    var s := new ArrayString.FromBytes(w, c, policy, Utf8.Encode(ch));
    r := Ok(s);
  }

  /** `clone()`: a new string of the same type with the same bytes; its spare bytes went to the policy. */
  method Clone(src: ArrayString) returns (r: ArrayString)
    requires src.Valid()
    ensures fresh(r) && fresh(r.arr) && r.Valid()
    ensures r.AsBytes() == src.AsBytes() && r.capacity == src.capacity && r.width == src.width && r.sm == src.sm
  {
    r := new ArrayString.FromBytes(src.width, src.capacity, src.sm, src.AsBytes());
  }

  /** A piece of formatted output: a string piece or a char formatted on its own. */
  datatype Fragment = Piece(s: seq<byte>) | Char(c: char)
  {
    /** The bytes the fragment stands for. */
    function Bytes(): seq<byte>
    {
      match this
      case Piece(s) => s
      case Char(c) => Utf8.Encode(c)
    }

    /** A string piece is a `&str`, so valid UTF-8. */
    predicate Valid()
    {
      Piece? ==> Utf8.Valid(s)
    }
  }

  predicate AllValid(fs: seq<Fragment>)
  {
    forall i :: 0 <= i < |fs| ==> fs[i].Valid()
  }

  /** The formatted output: the bytes of the fragments, one after the other. */
  function Concat(fs: seq<Fragment>): (r: seq<byte>)
  {
    if fs == [] then [] else fs[0].Bytes() + Concat(fs[1..])
  }

  /** The output of fragments that are all valid is valid. */
  lemma {:induction false} ConcatValid(fs: seq<Fragment>)
    requires AllValid(fs)
    ensures Utf8.Valid(Concat(fs))
  {
    if fs != [] {
      if fs[0].Char? {
        Utf8.ValidEncode(fs[0].c);
      }
      ConcatValid(fs[1..]);
      Utf8.ValidConcat(fs[0].Bytes(), Concat(fs[1..]));
    }
  }

  /** One more fragment adds its bytes at the end. */
  lemma {:induction false} ConcatSnoc(fs: seq<Fragment>, k: nat)
    requires k < |fs|
    ensures Concat(fs[..k + 1]) == Concat(fs[..k]) + fs[k].Bytes()
  {
    if k == 0 {
      assert fs[..1][1..] == [];
    } else {
      assert fs[..k + 1][1..] == fs[1..][..k];
      assert fs[..k][1..] == fs[1..][..k - 1];
      ConcatSnoc(fs[1..], k - 1);
    }
  }

  /** How many fragments, from the front, a writer with `room` spare bytes takes whole before the first that does not fit. */
  function FitCount(room: nat, fs: seq<Fragment>): (k: nat)
    ensures k <= |fs|
  {
    if fs == [] || |fs[0].Bytes()| > room then 0 else 1 + FitCount(room - |fs[0].Bytes()|, fs[1..])
  }

  /**
   * `FitCount` counts the longest run of leading fragments whose bytes fit
   * together: they fit, and with one more fragment they would not.
   */
  lemma {:induction false} FitCountMaximal(room: nat, fs: seq<Fragment>)
    ensures |Concat(fs[..FitCount(room, fs)])| <= room
    ensures FitCount(room, fs) < |fs| ==> |Concat(fs[..FitCount(room, fs) + 1])| > room
  {
    if fs == [] {
    } else if |fs[0].Bytes()| > room {
      assert fs[..1][1..] == [];
    } else {
      var b := |fs[0].Bytes()|;
      var k := FitCount(room - b, fs[1..]);
      FitCountMaximal(room - b, fs[1..]);
      assert fs[..k + 1][1..] == fs[1..][..k];
      if k + 1 < |fs| {
        assert fs[..k + 2][1..] == fs[1..][..k + 1];
      }
    }
  }

  /**
   * `fmt::Write::write_str` of `ArrayString`: `try_push_str`, with its
   * `CapacityError` turned into `fmt::Error`; the string changes only when
   * the whole of `s` fits.
   */
  method WriteStr(d: ArrayString, s: seq<byte>) returns (r: Result<(), FmtError>)
    requires d.Valid() && Utf8.Valid(s)
    modifies d, d.arr
    ensures d.Valid()
    ensures r.Ok? <==> |s| <= d.capacity - old(d.len)
    ensures r.Ok? ==> d.AsBytes() == old(d.AsBytes()) + s
    ensures r.Err? ==> d.len == old(d.len) && d.arr[..] == old(d.arr[..])
  {
    var p := d.TryPushStr(s);
    r := if p.Ok? then Ok(()) else Err(FmtError);
  }

  /** `fmt::Write::write_char` of `ArrayString`: `try_push`, with its error turned into `fmt::Error`. */
  method WriteChar(d: ArrayString, c: char) returns (r: Result<(), FmtError>)
    requires d.Valid()
    modifies d, d.arr
    ensures d.Valid()
    ensures r.Ok? <==> Utf8.LenUtf8(c) <= d.capacity - old(d.len)
    ensures r.Ok? ==> d.AsBytes() == old(d.AsBytes()) + Utf8.Encode(c)
    ensures r.Err? ==> d.len == old(d.len) && d.arr[..] == old(d.arr[..])
  {
    var p := d.TryPush(c);
    r := if p.Ok? then Ok(()) else Err(FmtError);
  }

  /** `write_str` or `write_char`, whichever the fragment calls for. */
  method WriteFragment(d: ArrayString, f: Fragment) returns (r: Result<(), FmtError>)
    requires d.Valid() && f.Valid()
    modifies d, d.arr
    ensures d.Valid()
    ensures r.Ok? <==> |f.Bytes()| <= d.capacity - old(d.len)
    ensures r.Ok? ==> d.AsBytes() == old(d.AsBytes()) + f.Bytes()
    ensures r.Err? ==> d.len == old(d.len) && d.arr[..] == old(d.arr[..])
  {
    match f
    case Piece(s) => r := WriteStr(d, s);
    case Char(c) => r := WriteChar(d, c);
  }

  /**
   * `write_fmt` (the loop of `core::fmt::write`): writes the fragments in
   * order and stops at the first that fails. The fragments written before it
   * stay; the result is `Ok` iff every fragment was written.
   */
  method WriteFmt(d: ArrayString, fs: seq<Fragment>) returns (r: Result<(), FmtError>)
    requires d.Valid() && AllValid(fs)
    modifies d, d.arr
    ensures d.Valid()
    ensures r.Ok? <==> FitCount(d.capacity - old(d.len), fs) == |fs|
    ensures d.AsBytes() == old(d.AsBytes()) + Concat(fs[..FitCount(d.capacity - old(d.len), fs)])
  {
    ghost var room := d.capacity - d.len;
    var k := 0;
    while k < |fs|
      invariant FmtProgress(d, old(d.AsBytes()), room, fs, k)
      decreases |fs| - k
    {
      var ok := WriteNext(d, old(d.AsBytes()), room, fs, k);
      if !ok {
        return Err(FmtError);
      }
      k := k + 1;
    }
    r := Ok(());
  }

  /**
   * `write_fmt` after `k` fragments: the string holds what it held (`s0`)
   * followed by them, and `k` plus the fragments that still fit make up all
   * that fit in the `room` spare bytes there were.
   */
  ghost predicate FmtProgress(d: ArrayString, s0: seq<byte>, room: nat, fs: seq<Fragment>, k: nat)
    reads d, d.arr
  {
    && d.Valid() && k <= |fs| && d.AsBytes() == s0 + Concat(fs[..k])
    && FitCount(room, fs) == k + FitCount(d.capacity - d.len, fs[k..])
  }

  /** One round of `write_fmt`: writes fragment `k`; `false` when it does not fit, which ends the count of those that fit. */
  method WriteNext(d: ArrayString, ghost s0: seq<byte>, ghost room: nat, fs: seq<Fragment>, k: nat) returns (ok: bool)
    requires FmtProgress(d, s0, room, fs, k) && k < |fs| && AllValid(fs)
    modifies d, d.arr
    ensures ok ==> FmtProgress(d, s0, room, fs, k + 1)
    ensures !ok ==> FmtProgress(d, s0, room, fs, k) && FitCount(room, fs) == k
  {
    ghost var s1 := d.AsBytes();
    var w := WriteFragment(d, fs[k]);
    ok := w.Ok?;
    ghost var s2 := d.AsBytes();
    FmtStep(s0, room, fs, k, d.capacity, s1, s2, ok);
    assert |s2| == d.len;
    if ok {
      assert d.AsBytes() == s0 + Concat(fs[..k + 1]);
      assert FitCount(room, fs) == k + 1 + FitCount(d.capacity - d.len, fs[k + 1..]);
    }
  }

  /** The bookkeeping of one round of `write_fmt`, over the string before (`s1`) and after (`s2`) it. */
  lemma FmtStep(s0: seq<byte>, room: nat, fs: seq<Fragment>, k: nat, cap: nat, s1: seq<byte>, s2: seq<byte>, ok: bool)
    requires k < |fs| && |s1| <= cap && s1 == s0 + Concat(fs[..k])
    requires FitCount(room, fs) == k + FitCount(cap - |s1|, fs[k..])
    requires ok <==> |fs[k].Bytes()| <= cap - |s1|
    requires ok ==> s2 == s1 + fs[k].Bytes()
    ensures ok ==> s2 == s0 + Concat(fs[..k + 1]) && FitCount(room, fs) == k + 1 + FitCount(cap - |s2|, fs[k + 1..])
    ensures !ok ==> FitCount(room, fs) == k
  {
    FitCountAt(cap - |s1|, fs, k);
    if ok {
      assert cap - |s2| == cap - |s1| - |fs[k].Bytes()|;
      ConcatSnoc(fs, k);
      SeqOps.AppendAssoc(s0, Concat(fs[..k]), fs[k].Bytes());
    }
  }

  /** `FitCount` of the fragments from `k` on, by the first of them. */
  lemma FitCountAt(room: nat, fs: seq<Fragment>, k: nat)
    requires k < |fs|
    ensures FitCount(room, fs[k..]) ==
              if |fs[k].Bytes()| > room then 0 else 1 + FitCount(room - |fs[k].Bytes()|, fs[k + 1..])
  {
    assert fs[k..][0] == fs[k] && fs[k..][1..] == fs[k + 1..];
  }

  /**
   * The writer `format_lossy` formats into: it wraps the string and never
   * fails, keeping of each fragment what fits.
   */
  class LossyWriter {
    const target: ArrayString

    constructor (s: ArrayString)
      ensures target == s
    {
      target := s;
    }

    /** `write_str`: `add_str`, so the longest prefix of `s` that fits and ends on a char boundary; always `Ok`. */
    method WriteStr(s: seq<byte>) returns (r: Result<(), FmtError>)
      requires target.Valid() && Utf8.Valid(s)
      modifies target, target.arr
      ensures target.Valid() && r.Ok?
      ensures target.AsBytes() == old(target.AsBytes()) + s[..Utf8.FitLen(s, target.capacity - old(target.len))]
    {
      var _ := target.AddStr(s);
      r := Ok(());
    }

    /** `write_char`: `try_push`, whose error is dropped; always `Ok`. */
    method WriteChar(c: char) returns (r: Result<(), FmtError>)
      requires target.Valid()
      modifies target, target.arr
      ensures target.Valid() && r.Ok?
      ensures target.AsBytes() == if Utf8.LenUtf8(c) <= target.capacity - old(target.len)
                                  then old(target.AsBytes()) + Utf8.Encode(c) else old(target.AsBytes())
    {
      var _ := target.TryPush(c);
      r := Ok(());
    }

    /** `write_str` or `write_char`, whichever the fragment calls for. */
    method WriteFragment(f: Fragment)
      requires target.Valid() && f.Valid()
      modifies target, target.arr
      ensures target.Valid()
      ensures target.AsBytes() == LossyStep(old(target.AsBytes()), target.capacity, f)
    {
      match f
      case Piece(s) => var _ := WriteStr(s);
      case Char(c) => var _ := WriteChar(c);
    }

    /** `write_fmt`: every fragment in turn, none of which fails. */
    method WriteFmt(fs: seq<Fragment>) returns (r: Result<(), FmtError>)
      requires target.Valid() && AllValid(fs)
      modifies target, target.arr
      ensures target.Valid() && r.Ok?
      ensures target.AsBytes() == Lossy(old(target.AsBytes()), target.capacity, fs)
    {
      var k := 0;
      while k < |fs|
        invariant target.Valid() && k <= |fs|
        invariant Lossy(target.AsBytes(), target.capacity, fs[k..]) == Lossy(old(target.AsBytes()), target.capacity, fs)
        decreases |fs| - k
      {
        ghost var before := target.AsBytes();
        WriteFragment(fs[k]);
        LossyAt(before, target.capacity, fs, k);
        k := k + 1;
      }
      r := Ok(());
    }
  }

  /** `Lossy` of the fragments from `k` on, by the first of them. */
  lemma LossyAt(acc: seq<byte>, cap: nat, fs: seq<Fragment>, k: nat)
    requires |acc| <= cap && k < |fs|
    ensures |LossyStep(acc, cap, fs[k])| <= cap
    ensures Lossy(acc, cap, fs[k..]) == Lossy(LossyStep(acc, cap, fs[k]), cap, fs[k + 1..])
  {
    assert fs[k..][0] == fs[k] && fs[k..][1..] == fs[k + 1..];
    LossyStepBounded(acc, cap, fs[k]);
  }

  /** What the lossy writer makes of the string `acc`, in a string of capacity `cap`, when it is handed `f`. */
  function LossyStep(acc: seq<byte>, cap: nat, f: Fragment): (r: seq<byte>)
    requires |acc| <= cap
  {
    match f
    case Piece(s) => acc + s[..Utf8.FitLen(s, cap - |acc|)]
    case Char(c) => if Utf8.LenUtf8(c) <= cap - |acc| then acc + Utf8.Encode(c) else acc
  }

  /** What the lossy writer makes of the string `acc`, in a string of capacity `cap`, when it is handed the fragments `fs` in turn. */
  function Lossy(acc: seq<byte>, cap: nat, fs: seq<Fragment>): (r: seq<byte>)
    requires |acc| <= cap
    decreases |fs|
  {
    if fs == [] then acc else
      var next := LossyStep(acc, cap, fs[0]);
      if |next| <= cap then Lossy(next, cap, fs[1..]) else next
  }

  /** The lossy output never exceeds the capacity, and it only ever appends to what the string held. */
  lemma {:induction false} LossyBounded(acc: seq<byte>, cap: nat, fs: seq<Fragment>)
    requires |acc| <= cap
    ensures |Lossy(acc, cap, fs)| <= cap && acc <= Lossy(acc, cap, fs)
    decreases |fs|
  {
    if fs != [] {
      var next := LossyStep(acc, cap, fs[0]);
      LossyStepBounded(acc, cap, fs[0]);
      LossyBounded(next, cap, fs[1..]);
    }
  }

  lemma LossyStepBounded(acc: seq<byte>, cap: nat, f: Fragment)
    requires |acc| <= cap
    ensures |LossyStep(acc, cap, f)| <= cap && acc <= LossyStep(acc, cap, f)
  {
  }

  /** When the whole output fits, nothing is lost: the lossy output is the output. */
  lemma {:induction false} LossyWhole(acc: seq<byte>, cap: nat, fs: seq<Fragment>)
    requires |acc| + |Concat(fs)| <= cap
    ensures Lossy(acc, cap, fs) == acc + Concat(fs)
    decreases |fs|
  {
    if fs != [] {
      var b := fs[0].Bytes();
      var next := LossyStep(acc, cap, fs[0]);
      assert next == acc + b;
      LossyWhole(next, cap, fs[1..]);
    }
  }

  /**
   * `format_lossy(args)`: a new, empty string formatted into through the
   * lossy writer.
   */
  method FormatLossy(w: LengthType.Width, c: nat, policy: Policy, fs: seq<Fragment>) returns (s: ArrayString)
    requires c <= LengthType.Max(w) && AllValid(fs)
    ensures fresh(s) && s.Valid() && s.capacity == c && s.width == w && s.sm == policy
    ensures s.AsBytes() == Lossy([], c, fs)
  {
    s := new ArrayString.New(w, c, policy);
    var pw := new LossyWriter(s);
    var _ := pw.WriteFmt(fs);
  }

  /**
   * The lossy formatter's cases: "2€€" into 5 bytes gives "2€", "cds" into
   * 0 bytes gives "", and "25€" into 4 bytes gives "25", cut at the last
   * char boundary that fits.
   */
  lemma LossyExamples()
    ensures Lossy([], 5, [Piece([0x32, 0xE2, 0x82, 0xAC, 0xE2, 0x82, 0xAC])]) == [0x32, 0xE2, 0x82, 0xAC]
    ensures Lossy([], 0, [Piece([0x63, 0x64, 0x73])]) == []
    ensures Lossy([], 4, [Piece([0x32, 0x35, 0xE2, 0x82, 0xAC])]) == [0x32, 0x35]
  {
    var e: seq<byte> := [0x32, 0xE2, 0x82, 0xAC, 0xE2, 0x82, 0xAC];
    assert !Utf8.IsCharBoundary(e, 5);
    assert Utf8.FitLen(e, 5) == 4;
    var f: seq<byte> := [0x32, 0x35, 0xE2, 0x82, 0xAC];
    assert !Utf8.IsCharBoundary(f, 4) && !Utf8.IsCharBoundary(f, 3);
    assert Utf8.FitLen(f, 4) == 2;
  }

  /**
   * `write!` into 7 bytes of "Hello, {}!" with "world": the first piece
   * fits, the second does not, so only "Hello, " is written and the write
   * fails; '€' does not fit in 1 byte.
   */
  lemma WriteFmtExamples()
    ensures var fs := [Piece([0x48, 0x65, 0x6C, 0x6C, 0x6F, 0x2C, 0x20]), Piece([0x77, 0x6F, 0x72, 0x6C, 0x64]), Piece([0x21])];
            FitCount(7, fs) == 1 && Concat(fs[..1]) == [0x48, 0x65, 0x6C, 0x6C, 0x6F, 0x2C, 0x20]
    ensures FitCount(1, [Char('€')]) == 0
  {
    var fs := [Piece([0x48, 0x65, 0x6C, 0x6C, 0x6F, 0x2C, 0x20]), Piece([0x77, 0x6F, 0x72, 0x6C, 0x64]), Piece([0x21])];
    assert fs[1..][0] == fs[1];
    assert fs[..1][1..] == [];
  }
}
