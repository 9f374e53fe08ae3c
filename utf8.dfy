/**
 * UTF-8 as defined by RFC 3629 (section 3 for the encoding, section 4 for
 * the syntax of well-formed sequences): the encoding of a char (`encode_utf8`,
 * `len_utf8`), the decoding of the first char of a string (`chars().next()`),
 * char boundaries (`is_char_boundary`), and which byte strings are valid.
 * Dafny's `char` is a Unicode scalar value, like Rust's.
 */
module Utf8 {
  import opened Memory

  /** A continuation byte `10xxxxxx`. */
  predicate IsCont(b: byte)
  {
    0x80 <= b <= 0xBF
  }

  /**
   * The length of the well-formed sequence `s` starts with, following the
   * table of section 4 of RFC 3629 (no overlong forms, no surrogates, nothing
   * above U+10FFFF), or 0 when `s` does not start with one.
   */
  function SeqLen(s: seq<byte>): (k: nat)
    ensures k <= 4 && k <= |s|
    ensures k > 0 ==> !IsCont(s[0])
    ensures k > 1 ==> IsCont(s[1]) && (k > 2 ==> IsCont(s[2]) && (k > 3 ==> IsCont(s[3])))
  {
    if |s| == 0 then 0
    else if s[0] <= 0x7F then 1
    else if 0xC2 <= s[0] <= 0xDF then
      (if |s| >= 2 && IsCont(s[1]) then 2 else 0)
    else if s[0] == 0xE0 then
      (if |s| >= 3 && 0xA0 <= s[1] <= 0xBF && IsCont(s[2]) then 3 else 0)
    else if 0xE1 <= s[0] <= 0xEC || 0xEE <= s[0] <= 0xEF then
      (if |s| >= 3 && IsCont(s[1]) && IsCont(s[2]) then 3 else 0)
    else if s[0] == 0xED then
      (if |s| >= 3 && 0x80 <= s[1] <= 0x9F && IsCont(s[2]) then 3 else 0)
    else if s[0] == 0xF0 then
      (if |s| >= 4 && 0x90 <= s[1] <= 0xBF && IsCont(s[2]) && IsCont(s[3]) then 4 else 0)
    else if 0xF1 <= s[0] <= 0xF3 then
      (if |s| >= 4 && IsCont(s[1]) && IsCont(s[2]) && IsCont(s[3]) then 4 else 0)
    else if s[0] == 0xF4 then
      (if |s| >= 4 && 0x80 <= s[1] <= 0x8F && IsCont(s[2]) && IsCont(s[3]) then 4 else 0)
    else 0
  }

  /** `s` is a concatenation of well-formed sequences: the invariant of `str`. */
  predicate Valid(s: seq<byte>)
    decreases |s|, 1
  {
    |s| == 0 || ValidStep(s)
  }

  /** `s` starts with a well-formed sequence and the rest of it is valid. */
  predicate ValidStep(s: seq<byte>)
    decreases |s|, 0
  {
    SeqLen(s) > 0 && Valid(s[SeqLen(s)..])
  }

  /** `is_char_boundary`: the start or the end of the string, or a byte that is not a continuation byte. */
  predicate IsCharBoundary(s: seq<byte>, i: int)
  {
    i == 0 || i == |s| || (0 < i < |s| && !IsCont(s[i]))
  }

  /** `len_utf8`: the number of bytes RFC 3629 spends on a char. */
  function LenUtf8(c: char): (n: nat)
    ensures 1 <= n <= 4
  {
    var v := c as int;
    if v < 0x80 then 1 else if v < 0x800 then 2 else if v < 0x1_0000 then 3 else 4
  }

  /** `encode_utf8`: the bit distribution of section 3 of RFC 3629. */
  function Encode(c: char): (r: seq<byte>)
    ensures |r| == LenUtf8(c)
  {
    var v := c as int;
    if v < 0x80 then
      [v as byte]
    else if v < 0x800 then
      [(0xC0 + v / 0x40) as byte, (0x80 + v % 0x40) as byte]
    else if v < 0x1_0000 then
      [(0xE0 + v / 0x1000) as byte, (0x80 + (v / 0x40) % 0x40) as byte, (0x80 + v % 0x40) as byte]
    else
      [(0xF0 + v / 0x4_0000) as byte, (0x80 + (v / 0x1000) % 0x40) as byte,
       (0x80 + (v / 0x40) % 0x40) as byte, (0x80 + v % 0x40) as byte]
  }

  /** The encoding of a char is one well-formed sequence. */
  lemma EncodeSeqLen(c: char)
    ensures SeqLen(Encode(c)) == LenUtf8(c)
  {
  }

  /** Bytes that are all ASCII form a valid string, one char per byte. */
  lemma {:induction false} AsciiValid(s: seq<byte>)
    requires forall i :: 0 <= i < |s| ==> s[i] <= 0x7F
    ensures Valid(s)
    decreases |s|
  {
    if |s| > 0 {
      assert SeqLen(s) == 1;
      AsciiValid(s[1..]);
    }
  }

  /** The bytes of a string of chars: the concatenation of their encodings. */
  function EncodeAll(cs: seq<char>): (r: seq<byte>)
    ensures Valid(r)
  {
    if |cs| == 0 then [] else
      var head := Encode(cs[0]);
      var tail := EncodeAll(cs[1..]);
      ValidEncode(cs[0]);
      ValidConcat(head, tail);
      head + tail
  }

  /** The scalar value coded by the well-formed sequence at the front of `s`. */
  function ScalarOf(s: seq<byte>): (v: int)
    requires SeqLen(s) > 0
  {
    var k := SeqLen(s);
    if k == 1 then s[0] as int
    else if k == 2 then (s[0] as int - 0xC0) * 0x40 + (s[1] as int - 0x80)
    else if k == 3 then (s[0] as int - 0xE0) * 0x1000 + (s[1] as int - 0x80) * 0x40 + (s[2] as int - 0x80)
    else (s[0] as int - 0xF0) * 0x4_0000 + (s[1] as int - 0x80) * 0x1000 + (s[2] as int - 0x80) * 0x40 + (s[3] as int - 0x80)
  }

  lemma ScalarOfInRange(s: seq<byte>)
    requires SeqLen(s) > 0
    ensures var v := ScalarOf(s); 0 <= v < 0xD800 || 0xE000 <= v < 0x11_0000
    ensures var v := ScalarOf(s); SeqLen(s) == (if v < 0x80 then 1 else if v < 0x800 then 2 else if v < 0x1_0000 then 3 else 4)
  {
  }

  /** `chars().next()` of a string that starts with a well-formed sequence. */
  function DecodeFirst(s: seq<byte>): (c: char)
    requires SeqLen(s) > 0
    ensures LenUtf8(c) == SeqLen(s)
    ensures Encode(c) == s[..SeqLen(s)]
  {
    ScalarOfInRange(s);
    var c := ScalarOf(s) as char;
    EncodeScalarOf(s);
    c
  }

  lemma EncodeScalarOf(s: seq<byte>)
    requires SeqLen(s) > 0
    ensures var v := ScalarOf(s); (0 <= v < 0xD800 || 0xE000 <= v < 0x11_0000) && Encode(v as char) == s[..SeqLen(s)]
  {
    ScalarOfInRange(s);
    var k := SeqLen(s);
    var v := ScalarOf(s);
    if k == 2 {
      Bits2(s[0] as int, s[1] as int);
    } else if k == 3 {
      Bits3(s[0] as int, s[1] as int, s[2] as int);
    } else if k == 4 {
      Bits4(s[0] as int, s[1] as int, s[2] as int, s[3] as int);
    }
  }

  lemma Bits2(b0: int, b1: int)
    requires 0xC2 <= b0 <= 0xDF && 0x80 <= b1 <= 0xBF
    ensures var v := (b0 - 0xC0) * 0x40 + (b1 - 0x80); 0xC0 + v / 0x40 == b0 && 0x80 + v % 0x40 == b1
  {
  }

  lemma Bits3(b0: int, b1: int, b2: int)
    requires 0xE0 <= b0 <= 0xEF && 0x80 <= b1 <= 0xBF && 0x80 <= b2 <= 0xBF
    ensures var v := (b0 - 0xE0) * 0x1000 + (b1 - 0x80) * 0x40 + (b2 - 0x80);
      0xE0 + v / 0x1000 == b0 && 0x80 + (v / 0x40) % 0x40 == b1 && 0x80 + v % 0x40 == b2
  {
    var v := (b0 - 0xE0) * 0x1000 + (b1 - 0x80) * 0x40 + (b2 - 0x80);
    assert v / 0x40 == (b0 - 0xE0) * 0x40 + (b1 - 0x80);
  }

  lemma Bits4(b0: int, b1: int, b2: int, b3: int)
    requires 0xF0 <= b0 <= 0xF4 && 0x80 <= b1 <= 0xBF && 0x80 <= b2 <= 0xBF && 0x80 <= b3 <= 0xBF
    ensures var v := (b0 - 0xF0) * 0x4_0000 + (b1 - 0x80) * 0x1000 + (b2 - 0x80) * 0x40 + (b3 - 0x80);
      0xF0 + v / 0x4_0000 == b0 && 0x80 + (v / 0x1000) % 0x40 == b1 &&
      0x80 + (v / 0x40) % 0x40 == b2 && 0x80 + v % 0x40 == b3
  {
    var v := (b0 - 0xF0) * 0x4_0000 + (b1 - 0x80) * 0x1000 + (b2 - 0x80) * 0x40 + (b3 - 0x80);
    assert v / 0x40 == (b0 - 0xF0) * 0x1000 + (b1 - 0x80) * 0x40 + (b2 - 0x80);
    assert v / 0x1000 == (b0 - 0xF0) * 0x40 + (b1 - 0x80);
  }

  /** Decoding the encoding of a char gives back its scalar value. */
  lemma ScalarOfEncode(c: char)
    ensures SeqLen(Encode(c)) == LenUtf8(c) && ScalarOf(Encode(c)) == c as int
  {
    EncodeSeqLen(c);
    var v := c as int;
    var e := Encode(c);
    if v < 0x80 {
      assert SeqLen(e) == 1;
    } else if v < 0x800 {
      assert SeqLen(e) == 2;
      assert ScalarOf(e) == (e[0] as int - 0xC0) * 0x40 + (e[1] as int - 0x80);
    } else if v < 0x1_0000 {
      assert SeqLen(e) == 3;
      assert ScalarOf(e) == (e[0] as int - 0xE0) * 0x1000 + (e[1] as int - 0x80) * 0x40 + (e[2] as int - 0x80);
      assert (v / 0x40) / 0x40 == v / 0x1000;
    } else {
      assert SeqLen(e) == 4;
      assert ScalarOf(e) == (e[0] as int - 0xF0) * 0x4_0000 + (e[1] as int - 0x80) * 0x1000
        + (e[2] as int - 0x80) * 0x40 + (e[3] as int - 0x80);
      assert (v / 0x40) / 0x40 == v / 0x1000;
      assert (v / 0x1000) / 0x40 == v / 0x4_0000;
    }
  }

  /** Encoding a char and decoding the result gives the char back, whatever follows it. */
  lemma DecodeEncode(c: char, t: seq<byte>)
    ensures SeqLen(Encode(c) + t) == LenUtf8(c)
    ensures DecodeFirst(Encode(c) + t) == c
  {
    var e := Encode(c);
    ScalarOfEncode(c);
    assert (e + t)[..SeqLen(e)] == e[..SeqLen(e)];
    SeqLenSame(e, e + t);
    assert (e + t)[0] == e[0];
    assert |e| >= 2 ==> (e + t)[1] == e[1];
    assert |e| >= 3 ==> (e + t)[2] == e[2];
    assert |e| >= 4 ==> (e + t)[3] == e[3];
  }

  /** Different chars have different encodings. */
  lemma EncodeInjective(a: char, b: char)
    requires Encode(a) == Encode(b)
    ensures a == b
  {
    ScalarOfEncode(a);
    ScalarOfEncode(b);
  }

  /** `SeqLen` looks only at the bytes of the sequence it finds. */
  lemma SeqLenSame(s: seq<byte>, t: seq<byte>)
    requires SeqLen(s) > 0 && SeqLen(s) <= |t| && t[..SeqLen(s)] == s[..SeqLen(s)]
    ensures SeqLen(t) == SeqLen(s)
  {
    var k := SeqLen(s);
    assert t[0] == s[0];
    assert k >= 2 ==> t[1] == s[1];
    assert k >= 3 ==> t[2] == s[2];
    assert k >= 4 ==> t[3] == s[3];
  }

  /** The encoding of one char is a valid string. */
  lemma ValidEncode(c: char)
    ensures Valid(Encode(c))
  {
    var e := Encode(c);
    EncodeSeqLen(c);
    assert e[SeqLen(e)..] == [];
  }

  /** Valid strings are closed under concatenation. */
  lemma {:induction false} ValidConcat(a: seq<byte>, b: seq<byte>)
    requires Valid(a) && Valid(b)
    ensures Valid(a + b)
    decreases |a|
  {
    if |a| == 0 {
      assert a + b == b;
    } else {
      var k := SeqLen(a);
      assert (a + b)[..k] == a[..k];
      SeqLenSame(a, a + b);
      assert (a + b)[k..] == a[k..] + b;
      ValidConcat(a[k..], b);
    }
  }

  /** Cutting a valid string at a char boundary leaves two valid strings. */
  lemma {:induction false} ValidSplit(s: seq<byte>, i: int)
    requires Valid(s) && IsCharBoundary(s, i)
    ensures 0 <= i <= |s|
    ensures Valid(s[..i]) && Valid(s[i..])
    decreases |s|, 1
  {
    if i == 0 || i == |s| {
      ValidSplitEnds(s, i);
    } else {
      InnerBoundary(s, i);
      ValidSplitPast(s, i, SeqLen(s));
    }
  }

  /** `ValidSplit` for a boundary past the first well-formed sequence, of length `k`, of `s`. */
  lemma {:induction false} ValidSplitPast(s: seq<byte>, i: int, k: nat)
    requires SeqLen(s) == k > 0 && k <= i < |s|
    requires Valid(s[k..]) && IsCharBoundary(s[k..], i - k)
    ensures Valid(s[..i]) && Valid(s[i..])
    decreases |s|, 0
  {
    ValidSplit(s[k..], i - k);
    ValidSplitStep(s, i, k);
  }

  lemma ValidSplitEnds(s: seq<byte>, i: int)
    requires Valid(s) && (i == 0 || i == |s|)
    ensures Valid(s[..i]) && Valid(s[i..])
  {
    if i == 0 {
      assert s[..i] == [] && s[i..] == s;
    } else {
      assert s[..i] == s && s[i..] == [];
    }
  }

  /** A boundary strictly inside a valid string lies past its first well-formed sequence. */
  lemma InnerBoundary(s: seq<byte>, i: int)
    requires Valid(s) && IsCharBoundary(s, i) && 0 < i < |s|
    ensures SeqLen(s) > 0 && SeqLen(s) <= i && Valid(s[SeqLen(s)..])
    ensures IsCharBoundary(s[SeqLen(s)..], i - SeqLen(s))
  {
    var k := SeqLen(s);
    assert i - k < |s| - k ==> s[k..][i - k] == s[i];
  }

  /** One step of the induction of `ValidSplit`: from the rest of the string back to the whole of it. */
  lemma ValidSplitStep(s: seq<byte>, i: int, k: nat)
    requires SeqLen(s) == k > 0 && k <= i <= |s|
    requires Valid(s[k..][..i - k]) && Valid(s[k..][i - k..])
    ensures Valid(s[..i]) && Valid(s[i..])
  {
    Slices(s, k, i);
    ValidFirst(s);
    ValidConcat(s[..k], s[k..i]);
  }

  /** How the slices of `s` at `k <= i` fit together. */
  lemma Slices<E>(s: seq<E>, k: nat, i: nat)
    requires k <= i <= |s|
    ensures s[k..][..i - k] == s[k..i] && s[k..][i - k..] == s[i..] && s[..k] + s[k..i] == s[..i]
  {
  }

  /** The first well-formed sequence of a string is on its own a valid string. */
  lemma ValidFirst(s: seq<byte>)
    requires SeqLen(s) > 0
    ensures Valid(s[..SeqLen(s)])
  {
    var k := SeqLen(s);
    SeqLenSame(s, s[..k]);
    assert s[..k][k..] == [];
  }

  /** The start of the last char of a non-empty valid string. */
  function LastCharStart(s: seq<byte>): (r: nat)
    requires Valid(s) && |s| > 0
    ensures r < |s|
    decreases |s|
  {
    ValidHead(s);
    var k := SeqLen(s);
    if k == |s| then 0 else k + LastCharStart(s[k..])
  }

  /** The last char starts at a char boundary, its bytes are one well-formed sequence, and the bytes before it are valid. */
  lemma {:induction false} LastCharStartIsLast(s: seq<byte>, r: nat)
    requires Valid(s) && |s| > 0 && r == LastCharStart(s)
    ensures IsCharBoundary(s, r) && SeqLen(s[r..]) == |s| - r && Valid(s[..r])
    decreases |s|
  {
    ValidHead(s);
    var k := SeqLen(s);
    if k == |s| {
      WholeIsLast(s, r);
    } else {
      var j := LastCharStart(s[k..]);
      LastCharStartIsLast(s[k..], j);
      LastCharStep(s, k, j, r);
    }
  }

  lemma WholeIsLast(s: seq<byte>, r: nat)
    requires SeqLen(s) == |s| > 0 && r == 0
    ensures IsCharBoundary(s, r) && SeqLen(s[r..]) == |s| - r && Valid(s[..r])
  {
    assert s[..0] == [];
    assert s[0..] == s;
  }

  /** `chars().next_back()` of a non-empty valid string: its last char, whose bytes end the string at a char boundary. */
  function LastChar(s: seq<byte>): (c: char)
    requires Valid(s) && |s| > 0
    ensures LenUtf8(c) <= |s| && IsCharBoundary(s, |s| - LenUtf8(c))
    ensures s == s[..|s| - LenUtf8(c)] + Encode(c)
  {
    var start := LastCharStart(s);
    LastCharStartIsLast(s, start);
    var t := s[start..];
    var c := DecodeFirst(t);
    assert LenUtf8(c) == |t| && t[..|t|] == t;
    assert s == s[..start] + t;
    c
  }

  lemma LastCharStep(s: seq<byte>, k: nat, j: nat, r: nat)
    requires SeqLen(s) == k > 0 && k + j < |s| && r == k + j
    requires IsCharBoundary(s[k..], j) && SeqLen(s[k..][j..]) == |s| - k - j && Valid(s[k..][..j])
    ensures IsCharBoundary(s, r) && SeqLen(s[r..]) == |s| - r && Valid(s[..r])
  {
    var rest := s[k..];
    assert rest[j..] == s[k + j..];
    assert j == 0 ==> !IsCont(s[k]);
    assert s[..k + j] == s[..k] + rest[..j];
    ValidFirst(s);
    ValidConcat(s[..k], rest[..j]);
  }

  /** A non-empty valid string starts with a well-formed sequence, after which comes a valid string that starts at a boundary. */
  lemma ValidHead(t: seq<byte>)
    requires Valid(t) && |t| > 0
    ensures SeqLen(t) > 0 && Valid(t[SeqLen(t)..])
    ensures SeqLen(t) < |t| ==> !IsCont(t[SeqLen(t)])
  {
    var k := SeqLen(t);
    var rest := t[k..];
    if k < |t| {
      assert SeqLen(rest) > 0;
      assert rest[0] == t[k];
    }
  }

  /** Removing the char, of `k` bytes, that starts at a boundary leaves a valid string. */
  lemma RemoveChar(s: seq<byte>, i: nat, k: nat)
    requires Valid(s) && IsCharBoundary(s, i) && i < |s| && k == SeqLen(s[i..])
    ensures 0 < k && i + k <= |s|
    ensures IsCharBoundary(s, i + k)
    ensures Valid(s[..i] + s[i + k..])
  {
    ValidSplit(s, i);
    var t := s[i..];
    ValidHead(t);
    assert t[k..] == s[i + k..];
    assert i + k < |s| ==> s[i + k] == t[k];
    ValidConcat(s[..i], t[k..]);
  }

  /** The char that starts at the boundary `i` of the valid string `s`; cutting out its bytes leaves a valid string. */
  function CharAt(s: seq<byte>, i: nat): (c: char)
    requires Valid(s) && IsCharBoundary(s, i) && i < |s|
    ensures i + LenUtf8(c) <= |s| && Encode(c) == s[i..i + LenUtf8(c)]
    ensures IsCharBoundary(s, i + LenUtf8(c))
    ensures Valid(s[..i] + s[i + LenUtf8(c)..])
  {
    StartsWell(s, i);
    var c := DecodeFirst(s[i..]);
    DecodeAt(s, i, c);
    c
  }

  /** A char boundary before the end of a valid string starts a well-formed sequence. */
  lemma StartsWell(s: seq<byte>, i: nat)
    requires Valid(s) && IsCharBoundary(s, i) && i < |s|
    ensures SeqLen(s[i..]) > 0
  {
    ValidSplit(s, i);
  }

  lemma DecodeAt(s: seq<byte>, i: nat, c: char)
    requires Valid(s) && IsCharBoundary(s, i) && i < |s|
    requires SeqLen(s[i..]) > 0 && c == DecodeFirst(s[i..])
    ensures i + LenUtf8(c) <= |s| && Encode(c) == s[i..i + LenUtf8(c)]
    ensures IsCharBoundary(s, i + LenUtf8(c))
    ensures Valid(s[..i] + s[i + LenUtf8(c)..])
  {
    RemoveChar(s, i, LenUtf8(c));
    assert s[i..][..LenUtf8(c)] == s[i..i + LenUtf8(c)];
  }

  /** Splicing a valid string in at a char boundary of a valid string keeps it valid. */
  lemma InsertValid(s: seq<byte>, i: int, x: seq<byte>)
    requires Valid(s) && Valid(x) && IsCharBoundary(s, i)
    ensures 0 <= i <= |s|
    ensures Valid(s[..i] + x + s[i..])
  {
    ValidSplit(s, i);
    ValidConcat(s[..i], x);
    ValidConcat(s[..i] + x, s[i..]);
  }

  /** The last char boundary of `x` at or before `m`; there is one, since 0 is a boundary. */
  function BoundaryAtOrBelow(x: seq<byte>, m: nat): (r: nat)
    requires m <= |x|
    ensures r <= m && IsCharBoundary(x, r)
    ensures forall k :: r < k <= m ==> !IsCharBoundary(x, k)
  {
    if IsCharBoundary(x, m) then m else BoundaryAtOrBelow(x, m - 1)
  }

  /**
   * The length of the longest prefix of `x` that is at most `room` bytes
   * long and ends on a char boundary of `x`: all of `x` when it fits.
   */
  function FitLen(x: seq<byte>, room: nat): (n: nat)
    ensures n <= |x| && n <= room && IsCharBoundary(x, n)
    ensures n == |x| <==> |x| <= room
    ensures forall m :: n < m <= |x| && m <= room ==> !IsCharBoundary(x, m)
  {
    if |x| <= room then |x| else BoundaryAtOrBelow(x, room)
  }

  /** The euro sign takes three bytes, so "25€" is five bytes long and has no boundary at 3 or 4. */
  lemma EuroExamples()
    ensures Encode('€') == [0xE2, 0x82, 0xAC]
    ensures EncodeAll("25€") == [0x32, 0x35, 0xE2, 0x82, 0xAC]
    ensures !IsCharBoundary(EncodeAll("25€"), 3) && !IsCharBoundary(EncodeAll("25€"), 4)
  {
    assert EncodeAll("€") == [0xE2, 0x82, 0xAC] + EncodeAll("");
    assert EncodeAll("5€") == [0x35] + EncodeAll("€");
    assert EncodeAll("25€") == [0x32] + EncodeAll("5€");
  }
}
