/**
 * The conversions of `SmallString`: `TryFrom<&str>` (and `&mut str`,
 * `&String`) and `TryFrom<char>`, both built on `try_from_bytes`, and
 * `drop()`.
 */
module SmallStringTraits {
  import opened Wrappers
  import opened Memory
  import opened SpareMemory
  import opened Errors
  import opened Reservations
  import opened SmallStrings
  import Utf8
  import LengthType

  /**
   * `TryFrom<&str>`, `TryFrom<&mut str>` and `TryFrom<&String>`: a string
   * holding exactly `s`, local when `s` fits in `C` bytes and otherwise on a
   * heap array of exactly `|s|` bytes; the error of the exact reservation
   * otherwise.
   */
  method TryFromStr(w: LengthType.Width, c: nat, policy: Policy, alloc: nat -> bool, s: seq<byte>)
    returns (r: Result<SmallString, ReservationError>)
    requires c <= LengthType.Max(w) && Utf8.Valid(s)
    ensures r.Ok? <==> Reserved(w, 1, alloc, 0, c, |s|, true).Ok?
    ensures r.Err? ==> r.error == Reserved(w, 1, alloc, 0, c, |s|, true).error
    ensures |s| > LengthType.Max(w) ==> r == Err(CapacityOverflow)
    ensures r.Ok? ==> fresh(r.value) && r.value.Valid() && r.value.AsBytes() == s
    ensures r.Ok? ==> r.value.localCap == c && r.value.width == w && r.value.sm == policy
    ensures r.Ok? ==> r.value.Capacity() == (if |s| <= c then c else |s|) && (r.value.IsHeap() <==> |s| > c)
  {
    r := SmallString.TryFromBytes(w, c, policy, alloc, s);
  }

  /**
   * `TryFrom<char>`: a string holding the UTF-8 encoding of `ch`, local
   * when its 1 to 4 bytes fit in `C`, otherwise on a heap array of exactly
   * that many bytes.
   */
  method TryFromChar(w: LengthType.Width, c: nat, policy: Policy, alloc: nat -> bool, ch: char)
    returns (r: Result<SmallString, ReservationError>)
    requires c <= LengthType.Max(w)
    ensures r.Ok? <==> Reserved(w, 1, alloc, 0, c, Utf8.LenUtf8(ch), true).Ok?
    ensures r.Err? ==> r.error == Reserved(w, 1, alloc, 0, c, Utf8.LenUtf8(ch), true).error
    ensures r.Ok? ==> fresh(r.value) && r.value.Valid() && r.value.AsBytes() == Utf8.Encode(ch)
    ensures r.Ok? ==> r.value.localCap == c && r.value.width == w && r.value.sm == policy
    ensures r.Ok? ==> r.value.Capacity() == (if Utf8.LenUtf8(ch) <= c then c else Utf8.LenUtf8(ch))
    ensures r.Ok? ==> (r.value.IsHeap() <==> Utf8.LenUtf8(ch) > c)
  {
    Utf8.ValidEncode(ch);
    r := SmallString.TryFromBytes(w, c, policy, alloc, Utf8.Encode(ch));
  }

  /**
   * The `&str` tests with `C = 4` over `usize`: "cds" stays local with
   * capacity 4 and "hello, world!" moves to a heap array of 13 bytes; both
   * hold their input.
   */
  method TryFromStrExample() returns (short: SmallString, long: SmallString)
    ensures short.Valid() && short.AsBytes() == [0x63, 0x64, 0x73]
    ensures !short.IsHeap() && short.Capacity() == 4
    ensures long.Valid() && long.AsBytes() == [0x68, 0x65, 0x6C, 0x6C, 0x6F, 0x2C, 0x20] + [0x77, 0x6F, 0x72, 0x6C, 0x64, 0x21]
    ensures long.IsHeap() && long.Capacity() == 13
  {
    var a: seq<byte> := [0x63, 0x64, 0x73];
    var b: seq<byte> := [0x68, 0x65, 0x6C, 0x6C, 0x6F, 0x2C, 0x20] + [0x77, 0x6F, 0x72, 0x6C, 0x64, 0x21];
    Utf8.AsciiValid(a);
    Utf8.AsciiValid(b);
    var r1 := TryFromStr(LengthType.Usize, 4, Uninitialized, _ => true, a);
    var r2 := TryFromStr(LengthType.Usize, 4, Uninitialized, _ => true, b);
    short, long := r1.value, r2.value;
  }

  /**
   * The char tests with `C = 2` over `usize`: 'A' (1 byte) and 'Å'
   * (2 bytes) stay local, U+9860 (3 bytes) and U+200D0 (4 bytes) move to a
   * heap array of exactly their length.
   */
  method TryFromCharExample() returns (caps: seq<nat>, heap: seq<bool>)
    ensures caps == [2, 2, 3, 4] && heap == [false, false, true, true]
  {
    var r1 := TryFromChar(LengthType.Usize, 2, Uninitialized, _ => true, 'A');
    var r2 := TryFromChar(LengthType.Usize, 2, Uninitialized, _ => true, '\U{00C5}');
    var r3 := TryFromChar(LengthType.Usize, 2, Uninitialized, _ => true, '\U{9860}');
    var r4 := TryFromChar(LengthType.Usize, 2, Uninitialized, _ => true, '\U{200D0}');
    caps := [r1.value.Capacity(), r2.value.Capacity(), r3.value.Capacity(), r4.value.Capacity()];
    heap := [r1.value.IsHeap(), r2.value.IsHeap(), r3.value.IsHeap(), r4.value.IsHeap()];
  }

  /**
   * `drop()`: clears the string, handing its bytes back to the policy, and
   * then releases the heap array exactly when the capacity exceeds `C`;
   * `freed` says whether it did.
   */
  method Drop(s: SmallString) returns (freed: bool)
    requires s.Valid()
    modifies s, s.buf, s.buf.local, s.buf.heap
    ensures s.Valid() && s.AsBytes() == [] && s.Capacity() == old(s.Capacity())
    ensures freed <==> old(s.IsHeap())
  {
    s.Clear();
    freed := s.capacity > s.localCap;
  }
}
