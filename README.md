# cds containers in Dafny

A model of the fixed- and small-capacity containers of the Rust crate `cds`:

- **`ArrayVec<T, C, L, SM>`**: a vector of at most `C` elements held in an inline array.
  - Modelled with its drain iterator, `retain`, errors and trait implementations.
  - These are `TryFrom`, `Extend`, `Clone` and `io::Write`.
- **`ArrayString<C, L, SM>`**: a UTF-8 string of at most `C` bytes held in an inline array.
  - Modelled with `format_lossy`, its lossy writer, `TryFrom`, `Clone` and `fmt::Write`.
- **`SmallVec<T, C, L, SM>`**: a vector that keeps up to `C` elements locally.
  - It then moves to a heap array that grows by reservation.
  - Modelled with its buffer, drain iterator, `retain` and trait implementations.
  - These are `TryFrom`, `Clone`, `Extend`, `io::Write` and `Drop`.
- **`SmallString<C, L, SM>`**: the string counterpart of `SmallVec`.
  - Modelled with its buffer, `TryFrom` and `Drop`.
- **The length types `U8`, `U16`, `U32`, `U64` and `Usize`**: `L` chooses the integer width of the length counter.
  - `L::MAX` bounds both the capacity and the length.
- **The spare-memory policies**: `Uninitialized`, `Zeroed` and `Pattern<P>`.
  - The policy chooses what a container writes into memory it gives up.

## How the model is built

Each container is a Dafny `class` with the same fields the Rust type updates in place. The two vectors carry a ghost `Contents` sequence as their abstract value; the two strings have none and are specified through `AsBytes()`, the live bytes of the array in use.

- **Storage:**
  - `ArrayVec` keeps an `array<Slot<T>>` and a `len`.
  - `ArrayString` keeps an `array<byte>` and a `len`.
  - `SmallVec` and `SmallString` keep a `Buffer` object with a local array, a heap array and a heap length.
  - Their `capacity` field plays the role of the Rust `capacity` field.
    - At most `C`, it is the length and the data is local.
    - Above `C`, the data is on the heap and the buffer holds the length.
- **Spare slots:** a slot is `Val(v)`, `Wiped(p)` (a byte pattern written by the policy) or `Uninit`.
  - The `ArrayVec` and `ArrayString` methods state the whole new array, so they record where the policy writes its pattern and where stale copies remain.
  - The `SmallVec` and `SmallString` methods state the array through `Valid()`: the live part, and under `Pattern` the pattern in the spare slots. They record no stale copies under `Uninitialized`.
  - The growing branch of `ArrayVec.TryResize` and `TryResizeWith` is stated the same way, through `Valid()`.
- **Operations:**
  - Operations that change state are methods with `modifies` clauses.
  - Queries are functions.
  - Each method is tied to a specification function on sequences: `InsertAt`, `RemoveAt`, `SwapRemoveAt`, `Retained`, `Generated`, `Lossy` and `FitCount`.
  - Lemmas state the properties of those functions.
- **Reservation:** the growth of `SmallVec` and `SmallString` is the function `Reservations.Reserved`.
  - It combines `checked_add`, then either the exact request or `next_power_of_two_or_max`.
  - It then applies the layout check `size_of::<T>() * n > isize::MAX` and asks the allocator.
- **Allocator:** modelled as a parameter `grants: nat -> bool`, which says whether an allocation of `n` bytes succeeds.
  - `elemSize` stands for `size_of::<T>()`.
  - The target is 64-bit: `usize::MAX = 2^64 - 1` and `isize::MAX = 2^63 - 1`.
- **UTF-8:** strings are byte sequences.
  - Module `Utf8` models the part of the Rust standard library the strings rely on.
  - That part is UTF-8 encoding and decoding of `char` (RFC 3629), validity and `is_char_boundary`.
  - The standard library is not part of this model's sources, so those rows cite the crate code that relies on it.
- **Errors:** a `Result`/`Option` datatype carries them.
  - Where the Rust API panics, the model either has the `try_` twin or states the panic-free condition as a precondition.

## Model

| member | source | states |
|---|---|---|
| LengthType.Max | src/len/length_type.rs:112 | `L::MAX` is `2^bits - 1` for the width's bit count |
| LengthType.MaxValues | src/len/length_type.rs:112 | `U8::MAX = 255`, `U16::MAX = 65535`, `U32::MAX = 2^32-1`; the maxima increase with the width and `U64` equals `Usize` |
| LengthType.Length.New | src/len/length_type.rs:115-119 | a counter created from `v <= MAX` reads back as `v` |
| LengthType.Length.AsUsize | src/len/length_type.rs:121-123 | the value never exceeds the width's maximum |
| LengthType.Length.Set | src/len/length_type.rs:126-129 | after `set(v)` the counter reads `v` |
| LengthType.Length.AddAssign | src/len/length_type.rs:136-139 | `+=` adds exactly `r` when the sum stays within `MAX` |
| LengthType.Length.SubAssign | src/len/length_type.rs:144-147 | `-=` subtracts exactly `r` when it does not go below zero |
| LengthType.Length.EqUsize | src/len/length_type.rs:97-102 | the counter equals a `usize` iff their values are equal |
| LengthType.Length.CmpUsize | src/len/length_type.rs:104-109 | comparison with a `usize` is Less/Equal/Greater iff the value is below/equal/above it |
| LengthType.CheckedAddUsize | src/smallvec.rs:619-628 | `checked_add_usize` succeeds iff the sum fits in `L::MAX`, and then gives the sum |
| LengthType.NextPowerOfTwoFromLaws | src/smallvec.rs:619-628 | the doubling search from a power of two `p` ends at a power of two `r >= x`, `r >= p`, with `r == p` or `r/2 < x` |
| LengthType.NextPowerOfTwoLaws | src/smallvec.rs:619-628 | `next_power_of_two(x)` is the least power of two not below `x` |
| LengthType.NextPowerOfTwoOrMaxLaws | src/smallvec.rs:619-628 | `next_power_of_two_or_max` lies between `v` and `L::MAX`; it is the next power of two when that fits, and `L::MAX` otherwise |
| LengthType.NextPowerOfTwoExamples | src/smallvec/test_smallvec.rs:147-205 | 0→1, 5→8, 105→128; over `U8`: 138→255 (saturated) and 128→128 |
| SpareMemory.Init | src/mem/policy.rs:145-161 | `SM::init` leaves `count` slots unchanged under `Uninitialized` and sets exactly them to the pattern under `Pattern<P>` |
| SpareMemory.InitBytes | src/defs/policy.rs:63-83 | the same for the byte arrays of the strings |
| SpareMemory.WipeIdempotent | src/mem/policy.rs:145-161 | writing the pattern twice equals writing it once; a NOOP policy changes nothing |
| SpareMemory.PolicyExamples | src/mem/policy.rs:169-197 | the tests: `Uninitialized` keeps `[_,1,2,3,_,_]`; `Zeroed` and `Pattern<0xAB>` overwrite exactly slots 1..4 |
| Reservations.ReservedLaws | src/smallvec.rs:674-786 | no growth when the room suffices; otherwise the new capacity is the exact or power-of-two-or-max target, covers `len + additional`, and passes the layout and allocator checks; CapacityOverflow iff the length overflows `L::MAX` or the byte size exceeds `isize::MAX` |
| Reservations.ReservedSucceeds | src/smallvec.rs:674-786 | with an allocator that always grants, elements small enough for `L::MAX` and a target within `L::MAX`, reservation succeeds |
| Reservations.ReserveExactExamples | src/smallvec/test_smallvec.rs:614-674 | exact reservation over `U8`: (3,4,+1)→4, (4,4,+1)→5, (5,5,+100)→105, (128,128,+10)→138, +256 overflows |
| Reservations.ReserveExamples | src/smallvec/test_smallvec.rs:147-205 | amortized reservation over `U8`: +1 from 4→8, +100 from 5→128, +10 from 128→255, and 8/16/32 for the local-capacity cases |
| Reservations.ReserveByteOverflowExample | src/smallvec/test_smallvec.rs:264-282 | reserving `isize::MAX` elements of 8 bytes is CapacityOverflow |
| Errors.InsertErrorVal.Value | src/arrayvec/errors.rs:99-104 | `value()` is the element carried by either variant |
| Errors.InsertErrorVal.IntoValue | src/arrayvec/errors.rs:108-113 | `into_value()` is the element carried by either variant |
| Errors.CapacityErrorMessage | src/arrayvec/errors.rs:18-22 | the message is "arrayvec insufficient capacity" |
| Errors.CapacityErrorValMessage | src/arrayvec/errors.rs:34-38 | the same message, whatever value is carried |
| Errors.InsertErrorMessage | src/arrayvec/errors.rs:68-76 | the message starts with "arrayvec insert error: " |
| Errors.InsertErrorValMessage | src/arrayvec/errors.rs:116-124 | the message starts with "arrayvec insert error: " |
| Errors.InsertMessages | src/arrayvec/errors.rs:68-76 | the two exact messages, which differ |
| Errors.InsertErrorValMessageIgnoresPayload | src/arrayvec/errors.rs:116-124 | the message of an `InsertErrorVal` is that of its kind and does not depend on the carried value |
| Errors.IntoValueExamples | src/arrayvec/errors.rs:263-272 | the test values come back out of `into_value()` and `value()` |
| SeqOps.RemoveInsert | src/arrayvec.rs:844-957 | removing at `i` undoes inserting at `i` |
| SeqOps.InsertRemove | src/arrayvec.rs:844-957 | inserting the removed element back at `i` restores the sequence |
| SeqOps.RemoveAtMultiset | src/arrayvec.rs:949-957 | `remove` is a permutation minus the removed element |
| SeqOps.SwapRemoveAtMultiset | src/arrayvec.rs:1020-1046 | `swap_remove` loses only the removed element (as a multiset), though it does not preserve order |
| SeqOps.SwapRemoveLast | src/arrayvec.rs:1037-1046 | `swap_remove` of the last element equals `remove` of it |
| SeqOps.RetainedIsFilter | src/arrayvec.rs:1128-1149 | with a stateless keep predicate, retain is exactly the order-preserving filter |
| SeqOps.RetainedVisitsInOrder | src/arrayvec.rs:1128-1132 | the closure sees every element exactly once, in original order |
| SeqOps.RetainedKeepAll | src/arrayvec.rs:1191-1201 | keeping everything leaves the sequence unchanged |
| SeqOps.GeneratedConstant | src/arrayvec.rs:1490-1505 | resizing with a constant generator appends copies of one value |
| SeqOps.GeneratedCounter | src/arrayvec.rs:1391-1409 | `resize_with` calls the generator once per new element, in order |
| Retaining.CloseGap | src/arrayvec/retain.rs:22-43 | the guard's drop shifts the unprocessed tail down over the deleted gap and writes the pattern over the vacated slots |
| Retaining.RetainFirstLoop | src/arrayvec.rs:1191-1201 | the first loop visits elements until the first deletion, keeping the retain invariant; with no deletion it has visited all |
| Retaining.RetainSecondLoop | src/arrayvec.rs:1205-1221 | the second loop visits the rest, moving each kept element back by the number deleted so far |
| Retaining.RetainVisit | src/arrayvec.rs:1205-1221 | one visit applies the closure to the next original element and keeps the invariant |
| ArrayVecs.ArrayVec.New | src/arrayvec.rs:181-191 | an empty vector of capacity `C` whose whole array has had `SM::init` applied |
| ArrayVecs.ArrayVec.Len | src/arrayvec.rs:205-207 | the number of elements, at most the capacity |
| ArrayVecs.ArrayVec.IsEmpty | src/arrayvec.rs:220-222 | true iff there are no elements |
| ArrayVecs.ArrayVec.IsFull | src/arrayvec.rs:237-239 | true iff the length equals the capacity |
| ArrayVecs.ArrayVec.SpareCapacity | src/arrayvec.rs:313-315 | spare capacity plus length is the capacity |
| ArrayVecs.ArrayVec.HasSpareCapacity | src/arrayvec.rs:334-336 | true iff the length is below the capacity |
| ArrayVecs.ArrayVec.AsSlice | src/arrayvec.rs:267-269 | the elements in order |
| ArrayVecs.ArrayVec.SetLen | src/arrayvec.rs:359-362 | sets the length counter and nothing else |
| ArrayVecs.ArrayVec.PushUnchecked | src/arrayvec.rs:483-487 | appends the element and writes exactly slot `len` |
| ArrayVecs.ArrayVec.TryPush | src/arrayvec.rs:419-426 | succeeds iff not full; then appends; otherwise nothing changes |
| ArrayVecs.ArrayVec.TryPushVal | src/arrayvec.rs:455-462 | as `try_push`, and the error hands back the rejected value |
| ArrayVecs.ArrayVec.PopUnchecked | src/arrayvec.rs:525-531 | returns the last element, removes it, and wipes exactly its slot |
| ArrayVecs.ArrayVec.Pop | src/arrayvec.rs:500-506 | None iff empty; otherwise returns and removes the last element and wipes its slot |
| ArrayVecs.ArrayVec.Truncate | src/arrayvec.rs:569-593 | keeps the first `n` elements and wipes exactly slots `n..len`; no change when `n >= len` |
| ArrayVecs.ArrayVec.TryFromIter | src/arrayvec.rs:649-668 | succeeds iff the items fit in `C`; the vector then holds them in order |
| ArrayVecs.ArrayVec.InsertUnchecked | src/arrayvec.rs:844-850 | inserts at `index`, shifting the tail up one slot |
| ArrayVecs.ArrayVec.TryInsert | src/arrayvec.rs:748-760 | InvalidIndex iff `index > len`; InsufficientCapacity iff the index is valid and the vector is full; otherwise inserts |
| ArrayVecs.ArrayVec.TryInsertVal | src/arrayvec.rs:803-814 | as `try_insert`, and the error carries the value |
| ArrayVecs.ArrayVec.RemoveUnchecked | src/arrayvec.rs:949-957 | returns element `index`, shifts the tail down, and wipes the last slot |
| ArrayVecs.ArrayVec.TryRemove | src/arrayvec.rs:915-921 | None iff `index >= len`; otherwise removes as `remove_unchecked` |
| ArrayVecs.ArrayVec.SwapRemoveUnchecked | src/arrayvec.rs:1037-1046 | returns element `index`, moves the last element into its place, and wipes the last slot |
| ArrayVecs.ArrayVec.TrySwapRemove | src/arrayvec.rs:1009-1015 | None iff `index >= len`; otherwise swap-removes |
| ArrayVecs.ArrayVec.RetainGuardDrop | src/arrayvec/retain.rs:22-43 | the guard sets the length to `n - deleted` and closes the gap |
| ArrayVecs.ArrayVec.RetainFinish | src/arrayvec.rs:1205-1223 | after the loops the contents and closure state are exactly `Retained` of the original |
| ArrayVecs.ArrayVec.RetainMut | src/arrayvec.rs:1172-1223 | the new contents and final closure state are `Retained(f, st, old contents)`; the spare area is untouched |
| ArrayVecs.ArrayVec.TryResizeWith | src/arrayvec.rs:1391-1409 | Err iff `new_len > C`; shrinking truncates and wipes; growing appends the generator's outputs in call order |
| ArrayVecs.ArrayVec.TryResize | src/arrayvec.rs:1490-1505 | as `try_resize_with` with copies of `value` |
| ArrayVecs.ArrayVec.CopyFromSliceUnchecked | src/arrayvec.rs:1622-1627 | appends the slice, writing exactly slots `len..len+n` |
| ArrayVecs.ArrayVec.TryCopyFromSlice | src/arrayvec.rs:1592-1598 | succeeds iff the slice fits in the spare capacity; then appends; otherwise nothing changes |
| ArrayVecs.ArrayVec.CloneFromUnchecked | src/arrayvec.rs:1515-1526 | fills an empty vector with the slice |
| ArrayVecDrains.ResolveRange | src/arrayvec.rs:1079-1101 | a resolved range `(start, end)` satisfies `start <= end <= len` |
| ArrayVecDrains.ResolveRangeLaws | src/arrayvec.rs:1079-1101 | `a..b` resolves iff `a <= b <= len`; `..=b` is `..b+1`; `..` is `0..len`; an end past `len` is the end-bound panic; `..=usize::MAX` is the overflow panic |
| ArrayVecDrains.Drain.Make | src/arrayvec.rs:1119-1124 | the iterator records the vector, the tail position and length, and the drained range |
| ArrayVecDrains.Drain.Next | src/arrayvec/drain.rs:93-97 | yields the first remaining element, or None when none remain |
| ArrayVecDrains.Drain.NextBack | src/arrayvec/drain.rs:112-116 | yields the last remaining element, or None when none remain |
| ArrayVecDrains.Drain.SizeHint | src/arrayvec/drain.rs:100-102 | exactly the number of remaining elements, as both bounds |
| ArrayVecDrains.Drain.Len | src/arrayvec/drain.rs:126-128 | the number of remaining elements |
| ArrayVecDrains.Drain.AsSlice | src/arrayvec/drain.rs:47-49 | the remaining elements |
| ArrayVecDrains.Drain.GuardDrop | src/arrayvec/drain.rs:146-171 | the kept head is rejoined with the tail and the freed slots are wiped |
| ArrayVecDrains.Drain.GuardDropTail | src/arrayvec/drain.rs:158-166 | with a tail: the tail moves down to the end of the head and the vacated slots are wiped |
| ArrayVecDrains.Drain.GuardDropGap | src/arrayvec/drain.rs:167-169 | without a tail: the drained slots are wiped |
| ArrayVecDrains.Drain.Drop | src/arrayvec/drain.rs:181-216 | an empty range changes nothing; otherwise the vector becomes head + tail, the remaining elements are dropped once each, and the slots are wiped as the guard does |
| ArrayVecDrains.MoveTailDown | src/arrayvec/drain.rs:161-164 | `ptr::copy` of the tail down, then `SM::init` over the vacated slots |
| ArrayVecDrains.CloseTail | src/arrayvec/drain.rs:158-166 | as `MoveTailDown`, and the array then holds head + tail followed by the pattern |
| ArrayVecDrains.DrainResolved | src/arrayvec.rs:1103-1126 | the vector keeps the head; the iterator holds `start..end` and the tail; an empty range is marked and leaves the vector alone |
| ArrayVecDrains.StartDrain | src/arrayvec.rs:1075-1126 | a bad range panics exactly as `ResolveRange` says, without changing the vector; otherwise as `DrainResolved` over the resolved bounds |
| ArrayVecDrains.DrainClosesUp | src/arrayvec.rs:1075-1126 | `drain(start..end)` and then dropping the iterator: the drained elements are `old[start..end]` and the vector holds `old[..start] + old[end..]`, empty range included, so it loses exactly `end - start` elements |
| ArrayVecDrains.NonEmptyDrainIsNotMarked | src/arrayvec.rs:1114-1117 | a non-empty drain cannot collide with the empty-range marker `tail = tail_len = L::MAX` |
| ArrayVecTraits.TryFromSlice | src/arrayvec/traits/try_from.rs:17-47 | `TryFrom<&[T]>` succeeds iff the slice fits in `C` and then holds it |
| ArrayVecTraits.TryFromArray | src/arrayvec/traits/try_from.rs:58-69 | `TryFrom<[T; N]>` succeeds iff `N <= C` and then holds the array |
| ArrayVecTraits.Extend | src/arrayvec/traits/extend.rs:38-42 | Ok iff all items fit; otherwise the vector is filled to capacity with a prefix of the items and the call panics |
| ArrayVecTraits.Clone | src/arrayvec/traits/clone.rs:9-13 | a fresh vector with the same elements and parameters |
| ArrayVecTraits.CloneFrom | src/arrayvec/traits/clone.rs:16-19 | the target ends with the source's elements, its old elements having been dropped |
| ArrayVecTraits.Write | src/arrayvec/traits/io_write.rs:14-18 | `io::Write::write` appends `min(buf.len(), spare)` bytes, returns that count, and never fails |
| ArrayVecTraits.Flush | src/arrayvec/traits/io_write.rs:21-23 | always Ok |
| ArrayVecTraits.WriteExample | src/arrayvec/traits/io_write.rs:35-58 | the test: writes of 11, 5 and 0 bytes into 16 bytes of capacity, and the resulting bytes |
| Utf8.DecodeEncode | src/arraystring.rs:450-459 | decoding the first character of `encode(c) + t` gives back `c` with its length |
| Utf8.EncodeInjective | src/arraystring.rs:450-459 | distinct characters have distinct encodings |
| Utf8.LastChar | src/arraystring.rs:450-459 | the last character of a valid string: it starts on a boundary and the string is the rest followed by its encoding |
| Utf8.LastCharStartIsLast | src/arraystring.rs:450-459 | the last character's start is a boundary and the prefix before it is valid |
| Utf8.CharAt | src/arraystring.rs:658-681 | the character at a boundary: its encoding is the bytes there, and removing them leaves a valid string |
| Utf8.RemoveChar | src/arraystring.rs:658-681 | removing the character that starts at a boundary leaves valid UTF-8 |
| Utf8.InsertValid | src/arraystring.rs:585-604 | inserting valid UTF-8 at a boundary keeps the string valid |
| Utf8.FitLen | src/arraystring.rs:371-386 | the longest prefix that fits in `room` and ends on a character boundary; the whole input iff it fits |
| Utf8.EuroExamples | src/arraystring/format.rs:52-57 | '€' is three bytes, so "25€" has no boundary at 3 or 4 |
| ArrayStrings.ArrayString.New | src/arraystring.rs:101-105 | an empty string of capacity `C`; under a pattern policy every byte holds the pattern |
| ArrayStrings.ArrayString.FromBytes | src/arraystring/traits/try_from.rs:14-25 | a string holding exactly the given valid bytes |
| ArrayStrings.ArrayString.AsBytes | src/arraystring.rs:179-181 | the content is valid UTF-8 of length `len <= C` |
| ArrayStrings.ArrayString.Len | src/arraystring.rs:149-151 | the byte length, at most `C` |
| ArrayStrings.ArrayString.IsEmpty | src/arraystring.rs:165-167 | true iff there are no bytes |
| ArrayStrings.ArrayString.SpareCapacity | src/arraystring.rs:87-89 | spare plus length is `C` |
| ArrayStrings.ArrayString.Clear | src/arraystring.rs:228-234 | empties the string and wipes exactly the old content bytes |
| ArrayStrings.ArrayString.PushUnchecked | src/arraystring.rs:312-315 | appends the UTF-8 encoding of `ch` |
| ArrayStrings.ArrayString.TryPush | src/arraystring.rs:287-293 | succeeds iff the encoding fits in the spare capacity; then appends it; otherwise nothing changes |
| ArrayStrings.ArrayString.PushStrUnchecked | src/arraystring.rs:430-434 | appends the bytes of `s` |
| ArrayStrings.ArrayString.TryPushStr | src/arraystring.rs:405-411 | succeeds iff `s` fits; then appends it; otherwise nothing changes |
| ArrayStrings.ArrayString.AddStr | src/arraystring.rs:371-386 | appends the longest prefix of `s` that fits and ends on a character boundary, returning its length; the whole of `s` iff it fits |
| ArrayStrings.ArrayString.Pop | src/arraystring.rs:450-459 | None iff empty; otherwise the old string is the new one followed by the popped character, whose bytes are wiped |
| ArrayStrings.ArrayString.TryInsert | src/arraystring.rs:515-534 | InvalidIndex iff `idx` is not a boundary; InsufficientCapacity iff it is one and the character does not fit; otherwise splices the encoding in at `idx` |
| ArrayStrings.ArrayString.TryInsertStr | src/arraystring.rs:585-604 | the same for a string |
| ArrayStrings.ArrayString.TryRemove | src/arraystring.rs:658-681 | Err iff `idx` is not a boundary or `idx >= len`; otherwise removes the character starting at `idx` so that splicing it back restores the string, and wipes the freed tail |
| ArrayStrings.ArrayString.CloneFrom | src/arraystring/traits/clone.rs:21-33 | takes the source's content; old bytes beyond the new length are wiped |
| ArrayStrings.ArrayString.TryTruncate | src/arraystring.rs:730-746 | Err iff `n < len` and `n` is not a boundary; otherwise keeps the first `n` bytes and wipes the rest |
| ArrayStringTraits.TryFromStr | src/arraystring/traits/try_from.rs:14-38 | `TryFrom<&str>` succeeds iff the bytes fit in `C` and then holds them |
| ArrayStringTraits.TryFromChar | src/arraystring/traits/try_from.rs:49-60 | `TryFrom<char>` succeeds iff the encoding fits and then holds it |
| ArrayStringTraits.Clone | src/arraystring/traits/clone.rs:10-18 | a fresh string with the same content and parameters |
| ArrayStringTraits.ConcatValid | src/arraystring/format.rs:63-72 | the concatenation of valid format fragments is valid UTF-8 |
| ArrayStringTraits.ConcatSnoc | src/arraystring/format.rs:63-72 | writing one more fragment extends the output by that fragment |
| ArrayStringTraits.FitCount | src/arraystring/traits/fmt_write.rs:18-25 | the number of leading fragments a failing `write!` gets through |
| ArrayStringTraits.FitCountMaximal | src/arraystring/traits/fmt_write.rs:18-25 | the fragments counted fit in the room, and one more would not |
| ArrayStringTraits.WriteStr | src/arraystring/traits/fmt_write.rs:18-20 | `fmt::Write::write_str` succeeds iff `s` fits; then appends; otherwise nothing changes |
| ArrayStringTraits.WriteChar | src/arraystring/traits/fmt_write.rs:23-25 | `write_char` succeeds iff the encoding fits; then appends it |
| ArrayStringTraits.WriteFragment | src/arraystring/traits/fmt_write.rs:18-25 | one fragment of a `write!` succeeds iff it fits and then appends |
| ArrayStringTraits.WriteFmt | src/arraystring/traits/fmt_write.rs:35-65 | `write!` is Ok iff every fragment fits; the output is the original followed by the fragments that fit before the first failure |
| ArrayStringTraits.WriteNext | src/arraystring/traits/fmt_write.rs:18-25 | one loop step of `write!` extends the written prefix, or stops exactly at the first fragment that does not fit |
| ArrayStringTraits.FmtStep | src/arraystring/traits/fmt_write.rs:18-25 | the count of fitting fragments advances by one with each fragment written |
| ArrayStringTraits.FitCountAt | src/arraystring/traits/fmt_write.rs:18-25 | the fitting count from fragment `k` on is 0 if it does not fit, and one more than the count after it otherwise |
| ArrayStringTraits.LossyWriter.constructor | src/arraystring/format.rs:63-72 | the writer wraps the target string |
| ArrayStringTraits.LossyWriter.WriteStr | src/arraystring/format.rs:14-17 | always Ok; appends the longest prefix that fits and ends on a character boundary |
| ArrayStringTraits.LossyWriter.WriteChar | src/arraystring/format.rs:20-23 | always Ok; appends the character iff it fits |
| ArrayStringTraits.LossyWriter.WriteFragment | src/arraystring/format.rs:14-23 | applies one lossy step |
| ArrayStringTraits.LossyWriter.WriteFmt | src/arraystring/format.rs:63-72 | always Ok; the output is `Lossy` of the fragments |
| ArrayStringTraits.LossyAt | src/arraystring/format.rs:63-72 | lossy formatting is one step followed by the rest |
| ArrayStringTraits.LossyBounded | src/arraystring/format.rs:63-72 | the lossy output never exceeds the capacity and extends what was there |
| ArrayStringTraits.LossyStepBounded | src/arraystring/format.rs:14-23 | one lossy step stays within the capacity and only appends |
| ArrayStringTraits.LossyWhole | src/arraystring/format.rs:63-72 | when everything fits, nothing is lost |
| ArrayStringTraits.FormatLossy | src/arraystring/format.rs:63-72 | `format_lossy!` returns a string of capacity `C` holding `Lossy` of the fragments |
| ArrayStringTraits.LossyExamples | src/arraystring/format.rs:49-91 | "2€€" into 5 bytes is "2€"; anything into 0 bytes is ""; "25€" into 4 bytes is "25" |
| ArrayStringTraits.WriteFmtExamples | src/arraystring/traits/fmt_write.rs:35-65 | "Hello, world!" into 7 bytes gets through only "Hello, "; '€' does not fit in 1 byte |
| SmallVecs.Buffer.New | src/smallvec/buffer.rs:47-51 | a fresh buffer with a local array of `C` slots, the policy applied, heap length 0 |
| SmallVecs.Buffer.SetHeap | src/smallvec/buffer.rs:69-72 | sets both heap pointer and heap length |
| SmallVecs.Buffer.SetHeapPtr | src/smallvec/buffer.rs:75-77 | sets the heap pointer, keeping the length |
| SmallVecs.Buffer.SetHeapLen | src/smallvec/buffer.rs:80-82 | sets the heap length, keeping the pointer |
| SmallVecs.Buffer.HeapLenAddAssign | src/smallvec/buffer.rs:85-87 | adds to the heap length |
| SmallVecs.SmallVec.New | src/smallvec.rs:152-158 | an empty, local vector |
| SmallVecs.SmallVec.Len | src/smallvec.rs:406-413 | the number of elements, read from `capacity` when local and from the heap length otherwise; at most the capacity |
| SmallVecs.SmallVec.Capacity | src/smallvec.rs:225-231 | `C` when local, the heap array's size otherwise; between `C` and `L::MAX`; above `C` iff on the heap |
| SmallVecs.SmallVec.IsLocal | src/smallvec.rs:135-137 | true iff the data is in the local array |
| SmallVecs.SmallVec.SpareCapacity | src/smallvec.rs:250-261 | spare plus length is the capacity |
| SmallVecs.SmallVec.IsFull | src/smallvec.rs:449-458 | true iff the length equals the capacity |
| SmallVecs.SmallVec.IsEmpty | src/smallvec.rs:431-433 | true iff there are no elements |
| SmallVecs.SmallVec.AsSlice | src/smallvec.rs:498-501 | the elements in order |
| SmallVecs.SmallVec.SetLen | src/smallvec.rs:480-494 | writes the length into `capacity` (local) or the heap length (heap) and changes nothing else |
| SmallVecs.SmallVec.DropGuard | src/smallvec/buffer.rs:156-160 | an armed `SetLenOnDrop` stores its length on drop; an unarmed one changes nothing |
| SmallVecs.SmallVec.Promote | src/smallvec.rs:692-739 | moving from local to a fresh heap array of `new_cap` keeps the elements |
| SmallVecs.SmallVec.GrowHeap | src/smallvec.rs:740-785 | reallocating the heap array to `new_cap` keeps the elements |
| SmallVecs.SmallVec.ReserveCore | src/smallvec.rs:674-786 | succeeds iff `Reserved` does, with the same error; on success the capacity is `Reserved`'s and covers `len + additional`; contents unchanged; a changed capacity means a fresh heap array |
| SmallVecs.SmallVec.TryReserve | src/smallvec.rs:614-628 | amortized reservation: as `Reserved` with power-of-two growth; failure changes nothing |
| SmallVecs.SmallVec.TryReserveExact | src/smallvec.rs:658-671 | exact reservation: as `Reserved` with exact growth |
| SmallVecs.SmallVec.WithCapacity | src/smallvec.rs:191-195 | an empty vector whose capacity is the exact reservation of `n`; on the heap iff `n > C` |
| SmallVecs.SmallVec.AppendOne | src/smallvec.rs:872-875 | appends into spare capacity without moving the buffer |
| SmallVecs.SmallVec.TryPush | src/smallvec.rs:842-877 | succeeds iff reserving one more succeeds; then appends with the reserved capacity; otherwise nothing changes |
| SmallVecs.SmallVec.Pop | src/smallvec.rs:893-933 | None iff empty; otherwise returns and removes the last element; the capacity is unchanged |
| SmallVecs.SmallVec.Truncate | src/smallvec.rs:956-980 | keeps the first `n` elements; the capacity and the heap array are unchanged |
| SmallVecs.SmallVec.Clear | src/smallvec.rs:993-995 | empties the vector, keeping its capacity |
| SmallVecs.SmallVec.InsertSpare | src/smallvec.rs:1176-1181 | inserts at `index` within spare capacity |
| SmallVecs.SmallVec.TryInsert | src/smallvec.rs:1127-1183 | InvalidIndex iff `index > len`; otherwise the reservation's error or the insertion |
| SmallVecs.SmallVec.TryRemove | src/smallvec.rs:1237-1276 | None iff `index >= len`; otherwise returns and removes element `index` |
| SmallVecs.SmallVec.TrySwapRemove | src/smallvec.rs:1325-1364 | None iff `index >= len`; otherwise returns it and moves the last element into its place |
| SmallVecs.SmallVec.RetainGuardDrop | src/smallvec/retain.rs:22-42 | the guard sets the length to `n - deleted` and closes the gap |
| SmallVecs.SmallVec.RetainFinish | src/smallvec.rs:1452-1469 | after the loops the contents and closure state are `Retained` of the original |
| SmallVecs.SmallVec.RetainMut | src/smallvec.rs:1410-1469 | the new contents and closure state are `Retained(f, st, old contents)`; the capacity is unchanged |
| SmallVecs.SmallVec.ExtendStep | src/smallvec.rs:1050-1061 | one item of `extend`: appends it, reserving one more when full; fails only by reservation |
| SmallVecs.SmallVec.TryExtend | src/smallvec.rs:1035-1066 | reserves for the size hint, then appends a prefix of the items: all of them on Ok; fails iff a reservation fails; always fails past `L::MAX` |
| SmallVecs.SmallVec.ExtendLoop | src/smallvec.rs:1047-1065 | the loop appends the items in order until a reservation fails, and the guard stores the length |
| SmallVecs.SmallVec.ReserveFor | src/smallvec.rs:1559-1593 | makes room for `new_len` elements by power-of-two growth (`next_power_of_two_or_max`), or reports the reservation's error |
| SmallVecs.SmallVec.FillWith | src/smallvec.rs:1595-1605 | appends generator outputs up to `new_len`, in call order |
| SmallVecs.SmallVec.Fill | src/smallvec.rs:1818-1836 | appends copies of `value` up to `new_len` |
| SmallVecs.SmallVec.TryResizeWith | src/smallvec.rs:1548-1608 | shrinking truncates; growing reserves and appends the generator's outputs; Err iff growing and the reservation fails |
| SmallVecs.SmallVec.TryResize | src/smallvec.rs:1774-1838 | as `try_resize_with` with copies of `value` |
| SmallVecs.SmallVec.CopySpare | src/smallvec.rs:1930-1931 | copies a slice into spare capacity |
| SmallVecs.SmallVec.TryCopyFromSlice | src/smallvec.rs:1900-1934 | succeeds iff reserving the slice's length succeeds; then appends it |
| SmallVecs.SmallVec.CloneFromSliceUnchecked | src/smallvec.rs:1938-1951 | appends a clone of each element of the slice |
| SmallVecs.SmallVec.TryFromIter | src/smallvec.rs:1017-1032 | a fresh vector holding exactly the items, or the reservation error of the size hint; always fails past `L::MAX` |
| SmallVecs.PromotedStores | src/smallvec.rs:692-739 | copying the local elements into a bigger array, with the policy over the rest, stores the same elements |
| SmallVecDrains.Drain.Make | src/smallvec.rs:1637-1688 | the iterator records the vector, tail and range |
| SmallVecDrains.Drain.Next | src/smallvec/drain.rs:90-94 | yields the first remaining element, or None |
| SmallVecDrains.Drain.NextBack | src/smallvec/drain.rs:109-113 | yields the last remaining element, or None |
| SmallVecDrains.Drain.SizeHint | src/smallvec/drain.rs:97-99 | the exact number remaining, as both bounds |
| SmallVecDrains.Drain.Len | src/smallvec/drain.rs:123-125 | the number remaining |
| SmallVecDrains.Drain.AsSlice | src/smallvec/drain.rs:44-46 | the remaining elements |
| SmallVecDrains.Drain.GuardDrop | src/smallvec/drain.rs:143-169 | rejoins head and tail in the same array and wipes the freed slots; the capacity is unchanged |
| SmallVecDrains.Drain.GuardDropTail | src/smallvec/drain.rs:143-169 | with a tail: moves it down and wipes the vacated slots |
| SmallVecDrains.Drain.GuardDropGap | src/smallvec/drain.rs:143-169 | without a tail: wipes the drained slots |
| SmallVecDrains.Drain.Drop | src/smallvec/drain.rs:179-217 | an empty range changes nothing; otherwise the vector becomes head + tail and each remaining element is dropped once |
| SmallVecDrains.DrainResolved | src/smallvec.rs:1637-1688 | the vector keeps the head; the iterator holds `start..end` and the tail |
| SmallVecDrains.StartDrain | src/smallvec.rs:1637-1688 | a bad range panics as `ResolveRange` says without changing the vector; otherwise as `DrainResolved` |
| SmallVecTraits.TryFromSlice | src/smallvec/traits/try_from.rs:17-43 | `TryFrom<&[T]>` holds the slice with the exact reservation for it, local iff it fits in `C`; the reservation's error otherwise |
| SmallVecTraits.TryFromArray | src/smallvec/traits/try_from.rs:54-63 | the same for `[T; N]` |
| SmallVecTraits.TryFromArrayExample | src/smallvec/traits/try_from.rs:111-116 | `[5, 6, 7]` with `C = 2` goes to a heap array of exactly 3 |
| SmallVecTraits.Clone | src/smallvec/traits/clone.rs:15-29 | a fresh vector with the same elements, local iff they fit in `C`, else with exactly their count as capacity |
| SmallVecTraits.CloneFrom | src/smallvec/traits/clone.rs:32-55 | the target takes the source's elements, growing exactly when they do not fit |
| SmallVecTraits.Extend | src/smallvec/traits/extend.rs:21-24 | Ok means all items were appended; failure (a panic) is a reservation error after a prefix |
| SmallVecTraits.ExtendCapacityExamples | src/smallvec/traits/extend.rs:50-70 | the capacities of the extend test with `C = 6` over `U8`: reserving a hint of 5 keeps 6 when empty and gives 16 at length 5; growing by one from 6 and from 8 gives 8 and 16 |
| SmallVecTraits.ExtendOverflowExample | src/smallvec/traits/extend.rs:74-80 | extending past `U8::MAX` fails |
| SmallVecTraits.Write | src/smallvec/traits/io_write.rs:14-18 | `io::Write::write` appends all of `buf` iff the amortized reservation succeeds; otherwise OutOfMemory and nothing changes |
| SmallVecTraits.Flush | src/smallvec/traits/io_write.rs:21-23 | always Ok |
| SmallVecTraits.WriteExample | src/smallvec/traits/io_write.rs:32-39 | writes of 11, 9 and 0 bytes and the resulting content |
| SmallVecTraits.WriteOutOfMemoryExample | src/smallvec/traits/io_write.rs:42-51 | writing to a full `U8` vector is OutOfMemory |
| SmallVecTraits.Drop | src/smallvec/traits/drop.rs:13-23 | drops all elements and frees the heap array iff there is one |
| SmallStrings.Buffer.New | src/smallstring/buffer.rs:74-78 | a fresh buffer with a `C`-byte local array, the policy applied |
| SmallStrings.Buffer.LocalFromBytes | src/smallstring/buffer.rs:81-85 | a local buffer holding the bytes |
| SmallStrings.Buffer.Heap | src/smallstring/buffer.rs:88-99 | a buffer over a given heap array and length |
| SmallStrings.Buffer.SetHeap | src/smallstring/buffer.rs:143-146 | sets heap pointer and length |
| SmallStrings.Buffer.SetHeapPtr | src/smallstring/buffer.rs:149-151 | sets the heap pointer only |
| SmallStrings.Buffer.SetHeapLen | src/smallstring/buffer.rs:138-140 | sets the heap length only |
| SmallStrings.HeapBuffer | src/smallstring.rs:67-71 | a fresh buffer with an empty heap array of `n` bytes, the policy applied |
| SmallStrings.SmallString.New | src/smallstring.rs:59-64 | an empty, local string |
| SmallStrings.SmallString.WithCapacity | src/smallstring.rs:95-104 | an empty string with capacity `C`, or exactly `n` on the heap when `n > C` |
| SmallStrings.SmallString.TryFromBytes | src/smallstring.rs:402-420 | holds exactly the bytes, local iff they fit in `C`, else on a heap array of exactly their length; the reservation's error otherwise |
| SmallStrings.SmallString.AsBytes | src/smallstring.rs:176-184 | valid UTF-8 no longer than the capacity |
| SmallStrings.SmallString.Len | src/smallstring.rs:141-148 | the byte length, at most the capacity |
| SmallStrings.SmallString.Capacity | src/smallstring.rs:108-110 | `C` when local, the heap size otherwise; above `C` iff on the heap |
| SmallStrings.SmallString.IsEmpty | src/smallstring.rs:162-164 | true iff there are no bytes |
| SmallStrings.SmallString.SetLen | src/smallstring.rs:141-148 | writes the length to the field that holds it |
| SmallStrings.SmallString.Promote | src/smallstring.rs:350-376 | moving from local to a fresh heap array keeps the content |
| SmallStrings.SmallString.GrowHeap | src/smallstring.rs:377-399 | reallocating the heap array keeps the content |
| SmallStrings.SmallString.ReserveCore | src/smallstring.rs:344-400 | the capacity becomes `Reserved`'s result, which covers `len + additional`; the content is unchanged |
| SmallStrings.SmallString.Reserve | src/smallstring.rs:310-333 | amortized reservation; the content is unchanged |
| SmallStrings.SmallString.ReserveExact | src/smallstring.rs:322-341 | exact reservation; the content is unchanged |
| SmallStrings.SmallString.Clear | src/smallstring.rs:238-253 | empties the string and wipes the old bytes; the capacity is unchanged |
| SmallStrings.SmallString.Truncate | src/smallstring.rs:273-302 | keeps the first `n` bytes and wipes the rest |
| SmallStrings.SmallString.AppendSpare | src/smallstring.rs:443-466 | appends bytes into spare capacity |
| SmallStrings.SmallString.PushStr | src/smallstring.rs:438-466 | reserves, then appends `s` |
| SmallStrings.SmallString.Push | src/smallstring.rs:480-503 | reserves, then appends the encoding of `ch` |
| SmallStrings.SmallString.Pop | src/smallstring.rs:519-546 | None iff empty; otherwise the old string is the new one followed by the popped character, whose bytes are wiped |
| SmallStrings.SmallString.Insert | src/smallstring.rs:565-597 | reserves, then splices the encoding of `ch` in at the boundary `idx` |
| SmallStrings.SmallString.InsertStr | src/smallstring.rs:617-649 | reserves, then splices `s` in at the boundary `idx` |
| SmallStrings.SmallString.Remove | src/smallstring.rs:668-701 | removes and returns the character at `idx`; splicing it back restores the string; the freed tail is wiped |
| SmallStrings.PushStrExample | src/smallstring/test_smallstring.rs:111-138 | the `push_str` test: capacities 4, 4, 8 and final length 5 |
| SmallStrings.PushExample | src/smallstring/test_smallstring.rs:141-177 | the `push` test: length 5 with capacity 8, then length 11 with capacity 16 |
| SmallStringTraits.TryFromStr | src/smallstring/traits/try_from.rs:16-44 | `TryFrom<&str>` holds `s`, local iff it fits, else on a heap array of exactly `s.len()`; the reservation's error otherwise |
| SmallStringTraits.TryFromChar | src/smallstring/traits/try_from.rs:55-62 | `TryFrom<char>` holds the encoding, local iff it fits |
| SmallStringTraits.TryFromStrExample | src/smallstring/traits/try_from.rs:75-80 | "cds" stays local (capacity 4); "hello, world!" moves to 13 bytes on the heap |
| SmallStringTraits.TryFromCharExample | src/smallstring/traits/try_from.rs:101-116 | 1- and 2-byte characters stay local in `C = 2`; 3- and 4-byte ones move to the heap with exact capacity |
| SmallStringTraits.Drop | src/smallstring/traits/drop.rs:12-19 | clears the string and frees the heap array iff there is one |
| ZstDrains.ZstTruncate | src/arrayvec.rs:569-593 | for zero-sized elements, truncation lowers the length and drops each removed element once |
| ZstDrains.ArrayVecZstDrainDrop | src/arrayvec/drain.rs:189-195 | the `ArrayVec` drain drop, as written, for zero-sized elements: drops `tail - head` elements whatever `next()` already took |
| ZstDrains.ZstDrainDrop | src/smallvec/drain.rs:192-199 | the drain drop for zero-sized elements drops the remaining ones and restores the tail length |
| ZstDrains.ZstDrainDropsEachOnce | src/smallvec/drain.rs:192-199 | however many elements were taken, each drained element is dropped exactly once in total |
| ZstDrains.ArrayVecZstDropsOnceIffUntouched | src/arrayvec/drain.rs:189-195 | the as-written drop count is right iff nothing was taken from the iterator |
| ZstDrains.ArrayVecZstDoubleDrop | src/arrayvec/drain.rs:189-195 | two ZSTs, `drain(0..2)`, one `next()`, then drop: three drops as written, two as intended |
| ZstDrains.ZstDrainTest | src/smallvec/test_smallvec.rs:2031-2078 | the ZST drain test's lengths and drop counts |

## Left out

- **Zero-sized element types.** The ZST branches of every operation are left out; the elements are assumed to have a positive size.
  - The exceptions are truncation and the drain drop count, module `ZstDrains`, because that is where the finding below lies.
- **Allocator internals.**
  - `alloc`, `realloc`, `dealloc` and `handle_alloc_error` are reduced to the `grants` parameter.
  - Freeing is reported as a boolean by `Drop`.
- **Freed arrays.** `GrowHeap` and `Drop` hand the live part of a heap array to the policy before it is freed, but no contract states the freed array's final bytes, because nothing can reach that array afterwards.
- **Panicking wrappers.** These are thin wrappers that panic where the `try_` form returns an error; their behaviour is the `try_` member's:
  - `ArrayVec::push`, `insert`, `remove`, `swap_remove`, `resize`, `resize_with`, `copy_from_slice`;
  - `ArrayString::push`, `push_str`, `insert`, `insert_str`, `remove`, `truncate`;
  - `SmallVec::push`, `insert`, `reserve`, `reserve_exact`, `resize`, `resize_with`, `copy_from_slice`, `from_iter`, `extend`.
- **`clear` and `retain`.** `ArrayVec::clear` is `truncate(0)`, and `retain` is `retain_mut` with a stateless closure; both are covered by those members and `SeqOps.RetainedIsFilter`.
- **`SmallVec::has_spare_capacity` and `is_heap`.** These are the negations of `IsFull` and `IsLocal`.
- **Unsafe raw views.** These are `as_ptr`, `as_mut_ptr`, `as_mut_slice`, `as_mut_str`, `spare_capacity_mut` and `split_at_spare_mut`.
  - Iteration by reference is also left out, because it hands out aliases rather than changing state.
- **Other traits and the macros.** Left out because they are comparisons, formatting or indexing over `AsSlice`/`AsBytes`:
  - `Deref`, `AsRef`, `Borrow`, `Eq`, `Ord`, `Hash`, `Debug`, `Display` (other than the error messages), `Index`, `FromIterator`, `Default`;
  - the `array_vec!`, `small_vec!` and `aformat!` macros.
- **Tools outside the library.** The fuzz targets, benchmarks and test drop trackers are not part of the library.
- **Panic safety.** A closure or `Drop` that panics part-way is not modelled; every guard is dropped normally.
- **The buffer union.** The `SmallVec` and `SmallString` buffers are modelled as two separate fields, a local array and a heap pair, not as a union.
  - In the code the heap pair overwrites the first bytes of the local array once the data moves to the heap.
  - `SmallStrings.Buffer.Heap` therefore states pattern bytes in the local array that the code partly overwrites. Nothing reads the local array afterwards, because a container never returns to local storage.
- **Uninitialized spare memory.** Under `Uninitialized` the content of spare memory is unspecified; the model records stale copies but promises nothing about them.
- **Formatting.** The formatting machinery is reduced to a sequence of fragments, each a valid string or a `char`. Number formatting is not modelled.
- ArrayVecs.ArrayVec.New: requires `C <= L::MAX`, as `ArrayVec::new` asserts.
  - `ArrayString::new`, `SmallVec::new` and `SmallString::new` do not assert it.
  - The model requires it for all four, because the length counter could not hold the capacity otherwise.
- SmallStrings.SmallString.Reserve: a failed reservation panics in the code; the model requires the reservation to succeed. The same holds for these members:
  - `ReserveExact`, `ReserveCore`, `PushStr`, `Push`, `Insert` and `InsertStr`;
  - `SmallStrings.SmallString.WithCapacity`;
  - `SmallVecs.SmallVec.WithCapacity`;
  - `SmallVecTraits.Clone` and `SmallVecTraits.CloneFrom`.
- SmallStrings.SmallString.Truncate: a non-boundary `new_len` panics in the code; the model requires a boundary. `SmallStrings.SmallString.Insert`, `InsertStr` and `Remove` likewise require `idx` to be a boundary, and `Remove` also requires `idx < len`.
- ArrayVecTraits.Extend: the panic on overflow is the `Err` outcome, which states the contents at the point of the panic.
- SmallVecTraits.Extend: the size hint is a parameter, and the reservation failure that panics is the `Err` outcome.
- ArrayVecDrains.Drain.Drop: the count of dropped elements is stated through `ZstDrains.ZstDrainDrop` (the corrected count), not through the as-written `ArrayVec` formula.
  - For sized elements the two agree, because `next()` has already read out the elements it took.

## Findings

| source | as written | input that shows it | evidently intended | confidence | as-written member | corrected member |
|---|---|---|---|---|---|---|
| src/arrayvec/drain.rs:189-195 | for zero-sized `T`, the drain's `drop` truncates to the head length, so it drops `tail - head` elements, counting elements already taken by `next()`/`next_back()` a second time | two zero-sized elements, `drain(0..2)`, one `next()` whose element the caller drops, then drop the drain: three drops run for two elements | drop only the elements still remaining, as `SmallVec`'s drain does at src/smallvec/drain.rs:192-199 | not executed | ZstDrains.ArrayVecZstDoubleDrop | ZstDrains.ZstDrainDropsEachOnce |
