# Big-endian bit strings (rust-bitstring), modelled in Dafny

This project models the core of the `bitstring` crate. The crate treats
a slice of unsigned machine words as one long bit string. In that string,
bit 0 is the most significant bit of word 0. On top of that it builds
fixed-length bit strings, an iterator over all values sharing a prefix,
and variable-length bit strings with a subset order and a lexicographic
order.

Layers, one module each:

- `BitSeq` (`bit_seq.dfy`): the abstract view, a `seq<bool>`.
  - `ToNat` gives the number a sequence spells.
  - `Bits(v, w)` gives the `w` bits of a word.
  - `BitAnd`/`BitOr`/`BitXor`/`BitNot` give the bitwise operators their meaning.
  - `CommonPrefixLen` is the reference definition of "shared prefix length".
- `Increment` (`increment.dfy`): `Succ` is "+1 with carry" on a bit sequence.
  `IncFrom(s, prefix)` increments the bits after `prefix` and leaves
  `s[..prefix]` alone. Every `inc` of the crate is proved against
  `IncFrom`.
- `Words` (`words.dfy`): the `element_*` functions of one `w`-bit word.
  - A word is a `nat` below `2^w`, with the width `w` a parameter. One
    generic model stands for the `u8` … `u128` instances.
  - `mask`, `mask_suffix`, `overflowing_add(1)`, `wrapping_add(1)` and
    `leading_zeros` are written out by their meaning.
- `Slices` (`slices.dfy`): the `slice_*` operations.
  - `Flat(s, w)` is the slice's bit string.
  - The in-place operations (`slice_inc`, `slice_set`, `slice_flip`,
    `slice_set_false_from`, `slice_set_true_from`) are methods on an
    `array<nat>` with the source's loops.
  - The read-only ones (`slice_shared_prefix_len`, `slice_contains`,
    `slice_is_*_from`) are methods on a `seq<nat>` with early returns.
    Each is proved against the flat view.
- `FixedBitStrings` (`fixed_bit_string.dfy`): the `FixedBitString` interface.
  - Class `FixedBits` is a bit string of `LEN = words.Length * w` bits
    stored in an array of words. Its required methods forward to the
    slice operations, as the crate's big-endian implementations do.
  - The default `flip` (get, then set) and the default `shared_prefix_len`
    (first-mismatch loop over `get`) are written as in the interface.
  - Class `PrefixIter` is the crate's `Iter`. Its ghost `pending` is the
    list `Yields(start, prefix)` of values still to come.
- `BitStrings` (`bit_string.dfy`): the default methods of the `BitString`
  interface, as functions on the string's bits: `shared_prefix_len`,
  `shared_prefix`, `subset_cmp` and `lexicographic_cmp`.
- `BitLengthStrings` (`bit_length_string.dfy`): `BitLengthString`, a
  `FixedBits` storage plus a length.
  - Its invariant (`Valid`) is that the length fits the storage and that
    every storage bit at or after the length is false.
  - Every method is proved to keep the invariant and to act on `Value()`
    (the first `len` bits) as the `BitString` definitions say.
- `Wrappers` (`wrappers.dfy`): `Option` and `Ordering`.

Panics of the source are preconditions. Where the documentation and the
code disagree about a panic, the model follows the code:

- `element_contains` and `slice_contains` are documented to panic at
  `prefix >= bits`, but the code accepts `prefix == bits`. The model
  requires `prefix <= bits`.
- `slice_inc` is documented to panic at `prefix > bits`, but the code
  only asserts that the prefix ends on a word boundary when it lies past
  the last word. `Slices.SliceInc` requires exactly that.

## Model

| member | source | states |
|---|---|---|
| BitSeq.CommonPrefixLenShared | src/utils/bigendian/int_helpers.rs:182-203 | the shared prefix length `r` of two bit strings within `maxLen` bits is at most `maxLen`, the bits agree below `r`, and they differ at `r` when `r < maxLen` |
| BitSeq.SharedPrefixLenUnique | src/utils/bigendian/int_helpers.rs:182-203 | that property holds of exactly one length, so any loop proved to establish it computes `CommonPrefixLen` |
| BitSeq.CommonPrefixLenSymmetric | src/utils/bigendian/int_helpers.rs:182-203 | the shared prefix length is symmetric in the two strings |
| BitSeq.CommonPrefixLenFull | src/utils/bigendian/int_helpers.rs:332-344 | the whole bound is shared exactly when the first `maxLen` bits are equal, so `contains(a, p, b)` holds iff `shared_prefix_len(a, b, p) == p` |
| BitSeq.CommonPrefixCap | src/utils/bigendian/int_helpers.rs:194-202 | comparing fewer bits caps the shared prefix length at the smaller bound (the `min(max_len, …)` of the last word) |
| BitSeq.CommonPrefixLenOfPrefixes | src/bit_length_string.rs:99-102 | the shared prefix length within `maxLen` bits depends only on the first `maxLen` bits of each string |
| BitSeq.SetFromIsFrom | src/utils/bigendian/int_helpers.rs:222-258 | after a tail is set to `b` it tests as all `b`, the bits before it are unchanged, and an index past the end changes nothing |
| Increment.SuccValue | src/fixed_bit_string/traits.rs:11-17 | `+1` on a big-endian bit string adds one modulo `2^n` and overflows exactly when the sum reaches `2^n` |
| Increment.SuccOverflow | src/utils/bigendian/int_helpers.rs:80-86 | `+1` overflows exactly when every bit is set, and then every bit becomes clear |
| Increment.IncFromPrefix | src/fixed_bit_string/traits.rs:11-22 | incrementing with a protected prefix keeps the length and never touches the first `prefix` bits; with no free bit it returns the value unchanged with overflow |
| Increment.IncFromOverflow | src/utils/bigendian/int_helpers.rs:34-52 | the increment overflows exactly when every free bit was set, and then the free bits are cleared |
| Increment.IncFromValue | src/utils/bigendian/int_helpers.rs:72-89 | the free suffix read as a number becomes `(suffix + 1) mod 2^(n - prefix)` |
| Words.LeadingZeros | src/utils/bigendian/int_helpers.rs:177 | `leading_zeros` of a word is at most `w`; what it counts is stated by `XorLeadingZeros` |
| Words.OverflowingInc | src/utils/bigendian/int_helpers.rs:40-42 | the word's `overflowing_add(1)` stays a word; `OverflowingIncBits` and `ElementIncWhole` state that it is `+1` modulo `2^w` with carry out |
| Words.WrappingInc | src/utils/bigendian/int_helpers.rs:43 | the word's `wrapping_add(1)` stays a word; it is the first half of `OverflowingInc` |
| Words.Mask | src/utils/bigendian/int_helpers.rs:11-17 | `mask(ndx)` is a word; `MaskBits` states which bit it holds |
| Words.MaskSuffix | src/utils/bigendian/int_helpers.rs:19-26 | `mask_suffix(ndx)` is a word; `MaskSuffixBits` states which bits it holds |
| Words.ElementInc | src/utils/bigendian/int_helpers.rs:34-52 | value form of `make_element_inc`, branch for branch; the result stays a word, and `ElementIncSpec` proves it is the protected-prefix increment |
| Words.ElementGet | src/utils/bigendian/int_helpers.rs:96-99 | `element_get` as `value & mask(ndx) != 0`; `ElementGetSpec` proves it reads bit `ndx` |
| Words.ElementSet | src/utils/bigendian/int_helpers.rs:117-125 | value form of `make_element_set`; the result stays a word, and `ElementSetSpec` proves only bit `ndx` changes |
| Words.ElementFlip | src/utils/bigendian/int_helpers.rs:151-154 | `make_element_flip` as `value ^ mask(ndx)`; the result stays a word, and `ElementFlipSpec` proves only bit `ndx` is inverted |
| Words.ElementSharedPrefixLen | src/utils/bigendian/int_helpers.rs:175-178 | `element_shared_prefix_len` never exceeds `max_len`; `ElementSharedPrefixLenSpec` proves it is the shared prefix length |
| Words.ElementSetFalseFrom | src/utils/bigendian/int_helpers.rs:208-213 | value form of `element_set_false_from`; a word stays a word, and `ElementSetFalseFromSpec` proves which bits are cleared |
| Words.ElementIsFalseFrom | src/utils/bigendian/int_helpers.rs:239-244 | `element_is_false_from`, branch for branch; `ElementIsFalseFromSpec` proves what it tests |
| Words.ElementSetTrueFrom | src/utils/bigendian/int_helpers.rs:263-268 | value form of `element_set_true_from`; a word stays a word, and `ElementSetTrueFromSpec` proves which bits are set |
| Words.ElementIsTrueFrom | src/utils/bigendian/int_helpers.rs:294-299 | `element_is_true_from`, branch for branch; `ElementIsTrueFromSpec` proves what it tests |
| Words.ElementContains | src/utils/bigendian/int_helpers.rs:321-324 | `element_contains` as a masked xor test; `ElementContainsSpec` proves it compares the first `prefix` bits |
| Words.MaskBits | src/utils/bigendian/int_helpers.rs:11-17 | `mask(ndx)` has exactly one bit set, at `ndx mod w`; the index wraps |
| Words.MaskSuffixBits | src/utils/bigendian/int_helpers.rs:19-26 | `mask_suffix(ndx)` has exactly the bits from `ndx` on set, and none when `ndx == w` |
| Words.OverflowingIncBits | src/utils/bigendian/int_helpers.rs:80-86 | the word's `overflowing_add(1)` is `+1` with carry on its bits |
| Words.ElementIncSpec | src/utils/bigendian/int_helpers.rs:34-52 | `element_inc(v, p)` is the protected-prefix increment of the word's bits: prefix kept, free part plus one, all-ones free part wraps to zero with overflow |
| Words.ElementIncWhole | src/utils/bigendian/int_helpers.rs:40-42 | with no fixed bit, `element_inc` gives `(v + 1) mod 2^w` and overflows exactly when `v + 1 == 2^w` (the `prefix == w` end is `ElementIncSpec` with `Increment.IncFromPrefix`) |
| Words.ElementGetSpec | src/utils/bigendian/int_helpers.rs:96-99 | `element_get` reads bit `ndx` of the word |
| Words.ElementSetSpec | src/utils/bigendian/int_helpers.rs:117-125 | `element_set` makes bit `ndx` equal to `bit` and changes no other bit |
| Words.ElementFlipSpec | src/utils/bigendian/int_helpers.rs:151-154 | `element_flip` inverts bit `ndx` and no other |
| Words.ElementSharedPrefixLenSpec | src/utils/bigendian/int_helpers.rs:176-179 | `min(leading_zeros(a ^ b), max_len)` is the shared prefix length of the two words within `max_len` bits |
| Words.XorLeadingZeros | src/utils/bigendian/int_helpers.rs:189-191 | over a whole word, `leading_zeros(a ^ b)` is the shared prefix length, at most `w`, and equal to `w` exactly when `a ^ b == 0` |
| Words.XorZero | src/utils/bigendian/int_helpers.rs:189-190 | two words differ exactly when their xor is non-zero |
| Words.ElementSetFalseFromSpec | src/utils/bigendian/int_helpers.rs:208-213 | `element_set_false_from` clears the bits from `ndx` on, keeps the others, and does nothing for `ndx >= w` |
| Words.ElementSetTrueFromSpec | src/utils/bigendian/int_helpers.rs:263-268 | `element_set_true_from` sets the bits from `ndx` on, keeps the others, and does nothing for `ndx >= w` |
| Words.ElementIsFalseFromSpec | src/utils/bigendian/int_helpers.rs:239-244 | `element_is_false_from` holds exactly when every bit from `ndx` on is clear, and is true for `ndx >= w` |
| Words.ElementIsTrueFromSpec | src/utils/bigendian/int_helpers.rs:294-299 | `element_is_true_from` holds exactly when every bit from `ndx` on is set, and is true for `ndx >= w` |
| Words.ElementContainsSpec | src/utils/bigendian/int_helpers.rs:321-324 | `element_contains` holds exactly when the words agree on their first `prefix` bits, `prefix == w` included |
| Words.AllOnesWord | src/utils/bigendian/int_helpers.rs:287 | `!0` is a word with every bit set |
| Slices.QuotRemSpec | src/utils/bigendian/int_helpers.rs:73-74 | the word index and bit index of a position are its quotient and remainder by the width |
| Slices.TimesSpec | src/utils/bigendian/int_helpers.rs:191 | `i * ELEMENT_BITS` written as repeated addition is the product |
| Slices.FlatLength | src/utils/bigendian/int_helpers.rs:71 | a slice of `n` words holds `n * w` bits |
| Slices.Locate | src/utils/bigendian/int_helpers.rs:73-78 | bit `ndx` is bit `ndx % w` of word `ndx / w` when that word exists, and lies past the end otherwise |
| Slices.FlatInjective | src/bit_length_string.rs:15-19 | two slices with the same bits are equal word for word |
| Slices.SliceGet | src/utils/bigendian/int_helpers.rs:106-110 | `slice_get` splits the index and reads the word's bit; `SliceGetSpec` proves it reads the flat view |
| Slices.SliceGetSpec | src/utils/bigendian/int_helpers.rs:106-110 | `slice_get` reads bit `ndx` of the flat view |
| Slices.SliceSet | src/utils/bigendian/int_helpers.rs:141-144 | `slice_set` makes bit `ndx` equal to `bit` and changes no other bit |
| Slices.SliceFlipTwice | src/utils/bigendian/int_helpers.rs:170-173 | `slice_flip` applied twice at one index leaves every word as it was |
| Slices.SliceFlip | src/utils/bigendian/int_helpers.rs:170-173 | `slice_flip` inverts bit `ndx` and no other |
| Slices.IncBeyond | src/utils/bigendian/int_helpers.rs:75-78 | a prefix that ends after the last word leaves nothing to increment: overflow, nothing changes |
| Slices.IncStop | src/utils/bigendian/int_helpers.rs:80-85 | when the carry stops at word `i` past the boundary word, the words after it wrap to 0, word `i` grows by one, and the words before are untouched; the result is the protected-prefix increment |
| Slices.IncLast | src/utils/bigendian/int_helpers.rs:80-88 | when the carry reaches the boundary word, `element_inc` on it finishes the protected-prefix increment |
| Slices.SliceInc | src/utils/bigendian/int_helpers.rs:72-89 | `slice_inc` gives the flat view and overflow of the protected-prefix increment: prefix kept, suffix plus one modulo its range, true iff the suffix was all ones |
| Slices.SliceSetFalseFrom | src/utils/bigendian/int_helpers.rs:225-234 | `slice_set_false_from` clears every bit from `ndx` on and keeps the others; a no-op past the end |
| Slices.SliceSetTrueFrom | src/utils/bigendian/int_helpers.rs:280-289 | `slice_set_true_from` sets every bit from `ndx` on and keeps the others; a no-op past the end |
| Slices.AllWordsAre | src/utils/bigendian/int_helpers.rs:257 | the `iter().all(..)` scan is true exactly when every word from `from` on equals `v` |
| Slices.FlatAllSame | src/utils/bigendian/int_helpers.rs:257 | all bits of a slice are `b` exactly when every word is the word of all `b` |
| Slices.SliceIsFalseFrom | src/utils/bigendian/int_helpers.rs:249-258 | `slice_is_false_from` holds exactly when every bit from `ndx` on is false; true past the end |
| Slices.SliceIsTrueFrom | src/utils/bigendian/int_helpers.rs:304-313 | `slice_is_true_from` holds exactly when every bit from `ndx` on is true; true past the end |
| Slices.FirstDifference | src/utils/bigendian/int_helpers.rs:334-338 | the word loop stops at the first differing word, and the words before it are equal |
| Slices.SharedPrefixAtDiff | src/utils/bigendian/int_helpers.rs:188-193 | a differing word before the last one gives `i * w + leading_zeros(diff)` as the shared prefix length |
| Slices.SharedPrefixAtLast | src/utils/bigendian/int_helpers.rs:194-202 | at the word of the last compared bit, the result is `min(max_len, i * w + leading_zeros(diff))`, or `max_len` when the words are equal |
| Slices.SliceSharedPrefixLen | src/utils/bigendian/int_helpers.rs:182-203 | `slice_shared_prefix_len` returns the shared prefix length of the flat views within `max_len` bits, 0 when `max_len == 0` |
| Slices.ContainsEarly | src/utils/bigendian/int_helpers.rs:334-337 | a differing word before the one holding bit `prefix` means the slices differ within `prefix` bits |
| Slices.ContainsLast | src/utils/bigendian/int_helpers.rs:339-343 | with equal words before it, the answer is `true` at a word boundary and `element_contains` of the boundary word otherwise |
| Slices.SliceContains | src/utils/bigendian/int_helpers.rs:332-344 | `slice_contains` holds exactly when the flat views agree on their first `prefix` bits, `prefix == bits` included |
| FixedBitStrings.FixedBits.AllFalse | src/fixed_bit_string/traits.rs:95-96 | `new_all_false` has every bit false |
| FixedBitStrings.FixedBits.AllTrue | src/fixed_bit_string/traits.rs:98-99 | `new_all_true` has every bit true |
| FixedBitStrings.FixedBits.Copy | src/fixed_bit_string/traits.rs:32-37 | the copy `clone` makes: fresh words, same width, same bits |
| FixedBitStrings.FixedBits.Clone | src/fixed_bit_string/traits.rs:32-37 | `clone` returns a fresh value with the same shape and bits and leaves this one alone |
| FixedBitStrings.FixedBits.Get | src/fixed_bit_string/traits.rs:40-45 | `get` reads bit `ndx`; it requires `ndx < LEN` |
| FixedBitStrings.FixedBits.Set | src/fixed_bit_string/traits.rs:47-52 | `set` writes bit `ndx` and no other bit |
| FixedBitStrings.FixedBits.Flip | src/fixed_bit_string/traits.rs:54-62 | the default `flip` (get, then set the negation) inverts bit `ndx` and no other bit |
| FixedBitStrings.FixedBits.Inc | src/fixed_bit_string/traits.rs:11-22 | `inc` is the protected-prefix increment of the value; it requires `prefix <= LEN` |
| FixedBitStrings.FixedBits.SharedPrefixLen | src/fixed_bit_string/traits.rs:64-73 | the default `shared_prefix_len` returns the first index below `LEN` where the values differ, or `LEN` |
| FixedBitStrings.FixedBits.SetFalseFrom | src/fixed_bit_string/traits.rs:75-78 | every bit from `ndx` on becomes false, the rest is kept, nothing happens past `LEN` |
| FixedBitStrings.FixedBits.IsFalseFrom | src/fixed_bit_string/traits.rs:80-83 | true exactly when every bit from `ndx` on is false, so true past `LEN` |
| FixedBitStrings.FixedBits.SetTrueFrom | src/fixed_bit_string/traits.rs:85-88 | every bit from `ndx` on becomes true, the rest is kept, nothing happens past `LEN` |
| FixedBitStrings.FixedBits.IsTrueFrom | src/fixed_bit_string/traits.rs:90-93 | true exactly when every bit from `ndx` on is true, so true past `LEN` |
| FixedBitStrings.FixedBits.Contains | src/fixed_bit_string/traits.rs:101-107 | `contains(prefix, other)` holds exactly when the two agree on their first `prefix` bits; it requires `prefix <= LEN` |
| FixedBitStrings.FixedBits.Iter | src/fixed_bit_string/traits.rs:24-38 | `iter` starts a fresh iterator from a clone; the value itself is not modified |
| FixedBitStrings.PrefixIter.constructor | src/fixed_bit_string/iter.rs:18-23 | the values still to come are those produced from `start` |
| FixedBitStrings.PrefixIter.Next | src/fixed_bit_string/iter.rs:29-43 | `next` returns a fresh clone of the first pending value and drops it from the list; once the list is empty, `next` returns `None` for good |
| FixedBitStrings.YieldsEnumerate | src/fixed_bit_string/iter.rs:29-43 | the first value produced is the start; value `k` shares the first `prefix` bits with the start, and its free bits spell the start's free bits plus `k` (strictly increasing) |
| FixedBitStrings.YieldsStep | src/fixed_bit_string/iter.rs:33-35 | each value is the non-overflowing `inc(prefix)` of the one before |
| FixedBitStrings.YieldsSteps | src/fixed_bit_string/iter.rs:33-41 | all values are consecutive increments, and `inc` on the last one overflows |
| FixedBitStrings.YieldsLast | src/fixed_bit_string/iter.rs:39-41 | the iterator stops exactly after the value whose increment overflows |
| FixedBitStrings.YieldsCount | src/fixed_bit_string/traits.rs:24-28 | exactly `2^(LEN - prefix) - suffix` values are produced, where `suffix` is the number the start's free bits spell |
| FixedBitStrings.YieldsAll | src/fixed_bit_string/traits.rs:24-28 | from a start whose free bits are false there are `2^(LEN - prefix)` values; with `prefix == LEN` the start alone is produced |
| BitStrings.Clip | src/bit_length_string.rs:82-85 | clipping to `n` keeps a prefix of `min(len, n)` bits |
| BitStrings.SharedPrefixLen | src/bit_string/traits.rs:80-88 | the default `shared_prefix_len` is at most both lengths, the strings agree below it, and they differ at it when it is below both |
| BitStrings.SharedPrefixLenSymmetric | src/bit_string/traits.rs:80-88 | `shared_prefix_len` is symmetric |
| BitStrings.SharedPrefixLenLongest | src/bit_string/traits.rs:79-88 | no common prefix is longer than `shared_prefix_len` |
| BitStrings.SharedPrefixLenIsPrefix | src/bit_string/traits.rs:111-113 | `shared_prefix_len == len` exactly when the string is a prefix of the other |
| BitStrings.SharedPrefix | src/bit_string/traits.rs:90-98 | `shared_prefix` is a common prefix of both strings, and every common prefix is a prefix of it |
| BitStrings.SubsetCmp | src/bit_string/traits.rs:100-126 | the default `subset_cmp`, branch for branch over `shared_prefix_len` and the lengths; its meaning is `SubsetCmpSpec` |
| BitStrings.SubsetCmpSpec | src/bit_string/traits.rs:100-126 | `subset_cmp` is Equal iff the strings are equal, Greater iff `self` is a proper prefix of `other`, Less iff `other` is a proper prefix of `self`, and None iff neither is a prefix of the other |
| BitStrings.SubsetCmpReverse | src/bit_string/traits.rs:100-126 | swapping the operands reverses `subset_cmp` |
| BitStrings.LexicographicCmp | src/bit_string/traits.rs:145-168 | the default `lexicographic_cmp`, branch for branch; its meaning is `LexicographicIsRankOrder`, and it is a total order by the lemmas below |
| BitStrings.LexicographicEqual | src/bit_string/traits.rs:145-168 | `lexicographic_cmp` is Equal exactly on equal strings |
| BitStrings.LexicographicReverse | src/bit_string/traits.rs:145-168 | swapping the operands reverses `lexicographic_cmp` (antisymmetry) |
| BitStrings.RanksAtSharedPrefix | src/bit_string/traits.rs:139-144 | on the scale `_|_ < false < true` the strings agree below the shared prefix length and differ at it unless equal |
| BitStrings.LexicographicIsRankOrder | src/bit_string/traits.rs:139-168 | `lexicographic_cmp` says Less exactly under the `_|_ < false < true` definition |
| BitStrings.LexicographicTransitive | src/bit_string/traits.rs:128-168 | `lexicographic_cmp` is transitive, so with the two lemmas above it is a total order |
| BitStrings.DocumentedLessReversed | src/bit_string/traits.rs:128-137 | whenever `b` is a proper prefix of `a`, the first documented definition puts `a` below `b` while the code says Greater |
| BitStrings.DocumentedLessExample | src/bit_string/traits.rs:133-136 | for `a = [false]`, `b = []` the first documented definition and `lexicographic_cmp` disagree |
| BitStrings.LexicographicIsPrefixFirst | src/bit_string/traits.rs:128-168 | `lexicographic_cmp` says Less exactly when `a != b` and either `a` is a prefix of `b` or the first difference has false in `a`; this corrected first definition agrees with the `_|_ < false < true` one |
| BitStrings.DocumentedClipKeepsExample | src/bit_string/traits.rs:57-63 | the documented no-op condition `len <= self.len()` admits `clip(0)` on `[true]`, which does change the string |
| BitStrings.ClipKeeps | src/bit_string/traits.rs:57-63 | `clip(n)` leaves a string unchanged exactly when `n >= len` |
| BitLengthStrings.BitLengthString.constructor | src/bit_length_string.rs:37-41 | `new(bits, len)` requires `len <= LEN`, clears the storage from `len` on, keeps `len`, and establishes the invariant |
| BitLengthStrings.BitLengthString.Clone | src/bit_length_string.rs:15-26 | the derived `clone` is a string with the same length and bits over fresh storage, and keeps the invariant |
| BitLengthStrings.BitLengthString.FromParts | src/bit_length_string.rs:15-26 | builds the struct from a storage already clear from `len` on; the result keeps that storage and length and satisfies the invariant |
| BitLengthStrings.BitLengthString.Null | src/bit_length_string.rs:92-97 | `null` has length 0 over all-false storage, and satisfies the invariant |
| BitLengthStrings.BitLengthString.Contains | src/bit_length_string.rs:44-46 | `contains(w)` holds exactly when the string is a prefix of `w` |
| BitLengthStrings.BitLengthString.Get | src/bit_length_string.rs:62-65 | `get` reads bit `ndx` of the string and requires `ndx < len` |
| BitLengthStrings.BitLengthString.Set | src/bit_length_string.rs:67-70 | `set` requires `ndx < len`, writes bit `ndx` only, keeps `len` and the invariant |
| BitLengthStrings.BitLengthString.Flip | src/bit_length_string.rs:72-75 | `flip` requires `ndx < len`, inverts bit `ndx` only, keeps `len` and the invariant |
| BitLengthStrings.BitLengthString.Len | src/bit_length_string.rs:77-80 | `len` is the string's length and at most `LEN` |
| BitLengthStrings.BitLengthString.Clip | src/bit_length_string.rs:82-85 | `clip(n)` sets `len` to `min(len, n)`, clears the storage from `n` on, keeps the invariant, and changes nothing observable when `n >= len` |
| BitLengthStrings.BitLengthString.Append | src/bit_length_string.rs:87-90 | `append(b)` requires `len < LEN`, adds `b` after the old bits, and keeps the invariant |
| BitLengthStrings.BitLengthString.SharedPrefixLen | src/bit_length_string.rs:99-102 | `min(storage shared_prefix_len, min(len, other.len))` equals the generic `shared_prefix_len` of the two strings |
| BitLengthStrings.CappedSharedPrefix | src/bit_length_string.rs:99-102 | capping the storage's shared prefix at both lengths gives the strings' shared prefix length |
| BitLengthStrings.BitLengthString.SharedPrefix | src/bit_string/traits.rs:90-98 | the default `shared_prefix` (clone, then clip) gives the longest common prefix |
| BitLengthStrings.BitLengthString.SubsetCmp | src/bit_string/traits.rs:110-126 | the default `subset_cmp` over this string's `shared_prefix_len` and lengths is the subset order of the two strings |
| BitLengthStrings.BitLengthString.Cmp | src/bit_length_string.rs:111-115 | `cmp` is `lexicographic_cmp` of the two strings |
| BitLengthStrings.BitLengthString.Eq | src/bit_length_string.rs:123-127 | `==` holds exactly when the strings have the same bits, and exactly when `len` and the storage words are equal, so the derived `Hash` agrees with `==` |
| BitLengthStrings.StorageDetermined | src/bit_length_string.rs:15-26 | under the invariant, two strings have the same bits exactly when their lengths and storages are equal |

## Left out

- `src/address.rs` is not part of this model. Its IPv4/IPv6 adapters wrap the standard library's address types, whose byte order is not visible here.
- `src/utils/bigendian/trait_impls.rs`, `src/utils/bigendian/traits.rs`, `src/utils/bigendian/mod.rs`, `src/utils/mod.rs` and `src/lib.rs` are not part of this model. They only forward to the module functions or wire modules together. The `BigEndianBitString` methods of `src/utils/bigendian.rs` (lines 373-419) forward the same way, so each is the `slice_*` member it calls.
- `src/utils/bigendian/tests.rs` holds the crate's unit tests and is not modelled; the lemmas above state the properties its cases exercise.
- Per-width instances: one width-generic model (`w > 0`) stands for the `u8` … `u128` macro instances.
- `src/utils/bigendian.rs` and `src/utils/bigendian/int_helpers.rs` hold the same algorithms, value-returning and in place. They share one model: `Words.Element*` is the value form, and the slice methods store the result back into the array.
- The in-place `element_*` wrappers (`&mut` words) are those value functions with the result stored back. They have no members of their own.
- Integer width: `usize` arithmetic and word overflow are modelled with unbounded integers. Only `overflowing_add`/`wrapping_add` wrap, and they are written out.
- `/`, `%` and `*` on positions are written as `Quot`, `Rem` and `Times`, by repeated subtraction and addition. `QuotRemSpec` and `TimesSpec` tie them to the operators.
- Panics: each `assert!` and each documented panic is a precondition. Behaviour after a panic is not modelled.
- `FixedBitString` is an interface with many implementations. The model gives one: `FixedBits` over an array of words.
- `BitString` is likewise an interface. Its default methods are modelled on the bit sequence, and `BitLengthString` is the implementation modelled.
- `BitLengthString::bits()` and the `Default` impl are not modelled separately. `bits()` is a read of the `bits` field, and `Default` is `null`.
- `PartialOrd::partial_cmp` is not modelled separately: it wraps `cmp` in `Some`.
- The `Clone`, `Debug` and `Hash` derives carry no logic. `Clone` is modelled as a copy into fresh storage. `Hash` is covered by `Eq`'s field-equality statement.
- FixedBitStrings.PrefixIter.constructor: requires `prefix <= LEN`. In the source, `Iter::new` accepts any prefix, and the panic only comes from `inc` at the first `next`.
- FixedBitStrings.FixedBits.SameShape: values of one Rust type have the same width and word count. Operations on two values require this instead of relying on the type system.
- Aliasing: two `BitLengthString`s are assumed not to share one storage object. Rust's ownership guarantees this.

## Findings

| source | as written | input that shows it | evidently intended | confidence | as-written member | corrected member |
|---|---|---|---|---|---|---|
| src/bit_string/traits.rs:133-136 | first formal definition of `lexicographic_cmp`: `a < b` iff `a != b` and (`b` is a prefix of `a` or the first difference has `a[s] < b[s]`) | `a = [false]`, `b = []`: the definition gives `a < b`, the code returns Greater | a proper prefix sorts first (`a` a prefix of `b`), as the code and the `_|_ < false < true` definition say | not executed | BitStrings.DocumentedLessExample | BitStrings.LexicographicIsPrefixFirst |
| src/bit_string/traits.rs:59 | `clip` "does nothing if `len <= self.len()`" | the string `[true]` clipped to 0: the documentation says nothing happens, `BitLengthString::clip` returns the empty string | `clip` does nothing if `len >= self.len()` | not executed | BitStrings.DocumentedClipKeepsExample | BitStrings.ClipKeeps |
