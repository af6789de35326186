/** One unsigned machine word of `w` bits read as a big-endian bit string:
    bit 0 is the most significant bit. The width is a parameter, so one
    model stands for the u8, u16, u32, u64 and u128 instances alike.
    A word is a `nat` below 2^w; the machine's bitwise operators are
    given their meaning bit by bit, and every `element_*` operation is
    proved against the bit view `Bits(value, w)`. */
module Words {
  import opened BitSeq
  import opened Increment

  predicate IsWord(v: nat, w: nat)
  {
    v < Pow2(w)
  }

  // The machine's bitwise operators on w-bit words.

  function And(a: nat, b: nat, w: nat): (r: nat)
    ensures IsWord(r, w) && Bits(r, w) == BitAnd(Bits(a, w), Bits(b, w))
  {
    var s := BitAnd(Bits(a, w), Bits(b, w));
    BitsOfToNat(s);
    ToNatBound(s);
    ToNat(s)
  }

  function Or(a: nat, b: nat, w: nat): (r: nat)
    ensures IsWord(r, w) && Bits(r, w) == BitOr(Bits(a, w), Bits(b, w))
  {
    var s := BitOr(Bits(a, w), Bits(b, w));
    BitsOfToNat(s);
    ToNatBound(s);
    ToNat(s)
  }

  function Xor(a: nat, b: nat, w: nat): (r: nat)
    ensures IsWord(r, w) && Bits(r, w) == BitXor(Bits(a, w), Bits(b, w))
  {
    var s := BitXor(Bits(a, w), Bits(b, w));
    BitsOfToNat(s);
    ToNatBound(s);
    ToNat(s)
  }

  function Not(a: nat, w: nat): (r: nat)
    ensures IsWord(r, w) && Bits(r, w) == BitNot(Bits(a, w))
  {
    var s := BitNot(Bits(a, w));
    BitsOfToNat(s);
    ToNatBound(s);
    ToNat(s)
  }

  /** `leading_zeros`: the number of clear bits before the first set one. */
  function LeadingZeros(x: nat, w: nat): (r: nat)
    ensures r <= w
  {
    LeadingFalse(Bits(x, w))
  }

  /** `overflowing_add(1)`: the sum modulo 2^w and whether it wrapped. */
  function OverflowingInc(v: nat, w: nat): (r: (nat, bool))
    requires IsWord(v, w)
    ensures IsWord(r.0, w)
  {
    if v + 1 == Pow2(w) then (0, true) else (v + 1, false)
  }

  /** `wrapping_add(1)` */
  function WrappingInc(v: nat, w: nat): (r: nat)
    requires IsWord(v, w)
    ensures IsWord(r, w)
  {
    OverflowingInc(v, w).0
  }

  /** The word's `overflowing_add(1)` is the carry-propagating increment
      of its bits. */
  lemma OverflowingIncBits(v: nat, w: nat)
    requires IsWord(v, w)
    ensures Succ(Bits(v, w)) == (Bits(OverflowingInc(v, w).0, w), OverflowingInc(v, w).1)
  {
    var b := Bits(v, w);
    var c := Succ(b);
    ToNatOfBits(v, w);
    SuccValue(b);
    BitsOfToNat(c.0);
    var n := ToNat(c.0);
    assert n == OverflowingInc(v, w).0;
    assert c.0 == Bits(n, w);
    assert c.1 == OverflowingInc(v, w).1;
  }

  // Masks.

  /** `mask`: the word with the single bit `ndx` set, where the index
      wraps around at the word width. */
  function Mask(ndx: nat, w: nat): (r: nat)
    requires w > 0
    ensures IsWord(r, w)
  {
    PowMonotone(w - 1 - ndx % w + 1, w);
    Pow2(w - 1 - ndx % w)
  }

  /** `mask_suffix`: the word with bits `ndx..` set and the others clear
      (no bit set when `ndx == w`). */
  function MaskSuffix(ndx: nat, w: nat): (r: nat)
    requires ndx <= w
    ensures IsWord(r, w)
  {
    if ndx >= w then
      0
    else
      PowMonotone(w - ndx, w);
      LowOnes(w - ndx)
  }

  // The `element_*` operations (value-returning form; the in-place
  // wrappers store the result back into the word).

  /** `element_inc`: increment from the right without touching the first
      `prefix` bits; report an overflow. */
  function ElementInc(value: nat, prefix: nat, w: nat): (r: (nat, bool))
    requires IsWord(value, w) && prefix <= w
    ensures IsWord(r.0, w)
  {
    if prefix == w then (value, true)
    else if prefix == 0 then OverflowingInc(value, w)
    else
      var result := WrappingInc(value, w);
      var fixedBitsMask := Not(MaskSuffix(prefix, w), w);
      if And(Xor(result, value, w), fixedBitsMask, w) != 0 then
        (And(value, fixedBitsMask, w), true)
      else
        (result, false)
  }

  /** `element_get` */
  function ElementGet(value: nat, ndx: nat, w: nat): bool
    requires ndx < w
  {
    And(value, Mask(ndx, w), w) != 0
  }

  /** `element_set` */
  function ElementSet(value: nat, ndx: nat, bit: bool, w: nat): (r: nat)
    requires ndx < w
    ensures IsWord(r, w)
  {
    var mask := Mask(ndx, w);
    if bit then Or(value, mask, w) else And(value, Not(mask, w), w)
  }

  /** `element_flip` */
  function ElementFlip(value: nat, ndx: nat, w: nat): (r: nat)
    requires ndx < w
    ensures IsWord(r, w)
  {
    Xor(value, Mask(ndx, w), w)
  }

  /** `element_shared_prefix_len` */
  function ElementSharedPrefixLen(value: nat, other: nat, maxLen: nat, w: nat): (r: nat)
    requires maxLen <= w
    ensures r <= maxLen
  {
    Min(LeadingZeros(Xor(value, other, w), w), maxLen)
  }

  /** `element_set_false_from` */
  function ElementSetFalseFrom(value: nat, ndx: nat, w: nat): (r: nat)
    ensures IsWord(value, w) ==> IsWord(r, w)
  {
    if ndx >= w then value else And(value, Not(MaskSuffix(ndx, w), w), w)
  }

  /** `element_is_false_from` */
  function ElementIsFalseFrom(value: nat, ndx: nat, w: nat): bool
  {
    if ndx >= w then true else And(value, MaskSuffix(ndx, w), w) == 0
  }

  /** `element_set_true_from` */
  function ElementSetTrueFrom(value: nat, ndx: nat, w: nat): (r: nat)
    ensures IsWord(value, w) ==> IsWord(r, w)
  {
    if ndx >= w then value else Or(value, MaskSuffix(ndx, w), w)
  }

  /** `element_is_true_from`: the word or'ed with the fixed-part mask is
      `!0`. */
  function ElementIsTrueFrom(value: nat, ndx: nat, w: nat): bool
  {
    if ndx >= w then true else LowOnes(w) == Or(value, Not(MaskSuffix(ndx, w), w), w)
  }

  /** `element_contains` */
  function ElementContains(value: nat, prefix: nat, other: nat, w: nat): bool
    requires prefix <= w
  {
    0 == And(Not(MaskSuffix(prefix, w), w), Xor(value, other, w), w)
  }

  // What each operation does to the bit view.

  /** `mask(ndx)` has exactly one bit set, at `ndx` modulo the width. */
  lemma MaskBits(ndx: nat, w: nat)
    requires w > 0
    ensures Bits(Mask(ndx, w), w) == OneHot(w, ndx % w)
    ensures Mask(ndx, w) != 0
  {
    BitsOfPowerIsOneHot(w - 1 - ndx % w, w);
  }

  /** Inside the word the index does not wrap. */
  lemma MaskBitsInside(ndx: nat, w: nat)
    requires ndx < w
    ensures Bits(Mask(ndx, w), w) == OneHot(w, ndx)
  {
    ModBelow(ndx, w);
    BitsOfPowerIsOneHot(w - 1 - ndx, w);
  }

  lemma ModBelow(a: nat, b: nat)
    requires a < b
    ensures a % b == a
  {
  }

  /** `mask_suffix(ndx)` has exactly bits `ndx..` set. */
  lemma MaskSuffixBits(ndx: nat, w: nat)
    requires ndx <= w
    ensures Bits(MaskSuffix(ndx, w), w) == SuffixOnes(w, ndx)
  {
    if ndx == w {
      BitsOfZero(w);
      assert Constant(w, false) == SuffixOnes(w, ndx);
    } else {
      BitsOfLowOnesIsSuffix(w - ndx, w);
    }
  }

  /** The complement of `mask_suffix(ndx)` has exactly bits `..ndx` set. */
  lemma FixedMaskBits(ndx: nat, w: nat)
    requires ndx <= w
    ensures Bits(Not(MaskSuffix(ndx, w), w), w) == PrefixOnes(w, ndx)
  {
    MaskSuffixBits(ndx, w);
    NotSuffixOnes(w, ndx);
  }

  /** `element_inc` is `IncFrom` on the word's bits. */
  lemma ElementIncSpec(value: nat, prefix: nat, w: nat)
    requires IsWord(value, w) && prefix <= w
    ensures (Bits(ElementInc(value, prefix, w).0, w), ElementInc(value, prefix, w).1)
            == IncFrom(Bits(value, w), prefix)
  {
    var b := Bits(value, w);
    if prefix == 0 {
      OverflowingIncBits(value, w);
      assert b[0..] == b && b[..0] + Succ(b).0 == Succ(b).0;
    } else if prefix < w {
      ElementIncMasked(value, prefix, w);
    }
  }

  /** The case of a proper prefix: the carry out of the free bits shows up
      as a change of the fixed bits, which are then restored. */
  lemma ElementIncMasked(value: nat, prefix: nat, w: nat)
    requires IsWord(value, w) && 0 < prefix < w
    ensures (Bits(ElementInc(value, prefix, w).0, w), ElementInc(value, prefix, w).1)
            == IncFrom(Bits(value, w), prefix)
  {
    var b := Bits(value, w);
    var result := WrappingInc(value, w);
    OverflowingIncBits(value, w);
    assert Bits(result, w) == Succ(b).0;
    var fixedBitsMask := Not(MaskSuffix(prefix, w), w);
    FixedMaskBits(prefix, w);
    MaskedDiffZero(Succ(b).0, b, prefix);
    SuccSplit(b, prefix);
    IncFromOverflow(b, prefix);
    if Succ(b[prefix..]).1 {
      SuffixIdentities(b, prefix);
      assert Bits(And(value, fixedBitsMask, w), w) == SetFrom(b, prefix, false);
    }
  }

  /** With nothing fixed, `element_inc` adds one to the word modulo
      `2^w` and overflows exactly when the sum reaches `2^w`. */
  lemma ElementIncWhole(value: nat, w: nat)
    requires IsWord(value, w)
    ensures ElementInc(value, 0, w).0 == (value + 1) % Pow2(w)
    ensures ElementInc(value, 0, w).1 <==> value + 1 == Pow2(w)
  {
    var p := Pow2(w);
    assert ElementInc(value, 0, w) == OverflowingInc(value, w);
    if value + 1 < p {
      ModBelow(value + 1, p);
    } else {
      ModSelf(p);
    }
  }

  lemma ModSelf(n: nat)
    requires n > 0
    ensures n % n == 0
  {
  }

  /** `element_get` reads bit `ndx`. */
  lemma ElementGetSpec(value: nat, ndx: nat, w: nat)
    requires ndx < w
    ensures ElementGet(value, ndx, w) == Bits(value, w)[ndx]
  {
    MaskBitsInside(ndx, w);
    OneHotTest(Bits(value, w), ndx);
  }

  /** `element_set` writes bit `ndx` and no other. */
  lemma ElementSetSpec(value: nat, ndx: nat, bit: bool, w: nat)
    requires ndx < w
    ensures Bits(ElementSet(value, ndx, bit, w), w) == Bits(value, w)[ndx := bit]
  {
    MaskBitsInside(ndx, w);
    OneHotIdentities(Bits(value, w), ndx);
  }

  /** `element_flip` inverts bit `ndx` and no other. */
  lemma ElementFlipSpec(value: nat, ndx: nat, w: nat)
    requires ndx < w
    ensures Bits(ElementFlip(value, ndx, w), w) == Bits(value, w)[ndx := !Bits(value, w)[ndx]]
  {
    MaskBitsInside(ndx, w);
    OneHotIdentities(Bits(value, w), ndx);
  }

  /** `element_shared_prefix_len` is the length of the common prefix of
      the two words' bits, capped at `maxLen`. */
  lemma ElementSharedPrefixLenSpec(value: nat, other: nat, maxLen: nat, w: nat)
    requires maxLen <= w
    ensures ElementSharedPrefixLen(value, other, maxLen, w)
            == CommonPrefixLen(Bits(value, w), Bits(other, w), maxLen)
  {
    LeadingFalseOfXor(Bits(value, w), Bits(other, w), maxLen);
    SharedPrefixLenUnique(Bits(value, w), Bits(other, w), maxLen, ElementSharedPrefixLen(value, other, maxLen, w));
  }

  /** Over whole words the leading zeros of the xor are the length of the
      common prefix, and reach the width exactly when the xor is zero. */
  lemma XorLeadingZeros(u: nat, v: nat, w: nat)
    requires IsWord(u, w) && IsWord(v, w)
    ensures LeadingZeros(Xor(u, v, w), w) == CommonPrefixLen(Bits(u, w), Bits(v, w), w)
    ensures LeadingZeros(Xor(u, v, w), w) <= w
    ensures LeadingZeros(Xor(u, v, w), w) == w <==> Xor(u, v, w) == 0
  {
    XorZero(u, v, w);
    LeadingFalseOfXor(Bits(u, w), Bits(v, w), w);
    SharedPrefixLenUnique(Bits(u, w), Bits(v, w), w, LeadingZeros(Xor(u, v, w), w));
    if LeadingZeros(Xor(u, v, w), w) == w {
      assert Bits(u, w) == Bits(v, w);
      BitsInjective(u, v, w);
    }
  }

  /** `element_set_false_from` clears bits `ndx..` and keeps the rest. */
  lemma ElementSetFalseFromSpec(value: nat, ndx: nat, w: nat)
    requires IsWord(value, w)
    ensures IsWord(ElementSetFalseFrom(value, ndx, w), w)
    ensures Bits(ElementSetFalseFrom(value, ndx, w), w) == SetFrom(Bits(value, w), ndx, false)
  {
    if ndx < w {
      FixedMaskBits(ndx, w);
      SuffixIdentities(Bits(value, w), ndx);
    }
  }

  /** `element_set_true_from` sets bits `ndx..` and keeps the rest. */
  lemma ElementSetTrueFromSpec(value: nat, ndx: nat, w: nat)
    requires IsWord(value, w)
    ensures IsWord(ElementSetTrueFrom(value, ndx, w), w)
    ensures Bits(ElementSetTrueFrom(value, ndx, w), w) == SetFrom(Bits(value, w), ndx, true)
  {
    if ndx < w {
      MaskSuffixBits(ndx, w);
      SuffixIdentities(Bits(value, w), ndx);
    }
  }

  /** `element_is_false_from` holds exactly when bits `ndx..` are clear. */
  lemma ElementIsFalseFromSpec(value: nat, ndx: nat, w: nat)
    ensures ElementIsFalseFrom(value, ndx, w) <==> IsFrom(Bits(value, w), ndx, false)
  {
    if ndx < w {
      MaskSuffixBits(ndx, w);
      SuffixTests(Bits(value, w), ndx);
    }
  }

  /** `element_is_true_from` holds exactly when bits `ndx..` are set. */
  lemma ElementIsTrueFromSpec(value: nat, ndx: nat, w: nat)
    ensures ElementIsTrueFrom(value, ndx, w) <==> IsFrom(Bits(value, w), ndx, true)
  {
    if ndx < w {
      FixedMaskBits(ndx, w);
      SuffixTests(Bits(value, w), ndx);
    }
  }

  /** `element_contains` holds exactly when the two words agree on their
      first `prefix` bits. */
  lemma ElementContainsSpec(value: nat, prefix: nat, other: nat, w: nat)
    requires prefix <= w
    ensures ElementContains(value, prefix, other, w)
            <==> Bits(value, w)[..prefix] == Bits(other, w)[..prefix]
  {
    FixedMaskBits(prefix, w);
    MaskedDiffZero(Bits(value, w), Bits(other, w), prefix);
  }

  /** Two words differ exactly when their exclusive or is non-zero. */
  lemma XorZero(a: nat, b: nat, w: nat)
    requires IsWord(a, w) && IsWord(b, w)
    ensures Xor(a, b, w) == 0 <==> a == b
  {
    var d := BitXor(Bits(a, w), Bits(b, w));
    ToNatZero(d);
    if Xor(a, b, w) == 0 {
      assert Bits(a, w) == Bits(b, w);
      BitsInjective(a, b, w);
    }
  }

  /** `!0`, the word with every bit set. */
  lemma AllOnesWord(w: nat)
    ensures IsWord(LowOnes(w), w) && Bits(LowOnes(w), w) == Constant(w, true)
  {
    BitsOfLowOnesIsSuffix(w, w);
    assert SuffixOnes(w, 0) == Constant(w, true);
  }

  /** `0`, the word with no bit set. */
  lemma ZeroWord(w: nat)
    ensures IsWord(0, w) && Bits(0, w) == Constant(w, false)
  {
    BitsOfZero(w);
  }
}
