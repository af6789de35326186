/** Bit sequences: the flat view every layer of the library is specified
    against. A bit string is a `seq<bool>` whose index 0 is the most
    significant bit (big-endian bit order). This module also relates a bit
    sequence to the unsigned number it spells, and gives the bitwise
    operators of a machine word their meaning bit by bit. */
module BitSeq {

  /** 2^n */
  function Pow2(n: nat): (r: nat)
    ensures r >= 1
  {
    if n == 0 then 1 else 2 * Pow2(n - 1)
  }

  function Min(a: nat, b: nat): nat
  {
    if a <= b then a else b
  }

  /** The unsigned number spelled by `s`, most significant bit first. */
  function ToNat(s: seq<bool>): nat
  {
    if |s| == 0 then 0 else 2 * ToNat(s[..|s| - 1]) + (if s[|s| - 1] then 1 else 0)
  }

  /** The `n` least significant bits of `v`, most significant first. */
  function Bits(v: nat, n: nat): (r: seq<bool>)
    ensures |r| == n
  {
    if n == 0 then [] else Bits(v / 2, n - 1) + [v % 2 == 1]
  }

  /** `n` copies of `b`: a run of equal bits, or of equal words. */
  function Constant<T>(n: nat, b: T): (r: seq<T>)
    ensures |r| == n && forall i :: 0 <= i < n ==> r[i] == b
  {
    seq(n, _ => b)
  }

  lemma {:induction false} ToNatBound(s: seq<bool>)
    ensures ToNat(s) < Pow2(|s|)
  {
    if |s| > 0 {
      ToNatBound(s[..|s| - 1]);
    }
  }

  /** Reading the bits of the number a sequence spells gives the sequence back. */
  lemma {:induction false} BitsOfToNat(s: seq<bool>)
    ensures Bits(ToNat(s), |s|) == s
  {
    if |s| > 0 {
      var init := s[..|s| - 1];
      BitsOfToNat(init);
      assert ToNat(s) / 2 == ToNat(init);
      assert s == init + [s[|s| - 1]];
    }
  }

  /** A number below 2^n is the number its n bits spell. */
  lemma {:induction false} ToNatOfBits(v: nat, n: nat)
    requires v < Pow2(n)
    ensures ToNat(Bits(v, n)) == v
  {
    if n > 0 {
      ToNatOfBits(v / 2, n - 1);
      assert Bits(v, n)[..n - 1] == Bits(v / 2, n - 1);
    }
  }

  /** Two numbers below 2^n with the same n bits are equal. */
  lemma BitsInjective(u: nat, v: nat, n: nat)
    requires u < Pow2(n) && v < Pow2(n)
    requires Bits(u, n) == Bits(v, n)
    ensures u == v
  {
    ToNatOfBits(u, n);
    ToNatOfBits(v, n);
  }

  /** A sequence spells zero exactly when every bit is false. */
  lemma {:induction false} ToNatZero(s: seq<bool>)
    ensures ToNat(s) == 0 <==> forall i :: 0 <= i < |s| ==> !s[i]
  {
    if |s| > 0 {
      var init := s[..|s| - 1];
      ToNatZero(init);
      assert forall i :: 0 <= i < |init| ==> init[i] == s[i];
    }
  }

  /** The bits of a number that is zero are all false. */
  lemma BitsOfZero(n: nat)
    ensures Bits(0, n) == Constant(n, false)
  {
    BitsOfToNat(Constant(n, false));
    ToNatZero(Constant(n, false));
  }

  /** 2^k - 1: the number whose k low bits are set. */
  function LowOnes(k: nat): nat
  {
    Pow2(k) - 1
  }

  /** The bits of 2^k - 1 are its last k bits set. */
  lemma {:induction false} BitsOfLowOnes(k: nat, n: nat)
    requires k <= n
    ensures LowOnes(k) < Pow2(n)
    ensures forall i :: 0 <= i < n ==> Bits(LowOnes(k), n)[i] == (n - k <= i)
  {
    PowMonotone(k, n);
    if k == 0 {
      BitsOfZero(n);
    } else {
      BitsOfLowOnes(k - 1, n - 1);
      assert LowOnes(k) / 2 == LowOnes(k - 1) && LowOnes(k) % 2 == 1;
      var b := Bits(LowOnes(k), n);
      var c := Bits(LowOnes(k - 1), n - 1);
      assert b == c + [true];
      forall i | 0 <= i < n ensures b[i] == (n - k <= i) {
        if i < n - 1 {
          assert b[i] == c[i];
        }
      }
    }
  }

  /** The bits of 2^k have exactly big-endian bit n - 1 - k set. */
  lemma {:induction false} BitsOfPower(k: nat, n: nat)
    requires k < n
    ensures Pow2(k) < Pow2(n)
    ensures forall i :: 0 <= i < n ==> Bits(Pow2(k), n)[i] == (i == n - 1 - k)
  {
    PowMonotone(k + 1, n);
    if k == 0 {
      BitsOfZero(n - 1);
      assert Bits(Pow2(k), n) == Bits(0, n - 1) + [true];
    } else {
      BitsOfPower(k - 1, n - 1);
      assert Bits(Pow2(k), n) == Bits(Pow2(k - 1), n - 1) + [false];
    }
  }

  lemma {:induction false} PowMonotone(k: nat, n: nat)
    requires k <= n
    ensures Pow2(k) <= Pow2(n)
  {
    if k < n {
      PowMonotone(k, n - 1);
    }
  }

  // The bitwise operators of a machine word, bit by bit.

  function BitAnd(a: seq<bool>, b: seq<bool>): (r: seq<bool>)
    requires |a| == |b|
    ensures |r| == |a| && forall i :: 0 <= i < |a| ==> r[i] == (a[i] && b[i])
  {
    seq(|a|, i requires 0 <= i < |a| => a[i] && b[i])
  }

  function BitOr(a: seq<bool>, b: seq<bool>): (r: seq<bool>)
    requires |a| == |b|
    ensures |r| == |a| && forall i :: 0 <= i < |a| ==> r[i] == (a[i] || b[i])
  {
    seq(|a|, i requires 0 <= i < |a| => a[i] || b[i])
  }

  function BitXor(a: seq<bool>, b: seq<bool>): (r: seq<bool>)
    requires |a| == |b|
    ensures |r| == |a| && forall i :: 0 <= i < |a| ==> r[i] == (a[i] != b[i])
  {
    seq(|a|, i requires 0 <= i < |a| => a[i] != b[i])
  }

  function BitNot(a: seq<bool>): (r: seq<bool>)
    ensures |r| == |a| && forall i :: 0 <= i < |a| ==> r[i] == !a[i]
  {
    seq(|a|, i requires 0 <= i < |a| => !a[i])
  }

  /** Number of leading false bits: the first index holding true, or |s|. */
  function LeadingFalse(s: seq<bool>): (r: nat)
    ensures r <= |s|
    ensures forall i :: 0 <= i < r ==> !s[i]
    ensures r < |s| ==> s[r]
  {
    if |s| == 0 || s[0] then 0 else 1 + LeadingFalse(s[1..])
  }

  // Whole-tail operations of the flat view.

  /** `s` with every bit from index `ndx` on replaced by `b`; `s` itself
      when `ndx >= |s|`. */
  function SetFrom(s: seq<bool>, ndx: nat, b: bool): (r: seq<bool>)
    ensures |r| == |s|
    ensures forall i :: 0 <= i < |s| ==> r[i] == if i < ndx then s[i] else b
  {
    if ndx >= |s| then s else s[..ndx] + Constant(|s| - ndx, b)
  }

  /** Every bit of `s` from index `ndx` on is `b` (vacuous when `ndx >= |s|`). */
  predicate IsFrom(s: seq<bool>, ndx: nat, b: bool)
  {
    forall i :: ndx <= i < |s| ==> s[i] == b
  }

  /** Right after a tail is set to `b` it tests as all `b`, and the bits
      before it are those of `s`. */
  lemma SetFromIsFrom(s: seq<bool>, ndx: nat, b: bool)
    ensures IsFrom(SetFrom(s, ndx, b), ndx, b)
    ensures ndx <= |s| ==> SetFrom(s, ndx, b)[..ndx] == s[..ndx]
    ensures ndx >= |s| ==> SetFrom(s, ndx, b) == s
  {
  }

  /** `r` is the length of the longest common prefix of `a` and `b` when
      only their first `maxLen` bits are compared: they agree below `r`
      and, unless `r` reached `maxLen`, differ at `r`. */
  predicate IsSharedPrefixLen(a: seq<bool>, b: seq<bool>, maxLen: nat, r: nat)
  {
    r <= maxLen <= |a| && maxLen <= |b|
    && (forall i :: 0 <= i < r ==> a[i] == b[i])
    && (r < maxLen ==> a[r] != b[r])
  }

  /** Sequences that differ within their first `n` elements differ within
      any longer prefix. */
  lemma PrefixDiffers(a: seq<bool>, b: seq<bool>, n: nat, m: nat)
    requires n <= m <= |a| && m <= |b| && a[..n] != b[..n]
    ensures a[..m] != b[..m]
  {
    assert a[..m][..n] == a[..n] && b[..m][..n] == b[..n];
  }

  /** The length of the longest common prefix of `a` and `b` within their
      first `maxLen` bits, counted bit by bit from the front. */
  function CommonPrefixLen(a: seq<bool>, b: seq<bool>, maxLen: nat): (r: nat)
    requires maxLen <= |a| && maxLen <= |b|
    ensures r <= maxLen
    decreases maxLen
  {
    if maxLen == 0 || a[0] != b[0] then 0
    else 1 + CommonPrefixLen(a[1..], b[1..], maxLen - 1)
  }

  lemma CommonPrefixNone(a: seq<bool>, b: seq<bool>)
    ensures CommonPrefixLen(a, b, 0) == 0
  {
  }

  /** `CommonPrefixLen` counts bits that agree and stops at the first that
      does not. */
  lemma {:induction false} CommonPrefixLenShared(a: seq<bool>, b: seq<bool>, maxLen: nat)
    requires maxLen <= |a| && maxLen <= |b|
    ensures IsSharedPrefixLen(a, b, maxLen, CommonPrefixLen(a, b, maxLen))
    decreases maxLen
  {
    if maxLen > 0 && a[0] == b[0] {
      CommonPrefixLenShared(a[1..], b[1..], maxLen - 1);
      var r := CommonPrefixLen(a, b, maxLen);
      assert forall i :: 1 <= i < r ==> a[i] == a[1..][i - 1] && b[i] == b[1..][i - 1];
    }
  }

  /** `IsSharedPrefixLen` pins its length down: it holds of exactly one
      value, `CommonPrefixLen`. */
  lemma {:induction false} SharedPrefixLenUnique(a: seq<bool>, b: seq<bool>, maxLen: nat, r: nat)
    requires maxLen <= |a| && maxLen <= |b|
    ensures IsSharedPrefixLen(a, b, maxLen, r) <==> r == CommonPrefixLen(a, b, maxLen)
  {
    CommonPrefixLenShared(a, b, maxLen);
    var c := CommonPrefixLen(a, b, maxLen);
    if IsSharedPrefixLen(a, b, maxLen, r) && r != c {
      assert false;
    }
  }

  /** Comparing fewer bits caps the common prefix at the smaller bound. */
  lemma {:induction false} CommonPrefixCap(a: seq<bool>, b: seq<bool>, m: nat, m2: nat)
    requires m <= m2 <= |a| && m2 <= |b|
    ensures CommonPrefixLen(a, b, m) == Min(CommonPrefixLen(a, b, m2), m)
  {
    CommonPrefixLenShared(a, b, m2);
    SharedPrefixLenUnique(a, b, m, Min(CommonPrefixLen(a, b, m2), m));
  }

  /** A common prefix of `n` bits made of `p` shared bits and part of a
      pair `x`, `y`, is the pair's whole shared prefix, shifted and capped. */
  lemma {:induction false} CommonPrefixShiftCap(a: seq<bool>, b: seq<bool>, x: seq<bool>, y: seq<bool>, n: nat, p: nat)
    requires n <= |a| && n <= |b| && |x| == |y| && p <= n <= p + |x|
    requires CommonPrefixLen(a, b, n) == p + CommonPrefixLen(x, y, n - p)
    ensures CommonPrefixLen(a, b, n) == Min(n, p + CommonPrefixLen(x, y, |x|))
  {
    CommonPrefixCap(x, y, n - p, |x|);
  }


  /** The common prefix does not depend on which sequence comes first. */
  lemma {:induction false} CommonPrefixLenSymmetric(a: seq<bool>, b: seq<bool>, maxLen: nat)
    requires maxLen <= |a| && maxLen <= |b|
    ensures CommonPrefixLen(a, b, maxLen) == CommonPrefixLen(b, a, maxLen)
    decreases maxLen
  {
    if maxLen > 0 && a[0] == b[0] {
      CommonPrefixLenSymmetric(a[1..], b[1..], maxLen - 1);
    }
  }

  /** The whole bound is shared exactly when the first `maxLen` bits agree. */
  lemma {:induction false} CommonPrefixLenFull(a: seq<bool>, b: seq<bool>, maxLen: nat)
    requires maxLen <= |a| && maxLen <= |b|
    ensures CommonPrefixLen(a, b, maxLen) == maxLen <==> a[..maxLen] == b[..maxLen]
  {
    CommonPrefixLenShared(a, b, maxLen);
    var r := CommonPrefixLen(a, b, maxLen);
    if r < maxLen {
      assert a[..maxLen][r] != b[..maxLen][r];
    } else {
      assert forall i :: 0 <= i < maxLen ==> a[..maxLen][i] == b[..maxLen][i];
    }
  }

  /** Only the first `maxLen` bits of each sequence matter. */
  lemma {:induction false} CommonPrefixLenOfPrefixes(a: seq<bool>, b: seq<bool>, a': seq<bool>, b': seq<bool>, maxLen: nat)
    requires maxLen <= |a| && maxLen <= |b| && maxLen <= |a'| && maxLen <= |b'|
    requires a[..maxLen] == a'[..maxLen] && b[..maxLen] == b'[..maxLen]
    ensures CommonPrefixLen(a, b, maxLen) == CommonPrefixLen(a', b', maxLen)
  {
    var r := CommonPrefixLen(a, b, maxLen);
    CommonPrefixLenShared(a, b, maxLen);
    assert forall i :: 0 <= i < maxLen ==> a[i] == a[..maxLen][i] == a'[i] && b[i] == b[..maxLen][i] == b'[i];
    SharedPrefixLenUnique(a', b', maxLen, r);
  }

  /** Negating one bit twice gives the sequence back. */
  lemma FlipTwice(s: seq<bool>, i: nat)
    requires i < |s|
    ensures s[i := !s[i]][i := !s[i := !s[i]][i]] == s
  {
  }

  /** A sequence spells 2^|s| - 1 exactly when every bit is set. */
  lemma ToNatAllOnes(s: seq<bool>)
    ensures ToNat(s) == LowOnes(|s|) <==> forall i :: 0 <= i < |s| ==> s[i]
  {
    BitsOfLowOnes(|s|, |s|);
    BitsOfToNat(s);
    if forall i :: 0 <= i < |s| ==> s[i] {
      assert Bits(LowOnes(|s|), |s|) == s;
      ToNatOfBits(LowOnes(|s|), |s|);
    }
  }

  // Bit patterns of the masks, and the bitwise identities the word
  // operations rely on, stated on plain bit sequences.

  /** Only bit `k` set. */
  function OneHot(n: nat, k: nat): (r: seq<bool>)
    ensures |r| == n && forall i :: 0 <= i < n ==> r[i] == (i == k)
  {
    seq(n, i => i == k)
  }

  /** Bits `..k` set, the rest clear. */
  function PrefixOnes(n: nat, k: nat): (r: seq<bool>)
    ensures |r| == n && forall i :: 0 <= i < n ==> r[i] == (i < k)
  {
    seq(n, i => i < k)
  }

  /** Bits `k..` set, the rest clear. */
  function SuffixOnes(n: nat, k: nat): (r: seq<bool>)
    ensures |r| == n && forall i :: 0 <= i < n ==> r[i] == (k <= i)
  {
    seq(n, i => k <= i)
  }

  lemma BitsOfPowerIsOneHot(k: nat, n: nat)
    requires k < n
    ensures Bits(Pow2(k), n) == OneHot(n, n - 1 - k)
  {
    BitsOfPower(k, n);
  }

  lemma BitsOfLowOnesIsSuffix(k: nat, n: nat)
    requires k <= n
    ensures Bits(LowOnes(k), n) == SuffixOnes(n, n - k)
  {
    BitsOfLowOnes(k, n);
  }

  lemma NotSuffixOnes(n: nat, k: nat)
    ensures BitNot(SuffixOnes(n, k)) == PrefixOnes(n, k)
  {
  }

  /** Or-ing in a one-hot mask sets that bit; and-ing with its complement
      clears it; xor-ing with it flips it. */
  lemma OneHotIdentities(b: seq<bool>, k: nat)
    requires k < |b|
    ensures BitOr(b, OneHot(|b|, k)) == b[k := true]
    ensures BitAnd(b, BitNot(OneHot(|b|, k))) == b[k := false]
    ensures BitXor(b, OneHot(|b|, k)) == b[k := !b[k]]
  {
    assert BitOr(b, OneHot(|b|, k)) == b[k := true];
    assert BitAnd(b, BitNot(OneHot(|b|, k))) == b[k := false];
    assert BitXor(b, OneHot(|b|, k)) == b[k := !b[k]];
  }

  /** And-ing with a one-hot mask leaves a non-zero value exactly when
      that bit is set. */
  lemma OneHotTest(b: seq<bool>, k: nat)
    requires k < |b|
    ensures ToNat(BitAnd(b, OneHot(|b|, k))) != 0 <==> b[k]
  {
    var m := BitAnd(b, OneHot(|b|, k));
    ToNatZero(m);
    if b[k] {
      assert m[k];
    }
  }

  /** Or-ing in bits `k..` sets them; and-ing with bits `..k` clears the
      others. */
  lemma SuffixIdentities(b: seq<bool>, k: nat)
    ensures BitOr(b, SuffixOnes(|b|, k)) == SetFrom(b, k, true)
    ensures BitAnd(b, PrefixOnes(|b|, k)) == SetFrom(b, k, false)
  {
    assert BitOr(b, SuffixOnes(|b|, k)) == SetFrom(b, k, true);
    assert BitAnd(b, PrefixOnes(|b|, k)) == SetFrom(b, k, false);
  }

  /** Testing bits `k..` against a mask. */
  lemma SuffixTests(b: seq<bool>, k: nat)
    ensures ToNat(BitAnd(b, SuffixOnes(|b|, k))) == 0 <==> IsFrom(b, k, false)
    ensures ToNat(BitOr(b, PrefixOnes(|b|, k))) == LowOnes(|b|) <==> IsFrom(b, k, true)
  {
    var m := BitAnd(b, SuffixOnes(|b|, k));
    ToNatZero(m);
    assert forall i :: 0 <= i < |b| ==> m[i] == (b[i] && k <= i);
    var o := BitOr(b, PrefixOnes(|b|, k));
    ToNatAllOnes(o);
    assert forall i :: 0 <= i < |b| ==> o[i] == (b[i] || i < k);
  }

  /** The difference of `a` and `b` restricted to their first `k` bits is
      zero exactly when they agree there (mask on either side). */
  lemma MaskedDiffZero(a: seq<bool>, b: seq<bool>, k: nat)
    requires |a| == |b| && k <= |a|
    ensures ToNat(BitAnd(PrefixOnes(|a|, k), BitXor(a, b))) == 0 <==> a[..k] == b[..k]
    ensures ToNat(BitAnd(BitXor(a, b), PrefixOnes(|a|, k))) == 0 <==> a[..k] == b[..k]
  {
    var m1 := BitAnd(PrefixOnes(|a|, k), BitXor(a, b));
    var m2 := BitAnd(BitXor(a, b), PrefixOnes(|a|, k));
    ToNatZero(m1);
    ToNatZero(m2);
    if a[..k] != b[..k] {
      var i :| 0 <= i < k && a[..k][i] != b[..k][i];
      assert m1[i] && m2[i];
    } else {
      assert forall i :: 0 <= i < k ==> a[..k][i] == b[..k][i];
    }
  }

  /** The leading clear bits of `a xor b`, capped at `maxLen`, are the
      length of their common prefix. */
  lemma LeadingFalseOfXor(a: seq<bool>, b: seq<bool>, maxLen: nat)
    requires |a| == |b| && maxLen <= |a|
    ensures IsSharedPrefixLen(a, b, maxLen, Min(LeadingFalse(BitXor(a, b)), maxLen))
  {
  }
}
