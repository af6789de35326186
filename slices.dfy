/** A slice of `w`-bit words read as one long big-endian bit string of
    `|s| * w` bits: word 0 holds bits `0..w`, and inside each word bit 0
    is the most significant one. `Flat` is the abstraction function; the
    `slice_*` operations are proved against it. */
module Slices {
  import opened BitSeq
  import opened Increment
  import opened Words

  /** Every element is a `w`-bit word. */
  predicate IsSlice(s: seq<nat>, w: nat)
  {
    forall i :: 0 <= i < |s| ==> IsWord(s[i], w)
  }

  /** The slice as one bit string, word 0 first. */
  function Flat(s: seq<nat>, w: nat): seq<bool>
  {
    if |s| == 0 then [] else Bits(s[0], w) + Flat(s[1..], w)
  }

  // Positions. The source splits a bit index with `/` and `%` by the
  // word width; `Quot` and `Rem` are those operators written as repeated
  // subtraction (`QuotRemSpec`), which keeps every proof about positions
  // linear: bit `e` of word `k` sits at `|Flat(s[..k], w)| + e`.

  /** `Quot(ndx, w)` */
  function Quot(ndx: nat, w: nat): nat
    requires w > 0
  {
    if ndx < w then 0 else 1 + Quot(ndx - w, w)
  }

  /** `Rem(ndx, w)` */
  function Rem(ndx: nat, w: nat): (r: nat)
    requires w > 0
    ensures r < w
  {
    if ndx < w then ndx else Rem(ndx - w, w)
  }

  /** `Quot` and `Rem` are the quotient and the remainder (`Rem` is below
      `w` by its own contract). */
  lemma {:induction false} QuotRemSpec(ndx: nat, w: nat)
    requires w > 0
    ensures ndx == Quot(ndx, w) * w + Rem(ndx, w)
  {
    if ndx >= w {
      QuotRemSpec(ndx - w, w);
    }
  }

  /** `i * w`, by repeated addition. */
  function Times(i: nat, w: nat): nat
  {
    if i == 0 then 0 else Times(i - 1, w) + w
  }

  lemma {:induction false} TimesSpec(i: nat, w: nat)
    ensures Times(i, w) == i * w
  {
    if i > 0 {
      TimesSpec(i - 1, w);
      assert i * w == (i - 1) * w + w;
    }
  }

  /** The first `i` words of a slice hold `i * w` bits. */
  lemma {:induction false} FlatPrefixLength(s: seq<nat>, i: nat, w: nat)
    requires i <= |s|
    ensures |Flat(s[..i], w)| == Times(i, w)
  {
    if i > 0 {
      FlatPrefixLength(s, i - 1, w);
      assert s[..i] == s[..i - 1] + [s[i - 1]];
      FlatAppend(s[..i - 1], [s[i - 1]], w);
      assert |Flat([s[i - 1]], w)| == w;
    }
  }

  /** A slice of `n` words has `n * w` bits. */
  lemma {:induction false} FlatLength(s: seq<nat>, w: nat)
    ensures |Flat(s, w)| == |s| * w
  {
    if |s| > 0 {
      FlatLength(s[1..], w);
      assert |s| * w == (|s| - 1) * w + w;
    }
  }

  /** Slices with the same number of words have flat views of the same
      length. */
  lemma {:induction false} FlatSameLength(s: seq<nat>, t: seq<nat>, w: nat)
    requires |s| == |t|
    ensures |Flat(s, w)| == |Flat(t, w)|
  {
    if |s| > 0 {
      FlatSameLength(s[1..], t[1..], w);
    }
  }

  /** Bit `ndx` is bit `Rem(ndx, w)` of word `Quot(ndx, w)` when that
      word exists, and lies past the flat view otherwise; a bit count
      that fits the slice ends inside a word or right after the last. */
  lemma {:induction false} Locate(s: seq<nat>, ndx: nat, w: nat)
    requires w > 0
    ensures Quot(ndx, w) < |s| ==> ndx == |Flat(s[..Quot(ndx, w)], w)| + Rem(ndx, w)
    ensures Quot(ndx, w) < |s| <==> ndx < |Flat(s, w)|
    ensures ndx <= |Flat(s, w)| ==> Quot(ndx, w) <= |s|
    ensures ndx <= |Flat(s, w)| && Quot(ndx, w) == |s| ==> ndx == |Flat(s, w)| && Rem(ndx, w) == 0
  {
    if ndx >= w && |s| > 0 {
      Locate(s[1..], ndx - w, w);
      var q := Quot(ndx - w, w);
      if q < |s| - 1 {
        assert s[..q + 1][1..] == s[1..][..q];
      }
    }
  }

  /** Slices of the same number of words with the same flat view are
      equal word for word. */
  lemma {:induction false} FlatInjective(s: seq<nat>, t: seq<nat>, w: nat)
    requires IsSlice(s, w) && IsSlice(t, w) && |s| == |t|
    requires Flat(s, w) == Flat(t, w)
    ensures s == t
  {
    if |s| > 0 {
      var fs, ft := Flat(s, w), Flat(t, w);
      assert fs[..w] == Bits(s[0], w) && ft[..w] == Bits(t[0], w);
      BitsInjective(s[0], t[0], w);
      assert Flat(s[1..], w) == fs[w..] && Flat(t[1..], w) == ft[w..];
      FlatInjective(s[1..], t[1..], w);
      assert s == [s[0]] + s[1..] && t == [t[0]] + t[1..];
    }
  }

  // Three-part sequences: a part `x`, a middle `p` and a rest.

  lemma {:induction false} UpdateMiddle(x: seq<bool>, p: seq<bool>, y: seq<bool>, e: nat, b: bool)
    requires e < |p|
    ensures (x + p + y)[|x| + e := b] == x + p[e := b] + y
  {
    assert (x + p + y)[|x| + e := b] == x + p[e := b] + y;
  }

  lemma {:induction false} SetFromMiddle(x: seq<bool>, p: seq<bool>, y: seq<bool>, e: nat, b: bool)
    requires e < |p|
    ensures SetFrom(x + p + y, |x| + e, b) == x + SetFrom(p, e, b) + Constant(|y|, b)
  {
    assert SetFrom(x + p + y, |x| + e, b) == x + SetFrom(p, e, b) + Constant(|y|, b);
  }

  lemma {:induction false} IsFromMiddle(x: seq<bool>, p: seq<bool>, y: seq<bool>, e: nat, b: bool)
    requires e < |p|
    ensures IsFrom(x + p + y, |x| + e, b) <==> IsFrom(p, e, b) && IsFrom(y, 0, b)
  {
    var s := x + p + y;
    if IsFrom(p, e, b) && IsFrom(y, 0, b) {
      forall i | |x| + e <= i < |s|
        ensures s[i] == b
      {
        if i < |x| + |p| {
          assert s[i] == p[i - |x|];
        } else {
          assert s[i] == y[i - |x| - |p|];
        }
      }
    }
    if IsFrom(s, |x| + e, b) {
      assert forall i :: e <= i < |p| ==> p[i] == s[|x| + i];
      assert forall i :: 0 <= i < |y| ==> y[i] == s[|x| + |p| + i];
    }
  }

  lemma {:induction false} PrefixMiddle(x: seq<bool>, p: seq<bool>, q: seq<bool>, y: seq<bool>, z: seq<bool>, e: nat)
    requires |p| == |q| && e <= |p|
    ensures (x + p + y)[..|x| + e] == (x + q + z)[..|x| + e] <==> p[..e] == q[..e]
  {
    assert (x + p + y)[..|x| + e] == x + p[..e];
    assert (x + q + z)[..|x| + e] == x + q[..e];
    if x + p[..e] == x + q[..e] {
      assert p[..e] == (x + p[..e])[|x|..];
    }
  }

  /** Behind a common front `x`, two sequences share as much of a prefix
      as their middles `p` and `q` do. */
  lemma {:induction false} CommonPrefixMiddle(x: seq<bool>, p: seq<bool>, q: seq<bool>, y: seq<bool>, z: seq<bool>,
                                              n: nat, m: nat)
    requires |p| == |q| && m <= |p| && n == |x| + m
    ensures CommonPrefixLen(x + p + y, x + q + z, n) == |x| + CommonPrefixLen(p, q, m)
  {
    var a := x + p + y;
    var b := x + q + z;
    var r := CommonPrefixLen(p, q, m);
    CommonPrefixLenShared(p, q, m);
    forall i | 0 <= i < |x| + r
      ensures a[i] == b[i]
    {
      if i >= |x| {
        assert a[i] == p[i - |x|] && b[i] == q[i - |x|];
      }
    }
    if r < m {
      assert a[|x| + r] == p[r] && b[|x| + r] == q[r];
    }
    SharedPrefixLenUnique(a, b, |x| + m, |x| + r);
  }

  // The flat view of slices.

  lemma {:induction false} FlatAppend(a: seq<nat>, b: seq<nat>, w: nat)
    ensures Flat(a + b, w) == Flat(a, w) + Flat(b, w)
  {
    if |a| > 0 {
      assert (a + b)[1..] == a[1..] + b;
      FlatAppend(a[1..], b, w);
    } else {
      assert a + b == b;
    }
  }

  /** Every word of the first `i` adds `w` bits to the prefix. */
  lemma {:induction false} FlatPrefixGrows(s: seq<nat>, j: nat, i: nat, w: nat)
    requires j < i <= |s|
    ensures |Flat(s[..j], w)| + w <= |Flat(s[..i], w)|
  {
    assert s[..i] == s[..j] + s[j..i];
    FlatAppend(s[..j], s[j..i], w);
  }

  /** The flat view around word `k`. */
  lemma {:induction false} FlatSplit(s: seq<nat>, k: nat, w: nat)
    requires k < |s|
    ensures Flat(s, w) == Flat(s[..k], w) + Bits(s[k], w) + Flat(s[k + 1..], w)
  {
    assert s == s[..k] + [s[k]] + s[k + 1..];
    FlatAppend(s[..k] + [s[k]], s[k + 1..], w);
    FlatAppend(s[..k], [s[k]], w);
    assert Flat([s[k]], w) == Bits(s[k], w) + Flat([], w);
  }

  /** Replacing the words from `k` on by words again leaves a slice. */
  lemma {:induction false} SliceReplaceTail(s: seq<nat>, k: nat, v: nat, u: nat, w: nat)
    requires IsSlice(s, w) && k < |s| && IsWord(v, w) && IsWord(u, w)
    ensures IsSlice(s[..k] + [v] + Constant(|s| - k - 1, u), w)
  {
    var t := s[..k] + [v] + Constant(|s| - k - 1, u);
    forall j | 0 <= j < |t|
      ensures IsWord(t[j], w)
    {
      if j < k {
        assert t[j] == s[j];
      } else if j > k {
        assert t[j] == u;
      }
    }
  }

  /** The flat view of a slice whose words from `k` on are replaced by
      `v` followed by copies of `u`. */
  lemma {:induction false} FlatReplaceTail(s: seq<nat>, k: nat, v: nat, u: nat, w: nat)
    requires k < |s|
    ensures Flat(s[..k] + [v] + Constant(|s| - k - 1, u), w)
            == Flat(s[..k], w) + Bits(v, w) + Flat(Constant(|s| - k - 1, u), w)
  {
    var t := s[..k] + [v] + Constant(|s| - k - 1, u);
    FlatSplit(t, k, w);
    assert t[..k] == s[..k] && t[k + 1..] == Constant(|s| - k - 1, u);
  }

  /** The flat view of words all equal to one whose bits are all `b`. */
  lemma {:induction false} FlatConstant(t: seq<nat>, v: nat, b: bool, w: nat)
    requires forall j :: 0 <= j < |t| ==> t[j] == v
    requires Bits(v, w) == Constant(w, b)
    ensures Flat(t, w) == Constant(|Flat(t, w)|, b)
  {
    if |t| > 0 {
      FlatConstant(t[1..], v, b, w);
      assert Flat(t, w) == Constant(w, b) + Constant(|Flat(t[1..], w)|, b);
    }
  }

  /** Words that wrapped around to zero, in place of `n` words. */
  lemma {:induction false} FlatZeros(n: nat, t: seq<nat>, w: nat)
    requires |t| == n
    ensures Flat(Constant(n, 0), w) == Constant(|Flat(t, w)|, false)
  {
    ZeroWord(w);
    FlatConstant(Constant(n, 0), 0, false, w);
    FlatSameLength(Constant(n, 0), t, w);
  }

  /** Words that are all `!0` are all set bits. */
  lemma {:induction false} FlatOnes(t: seq<nat>, w: nat)
    requires forall j :: 0 <= j < |t| ==> t[j] == LowOnes(w)
    ensures forall i :: 0 <= i < |Flat(t, w)| ==> Flat(t, w)[i]
  {
    AllOnesWord(w);
    FlatConstant(t, LowOnes(w), true, w);
  }

  /** A slice's bits are all `b` exactly when each word is `v`, the word
      whose bits are all `b`. */
  lemma {:induction false} FlatAllSame(t: seq<nat>, v: nat, b: bool, w: nat)
    requires IsSlice(t, w) && IsWord(v, w) && Bits(v, w) == Constant(w, b)
    ensures IsFrom(Flat(t, w), 0, b) <==> forall j :: 0 <= j < |t| ==> t[j] == v
  {
    if forall j :: 0 <= j < |t| ==> t[j] == v {
      FlatConstant(t, v, b, w);
    } else {
      var j :| 0 <= j < |t| && t[j] != v;
      FlatSplit(t, j, w);
      if Bits(t[j], w) == Bits(v, w) {
        BitsInjective(t[j], v, w);
      }
      IsFromMiddle(Flat(t[..j], w), Bits(t[j], w), Flat(t[j + 1..], w), 0, b);
      assert !IsFrom(Bits(t[j], w), 0, b);
    }
  }

  /** Bit `e` of word `k` sits at `|Flat(s[..k], w)| + e`. */
  lemma {:induction false} FlatAt(s: seq<nat>, k: nat, e: nat, w: nat)
    requires k < |s| && e < w
    ensures |Flat(s[..k], w)| + e < |Flat(s, w)|
    ensures Flat(s, w)[|Flat(s[..k], w)| + e] == Bits(s[k], w)[e]
  {
    FlatSplit(s, k, w);
  }

  /** Replacing word `k` by one whose bits are those of the old word with
      bit `e` changed changes the flat view at that bit only. */
  lemma {:induction false} FlatUpdateBit(s: seq<nat>, k: nat, e: nat, v: nat, b: bool, w: nat)
    requires k < |s| && e < w && Bits(v, w) == Bits(s[k], w)[e := b]
    ensures |Flat(s[..k], w)| + e < |Flat(s, w)|
    ensures Flat(s[k := v], w) == Flat(s, w)[|Flat(s[..k], w)| + e := b]
  {
    FlatSplit(s, k, w);
    FlatSplit(s[k := v], k, w);
    assert s[k := v][..k] == s[..k] && s[k := v][k + 1..] == s[k + 1..];
    UpdateMiddle(Flat(s[..k], w), Bits(s[k], w), Flat(s[k + 1..], w), e, b);
  }

  /** Two slices that agree on their first `k` words agree on the bits of
      those words. */
  lemma {:induction false} FlatPrefix(s: seq<nat>, t: seq<nat>, k: nat, w: nat)
    requires k <= |s| && k <= |t| && s[..k] == t[..k]
    ensures |Flat(s[..k], w)| <= |Flat(s, w)| && |Flat(s[..k], w)| <= |Flat(t, w)|
    ensures Flat(s, w)[..|Flat(s[..k], w)|] == Flat(t, w)[..|Flat(s[..k], w)|]
  {
    assert s == s[..k] + s[k..] && t == t[..k] + t[k..];
    FlatAppend(s[..k], s[k..], w);
    FlatAppend(t[..k], t[k..], w);
  }

  // The slice operations.

  /** `slice_get` */
  function SliceGet(s: seq<nat>, ndx: nat, w: nat): bool
    requires w > 0 && ndx < |Flat(s, w)|
  {
    Locate(s, ndx, w);
    ElementGet(s[Quot(ndx, w)], Rem(ndx, w), w)
  }

  /** `slice_get` reads bit `ndx` of the flat view. */
  lemma {:induction false} SliceGetSpec(s: seq<nat>, ndx: nat, w: nat)
    requires w > 0 && ndx < |Flat(s, w)|
    ensures SliceGet(s, ndx, w) == Flat(s, w)[ndx]
  {
    Locate(s, ndx, w);
    FlatAt(s, Quot(ndx, w), Rem(ndx, w), w);
    ElementGetSpec(s[Quot(ndx, w)], Rem(ndx, w), w);
  }

  /** The word holding bit `ndx` of the flat view is a word of the slice. */
  lemma {:induction false} QuotInside(s: seq<nat>, ndx: nat, w: nat)
    requires w > 0 && ndx < |Flat(s, w)|
    ensures Quot(ndx, w) < |s|
  {
    Locate(s, ndx, w);
  }

  /** Replacing the word holding bit `ndx` by one that differs from it
      at most at that bit sets that bit of the flat view to `b`. */
  lemma {:induction false} FlatUpdateAt(s: seq<nat>, ndx: nat, v: nat, b: bool, w: nat)
    requires w > 0 && ndx < |Flat(s, w)| && Quot(ndx, w) < |s|
    requires Bits(v, w) == Bits(s[Quot(ndx, w)], w)[Rem(ndx, w) := b]
    ensures Flat(s[Quot(ndx, w) := v], w) == Flat(s, w)[ndx := b]
  {
    Locate(s, ndx, w);
    FlatUpdateBit(s, Quot(ndx, w), Rem(ndx, w), v, b, w);
  }

  /** Replacing the word holding bit `ndx` by that word with the bit
      inverted inverts that bit of the flat view. */
  lemma {:induction false} FlatFlipAt(s: seq<nat>, ndx: nat, v: nat, w: nat)
    requires w > 0 && ndx < |Flat(s, w)| && Quot(ndx, w) < |s|
    requires Bits(v, w) == Bits(s[Quot(ndx, w)], w)[Rem(ndx, w) := !Bits(s[Quot(ndx, w)], w)[Rem(ndx, w)]]
    ensures Flat(s[Quot(ndx, w) := v], w) == Flat(s, w)[ndx := !Flat(s, w)[ndx]]
  {
    Locate(s, ndx, w);
    FlatAt(s, Quot(ndx, w), Rem(ndx, w), w);
    FlatUpdateAt(s, ndx, v, !Bits(s[Quot(ndx, w)], w)[Rem(ndx, w)], w);
  }

  /** `slice_set`: bit `ndx` becomes `bit`, no other bit changes. */
  method SliceSet(a: array<nat>, ndx: nat, bit: bool, w: nat)
    requires w > 0 && IsSlice(a[..], w) && ndx < |Flat(a[..], w)|
    modifies a
    ensures IsSlice(a[..], w)
    ensures Flat(a[..], w) == old(Flat(a[..], w))[ndx := bit]
  {
    ghost var s := a[..];
    var sliceNdx := Quot(ndx, w);
    QuotInside(s, ndx, w);
    var v := ElementSet(a[sliceNdx], Rem(ndx, w), bit, w);
    ElementSetSpec(a[sliceNdx], Rem(ndx, w), bit, w);
    FlatUpdateAt(s, ndx, v, bit, w);
    a[sliceNdx] := v;
    assert a[..] == s[sliceNdx := v];
  }

  /** `slice_flip`: bit `ndx` is inverted, no other bit changes. */
  method SliceFlip(a: array<nat>, ndx: nat, w: nat)
    requires w > 0 && IsSlice(a[..], w) && ndx < |Flat(a[..], w)|
    modifies a
    ensures IsSlice(a[..], w)
    ensures Flat(a[..], w) == old(Flat(a[..], w))[ndx := !old(Flat(a[..], w))[ndx]]
  {
    ghost var s := a[..];
    var sliceNdx := Quot(ndx, w);
    QuotInside(s, ndx, w);
    var v := ElementFlip(a[sliceNdx], Rem(ndx, w), w);
    ElementFlipSpec(a[sliceNdx], Rem(ndx, w), w);
    FlatFlipAt(s, ndx, v, w);
    a[sliceNdx] := v;
    assert a[..] == s[sliceNdx := v];
  }

  /** `slice_flip` applied twice at one index gives back the same words. */
  method SliceFlipTwice(a: array<nat>, ndx: nat, w: nat)
    requires w > 0 && IsSlice(a[..], w) && ndx < |Flat(a[..], w)|
    modifies a
    ensures a[..] == old(a[..])
  {
    ghost var s := a[..];
    SliceFlip(a, ndx, w);
    SliceFlip(a, ndx, w);
    FlipTwice(Flat(s, w), ndx);
    FlatInjective(a[..], s, w);
  }

  // slice_inc

  /** The carry stops in word `i`, after the one holding the prefix
      boundary: the words after `i` were all `!0` and wrap to `0`, word
      `i` grows by one, the words before are untouched. */
  lemma {:induction false} IncStop(s: seq<nat>, i: nat, prefix: nat, w: nat)
    requires w > 0 && IsSlice(s, w) && Quot(prefix, w) < i < |s|
    requires forall j :: i < j < |s| ==> s[j] == LowOnes(w)
    requires !OverflowingInc(s[i], w).1
    ensures IncFrom(Flat(s, w), prefix)
            == (Flat(s[..i] + [OverflowingInc(s[i], w).0] + Constant(|s| - i - 1, 0), w), false)
  {
    Locate(s, prefix, w);
    FlatPrefixGrows(s, Quot(prefix, w), i, w);
    FlatSplit(s, i, w);
    FlatOnes(s[i + 1..], w);
    OverflowingIncBits(s[i], w);
    IncFromStop(Flat(s[..i], w), Bits(s[i], w), Flat(s[i + 1..], w), prefix);
    FlatReplaceTail(s, i, OverflowingInc(s[i], w).0, 0, w);
    FlatZeros(|s| - i - 1, s[i + 1..], w);
  }

  /** The carry reaches word `q`, the one holding the prefix boundary at
      bit `e`: the words after it were all `!0` and wrap to `0`. */
  lemma {:induction false} IncLast(s: seq<nat>, q: nat, e: nat, n: nat, w: nat)
    requires IsSlice(s, w) && q < |s| && e < w && n == |Flat(s[..q], w)| + e
    requires forall j :: q < j < |s| ==> s[j] == LowOnes(w)
    ensures IncFrom(Flat(s, w), n)
            == (Flat(s[..q] + [ElementInc(s[q], e, w).0] + Constant(|s| - q - 1, 0), w),
                ElementInc(s[q], e, w).1)
  {
    var x, p, t := Flat(s[..q], w), Bits(s[q], w), Flat(s[q + 1..], w);
    FlatSplit(s, q, w);
    FlatOnes(s[q + 1..], w);
    IncFromInto(x, p, t, e, n);
    ElementIncSpec(s[q], e, w);
    FlatReplaceTail(s, q, ElementInc(s[q], e, w).0, 0, w);
    FlatZeros(|s| - q - 1, s[q + 1..], w);
  }

  /** A `prefix` beyond the last word leaves no bit to increment: the
      increment overflows and changes nothing. */
  lemma {:induction false} IncBeyond(s: seq<nat>, prefix: nat, w: nat)
    requires w > 0 && |s| <= Quot(prefix, w) && (Quot(prefix, w) < |s| || Rem(prefix, w) == 0)
    ensures IncFrom(Flat(s, w), prefix) == (Flat(s, w), true)
  {
    Locate(s, prefix, w);
    IncFromPrefix(Flat(s, w), prefix);
  }

  /** A slice that agrees with `s` before word `i`, holds `v` at `i` and
      copies of `u` after it: its shape, and that it is still a slice. */
  lemma {:induction false} TailShape(s: seq<nat>, t: seq<nat>, i: nat, v: nat, u: nat, w: nat)
    requires IsSlice(s, w) && IsWord(v, w) && IsWord(u, w)
    requires i < |s| && |t| == |s| && t[i] == v
    requires forall j :: 0 <= j < i ==> t[j] == s[j]
    requires forall j :: i < j < |s| ==> t[j] == u
    ensures t == s[..i] + [v] + Constant(|s| - i - 1, u)
    ensures IsSlice(t, w)
  {
    assert t == s[..i] + [v] + Constant(|s| - i - 1, u);
    SliceReplaceTail(s, i, v, u, w);
  }

  /** `IncStop` for a slice `t` described word by word. */
  lemma {:induction false} IncStopInto(s: seq<nat>, t: seq<nat>, i: nat, prefix: nat, w: nat)
    requires w > 0 && IsSlice(s, w) && Quot(prefix, w) < i < |s| && |t| == |s|
    requires forall j :: i < j < |s| ==> s[j] == LowOnes(w) && t[j] == 0
    requires forall j :: 0 <= j < i ==> t[j] == s[j]
    requires !OverflowingInc(s[i], w).1 && t[i] == OverflowingInc(s[i], w).0
    ensures IsSlice(t, w)
    ensures IncFrom(Flat(s, w), prefix) == (Flat(t, w), false)
  {
    ZeroWord(w);
    TailShape(s, t, i, t[i], 0, w);
    IncStop(s, i, prefix, w);
  }

  /** `IncLast` for a slice `t` described word by word. */
  lemma {:induction false} IncLastInto(s: seq<nat>, t: seq<nat>, prefix: nat, w: nat)
    requires w > 0 && IsSlice(s, w) && Quot(prefix, w) < |s| && |t| == |s|
    requires forall j :: Quot(prefix, w) < j < |s| ==> s[j] == LowOnes(w) && t[j] == 0
    requires forall j :: 0 <= j < Quot(prefix, w) ==> t[j] == s[j]
    requires t[Quot(prefix, w)] == ElementInc(s[Quot(prefix, w)], Rem(prefix, w), w).0
    ensures IsSlice(t, w)
    ensures IncFrom(Flat(s, w), prefix) == (Flat(t, w), ElementInc(s[Quot(prefix, w)], Rem(prefix, w), w).1)
  {
    var q := Quot(prefix, w);
    Locate(s, prefix, w);
    IncLast(s, q, Rem(prefix, w), prefix, w);
    var v := ElementInc(s[q], Rem(prefix, w), w).0;
    assert IsWord(v, w);
    ZeroWord(w);
    TailShape(s, t, q, v, 0, w);
  }

  /** `slice_inc`: increments the bits after the first `prefix` ones as a
      number of their own, reporting a wrap-around. A `prefix` beyond the
      slice is accepted only when it ends on a word boundary. */
  method SliceInc(a: array<nat>, prefix: nat, w: nat) returns (overflow: bool)
    requires w > 0 && IsSlice(a[..], w)
    requires Quot(prefix, w) < a.Length || Rem(prefix, w) == 0
    modifies a
    ensures IsSlice(a[..], w)
    ensures (Flat(a[..], w), overflow) == IncFrom(old(Flat(a[..], w)), prefix)
  {
    var sliceNdx := Quot(prefix, w);
    var elementNdx := Rem(prefix, w);
    ghost var s := a[..];
    if sliceNdx >= a.Length {
      IncBeyond(s, prefix, w);
      return true;
    }
    var i := a.Length;
    while i > sliceNdx + 1
      invariant sliceNdx + 1 <= i <= a.Length
      invariant forall j :: 0 <= j < i ==> a[j] == s[j]
      invariant forall j :: i <= j < a.Length ==> s[j] == LowOnes(w) && a[j] == 0
    {
      i := i - 1;
      var r := OverflowingInc(a[i], w);
      a[i] := r.0;
      if !r.1 {
        IncStopInto(s, a[..], i, prefix, w);
        return false;
      }
    }
    var r := ElementInc(a[sliceNdx], elementNdx, w);
    a[sliceNdx] := r.0;
    IncLastInto(s, a[..], prefix, w);
    return r.1;
  }

  // set_false_from / set_true_from

  /** Replacing word `q` by `v`, whose bits are those of the old word set
      to `b` from bit `e` on, and every later word by `u`, whose bits are
      all `b`, sets the flat view to `b` from bit `e` of word `q` on. */
  lemma {:induction false} FlatSetFrom(s: seq<nat>, q: nat, e: nat, v: nat, u: nat, b: bool, w: nat)
    requires q < |s| && e < w
    requires Bits(v, w) == SetFrom(Bits(s[q], w), e, b) && Bits(u, w) == Constant(w, b)
    ensures Flat(s[..q] + [v] + Constant(|s| - q - 1, u), w)
            == SetFrom(Flat(s, w), |Flat(s[..q], w)| + e, b)
  {
    FlatSplit(s, q, w);
    FlatReplaceTail(s, q, v, u, w);
    FlatConstant(Constant(|s| - q - 1, u), u, b, w);
    FlatSameLength(Constant(|s| - q - 1, u), s[q + 1..], w);
    SetFromMiddle(Flat(s[..q], w), Bits(s[q], w), Flat(s[q + 1..], w), e, b);
  }

  /** `FlatSetFrom` with the boundary given as a bit index. */
  lemma {:induction false} FlatSetFromAt(s: seq<nat>, ndx: nat, v: nat, u: nat, b: bool, w: nat)
    requires w > 0 && Quot(ndx, w) < |s|
    requires Bits(v, w) == SetFrom(Bits(s[Quot(ndx, w)], w), Rem(ndx, w), b) && Bits(u, w) == Constant(w, b)
    ensures Flat(s[..Quot(ndx, w)] + [v] + Constant(|s| - Quot(ndx, w) - 1, u), w) == SetFrom(Flat(s, w), ndx, b)
  {
    Locate(s, ndx, w);
    FlatSetFrom(s, Quot(ndx, w), Rem(ndx, w), v, u, b, w);
  }

  /** Setting from a bit past the end changes nothing. */
  lemma {:induction false} SetFromBeyond(s: seq<nat>, ndx: nat, b: bool, w: nat)
    requires w > 0 && |s| <= Quot(ndx, w)
    ensures SetFrom(Flat(s, w), ndx, b) == Flat(s, w)
  {
    Locate(s, ndx, w);
  }

  /** `FlatSetFromAt` for a slice `t` described word by word. */
  lemma {:induction false} SetFromInto(s: seq<nat>, t: seq<nat>, ndx: nat, v: nat, u: nat, b: bool, w: nat)
    requires w > 0 && IsSlice(s, w) && Quot(ndx, w) < |s| && |t| == |s|
    requires IsWord(v, w) && Bits(v, w) == SetFrom(Bits(s[Quot(ndx, w)], w), Rem(ndx, w), b)
    requires IsWord(u, w) && Bits(u, w) == Constant(w, b)
    requires forall j :: 0 <= j < Quot(ndx, w) ==> t[j] == s[j]
    requires t[Quot(ndx, w)] == v
    requires forall j :: Quot(ndx, w) < j < |s| ==> t[j] == u
    ensures IsSlice(t, w)
    ensures Flat(t, w) == SetFrom(Flat(s, w), ndx, b)
  {
    TailShape(s, t, Quot(ndx, w), v, u, w);
    FlatSetFromAt(s, ndx, v, u, b, w);
  }

  /** `SetFromInto` for the word `element_set_false_from` computes and
      zero words after it. */
  lemma {:induction false} SetFalseFromInto(s: seq<nat>, t: seq<nat>, ndx: nat, w: nat)
    requires w > 0 && IsSlice(s, w) && Quot(ndx, w) < |s| && |t| == |s|
    requires forall j :: 0 <= j < Quot(ndx, w) ==> t[j] == s[j]
    requires t[Quot(ndx, w)] == ElementSetFalseFrom(s[Quot(ndx, w)], Rem(ndx, w), w)
    requires forall j :: Quot(ndx, w) < j < |s| ==> t[j] == 0
    ensures IsSlice(t, w)
    ensures Flat(t, w) == SetFrom(Flat(s, w), ndx, false)
  {
    ElementSetFalseFromSpec(s[Quot(ndx, w)], Rem(ndx, w), w);
    ZeroWord(w);
    SetFromInto(s, t, ndx, t[Quot(ndx, w)], 0, false, w);
  }

  /** `slice_set_false_from`: every bit from `ndx` on becomes `false`;
      nothing changes when `ndx` is past the end. */
  method SliceSetFalseFrom(a: array<nat>, ndx: nat, w: nat)
    requires w > 0 && IsSlice(a[..], w)
    modifies a
    ensures IsSlice(a[..], w)
    ensures Flat(a[..], w) == SetFrom(old(Flat(a[..], w)), ndx, false)
  {
    var sliceNdx := Quot(ndx, w);
    ghost var s := a[..];
    if sliceNdx >= a.Length {
      SetFromBeyond(s, ndx, false, w);
      return;
    }
    var v := ElementSetFalseFrom(a[sliceNdx], Rem(ndx, w), w);
    a[sliceNdx] := v;
    for i := sliceNdx + 1 to a.Length
      invariant forall j :: 0 <= j < sliceNdx ==> a[j] == s[j]
      invariant a[sliceNdx] == v
      invariant forall j :: sliceNdx < j < i ==> a[j] == 0
    {
      a[i] := 0;
    }
    SetFalseFromInto(s, a[..], ndx, w);
  }

  /** `SetFromInto` for the word `element_set_true_from` computes and
      all-ones words after it. */
  lemma {:induction false} SetTrueFromInto(s: seq<nat>, t: seq<nat>, ndx: nat, w: nat)
    requires w > 0 && IsSlice(s, w) && Quot(ndx, w) < |s| && |t| == |s|
    requires forall j :: 0 <= j < Quot(ndx, w) ==> t[j] == s[j]
    requires t[Quot(ndx, w)] == ElementSetTrueFrom(s[Quot(ndx, w)], Rem(ndx, w), w)
    requires forall j :: Quot(ndx, w) < j < |s| ==> t[j] == LowOnes(w)
    ensures IsSlice(t, w)
    ensures Flat(t, w) == SetFrom(Flat(s, w), ndx, true)
  {
    ElementSetTrueFromSpec(s[Quot(ndx, w)], Rem(ndx, w), w);
    AllOnesWord(w);
    SetFromInto(s, t, ndx, t[Quot(ndx, w)], LowOnes(w), true, w);
  }

  /** `slice_set_true_from`: every bit from `ndx` on becomes `true`;
      nothing changes when `ndx` is past the end. */
  method SliceSetTrueFrom(a: array<nat>, ndx: nat, w: nat)
    requires w > 0 && IsSlice(a[..], w)
    modifies a
    ensures IsSlice(a[..], w)
    ensures Flat(a[..], w) == SetFrom(old(Flat(a[..], w)), ndx, true)
  {
    var sliceNdx := Quot(ndx, w);
    ghost var s := a[..];
    if sliceNdx >= a.Length {
      SetFromBeyond(s, ndx, true, w);
      return;
    }
    var v := ElementSetTrueFrom(a[sliceNdx], Rem(ndx, w), w);
    a[sliceNdx] := v;
    var ones := LowOnes(w);
    for i := sliceNdx + 1 to a.Length
      invariant forall j :: 0 <= j < sliceNdx ==> a[j] == s[j]
      invariant a[sliceNdx] == v
      invariant forall j :: sliceNdx < j < i ==> a[j] == ones
    {
      a[i] := ones;
    }
    SetTrueFromInto(s, a[..], ndx, w);
  }

  // is_false_from / is_true_from

  /** The flat view is `b` from bit `e` of word `q` on exactly when that
      word is `b` from bit `e` on and every later word is all `b`. */
  lemma {:induction false} FlatIsFrom(s: seq<nat>, q: nat, e: nat, b: bool, w: nat)
    requires q < |s| && e < w
    ensures IsFrom(Flat(s, w), |Flat(s[..q], w)| + e, b)
            <==> IsFrom(Bits(s[q], w), e, b) && IsFrom(Flat(s[q + 1..], w), 0, b)
  {
    FlatSplit(s, q, w);
    IsFromMiddle(Flat(s[..q], w), Bits(s[q], w), Flat(s[q + 1..], w), e, b);
  }

  /** The flat view is `b` from bit `ndx` on exactly when word `Quot(ndx, w)`
      is `b` from bit `Rem(ndx, w)` on and every later word is `v`, the word
      whose bits are all `b`. */
  lemma {:induction false} FlatIsFromAt(s: seq<nat>, ndx: nat, v: nat, b: bool, w: nat)
    requires w > 0 && IsSlice(s, w) && Quot(ndx, w) < |s|
    requires IsWord(v, w) && Bits(v, w) == Constant(w, b)
    ensures IsFrom(Flat(s, w), ndx, b)
            <==> IsFrom(Bits(s[Quot(ndx, w)], w), Rem(ndx, w), b) && forall j :: Quot(ndx, w) < j < |s| ==> s[j] == v
  {
    var q := Quot(ndx, w);
    Locate(s, ndx, w);
    FlatIsFrom(s, q, Rem(ndx, w), b, w);
    var t := s[q + 1..];
    FlatAllSame(t, v, b, w);
    assert (forall j :: 0 <= j < |t| ==> t[j] == v) <==> (forall j :: q < j < |s| ==> s[j] == v) by {
      if forall j :: 0 <= j < |t| ==> t[j] == v {
        forall j | q < j < |s|
          ensures s[j] == v
        {
          assert s[j] == t[j - q - 1];
        }
      }
    }
  }

  /** `FlatIsFromAt` for clear bits and for set bits. */
  lemma {:induction false} FlatIsFalseFromAt(s: seq<nat>, ndx: nat, w: nat)
    requires w > 0 && IsSlice(s, w) && Quot(ndx, w) < |s|
    ensures IsFrom(Flat(s, w), ndx, false)
            <==> ElementIsFalseFrom(s[Quot(ndx, w)], Rem(ndx, w), w)
                 && forall j :: Quot(ndx, w) < j < |s| ==> s[j] == 0
  {
    ZeroWord(w);
    ElementIsFalseFromSpec(s[Quot(ndx, w)], Rem(ndx, w), w);
    FlatIsFromAt(s, ndx, 0, false, w);
  }

  lemma {:induction false} FlatIsTrueFromAt(s: seq<nat>, ndx: nat, w: nat)
    requires w > 0 && IsSlice(s, w) && Quot(ndx, w) < |s|
    ensures IsFrom(Flat(s, w), ndx, true)
            <==> ElementIsTrueFrom(s[Quot(ndx, w)], Rem(ndx, w), w)
                 && forall j :: Quot(ndx, w) < j < |s| ==> s[j] == LowOnes(w)
  {
    AllOnesWord(w);
    ElementIsTrueFromSpec(s[Quot(ndx, w)], Rem(ndx, w), w);
    FlatIsFromAt(s, ndx, LowOnes(w), true, w);
  }

  /** `slice[from..].iter().all(|&x| x == v)` */
  method AllWordsAre(s: seq<nat>, from: nat, v: nat) returns (r: bool)
    ensures r <==> forall j :: from <= j < |s| ==> s[j] == v
  {
    var i := from;
    while i < |s|
      invariant from <= i || |s| <= from
      invariant forall j :: from <= j < i && j < |s| ==> s[j] == v
    {
      if s[i] != v {
        return false;
      }
      i := i + 1;
    }
    return true;
  }

  /** `slice_is_false_from`: whether every bit from `ndx` on is `false`
      (vacuously so past the end). */
  method SliceIsFalseFrom(s: seq<nat>, ndx: nat, w: nat) returns (r: bool)
    requires w > 0 && IsSlice(s, w)
    ensures r <==> IsFrom(Flat(s, w), ndx, false)
  {
    var sliceNdx := Quot(ndx, w);
    if sliceNdx >= |s| {
      Locate(s, ndx, w);
      return true;
    }
    FlatIsFalseFromAt(s, ndx, w);
    if !ElementIsFalseFrom(s[sliceNdx], Rem(ndx, w), w) {
      return false;
    }
    r := AllWordsAre(s, sliceNdx + 1, 0);
  }

  /** `slice_is_true_from`: whether every bit from `ndx` on is `true`
      (vacuously so past the end). */
  method SliceIsTrueFrom(s: seq<nat>, ndx: nat, w: nat) returns (r: bool)
    requires w > 0 && IsSlice(s, w)
    ensures r <==> IsFrom(Flat(s, w), ndx, true)
  {
    var sliceNdx := Quot(ndx, w);
    if sliceNdx >= |s| {
      Locate(s, ndx, w);
      return true;
    }
    FlatIsTrueFromAt(s, ndx, w);
    if !ElementIsTrueFrom(s[sliceNdx], Rem(ndx, w), w) {
      return false;
    }
    r := AllWordsAre(s, sliceNdx + 1, LowOnes(w));
  }

  // shared_prefix_len / contains

  /** Slices that agree on their first `i` words share, within the first
      `n` bits, where bit `n` lies `m` bits into word `i`, the words before
      plus as much of a prefix as words `i` share within `m` bits. */
  lemma {:induction false} FlatCommonPrefix(s: seq<nat>, o: seq<nat>, i: nat, n: nat, m: nat, w: nat)
    requires i < |s| && i < |o| && s[..i] == o[..i]
    requires m <= w && n == |Flat(s[..i], w)| + m
    ensures n <= |Flat(s, w)| && n <= |Flat(o, w)|
    ensures CommonPrefixLen(Flat(s, w), Flat(o, w), n)
            == |Flat(s[..i], w)| + CommonPrefixLen(Bits(s[i], w), Bits(o[i], w), m)
  {
    FlatSplit(s, i, w);
    FlatSplit(o, i, w);
    CommonPrefixMiddle(Flat(s[..i], w), Bits(s[i], w), Bits(o[i], w),
                       Flat(s[i + 1..], w), Flat(o[i + 1..], w), n, m);
  }

  /** A word before the one holding bit `n - 1` ends at or before bit `n`. */
  lemma {:induction false} WordBefore(s: seq<nat>, i: nat, n: nat, w: nat)
    requires w > 0 && 0 < n <= |Flat(s, w)| && i < Quot(n - 1, w)
    ensures i < |s| && |Flat(s[..i], w)| + w <= n && |Flat(s[..i], w)| == Times(i, w)
  {
    Locate(s, n - 1, w);
    FlatPrefixGrows(s, i, Quot(n - 1, w), w);
    FlatPrefixLength(s, i, w);
  }

  /** The word holding bit `n - 1` starts before bit `n` and ends at or
      after it. */
  lemma {:induction false} WordHolding(s: seq<nat>, n: nat, w: nat)
    requires w > 0 && 0 < n <= |Flat(s, w)|
    ensures Quot(n - 1, w) < |s|
    ensures |Flat(s[..Quot(n - 1, w)], w)| < n <= |Flat(s[..Quot(n - 1, w)], w)| + w
    ensures |Flat(s[..Quot(n - 1, w)], w)| == Times(Quot(n - 1, w), w)
  {
    Locate(s, n - 1, w);
    FlatPrefixLength(s, Quot(n - 1, w), w);
  }

  /** Slices that agree on their first `i` words, where words `i` differ
      after a common prefix of `r` bits and word `i` lies before the one
      holding bit `maxLen - 1`, share a prefix of `i * w + r` bits. */
  lemma {:induction false} SharedPrefixEarly(s: seq<nat>, o: seq<nat>, i: nat, maxLen: nat, r: nat, w: nat)
    requires w > 0 && 0 < maxLen <= |Flat(s, w)| && maxLen <= |Flat(o, w)|
    requires i < Quot(maxLen - 1, w) && i < |s| && i < |o| && s[..i] == o[..i]
    requires r == CommonPrefixLen(Bits(s[i], w), Bits(o[i], w), w) && r < w
    ensures CommonPrefixLen(Flat(s, w), Flat(o, w), maxLen) == Times(i, w) + r
  {
    var p := |Flat(s[..i], w)|;
    WordBefore(s, i, maxLen, w);
    FlatCommonPrefix(s, o, i, p + w, w, w);
    CommonPrefixCap(Flat(s, w), Flat(o, w), p + w, maxLen);
  }

  /** Adding a common offset to both arguments of `Min`. */
  lemma {:induction false} MinShift(p: nat, r: nat, n: nat)
    requires p <= n
    ensures p + Min(r, n - p) == Min(n, p + r)
  {
  }

  /** Slices that agree on the words before the one holding bit
      `maxLen - 1`, where that word's pair shares a prefix of `r` bits,
      share a prefix of `i * w + r` bits capped at `maxLen`; all `maxLen`
      when the pair agrees throughout. */
  lemma {:induction false} SharedPrefixLast(s: seq<nat>, o: seq<nat>, maxLen: nat, q: nat, r: nat, w: nat)
    requires w > 0 && 0 < maxLen <= |Flat(s, w)| && maxLen <= |Flat(o, w)|
    requires q == Quot(maxLen - 1, w) && q < |s| && q < |o| && s[..q] == o[..q]
    requires r == CommonPrefixLen(Bits(s[q], w), Bits(o[q], w), w)
    ensures CommonPrefixLen(Flat(s, w), Flat(o, w), maxLen) == Min(maxLen, Times(q, w) + r)
  {
    WordHolding(s, maxLen, w);
    FlatCommonPrefixCapped(s, o, q, maxLen, |Flat(s[..q], w)|, r, w);
  }

  /** `FlatCommonPrefix` when bit `n` lies inside word `i`, with the
      pair's shared prefix measured over the whole word and capped. */
  lemma {:induction false} FlatCommonPrefixCapped(s: seq<nat>, o: seq<nat>, i: nat, n: nat, p: nat, r: nat, w: nat)
    requires i < |s| && i < |o| && s[..i] == o[..i]
    requires p == |Flat(s[..i], w)| && p <= n <= p + w
    requires r == CommonPrefixLen(Bits(s[i], w), Bits(o[i], w), w)
    ensures n <= |Flat(s, w)| && n <= |Flat(o, w)|
    ensures CommonPrefixLen(Flat(s, w), Flat(o, w), n) == Min(n, p + r)
  {
    FlatCommonPrefix(s, o, i, n, n - p, w);
    CommonPrefixShiftCap(Flat(s, w), Flat(o, w), Bits(s[i], w), Bits(o[i], w), n, p);
  }

  /** `SharedPrefixEarly` at the first word `i` where the slices differ,
      the shared bits of that word counted as the leading zeros of the
      xor of the two words. */
  lemma {:induction false} SharedPrefixAtDiff(s: seq<nat>, o: seq<nat>, i: nat, maxLen: nat, diff: nat, w: nat)
    requires w > 0 && IsSlice(s, w) && IsSlice(o, w)
    requires 0 < maxLen <= |Flat(s, w)| && maxLen <= |Flat(o, w)|
    requires i < Quot(maxLen - 1, w) && i < |s| && i < |o| && s[..i] == o[..i] && s[i] != o[i]
    requires diff == Xor(s[i], o[i], w)
    ensures CommonPrefixLen(Flat(s, w), Flat(o, w), maxLen) == Times(i, w) + LeadingZeros(diff, w)
  {
    XorZero(s[i], o[i], w);
    XorLeadingZeros(s[i], o[i], w);
    SharedPrefixEarly(s, o, i, maxLen, LeadingZeros(diff, w), w);
  }

  /** `SharedPrefixLast` with the pair's shared bits counted as the
      leading zeros of their xor. */
  lemma {:induction false} SharedPrefixAtLast(s: seq<nat>, o: seq<nat>, maxLen: nat, q: nat, diff: nat, w: nat)
    requires w > 0 && 0 < maxLen <= |Flat(s, w)| && maxLen <= |Flat(o, w)|
    requires q == Quot(maxLen - 1, w) && q < |s| && q < |o| && s[..q] == o[..q]
    requires IsWord(s[q], w) && IsWord(o[q], w) && diff == Xor(s[q], o[q], w)
    ensures diff != 0 ==> CommonPrefixLen(Flat(s, w), Flat(o, w), maxLen) == Min(maxLen, Times(q, w) + LeadingZeros(diff, w))
    ensures diff == 0 ==> CommonPrefixLen(Flat(s, w), Flat(o, w), maxLen) == maxLen
  {
    XorLeadingZeros(s[q], o[q], w);
    SharedPrefixLast(s, o, maxLen, q, LeadingZeros(diff, w), w);
    if diff == 0 {
      WordHolding(s, maxLen, w);
      CapReached(CommonPrefixLen(Flat(s, w), Flat(o, w), maxLen), maxLen, Times(q, w) + LeadingZeros(diff, w));
    }
  }

  lemma CapReached(c: nat, maxLen: nat, bound: nat)
    requires c == Min(maxLen, bound) && maxLen <= bound
    ensures c == maxLen
  {
  }

  /** Two slices agreeing on their first `i` words and on word `i` agree
      on their first `i + 1` words. */
  lemma {:induction false} AgreeOneMore(s: seq<nat>, o: seq<nat>, i: nat)
    requires i < |s| && i < |o| && s[..i] == o[..i] && s[i] == o[i]
    ensures s[..i + 1] == o[..i + 1]
  {
    assert s[..i + 1] == s[..i] + [s[i]];
    assert o[..i + 1] == o[..i] + [o[i]];
  }

  /** The first of the first `n` words where the slices differ, or `n`
      when they agree on all of them: the word-by-word loops of
      `slice_shared_prefix_len` and `slice_contains`. */
  method FirstDifference(s: seq<nat>, o: seq<nat>, n: nat) returns (i: nat)
    requires n <= |s| && n <= |o|
    ensures i <= n && s[..i] == o[..i]
    ensures i < n ==> s[i] != o[i]
  {
    i := 0;
    while i < n
      invariant i <= n && s[..i] == o[..i]
    {
      if s[i] != o[i] {
        return;
      }
      AgreeOneMore(s, o, i);
      i := i + 1;
    }
  }

  /** `slice_shared_prefix_len`: the length of the longest common prefix
      of the two flat views, comparing at most `maxLen` bits. */
  method SliceSharedPrefixLen(s: seq<nat>, other: seq<nat>, maxLen: nat, w: nat) returns (r: nat)
    requires w > 0 && IsSlice(s, w) && IsSlice(other, w)
    requires maxLen <= |Flat(s, w)| && maxLen <= |Flat(other, w)|
    ensures r == CommonPrefixLen(Flat(s, w), Flat(other, w), maxLen)
  {
    if 0 == maxLen {
      CommonPrefixNone(Flat(s, w), Flat(other, w));
      return 0;
    }
    var sliceNdx := Quot(maxLen - 1, w);
    QuotInside(s, maxLen - 1, w);
    QuotInside(other, maxLen - 1, w);
    var i := FirstDifference(s, other, sliceNdx);
    if i < sliceNdx {
      var diff := Xor(s[i], other[i], w);
      SharedPrefixAtDiff(s, other, i, maxLen, diff, w);
      return Times(i, w) + LeadingZeros(diff, w);
    }
    var diff := Xor(s[sliceNdx], other[sliceNdx], w);
    SharedPrefixAtLast(s, other, maxLen, sliceNdx, diff, w);
    if 0 != diff {
      assert CommonPrefixLen(Flat(s, w), Flat(other, w), maxLen) == Min(maxLen, Times(sliceNdx, w) + LeadingZeros(diff, w));
      return Min(maxLen, Times(sliceNdx, w) + LeadingZeros(diff, w));
    } else {
      return maxLen;
    }
  }

  /** Slices that agree on their first `i` words agree on the first
      `|Flat(s[..i], w)| + e` bits exactly when words `i` agree on `e`
      bits. */
  lemma {:induction false} FlatContains(s: seq<nat>, o: seq<nat>, i: nat, e: nat, w: nat)
    requires i < |s| && i < |o| && s[..i] == o[..i] && e <= w
    ensures |Flat(s[..i], w)| + e <= |Flat(s, w)| && |Flat(s[..i], w)| + e <= |Flat(o, w)|
    ensures Flat(s, w)[..|Flat(s[..i], w)| + e] == Flat(o, w)[..|Flat(s[..i], w)| + e]
            <==> Bits(s[i], w)[..e] == Bits(o[i], w)[..e]
  {
    FlatSplit(s, i, w);
    FlatSplit(o, i, w);
    PrefixMiddle(Flat(s[..i], w), Bits(s[i], w), Bits(o[i], w),
                 Flat(s[i + 1..], w), Flat(o[i + 1..], w), e);
  }

  /** Slices that agree on their first `i` words and differ in word `i`,
      a word wholly inside the first `prefix` bits, differ within them. */
  lemma {:induction false} ContainsEarly(s: seq<nat>, o: seq<nat>, i: nat, prefix: nat, w: nat)
    requires w > 0 && IsSlice(s, w) && IsSlice(o, w)
    requires prefix <= |Flat(s, w)| && prefix <= |Flat(o, w)|
    requires i < Quot(prefix, w) && i < |s| && i < |o| && s[..i] == o[..i] && s[i] != o[i]
    ensures prefix <= |Flat(s, w)| && prefix <= |Flat(o, w)|
    ensures Flat(s, w)[..prefix] != Flat(o, w)[..prefix]
  {
    WordInsidePrefix(s, i, prefix, w);
    FlatContains(s, o, i, w, w);
    WholeWordsDiffer(s[i], o[i], w);
    PrefixDiffers(Flat(s, w), Flat(o, w), |Flat(s[..i], w)| + w, prefix);
  }

  /** A word before the one holding bit `prefix` ends by bit `prefix`. */
  lemma {:induction false} WordInsidePrefix(s: seq<nat>, i: nat, prefix: nat, w: nat)
    requires w > 0 && prefix <= |Flat(s, w)| && i < Quot(prefix, w) && i < |s|
    ensures |Flat(s[..i], w)| + w <= prefix
  {
    Locate(s, prefix, w);
    FlatPrefixGrows(s, i, Quot(prefix, w), w);
    if Quot(prefix, w) == |s| {
      assert s[..|s|] == s;
    }
  }

  /** Different words differ in their full bit views. */
  lemma {:induction false} WholeWordsDiffer(u: nat, v: nat, w: nat)
    requires IsWord(u, w) && IsWord(v, w) && u != v
    ensures Bits(u, w)[..w] != Bits(v, w)[..w]
  {
    assert Bits(u, w)[..w] == Bits(u, w) && Bits(v, w)[..w] == Bits(v, w);
    if Bits(u, w) == Bits(v, w) {
      BitsInjective(u, v, w);
    }
  }

  /** Slices that agree on the words before the one holding bit `prefix`
      agree on the first `prefix` bits exactly when that word's first
      `Rem(prefix, w)` bits agree; with no such bits they agree. */
  lemma {:induction false} ContainsLast(s: seq<nat>, o: seq<nat>, prefix: nat, w: nat)
    requires w > 0 && prefix <= |Flat(s, w)| && prefix <= |Flat(o, w)|
    requires Quot(prefix, w) <= |s| && Quot(prefix, w) <= |o| && s[..Quot(prefix, w)] == o[..Quot(prefix, w)]
    ensures prefix <= |Flat(s, w)| && prefix <= |Flat(o, w)|
    ensures Rem(prefix, w) == 0 ==> Flat(s, w)[..prefix] == Flat(o, w)[..prefix]
    ensures Rem(prefix, w) != 0 ==> Quot(prefix, w) < |s| && Quot(prefix, w) < |o|
    ensures Rem(prefix, w) != 0 ==>
              (Flat(s, w)[..prefix] == Flat(o, w)[..prefix]
               <==> Bits(s[Quot(prefix, w)], w)[..Rem(prefix, w)] == Bits(o[Quot(prefix, w)], w)[..Rem(prefix, w)])
  {
    Locate(s, prefix, w);
    Locate(o, prefix, w);
    if Rem(prefix, w) == 0 {
      FlatPrefix(s, o, Quot(prefix, w), w);
      if Quot(prefix, w) == |s| {
        assert s[..|s|] == s;
      }
    } else {
      FlatContains(s, o, Quot(prefix, w), Rem(prefix, w), w);
    }
  }

  /** `slice_contains`: whether the two flat views agree on their first
      `prefix` bits. */
  method SliceContains(s: seq<nat>, prefix: nat, other: seq<nat>, w: nat) returns (r: bool)
    requires w > 0 && IsSlice(s, w) && IsSlice(other, w)
    requires prefix <= |Flat(s, w)| && prefix <= |Flat(other, w)|
    ensures prefix <= |Flat(s, w)| && prefix <= |Flat(other, w)|
    ensures r <==> Flat(s, w)[..prefix] == Flat(other, w)[..prefix]
  {
    var sliceNdx := Quot(prefix, w);
    Locate(s, prefix, w);
    Locate(other, prefix, w);
    var i := FirstDifference(s, other, sliceNdx);
    if i < sliceNdx {
      ContainsEarly(s, other, i, prefix, w);
      return false;
    }
    ContainsLast(s, other, prefix, w);
    var elementNdx := Rem(prefix, w);
    if 0 == elementNdx {
      return true;
    }
    ElementContainsSpec(s[sliceNdx], elementNdx, other[sliceNdx], w);
    return ElementContains(s[sliceNdx], elementNdx, other[sliceNdx], w);
  }
}
