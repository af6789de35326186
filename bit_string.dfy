/** The default methods of the variable-length `BitString` interface,
    on the bit sequence a string holds (its bits up to its length): the
    shared prefix, the subset order and the lexicographic order. */
module BitStrings {
  import opened BitSeq
  import opened Wrappers

  /** `p` is a prefix of `s`. */
  predicate IsPrefix(p: seq<bool>, s: seq<bool>)
  {
    |p| <= |s| && s[..|p|] == p
  }

  /** `clip`: cut `s` down to at most `n` bits. */
  function Clip(s: seq<bool>, n: nat): (r: seq<bool>)
    ensures IsPrefix(r, s) && |r| == Min(|s|, n)
  {
    if n < |s| then s[..n] else s
  }

  /** The default `shared_prefix_len`: the first index below both
      lengths where the strings differ, or the shorter length. */
  function SharedPrefixLen(a: seq<bool>, b: seq<bool>): (r: nat)
    ensures r <= |a| && r <= |b|
    ensures a[..r] == b[..r]
    ensures r < |a| && r < |b| ==> a[r] != b[r]
  {
    var m := Min(|a|, |b|);
    CommonPrefixLenShared(a, b, m);
    CommonPrefixLen(a, b, m)
  }

  lemma SharedPrefixLenSymmetric(a: seq<bool>, b: seq<bool>)
    ensures SharedPrefixLen(a, b) == SharedPrefixLen(b, a)
  {
    CommonPrefixLenSymmetric(a, b, Min(|a|, |b|));
  }

  /** The shared prefix length is a prefix of both strings, and no
      longer common prefix exists. */
  lemma {:induction false} SharedPrefixLenLongest(a: seq<bool>, b: seq<bool>, p: seq<bool>)
    requires IsPrefix(p, a) && IsPrefix(p, b)
    ensures |p| <= SharedPrefixLen(a, b)
  {
    var r := SharedPrefixLen(a, b);
    if r < |p| {
      assert false;
    }
  }

  /** The default `shared_prefix`: a copy of `a` clipped to the shared
      prefix length. It is the longest common prefix of the two. */
  function SharedPrefix(a: seq<bool>, b: seq<bool>): (r: seq<bool>)
    ensures IsPrefix(r, a) && IsPrefix(r, b)
    ensures forall p :: IsPrefix(p, a) && IsPrefix(p, b) ==> IsPrefix(p, r)
  {
    var r := Clip(a, SharedPrefixLen(a, b));
    forall p | IsPrefix(p, a) && IsPrefix(p, b)
      ensures IsPrefix(p, r)
    {
      SharedPrefixLenLongest(a, b, p);
      assert r[..|p|] == a[..|p|];
    }
    r
  }

  /** The default `subset_cmp`, branch for branch. */
  function SubsetCmp(a: seq<bool>, b: seq<bool>): Option<Ordering>
  {
    var spl := SharedPrefixLen(a, b);
    if spl == |a| then
      if spl == |b| then Some(Equal) else Some(Greater)
    else if spl == |b| then Some(Less)
    else None
  }

  /** The shared prefix length is the whole of `a` exactly when `a` is a
      prefix of `b`. */
  lemma SharedPrefixLenIsPrefix(a: seq<bool>, b: seq<bool>)
    ensures SharedPrefixLen(a, b) == |a| <==> IsPrefix(a, b)
  {
    if IsPrefix(a, b) {
      SharedPrefixLenLongest(a, b, a);
    }
  }

  /** `subset_cmp` is the subset order of the sets of strings starting
      with `a` and with `b`: Greater when `a` is a proper prefix of `b`,
      Less when `b` is a proper prefix of `a`, Equal when they are equal,
      and no order otherwise. */
  lemma {:induction false} SubsetCmpSpec(a: seq<bool>, b: seq<bool>)
    ensures SubsetCmp(a, b) == Some(Equal) <==> a == b
    ensures SubsetCmp(a, b) == Some(Greater) <==> IsPrefix(a, b) && a != b
    ensures SubsetCmp(a, b) == Some(Less) <==> IsPrefix(b, a) && a != b
    ensures SubsetCmp(a, b) == None <==> !IsPrefix(a, b) && !IsPrefix(b, a)
  {
    SharedPrefixLenIsPrefix(a, b);
    SharedPrefixLenIsPrefix(b, a);
    SharedPrefixLenSymmetric(a, b);
  }

  /** Swapping the operands reverses the subset order. */
  lemma {:induction false} SubsetCmpReverse(a: seq<bool>, b: seq<bool>)
    ensures SubsetCmp(b, a) == match SubsetCmp(a, b)
      case None => None
      case Some(o) => Some(o.Reverse())
  {
    SharedPrefixLenSymmetric(a, b);
  }

  /** The default `lexicographic_cmp`, branch for branch. */
  function LexicographicCmp(a: seq<bool>, b: seq<bool>): Ordering
  {
    var spl := SharedPrefixLen(a, b);
    if spl == |a| then
      if spl == |b| then Equal else Less
    else if spl == |b| then Greater
    else if a[spl] then Greater
    else Less
  }

  /** The lexicographic order is Equal exactly on equal strings. */
  lemma {:induction false} LexicographicEqual(a: seq<bool>, b: seq<bool>)
    ensures LexicographicCmp(a, b) == Equal <==> a == b
  {
    SharedPrefixLenIsPrefix(a, b);
  }

  /** Swapping the operands reverses the lexicographic order. */
  lemma {:induction false} LexicographicReverse(a: seq<bool>, b: seq<bool>)
    ensures LexicographicCmp(b, a) == LexicographicCmp(a, b).Reverse()
  {
    SharedPrefixLenSymmetric(a, b);
  }

  /** Bit `i` of `s` on the scale `_|_ < false < true`: 0 past the end,
      then 1 for false and 2 for true. */
  function Rank(s: seq<bool>, i: nat): nat
  {
    if i >= |s| then 0 else if s[i] then 2 else 1
  }

  /** The second definition of the order: `a < b` when, at the first
      index where the ranks differ, `a` has the smaller rank. */
  ghost predicate RankLess(a: seq<bool>, b: seq<bool>)
  {
    exists s: nat :: (forall i :: 0 <= i < s ==> Rank(a, i) == Rank(b, i)) && Rank(a, s) < Rank(b, s)
  }

  /** The ranks agree up to the shared prefix length; there they differ
      unless the strings are equal. */
  lemma {:induction false} RanksAtSharedPrefix(a: seq<bool>, b: seq<bool>)
    ensures forall i :: 0 <= i < SharedPrefixLen(a, b) ==> Rank(a, i) == Rank(b, i)
    ensures Rank(a, SharedPrefixLen(a, b)) != Rank(b, SharedPrefixLen(a, b)) || a == b
  {
    var r := SharedPrefixLen(a, b);
    assert forall i :: 0 <= i < r ==> a[i] == a[..r][i] == b[..r][i] == b[i];
    if r == |a| && r == |b| {
      assert a == a[..r] && b == b[..r];
    }
  }

  /** `lexicographic_cmp` says Less exactly under the `_|_ < false < true`
      definition. */
  lemma {:induction false} LexicographicIsRankOrder(a: seq<bool>, b: seq<bool>)
    ensures LexicographicCmp(a, b) == Less <==> RankLess(a, b)
  {
    var r := SharedPrefixLen(a, b);
    RanksAtSharedPrefix(a, b);
    if LexicographicCmp(a, b) == Less {
      assert (forall i :: 0 <= i < r ==> Rank(a, i) == Rank(b, i)) && Rank(a, r) < Rank(b, r);
    }
    if RankLess(a, b) {
      var s: nat :| (forall i :: 0 <= i < s ==> Rank(a, i) == Rank(b, i)) && Rank(a, s) < Rank(b, s);
      if s != r {
        assert false;
      }
    }
  }

  /** The lexicographic order is transitive. */
  lemma {:induction false} LexicographicTransitive(a: seq<bool>, b: seq<bool>, c: seq<bool>)
    requires LexicographicCmp(a, b) == Less && LexicographicCmp(b, c) == Less
    ensures LexicographicCmp(a, c) == Less
  {
    LexicographicIsRankOrder(a, b);
    LexicographicIsRankOrder(b, c);
    var s: nat :| (forall i :: 0 <= i < s ==> Rank(a, i) == Rank(b, i)) && Rank(a, s) < Rank(b, s);
    var t: nat :| (forall i :: 0 <= i < t ==> Rank(b, i) == Rank(c, i)) && Rank(b, t) < Rank(c, t);
    var u := if s <= t then s else t;
    assert (forall i :: 0 <= i < u ==> Rank(a, i) == Rank(c, i)) && Rank(a, u) < Rank(c, u);
    LexicographicIsRankOrder(a, c);
  }

  // The documentation of `lexicographic_cmp` gives two definitions of
  // `a < b`. The second (`RankLess`) agrees with the code. The first
  // says a string sorts below its own proper prefixes, which is the
  // reverse of what the code does.

  /** At the first index below both lengths where the strings differ,
      `a` holds false and `b` true. */
  predicate FirstDifferenceLess(a: seq<bool>, b: seq<bool>)
  {
    var s := SharedPrefixLen(a, b);
    s < |a| && s < |b| && !a[s] && b[s]
  }

  /** The first definition as the documentation writes it: `a < b` iff
      `a != b` and (`b` is a prefix of `a`, or the first difference has
      false in `a`). */
  predicate DocumentedLess(a: seq<bool>, b: seq<bool>)
  {
    a != b && (IsPrefix(b, a) || FirstDifferenceLess(a, b))
  }

  /** Whenever `b` is a proper prefix of `a`, the documented definition
      puts `a` below `b` while `lexicographic_cmp` puts it above; for
      example `a = [false]`, `b = []`. */
  lemma {:induction false} DocumentedLessReversed(a: seq<bool>, b: seq<bool>)
    requires IsPrefix(b, a) && a != b
    ensures DocumentedLess(a, b) && LexicographicCmp(a, b) == Greater
  {
    SharedPrefixLenIsPrefix(b, a);
    SharedPrefixLenSymmetric(a, b);
  }

  lemma DocumentedLessExample()
    ensures DocumentedLess([false], []) && LexicographicCmp([false], []) == Greater
  {
    DocumentedLessReversed([false], []);
  }

  /** The first definition with the prefix the right way round: a proper
      prefix sorts first. */
  predicate PrefixFirstLess(a: seq<bool>, b: seq<bool>)
  {
    a != b && (IsPrefix(a, b) || FirstDifferenceLess(a, b))
  }

  /** `lexicographic_cmp` says Less exactly under the corrected first
      definition, and so the two documented definitions, once corrected,
      agree. */
  lemma {:induction false} LexicographicIsPrefixFirst(a: seq<bool>, b: seq<bool>)
    ensures LexicographicCmp(a, b) == Less <==> PrefixFirstLess(a, b)
    ensures PrefixFirstLess(a, b) <==> RankLess(a, b)
  {
    SharedPrefixLenIsPrefix(a, b);
    SharedPrefixLenIsPrefix(b, a);
    SharedPrefixLenSymmetric(a, b);
    LexicographicEqual(a, b);
    LexicographicIsRankOrder(a, b);
  }

  // The documentation of `clip` says it does nothing when the new length
  // is at most the current one; it is the other way round.

  /** When the documentation says `clip(n)` does nothing. */
  predicate DocumentedClipKeeps(s: seq<bool>, n: nat)
  {
    n <= |s|
  }

  lemma DocumentedClipKeepsExample()
    ensures DocumentedClipKeeps([true], 0) && Clip([true], 0) != [true]
  {
  }

  /** `clip(n)` leaves a string alone exactly when `n` is at least its
      length. */
  lemma ClipKeeps(s: seq<bool>, n: nat)
    ensures Clip(s, n) == s <==> n >= |s|
  {
  }
}
