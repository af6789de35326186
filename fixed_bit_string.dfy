/** A bit string of a fixed number of bits, stored as an array of `w`-bit
    words in big-endian order: one generic implementation of the
    `FixedBitString` interface over the slice operations, plus the
    iterator over every value sharing a prefix. */
module FixedBitStrings {
  import opened BitSeq
  import opened Increment
  import opened Words
  import opened Slices
  import opened Wrappers

  class FixedBits {
    /** Width of one storage word. */
    const w: nat
    /** The storage; its length never changes, so `Len` is fixed. */
    const words: array<nat>

    /** Every stored element is a `w`-bit word. */
    predicate Valid()
      reads words
    {
      w > 0 && IsSlice(words[..], w)
    }

    /** `LEN`: the number of bits. */
    function Len(): nat
    {
      words.Length * w
    }

    /** The value as a bit string, bit 0 first. */
    function Value(): (r: seq<bool>)
      reads words
      ensures |r| == Len()
    {
      FlatLength(words[..], w);
      Flat(words[..], w)
    }

    /** Same width and word count: values of the same Rust type. */
    predicate SameShape(other: FixedBits)
    {
      other.w == w && other.words.Length == words.Length
    }

    /** `new_all_false`: `n` words, every bit false. */
    constructor AllFalse(w: nat, n: nat)
      requires w > 0
      ensures Valid() && this.w == w && words.Length == n && fresh(words)
      ensures Value() == Constant(n * w, false)
    {
      this.w := w;
      words := new nat[n](_ => 0);
      new;
      ZeroWord(w);
      assert words[..] == Constant<nat>(n, 0);
      FlatZeros(n, words[..], w);
    }

    /** `new_all_true`: `n` words, every bit true. */
    constructor AllTrue(w: nat, n: nat)
      requires w > 0
      ensures Valid() && this.w == w && words.Length == n && fresh(words)
      ensures Value() == Constant(n * w, true)
    {
      this.w := w;
      words := new nat[n](_ => LowOnes(w));
      new;
      AllOnesWord(w);
      FlatOnes(words[..], w);
    }

    /** The derived `clone`: a copy in fresh storage. */
    constructor Copy(src: FixedBits)
      requires src.Valid()
      ensures Valid() && SameShape(src) && fresh(words)
      ensures words[..] == src.words[..] && Value() == src.Value()
    {
      w := src.w;
      words := new nat[src.words.Length](i requires 0 <= i < src.words.Length reads src.words => src.words[i]);
    }

    method Clone() returns (c: FixedBits)
      requires Valid()
      ensures fresh(c) && fresh(c.words)
      ensures c.Valid() && c.SameShape(this) && c.Value() == Value()
    {
      c := new FixedBits.Copy(this);
    }

    /** `get`: bit `ndx` of the value. */
    function Get(ndx: nat): (b: bool)
      requires Valid() && ndx < Len()
      reads words
      ensures b == Value()[ndx]
    {
      FlatLength(words[..], w);
      SliceGetSpec(words[..], ndx, w);
      SliceGet(words[..], ndx, w)
    }

    /** `set`: bit `ndx` becomes `bit`; no other bit changes. */
    method Set(ndx: nat, bit: bool)
      requires Valid() && ndx < Len()
      modifies words
      ensures Valid() && Value() == old(Value())[ndx := bit]
    {
      FlatLength(words[..], w);
      SliceSet(words, ndx, bit, w);
    }

    /** The default `flip`: read bit `ndx`, then write its negation. */
    method Flip(ndx: nat)
      requires Valid() && ndx < Len()
      modifies words
      ensures Valid() && Value() == old(Value())[ndx := !old(Value())[ndx]]
    {
      var oldValue := Get(ndx);
      Set(ndx, !oldValue);
    }

    /** `inc`: add one to the bits after `prefix`, read as a big-endian
        number; the prefix stays, and the result says whether the free
        bits wrapped around. */
    method Inc(prefix: nat) returns (overflow: bool)
      requires Valid() && prefix <= Len()
      modifies words
      ensures Valid()
      ensures (Value(), overflow) == IncFrom(old(Value()), prefix)
    {
      FlatLength(words[..], w);
      Locate(words[..], prefix, w);
      overflow := SliceInc(words, prefix, w);
    }

    /** The default `shared_prefix_len`: the first index where the two
        values differ, or `LEN`. */
    method SharedPrefixLen(other: FixedBits) returns (r: nat)
      requires Valid() && other.Valid() && SameShape(other)
      ensures r == CommonPrefixLen(Value(), other.Value(), Len())
    {
      ghost var a, b := Value(), other.Value();
      var maxLen := Len();
      var i := 0;
      while i < maxLen
        invariant i <= maxLen
        invariant forall j :: 0 <= j < i ==> a[j] == b[j]
      {
        if Get(i) != other.Get(i) {
          SharedPrefixLenUnique(a, b, maxLen, i);
          return i;
        }
        assert a[i] == b[i];
        i := i + 1;
      }
      SharedPrefixLenUnique(a, b, maxLen, maxLen);
      return maxLen;
    }

    /** `set_false_from`: every bit from `ndx` on becomes false. */
    method SetFalseFrom(ndx: nat)
      requires Valid()
      modifies words
      ensures Valid() && Value() == SetFrom(old(Value()), ndx, false)
    {
      SliceSetFalseFrom(words, ndx, w);
    }

    /** `set_true_from`: every bit from `ndx` on becomes true. */
    method SetTrueFrom(ndx: nat)
      requires Valid()
      modifies words
      ensures Valid() && Value() == SetFrom(old(Value()), ndx, true)
    {
      SliceSetTrueFrom(words, ndx, w);
    }

    /** `is_false_from`: every bit from `ndx` on is false. */
    method IsFalseFrom(ndx: nat) returns (r: bool)
      requires Valid()
      ensures r <==> IsFrom(Value(), ndx, false)
    {
      r := SliceIsFalseFrom(words[..], ndx, w);
    }

    /** `is_true_from`: every bit from `ndx` on is true. */
    method IsTrueFrom(ndx: nat) returns (r: bool)
      requires Valid()
      ensures r <==> IsFrom(Value(), ndx, true)
    {
      r := SliceIsTrueFrom(words[..], ndx, w);
    }

    /** `contains`: `other` starts with the first `prefix` bits of this
        value. */
    method Contains(prefix: nat, other: FixedBits) returns (r: bool)
      requires Valid() && other.Valid() && SameShape(other) && prefix <= Len()
      ensures r <==> Value()[..prefix] == other.Value()[..prefix]
    {
      FlatLength(words[..], w);
      FlatLength(other.words[..], w);
      r := SliceContains(words[..], prefix, other.words[..], w);
    }

    /** `iter`: the values from a clone of this one on, sharing the
        first `prefix` bits; this value is left alone. */
    method Iter(prefix: nat) returns (it: PrefixIter)
      requires Valid() && prefix <= Len()
      ensures fresh(it) && fresh(it.Repr) && it.Valid()
      ensures it.prefix == prefix && it.pending == Yields(Value(), prefix)
    {
      var start := Clone();
      it := new PrefixIter(start, prefix);
    }
  }

  /** The values an iterator started at `v` produces: `v` itself, then
      the increments of its free bits, up to the one after which the free
      bits wrap around. */
  ghost function Yields(v: seq<bool>, prefix: nat): seq<seq<bool>>
    requires prefix <= |v|
    decreases Pow2(|v| - prefix) - ToNat(v[prefix..])
  {
    IncFromPrefix(v, prefix);
    IncFromValue(v, prefix);
    ToNatBound(v[prefix..]);
    var (n, overflow) := IncFrom(v, prefix);
    ToNatBound(n[prefix..]);
    [v] + if overflow then [] else Yields(n, prefix)
  }

  /** The iterator enumerates: value `k` keeps the prefix of `v` and its
      free bits spell the free bits of `v` plus `k`; the first value is
      `v` itself. */
  lemma {:induction false} YieldsEnumerate(v: seq<bool>, prefix: nat)
    requires prefix <= |v|
    ensures |Yields(v, prefix)| > 0 && Yields(v, prefix)[0] == v
    ensures forall k :: 0 <= k < |Yields(v, prefix)| ==>
      |Yields(v, prefix)[k]| == |v| && Yields(v, prefix)[k][..prefix] == v[..prefix]
      && ToNat(Yields(v, prefix)[k][prefix..]) == ToNat(v[prefix..]) + k
    decreases Pow2(|v| - prefix) - ToNat(v[prefix..])
  {
    IncFromPrefix(v, prefix);
    IncFromValue(v, prefix);
    ToNatBound(v[prefix..]);
    var (n, overflow) := IncFrom(v, prefix);
    if !overflow {
      ToNatBound(n[prefix..]);
      YieldsEnumerate(n, prefix);
      var ys := Yields(v, prefix);
      assert ys == [v] + Yields(n, prefix);
      forall k | 1 <= k < |ys|
        ensures |ys[k]| == |v| && ys[k][..prefix] == v[..prefix]
        ensures ToNat(ys[k][prefix..]) == ToNat(v[prefix..]) + k
      {
        assert ys[k] == Yields(n, prefix)[k - 1];
      }
    }
  }

  /** Value `k + 1` is the increment of value `k`, which does not
      overflow. */
  lemma {:induction false} YieldsStep(v: seq<bool>, prefix: nat, k: nat)
    requires prefix <= |v| && k + 1 < |Yields(v, prefix)|
    ensures IncFrom(Yields(v, prefix)[k], prefix) == (Yields(v, prefix)[k + 1], false)
    decreases k
  {
    IncFromPrefix(v, prefix);
    var (n, overflow) := IncFrom(v, prefix);
    var rest := Yields(n, prefix);
    assert Yields(v, prefix) == [v] + rest;
    if k == 0 {
      YieldsEnumerate(n, prefix);
    } else {
      YieldsStep(n, prefix, k - 1);
    }
  }

  /** The increment of the last value overflows: that is where the
      iterator stops. */
  lemma {:induction false} YieldsLast(v: seq<bool>, prefix: nat)
    requires prefix <= |v|
    ensures IncFrom(Yields(v, prefix)[|Yields(v, prefix)| - 1], prefix).1
    decreases Pow2(|v| - prefix) - ToNat(v[prefix..])
  {
    IncFromPrefix(v, prefix);
    IncFromValue(v, prefix);
    ToNatBound(v[prefix..]);
    var (n, overflow) := IncFrom(v, prefix);
    if !overflow {
      ToNatBound(n[prefix..]);
      YieldsLast(n, prefix);
      var rest := Yields(n, prefix);
      assert Yields(v, prefix) == [v] + rest;
    }
  }

  /** Consecutive values are one increment apart, and the increment of
      the last value overflows. */
  lemma YieldsSteps(v: seq<bool>, prefix: nat)
    requires prefix <= |v|
    ensures forall k :: 0 <= k < |Yields(v, prefix)| - 1 ==>
      IncFrom(Yields(v, prefix)[k], prefix) == (Yields(v, prefix)[k + 1], false)
    ensures IncFrom(Yields(v, prefix)[|Yields(v, prefix)| - 1], prefix).1
  {
    forall k | 0 <= k < |Yields(v, prefix)| - 1
      ensures IncFrom(Yields(v, prefix)[k], prefix) == (Yields(v, prefix)[k + 1], false)
    {
      YieldsStep(v, prefix, k);
    }
    YieldsLast(v, prefix);
  }

  /** The iterator produces one value for each number the free bits can
      still count up to. */
  lemma {:induction false} YieldsCount(v: seq<bool>, prefix: nat)
    requires prefix <= |v|
    ensures |Yields(v, prefix)| == Pow2(|v| - prefix) - ToNat(v[prefix..])
    decreases Pow2(|v| - prefix) - ToNat(v[prefix..])
  {
    IncFromPrefix(v, prefix);
    IncFromValue(v, prefix);
    ToNatBound(v[prefix..]);
    var (n, overflow) := IncFrom(v, prefix);
    if !overflow {
      ToNatBound(n[prefix..]);
      YieldsCount(n, prefix);
    }
  }

  /** Started with clear free bits, the iterator produces all
      `2^(LEN - prefix)` values with the prefix; with no free bit, it
      produces the start value alone. */
  lemma YieldsAll(v: seq<bool>, prefix: nat)
    requires prefix <= |v|
    ensures IsFrom(v, prefix, false) ==> |Yields(v, prefix)| == Pow2(|v| - prefix)
    ensures prefix == |v| ==> Yields(v, prefix) == [v]
  {
    YieldsCount(v, prefix);
    if IsFrom(v, prefix, false) {
      ToNatZero(v[prefix..]);
    }
    if prefix == |v| {
      YieldsEnumerate(v, prefix);
      ToNatZero(v[prefix..]);
    }
  }

  /** `Iter`: holds the next value to produce, or nothing once `inc`
      has overflowed. */
  class PrefixIter {
    var next: Option<FixedBits>
    const prefix: nat
    /** The values still to be produced, in order. */
    ghost var pending: seq<seq<bool>>
    ghost var Repr: set<object>

    ghost predicate Valid()
      reads this, Repr
    {
      this in Repr &&
      match next
      case None => pending == []
      case Some(b) =>
        b in Repr && b.words in Repr && b.Valid() && prefix <= b.Len()
        && pending == Yields(b.Value(), prefix)
    }

    /** `Iter::new`: the first value produced is `start`. */
    constructor (start: FixedBits, prefix: nat)
      requires start.Valid() && prefix <= start.Len()
      ensures Valid() && Repr == {this, start, start.words}
      ensures this.prefix == prefix && pending == Yields(start.Value(), prefix)
    {
      next := Some(start);
      this.prefix := prefix;
      pending := Yields(start.Value(), prefix);
      Repr := {this, start, start.words};
    }

    /** `next`: produce a clone of the held value, then increment the
        held value; on overflow drop it, so that every later call
        produces nothing. */
    method Next() returns (r: Option<FixedBits>)
      requires Valid()
      modifies Repr
      ensures Valid() && Repr == old(Repr)
      ensures old(pending) == [] ==> r == None && pending == []
      ensures old(pending) != [] ==>
        r.Some? && fresh(r.value) && fresh(r.value.words) && r.value.Valid()
        && r.value.Value() == old(pending)[0] && pending == old(pending)[1..]
    {
      var overflow := false;
      match next {
        case None =>
          r := None;
        case Some(b) =>
          var c := b.Clone();
          r := Some(c);
          overflow := b.Inc(prefix);
          pending := pending[1..];
      }
      if overflow {
        next := None;
      }
    }
  }
}
