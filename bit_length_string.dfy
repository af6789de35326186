/** `BitLengthString`: a variable-length bit string stored as a
    fixed-length one plus a length. The storage bits at and after the
    length are kept false, so that two strings with the same bits have
    the same fields, as the derived `Hash` assumes. */
module BitLengthStrings {
  import opened BitSeq
  import opened Wrappers
  import opened FixedBitStrings
  import BitStrings
  import Slices

  class BitLengthString {
    /** The storage, of `bits.Len()` bits. */
    const bits: FixedBits
    /** The current length. */
    var len: nat

    /** The length fits the storage and the storage is clear from it on. */
    ghost predicate Valid()
      reads this, bits.words
    {
      bits.Valid() && len <= bits.Len() && IsFrom(bits.Value(), len, false)
    }

    /** The string: the first `len` bits of the storage. */
    function Value(): (r: seq<bool>)
      requires len <= bits.Len()
      reads this, bits.words
      ensures |r| == len
    {
      bits.Value()[..len]
    }

    /** `new`: take over `bits`, clear it from `len` on, and keep `len`. */
    constructor (bits: FixedBits, len: nat)
      requires bits.Valid() && len <= bits.Len()
      modifies bits.words
      ensures Valid() && this.bits == bits && this.len == len
      ensures bits.Value() == SetFrom(old(bits.Value()), len, false)
      ensures Value() == old(bits.Value())[..len]
    {
      bits.SetFalseFrom(len);
      this.bits := bits;
      this.len := len;
    }

    /** `null`: the empty string over all-false storage of `n` words. */
    constructor Null(w: nat, n: nat)
      requires w > 0
      ensures Valid() && fresh(bits) && fresh(bits.words)
      ensures len == 0 && Value() == [] && bits.Value() == Constant(n * w, false)
    {
      bits := new FixedBits.AllFalse(w, n);
      len := 0;
    }

    /** The derived `clone`. */
    method Clone() returns (c: BitLengthString)
      requires Valid()
      ensures fresh(c) && fresh(c.bits) && fresh(c.bits.words) && c.Valid()
      ensures c.bits.SameShape(bits) && c.len == len && c.bits.Value() == bits.Value()
    {
      var b := bits.Clone();
      c := new BitLengthString.FromParts(b, len);
    }

    /** Assembles a string whose storage is already clear from `len` on. */
    constructor FromParts(bits: FixedBits, len: nat)
      requires bits.Valid() && len <= bits.Len() && IsFrom(bits.Value(), len, false)
      ensures Valid() && this.bits == bits && this.len == len
    {
      this.bits := bits;
      this.len := len;
    }

    /** `contains`: `other` starts with this string. */
    method Contains(other: FixedBits) returns (r: bool)
      requires Valid() && other.Valid() && bits.SameShape(other)
      ensures r <==> BitStrings.IsPrefix(Value(), other.Value())
    {
      r := bits.Contains(len, other);
    }

    /** `get`: bit `ndx` of the string; fails past the length. */
    function Get(ndx: nat): (b: bool)
      requires Valid() && ndx < len
      reads this, bits.words
      ensures b == Value()[ndx]
    {
      bits.Get(ndx)
    }

    /** `set`: bit `ndx` becomes `bit`; fails past the length, and
        changes neither the length nor any other bit. */
    method Set(ndx: nat, bit: bool)
      requires Valid() && ndx < len
      modifies bits.words
      ensures Valid() && len == old(len)
      ensures Value() == old(Value())[ndx := bit]
    {
      bits.Set(ndx, bit);
      assert Value() == old(Value())[ndx := bit];
    }

    /** `flip`: bit `ndx` is negated; fails past the length, and changes
        neither the length nor any other bit. */
    method Flip(ndx: nat)
      requires Valid() && ndx < len
      modifies bits.words
      ensures Valid() && len == old(len)
      ensures Value() == old(Value())[ndx := !old(Value())[ndx]]
    {
      bits.Flip(ndx);
      assert Value() == old(Value())[ndx := !old(Value())[ndx]];
    }

    /** `len` */
    function Len(): (r: nat)
      requires Valid()
      reads this, bits.words
      ensures r == |Value()| && r <= bits.Len()
    {
      len
    }

    /** `clip`: clear the storage from `n` on and shorten to `n` bits if
        longer; a string of at most `n` bits is left as it was. */
    method Clip(n: nat)
      requires Valid()
      modifies this, bits.words
      ensures Valid() && len == Min(old(len), n)
      ensures Value() == BitStrings.Clip(old(Value()), n)
      ensures bits.Value() == SetFrom(old(bits.Value()), n, false)
      ensures n >= old(len) ==> Value() == old(Value()) && bits.Value() == old(bits.Value())
    {
      bits.SetFalseFrom(n);
      len := Min(len, n);
    }

    /** `append`: write `bit` just past the end and grow by one; fails
        when the storage is full. */
    method Append(bit: bool)
      requires Valid() && len < bits.Len()
      modifies this, bits.words
      ensures Valid() && len == old(len) + 1
      ensures Value() == old(Value()) + [bit]
    {
      bits.Set(len, bit);
      len := len + 1;
      assert Value() == old(Value()) + [bit];
    }

    /** `shared_prefix_len`: the storage's shared prefix capped at the
        shorter length, which is the generic definition on the strings. */
    method SharedPrefixLen(other: BitLengthString) returns (r: nat)
      requires Valid() && other.Valid() && bits.SameShape(other.bits)
      ensures r == BitStrings.SharedPrefixLen(Value(), other.Value())
    {
      var maxLen := Min(len, other.len);
      var s := bits.SharedPrefixLen(other.bits);
      r := Min(s, maxLen);
      CappedSharedPrefix(bits.Value(), other.bits.Value(), len, other.len);
    }

    /** The default `shared_prefix`: a clone clipped to the shared prefix
        length. */
    method SharedPrefix(other: BitLengthString) returns (p: BitLengthString)
      requires Valid() && other.Valid() && bits.SameShape(other.bits)
      ensures fresh(p) && fresh(p.bits) && fresh(p.bits.words) && p.Valid()
      ensures p.Value() == BitStrings.SharedPrefix(Value(), other.Value())
    {
      p := Clone();
      var spl := SharedPrefixLen(other);
      p.Clip(spl);
    }

    /** The default `subset_cmp`. */
    method SubsetCmp(other: BitLengthString) returns (o: Option<Ordering>)
      requires Valid() && other.Valid() && bits.SameShape(other.bits)
      ensures o == BitStrings.SubsetCmp(Value(), other.Value())
    {
      var spl := SharedPrefixLen(other);
      if spl == len {
        if spl == other.len {
          o := Some(Equal);
        } else {
          o := Some(Greater);
        }
      } else if spl == other.len {
        o := Some(Less);
      } else {
        o := None;
      }
    }

    /** `cmp`: the default `lexicographic_cmp`. */
    method Cmp(other: BitLengthString) returns (o: Ordering)
      requires Valid() && other.Valid() && bits.SameShape(other.bits)
      ensures o == BitStrings.LexicographicCmp(Value(), other.Value())
    {
      var spl := SharedPrefixLen(other);
      if spl == len {
        if spl == other.len {
          o := Equal;
        } else {
          o := Less;
        }
      } else if spl == other.len {
        o := Greater;
      } else if Get(spl) {
        o := Greater;
      } else {
        o := Less;
      }
    }

    /** `eq`: Equal under `cmp`. It holds exactly when the strings have
        the same bits, and exactly when the fields are equal word for word,
        so the derived `Hash` agrees with it. */
    method Eq(other: BitLengthString) returns (r: bool)
      requires Valid() && other.Valid() && bits.SameShape(other.bits)
      ensures r <==> Value() == other.Value()
      ensures r <==> len == other.len && bits.words[..] == other.bits.words[..]
    {
      var o := Cmp(other);
      r := Equal == o;
      BitStrings.LexicographicEqual(Value(), other.Value());
      StorageDetermined(bits.Value(), other.bits.Value(), len, other.len);
      if bits.Value() == other.bits.Value() {
        Slices.FlatInjective(bits.words[..], other.bits.words[..], bits.w);
      }
    }
  }

  /** Capping the storage's common prefix at both lengths gives the
      common prefix of the strings. */
  lemma {:induction false} CappedSharedPrefix(a: seq<bool>, b: seq<bool>, n: nat, m: nat)
    requires |a| == |b| && n <= |a| && m <= |b|
    ensures Min(CommonPrefixLen(a, b, |a|), Min(n, m)) == BitStrings.SharedPrefixLen(a[..n], b[..m])
  {
    var k := Min(n, m);
    CommonPrefixCap(a, b, k, |a|);
    CommonPrefixLenOfPrefixes(a, b, a[..n], b[..m], k);
  }

  /** Storage clear from the length on is determined by the string: two
      such storages hold the same string exactly when their lengths and
      all their bits agree. */
  lemma {:induction false} StorageDetermined(a: seq<bool>, b: seq<bool>, n: nat, m: nat)
    requires |a| == |b| && n <= |a| && m <= |b|
    requires IsFrom(a, n, false) && IsFrom(b, m, false)
    ensures a[..n] == b[..m] <==> n == m && a == b
  {
    if a[..n] == b[..m] {
      assert forall i :: 0 <= i < n ==> a[i] == a[..n][i] == b[..m][i] == b[i];
    }
  }
}
