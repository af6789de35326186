/** Incrementing a big-endian bit sequence by one, optionally leaving a
    fixed prefix alone. This is the specification every `inc` of the
    library (word, slice, fixed-length string) is proved against. */
module Increment {
  import opened BitSeq

  /** `s + 1` as a number of `|s|` bits, and whether it wrapped around.
      Works from the last (least significant) bit, as a carry does. */
  function Succ(s: seq<bool>): (r: (seq<bool>, bool))
    ensures |r.0| == |s|
    ensures |s| > 0 ==> r.0[|s| - 1] != s[|s| - 1]
  {
    if |s| == 0 then ([], true)
    else if !s[|s| - 1] then (s[..|s| - 1] + [true], false)
    else var c := Succ(s[..|s| - 1]); (c.0 + [false], c.1)
  }

  /** Increment the bits of `s` from index `prefix` on, as a number of
      their own, leaving `s[..prefix]` alone; report a wrap-around.
      With no free bit (`prefix >= |s|`) the increment always overflows
      and changes nothing. */
  function IncFrom(s: seq<bool>, prefix: nat): (seq<bool>, bool)
  {
    if prefix >= |s| then (s, true)
    else var c := Succ(s[prefix..]); (s[..prefix] + c.0, c.1)
  }

  lemma ToNatSnoc(s: seq<bool>, b: bool)
    ensures ToNat(s + [b]) == 2 * ToNat(s) + (if b then 1 else 0)
  {
    assert (s + [b])[..|s|] == s;
  }

  /** `Succ` adds one modulo 2^|s|, and overflows exactly when the sum
      reaches 2^|s|. */
  lemma {:induction false} SuccValue(s: seq<bool>)
    ensures ToNat(Succ(s).0) == if Succ(s).1 then 0 else ToNat(s) + 1
    ensures Succ(s).1 <==> ToNat(s) + 1 == Pow2(|s|)
  {
    if |s| > 0 {
      var init := s[..|s| - 1];
      assert s == init + [s[|s| - 1]];
      ToNatSnoc(init, s[|s| - 1]);
      if !s[|s| - 1] {
        ToNatSnoc(init, true);
      } else {
        SuccValue(init);
        ToNatSnoc(Succ(init).0, false);
      }
    }
  }

  /** `Succ` overflows exactly when every bit is set, and then every bit
      becomes clear. */
  lemma {:induction false} SuccOverflow(s: seq<bool>)
    ensures Succ(s).1 <==> forall i :: 0 <= i < |s| ==> s[i]
    ensures Succ(s).1 ==> Succ(s).0 == Constant(|s|, false)
  {
    if |s| > 0 {
      var init := s[..|s| - 1];
      if s[|s| - 1] {
        SuccOverflow(init);
        assert forall i :: 0 <= i < |init| ==> init[i] == s[i];
        if Succ(s).1 {
          assert Succ(s).0 == Succ(init).0 + [false];
          assert Succ(s).0 == Constant(|s|, false);
        }
      }
    }
  }

  /** The carry of a concatenation: the low part is incremented, and the
      high part only when the low part wraps around. */
  lemma {:induction false} SuccConcat(a: seq<bool>, b: seq<bool>)
    ensures Succ(a + b) ==
      if Succ(b).1 then (Succ(a).0 + Succ(b).0, Succ(a).1) else (a + Succ(b).0, false)
  {
    if |b| == 0 {
      assert a + b == a;
      assert Succ(a).0 + Succ(b).0 == Succ(a).0;
    } else {
      var ab := a + b;
      var binit := b[..|b| - 1];
      assert ab[..|ab| - 1] == a + binit;
      assert ab[|ab| - 1] == b[|b| - 1];
      if !b[|b| - 1] {
        assert a + Succ(b).0 == ab[..|ab| - 1] + [true];
      } else {
        SuccConcat(a, binit);
        if Succ(binit).1 {
          assert Succ(a).0 + Succ(b).0 == (Succ(a).0 + Succ(binit).0) + [false];
        } else {
          assert a + Succ(b).0 == (a + Succ(binit).0) + [false];
        }
      }
    }
  }

  /** `IncFrom` keeps the length and never touches the prefix; with no
      free bit it reports overflow and changes nothing. */
  lemma IncFromPrefix(s: seq<bool>, prefix: nat)
    ensures |IncFrom(s, prefix).0| == |s|
    ensures prefix <= |s| ==> IncFrom(s, prefix).0[..prefix] == s[..prefix]
    ensures prefix >= |s| ==> IncFrom(s, prefix) == (s, true)
  {
    if prefix < |s| {
      var r := s[..prefix] + Succ(s[prefix..]).0;
      assert r[..prefix] == s[..prefix];
    }
  }

  /** `IncFrom` overflows exactly when every free bit was set, and then
      the free bits are all cleared. */
  lemma IncFromOverflow(s: seq<bool>, prefix: nat)
    ensures IncFrom(s, prefix).1 <==> forall i :: prefix <= i < |s| ==> s[i]
    ensures IncFrom(s, prefix).1 ==> IncFrom(s, prefix).0 == SetFrom(s, prefix, false)
  {
    if prefix < |s| {
      var free := s[prefix..];
      var c := Succ(free);
      SuccOverflow(free);
      assert forall i :: prefix <= i < |s| ==> s[i] == free[i - prefix];
      if c.1 {
        var r := s[..prefix] + c.0;
        assert forall i :: 0 <= i < |s| ==> r[i] == SetFrom(s, prefix, false)[i];
      }
    }
  }

  /** Otherwise the free bits, read as a number of their own, grow by one
      modulo their range: the new value plus 2^k on overflow is the old
      value plus one, for the k free bits. */
  lemma IncFromValue(s: seq<bool>, prefix: nat)
    requires prefix <= |s|
    ensures ToNat(IncFrom(s, prefix).0[prefix..])
            + (if IncFrom(s, prefix).1 then Pow2(|s| - prefix) else 0)
            == ToNat(s[prefix..]) + 1
  {
    var free := s[prefix..];
    if prefix < |s| {
      var c := Succ(free);
      assert (s[..prefix] + c.0)[prefix..] == c.0;
      SuccValue(free);
    } else {
      assert free == [];
    }
  }

  /** Splitting at `p`: the first `p` bits of `s + 1` are those of `s`
      exactly when the bits from `p` on do not wrap around, and then only
      those later bits change. */
  lemma {:induction false} SuccSplit(s: seq<bool>, p: nat)
    requires 0 < p <= |s|
    ensures Succ(s).0[..p] == s[..p] <==> !Succ(s[p..]).1
    ensures !Succ(s[p..]).1 ==> Succ(s) == (s[..p] + Succ(s[p..]).0, false)
  {
    var fixed := s[..p];
    var free := s[p..];
    assert s == fixed + free;
    SuccConcat(fixed, free);
    if Succ(free).1 {
      var head := Succ(fixed).0;
      PrefixOfConcat(head, Succ(free).0);
      assert head[p - 1] != fixed[p - 1];
    } else {
      PrefixOfConcat(fixed, Succ(free).0);
    }
  }

  lemma PrefixOfConcat(a: seq<bool>, b: seq<bool>)
    ensures (a + b)[..|a|] == a
  {
  }

  /** Appending set bits after the free part only moves the carry along:
      they all wrap to clear bits and pass the carry on. */
  lemma IncFromCarry(x: seq<bool>, t: seq<bool>, prefix: nat)
    requires prefix <= |x|
    requires forall i :: 0 <= i < |t| ==> t[i]
    ensures IncFrom(x + t, prefix) ==
      (IncFrom(x, prefix).0 + Constant(|t|, false), IncFrom(x, prefix).1)
  {
    SuccOverflow(t);
    if |t| == 0 {
      assert x + t == x;
      assert IncFrom(x, prefix).0 + Constant(|t|, false) == IncFrom(x, prefix).0;
    } else {
      var free := x[prefix..];
      assert (x + t)[prefix..] == free + t;
      assert (x + t)[..prefix] == x[..prefix];
      SuccConcat(free, t);
      if prefix == |x| {
        assert free + t == t;
        assert Succ(t).0 == Constant(|t|, false);
      } else {
        var c := Succ(free);
        assert x[..prefix] + (c.0 + Constant(|t|, false)) == (x[..prefix] + c.0) + Constant(|t|, false);
      }
    }
  }

  /** When the bits after the prefix-holding part `x` do not overflow,
      the carry stops inside them and `x` stays as it is. */
  lemma IncFromNoCarry(x: seq<bool>, y: seq<bool>, prefix: nat)
    requires prefix <= |x|
    requires !Succ(y).1
    ensures IncFrom(x + y, prefix) == (x + Succ(y).0, false)
  {
    var free := x[prefix..];
    assert |y| > 0;
    assert (x + y)[prefix..] == free + y;
    assert (x + y)[..prefix] == x[..prefix];
    SuccConcat(free, y);
    assert x[..prefix] + (free + Succ(y).0) == x + Succ(y).0;
  }

  /** Incrementing `x + b` with a prefix reaching past `x` increments
      only `b`, with the prefix shifted by `|x|`. */
  lemma IncFromShift(x: seq<bool>, b: seq<bool>, prefix: nat)
    ensures IncFrom(x + b, |x| + prefix) == (x + IncFrom(b, prefix).0, IncFrom(b, prefix).1)
  {
    if prefix < |b| {
      assert (x + b)[|x| + prefix..] == b[prefix..];
      assert (x + b)[..|x| + prefix] == x + b[..prefix];
      var c := Succ(b[prefix..]);
      assert (x + b[..prefix]) + c.0 == x + (b[..prefix] + c.0);
    }
  }

  /** The carry out of a run `t` of set bits lands in `b`, the part that
      holds the prefix boundary at `e`. */
  lemma {:induction false} IncFromInto(x: seq<bool>, b: seq<bool>, t: seq<bool>, e: nat, n: nat)
    requires e <= |b| && n == |x| + e
    requires forall i :: 0 <= i < |t| ==> t[i]
    ensures IncFrom(x + b + t, n) == (x + IncFrom(b, e).0 + Constant(|t|, false), IncFrom(b, e).1)
  {
    IncFromCarry(x + b, t, n);
    IncFromShift(x, b, e);
  }

  /** The increment stops in `p`, which does not wrap around, so the run
      `t` of set bits after it clears and `x`, holding the prefix, stays. */
  lemma {:induction false} IncFromStop(x: seq<bool>, p: seq<bool>, t: seq<bool>, prefix: nat)
    requires prefix <= |x| && !Succ(p).1
    requires forall i :: 0 <= i < |t| ==> t[i]
    ensures IncFrom(x + p + t, prefix) == (x + Succ(p).0 + Constant(|t|, false), false)
  {
    SuccOverflow(t);
    SuccConcat(p, t);
    IncFromNoCarry(x, p + t, prefix);
    assert x + p + t == x + (p + t);
    assert x + (Succ(p).0 + Succ(t).0) == x + Succ(p).0 + Succ(t).0;
  }
}
