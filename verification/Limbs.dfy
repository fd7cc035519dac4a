/** Little-endian limb sequences and the natural numbers they denote. */
module Limbs {
  import opened Arith

  // mp_limb_t is taken to be 64 bits wide; H is the half-limb base.
  const B: int := 0x1_0000_0000_0000_0000
  const H: int := 0x1_0000_0000

  type Limb = x: int | 0 <= x < B

  /** B to the power n. */
  ghost function Pow(n: nat): (p: nat)
    ensures p > 0
  {
    if n == 0 then 1 else B * Pow(n - 1)
  }

  /** The value of a little-endian limb sequence. */
  ghost function Val(s: seq<Limb>): (v: nat)
    ensures v < Pow(|s|)
  {
    if |s| == 0 then 0 else
      var n := |s| - 1;
      MulLe(s[n], B - 1, Pow(n));
      MulPos(s[n], Pow(n));
      Val(s[..n]) + s[n] * Pow(n)
  }

  /** Machine arithmetic: the low limb of an integer. */
  function Low(x: int): Limb {
    x % B
  }

  lemma {:induction false} PowAdd(m: nat, n: nat)
    ensures Pow(m + n) == Pow(m) * Pow(n)
  {
    if m != 0 {
      PowAdd(m - 1, n);
      assert m + n - 1 == (m - 1) + n;
      Assoc(B, Pow(m - 1), Pow(n));
    }
  }

  lemma ValSnoc(s: seq<Limb>, x: Limb)
    ensures Val(s + [x]) == Val(s) + x * Pow(|s|)
  {
    assert (s + [x])[..|s|] == s;
  }

  lemma {:induction false} ValAppend(s: seq<Limb>, t: seq<Limb>)
    ensures Val(s + t) == Val(s) + Val(t) * Pow(|s|)
  {
    if |t| == 0 {
      assert s + t == s;
    } else {
      var t', x := t[..|t| - 1], t[|t| - 1];
      assert s + t == (s + t') + [x];
      ValSnoc(s + t', x);
      ValAppend(s, t');
      PowAdd(|t'|, |s|);
      AppendStep(Val(t'), x, Pow(|t'|), Pow(|s|));
    }
  }

  lemma AppendStep(v: int, x: int, p: int, q: int)
    ensures v * q + x * (p * q) == (v + x * p) * q
  {
  }

  /** Limb sequences of one length are equal when their values are. */
  lemma {:induction false} ValInjective(s: seq<Limb>, t: seq<Limb>)
    requires |s| == |t| && Val(s) == Val(t)
    ensures s == t
  {
    if |s| != 0 {
      var n := |s| - 1;
      var s', t' := s[..n], t[..n];
      DivUnique(Val(s'), s[n], Val(t'), t[n], Pow(n));
      ValInjective(s', t');
      assert s == s' + [s[n]] && t == t' + [t[n]];
    }
  }
}
