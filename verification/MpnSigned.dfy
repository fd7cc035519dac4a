/** The mpn loops behind signed addition: comparison, normalisation, subtraction and unequal lengths. */
module MpnSigned {
  import opened Arith
  import opened Limbs
  import opened Reciprocal
  import opened Mpn
  import opened DivisionLemmas
  import opened MpnDivision

  lemma ValZeroTop(s: seq<Limb>)
    requires |s| >= 1 && s[|s| - 1] == 0
    ensures Val(s) == Val(s[..|s| - 1])
  {
  }

  lemma ValPositive(s: seq<Limb>)
    requires |s| >= 1 && s[|s| - 1] != 0
    ensures Val(s) >= Pow(|s| - 1)
  {
    MulLe(1, s[|s| - 1], Pow(|s| - 1));
  }

  /** mpn_normalized_size. */
  method NormalizedSize(xp: array<Limb>, n0: nat) returns (n: nat)
    requires n0 <= xp.Length
    ensures n <= n0 && (n > 0 ==> xp[n - 1] != 0)
    ensures Val(xp[..n]) == Val(xp[..n0])
  {
    hide Val;
    n := n0;
    while n > 0 && xp[n - 1] == 0
      invariant n <= n0 && Val(xp[..n]) == Val(xp[..n0])
    {
      assert xp[..n][..n - 1] == xp[..n - 1];
      ValZeroTop(xp[..n]);
      n := n - 1;
    }
  }

  /** mpn_cmp: the first difference from the top decides. */
  method Cmp(ap: array<Limb>, bp: array<Limb>, n0: nat) returns (c: int)
    requires n0 <= ap.Length && n0 <= bp.Length
    ensures c == if Val(ap[..n0]) > Val(bp[..n0]) then 1 else if Val(ap[..n0]) < Val(bp[..n0]) then -1 else 0
  {
    hide Val;
    var n := n0;
    assert ap[n..n0] == bp[n..n0];
    while n > 0
      invariant n <= n0 && ap[n..n0] == bp[n..n0]
    {
      n := n - 1;
      if ap[n] != bp[n] {
        FirstDifference(ap[..n0], bp[..n0], n);
        return if ap[n] > bp[n] then 1 else -1;
      }
      assert ap[n..n0] == [ap[n]] + ap[n + 1..n0] && bp[n..n0] == [bp[n]] + bp[n + 1..n0];
    }
    assert ap[..n0] == ap[0..n0] && bp[..n0] == bp[0..n0];
    c := 0;
  }

  lemma FirstDifference(s: seq<Limb>, t: seq<Limb>, k: nat)
    requires |s| == |t| && k < |s| && s[k + 1..] == t[k + 1..] && s[k] != t[k]
    ensures (Val(s) > Val(t)) == (s[k] > t[k]) && Val(s) != Val(t)
  {
    hide Val, Pow, Mul;
    assert s == s[..k + 1] + s[k + 1..] && t == t[..k + 1] + t[k + 1..];
    ValConcat(s[..k + 1], s[k + 1..]);
    ValConcat(t[..k + 1], t[k + 1..]);
    ValTake(s, k);
    ValTake(t, k);
    if s[k] > t[k] {
      TopDiffers(s[k], t[k], Pow(k));
    } else {
      TopDiffers(t[k], s[k], Pow(k));
    }
  }

  lemma TopDiffers(x: int, y: int, p: int)
    requires x > y && p > 0
    ensures Mul(x, p) >= Mul(y, p) + p
  {
    MulLe(y + 1, x, p);
  }

  /** mpn_cmp4: a longer normalised number is larger. */
  method Cmp4(ap: array<Limb>, an: nat, bp: array<Limb>, bn: nat) returns (c: int)
    requires an <= ap.Length && bn <= bp.Length
    requires (an > 0 ==> ap[an - 1] != 0) && (bn > 0 ==> bp[bn - 1] != 0)
    ensures c == if Val(ap[..an]) > Val(bp[..bn]) then 1 else if Val(ap[..an]) < Val(bp[..bn]) then -1 else 0
  {
    hide Val, Pow;
    if an != bn {
      if an < bn {
        ValPositive(bp[..bn]);
        PowMono(an, bn - 1);
      } else {
        ValPositive(ap[..an]);
        PowMono(bn, an - 1);
      }
      c := if an < bn then -1 else 1;
    } else {
      c := Cmp(ap, bp, an);
    }
  }

  lemma {:induction false} PowMono(m: nat, n: nat)
    requires m <= n
    ensures Pow(m) <= Pow(n)
  {
    if m < n {
      PowMono(m, n - 1);
    }
  }

  /** The limb step of mpn_sub_n. */
  method SubBorrow(a: Limb, b0: Limb, cy0: Limb) returns (r: Limb, cy: Limb)
    requires cy0 <= 1
    ensures r - cy * B == a - cy0 - b0 && cy <= 1
  {
    hide Low;
    LowIs(b0 + cy0, if b0 + cy0 < B then 0 else 1);
    var b := Low(b0 + cy0);
    cy := if b < cy0 then 1 else 0;
    cy := cy + if a < b then 1 else 0;
    LowIs(a - b, if a < b then -1 else 0);
    r := Low(a - b);
  }

  /** mpn_sub_n. */
  method SubN(rp: array<Limb>, ap: array<Limb>, bp: array<Limb>, n: nat) returns (cy: Limb)
    requires n <= rp.Length && n <= ap.Length && n <= bp.Length
    modifies rp
    ensures cy <= 1
    ensures rp[..] == Patch(old(rp[..]), 0, rp[..n])
    ensures Val(rp[..n]) - Mul(cy, Pow(n)) == Val(old(ap[..n])) - Val(old(bp[..n]))
  {
    hide *;
    ghost var xs, ys, rs := ap[..n], bp[..n], rp[..];
    ghost var res: seq<Limb> := [];
    cy := 0;
    PatchNothing(rs, 0);
    StartCarry();
    assert xs[..0] == [] && ys[..0] == [];
    for i := 0 to n
      invariant |res| == i && cy <= 1
      invariant rp[..] == Patch(rs, 0, res)
      invariant rp != ap ==> ap[..n] == xs
      invariant rp != bp ==> bp[..n] == ys
      invariant Val(res) - Mul(cy, Pow(i)) == Val(xs[..i]) - Val(ys[..i])
    {
      PatchGet(rs, 0, res, i);
      var a, b := ap[i], bp[i];
      assert a == xs[i] && b == ys[i];
      ghost var c := cy;
      var r;
      r, cy := SubBorrow(a, b, cy);
      rp[i] := r;
      PatchSnoc(rs, 0, res, r);
      Borrow(res, r, c, cy, a, b);
      ValTake(xs, i);
      ValTake(ys, i);
      res := res + [r];
    }
    assert xs[..n] == xs && ys[..n] == ys;
    PatchSlice(rs, 0, res);
    assert rp[..n] == res;
  }

  /** mpn_sub_1. */
  method Sub1(rp: array<Limb>, ro: nat, ap: array<Limb>, ao: nat, n: nat, b0: Limb) returns (b: Limb)
    requires n >= 1 && ro + n <= rp.Length && ao + n <= ap.Length
    requires rp == ap ==> ro <= ao
    modifies rp
    ensures b <= 1
    ensures rp[..] == Patch(old(rp[..]), ro, rp[ro..ro + n])
    ensures Val(rp[ro..ro + n]) - Mul(b, Pow(n)) == Val(old(ap[ao..ao + n])) - b0
  {
    hide *;
    ghost var xs, rs := ap[ao..ao + n], rp[..];
    ghost var res: seq<Limb> := [];
    b := b0;
    PatchNothing(rs, ro);
    TimesOne(b);
    assert xs[..0] == [];
    for i := 0 to n
      invariant |res| == i && (i > 0 ==> b <= 1)
      invariant rp[..] == Patch(rs, ro, res)
      invariant rp != ap ==> ap[ao..ao + n] == xs
      invariant Val(res) - Mul(b, Pow(i)) == Val(xs[..i]) - b0
    {
      if rp == ap { PatchGet(rs, ro, res, ao + i); }
      var a := ap[ao + i];
      assert a == xs[i];
      ghost var c := b;
      var cy := if a < b then 1 else 0;
      LowIs(a - b, if a < b then -1 else 0);
      var r := Low(a - b);
      rp[ro + i] := r;
      b := cy;
      PatchSnoc(rs, ro, res, r);
      Borrow(res, r, c, b, a, 0);
      TimesZeroLeft(Pow(i));
      ValTake(xs, i);
      res := res + [r];
    }
    assert xs[..n] == xs;
    PatchSlice(rs, ro, res);
  }

  lemma TimesZeroLeft(p: int)
    ensures Mul(0, p) == 0
  {
  }

  lemma CarryAlgebra(lo: int, cy: int, p: int, hi: int, b: int, q: int, pq: int, x: int, y: int)
    requires lo + Mul(cy, p) == x && hi + Mul(b, q) == y + cy && pq == Mul(q, p)
    ensures lo + Mul(hi, p) + Mul(b, pq) == x + Mul(y, p)
  {
    assert (hi + b * q) * p == (y + cy) * p;
    Assoc(b, q, p);
  }

  lemma BorrowAlgebra(lo: int, cy: int, p: int, hi: int, b: int, q: int, pq: int, x: int, y: int)
    requires lo - Mul(cy, p) == x && hi - Mul(b, q) == y - cy && pq == Mul(q, p)
    ensures lo + Mul(hi, p) - Mul(b, pq) == x + Mul(y, p)
  {
    assert (hi - b * q) * p == (y - cy) * p;
    Assoc(b, q, p);
  }

  lemma AddTail(xs: seq<Limb>, y: int, lo: seq<Limb>, hi: seq<Limb>, cy0: int, cy: int)
    requires |xs| == |lo| + |hi|
    requires Val(lo) + Mul(cy0, Pow(|lo|)) == Val(xs[..|lo|]) + y
    requires Val(hi) + Mul(cy, Pow(|hi|)) == Val(xs[|lo|..]) + cy0
    ensures Val(lo + hi) + Mul(cy, Pow(|xs|)) == Val(xs) + y
  {
    hide Val, Mul, Pow;
    var bn := |lo|;
    assert xs == xs[..bn] + xs[bn..];
    ValConcat(lo, hi);
    ValConcat(xs[..bn], xs[bn..]);
    PowSplit(|hi|, bn);
    CarryAlgebra(Val(lo), cy0, Pow(bn), Val(hi), cy, Pow(|hi|), Pow(|xs|), Val(xs[..bn]) + y, Val(xs[bn..]));
  }

  lemma SubTail(xs: seq<Limb>, y: int, lo: seq<Limb>, hi: seq<Limb>, cy0: int, cy: int)
    requires |xs| == |lo| + |hi|
    requires Val(lo) - Mul(cy0, Pow(|lo|)) == Val(xs[..|lo|]) - y
    requires Val(hi) - Mul(cy, Pow(|hi|)) == Val(xs[|lo|..]) - cy0
    ensures Val(lo + hi) - Mul(cy, Pow(|xs|)) == Val(xs) - y
  {
    hide Val, Mul, Pow;
    var bn := |lo|;
    assert xs == xs[..bn] + xs[bn..];
    ValConcat(lo, hi);
    ValConcat(xs[..bn], xs[bn..]);
    PowSplit(|hi|, bn);
    BorrowAlgebra(Val(lo), cy0, Pow(bn), Val(hi), cy, Pow(|hi|), Pow(|xs|), Val(xs[..bn]) - y, Val(xs[bn..]));
  }

  /** mpn_add: operands of different lengths. */
  method Add(rp: array<Limb>, ap: array<Limb>, an: nat, bp: array<Limb>, bn: nat) returns (cy: Limb)
    requires bn <= an <= rp.Length && an <= ap.Length && bn <= bp.Length
    modifies rp
    ensures cy <= 1
    ensures rp[an..] == old(rp[an..])
    ensures Val(rp[..an]) + Mul(cy, Pow(an)) == Val(old(ap[..an])) + Val(old(bp[..bn]))
  {
    hide Val, Mul, Pow, Patch;
    ghost var xs, ys, rs := ap[..an], bp[..bn], rp[..];
    assert ap[0..0 + bn] == xs[..bn] && bp[0..0 + bn] == ys;
    cy := AddN(rp, 0, ap, 0, bp, 0, bn);
    ghost var lo := rp[0..0 + bn];
    PatchParts(rs, 0, lo);
    assert rp[an..] == rs[0 + bn..][an - bn..];
    assert rp[..bn] == lo && xs == xs[..bn] + xs[bn..];
    if an > bn {
      assert rp == ap ==> ap[bn..bn + (an - bn)] == rs[0 + bn..][..an - bn];
      assert ap[bn..bn + (an - bn)] == xs[bn..];
      ghost var cy0, rs1 := cy, rp[..];
      cy := Add1(rp, bn, ap, bn, an - bn, cy);
      ghost var hi := rp[bn..bn + (an - bn)];
      PatchParts(rs1, bn, hi);
      assert rp[..bn] == rs1[..bn] && rp[..an] == lo + hi;
      AddTail(xs, Val(ys), lo, hi, cy0, cy);
    } else {
      assert xs[..bn] == xs && rp[..an] == lo;
    }
  }

  /** mpn_sub: operands of different lengths. */
  method Sub(rp: array<Limb>, ap: array<Limb>, an: nat, bp: array<Limb>, bn: nat) returns (cy: Limb)
    requires bn <= an <= rp.Length && an <= ap.Length && bn <= bp.Length
    modifies rp
    ensures cy <= 1
    ensures Val(rp[..an]) - Mul(cy, Pow(an)) == Val(old(ap[..an])) - Val(old(bp[..bn]))
  {
    hide Val, Mul, Pow, Patch;
    ghost var xs, ys, rs := ap[..an], bp[..bn], rp[..];
    assert ap[..bn] == xs[..bn];
    cy := SubN(rp, ap, bp, bn);
    ghost var lo := rp[..bn];
    PatchParts(rs, 0, lo);
    assert xs == xs[..bn] + xs[bn..];
    if an > bn {
      assert rp == ap ==> ap[bn..bn + (an - bn)] == rs[0 + bn..][..an - bn];
      assert ap[bn..bn + (an - bn)] == xs[bn..];
      ghost var cy0, rs1 := cy, rp[..];
      cy := Sub1(rp, bn, ap, bn, an - bn, cy);
      ghost var hi := rp[bn..bn + (an - bn)];
      PatchParts(rs1, bn, hi);
      assert rp[..bn] == rs1[..bn] && rp[..an] == lo + hi;
      SubTail(xs, Val(ys), lo, hi, cy0, cy);
    } else {
      assert xs[..bn] == xs && rp[..an] == lo;
    }
  }
}
