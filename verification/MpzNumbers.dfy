/** mpz_t: signed integers as a limb array and a signed limb count, with the operations that division needs. */
module MpzNumbers {
  import opened Arith
  import opened Limbs
  import opened DivisionLemmas
  import opened MpnDivision
  import opened Mpn
  import opened MpnSigned

  lemma TopLimbNonzero(s: seq<Limb>)
    requires |s| >= 1 && Val(s) >= Pow(|s| - 1)
    ensures s[|s| - 1] != 0
  {
    if s[|s| - 1] == 0 {
      ValZeroTop(s);
    }
  }

  class Mpz {
    var size: int       // _mp_size: the limb count, negated for a negative number
    var d: array<Limb>  // _mp_d, with _mp_alloc its length

    ghost predicate Valid()
      reads this, d
    {
      Abs(size) <= d.Length && (size != 0 ==> d[Abs(size) - 1] != 0)
    }

    ghost function Mag(): nat
      requires Valid()
      reads this, d
    {
      Val(d[..Abs(size)])
    }

    ghost function Value(): int
      requires Valid()
      reads this, d
    {
      if size < 0 then 0 - Mag() else Mag()
    }

    /** mpz_init. */
    constructor ()
      ensures fresh(d) && Valid() && size == 0 && Value() == 0
    {
      size, d := 0, new Limb[0];
    }

    /** MPZ_REALLOC: room for n limbs, keeping those there are. */
    method Realloc(n: nat)
      modifies this`d
      ensures d == old(d) || fresh(d)
      ensures n <= d.Length && old(d.Length) <= d.Length && d[..old(d.Length)] == old(d[..])
    {
      if n > d.Length {
        var e := new Limb[n](i requires 0 <= i < n reads this, d => if i < d.Length then d[i] else 0);
        assert e[..d.Length] == d[..];
        d := e;
      }
    }
  }

  /** Distinct numbers do not share limbs. */
  ghost predicate Apart(r: Mpz, a: Mpz)
    reads r, a
  {
    r == a || r.d != a.d
  }

  /** mpn_add with its carry stored as a new top limb: the sum, normalised. */
  method AddLimbs(rp: array<Limb>, ap: array<Limb>, an: nat, bp: array<Limb>, bn: nat) returns (rn: nat)
    requires bn <= an < rp.Length && an <= ap.Length && bn <= bp.Length
    requires an > 0 ==> ap[an - 1] != 0
    modifies rp
    ensures rn <= rp.Length && (rn > 0 ==> rp[rn - 1] != 0)
    ensures Val(rp[..rn]) == Val(old(ap[..an])) + Val(old(bp[..bn]))
  {
    hide Val, Mul, Pow;
    ghost var xs, y := ap[..an], Val(bp[..bn]);
    PowMono(bn, an);
    var cy := Add(rp, ap, an, bp, bn);
    ghost var rs := rp[..an];
    SumTop(rs, cy, xs, y);
    rp[an] := cy;
    rn := an + cy;
    ValPush(rs, cy);
    assert rp[..an + 1] == rs + [cy] && rp[..an] == rs;
  }

  lemma SumTop(rs: seq<Limb>, cy: Limb, xs: seq<Limb>, y: nat)
    requires |rs| == |xs| && cy <= 1 && (|xs| > 0 ==> xs[|xs| - 1] != 0) && y < Pow(|xs|)
    requires Val(rs) + Mul(cy, Pow(|xs|)) == Val(xs) + y
    ensures cy == 0 && |xs| > 0 ==> rs[|xs| - 1] != 0
    ensures |xs| == 0 ==> cy == 0
    ensures cy == 0 ==> Mul(cy, Pow(|xs|)) == 0
  {
    hide Val, Mul, Pow;
    TimesFlag(cy, Pow(|xs|));
    if |xs| == 0 {
      EmptyVal(xs);
    } else if cy == 0 {
      ValPositive(xs);
      TopLimbNonzero(rs);
    }
  }

  lemma EmptyVal(s: seq<Limb>)
    requires s == []
    ensures Val(s) == 0 && Pow(0) == 1
  {
  }

  /** mpz_abs_add: |a| + |b| into the limbs of r; the new limb count is returned, not stored. */
  method AbsAdd(r: Mpz, a: Mpz, b: Mpz) returns (rn: nat)
    requires a.Valid() && b.Valid() && Apart(r, a) && Apart(r, b) && Apart(a, b)
    modifies r`d, r.d
    ensures r.d == old(r.d) || fresh(r.d)
    ensures rn <= r.d.Length && (rn > 0 ==> r.d[rn - 1] != 0)
    ensures Val(r.d[..rn]) == old(a.Mag()) + old(b.Mag())
  {
    hide Val;
    var an, bn := Abs(a.size), Abs(b.size);
    ghost var xs, ys := a.d[..an], b.d[..bn];
    r.Realloc((if an < bn then bn else an) + 1);
    assert a.d[..an] == xs && b.d[..bn] == ys;
    if an < bn {
      rn := AddLimbs(r.d, b.d, bn, a.d, an);
    } else {
      rn := AddLimbs(r.d, a.d, an, b.d, bn);
    }
  }

  /** mpn_sub of a smaller number from a larger one, normalised; there is no borrow out. */
  method SubLimbs(rp: array<Limb>, ap: array<Limb>, an: nat, bp: array<Limb>, bn: nat) returns (rn: nat)
    requires bn <= an <= rp.Length && an <= ap.Length && bn <= bp.Length
    requires Val(bp[..bn]) <= Val(ap[..an])
    modifies rp
    ensures rn <= an && (rn > 0 ==> rp[rn - 1] != 0)
    ensures Val(rp[..rn]) == Val(old(ap[..an])) - Val(old(bp[..bn]))
  {
    hide Val, Mul, Pow;
    var cy := Sub(rp, ap, an, bp, bn);
    TimesFlag(cy, Pow(an));
    rn := NormalizedSize(rp, an);
  }

  /** A number with fewer limbs is not larger. */
  lemma FewerLimbs(s: seq<Limb>, t: seq<Limb>)
    requires Val(s) >= Val(t) && (|t| > 0 ==> t[|t| - 1] != 0)
    ensures |t| <= |s|
  {
    if |s| < |t| {
      ValPositive(t);
      PowMono(|s|, |t| - 1);
    }
  }

  /** mpz_abs_sub: |a| - |b| into the limbs of r, the sign in the returned limb count. */
  method AbsSub(r: Mpz, a: Mpz, b: Mpz) returns (rn: int)
    requires a.Valid() && b.Valid() && Apart(r, a) && Apart(r, b) && Apart(a, b)
    modifies r`d, r.d
    ensures r.d == old(r.d) || fresh(r.d)
    ensures Abs(rn) <= r.d.Length && (rn != 0 ==> r.d[Abs(rn) - 1] != 0)
    ensures (if rn < 0 then 0 - Val(r.d[..Abs(rn)]) else Val(r.d[..Abs(rn)])) == old(a.Mag()) - old(b.Mag())
  {
    hide Val;
    var an, bn := Abs(a.size), Abs(b.size);
    ghost var xs, ys := a.d[..an], b.d[..bn];
    var cmp := Cmp4(a.d, an, b.d, bn);
    if cmp > 0 {
      FewerLimbs(xs, ys);
      r.Realloc(an);
      assert a.d[..an] == xs && b.d[..bn] == ys;
      rn := SubLimbs(r.d, a.d, an, b.d, bn);
    } else if cmp < 0 {
      FewerLimbs(ys, xs);
      r.Realloc(bn);
      assert a.d[..an] == xs && b.d[..bn] == ys;
      rn := SubLimbs(r.d, b.d, bn, a.d, an);
      NonzeroLimbs(r.d[..rn]);
      rn := -rn;
    } else {
      rn := 0;
      EmptyVal(r.d[..0]);
    }
  }

  lemma NonzeroLimbs(s: seq<Limb>)
    ensures Val(s) > 0 ==> |s| > 0
  {
  }

  /** mpz_add. */
  method AddMpz(r: Mpz, a: Mpz, b: Mpz)
    requires a.Valid() && b.Valid() && Apart(r, a) && Apart(r, b) && Apart(a, b)
    modifies r, r.d
    ensures r.d == old(r.d) || fresh(r.d)
    ensures r.Valid() && r.Value() == old(a.Value()) + old(b.Value())
  {
    hide Val;
    var rn;
    if (a.size < 0) == (b.size < 0) {
      rn := AbsAdd(r, a, b);
    } else {
      rn := AbsSub(r, a, b);
    }
    EmptyVal([]);
    assert r.d[..0] == [];
    r.size := if a.size >= 0 then rn else -rn;
  }

  /** mpz_sub. */
  method SubMpz(r: Mpz, a: Mpz, b: Mpz)
    requires a.Valid() && b.Valid() && Apart(r, a) && Apart(r, b) && Apart(a, b)
    modifies r, r.d
    ensures r.d == old(r.d) || fresh(r.d)
    ensures r.Valid() && r.Value() == old(a.Value()) - old(b.Value())
  {
    hide Val;
    var rn;
    if (a.size < 0) == (b.size < 0) {
      rn := AbsSub(r, a, b);
    } else {
      rn := AbsAdd(r, a, b);
    }
    EmptyVal([]);
    assert r.d[..0] == [];
    r.size := if a.size >= 0 then rn else -rn;
  }

  /** mpz_set: copy x. */
  method SetMpz(r: Mpz, x: Mpz)
    requires x.Valid() && Apart(r, x)
    modifies r, r.d
    ensures r.d == old(r.d) || fresh(r.d)
    ensures r.Valid() && r.size == old(x.size) && r.Value() == old(x.Value())
    ensures r.d[..Abs(r.size)] == old(x.d[..Abs(x.size)])
  {
    hide Val;
    if r != x {
      var n := Abs(x.size);
      r.Realloc(n);
      var rp, xp := r.d, x.d;
      for i := 0 to n
        invariant rp[..i] == xp[..i]
        modifies rp
      {
        rp[i] := xp[i];
      }
      r.size := x.size;
    }
  }

  /** mpz_set_si for the values 1 and -1, and mpz_set_ui. */
  method SetSmall(r: Mpz, x: int)
    requires -B < x < B
    modifies r, r.d
    ensures r.d == old(r.d) || fresh(r.d)
    ensures r.Valid() && r.Value() == x
  {
    if x == 0 {
      r.size := 0;
    } else {
      r.size := if x > 0 then 1 else -1;
      r.Realloc(1);
      r.d[0] := Abs(x);
      assert r.d[..1] == [Abs(x)];
      ValOne(Abs(x));
    }
  }

  /** mpz_abs_add_ui. */
  method AbsAddUi(r: Mpz, a: Mpz, b: Limb) returns (rn: nat)
    requires a.Valid() && Apart(r, a)
    modifies r`d, r.d
    ensures r.d == old(r.d) || fresh(r.d)
    ensures rn <= r.d.Length && (rn > 0 ==> r.d[rn - 1] != 0)
    ensures Val(r.d[..rn]) == old(a.Mag()) + b
  {
    hide Val, Mul, Pow, Patch;
    var an := Abs(a.size);
    ghost var xs := a.d[..an];
    r.Realloc(an + 1);
    assert a.d[..an] == xs;
    if an == 0 {
      r.d[0] := b;
      rn := if b > 0 then 1 else 0;
      ValOne(b);
      EmptyVal(xs);
      EmptyVal(r.d[..0]);
      assert r.d[..1] == [b];
    } else {
      assert a.d[0..0 + an] == xs;
      var cy := Add1(r.d, 0, a.d, 0, an, b);
      ghost var rs := r.d[..an];
      assert r.d[0..0 + an] == rs;
      OneLimbBelow(b, an);
      SumTop(rs, cy, xs, b);
      r.d[an] := cy;
      rn := an + cy;
      ValPush(rs, cy);
      assert r.d[..an + 1] == rs + [cy] && r.d[..an] == rs;
    }
  }

  lemma OneLimbBelow(b: Limb, n: nat)
    requires n >= 1
    ensures b < Pow(n)
  {
    PowMono(1, n);
    assert Pow(1) == B * Pow(0);
  }

  /** mpz_abs_sub_ui, where -1 as a limb count stands for a result below zero. */
  method AbsSubUi(r: Mpz, a: Mpz, b: Limb) returns (rn: int)
    requires a.Valid() && Apart(r, a)
    modifies r`d, r.d
    ensures r.d == old(r.d) || fresh(r.d)
    ensures Abs(rn) <= r.d.Length && (rn != 0 ==> r.d[Abs(rn) - 1] != 0)
    ensures (if rn < 0 then 0 - Val(r.d[..Abs(rn)]) else Val(r.d[..Abs(rn)])) == old(a.Mag()) - b
  {
    hide Val, Mul, Pow, Patch;
    var an := Abs(a.size);
    ghost var xs := a.d[..an];
    r.Realloc(if an == 0 then 1 else an);
    assert a.d[..an] == xs;
    EmptyVal([]);
    if an == 0 {
      r.d[0] := b;
      rn := if b > 0 then -1 else 0;
      ValOne(b);
      assert r.d[..1] == [b] && r.d[..0] == [] && xs == [];
    } else if an == 1 && a.d[0] < b {
      assert xs == [a.d[0]];
      ValOne(a.d[0]);
      ValOne(b - a.d[0]);
      r.d[0] := b - a.d[0];
      rn := -1;
      assert r.d[..1] == [r.d[0]];
    } else {
      SingleLimbAtLeast(xs, b);
      assert a.d[0..0 + an] == xs;
      var cy := Sub1(r.d, 0, a.d, 0, an, b);
      assert r.d[0..0 + an] == r.d[..an];
      TimesFlag(cy, Pow(an));
      rn := NormalizedSize(r.d, an);
    }
  }

  lemma SingleLimbAtLeast(xs: seq<Limb>, b: Limb)
    requires |xs| >= 1 && xs[|xs| - 1] != 0 && (|xs| == 1 ==> xs[0] >= b)
    ensures Val(xs) >= b
  {
    hide Val, Pow;
    if |xs| == 1 {
      assert xs == [xs[0]];
      ValOne(xs[0]);
    } else {
      ValPositive(xs);
      OneLimbBelow(b, |xs| - 1);
    }
  }

  /** mpz_add_ui. */
  method AddUi(r: Mpz, a: Mpz, b: Limb)
    requires a.Valid() && Apart(r, a)
    modifies r, r.d
    ensures r.d == old(r.d) || fresh(r.d)
    ensures r.Valid() && r.Value() == old(a.Value()) + b
  {
    hide Val;
    EmptyVal([]);
    if a.size >= 0 {
      r.size := AbsAddUi(r, a, b);
    } else {
      var rn := AbsSubUi(r, a, b);
      r.size := -rn;
    }
    assert r.d[..0] == [];
  }

  /** mpz_sub_ui. */
  method SubUi(r: Mpz, a: Mpz, b: Limb)
    requires a.Valid() && Apart(r, a)
    modifies r, r.d
    ensures r.d == old(r.d) || fresh(r.d)
    ensures r.Valid() && r.Value() == old(a.Value()) - b
  {
    hide Val;
    EmptyVal([]);
    if a.size < 0 {
      var rn: int;
      rn := AbsAddUi(r, a, b);
      r.size := -rn;
    } else {
      r.size := AbsSubUi(r, a, b);
    }
    assert r.d[..0] == [];
  }
}
