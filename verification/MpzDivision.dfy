/** mpz_div_qr: signed division in the three rounding modes. */
module MpzDivision {
  import opened Arith
  import opened Limbs
  import opened DivisionLemmas
  import opened MpnDivision
  import opened MpnDivQr
  import opened Mpn
  import opened MpnSigned
  import opened MpzNumbers

  datatype Mode = Floor | Ceil | Trunc

  /**
   q and r are quotient and remainder of n by d: in every mode n == q*d + r with
   |r| < |d|, and the sign of a nonzero r is that of d, opposite to d, or that of n.
   */
  ghost predicate IsDivision(mode: Mode, n: int, d: int, q: int, r: int) {
    && n == q * d + r && Abs(r) < Abs(d)
    && match mode
       case Floor => r == 0 || (r < 0) == (d < 0)
       case Ceil => r == 0 || (r < 0) != (d < 0)
       case Trunc => r == 0 || (r < 0) == (n < 0)
  }

  /** The mode, dividend and divisor determine quotient and remainder. */
  lemma DivisionUnique(mode: Mode, n: int, d: int, q1: int, r1: int, q2: int, r2: int)
    requires IsDivision(mode, n, d, q1, r1) && IsDivision(mode, n, d, q2, r2)
    ensures q1 == q2 && r1 == r2
  {
    var k, x := q1 - q2, r2 - r1;
    assert k * d == x;
    SmallMultiple(k, d, x);
  }

  lemma SmallMultiple(k: int, d: int, x: int)
    requires k * d == x && Abs(x) < Abs(d)
    ensures k == 0
  {
    var j, e := if k < 0 then -k else k, if d < 0 then -d else d;
    assert j * e == Abs(x);
    if j >= 1 {
      MulLe(1, j, e);
    }
  }

  /** Floor and ceiling division round the exact quotient down and up. */
  lemma RoundingDirection(mode: Mode, n: int, d: int, q: int, r: int)
    requires IsDivision(mode, n, d, q, r) && d != 0
    ensures mode.Floor? ==> (if d > 0 then q * d <= n < (q + 1) * d else q * d >= n > (q + 1) * d)
    ensures mode.Ceil? ==> (if d > 0 then (q - 1) * d < n <= q * d else (q - 1) * d > n >= q * d)
    ensures mode.Trunc? ==> Abs(q * d) <= Abs(n)
  {
    assert (q + 1) * d == q * d + d && (q - 1) * d == q * d - d;
    if mode.Trunc? {
      TruncToZero(n, d, q, r);
    }
  }

  lemma TruncToZero(n: int, d: int, q: int, r: int)
    requires n == q * d + r && Abs(r) < Abs(d) && (r == 0 || (r < 0) == (n < 0))
    ensures Abs(q * d) <= Abs(n)
  {
    var p := q * d;
    if p != 0 && Abs(p) < Abs(d) {
      SmallMultiple(q, d, p);
    }
  }

  /** Fewer limbs in the dividend than in the divisor: the quotient is 0, 1 or -1. */
  lemma ShortDivision(mode: Mode, n: int, d: int)
    requires n != 0 && Abs(n) < Abs(d)
    ensures var same := (n < 0) == (d < 0);
            if mode.Ceil? && same then IsDivision(mode, n, d, 1, n - d) && n - d != 0
            else if mode.Floor? && !same then IsDivision(mode, n, d, -1, n + d) && n + d != 0
            else IsDivision(mode, n, d, 0, n)
  {
  }

  /** Signing and rounding the quotient and remainder of the magnitudes. */
  lemma SignedDivision(mode: Mode, n: int, d: int, q: int, r: int)
    requires d != 0 && 0 <= r < Abs(d) && Abs(n) == Mul(q, Abs(d)) + r
    ensures var same := (n < 0) == (d < 0);
            var q0, r0 := if same then q else -q, if n < 0 then -r else r;
            if mode.Floor? && !same && r != 0 then IsDivision(mode, n, d, q0 - 1, r0 + d) && r0 + d != 0
            else if mode.Ceil? && same && r != 0 then IsDivision(mode, n, d, q0 + 1, r0 - d) && r0 - d != 0
            else IsDivision(mode, n, d, q0, r0)
  {
    hide Mul, IsDivision;
    var q0, r0 := if (n < 0) == (d < 0) then q else -q, if n < 0 then -r else r;
    SignedProduct(q, d, n, q0);
    if mode.Floor? && (n < 0) != (d < 0) && r != 0 {
      Conclude(mode, n, d, q0 - 1, r0 + d);
    } else if mode.Ceil? && (n < 0) == (d < 0) && r != 0 {
      Conclude(mode, n, d, q0 + 1, r0 - d);
    } else {
      Conclude(mode, n, d, q0, r0);
    }
  }

  lemma SignedProduct(q: int, d: int, n: int, q0: int)
    requires q0 == if (n < 0) == (d < 0) then q else -q
    ensures Mul(q0, d) == if n < 0 then -Mul(q, Abs(d)) else Mul(q, Abs(d))
    ensures Mul(q0 - 1, d) == Mul(q0, d) - d && Mul(q0 + 1, d) == Mul(q0, d) + d
  {
  }

  lemma Conclude(mode: Mode, n: int, d: int, q: int, r: int)
    requires n == Mul(q, d) + r && Abs(r) < Abs(d)
    requires mode.Floor? ==> r == 0 || (r < 0) == (d < 0)
    requires mode.Ceil? ==> r == 0 || (r < 0) != (d < 0)
    requires mode.Trunc? ==> r == 0 || (r < 0) == (n < 0)
    ensures IsDivision(mode, n, d, q, r)
  {
  }

  /** At most one top limb of the quotient is zero. */
  lemma QuotientSize(xs: seq<Limb>, ds: seq<Limb>, qs: seq<Limb>, r: nat)
    requires 1 <= |ds| <= |xs| && |qs| == |xs| - |ds| + 1 && xs[|xs| - 1] != 0
    requires Val(xs) == Mul(Val(qs), Val(ds)) + r && r < Val(ds)
    requires |qs| >= 2 && qs[|qs| - 1] == 0
    ensures qs[|qs| - 2] != 0
  {
    hide Val, Mul, Pow;
    if qs[|qs| - 2] == 0 {
      var k := |qs| - 2;
      var low := qs[..k];
      assert qs[..k + 1][..k] == low;
      ValZeroTop(qs);
      ValZeroTop(qs[..k + 1]);
      ValPositive(xs);
      PowSplit(k, |ds|);
      SmallProduct(Val(qs), Pow(k), Val(ds), Pow(|ds|), r);
    }
  }

  lemma SmallProduct(q: int, p: int, d: int, e: int, r: int)
    requires 0 <= q < p && 0 <= d < e && 0 <= r < d
    ensures Mul(q, d) + r < Mul(p, e)
  {
    MulLe(q + 1, p, d);
    MulLe(d, e, p);
  }

  /** The branch of mpz_div_qr for a dividend with fewer limbs than the divisor. */
  method DivShort(q: Mpz?, r: Mpz?, n: Mpz, d: Mpz, mode: Mode) returns (ghost qv: int, ghost rv: int)
    requires n.Valid() && d.Valid() && n.size != 0 && Abs(n.size) < Abs(d.size) && Apart(n, d)
    requires r != null ==> r != q && Apart(r, n) && Apart(r, d)
    requires q != null && r != null ==> q.d != r.d
    modifies q, r, if q == null then {} else {q.d}, if r == null then {} else {r.d}
    ensures IsDivision(mode, old(n.Value()), old(d.Value()), qv, rv) && rv != 0
    ensures q != null ==> q.Valid() && q.Value() == qv
    ensures r != null ==> r.Valid() && r.Value() == rv
    ensures q != null && r != null ==> q.d != r.d
  {
    hide Val;
    var same := (n.size < 0) == (d.size < 0);
    ghost var nv, dv := n.Value(), d.Value();
    MagnitudeOrder(n.d[..Abs(n.size)], d.d[..Abs(d.size)]);
    ShortDivision(mode, nv, dv);
    if mode.Ceil? && same {
      qv, rv := 1, nv - dv;
      if r != null { SubMpz(r, n, d); }
      if q != null { SetSmall(q, 1); }
    } else if mode.Floor? && !same {
      qv, rv := -1, nv + dv;
      if r != null { AddMpz(r, n, d); }
      if q != null { SetSmall(q, -1); }
    } else {
      qv, rv := 0, nv;
      if r != null { SetMpz(r, n); }
      if q != null { SetSmall(q, 0); }
    }
  }

  lemma MagnitudeOrder(s: seq<Limb>, t: seq<Limb>)
    requires |s| < |t| && |s| > 0 && s[|s| - 1] != 0 && t[|t| - 1] != 0
    ensures 0 < Val(s) < Val(t)
  {
    hide Val;
    ValPositive(s);
    ValPositive(t);
    PowMono(|s|, |t| - 1);
  }

  /** mpz_init_set. */
  method CopyOf(n: Mpz) returns (t: Mpz)
    requires n.Valid()
    ensures fresh(t) && fresh(t.d) && t.Valid() && t.size == n.size && t.Mag() == n.Mag()
    ensures t.d[..Abs(n.size)] == n.d[..Abs(n.size)]
  {
    hide Val;
    t := new Mpz();
    SetMpz(t, n);
  }

  /** The quotient limbs become a number, without a zero top limb. */
  method TakeQuotient(qp: array<Limb>, ghost xs: seq<Limb>, ghost ds: seq<Limb>, ghost r: nat) returns (tq: Mpz)
    requires 1 <= |ds| <= |xs| && qp.Length == |xs| - |ds| + 1 && xs[|xs| - 1] != 0
    requires Val(xs) == Mul(Val(qp[..]), Val(ds)) + r && r < Val(ds)
    ensures fresh(tq) && tq.d == qp && tq.Valid() && tq.size >= 0 && tq.Mag() == Val(qp[..])
  {
    hide Val, Mul;
    tq := new Mpz();
    var qn := qp.Length;
    QuotientLimbs(xs, ds, qp[..], r);
    if qp[qn - 1] == 0 {
      qn := qn - 1;
    }
    assert qp[..][..qn] == qp[..qn];
    tq.d, tq.size := qp, qn;
  }

  /** mpn_div_qr on the limbs of tr, whose low limbs become the remainder. */
  method DivInPlace(tr: Mpz, d: Mpz, wantQ: bool) returns (tq: Mpz, ghost q: nat, ghost r: nat)
    requires tr.Valid() && d.Valid() && 0 < Abs(d.size) <= Abs(tr.size) && tr.d != d.d
    modifies tr.d
    ensures fresh(tq) && fresh(tq.d) && tq.Valid() && tq.size >= 0 && (wantQ ==> tq.Mag() == q)
    ensures Abs(d.size) <= tr.d.Length && r == Val(tr.d[..Abs(d.size)]) < d.Mag()
    ensures old(tr.Mag()) == Mul(q, d.Mag()) + r
  {
    hide Val, Mul;
    var nn, dn, np := Abs(tr.size), Abs(d.size), tr.d;
    ghost var xs, ds := np[..nn], d.d[..dn];
    var qn := nn - dn + 1;
    if wantQ {
      var qp := new Limb[qn];
      ghost var qs := DivQr(qp, np, nn, d.d, dn);
      assert qp[..] == qs && d.d[..dn] == ds;
      q, r := Val(qs), Val(np[..dn]);
      tq := TakeQuotient(qp, xs, ds, r);
    } else {
      ghost var qs := DivQr(null, np, nn, d.d, dn);
      q, r := Val(qs), Val(np[..dn]);
      tq := new Mpz();
    }
  }

  /** The magnitudes: a fresh copy of n is divided by d into the remainder tr and, if wanted, the quotient tq. */
  method DivMagnitudes(n: Mpz, d: Mpz, wantQ: bool) returns (tq: Mpz, tr: Mpz, ghost q: nat, ghost r: nat)
    requires n.Valid() && d.Valid() && 0 < Abs(d.size) <= Abs(n.size)
    ensures fresh(tq) && fresh(tr) && fresh(tq.d) && fresh(tr.d) && tq != tr && tq.d != tr.d
    ensures n.Mag() == Mul(q, d.Mag()) + r && r < d.Mag()
    ensures tr.Valid() && tr.Mag() == r && tr.size >= 0
    ensures tq.Valid() && tq.size >= 0 && (wantQ ==> tq.Mag() == q)
  {
    hide Val, Mul;
    tr := CopyOf(n);
    tq, q, r := DivInPlace(tr, d, wantQ);
    tr.size := NormalizedSize(tr.d, Abs(d.size));
  }

  lemma QuotientLimbs(xs: seq<Limb>, ds: seq<Limb>, qs: seq<Limb>, r: nat)
    requires 1 <= |ds| <= |xs| && |qs| == |xs| - |ds| + 1 && xs[|xs| - 1] != 0
    requires Val(xs) == Mul(Val(qs), Val(ds)) + r && r < Val(ds)
    ensures var qn := if qs[|qs| - 1] == 0 then |qs| - 1 else |qs|;
            Val(qs[..qn]) == Val(qs) && (qn > 0 ==> qs[qn - 1] != 0)
  {
    hide Val, Mul;
    assert qs[..|qs|] == qs;
    if qs[|qs| - 1] == 0 {
      ValZeroTop(qs);
      if |qs| >= 2 {
        QuotientSize(xs, ds, qs, r);
      }
    }
  }

  /** The signed truncating division, and the facts about rounding it that the modes need. */
  method DivSigned(n: Mpz, d: Mpz, wantQ: bool) returns (tq: Mpz, tr: Mpz, ghost qm: nat, ghost rm: nat)
    requires n.Valid() && d.Valid() && 0 < Abs(d.size) <= Abs(n.size)
    ensures fresh(tq) && fresh(tr) && fresh(tq.d) && fresh(tr.d) && tq != tr && tq.d != tr.d
    ensures tq.Valid() && tr.Valid() && (tr.size != 0 <==> rm != 0)
    ensures (n.size < 0) == (n.Value() < 0) && (d.size < 0) == (d.Value() < 0) && d.Value() != 0
    ensures rm < Abs(d.Value()) && Abs(n.Value()) == Mul(qm, Abs(d.Value())) + rm
    ensures wantQ ==> tq.Value() == SignOf((n.size < 0) == (d.size < 0), qm)
    ensures tr.Value() == SignOf(n.size >= 0, rm)
  {
    hide Val, Mul;
    ZeroLimbs(n.d[..Abs(n.size)]);
    ZeroLimbs(d.d[..Abs(d.size)]);
    EmptyVal([]);
    tq, tr, qm, rm := DivMagnitudes(n, d, wantQ);
    ZeroLimbs(tr.d[..tr.size]);
    tq.size := if (n.size < 0) == (d.size < 0) then tq.size else -tq.size;
    tr.size := if n.size < 0 then -tr.size else tr.size;
    assert tq.d[..0] == [] && tr.d[..0] == [];
  }

  /** The rounding step: one off the quotient and a divisor onto the remainder, or the other way round. */
  method Round(tq: Mpz, tr: Mpz, d: Mpz, down: bool, wantQ: bool, wantR: bool)
    requires tq.Valid() && tr.Valid() && d.Valid() && tq != tr && d != tq && d != tr
    requires tq.d != tr.d && d.d != tq.d && d.d != tr.d
    modifies tq, tr, tq.d, tr.d
    ensures tq.Valid() && tr.Valid() && tq.d != tr.d
    ensures (tq.d == old(tq.d) || fresh(tq.d)) && (tr.d == old(tr.d) || fresh(tr.d))
    ensures wantQ ==> tq.Value() == old(tq.Value()) + if down then -1 else 1
    ensures wantR ==> tr.Value() == old(tr.Value()) + if down then d.Value() else -d.Value()
  {
    hide Val;
    if wantQ {
      if down { SubUi(tq, tq, 1); } else { AddUi(tq, tq, 1); }
    }
    if wantR {
      if down { AddMpz(tr, tr, d); } else { SubMpz(tr, tr, d); }
    }
  }

  /** The division in any mode, into fresh numbers. */
  method DivRounded(n: Mpz, d: Mpz, mode: Mode, wantQ: bool, wantR: bool)
    returns (tq: Mpz, tr: Mpz, nonzero: bool, ghost qv: int, ghost rv: int)
    requires n.Valid() && d.Valid() && 0 < Abs(d.size) <= Abs(n.size)
    ensures fresh(tq) && fresh(tr) && fresh(tq.d) && fresh(tr.d) && tq != tr && tq.d != tr.d
    ensures tq.Valid() && tr.Valid()
    ensures IsDivision(mode, n.Value(), d.Value(), qv, rv) && (nonzero <==> rv != 0)
    ensures wantQ ==> tq.Value() == qv
    ensures wantR ==> tr.Value() == rv
  {
    hide Val, Mul, IsDivision;
    var same := (n.size < 0) == (d.size < 0);
    ghost var qm, rm;
    tq, tr, qm, rm := DivSigned(n, d, wantQ);
    ghost var nv, dv := n.Value(), d.Value();
    SignedDivision(mode, nv, dv, qm, rm);
    qv, rv := SignOf(same, qm), SignOf(n.size >= 0, rm);
    nonzero := tr.size != 0;
    if mode.Floor? && !same && nonzero {
      Round(tq, tr, d, true, wantQ, wantR);
      qv, rv := qv - 1, rv + dv;
    } else if mode.Ceil? && same && nonzero {
      Round(tq, tr, d, false, wantQ, wantR);
      qv, rv := qv + 1, rv - dv;
    }
  }

  /** The branch of mpz_div_qr that divides: sign, round, then swap the results in. */
  method DivLong(q: Mpz?, r: Mpz?, n: Mpz, d: Mpz, mode: Mode) returns (nonzero: bool, ghost qv: int, ghost rv: int)
    requires n.Valid() && d.Valid() && 0 < Abs(d.size) <= Abs(n.size)
    requires q != null ==> q != r
    modifies q, r
    ensures IsDivision(mode, old(n.Value()), old(d.Value()), qv, rv) && (nonzero <==> rv != 0)
    ensures q != null ==> q.Valid() && q.Value() == qv && fresh(q.d)
    ensures r != null ==> r.Valid() && r.Value() == rv && fresh(r.d)
  {
    hide Val, IsDivision;
    var tq, tr;
    tq, tr, nonzero, qv, rv := DivRounded(n, d, mode, q != null, r != null);
    if q != null {
      q.size, q.d := tq.size, tq.d;
    }
    if r != null {
      r.size, r.d := tr.size, tr.d;
    }
  }

  ghost function SignOf(positive: bool, x: int): int {
    if positive then x else -x
  }

  lemma ZeroLimbs(s: seq<Limb>)
    requires |s| > 0 ==> s[|s| - 1] != 0
    ensures Val(s) == 0 <==> |s| == 0
  {
    hide Val;
    if |s| > 0 {
      ValPositive(s);
    } else {
      EmptyVal(s);
    }
  }

  /**
   mpz_div_qr: q and r, either of which may be absent, become quotient and remainder
   of n by d; they may be n or d themselves.  The result says whether r is nonzero.
   */
  method DivQrMpz(q: Mpz?, r: Mpz?, n: Mpz, d: Mpz, mode: Mode) returns (nonzero: bool, ghost qv: int, ghost rv: int)
    requires n.Valid() && d.Valid() && d.size != 0 && Apart(n, d)
    requires r != null ==> r != q && Apart(r, n) && Apart(r, d)
    requires q != null && r != null ==> q.d != r.d
    modifies q, r, if q == null then {} else {q.d}, if r == null then {} else {r.d}
    ensures IsDivision(mode, old(n.Value()), old(d.Value()), qv, rv) && (nonzero <==> rv != 0)
    ensures q != null ==> q.Valid() && q.Value() == qv
    ensures r != null ==> r.Valid() && r.Value() == rv
  {
    hide Val, Mul;
    ghost var nv, dv := n.Value(), d.Value();
    EmptyVal([]);
    if n.size == 0 {
      assert n.d[..0] == [];
      ZeroLimbs(d.d[..Abs(d.size)]);
      if q != null { q.size := 0; assert q.d[..0] == []; }
      if r != null { r.size := 0; assert r.d[..0] == []; }
      return false, 0, 0;
    }
    if Abs(n.size) < Abs(d.size) {
      qv, rv := DivShort(q, r, n, d, mode);
      nonzero := true;
    } else {
      nonzero, qv, rv := DivLong(q, r, n, d, mode);
    }
  }
}
