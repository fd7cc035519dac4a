/** mpn_div_qr: division of limb arrays by one, two or more limbs, in place. */
module MpnDivQr {
  import opened Arith
  import opened Limbs
  import opened PowersOfTwo
  import opened Bitwise
  import opened Reciprocal
  import opened Mpn
  import opened DivisionLemmas
  import opened MpnDivision
  import opened DivInverse

  /**
   A division loop that runs down through cur: the limbs qs found so far account for
   all of the dividend but top and cur, and top, of weight |cur| limbs, is below d.
   */
  ghost predicate Running(total: int, qs: seq<Limb>, d: int, top: int, cur: seq<Limb>) {
    && 0 <= top < d
    && total == Mul(Mul(Val(qs), Pow(|cur|)), d) + Mul(top, Pow(|cur|)) + Val(cur)
  }

  lemma RunningStart(d: int, top: int, cur: seq<Limb>)
    requires 0 <= top < d
    ensures Running(Mul(top, Pow(|cur|)) + Val(cur), [], d, top, cur)
  {
    EmptyQuotient(d, |cur|);
  }

  lemma RunningStep(total: int, qs: seq<Limb>, d: int, top: int, cur: seq<Limb>, q: Limb, r: int)
    requires |cur| > 0 && Running(total, qs, d, top, cur)
    requires top * B + cur[|cur| - 1] == q * d + r && 0 <= r < d
    ensures Running(total, [q] + qs, d, r, cur[..|cur| - 1])
  {
    hide Val, Mul, Pow;
    var i := |cur| - 1;
    ValTop(cur);
    PowSucc(i);
    ValCons(q, qs);
    RunningAlgebra(Val(qs), Val([q] + qs), q, d, top, cur[i], r, Pow(i), Pow(i + 1));
  }

  lemma RunningAlgebra(v: int, v1: int, q: int, d: int, top: int, x: int, r: int, p: int, p1: int)
    requires v1 == q + B * v && p1 == B * p && top * B + x == q * d + r
    ensures Mul(Mul(v, p1), d) + Mul(top, p1) + Mul(x, p) == Mul(Mul(v1, p), d) + Mul(r, p)
  {
    assert (top * B + x) * p == (q * d + r) * p;
    assert (v1 * p) * d == (q * d) * p + (v * p1) * d;
  }

  lemma RunningEnd(total: int, qs: seq<Limb>, d: int, top: int)
    requires Running(total, qs, d, top, [])
    ensures total == Mul(Val(qs), d) + top && 0 <= top < d
  {
  }

  /** Undoing the normalising shift: the quotient stands and the remainder shifts back exactly. */
  lemma Unshift(n: int, d: int, q: int, r: int, c: int, nc: int, dc: int)
    requires c > 0 && nc == Mul(n, c) && dc == Mul(d, c) && nc == Mul(q, dc) + r && 0 <= r < dc
    ensures r == Mul(r / c, c) && n == Mul(q, d) + r / c && 0 <= r / c < d
  {
    var x := n - q * d;
    assert r == x * c by {
      assert (n - q * d) * c == n * c - q * (d * c);
    }
    UnshiftQuotient(r, x, c, d);
  }

  lemma UnshiftQuotient(r: int, x: int, c: int, d: int)
    requires c > 0 && r == x * c && 0 <= r < Mul(d, c)
    ensures r / c == x && 0 <= x < d
  {
    DivIs(r, x, 0, c);
    if x < 0 {
      MulLe(x, -1, c);
    } else if x >= d {
      MulLe(d, x, c);
    }
  }

  lemma TopShiftSmall(shift: nat)
    requires shift < 64
    ensures 2 * Pow2(shift) <= B
  {
    Pow2Mono(shift, 63);
    Pow2Of64();
  }

  /** mpn_lshift into a new array, when the divisor needs a shift; otherwise the dividend as it is. */
  method Normalise(np: array<Limb>, nn: nat, shift: nat) returns (tp: array<Limb>, r: Limb)
    requires 1 <= nn <= np.Length && shift < 64
    ensures tp == np || fresh(tp)
    ensures shift == 0 ==> tp == np
    ensures nn <= tp.Length
    ensures Mul(r, Pow(nn)) + Val(tp[..nn]) == Mul(Val(np[..nn]), Pow2(shift)) && r < Pow2(shift)
  {
    hide Val, Mul, Pow, Pow2, Shr, Patch, IsShifted;
    if shift > 0 {
      tp := new Limb[nn];
      assert np[0..0 + nn] == np[..nn];
      r := Lshift(tp, 0, np, 0, nn, shift);
      assert tp[0..0 + nn] == tp[..nn];
    } else {
      tp, r := np, 0;
      ShiftByZero(Val(np[..nn]), nn);
    }
  }

  lemma ShiftByZero(v: int, n: nat)
    ensures Mul(v, Pow2(0)) == v && Mul(0, Pow(n)) == 0 && Pow2(0) == 1
  {
  }

  /** mpn_div_qr_1_preinv: divide np[..nn] by the single limb that inv was made from. */
  method Div1Preinv(qp: array?<Limb>, np: array<Limb>, nn: nat, inv: Inverse, ghost d: Limb)
    returns (r: Limb, ghost qs: seq<Limb>)
    requires 1 <= nn <= np.Length && Inverts1(inv, d)
    requires qp != null ==> nn <= qp.Length
    modifies if qp == null then {} else {qp}
    ensures |qs| == nn && Val(old(np[..nn])) == Mul(Val(qs), d) + r && r < d
    ensures qp != null ==> qp[..] == qs + old(qp[nn..])
  {
    hide Val, Mul, Pow, Pow2, Running, Recip21, Stored;
    ghost var n, qtail := Val(np[..nn]), if qp == null then [] else qp[nn..];
    var tp;
    tp, r := Normalise(np, nn, inv.shift);
    TopShiftSmall(inv.shift);
    Recip21Normalised(inv.d1, inv.di);
    r, qs := Loop1(qp, tp, nn, inv.d1, inv.di, r, qtail);
    Unshift(n, d, Val(qs), r, Pow2(inv.shift), Mul(n, Pow2(inv.shift)), inv.d1);
    r := Shr(r, inv.shift);
  }

  /** The loop of mpn_div_qr_1_preinv: (r0, tp[..nn]) divided by the normalised d1. */
  method Loop1(qp: array?<Limb>, tp: array<Limb>, nn: nat, d1: Limb, di: Limb, r0: Limb, ghost qtail: seq<Limb>)
    returns (r: Limb, ghost qs: seq<Limb>)
    requires nn <= tp.Length && Recip21(d1, di) && r0 < d1
    requires qp != null ==> nn <= qp.Length && qp[nn..] == qtail
    modifies if qp == null then {} else {qp}
    ensures |qs| == nn && r < d1
    ensures Mul(r0, Pow(nn)) + Val(old(tp[..nn])) == Mul(Val(qs), d1) + r
    ensures qp != null ==> qp[..] == qs + qtail
  {
    hide Val, Mul, Pow, Running, Recip21, Stored;
    ghost var cur := tp[..nn];
    ghost var total := Mul(r0, Pow(nn)) + Val(cur);
    r := r0;
    RunningStart(d1, r, cur);
    qs := [];
    var i := nn;
    assert cur[..nn] == cur;
    if qp != null { StoredStart(qp[..], nn); }
    while i > 0
      invariant 0 <= i <= nn && |qs| == nn - i && r < d1
      invariant Running(total, qs, d1, r, cur[..i])
      invariant tp[..i] == cur[..i]
      invariant qp != null ==> Stored(qp[..], i, qs, qtail)
    {
      i := i - 1;
      assert tp[i] == cur[i] && cur[..i + 1][..i] == cur[..i];
      var q, r1 := Udiv21(r, tp[i], d1, di);
      RunningStep(total, qs, d1, r, cur[..i + 1], q, r1);
      r := r1;
      if qp != null {
        StoreQuotient(qp[..], i, q, qs, qtail);
        qp[i] := q;
      }
      qs := [q] + qs;
    }
    assert cur[..0] == [];
    if qp != null { StoredAll(qp[..], qs, qtail); }
    RunningEnd(total, qs, d1, r);
  }

  lemma Recip21Normalised(d: Limb, di: Limb)
    requires Recip21(d, di)
    ensures B <= 2 * d
  {
  }

  lemma RunningTop(total: int, qs: seq<Limb>, d: int, top: int, cur: seq<Limb>)
    requires Running(total, qs, d, top, cur)
    ensures 0 <= top < d
  {
  }

  // ----- two limbs

  /** The divisor that the inverse holds is the divisor it was made from, shifted. */
  lemma ShiftedDivisor2(inv: Inverse, ds: seq<Limb>)
    requires |ds| == 2 && Inverts2(inv, ds)
    ensures Two(inv.d1, inv.d0) == Mul(Val(ds), Pow2(inv.shift))
    ensures Val(ds) > 0
  {
    hide Mul, Pow2, Shl, Shr, Bits, Val, Recip32;
    assert ds == [ds[0]] + [ds[1]];
    ValCons(ds[0], [ds[1]]);
    ValOne(ds[1]);
    if inv.shift == 0 {
      ClzStart(0);
      TimesOneRight(Val(ds));
    } else {
      ShiftLimb(ds[0], inv.shift);
      ShiftLimb(ds[1], inv.shift);
      JoinLimb(ds[1], ds[0], inv.shift);
      MulShift(ds[0], ds[1], Pow2(inv.shift));
    }
  }

  lemma TimesOneRight(x: int)
    ensures Mul(x, Pow2(0)) == x
  {
  }

  /** Shifting a two-limb number right. */
  lemma UnshiftTwo(r1: Limb, r0: Limb, shift: nat)
    requires 1 <= shift < 64
    ensures var x0 := Bits(Or, Shr(r0, shift), Shl(r1, 64 - shift));
            x0 < B && Two(Shr(r1, shift), x0) == Two(r1, r0) / Pow2(shift)
  {
    hide Mul, Pow2, Shl, Shr, Bits, LowBits;
    JoinRight(r1, r0, shift);
    RshiftLimb(r1, shift);
    RshiftLimb(r0, shift);
    var h, hs, k := Shr(r1, shift), Shl(r1, 64 - shift), Shr(r0, shift);
    UnshiftSum(h, hs, k, Pow2(shift), LowBits(r1, shift), LowBits(r0, shift), r1, r0);
    DivIs(Two(r1, r0), h * B + (hs + k), LowBits(r0, shift), Pow2(shift));
  }

  lemma UnshiftSum(h: int, hs: int, k: int, c: int, l: int, m: int, r1: Limb, r0: Limb)
    requires r1 == Mul(h, c) + l && r0 == Mul(k, c) + m && Mul(hs, c) == B * l
    ensures Two(r1, r0) == (h * B + (hs + k)) * c + m
  {
    assert (h * B + (hs + k)) * c == B * (h * c) + hs * c + k * c;
  }

  lemma TwoLimbStart(ts: seq<Limb>, r1: Limb, d1: Limb, d0: Limb, shift: nat)
    requires |ts| >= 2 && shift < 64 && r1 < Pow2(shift) && B <= 2 * d1
    ensures var n := |ts|;
            && 0 <= Two(r1, ts[n - 1]) < Two(d1, d0)
            && Mul(r1, Pow(n)) + Val(ts) == Mul(Two(r1, ts[n - 1]), Pow(n - 1)) + Val(ts[..n - 1])
  {
    hide Val, Mul, Pow, Pow2;
    var n := |ts|;
    TopShiftSmall(shift);
    ValTop(ts);
    PowSucc(n - 1);
    Top2Product(r1, ts[n - 1], Pow(n - 1), Pow(n));
  }

  /** mpn_div_qr_2_preinv, with the remainder written over the dividend as mpn_div_qr_preinv has it. */
  method Div2Preinv(qp: array?<Limb>, np: array<Limb>, nn: nat, inv: Inverse, ghost ds: seq<Limb>)
    returns (ghost qs: seq<Limb>)
    requires 2 <= nn <= np.Length && |ds| == 2 && Inverts2(inv, ds)
    requires qp != null ==> qp != np && nn - 1 <= qp.Length
    modifies np, if qp == null then {} else {qp}
    ensures |qs| == nn - 1
    ensures Val(old(np[..nn])) == Mul(Val(qs), Val(ds)) + Val(np[..2]) && Val(np[..2]) < Val(ds)
    ensures qp != null ==> qp[..] == qs + old(qp[nn - 1..])
  {
    hide Val, Mul, Pow, Pow2, Running, Recip32, Shl, Shr, Bits;
    ghost var n, qtail := Val(np[..nn]), if qp == null then [] else qp[nn - 1..];
    var r1, r0;
    qs, r1, r0 := Loop2(qp, np, nn, inv, ds, qtail);
    ShiftedDivisor2(inv, ds);
    Unshift(n, Val(ds), Val(qs), Two(r1, r0), Pow2(inv.shift), Mul(n, Pow2(inv.shift)), Two(inv.d1, inv.d0));
    if inv.shift > 0 {
      UnshiftTwo(r1, r0, inv.shift);
      r0 := Bits(Or, Shr(r0, inv.shift), Shl(r1, 64 - inv.shift));
      r1 := Shr(r1, inv.shift);
    } else {
      ShiftByZero(0, 0);
    }
    np[1] := r1;
    np[0] := r0;
    assert np[..2] == [r0] + [r1];
    ValCons(r0, [r1]);
    ValOne(r1);
  }

  /** The loop of mpn_div_qr_2_preinv: the shifted dividend by the shifted divisor. */
  method Loop2(qp: array?<Limb>, np: array<Limb>, nn: nat, inv: Inverse, ghost ds: seq<Limb>, ghost qtail: seq<Limb>)
    returns (ghost qs: seq<Limb>, r1: Limb, r0: Limb)
    requires 2 <= nn <= np.Length && |ds| == 2 && Inverts2(inv, ds)
    requires qp != null ==> qp != np && nn - 1 <= qp.Length && qp[nn - 1..] == qtail
    modifies if qp == null then {} else {qp}
    ensures |qs| == nn - 1
    ensures Mul(Val(np[..nn]), Pow2(inv.shift)) == Mul(Val(qs), Two(inv.d1, inv.d0)) + Two(r1, r0)
    ensures 0 <= Two(r1, r0) < Two(inv.d1, inv.d0)
    ensures qp != null ==> qp[..] == qs + qtail
  {
    hide Val, Mul, Pow, Pow2, Running, Recip32, Shl, Shr, Bits, Stored;
    var tp;
    tp, r1 := Normalise(np, nn, inv.shift);
    ghost var cur, total, d := tp[..nn - 1], Mul(Val(np[..nn]), Pow2(inv.shift)), Two(inv.d1, inv.d0);
    r0 := tp[nn - 1];
    assert tp[..nn][..nn - 1] == cur && tp[..nn][nn - 1] == r0;
    TwoLimbStart(tp[..nn], r1, inv.d1, inv.d0, inv.shift);
    RunningStart(d, Two(r1, r0), cur);
    qs := [];
    var i := nn - 1;
    assert cur[..nn - 1] == cur;
    if qp != null { StoredStart(qp[..], nn - 1); }
    while i > 0
      invariant 0 <= i <= nn - 1 && |qs| == nn - 1 - i
      invariant Running(total, qs, d, Two(r1, r0), cur[..i])
      invariant tp[..i] == cur[..i]
      invariant qp != null ==> Stored(qp[..], i, qs, qtail)
    {
      i := i - 1;
      assert tp[i] == cur[i] && cur[..i + 1][..i] == cur[..i];
      RunningTop(total, qs, d, Two(r1, r0), cur[..i + 1]);
      var q, s1, s0 := Udiv32(r1, r0, tp[i], inv.d1, inv.d0, inv.di);
      RunningStep(total, qs, d, Two(r1, r0), cur[..i + 1], q, Two(s1, s0));
      r1, r0 := s1, s0;
      if qp != null {
        StoreQuotient(qp[..], i, q, qs, qtail);
        qp[i] := q;
      }
      qs := [q] + qs;
    }
    assert cur[..0] == [];
    if qp != null { StoredAll(qp[..], qs, qtail); }
    RunningEnd(total, qs, d, Two(r1, r0));
  }

  // ----- more than two limbs

  lemma LeadingBelow(nh: Limb, v: nat, ds: seq<Limb>, shift: nat)
    requires |ds| > 2 && shift < 64 && nh < Pow2(shift) && v < Pow(|ds| - 1) && Normalised(ds[|ds| - 1])
    ensures Mul(nh, Pow(|ds| - 1)) + v < Val(ds)
  {
    hide Val, Pow, Pow2;
    TopShiftSmall(shift);
    ValTop(ds);
    MulLe(nh + 1, ds[|ds| - 1], Pow(|ds| - 1));
  }

  lemma ShiftedIsDivisor(ds: seq<Limb>, ts: seq<Limb>, inv: Inverse)
    requires |ds| > 2 && Inverts2(inv, ds) && |ts| == |ds|
    requires if inv.shift == 0 then ts == ds else IsShifted(ts, ds, 0, inv.shift)
    ensures Divisor(ts, inv.di) && Normalised(ts[|ts| - 1])
  {
    hide Recip32, Shl, Shr, Bits;
    if inv.shift != 0 {
      assert ts[|ts| - 1] == ShiftedLimb(ds, 0 + (|ts| - 1), inv.shift);
      assert ts[|ts| - 2] == ShiftedLimb(ds, 0 + (|ts| - 2), inv.shift);
    }
  }

  /** The shifted copy of the divisor that mpn_div_qr makes; its top limb loses no bits. */
  method ShiftDivisor(dp: array<Limb>, dn: nat, inv: Inverse) returns (tp: array<Limb>)
    requires 2 < dn <= dp.Length && Inverts2(inv, dp[..dn])
    ensures (tp == dp || fresh(tp)) && dn <= tp.Length
    ensures Val(tp[..dn]) == Mul(Val(dp[..dn]), Pow2(inv.shift))
    ensures Divisor(tp[..dn], inv.di) && Normalised(tp[dn - 1])
  {
    hide Val, Mul, Pow, Pow2, Shr, Shl, Bits, Patch, IsShifted, Recip32;
    if inv.shift > 0 {
      tp := new Limb[dn];
      assert dp[0..0 + dn] == dp[..dn];
      var cy := Lshift(tp, 0, dp, 0, dn, inv.shift);
      assert tp[0..0 + dn] == tp[..dn];
      assert cy == 0;
      ShiftByZero(0, dn);
    } else {
      tp := dp;
      ShiftByZero(Val(dp[..dn]), 0);
    }
    ShiftedIsDivisor(dp[..dn], tp[..dn], inv);
    assert tp[..dn][dn - 1] == tp[dn - 1];
  }

  /** The general branch of mpn_div_qr_preinv: shift the dividend in place, divide, shift the remainder back. */
  method DivManyPreinv(qp: array?<Limb>, np: array<Limb>, nn: nat, tp: array<Limb>, dn: nat, inv: Inverse, ghost d: int)
    returns (ghost qs: seq<Limb>)
    requires 2 < dn <= nn <= np.Length && dn <= tp.Length && np != tp
    requires qp != null ==> qp != np && qp != tp && nn - dn + 1 <= qp.Length
    requires inv.shift < 64 && Divisor(tp[..dn], inv.di) && Normalised(tp[dn - 1])
    requires Val(tp[..dn]) == Mul(d, Pow2(inv.shift))
    modifies np, if qp == null then {} else {qp}
    ensures |qs| == nn - dn + 1
    ensures Val(old(np[..nn])) == Mul(Val(qs), d) + Val(np[..dn]) && Val(np[..dn]) < d
    ensures qp != null ==> qp[..] == qs + old(qp[nn - dn + 1..])
  {
    hide Val, Mul, Pow, Pow2, Shr, Shl, Bits, Patch, IsShifted, Divisor, LowBits;
    ghost var n := Val(np[..nn]);
    var nh := 0;
    assert np[0..0 + nn] == np[..nn];
    if inv.shift > 0 {
      nh := Lshift(np, 0, np, 0, nn, inv.shift);
    } else {
      ShiftByZero(n, nn);
    }
    assert np[0..0 + nn] == np[..nn] && tp[..dn][dn - 1] == tp[dn - 1];
    LeadingBelow(nh, Val(np[nn - dn + 1..nn]), tp[..dn], inv.shift);
    qs := DivQrPi1(qp, np, nn, nh, tp, dn, inv.di);
    ghost var r := Val(np[..dn]);
    Unshift(n, d, Val(qs), r, Pow2(inv.shift), Mul(n, Pow2(inv.shift)), Val(tp[..dn]));
    if inv.shift > 0 {
      assert np[0..0 + dn] == np[..dn];
      var low := Rshift(np, 0, np, 0, dn, inv.shift);
      assert np[0..0 + dn] == np[..dn];
      ExactShift(r, Val(np[..dn]), Pow2(inv.shift));
    } else {
      ShiftByZero(r, 0);
    }
  }

  lemma ExactShift(r: int, x: int, c: int)
    requires c > 0 && Mul(x, c) <= r < Mul(x, c) + c
    ensures r / c == x
  {
    DivIs(r, x, r - x * c, c);
  }

  /** mpn_div_qr: np[..nn] divided by dp[..dn]; the remainder replaces np[..dn]. */
  method DivQr(qp: array?<Limb>, np: array<Limb>, nn: nat, dp: array<Limb>, dn: nat) returns (ghost qs: seq<Limb>)
    requires 1 <= dn <= nn <= np.Length && dn <= dp.Length && np != dp && dp[dn - 1] > 0
    requires qp != null ==> qp != np && qp != dp && nn - dn + 1 <= qp.Length
    modifies np, if qp == null then {} else {qp}
    ensures |qs| == nn - dn + 1
    ensures Val(old(np[..nn])) == Mul(Val(qs), Val(dp[..dn])) + Val(np[..dn])
    ensures Val(np[..dn]) < Val(dp[..dn])
    ensures qp != null ==> qp[..] == qs + old(qp[nn - dn + 1..])
  {
    hide Val, Mul, Pow, Pow2, Inverts1, Inverts2, Divisor;
    if dn == 1 {
      qs := DivOneLimb(qp, np, nn, dp);
    } else if dn == 2 {
      qs := DivTwoLimbs(qp, np, nn, dp);
    } else {
      qs := DivManyLimbs(qp, np, nn, dp, dn);
    }
  }

  /** mpn_div_qr by a single limb. */
  method DivOneLimb(qp: array?<Limb>, np: array<Limb>, nn: nat, dp: array<Limb>) returns (ghost qs: seq<Limb>)
    requires 1 <= nn <= np.Length && 1 <= dp.Length && np != dp && dp[0] > 0
    requires qp != null ==> qp != np && qp != dp && nn <= qp.Length
    modifies np, if qp == null then {} else {qp}
    ensures |qs| == nn
    ensures Val(old(np[..nn])) == Mul(Val(qs), Val(dp[..1])) + Val(np[..1])
    ensures Val(np[..1]) < Val(dp[..1])
    ensures qp != null ==> qp[..] == qs + old(qp[nn..])
  {
    hide Val, Mul, Pow, Pow2, Inverts1, Inverts2, Divisor;
    var inv := Invert1(dp[0]);
    assert dp[..1] == [dp[0]];
    ValOne(dp[0]);
    var r;
    r, qs := Div1Preinv(qp, np, nn, inv, dp[0]);
    np[0] := r;
    assert np[..1] == [r];
    ValOne(r);
  }

  /** mpn_div_qr by two limbs. */
  method DivTwoLimbs(qp: array?<Limb>, np: array<Limb>, nn: nat, dp: array<Limb>) returns (ghost qs: seq<Limb>)
    requires 2 <= nn <= np.Length && 2 <= dp.Length && np != dp && dp[1] > 0
    requires qp != null ==> qp != np && qp != dp && nn - 1 <= qp.Length
    modifies np, if qp == null then {} else {qp}
    ensures |qs| == nn - 1
    ensures Val(old(np[..nn])) == Mul(Val(qs), Val(dp[..2])) + Val(np[..2])
    ensures Val(np[..2]) < Val(dp[..2])
    ensures qp != null ==> qp[..] == qs + old(qp[nn - 1..])
  {
    hide Val, Mul, Pow, Pow2, Inverts1, Inverts2, Divisor;
    var inv := InvertMany(dp, 2);
    qs := Div2Preinv(qp, np, nn, inv, dp[..2]);
  }

  /** mpn_div_qr by more than two limbs. */
  method DivManyLimbs(qp: array?<Limb>, np: array<Limb>, nn: nat, dp: array<Limb>, dn: nat)
    returns (ghost qs: seq<Limb>)
    requires 2 < dn <= nn <= np.Length && dn <= dp.Length && np != dp && dp[dn - 1] > 0
    requires qp != null ==> qp != np && qp != dp && nn - dn + 1 <= qp.Length
    modifies np, if qp == null then {} else {qp}
    ensures |qs| == nn - dn + 1
    ensures Val(old(np[..nn])) == Mul(Val(qs), Val(dp[..dn])) + Val(np[..dn])
    ensures Val(np[..dn]) < Val(dp[..dn])
    ensures qp != null ==> qp[..] == qs + old(qp[nn - dn + 1..])
  {
    hide Val, Mul, Pow, Pow2, Inverts1, Inverts2, Divisor;
    var inv := InvertMany(dp, dn);
    InverseShift(inv, dp[..dn]);
    var tp := ShiftDivisor(dp, dn, inv);
    qs := DivManyPreinv(qp, np, nn, tp, dn, inv, Val(dp[..dn]));
  }

  lemma InverseShift(inv: Inverse, ds: seq<Limb>)
    requires Inverts2(inv, ds)
    ensures inv.shift < 64
  {
  }
}
