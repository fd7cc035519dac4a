/** mpn_div_qr_pi1 and the single-limb and double-limb divisions, in place on limb arrays. */
module MpnDivision {
  import opened Arith
  import opened Limbs
  import opened Reciprocal
  import opened Mpn
  import opened DivisionLemmas

  /** The value of two limbs. */
  ghost function Two(h: Limb, l: Limb): int {
    h * B + l
  }

  lemma ValTop(s: seq<Limb>)
    requires |s| >= 1
    ensures Val(s) == Mul(s[|s| - 1], Pow(|s| - 1)) + Val(s[..|s| - 1])
  {
  }

  lemma PowSucc(n: nat)
    ensures Pow(n + 1) == B * Pow(n)
  {
  }

  /** A sequence of limbs by its two top limbs and the rest. */
  lemma ValTop2(s: seq<Limb>)
    requires |s| >= 2
    ensures Val(s) == Mul(Two(s[|s| - 1], s[|s| - 2]), Pow(|s| - 2)) + Val(s[..|s| - 2])
  {
    hide Val, Mul, Pow;
    var n := |s|;
    ValTop(s);
    ValTop(s[..n - 1]);
    assert s[..n - 1][..n - 2] == s[..n - 2];
    PowSucc(n - 2);
    Top2Product(s[n - 1], s[n - 2], Pow(n - 2), Pow(n - 1));
  }

  lemma Top2Product(x: Limb, y: Limb, p: int, p1: int)
    requires p1 == B * p
    ensures Mul(Two(x, y), p) == Mul(x, p1) + Mul(y, p)
  {
    assert (x * B + y) * p == x * (B * p) + y * p;
  }

  /** Three limbs on top. */
  lemma Top3Product(x: int, y: int, z: int, p: int, p2: int)
    requires p2 == B * (B * p)
    ensures Mul(x * BB + y * B + z, p) == Mul(x, p2) + Mul(y * B + z, p)
  {
    assert (x * BB + (y * B + z)) * p == x * (B * (B * p)) + (y * B + z) * p;
  }

  lemma SubtractAlgebra(p: int, p1: int, p2: int, r2: int, cy: int, b: int, m1: int, m0: int, m2: int, l: int,
                        l1: int, qdl: int, v: int)
    requires p1 == B * p && p2 == B * p1 && m2 == m1 * B + m0 == r2 - cy + b * BB
    requires l1 - Mul(cy, p) == l - qdl
    requires v == Mul(m0, p) + l1
    ensures Mul(m1, p1) + v == Mul(r2, p) + l - qdl + Mul(b, p2)
  {
    assert m2 * p == m1 * p1 + m0 * p;
    assert m2 * p == r2 * p - cy * p + b * p2;
  }

  /** Subtract the borrow cy from a two-limb remainder; b is the borrow out. */
  method BorrowHigh(r1: Limb, r0: Limb, cy: Limb) returns (m1: Limb, m0: Limb, b: Limb)
    ensures Two(m1, m0) == Two(r1, r0) - cy + b * BB && b <= 1
  {
    hide Low;
    var cy1 := if r0 < cy then 1 else 0;
    LowIs(r0 - cy, if r0 < cy then -1 else 0);
    m0 := Low(r0 - cy);
    b := if r1 < cy1 then 1 else 0;
    LowIs(r1 - cy1, if r1 < cy1 then -1 else 0);
    m1 := Low(r1 - cy1);
  }

  ghost predicate Normalised(d: int) {
    B <= 2 * d
  }

  lemma StorePatch(s: seq<Limb>, at: nat, r: seq<Limb>, x: Limb)
    requires at + |r| < |s|
    ensures Patch(s, at, r)[at + |r| := x] == Patch(s, at, r + [x])
    ensures Patch(s, at, r + [x])[at..at + |r| + 1] == r + [x]
  {
    PatchSnoc(s, at, r, x);
    PatchSlice(s, at, r + [x]);
  }

  /** The divisor of one step and what the step is entitled to assume about it. */
  ghost predicate Divisor(ds: seq<Limb>, dinv: Limb) {
    |ds| > 2 && Normalised(ds[|ds| - 1]) && Recip32(ds[|ds| - 1], ds[|ds| - 2], dinv)
  }

  /**
   The quotient limb from the three top limbs, and the multiple of the divisor
   subtracted; b says that the subtraction went below zero.
   */
  method SubtractMultiple(np: array<Limb>, i: nat, n1: Limb, dp: array<Limb>, dn: nat, dinv: Limb)
    returns (q: Limb, m1: Limb, b: Limb, ghost t: int)
    requires dn > 2 && dn <= dp.Length && i + dn <= np.Length && np != dp
    requires Divisor(dp[..dn], dinv)
    requires Two(n1, np[i + dn - 1]) < Two(dp[dn - 1], dp[dn - 2])
    modifies np
    ensures np[..] == Patch(old(np[..]), i, np[i..i + dn - 1])
    ensures b <= 1
    ensures Mul(n1, Pow(dn)) + Val(old(np[i..i + dn])) == Mul(q, Val(dp[..dn])) + t
    ensures 0 <= t + Val(dp[..dn]) && t < Val(dp[..dn])
    ensures Mul(m1, Pow(dn - 1)) + Val(np[i..i + dn - 1]) == t + Mul(b, Pow(dn))
  {
    hide Val, Mul, Pow, Low, Recip32, Patch;
    ghost var ds, ws, ns := dp[..dn], np[i..i + dn], np[..];
    var d1, d0 := dp[dn - 1], dp[dn - 2];
    var n0, n2 := np[i + dn - 1], np[i + dn - 2];
    assert d1 == ds[dn - 1] && d0 == ds[dn - 2] && n0 == ws[dn - 1] && n2 == ws[dn - 2];
    var r1, r0;
    q, r1, r0 := Udiv32(n1, n0, n2, d1, d0, dinv);
    assert ws[..dn - 2] == np[i..i + dn - 2] && ds[..dn - 2] == dp[0..0 + (dn - 2)];
    var cy := SubMul1(np, i, dp, 0, dn - 2, q);
    ghost var low := np[i..i + dn - 2];
    var m0;
    m1, m0, b := BorrowHigh(r1, r0, cy);
    np[i + dn - 2] := m0;
    StorePatch(ns, i, low, m0);
    t := StepIdentity(ws, ds, n1, q, Two(r1, r0), cy, b, m1, m0, low);
  }

  lemma StepIdentity(ws: seq<Limb>, ds: seq<Limb>, n1: Limb, q: Limb, r2: int, cy: Limb, b: int, m1: Limb, m0: Limb,
                     low: seq<Limb>)
    returns (t: int)
    requires |ws| == |ds| > 2 && |low| == |ds| - 2 && Normalised(ds[|ds| - 1])
    requires n1 * BB + Two(ws[|ws| - 1], ws[|ws| - 2]) == q * Two(ds[|ds| - 1], ds[|ds| - 2]) + r2
    requires 0 <= r2 < Two(ds[|ds| - 1], ds[|ds| - 2])
    requires Val(low) - Mul(cy, Pow(|ds| - 2)) == Val(ws[..|ds| - 2]) - Mul(Val(ds[..|ds| - 2]), q)
    requires Two(m1, m0) == r2 - cy + b * BB
    ensures Mul(n1, Pow(|ds|)) + Val(ws) == Mul(q, Val(ds)) + t
    ensures 0 <= t + Val(ds) && t < Val(ds)
    ensures Mul(m1, Pow(|ds| - 1)) + Val(low + [m0]) == t + Mul(b, Pow(|ds|))
  {
    hide Val, Mul, Pow;
    var dn := |ds|;
    var p := Pow(dn - 2);
    PowSucc(dn - 2);
    PowSucc(dn - 1);
    ValTop2(ds);
    ValTop2(ws);
    var d2 := Two(ds[dn - 1], ds[dn - 2]);
    var n3 := n1 * BB + Two(ws[dn - 1], ws[dn - 2]);
    var dl, l := Val(ds[..dn - 2]), Val(ws[..dn - 2]);
    Product(q, d2);
    Commute(dl, q);
    Top3Product(n1, ws[dn - 1], ws[dn - 2], p, Pow(dn));
    var n := Mul(n1, Pow(dn)) + Val(ws);
    QuotientLimb(p, d2, dl, r2, l, q, n3, n, Val(ds));
    t := n - Mul(q, Val(ds));
    ValPush(low, m0);
    SubtractAlgebra(p, Pow(dn - 1), Pow(dn), r2, cy, b, m1, m0, Two(m1, m0), l, Val(low), Mul(q, dl), Val(low + [m0]));
  }

  lemma Commute(x: int, y: int)
    ensures Mul(x, y) == Mul(y, x)
  {
  }

  /** The add-back: one divisor too many was subtracted. */
  method AddBack(np: array<Limb>, i: nat, m1: Limb, dp: array<Limb>, dn: nat, ghost t: int) returns (m: Limb)
    requires dn > 2 && dn <= dp.Length && i + dn <= np.Length && np != dp
    requires 0 <= t + Val(dp[..dn]) && t < 0
    requires Mul(m1, Pow(dn - 1)) + Val(np[i..i + dn - 1]) == t + Pow(dn)
    modifies np
    ensures np[..] == Patch(old(np[..]), i, np[i..i + dn - 1])
    ensures Mul(m, Pow(dn - 1)) + Val(np[i..i + dn - 1]) == t + Val(dp[..dn])
  {
    hide Val, Mul, Pow, Low, Patch;
    ghost var ds := dp[..dn];
    assert dp[0..0 + (dn - 1)] == ds[..dn - 1] && dp[dn - 1] == ds[dn - 1];
    var c := AddN(np, i, np, i, dp, 0, dn - 1);
    var d1: int := dp[dn - 1];
    m := Low(m1 + Low(d1 + c));
    AddBackValue(ds, Val(np[i..i + dn - 1]), m1, c, t);
  }

  lemma AddBackValue(ds: seq<Limb>, v: nat, m1: Limb, c: Limb, t: int)
    requires |ds| > 2 && 0 <= t + Val(ds) && t < 0 && v < Pow(|ds| - 1)
    requires Mul(m1, Pow(|ds| - 1)) + v + Mul(c, Pow(|ds| - 1)) - Val(ds[..|ds| - 1]) == t + Pow(|ds|)
    ensures var d1: int := ds[|ds| - 1]; Mul(Low(m1 + Low(d1 + c)), Pow(|ds| - 1)) + v == t + Val(ds)
  {
    hide Val, Mul, Pow, Low;
    var dn := |ds|;
    var p := Pow(dn - 1);
    var d1: int := ds[dn - 1];
    var x: int := m1 + d1 + c;
    ValTop(ds);
    PowSucc(dn - 1);
    LowAdd(d1 + c, m1);
    var k := LowQuotient(x);
    TopLimbValue(m1, c, d1, Low(x), k, p);
    TopLimbRange(Low(x), v, p);
    WrapIs(Mul(Low(x), p) + v, t + Val(ds), k + 1, B * p);
  }

  lemma TopLimbValue(m1: int, c: int, d1: int, low: int, k: int, p: int)
    requires low == m1 + d1 + c + k * B
    ensures Mul(low, p) == Mul(m1, p) + Mul(d1, p) + Mul(c, p) + k * (B * p)
  {
    assert low * p == m1 * p + d1 * p + c * p + k * (B * p);
  }

  lemma TopLimbRange(x: Limb, v: int, p: int)
    requires 0 <= v < p
    ensures 0 <= Mul(x, p) + v < B * p
  {
    MulPos(x, p);
    MulLe(x, B - 1, p);
  }

  /** The step when the two top limbs of dividend and divisor agree. */
  method StepMax(np: array<Limb>, i: nat, n1: Limb, dp: array<Limb>, dn: nat) returns (m: Limb)
    requires dn > 2 && dn <= dp.Length && i + dn <= np.Length && np != dp
    requires Normalised(dp[dn - 1]) && n1 == dp[dn - 1] && np[i + dn - 1] == dp[dn - 2]
    requires Mul(n1, Pow(dn - 1)) + Val(np[i + 1..i + dn]) < Val(dp[..dn])
    modifies np
    ensures np[..] == Patch(old(np[..]), i, np[i..i + dn])
    ensures Mul(m, Pow(dn - 1)) + Val(np[i..i + dn - 1])
         == Mul(n1, Pow(dn)) + Val(old(np[i..i + dn])) - Mul(B - 1, Val(dp[..dn]))
    ensures Mul(m, Pow(dn - 1)) + Val(np[i..i + dn - 1]) < Val(dp[..dn])
  {
    hide Val, Mul, Pow, Patch;
    ghost var ds, ws := dp[..dn], np[i..i + dn];
    assert np[i + 1..i + dn] == ws[1..] && dp[0..0 + dn] == ds;
    var cl := SubMul1(np, i, dp, 0, dn, B - 1);
    m := np[i + dn - 1];
    ghost var rs := np[i..i + dn];
    assert rs[..dn - 1] == np[i..i + dn - 1] && rs[dn - 1] == m;
    MaxIdentity(ws, ds, n1, rs, cl);
  }

  lemma MaxIdentity(ws: seq<Limb>, ds: seq<Limb>, n1: Limb, rs: seq<Limb>, cl: Limb)
    requires |ws| == |ds| == |rs| > 2 && Normalised(ds[|ds| - 1])
    requires n1 == ds[|ds| - 1] && ws[|ws| - 1] == ds[|ds| - 2]
    requires Mul(n1, Pow(|ds| - 1)) + Val(ws[1..]) < Val(ds)
    requires Val(rs) - Mul(cl, Pow(|ds|)) == Val(ws) - Mul(Val(ds), B - 1)
    ensures Mul(rs[|ds| - 1], Pow(|ds| - 1)) + Val(rs[..|ds| - 1]) == Mul(n1, Pow(|ds|)) + Val(ws)
            - Mul(B - 1, Val(ds)) < Val(ds)
  {
    hide Val, Mul, Pow, Two;
    var dn := |ds|;
    var p := Pow(dn - 2);
    PowSucc(dn - 2);
    PowSucc(dn - 1);
    ValTop2(ds);
    ValTop(ws);
    ValTop(rs);
    assert ws == [ws[0]] + ws[1..];
    ValCons(ws[0], ws[1..]);
    Commute(Val(ds), B - 1);
    var n, d2 := Mul(n1, Pow(dn)) + Val(ws), Two(ds[dn - 1], ds[dn - 2]);
    Top2Product(n1, ds[dn - 2], Pow(dn - 1), Pow(dn));
    ScaleTop(n1, Pow(dn - 1), Pow(dn));
    TwoAtLeast(ds[dn - 1], ds[dn - 2]);
    MulNonneg(n1, Pow(dn - 1));
    QuotientMax(p, Pow(dn - 1), d2, Val(ds[..dn - 2]), Mul(n1, Pow(dn - 1)) + Val(ws[1..]), Val(ws[..dn - 1]), n,
                Val(ds), ws[0]);
    SameResidue(Val(rs), n - Mul(B - 1, Val(ds)), cl, n1, Pow(dn));
  }

  lemma TwoAtLeast(h: Limb, l: Limb)
    requires Normalised(h)
    ensures B <= Two(h, l)
  {
  }

  lemma ScaleTop(n1: int, p: int, p1: int)
    requires p1 == B * p
    ensures Mul(n1, p1) == B * Mul(n1, p)
  {
  }

  lemma SameResidue(x: int, y: int, i: int, j: int, m: int)
    requires 0 <= x < m && 0 <= y < m && x - Mul(i, m) == y - Mul(j, m)
    ensures x == y
  {
    DivUnique(x, j, y, i, m);
  }

  lemma TopBound(ts: seq<Limb>, ds: seq<Limb>, n1: Limb)
    requires |ds| > 2 && |ts| == |ds| - 1
    requires Mul(n1, Pow(|ds| - 1)) + Val(ts) < Val(ds)
    ensures Two(n1, ts[|ts| - 1]) <= Two(ds[|ds| - 1], ds[|ds| - 2])
  {
    hide Val, Mul, Pow, Two;
    var dn := |ds|;
    ValTop2(ds);
    ValTop(ts);
    PowSucc(dn - 2);
    Top2Product(n1, ts[dn - 2], Pow(dn - 2), Pow(dn - 1));
    TopLimbs(Pow(dn - 2), Two(n1, ts[dn - 2]), Two(ds[dn - 1], ds[dn - 2]), Val(ts[..dn - 2]), Val(ds[..dn - 2]));
  }

  lemma PatchLonger(s: seq<Limb>, at: nat, r: seq<Limb>, now: seq<Limb>)
    requires at + |r| < |s| && now == Patch(s, at, r)
    ensures now == Patch(s, at, now[at..at + |r| + 1])
  {
  }

  lemma PatchTwice(s: seq<Limb>, at: nat, r: seq<Limb>, r1: seq<Limb>)
    requires |r| == |r1| && at + |r| <= |s|
    ensures Patch(Patch(s, at, r), at, r1) == Patch(s, at, r1)
  {
  }

  /** One iteration of mpn_div_qr_pi1: quotient limb q, and the remainder (m, np[i..i + dn - 1]). */
  method StepPi1(np: array<Limb>, i: nat, n1: Limb, dp: array<Limb>, dn: nat, dinv: Limb) returns (q: Limb, m: Limb)
    requires dn > 2 && dn <= dp.Length && i + dn <= np.Length && np != dp
    requires Divisor(dp[..dn], dinv)
    requires Mul(n1, Pow(dn - 1)) + Val(np[i + 1..i + dn]) < Val(dp[..dn])
    modifies np
    ensures np[..] == Patch(old(np[..]), i, np[i..i + dn])
    ensures Mul(n1, Pow(dn)) + Val(old(np[i..i + dn]))
         == Mul(q, Val(dp[..dn])) + (Mul(m, Pow(dn - 1)) + Val(np[i..i + dn - 1]))
    ensures Mul(m, Pow(dn - 1)) + Val(np[i..i + dn - 1]) < Val(dp[..dn])
  {
    hide Val, Mul, Pow, Low, Patch;
    ghost var ds, ns := dp[..dn], np[..];
    var n0 := np[i + dn - 1];
    ghost var ts := np[i + 1..i + dn];
    assert ts[dn - 2] == n0 && ds[dn - 1] == dp[dn - 1] && ds[dn - 2] == dp[dn - 2];
    TopBound(ts, ds, n1);
    if n1 == dp[dn - 1] && n0 == dp[dn - 2] {
      q := B - 1;
      m := StepMax(np, i, n1, dp, dn);
    } else {
      TwoDistinct(n1, n0, dp[dn - 1], dp[dn - 2]);
      var b;
      ghost var t;
      q, m, b, t := SubtractMultiple(np, i, n1, dp, dn, dinv);
      ghost var r := np[i..i + dn - 1];
      TimesFlag(b, Pow(dn));
      if b != 0 {
        BorrowMeansNegative(m, Val(r), t, dn);
        m := AddBack(np, i, m, dp, dn, t);
        PatchTwice(ns, i, r, np[i..i + dn - 1]);
        MulNonneg(n1, Pow(dn));
        OneLess(q, Val(ds), t, Mul(n1, Pow(dn)) + Val(ns[i..i + dn]));
        q := q - 1;
      }
      PatchLonger(ns, i, np[i..i + dn - 1], np[..]);
    }
  }

  lemma TwoDistinct(n1: Limb, n0: Limb, d1: Limb, d0: Limb)
    requires Two(n1, n0) <= Two(d1, d0) && !(n1 == d1 && n0 == d0)
    ensures Two(n1, n0) < Two(d1, d0)
  {
  }

  lemma TimesFlag(b: Limb, p: int)
    requires b <= 1
    ensures Mul(b, p) == if b == 0 then 0 else p
  {
  }

  lemma BorrowMeansNegative(m: Limb, v: nat, t: int, dn: nat)
    requires dn > 2 && v < Pow(dn - 1) && Mul(m, Pow(dn - 1)) + v == t + Pow(dn)
    ensures t < 0
  {
    hide Mul, Pow;
    PowSucc(dn - 1);
    TopLimbRange(m, v, Pow(dn - 1));
  }

  lemma OneLess(q: Limb, d: int, t: int, n: int)
    requires n == Mul(q, d) + t && t < 0 && 0 <= n && 0 <= d
    ensures q >= 1 && n == Mul(q - 1, d) + (t + d)
  {
  }

  /**
   The invariant of the quotient loop: the limbs qs found so far account for all of
   the dividend but (n1, cur), whose leading part is below the divisor.
   */
  ghost predicate Remaining(total: int, qs: seq<Limb>, ds: seq<Limb>, n1: Limb, cur: seq<Limb>) {
    && 2 < |ds| <= |cur| + 1
    && total == Mul(Mul(Val(qs), Pow(|cur| - |ds| + 1)), Val(ds)) + (Mul(n1, Pow(|cur|)) + Val(cur))
    && Mul(n1, Pow(|ds| - 1)) + Val(cur[|cur| - |ds| + 1..]) < Val(ds)
  }

  /** The loop body of mpn_div_qr_pi1: one more quotient limb. */
  method Iterate(np: array<Limb>, nn: nat, i: nat, n1: Limb, dp: array<Limb>, dn: nat, dinv: Limb,
                 ghost qs: seq<Limb>, ghost total: int)
    returns (q: Limb, m: Limb)
    requires 2 < dn && dn <= dp.Length && dn + i <= nn <= np.Length && np != dp && Divisor(dp[..dn], dinv)
    requires Remaining(total, qs, dp[..dn], n1, np[..dn + i])
    modifies np
    ensures Remaining(total, [q] + qs, dp[..dn], m, np[..dn + i - 1])
    ensures np[nn..] == old(np[nn..])
  {
    hide Val, Mul, Pow, Patch, Divisor;
    ghost var before, ns := np[..dn + i], np[..];
    assert np[i + 1..i + dn] == before[i + 1..];
    q, m := StepPi1(np, i, n1, dp, dn, dinv);
    PatchParts(ns, i, np[i..i + dn]);
    ghost var after := np[..dn + i - 1];
    assert np[nn..] == ns[i + dn..][nn - i - dn..];
    assert after[..i] == before[..i] && before[i..] == ns[i..i + dn] && after[i..] == np[i..i + dn - 1];
    LoopStep(before, after, i, dn, n1, m, q, qs, dp[..dn], total);
  }

  lemma RemainingStart(ds: seq<Limb>, n1: Limb, cur: seq<Limb>)
    requires 2 < |ds| <= |cur|
    requires Mul(n1, Pow(|ds| - 1)) + Val(cur[|cur| - |ds| + 1..]) < Val(ds)
    ensures Remaining(Mul(n1, Pow(|cur|)) + Val(cur), [], ds, n1, cur)
  {
    EmptyQuotient(Val(ds), |cur| - |ds| + 1);
  }

  lemma RemainingEnd(total: int, qs: seq<Limb>, ds: seq<Limb>, n1: Limb, cur: seq<Limb>)
    requires Remaining(total, qs, ds, n1, cur) && |cur| == |ds| - 1
    ensures total == Mul(Val(qs), Val(ds)) + Val(cur + [n1]) && Val(cur + [n1]) < Val(ds)
  {
    hide Val, Mul, Pow;
    assert cur[0..] == cur;
    ValPush(cur, n1);
    TimesPow0(Val(qs));
  }

  /**
   mpn_div_qr_pi1: schoolbook division of (n1, np[..nn]) by the normalised dp[..dn].
   The remainder replaces the low dn limbs of np; the quotient qs goes to qp unless qp is null.
   */
  method DivQrPi1(qp: array?<Limb>, np: array<Limb>, nn: nat, n1_: Limb, dp: array<Limb>, dn: nat, dinv: Limb)
    returns (ghost qs: seq<Limb>)
    requires 2 < dn <= nn && dn <= dp.Length && nn <= np.Length && np != dp
    requires qp != null ==> qp != np && qp != dp && nn - dn + 1 <= qp.Length
    requires Divisor(dp[..dn], dinv)
    requires Mul(n1_, Pow(dn - 1)) + Val(np[nn - dn + 1..nn]) < Val(dp[..dn])
    modifies np, if qp == null then {} else {qp}
    ensures |qs| == nn - dn + 1
    ensures Mul(n1_, Pow(nn)) + Val(old(np[..nn])) == Mul(Val(qs), Val(dp[..dn])) + Val(np[..dn])
    ensures Val(np[..dn]) < Val(dp[..dn])
    ensures np[nn..] == old(np[nn..])
    ensures qp != null ==> qp[..] == qs + old(qp[nn - dn + 1..])
  {
    hide Val, Mul, Pow, Divisor, Remaining, Stored;
    ghost var ds, total := dp[..dn], Mul(n1_, Pow(nn)) + Val(np[..nn]);
    ghost var tail, qtail := np[nn..], if qp == null then [] else qp[nn - dn + 1..];
    var n1 := n1_;
    qs := [];
    assert np[..nn][nn - dn + 1..] == np[nn - dn + 1..nn];
    RemainingStart(ds, n1, np[..nn]);
    var i := nn - dn;
    assert dn + i == nn;
    if qp != null { StoredStart(qp[..], i + 1); }
    while i >= 0
      invariant -1 <= i <= nn - dn && |qs| == nn - dn - i
      invariant Remaining(total, qs, ds, n1, np[..dn + i])
      invariant np[nn..] == tail
      invariant qp != null ==> Stored(qp[..], i + 1, qs, qtail)
    {
      var q, m := Iterate(np, nn, i, n1, dp, dn, dinv, qs, total);
      if qp != null {
        StoreQuotient(qp[..], i, q, qs, qtail);
        qp[i] := q;
      }
      n1, qs := m, [q] + qs;
      i := i - 1;
    }
    if qp != null { StoredAll(qp[..], qs, qtail); }
    ghost var rest := np[..dn - 1];
    np[dn - 1] := n1;
    assert np[..dn] == rest + [n1];
    RemainingEnd(total, qs, ds, n1, rest);
  }

  /** From limb i on, now holds the quotient limbs qs and then tail. */
  ghost predicate Stored(now: seq<Limb>, i: int, qs: seq<Limb>, tail: seq<Limb>) {
    0 <= i <= |now| && now[i..] == qs + tail
  }

  lemma StoredStart(now: seq<Limb>, i: nat)
    requires i <= |now|
    ensures Stored(now, i, [], now[i..])
  {
  }

  lemma StoreQuotient(now: seq<Limb>, i: nat, q: Limb, qs: seq<Limb>, tail: seq<Limb>)
    requires i < |now| && Stored(now, i + 1, qs, tail)
    ensures Stored(now[i := q], i, [q] + qs, tail)
  {
    assert now[i := q][i..] == [q] + now[i + 1..];
  }

  lemma StoredAll(now: seq<Limb>, qs: seq<Limb>, tail: seq<Limb>)
    requires Stored(now, 0, qs, tail)
    ensures now == qs + tail
  {
  }

  lemma PatchParts(s: seq<Limb>, at: nat, r: seq<Limb>)
    requires at + |r| <= |s|
    ensures Patch(s, at, r)[..at] == s[..at] && Patch(s, at, r)[at + |r|..] == s[at + |r|..]
  {
  }

  lemma EmptyQuotient(d: int, n: nat)
    ensures Mul(Mul(Val([]), Pow(n)), d) == 0
  {
  }

  lemma TimesPow0(x: int)
    ensures Mul(x, Pow(0)) == x
  {
  }

  lemma ValConcat(s: seq<Limb>, t: seq<Limb>)
    ensures Val(s + t) == Val(s) + Mul(Val(t), Pow(|s|))
  {
    hide Val, Pow;
    ValAppend(s, t);
  }

  lemma PowSplit(m: nat, n: nat)
    ensures Pow(m + n) == Mul(Pow(m), Pow(n))
  {
    hide Pow;
    PowAdd(m, n);
  }

  /** The invariant of the quotient loop, from limb i + 1 to limb i. */
  lemma LoopStep(before: seq<Limb>, after: seq<Limb>, i: nat, dn: nat, n1: Limb, m: Limb, q: Limb, qs: seq<Limb>,
                 ds: seq<Limb>, total: int)
    requires 2 < dn && |before| == dn + i && |after| == dn + i - 1 && after[..i] == before[..i]
    requires total == Mul(Mul(Val(qs), Pow(i + 1)), Val(ds)) + (Mul(n1, Pow(dn + i)) + Val(before))
    requires Mul(n1, Pow(dn)) + Val(before[i..]) == Mul(q, Val(ds)) + (Mul(m, Pow(dn - 1)) + Val(after[i..]))
    ensures total == Mul(Mul(Val([q] + qs), Pow(i)), Val(ds)) + (Mul(m, Pow(dn + i - 1)) + Val(after))
  {
    hide Val, Mul, Pow;
    assert before == before[..i] + before[i..] && after == before[..i] + after[i..];
    ValConcat(before[..i], before[i..]);
    ValConcat(before[..i], after[i..]);
    PowSplit(dn, i);
    PowSplit(dn - 1, i);
    PowSucc(i);
    ValCons(q, qs);
    assert dn - 1 + i == dn + i - 1;
    LoopAlgebra(Pow(i), Pow(i + 1), Pow(dn), Pow(dn - 1), Val(qs), Val([q] + qs), q, Val(ds), n1, m,
                Val(before[i..]), Val(after[i..]));
  }

  lemma LoopAlgebra(p: int, p1: int, pd: int, pd1: int, v: int, v1: int, q: int, d: int, n1: int, m: int, vw: int,
                    vr: int)
    requires p1 == B * p && v1 == q + B * v
    requires Mul(n1, pd) + vw == Mul(q, d) + (Mul(m, pd1) + vr)
    ensures Mul(Mul(v, p1), d) + Mul(n1, Mul(pd, p)) + Mul(vw, p)
         == Mul(Mul(v1, p), d) + Mul(m, Mul(pd1, p)) + Mul(vr, p)
  {
    assert (n1 * pd + vw) * p == (q * d + (m * pd1 + vr)) * p;
    assert (v1 * p) * d == (q * d) * p + (v * p1) * d;
    Assoc(n1, pd, p);
    Assoc(m, pd1, p);
  }
}
