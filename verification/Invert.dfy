/** mpn_invert_3by2: the reciprocal itself, computed on half-limbs. */
module Invert {
  import opened Arith
  import opened Limbs
  import opened PowersOfTwo
  import opened Bitwise
  import opened ReciprocalLemmas
  import opened Reciprocal

  /** Candidate quotient qh of n == H*~u1 + H-1 by u1, from the high half of u1 alone. */
  lemma HighHalf(u1: int, uh: int, ul: int, nu: int, qh: int, m: int)
    requires u1 == uh * H + ul && 0 <= ul < H && H <= 2 * uh && uh < H
    requires nu == B - 1 - u1
    requires nu == Mul(qh, uh) + m && 0 <= m < uh
    ensures H * nu + H - 1 == Mul(qh, u1) + (m * H + H - 1 - Mul(qh, ul))
    ensures 0 <= qh < H && 0 <= Mul(qh, ul) < B && 0 <= m * H + H - 1 < u1
    ensures Mul(qh, ul) < 2 * u1
  {
    if qh < 0 {
      MulLe(qh, -1, uh);
    } else if qh >= H {
      MulLe(H, qh, uh);
    }
    MulPos(qh, ul);
    MulLe(qh, H - 1, ul);
    assert qh * u1 == (qh * uh) * H + qh * ul;
  }

  lemma CountsDown(n: int, qh: int, u1: int, t: int)
    requires n == Mul(qh, u1) + t && 0 <= n && t < 0 < u1
    ensures qh >= 1 && n == Mul(qh - 1, u1) + (t + u1)
  {
    if qh <= 0 {
      MulLe(qh, 0, u1);
    }
  }

  lemma ShiftedHalf(m: int)
    requires 0 <= m < H
    ensures Bits(Or, Low(m * H), H - 1) == m * H + H - 1
  {
    hide Bits, Low;
    LowIs(m * H, 0);
    Pow2Of64();
    OrDisjoint(m, H - 1, 32);
  }

  /** The first approximation of the high half, and the two terms r and p whose difference is its remainder. */
  method HighCandidate(u1: Limb) returns (qh: int, r: Limb, p: Limb)
    requires B <= 2 * u1
    ensures 0 <= qh < H && r < u1 && p < 2 * u1
    ensures H * (B - 1 - u1) + H - 1 == Mul(qh, u1) + (r - p)
  {
    hide Mul, Low, Bits;
    var ul, uh := u1 % H, u1 / H;
    var nu := B - 1 - u1;
    qh := nu / uh;
    ghost var m := nu % uh;
    DivMod(nu, uh);
    Product(qh, uh);
    Product(qh, ul);
    HighHalf(u1, uh, ul, nu, qh, m);
    ShiftedHalf(m);
    LowIs(m, 0);
    r := Bits(Or, Low(Low(nu - qh * uh) * H), H - 1);
    p := qh * ul;
  }

  /** High half of the 2/1 inverse: qh == floor((H^3 - 1) / u1) - H, with its remainder r. */
  method InvertHigh(u1: Limb) returns (qh: int, r: Limb)
    requires B <= 2 * u1
    ensures 0 <= qh < H && r < u1
    ensures H * (B - 1 - u1) + H - 1 == Mul(qh, u1) + r
  {
    hide Mul, Low;
    var p;
    qh, r, p := HighCandidate(u1);
    ghost var n, t := H * (B - 1 - u1) + H - 1, r - p;
    if r < p {
      CountsDown(n, qh, u1, t);
      LowIs(r + u1, if r + u1 < B then 0 else 1);
      qh, r, t := qh - 1, Low(r + u1), t + u1;
      if r >= u1 {            // no carry when adding to r
        if r < p {
          CountsDown(n, qh, u1, t);
          LowIs(r + u1, if r + u1 < B then 0 else 1);
          qh, r, t := qh - 1, Low(r + u1), t + u1;
        }
      }
    }
    LowIs(r - p, if r == t + p then 0 else -1);
    r := Low(r - p);
  }

  lemma HalfReciprocal(u1: int, qh: int, r: int)
    requires H * (B - 1 - u1) + H - 1 == Mul(qh, u1) + r && 0 <= r < u1
    ensures (qh + H) * u1 < H * B <= (qh + H) * u1 + u1
  {
  }

  /** The low-half candidate: a 3/2 step on half-limbs with qh as the reciprocal. */
  lemma LowCandidate(u1: Limb, qh: int, r: Limb, p: int) returns (t: int)
    requires B <= 2 * u1 && 0 <= qh < H && r < u1
    requires H * (B - 1 - u1) + H - 1 == Mul(qh, u1) + r
    requires p == Mul(r / H, qh) + r
    ensures 0 <= p < B
    ensures r * H + H - 1 == Mul(p / H + 1, u1) + t
    ensures 0 <= t + u1 && t < B && t < 2 * u1
    ensures if t < 0 then (p % H) * H <= t + B else t < (p % H) * H || t < B - u1
  {
    var rh, rl := r / H, r % H;
    HalfReciprocal(u1, qh, r);
    LowCandidateFits(u1, qh, r, rh, rl);
    var q1, q0 := p / H, p % H;
    Step32(H, B, u1, qh + H, rh, rl, H - 1, q1, q0);
    t := r * H + H - 1 - (q1 + 1) * u1;
  }

  lemma LowCandidateFits(u1: Limb, qh: int, r: int, rh: int, rl: int)
    requires 0 <= qh < H && 0 <= r < u1 && r == rh * H + rl && 0 <= rl < H
    requires (qh + H) * u1 < H * B
    ensures (qh + H) * rh + rl == Mul(rh, qh) + r && 0 <= rh < H
    ensures 0 <= Mul(rh, qh) + r < B
  {
    var w := qh + H;
    MulPos(w, rh);
    MulLe(r, u1 - 1, w);
    MulLe(H, w, rl);
    MulPos(w, rl);
    LowFitsLinear(w * rh, w * rl, rl, w * u1, w);
  }

  lemma LowFitsLinear(wrh: int, wrl: int, rl: int, wu: int, w: int)
    requires wrh * H + wrl <= wu - w && wu < H * B && H * rl <= wrl && H <= w
    ensures wrh + rl < B
  {
  }

  lemma LowResidue(r: int, ql: int, u1: int, t: int)
    requires r * H + H - 1 == Mul(ql, u1) + t && -B < t < B
    ensures Low(Low(r * H) + (H - 1) - Low(Mul(ql, u1))) == if t < 0 then t + B else t
  {
    hide Low, Mul;
    LowSub(Low(r * H) + (H - 1), Mul(ql, u1));
    LowAdd(r * H, H - 1 - Mul(ql, u1));
    LowIs(t, if t < 0 then -1 else 0);
  }

  /** Joining the halves: (m + B)*u1 + t == B^2 - 1. */
  lemma JoinHalves(u1: int, qh: int, r: int, qi: int, t: int)
    requires u1 < B <= 2 * u1 && 0 <= t < u1
    requires H * (B - 1 - u1) + H - 1 == Mul(qh, u1) + r
    requires r * H + H - 1 == Mul(qi, u1) + t
    ensures Mul(qh * H + qi + B, u1) + t == BB - 1
    ensures 0 <= qh * H + qi < B
  {
    var mi := qh * H + qi;
    assert (mi + B) * u1 == (qh * u1) * H + qi * u1 + B * u1;
    if mi < 0 {
      MulLe(mi + B, B - 1, u1);
    } else if mi >= B {
      MulLe(2 * B, mi + B, u1);
    }
  }

  /** The low-half candidate ql, one too large or exact, with its remainder r modulo B and the test value p. */
  method LowHalfCandidate(u1: Limb, qh: int, r0: Limb) returns (ql: int, p: Limb, r: Limb, ghost t: int)
    requires B <= 2 * u1 && 0 <= qh < H && r0 < u1
    requires H * (B - 1 - u1) + H - 1 == Mul(qh, u1) + r0
    ensures r0 * H + H - 1 == Mul(ql, u1) + t
    ensures 0 <= t + u1 && t < 2 * u1 && r == if t < 0 then t + B else t
    ensures if t < 0 then (p % H) * H <= t + B else t < (p % H) * H || t < B - u1
  {
    hide Low, Mul;
    Product(r0 / H, qh);
    t := LowCandidate(u1, qh, r0, Mul(r0 / H, qh) + r0);
    p := (r0 / H) * qh + r0;
    ql := p / H + 1;
    Product(ql, u1);
    LowResidue(r0, ql, u1, t);
    r := Low(Low(r0 * H) + (H - 1) - Low(ql * u1));
  }

  /** Low half: from qh and its remainder to the whole 2/1 inverse m of u1. */
  method InvertLow(u1: Limb, qh: int, r0: Limb) returns (m: Limb, r: Limb)
    requires B <= 2 * u1 && 0 <= qh < H && r0 < u1
    requires H * (B - 1 - u1) + H - 1 == Mul(qh, u1) + r0
    ensures Mul(m + B, u1) + r == BB - 1 && r < u1
  {
    hide Low, Mul;
    var ql, p;
    ghost var t;
    ql, p, r, t := LowHalfCandidate(u1, qh, r0);
    ghost var n := r0 * H + H - 1;
    LowIs(p * H, p / H);
    if r >= Low(p * H) {
      Adjust(n, ql, u1, t);
      LowIs(r + u1, if t < 0 then 1 else 0);
      ql, r, t := ql - 1, Low(r + u1), t + u1;
    }
    m := Low(qh * H + ql);
    if r >= u1 {
      Adjust(n, ql, u1, t);
      LowAdd(qh * H + ql, 1);
      LowIs(r - u1, 0);
      m, r := Low(m + 1), Low(r - u1);
      ql, t := ql + 1, t - u1;
    }
    JoinHalves(u1, qh, r0, ql, t);
    LowIs(qh * H + ql, 0);
  }

  // ----- from the 2/1 inverse of u1 to the 3/2 inverse of (u1, u0)

  /**
   x is the remainder of B^3 - 1 by the divisor (u1, u0) for the quotient m + B,
   and s the high limb that the code tracks in place of it.
   */
  ghost predicate Tracks(m: int, u1: int, u0: int, s: int, x: int) {
    && B * BB - 1 == Mul(m + B, u1 * B + u0) + x
    && x == -(B * s + Mul(m, u0) + 1)
  }

  lemma TracksStart(m: int, u1: int, u0: int, r: int)
    requires Mul(m + B, u1) + r == BB - 1
    ensures Tracks(m, u1, u0, u0 - r - 1, B * (r + 1 - u0) - 1 - Mul(m, u0))
  {
    assert (m + B) * (u1 * B + u0) == ((m + B) * u1) * B + m * u0 + B * u0;
  }

  /** Lowering m by one adds the divisor to the remainder. */
  lemma TracksDown(m: int, u1: int, u0: int, s: int, x: int)
    requires Tracks(m, u1, u0, s, x)
    ensures Tracks(m - 1, u1, u0, s - u1, x + u1 * B + u0)
  {
    assert (m - 1 + B) * (u1 * B + u0) == (m + B) * (u1 * B + u0) - (u1 * B + u0);
    assert (m - 1) * u0 == m * u0 - u0;
  }

  /** While the remainder is negative the quotient is still too large, so it can be lowered. */
  lemma CanLower(m: int, d: int, x: int)
    requires B * BB - 1 == Mul(m + B, d) + x && x < 0 && 0 < d < BB
    ensures m >= 1
  {
    if m <= 0 {
      MulLe(m + B, B, d);
    }
  }

  /** The remainder is never -1: that would make the divisor divide a power of two it cannot divide. */
  lemma NeverMinusOne(w: int, d: int)
    requires BB < 2 * d && d < BB
    ensures B * BB - 1 != Mul(w, d) - 1
  {
    Pow2Of64();
    Pow2Add(64, 64);
    Pow2Add(64, 128);
    NoDivisorBetween(127, d, w, 192);
    assert w * d == d * w;
  }

  lemma TracksEnd(m: int, u1: Limb, u0: Limb, s: int, x: int)
    requires Tracks(m, u1, u0, s, x) && B <= 2 * u1 && 0 <= x < u1 * B + u0
    ensures 0 <= m < B && (m + B) * (u1 * B + u0) < B * BB <= (m + B) * (u1 * B + u0) + (u1 * B + u0)
  {
    var d := u1 * B + u0;
    if m < 0 {
      MulLe(m + B, B - 1, d);
    } else if m >= B {
      MulLe(2 * B, m + B, d);
    }
  }

  /** The adjustment for u0 before its product is taken in: s ends up in [-B, 0). */
  method AdjustHigh(u1: Limb, u0: Limb, m0: Limb, r0: Limb) returns (m: Limb, r: Limb, ghost x: int)
    requires B <= 2 * u1 && 0 < u0 && r0 < u1 && Mul(m0 + B, u1) + r0 == BB - 1
    ensures Tracks(m, u1, u0, r - B, x) && x < u1 * B + u0
  {
    hide Low, Mul, Tracks;
    m := m0;
    ghost var s := u0 - r0 - 1;
    x := B * (r0 + 1 - u0) - 1 - Mul(m, u0);
    TracksStart(m, u1, u0, r0);
    TrackedRemainder(m, u1, u0, s, x);
    LowIs(B - 1 - r0 + u0, if s < 0 then 0 else 1);
    r := Low(B - 1 - r0 + u0);
    if r < u0 {
      CanLower(m, u1 * B + u0, x);
      TracksDown(m, u1, u0, s, x);
      m, s, x := m - 1, s - u1, x + u1 * B + u0;
      if r >= u1 {
        TrackedRemainder(m, u1, u0, s, x);
        CanLower(m, u1 * B + u0, x);
        TracksDown(m, u1, u0, s, x);
        m, s, x := m - 1, s - u1, x + u1 * B + u0;
        LowIs(r - u1, 0);
        r := Low(r - u1);
      }
      LowIs(r - u1, -1);
      r := Low(r - u1);
    }
  }

  lemma TrackedRemainder(m: int, u1: int, u0: int, s: int, x: int)
    requires Tracks(m, u1, u0, s, x)
    ensures B * BB - 1 == Mul(m + B, u1 * B + u0) + x
    ensures x == -(B * s + Mul(m, u0) + 1)
    ensures 0 <= m && 0 <= u0 ==> x <= -(B * s) - 1
  {
    if 0 <= m && 0 <= u0 {
      MulPos(m, u0);
    }
  }

  /** mpn_invert_3by2. */
  method Invert32(u1: Limb, u0: Limb) returns (m: Limb)
    requires B <= 2 * u1
    ensures Recip32(u1, u0, m)
    ensures u0 == 0 ==> Recip21(u1, m)
  {
    hide Low, Mul, Tracks;
    var qh, r := InvertHigh(u1);
    m, r := InvertLow(u1, qh, r);
    if u0 > 0 {
      m := AdjustLow(u1, u0, m, r);
    } else {
      ghost var s := 0 - (r as int) - 1;
      TracksStart(m, u1, 0, r);
      TrackedRemainder(m, u1, 0, s, B * (r + 1) - 1 - Mul(m, 0));
      TimesZero(m);
      TracksEnd(m, u1, 0, s, B * (r + 1) - 1 - Mul(m, 0));
      Product(m + B, u1);
    }
  }

  lemma TimesZero(m: int)
    ensures Mul(m, 0) == 0
  {
  }

  method AdjustLow(u1: Limb, u0: Limb, m0: Limb, r0: Limb) returns (m: Limb)
    requires B <= 2 * u1 && 0 < u0 && r0 < u1 && Mul(m0 + B, u1) + r0 == BB - 1
    ensures Recip32(u1, u0, m)
  {
    hide Low, Mul, Tracks;
    ghost var x;
    var r;
    m, r, x := AdjustHigh(u1, u0, m0, r0);
    ghost var d, s := u1 * B + u0, r - B;
    TrackedRemainder(m, u1, u0, s, x);
    var th, tl := Umul(u0, m);
    Product(m, u0);
    LowIs(r + th, if r + th < B then 0 else 1);
    r := Low(r + th);
    if r < th {
      CanLower(m, d, x);
      TracksDown(m, u1, u0, s, x);
      m, s, x := m - 1, s - u1, x + d;
      TrackedRemainder(m, u1, u0, s, x);
      NeverMinusOne(m + B, d);
      if r > u1 || (r == u1 && tl > u0) {
        CanLower(m, d, x);
        TracksDown(m, u1, u0, s, x);
        m, s, x := m - 1, s - u1, x + d;
      }
    }
    TracksEnd(m, u1, u0, s, x);
  }
}
