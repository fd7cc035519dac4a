/**
 Double-limb arithmetic, the limb-reciprocal divisions and the reciprocal itself
 (the macros at the head of src/mini-gmp.c and mpn_invert_3by2).
 */
module Reciprocal {
  import opened Arith
  import opened Limbs
  import opened ReciprocalLemmas

  const BB: int := 0x1_0000_0000_0000_0000_0000_0000_0000_0000

  lemma LowShift(x: int, k: int)
    ensures Low(x + k * B) == Low(x)
  {
    DivIs(x + k * B, x / B + k, x % B, B);
  }

  lemma LowIs(x: int, k: int)
    requires 0 <= x - k * B < B
    ensures Low(x) == x - k * B
  {
    DivIs(x, k, x - k * B, B);
  }

  /** gmp_add_ssaaaa: two-limb addition modulo B^2. */
  function AddDD(ah: Limb, al: Limb, bh: Limb, bl: Limb): (r: (Limb, Limb))
    ensures var s := (ah + bh) * B + al + bl;
            r.0 * B + r.1 == if s < BB then s else s - BB
  {
    var x := Low(al + bl);
    LowIs(al + bl, if al + bl < B then 0 else 1);
    LowIs(ah + bh + if x < al then 1 else 0, if ah + bh + (if x < al then 1 else 0) < B then 0 else 1);
    (Low(ah + bh + if x < al then 1 else 0), x)
  }

  /** gmp_sub_ddmmss: two-limb subtraction modulo B^2. */
  function SubDD(ah: Limb, al: Limb, bh: Limb, bl: Limb): (r: (Limb, Limb))
    ensures var s := (ah - bh) * B + al - bl;
            r.0 * B + r.1 == if s < 0 then s + BB else s
  {
    LowIs(al - bl, if al < bl then -1 else 0);
    LowIs(ah - bh - if al < bl then 1 else 0, if ah - bh - (if al < bl then 1 else 0) < 0 then -1 else 0);
    (Low(ah - bh - if al < bl then 1 else 0), Low(al - bl))
  }

  /** gmp_umul_ppmm: the full product of two limbs, built from half-limb products. */
  method Umul(u: Limb, v: Limb) returns (w1: Limb, w0: Limb)
    ensures w1 * B + w0 == u * v
  {
    var ul, uh, vl, vh := u % H, u / H, v % H, v / H;
    assert u * v == uh * vh * B + (ul * vh + uh * vl) * H + ul * vl by {
      assert u == uh * H + ul && v == vh * H + vl;
    }
    HalfProduct(ul, vl);
    HalfProduct(ul, vh);
    HalfProduct(uh, vl);
    HalfProduct(uh, vh);
    var x0, x1, x2, x3 := ul * vl, ul * vh, uh * vl, uh * vh;
    w1, w0 := UmulSum(x0, x1, x2, x3);
  }

  lemma HalfProduct(x: int, y: int)
    requires 0 <= x < H && 0 <= y < H
    ensures 0 <= x * y <= (H - 1) * (H - 1)
  {
    MulPos(x, y);
    MulLe(x, H - 1, y);
    MulLe(y, H - 1, H - 1);
  }

  method UmulSum(x0: Limb, x1: Limb, x2: Limb, x3: Limb) returns (w1: Limb, w0: Limb)
    requires x0 <= (H - 1) * (H - 1) && x1 <= (H - 1) * (H - 1) && x2 <= (H - 1) * (H - 1)
    requires x3 * B + (x1 + x2) * H + x0 < BB
    ensures w1 * B + w0 == x3 * B + (x1 + x2) * H + x0
  {
    var a, c := x0 / H, x0 % H;
    LowIs(x1 + a, 0);
    var y1, y3 := Low(x1 + a), x3;
    LowIs(y1 + x2, if y1 + x2 < B then 0 else 1);
    y1 := Low(y1 + x2);
    if y1 < x2 {
      LowIs(y3 + H, 0);
      y3 := Low(y3 + H);
    }
    var e, f := y1 / H, y1 % H;
    LowIs(y3 + e, 0);
    LowIs(y1 * H, e);
    LowIs(f * H + c, 0);
    w1 := Low(y3 + e);
    w0 := Low(Low(y1 * H) + c);
  }

  /** Truncating an operand first does not change the truncated result. */
  lemma LowAdd(x: int, y: int)
    ensures Low(Low(x) + y) == Low(x + y)
  {
    var k := x / B;
    assert Low(x) + y == x + y + (-k) * B;
    LowShift(x + y, -k);
  }

  lemma LowSub(x: int, y: int)
    ensures Low(x - Low(y)) == Low(x - y)
  {
    var k := y / B;
    assert x - Low(y) == x - y + k * B;
    LowShift(x - y, k);
  }

  lemma LowMul(x: int, y: int)
    ensures Low(Low(x) * y) == Low(x * y)
  {
    var k := x / B;
    assert Low(x) == x - k * B;
    Dist(x, k * B, y);
    Assoc(-k, B, y);
    assert Low(x) * y == x * y + (-(k * y)) * B;
    LowShift(x * y, -(k * y));
  }

  lemma QuotientBelow(q: int, d: int, r: int, n: int, m: int)
    requires 0 <= r < d && n == q * d + r && 0 <= n < d * m
    ensures 0 <= q < m
  {
    if q < 0 {
      MulLe(q, -1, d);
    } else if q >= m {
      MulLe(m, q, d);
    }
  }

  lemma Residue21(nh: int, nl: int, d: int, qi: int, t: int)
    requires nh * B + nl == Mul(qi, d) + t && -B < t < B
    ensures Low(nl - Low(Low(qi) * d)) == if t < 0 then t + B else t
  {
    hide Low;
    LowMul(qi, d);
    LowSub(nl, qi * d);
    LowShift(t, -nh);
    LowIs(t, if t < 0 then -1 else 0);
  }

  /** di is the 2/1 reciprocal of the normalised limb d: floor((B^2 - 1) / d) - B. */
  ghost predicate Recip21(d: Limb, di: Limb) {
    B <= 2 * d && (di + B) * d < BB <= (di + B) * d + d
  }

  lemma Candidate21(nh: Limb, nl: Limb, d: Limb, di: Limb, ph: Limb, pl: Limb, qh: Limb, ql: Limb)
    returns (qi: int, t: int)
    requires nh < d && Recip21(d, di)
    requires ph * B + pl == nh * di
    requires var s := (ph + nh + 1) * B + pl + nl; qh * B + ql == if s < BB then s else s - BB
    ensures nh * B + nl == Mul(qi, d) + t && qh == Low(qi)
    ensures 0 <= t + d && t < 2 * d && (if t < 0 then ql < t + B else t < ql || t < B - d)
  {
    hide Low;
    var c := (di + B) * nh + nl;
    assert c == ph * B + pl + nh * B + nl;
    Fits(BB, B, d, di + B, nh, nl);
    var q1 := if qh == 0 then B - 1 else qh - 1;
    assert c == q1 * B + ql;
    qi := q1 + 1;
    t := nh * B + nl - qi * d;
    LowIs(qi, if qh == 0 then 1 else 0);
    Step21(B, BB, d, di + B, nh, nl, q1, ql);
  }

  /** Moving the candidate quotient by one moves the remainder by d. */
  lemma Adjust(n: int, qi: int, d: int, t: int)
    requires n == Mul(qi, d) + t
    ensures n == Mul(qi - 1, d) + (t + d) && n == Mul(qi + 1, d) + (t - d)
    ensures Low(Low(qi) + (B - 1)) == Low(qi - 1) && Low(Low(qi) + 1) == Low(qi + 1)
  {
    hide Low;
    LowAdd(qi, B - 1);
    LowShift(qi - 1, 1);
    LowAdd(qi, 1);
  }

  lemma QuotientIsLimb(nh: int, nl: Limb, q: int, d: int, r: int)
    requires 0 <= nh < d && 0 <= r < d && nh * B + nl == Mul(q, d) + r
    ensures 0 <= q < B && Low(q) == q
  {
    hide Low;
    MulLe(nh + 1, d, B);
    QuotientBelow(q, d, r, nh * B + nl, B);
    LowIs(q, 0);
  }

  /** gmp_udiv_qrnnd_preinv: divide the two-limb number nh*B + nl by the normalised limb d with reciprocal di. */
  method Udiv21(nh: Limb, nl: Limb, d: Limb, di: Limb) returns (q: Limb, r: Limb)
    requires nh < d && Recip21(d, di)
    ensures nh * B + nl == q * d + r && r < d
  {
    hide Low, Mul;
    var ph, pl := Umul(nh, di);
    LowIs(nh + 1, 0);
    var s := AddDD(ph, pl, Low(nh + 1), nl);
    var qh, ql := s.0, s.1;
    ghost var n := nh * B + nl;
    ghost var qi, t := Candidate21(nh, nl, d, di, ph, pl, qh, ql);
    Residue21(nh, nl, d, qi, t);
    r := Low(nl - Low(qh * d));
    if r > ql {
      Adjust(n, qi, d, t);
      qi, t := qi - 1, t + d;
      LowIs(r + d, if t < d then 1 else 0);
      qh, r := Low(qh + (B - 1)), Low(r + d);
    }
    if r >= d {
      Adjust(n, qi, d, t);
      qi, t := qi + 1, t - d;
      LowIs(r - d, 0);
      qh, r := Low(qh + 1), Low(r - d);
    }
    QuotientIsLimb(nh, nl, qi, d, t);
    q := qh;
    Product(q, d);
  }

  // ----- three limbs by two

  /** di is the 3/2 reciprocal of the normalised pair (d1, d0): floor((B^3 - 1) / (d1*B + d0)) - B. */
  ghost predicate Recip32(d1: Limb, d0: Limb, di: Limb) {
    B <= 2 * d1 && (di + B) * (d1 * B + d0) < B * BB <= (di + B) * (d1 * B + d0) + (d1 * B + d0)
  }

  lemma Fits32(d: int, w: int, u2: int, u1: int)
    requires 0 <= u2 && 0 <= u1 && u2 * B + u1 < d && B <= w && w * d < B * BB
    ensures 0 <= w * u2 + u1 < BB
  {
    MulPos(w, u2);
    MulLe(u2 * B + u1, d - 1, w);
    MulLe(B, w, u1);
    Fits32Linear(w * u2, w * u1, u1, w * d, w);
  }

  lemma Fits32Linear(wu2: int, wu1: int, u1: int, wd: int, w: int)
    requires wu2 * B + wu1 <= wd - w && wd < B * BB && B * u1 <= wu1 && B <= w
    ensures wu2 + u1 < BB
  {
  }

  lemma Candidate32(n2: Limb, n1: Limb, n0: Limb, d1: Limb, d0: Limb, di: Limb, ph: Limb, pl: Limb, q: Limb, q0: Limb)
    returns (t: int)
    requires n2 * B + n1 < d1 * B + d0 && Recip32(d1, d0, di)
    requires ph * B + pl == n2 * di
    requires var s := (ph + n2) * B + pl + n1; q * B + q0 == if s < BB then s else s - BB
    ensures n2 * BB + n1 * B + n0 == Mul(q + 1, d1 * B + d0) + t
    ensures 0 <= t + (d1 * B + d0) && t < 2 * (d1 * B + d0)
    ensures if t < 0 then q0 * B <= t + BB else t < q0 * B || t < BB - (d1 * B + d0)
  {
    hide Low;
    var d, w := d1 * B + d0, di + B;
    Fits32(d, w, n2, n1);
    assert w * n2 + n1 == q * B + q0;
    t := n2 * BB + n1 * B + n0 - (q + 1) * d;
    Step32(B, BB, d, w, n2, n1, n0, q, q0);
  }

  lemma TwoLimbProduct(q: int, d1: int, d0: int)
    ensures Mul(q + 1, d1 * B + d0) == Mul(d1, q) * B + Mul(d0, q) + d1 * B + d0
  {
  }

  lemma LowQuotient(x: int) returns (k: int)
    ensures Low(x) == x + k * B
  {
    k := -(x / B);
  }

  /** The two-limb remainder that the 3/2 step computes modulo B^2. */
  lemma Residue32(n2: int, n1: int, n0: int, q: int, d1: int, d0: int, t: int, v1: int, v0: int, v: int)
    requires n2 * BB + n1 * B + n0 == Mul(q + 1, d1 * B + d0) + t && -BB < t < BB
    requires v1 == Low(n1 - Low(Mul(d1, q)))
    requires var s := (v1 - d1) * B + n0 - d0; v0 == if s < 0 then s + BB else s
    requires var s := v0 - Mul(d0, q); v == if s < 0 then s + BB else s
    requires 0 <= v < BB
    ensures v == if t < 0 then t + BB else t
  {
    hide Low, Mul;
    LowSub(n1, Mul(d1, q));
    var k := LowQuotient(n1 - Mul(d1, q));
    TwoLimbProduct(q, d1, d0);
    var j := (if (v1 - d1) * B + n0 - d0 < 0 then 1 else 0) + (if v0 - Mul(d0, q) < 0 then 1 else 0);
    WrapIs(v, t, k + j - n2, BB);
  }

  /** Two numbers congruent modulo m, one in [0, m) and the other in (-m, m), differ by at most one m. */
  lemma WrapIs(x: int, y: int, j: int, m: int)
    requires 0 <= x < m && -m < y < m && x == y + j * m
    ensures x == if y < 0 then y + m else y
  {
    if y < 0 {
      DivUnique(x, 0, y + m, j - 1, m);
    } else {
      DivUnique(x, 0, y, j, m);
    }
  }

  lemma QuotientIsLimb32(n2: int, n1: int, n0: int, q: int, d: int, r: int)
    requires 0 <= n2 && 0 <= n1 < B && 0 <= n0 < B && n2 * B + n1 < d && 0 <= r < d
    requires n2 * BB + n1 * B + n0 == Mul(q, d) + r
    ensures 0 <= q < B && Low(q) == q
  {
    hide Low;
    QuotientBelow(q, d, r, n2 * BB + n1 * B + n0, B);
    LowIs(q, 0);
  }

  /** The first half of gmp_udiv_qr_3by2: candidate quotient qi == q + 1 and its remainder t modulo B^2. */
  method UdivCandidate32(n2: Limb, n1: Limb, n0: Limb, d1: Limb, d0: Limb, dinv: Limb)
    returns (q: Limb, q0: Limb, r1: Limb, r0: Limb, ghost qi: int, ghost t: int)
    requires n2 * B + n1 < d1 * B + d0 && Recip32(d1, d0, dinv)
    ensures n2 * BB + n1 * B + n0 == Mul(qi, d1 * B + d0) + t && q == Low(qi)
    ensures 0 <= t + (d1 * B + d0) && t < 2 * (d1 * B + d0)
    ensures if t < 0 then q0 * B <= t + BB else t < q0 * B || t < BB - (d1 * B + d0)
    ensures r1 * B + r0 == if t < 0 then t + BB else t
  {
    hide Low, Mul;
    var ph, pl := Umul(n2, dinv);
    var s := AddDD(ph, pl, n2, n1);
    q, q0 := s.0, s.1;
    t := Candidate32(n2, n1, n0, d1, d0, dinv, ph, pl, q, q0);

    // The two most significant limbs of n - q*d.
    Product(d1, q);
    Product(d0, q);
    r1 := Low(n1 - Low(d1 * q));
    ghost var v1 := r1;
    s := SubDD(r1, n0, d1, d0);
    ghost var v0 := s.0 * B + s.1;
    var t1, t0 := Umul(d0, q);
    s := SubDD(s.0, s.1, t1, t0);
    r1, r0 := s.0, s.1;
    Residue32(n2, n1, n0, q, d1, d0, t, v1, v0, r1 * B + r0);
    qi := q + 1;
    q := Low(q + 1);
  }

  /**
   gmp_udiv_qr_3by2: divide the three-limb number (n2, n1, n0) by the normalised
   two-limb (d1, d0), whose reciprocal is dinv.
   */
  method Udiv32(n2: Limb, n1: Limb, n0: Limb, d1: Limb, d0: Limb, dinv: Limb) returns (q: Limb, r1: Limb, r0: Limb)
    requires n2 * B + n1 < d1 * B + d0 && Recip32(d1, d0, dinv)
    ensures n2 * BB + n1 * B + n0 == q * (d1 * B + d0) + (r1 * B + r0)
    ensures r1 * B + r0 < d1 * B + d0
  {
    hide Low, Mul;
    var q0;
    ghost var qi, t;
    q, q0, r1, r0, qi, t := UdivCandidate32(n2, n1, n0, d1, d0, dinv);
    ghost var d := d1 * B + d0;
    ghost var n := n2 * BB + n1 * B + n0;

    // Conditionally adjust q and the remainder.
    if r1 >= q0 {
      Adjust(n, qi, d, t);
      qi, t := qi - 1, t + d;
      q := Low(q + (B - 1));
      var s := AddDD(r1, r0, d1, d0);
      r1, r0 := s.0, s.1;
    }
    assert r1 * B + r0 == t;
    if r1 >= d1 {
      if r1 > d1 || r0 >= d0 {
        Adjust(n, qi, d, t);
        qi, t := qi + 1, t - d;
        q := Low(q + 1);
        var s := SubDD(r1, r0, d1, d0);
        r1, r0 := s.0, s.1;
      }
    }
    QuotientIsLimb32(n2, n1, n0, qi, d, t);
    Product(q, d);
  }
}
