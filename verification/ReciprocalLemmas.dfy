/**
 Why division by a precomputed reciprocal is exact.  Everything here is stated
 for an arbitrary base b: src/mini-gmp.c uses it with b the limb base and again,
 inside mpn_invert_3by2, with b the half-limb base.  A reciprocal v appears as
 w == v + b, the true quotient of b^2 - 1 (or b^3 - 1) by the divisor.
 */
module ReciprocalLemmas {
  import opened Arith

  lemma CancelNonneg(b: int, x: int)
    requires b > 0 && b * x >= 0
    ensures x >= 0
  {
    if x < 0 {
      MulLe(x, -1, b);
    }
  }

  // ----- two digits by one

  lemma Fits(bb: int, b: int, d: int, w: int, u1: int, u0: int)
    requires 0 <= u1 < d && 0 <= u0 < b <= w
    requires w * d < bb
    ensures 0 <= w * u1 + u0 < bb
  {
    MulPos(w, u1);
    MulLe(u1, d - 1, w);
  }

  /** The candidate remainder of the 2/1 step, scaled by b. */
  lemma Scaled21(b: int, bb: int, d: int, w: int, u1: int, u0: int, q1: int, q0: int)
    requires bb == b * b
    requires w * u1 + u0 == q1 * b + q0
    ensures b * (u1 * b + u0 - (q1 + 1) * d)
         == u0 * (b - d) + u1 * (bb - w * d) + q0 * d - b * d
  {
    assert (w * u1 + u0) * d == (q1 * b + q0) * d;
  }

  lemma WindowLow21(b: int, d: int, r: int, pos: int, q0: int)
    requires 0 < d < b && 0 <= q0 < b && pos >= 0
    requires b * r == pos + q0 * d - b * d
    ensures -d <= r && q0 - b < r
  {
    MulPos(q0, d);
    CancelNonneg(b, r + d);
    MulLe(1, b - q0, b - d);
    if r - (q0 - b) <= 0 {
      MulLe(r - (q0 - b), 0, b);
      assert false;
    }
  }

  lemma WindowHigh21(b: int, d: int, k: int, r: int, u1: int, u0: int, q0: int)
    requires 0 < d < b && 0 <= u1 < d && 0 <= u0 < b && 0 <= k <= d
    requires b * r == u0 * (b - d) + u1 * k + q0 * d - b * d
    ensures r < b - d || r < q0
  {
    if r >= b - d && r >= q0 {
      MulLe(u0, b - 1, b - d);
      MulLe(u1, d - 1, k);
      MulLe(k, d, d - 1);
      MulLe(b - d, r, b - d);
      MulLe(q0, r, d);
      assert false;
    }
  }

  /** The 2/1 candidate remainder is off by at most one divisor, and comparing it with q0 tells which way. */
  lemma Step21(b: int, bb: int, d: int, w: int, u1: int, u0: int, q1: int, q0: int)
    requires 0 < d < b <= 2 * d && 0 <= u1 < d && 0 <= u0 < b && 0 <= q0 < b
    requires bb == b * b && w * d < bb <= w * d + d
    requires w * u1 + u0 == q1 * b + q0
    ensures var r := u1 * b + u0 - (q1 + 1) * d;
            -d <= r < 2 * d && (if r < 0 then q0 < r + b else r < q0 || r < b - d)
  {
    var k := bb - w * d;
    MulPos(u0, b - d);
    MulPos(u1, k);
    Scaled21(b, bb, d, w, u1, u0, q1, q0);
    WindowLow21(b, d, u1 * b + u0 - (q1 + 1) * d, u0 * (b - d) + u1 * k, q0);
    WindowHigh21(b, d, k, u1 * b + u0 - (q1 + 1) * d, u1, u0, q0);
  }

  // ----- three digits by two

  /** The candidate remainder of the 3/2 step, scaled by b. */
  lemma Scaled32(b: int, bb: int, d: int, w: int, u2: int, u1: int, u0: int, q1: int, q0: int)
    requires bb == b * b
    requires w * u2 + u1 == q1 * b + q0
    ensures b * (u2 * bb + u1 * b + u0 - (q1 + 1) * d)
         == u1 * (bb - d) + u0 * b + u2 * (b * bb - w * d) + q0 * d - b * d
  {
    assert (w * u2 + u1) * d == (q1 * b + q0) * d;
  }

  lemma WindowLow32(b: int, bb: int, d: int, r: int, pos: int, q0: int, x: int)
    requires 0 < b && 0 < d < bb && 0 <= q0 < b && pos >= 0
    requires b * r == pos + q0 * d - b * d
    requires b * x == q0 * bb - b * bb
    ensures -d <= r && x <= r
  {
    MulPos(q0, d);
    CancelNonneg(b, r + d);
    MulPos(b - q0, bb - d);
    CancelNonneg(b, r - x);
  }

  lemma HighLimbTerm(u2b: int, k: int, d: int, u1: int)
    requires 0 <= k <= d && u2b + u1 < d && 0 <= u2b
    ensures Mul(u2b, k) <= Mul(d, d) - d - Mul(u1, d)
  {
    MulLe(u2b, d - 1 - u1, k);
    MulLe(k, d, d - 1 - u1);
  }

  lemma LowLimbTerm(bb: int, u0: int, b: int)
    requires 0 <= bb && u0 < b
    ensures Mul(bb, u0) <= Mul(bb, b) - bb
  {
    MulLe(u0, b - 1, bb);
  }

  /** bb*r as a weighted sum, when r is at least e == bb - d and at least qb. */
  lemma WeightedSum(bb: int, d: int, e: int, r: int, qb: int)
    requires e == bb - d && 0 <= d && 0 <= e <= r && qb <= r
    ensures Mul(bb, r) >= Mul(bb, e) - Mul(bb, d) + Mul(d, d) + Mul(qb, d)
  {
    MulLe(e, r, e);
    MulLe(qb, r, d);
  }

  /**
   The upper bound when d is not too close to bb: r is below a weighted mean of
   the two bounds.  The names be and bbe stand for b*e and b*b*e, with e == bb - d.
   */
  lemma WindowHigh32Mean(b: int, bb: int, d: int, e: int, k: int, r: int, u2b: int, u1: int, u0: int, qb: int,
                         be: int, bbe: int)
    requires 0 < d < bb && e == bb - d && u0 < b
    requires 0 <= k <= d && u2b + u1 < d && 0 <= u2b
    requires Mul(bb, r) == Mul(u1, be) + Mul(bb, u0) + Mul(u2b, k) + Mul(qb, d) - Mul(bb, d)
    requires bbe == Mul(bb, e) && be == Mul(bb, b) - Mul(b, d)
    requires Mul(u1, be) - Mul(u1, d) <= bbe - Mul(b, d) - be + d
    ensures r < e || r < qb
  {
    hide Mul;
    HighLimbTerm(u2b, k, d, u1);
    LowLimbTerm(bb, u0, b);
    if r >= e && r >= qb {
      WeightedSum(bb, d, e, r, qb);
      assert false;
    }
  }

  lemma MiddleLimbTerm(u1: int, b: int, be: int, d: int)
    requires u1 < b && d <= be
    ensures Mul(u1, be) - Mul(u1, d) <= Mul(b, be) - Mul(b, d) - be + d
  {
    MulLe(u1, b - 1, be - d);
  }

  lemma MulRegroup(x: int, y: int, z: int)
    ensures Mul(x, Mul(y, z)) == Mul(Mul(x, y), z) == Mul(Mul(y, x), z) == Mul(y, Mul(x, z)) == Mul(Mul(x, z), y)
  {
  }

  lemma MulSum(b: int, x1: int, x2: int, x3: int, x4: int, x5: int)
    ensures Mul(b, x1 + x2 + x3 + x4 - x5) == Mul(b, x1) + Mul(b, x2) + Mul(b, x3) + Mul(b, x4) - Mul(b, x5)
  {
  }

  /** The scaled candidate remainder, scaled once more. */
  lemma ScaledTwice32(b: int, bb: int, d: int, e: int, k: int, r: int, u2: int, u1: int, u0: int, q0: int)
    requires bb == Mul(b, b)
    requires Mul(b, r) == Mul(u1, e) + Mul(u0, b) + Mul(u2, k) + Mul(q0, d) - Mul(b, d)
    ensures Mul(bb, r) == Mul(u1, Mul(b, e)) + Mul(bb, u0) + Mul(Mul(u2, b), k) + Mul(Mul(q0, b), d) - Mul(bb, d)
  {
    hide Mul;
    MulRegroup(b, b, r);
    MulSum(b, Mul(u1, e), Mul(u0, b), Mul(u2, k), Mul(q0, d), Mul(b, d));
    MulRegroup(b, u1, e);
    MulRegroup(b, u0, b);
    MulRegroup(b, u2, k);
    MulRegroup(b, q0, d);
    MulRegroup(b, b, d);
  }

  lemma SquareTimes(b: int, bb: int, d: int)
    requires bb == b * b
    ensures Mul(b, b * (bb - d)) == Mul(bb, bb - d)
    ensures b * (bb - d) == Mul(bb, b) - Mul(b, d)
  {
  }

  /** The upper bound when d is within b of bb: then w == b and everything is explicit. */
  lemma WindowHigh32Edge(b: int, bb: int, d: int, w: int, u2: int, u1: int, u0: int, q1: int, q0: int)
    requires 0 < d < bb && 0 <= u2 < b && 0 <= u1 < b && 0 <= u0 < b && 0 <= q0 < b <= w
    requires bb == b * b && w * d < b * bb
    requires b * (bb - d) < d
    requires w * u2 + u1 == q1 * b + q0
    ensures u2 * bb + u1 * b + u0 - (q1 + 1) * d < q0 * b
  {
    EdgeReciprocal(b, bb, d, w);
    DivUnique(u1, u2, q0, q1, b);
    EdgeSmall(b, bb, d, bb - d, u2, u0);
    EdgeRemainder(b, bb, d, u2, u1, u0);
  }

  lemma EdgeRemainder(b: int, bb: int, d: int, u2: int, u1: int, u0: int)
    requires u2 * (bb - d) + u0 < d
    ensures u2 * bb + u1 * b + u0 - (u2 + 1) * d < u1 * b
  {
  }

  lemma EdgeReciprocal(b: int, bb: int, d: int, w: int)
    requires 0 < b <= w && 0 < d && w * d < b * bb && b * (bb - d) < d
    ensures w == b
  {
    if w > b {
      MulLe(b + 1, w, d);
      assert false;
    }
  }

  lemma EdgeSmall(b: int, bb: int, d: int, e: int, u2: int, u0: int)
    requires bb == b * b && e == bb - d && 0 < e && 0 <= u2 < b && 0 <= u0 < b
    requires b * e < d
    ensures u2 * e + u0 < d
  {
    if e >= b {
      MulLe(b, e, b);
      assert false;
    }
    MulLe(u2, b - 1, e);
    MulLe(e, b - 1, b);
  }

  lemma WindowHigh32(b: int, bb: int, d: int, w: int, u2: int, u1: int, u0: int, q1: int, q0: int, r: int)
    requires 0 < d < bb && 0 <= u2 < b && 0 <= u1 < b && 0 <= u0 < b && 0 <= q0 < b <= w
    requires bb == b * b && w * d < b * bb <= w * d + d && u2 * b + u1 < d
    requires w * u2 + u1 == q1 * b + q0
    requires r == u2 * bb + u1 * b + u0 - (q1 + 1) * d
    requires b * r == u1 * (bb - d) + u0 * b + u2 * (b * bb - w * d) + q0 * d - b * d
    ensures r < bb - d || r < q0 * b
  {
    if b * (bb - d) < d {
      WindowHigh32Edge(b, bb, d, w, u2, u1, u0, q1, q0);
    } else {
      var k := b * bb - w * d;
      ScaledTwice32(b, bb, d, bb - d, k, r, u2, u1, u0, q0);
      MiddleLimbTerm(u1, b, b * (bb - d), d);
      SquareTimes(b, bb, d);
      WindowHigh32Mean(b, bb, d, bb - d, k, r, u2 * b, u1, u0, q0 * b, b * (bb - d), Mul(b, b * (bb - d)));
    }
  }

  /** The 3/2 candidate remainder is off by at most one divisor, and comparing it with q0*b tells which way. */
  lemma Step32(b: int, bb: int, d: int, w: int, u2: int, u1: int, u0: int, q1: int, q0: int)
    requires 0 < d < bb <= 2 * d && 0 <= u2 < b && 0 <= u1 < b && 0 <= u0 < b && 0 <= q0 < b <= w
    requires bb == b * b && w * d < b * bb <= w * d + d && u2 * b + u1 < d
    requires w * u2 + u1 == q1 * b + q0
    ensures var r := u2 * bb + u1 * b + u0 - (q1 + 1) * d;
            -d <= r < 2 * d && (if r < 0 then q0 * b <= r + bb else r < q0 * b || r < bb - d)
  {
    var k, r := b * bb - w * d, u2 * bb + u1 * b + u0 - (q1 + 1) * d;
    Scaled32(b, bb, d, w, u2, u1, u0, q1, q0);
    WindowHigh32(b, bb, d, w, u2, u1, u0, q1, q0, r);
    DigitTimesBase(b, bb, q0);
    LowPart32(b, bb, d, k, u2, u1, u0, q0, r, q0 * b - bb);
  }

  lemma LowPart32(b: int, bb: int, d: int, k: int, u2: int, u1: int, u0: int, q0: int, r: int, x: int)
    requires 0 < d < bb && 0 <= u2 < b && 0 <= u1 < b && 0 <= u0 < b && 0 <= q0 < b && 0 <= k
    requires b * r == u1 * (bb - d) + u0 * b + u2 * k + q0 * d - b * d
    requires b * x == q0 * bb - b * bb
    ensures -d <= r && x <= r
  {
    MulPos(u1, bb - d);
    MulPos(u0, b);
    MulPos(u2, k);
    WindowLow32(b, bb, d, r, u1 * (bb - d) + u0 * b + u2 * k, q0, x);
  }

  lemma DigitTimesBase(b: int, bb: int, q0: int)
    requires bb == b * b && 0 <= q0 < b
    ensures b * (q0 * b - bb) == q0 * bb - b * bb
    ensures 0 <= q0 * b <= bb - b
  {
    MulLe(q0, b - 1, b);
    MulPos(q0, b);
  }
}
