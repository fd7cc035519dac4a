/** The integer arithmetic of schoolbook division, one quotient limb at a time. */
module DivisionLemmas {
  import opened Arith
  import opened Limbs
  import opened ReciprocalLemmas
  import opened Reciprocal

  /**
   The 3/2 quotient limb q is too large by at most one for the whole divisor: p is
   the weight of the two top limbs, d2 and n3 the top limbs of divisor and dividend.
   */
  lemma QuotientLimb(p: int, d2: int, dl: int, r2: int, l: int, q: int, n3: int, n: int, d: int)
    requires n3 == Mul(q, d2) + r2 && 0 <= r2 < d2 && 0 <= l < p && 0 <= dl < p && 0 <= q < B <= d2
    requires n == Mul(n3, p) + l && d == Mul(d2, p) + dl
    ensures n - Mul(q, d) == Mul(r2, p) + l - Mul(q, dl)
    ensures 0 <= n - Mul(q, d) + d && n - Mul(q, d) < d
  {
    hide Mul;
    QuotientTerms(p, d2, dl, r2, q, n3, d);
    QuotientLow(p, d2, dl, q);
    QuotientHigh(p, d2, r2);
    MulNonneg(r2, p);
  }

  lemma QuotientTerms(p: int, d2: int, dl: int, r2: int, q: int, n3: int, d: int)
    requires n3 == Mul(q, d2) + r2 && d == Mul(d2, p) + dl
    ensures Mul(n3, p) - Mul(q, d) == Mul(r2, p) - Mul(q, dl)
  {
    assert n3 * p == (q * d2) * p + r2 * p;
    assert q * d == q * (d2 * p) + q * dl;
    Assoc(q, d2, p);
  }

  lemma QuotientLow(p: int, d2: int, dl: int, q: int)
    requires 0 <= dl < p && 0 <= q < B <= d2
    ensures 0 <= Mul(q, dl) <= Mul(d2, p)
  {
    MulPos(q, dl);
    MulLe(q, d2, dl);
    MulLe(dl, p, d2);
  }

  lemma QuotientHigh(p: int, d2: int, r2: int)
    requires 0 <= r2 < d2 && 0 < p
    ensures Mul(r2, p) + p <= Mul(d2, p)
  {
    MulLe(r2 + 1, d2, p);
  }

  lemma MulNonneg(x: int, y: int)
    requires 0 <= x && 0 <= y
    ensures 0 <= Mul(x, y)
  {
    MulPos(x, y);
  }

  /** When the two top limbs of dividend and divisor agree, the quotient limb is B - 1. */
  lemma QuotientMax(p: int, p1: int, d2: int, dl: int, m: int, l: int, n: int, d: int, low: int)
    requires 0 <= dl < p && 0 <= l && B <= d2 && 0 <= low < B && 0 <= m < d
    requires p1 == B * p && n == Mul(d2, p1) + l && d == Mul(d2, p) + dl
    requires n == B * m + low
    ensures 0 <= n - Mul(B - 1, d) < d
  {
    assert Mul(d2, p1) == B * (d2 * p);
    assert Mul(B - 1, d) == B * d - d;
    MulLe(B, d2, p);
  }

  /** A dividend below B*d whose top limbs are not those of d has its two top limbs below them. */
  lemma TopLimbs(p: int, n2: int, d2: int, nl: int, dl: int)
    requires 0 <= nl < p && 0 <= dl < p && Mul(n2, p) + nl < Mul(d2, p) + dl
    ensures n2 <= d2
  {
    if n2 > d2 {
      MulLe(d2 + 1, n2, p);
    }
  }
}
