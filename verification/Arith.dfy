/** Multiplication facts, one at a time, so that no proof has to search for them. */
module Arith {

  /** Multiplication under a name that a proof can hide, to keep the rest of it linear. */
  ghost function Mul(x: int, y: int): int {
    x * y
  }

  function Abs(x: int): nat {
    if x < 0 then -x else x
  }

  lemma MulLe(a: int, b: int, c: int)
    requires a <= b && 0 <= c
    ensures a * c <= b * c
  {
  }

  lemma MulPos(a: int, b: int)
    requires 0 <= a && 0 <= b
    ensures 0 <= a * b
  {
  }

  lemma Dist(a: int, b: int, c: int)
    ensures (a + b) * c == a * c + b * c
    ensures (a - b) * c == a * c - b * c
  {
  }

  lemma Assoc(a: int, b: int, c: int)
    ensures a * (b * c) == (a * b) * c
    ensures a * (b * c) == b * (a * c)
  {
  }

  /** Division with remainder by p is unique. */
  lemma DivUnique(x: int, i: int, y: int, j: int, p: int)
    requires 0 <= x < p && 0 <= y < p && x + i * p == y + j * p
    ensures x == y && i == j
  {
    if i > j {
      Dist(j, 1, p);
      MulLe(j + 1, i, p);
    } else if i < j {
      Dist(i, 1, p);
      MulLe(i + 1, j, p);
    }
  }

  /** A quotient and remainder in range are the ones that / and % compute. */
  lemma DivIs(n: int, q: int, r: int, d: int)
    requires 0 <= r < d && n == q * d + r
    ensures n / d == q && n % d == r
  {
    var q', r' := n / d, n % d;
    assert n == q' * d + r';
    DivUnique(r, q, r', q', d);
  }

  lemma DivMod(x: int, d: int)
    requires d > 0
    ensures x == Mul(x / d, d) + x % d && 0 <= x % d < d
  {
  }

  lemma QuotientNonneg(n: int, q: int, r: int, d: int)
    requires 0 <= n && n == Mul(q, d) + r && 0 <= r < d
    ensures q >= 0
  {
    if q < 0 {
      MulLe(q, -1, d);
    }
  }

  lemma Product(x: int, y: int)
    ensures Mul(x, y) == x * y
  {
  }
}
