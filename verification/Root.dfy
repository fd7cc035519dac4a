/** mpz_rootrem: integer roots by Newton's iteration under truncating division. */
module Root {
  import opened Arith
  import opened PowersOfTwo

  function Exp(x: int, n: nat): int {
    if n == 0 then 1 else x * Exp(x, n - 1)
  }

  /** Division of naturals, with what it guarantees. */
  function FloorDiv(n: nat, d: nat): (q: nat)
    requires d > 0
    ensures Mul(q, d) <= n < Mul(q, d) + d
  {
    DivMod(n, d);
    QuotientNonneg(n, n / d, n % d, d);
    n / d
  }

  /** mpz_tdiv_q: division truncating towards zero. */
  function TruncDiv(n: int, d: int): int
    requires d != 0
  {
    var q: int := FloorDiv(Abs(n), Abs(d));
    if (n < 0) == (d < 0) then q else -q
  }

  /** mpz_sizeinbase(y, 2) for y > 0: the number of binary digits. */
  function BitLength(n: nat): (b: nat)
    ensures n < Pow2(b)
  {
    if n == 0 then 0 else 1 + BitLength(n / 2)
  }

  lemma {:induction false} ExpPositive(x: int, n: nat)
    requires x >= 1
    ensures Exp(x, n) >= 1
  {
    if n != 0 {
      ExpPositive(x, n - 1);
      MulLe(1, x, Exp(x, n - 1));
    }
  }

  lemma {:induction false} ExpMono(x: int, y: int, n: nat)
    requires 0 <= x <= y
    ensures 0 <= Exp(x, n) <= Exp(y, n)
  {
    if n != 0 {
      ExpMono(x, y, n - 1);
      MulLe(x, y, Exp(x, n - 1));
      MulLe(Exp(x, n - 1), Exp(y, n - 1), y);
      MulPos(x, Exp(x, n - 1));
    }
  }

  /** The sign of a power: odd powers keep the sign, even powers lose it. */
  lemma {:induction false} ExpNegate(x: int, n: nat)
    ensures Exp(-x, n) == if n % 2 == 0 then Exp(x, n) else -Exp(x, n)
  {
    if n != 0 {
      ExpNegate(x, n - 1);
    }
  }

  lemma {:induction false} ExpOfPow2(k: nat, n: nat)
    ensures Exp(Pow2(k), n) == Pow2(k * n)
  {
    if n != 0 {
      ExpOfPow2(k, n - 1);
      Pow2Add(k, k * (n - 1));
      assert k * n == k + k * (n - 1);
    } else {
      assert k * 0 == 0;
    }
  }

  /**
   The inequality of the arithmetic and geometric means that Newton's step rests on,
   for one x and z - 1 copies of y: z*x*y^(z-1) <= x^z + (z-1)*y^z.
   */
  lemma {:induction false} MeanInequality(x: int, y: int, z: nat)
    requires x >= 0 && y >= 0 && z >= 1
    ensures z * (x * Exp(y, z - 1)) <= Exp(x, z) + (z - 1) * Exp(y, z)
  {
    if z == 1 {
      assert Exp(x, 1) == x * Exp(x, 0) && Exp(y, 0) == 1;
    } else {
      MeanInequality(x, y, z - 1);
      ExpMono(0, y, z - 2);
      MeanStep(x, y, z - 1, Exp(x, z - 1), Exp(y, z - 2), Exp(y, z - 1), Exp(y, z));
    }
  }

  lemma MeanStep(x: int, y: int, k: int, ex: int, e0: int, e1: int, e2: int)
    requires x >= 0 && k >= 1 && e0 >= 0 && e1 == y * e0 && e2 == y * e1
    requires k * (x * e0) <= ex + (k - 1) * e1
    ensures (k + 1) * (x * e1) <= x * ex + k * e2
  {
    var sq := (x - y) * (x - y);
    MulPos(k, e0);
    MulPos(k * e0, sq);
    MulLe(k * (x * e0), ex + (k - 1) * e1, x);
    MeanSquare(x, y, k, e0, e1, e2, sq);
    assert (ex + (k - 1) * e1) * x == x * ex + (k - 1) * (x * e1);
  }

  lemma MeanSquare(x: int, y: int, k: int, e0: int, e1: int, e2: int, sq: int)
    requires sq == (x - y) * (x - y) && e1 == y * e0 && e2 == y * e1
    ensures (k * e0) * sq == (k * (x * e0)) * x - 2 * k * (x * e1) + k * e2
  {
    assert e0 * sq == (x * e0) * x - 2 * (x * (y * e0)) + y * (y * e0);
  }

  /** One Newton step on magnitudes. */
  ghost function Step(a: nat, u: nat, z: nat): (t: nat)
    requires u >= 1 && z >= 1
  {
    ExpPositive(u, z - 1);
    MulPos(u, z - 1);
    FloorDiv(FloorDiv(a, Exp(u, z - 1)) + Mul(u, z - 1), z)
  }

  /** A step never falls below the root. */
  lemma StepAbove(a: nat, u: nat, z: nat)
    requires u >= 1 && z >= 1
    ensures a < Exp(Step(a, u, z) + 1, z)
  {
    hide Exp, FloorDiv, Mul;
    ExpPositive(u, z - 1);
    var w, t := Exp(u, z - 1), Step(a, u, z);
    MeanInequality(t + 1, u, z);
    ExpUnfold(u, z);
    StepAboveAlgebra(a, u, z, w, FloorDiv(a, w), t, Exp(u, z), Exp(t + 1, z));
  }

  lemma ExpUnfold(x: int, n: nat)
    requires n >= 1
    ensures Exp(x, n) == x * Exp(x, n - 1)
  {
  }

  lemma StepAboveAlgebra(a: int, u: int, z: int, w: int, q: int, t: int, uz: int, tz: int)
    requires w >= 1 && z >= 1 && a < Mul(q, w) + w && q + Mul(u, z - 1) < Mul(t, z) + z
    requires uz == u * w && z * ((t + 1) * w) <= tz + (z - 1) * uz
    ensures a < tz
  {
    MulLe(q + 1 + u * (z - 1), z * (t + 1), w);
    assert (q + 1 + u * (z - 1)) * w == (q + 1) * w + (z - 1) * (u * w);
    Assoc(z, t + 1, w);
  }

  /** A step that does not go down has reached the root. */
  lemma StepStops(a: nat, u: nat, z: nat)
    requires u >= 1 && z >= 1 && Step(a, u, z) >= u
    ensures Exp(u, z) <= a
  {
    hide Exp, FloorDiv, Mul;
    ExpPositive(u, z - 1);
    ExpUnfold(u, z);
    StepStopsAlgebra(a, u, z, Exp(u, z - 1), FloorDiv(a, Exp(u, z - 1)), Step(a, u, z));
  }

  lemma StepStopsAlgebra(a: int, u: int, z: int, w: int, q: int, t: int)
    requires w >= 1 && z >= 1 && Mul(q, w) <= a && Mul(t, z) <= q + Mul(u, z - 1) && u <= t
    ensures u * w <= a
  {
    MulLe(u, t, z);
    MulLe(u, q, w);
  }

  /** The initial over-estimate 2^(bits/z + 1). */
  lemma StartAbove(a: nat, z: nat)
    requires a >= 1 && z >= 1
    ensures var u := Pow2(FloorDiv(BitLength(a), z) + 1); a < Exp(u + 1, z)
  {
    hide FloorDiv, Exp, Pow2, BitLength;
    var k := FloorDiv(BitLength(a), z) + 1;
    ExpOfPow2(k, z);
    assert BitLength(a) <= k * z;
    Pow2Mono(BitLength(a), k * z);
    ExpMono(Pow2(k), Pow2(k) + 1, z);
  }

  /** The next iterate as mpz_rootrem computes it, for a root other than the square root. */
  function NextIterate(y: int, u: int, z: nat): int
    requires z >= 1 && Exp(u, z - 1) != 0
  {
    TruncDiv(TruncDiv(y, Exp(u, z - 1)) + u * (z - 1), z)
  }

  /** Signed iterates mirror the magnitudes. */
  lemma NextMagnitude(y: int, u: int, z: nat)
    requires z >= 1 && u != 0 && (y < 0 ==> z % 2 == 1) && (u < 0) == (y < 0)
    ensures Exp(u, z - 1) != 0
    ensures var t: int := Step(Abs(y), Abs(u), z); NextIterate(y, u, z) == if y < 0 then -t else t
  {
    hide Exp, FloorDiv;
    ExpPositive(Abs(u), z - 1);
    MulPos(Abs(u), z - 1);
    if y < 0 {
      ExpNegate(Abs(u), z - 1);
      assert u * (z - 1) == -(Abs(u) * (z - 1));
    }
  }

  /**
   mpz_rootrem: x is the z-th root of y truncated towards zero and r what is left.
   The source aborts on z == 0 and on an even root of a negative number.
   */
  method RootRem(y: int, z: nat) returns (x: int, r: int)
    requires z >= 1 && (y < 0 ==> z % 2 == 1)
    ensures Exp(Abs(x), z) <= Abs(y) < Exp(Abs(x) + 1, z)
    ensures x != 0 ==> (x < 0) == (y < 0)
    ensures y == Exp(x, z) + r
  {
    hide Exp, TruncDiv, Step, FloorDiv, Pow2, BitLength;
    if Abs(y) <= 1 {
      ExpSmall(y, z);
      return y, 0;
    }
    var t: int := Pow2(FloorDiv(BitLength(Abs(y)), z) + 1);
    StartAbove(Abs(y), z);
    if z == 2 {
      x := SquareRootLoop(y, t);
    } else {
      x := RootLoop(y, z, if y < 0 then -t else t);
    }
    ExpNegate(Abs(x), z);
    r := y - Exp(x, z);
  }

  lemma {:induction false} ExpSmall(y: int, n: nat)
    requires n >= 1 && -1 <= y <= 1 && (y < 0 ==> n % 2 == 1)
    ensures Exp(y, n) == y && Exp(Abs(y), n) == Abs(y) && Abs(y) < Exp(Abs(y) + 1, n)
    decreases n
  {
    if n > 1 {
      ExpSmall(Abs(y), n - 1);
      ExpMono(0, Abs(y) + 1, n - 1);
      MulLe(1, Abs(y) + 1, Exp(Abs(y) + 1, n - 1));
      ExpNegate(1, n);
    } else {
      assert Exp(y, 1) == y * Exp(y, 0);
      assert Exp(Abs(y), 1) == Abs(y) * Exp(Abs(y), 0) && Exp(Abs(y) + 1, 1) == (Abs(y) + 1) * Exp(Abs(y) + 1, 0);
    }
  }

  lemma RootPositive(a: nat, t: nat, z: nat)
    requires a >= 2 && z >= 1 && a < Exp(t + 1, z)
    ensures t >= 1
  {
    if t == 0 {
      ExpSmall(1, z);
    }
  }

  /** The loop for z == 2, where z - 1 == 1 saves the power. */
  method SquareRootLoop(y: int, t0: int) returns (u: int)
    requires y >= 2 && t0 >= 1 && y < Exp(t0 + 1, 2)
    ensures u >= 1 && Exp(u, 2) <= y < Exp(u + 1, 2)
  {
    hide Exp, Step, FloorDiv, TruncDiv;
    u := t0;
    SquareStep(y, u);
    var t := TruncDiv(TruncDiv(y, u) + u, 2);
    StepAbove(y, u, 2);
    while Abs(t) < Abs(u)
      invariant u >= 1 && y < Exp(u + 1, 2)
      invariant t == Step(y, u, 2) && y < Exp(t + 1, 2)
      decreases u
    {
      RootPositive(y, t, 2);
      u := t;
      SquareStep(y, u);
      t := TruncDiv(TruncDiv(y, u) + u, 2);
      StepAbove(y, u, 2);
    }
    StepStops(y, u, 2);
  }

  lemma SquareStep(y: nat, u: nat)
    requires u >= 1
    ensures TruncDiv(TruncDiv(y, u) + u, 2) == Step(y, u, 2)
  {
    assert Exp(u, 1) == u * Exp(u, 0) == u;
  }

  /** The general loop. */
  method RootLoop(y: int, z: nat, t0: int) returns (u: int)
    requires z >= 1 && Abs(y) >= 2 && (y < 0 ==> z % 2 == 1)
    requires t0 != 0 && (t0 < 0) == (y < 0) && Abs(y) < Exp(Abs(t0) + 1, z)
    ensures u != 0 && (u < 0) == (y < 0)
    ensures Exp(Abs(u), z) <= Abs(y) < Exp(Abs(u) + 1, z)
  {
    hide Exp, TruncDiv, Step, FloorDiv;
    u := t0;
    NextMagnitude(y, u, z);
    var t := TruncDiv(TruncDiv(y, Exp(u, z - 1)) + u * (z - 1), z);
    StepAbove(Abs(y), Abs(u), z);
    while Abs(t) < Abs(u)
      invariant u != 0 && (u < 0) == (y < 0) && Abs(y) < Exp(Abs(u) + 1, z)
      invariant Abs(t) == Step(Abs(y), Abs(u), z) && Abs(y) < Exp(Abs(t) + 1, z)
      invariant t != 0 ==> (t < 0) == (y < 0)
      decreases Abs(u)
    {
      RootPositive(Abs(y), Abs(t), z);
      u := t;
      NextMagnitude(y, u, z);
      t := TruncDiv(TruncDiv(y, Exp(u, z - 1)) + u * (z - 1), z);
      StepAbove(Abs(y), Abs(u), z);
    }
    StepStops(Abs(y), Abs(u), z);
  }

  /** The root is unique, so the bounds that RootRem ensures determine it. */
  lemma RootUnique(a: nat, z: nat, x1: nat, x2: nat)
    requires z >= 1 && Exp(x1, z) <= a < Exp(x1 + 1, z) && Exp(x2, z) <= a < Exp(x2 + 1, z)
    ensures x1 == x2
  {
    if x1 < x2 {
      ExpMono(x1 + 1, x2, z);
    } else if x2 < x1 {
      ExpMono(x2 + 1, x1, z);
    }
  }
}
