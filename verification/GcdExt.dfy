/** mpz_gcdext: the binary extended greatest common divisor. */
module GcdExt {
  import opened Arith
  import opened PowersOfTwo
  import Limbs

  ghost predicate Divides(d: int, n: int) {
    exists k: int :: Mul(d, k) == n
  }

  lemma DividesBy(d: int, k: int, n: int)
    requires Mul(d, k) == n
    ensures Divides(d, n)
  {
  }

  /** A common divisor that is an integer combination is the greatest: every other divides it. */
  lemma CombinationIsGreatest(g: int, s: int, t: int, u: int, v: int, c: int)
    requires g == Mul(s, u) + Mul(t, v) && Divides(c, u) && Divides(c, v)
    ensures Divides(c, g)
  {
    var i: int :| Mul(c, i) == u;
    var j: int :| Mul(c, j) == v;
    assert g == c * (s * i + t * j) by {
      assert s * (c * i) + t * (c * j) == c * (s * i + t * j);
    }
    DividesBy(c, s * i + t * j, g);
  }

  function OddPart(n: nat): nat {
    if n == 0 || n % 2 == 1 then n else OddPart(n / 2)
  }

  /** mpz_make_odd: the number of trailing zero bits, shifted out. */
  method MakeOdd(r: nat) returns (odd: nat, shift: nat)
    requires r > 0
    ensures odd > 0 && odd % 2 == 1 && r == Mul(odd, Pow2(shift))
    ensures odd == OddPart(r) && (r % 2 == 0 ==> odd < r)
  {
    hide Pow2, Mul;
    odd, shift := r, 0;
    TimesPow2(odd, 0);
    while odd % 2 == 0
      invariant odd > 0 && r == Mul(odd, Pow2(shift)) && odd <= r && (shift > 0 ==> odd < r)
                && OddPart(odd) == OddPart(r)
      decreases odd
    {
      HalfPow2(odd / 2, shift);
      odd, shift := odd / 2, shift + 1;
    }
  }

  lemma TimesPow2(x: int, n: nat)
    ensures Mul(x, Pow2(0)) == x
  {
  }

  lemma HalfPow2(x: int, n: nat)
    ensures Mul(2 * x, Pow2(n)) == Mul(x, Pow2(n + 1))
  {
  }

  /**
   The loop invariant: u and v, with their common power of two taken out, are the
   combinations of tu and tv with coefficients t0, t1 and s0, s1 of determinant 2^power.
   */
  ghost predicate Combines(u: int, v: int, tu: int, tv: int, t0: int, t1: int, s0: int, s1: int, p: int) {
    && u == Mul(t0, tu) + Mul(t1, tv)
    && v == Mul(s0, tu) + Mul(s1, tv)
    && Mul(t0, s1) - Mul(t1, s0) == p
  }

  /** tu is divided by c: its column is multiplied by c. */
  lemma ScaleFirst(u: int, v: int, tu: int, tv: int, t0: int, t1: int, s0: int, s1: int, p: int, odd: int, c: int)
    requires Combines(u, v, tu, tv, t0, t1, s0, s1, p) && tu == Mul(odd, c)
    ensures Combines(u, v, odd, tv, Mul(t0, c), t1, Mul(s0, c), s1, Mul(p, c))
  {
    assert (t0 * c) * odd == t0 * (odd * c) && (s0 * c) * odd == s0 * (odd * c);
    assert (t0 * c) * s1 - t1 * (s0 * c) == (t0 * s1 - t1 * s0) * c;
  }

  lemma ScaleSecond(u: int, v: int, tu: int, tv: int, t0: int, t1: int, s0: int, s1: int, p: int, odd: int, c: int)
    requires Combines(u, v, tu, tv, t0, t1, s0, s1, p) && tv == Mul(odd, c)
    ensures Combines(u, v, tu, odd, t0, Mul(t1, c), s0, Mul(s1, c), Mul(p, c))
  {
    assert (t1 * c) * odd == t1 * (odd * c) && (s1 * c) * odd == s1 * (odd * c);
    assert t0 * (s1 * c) - (t1 * c) * s0 == (t0 * s1 - t1 * s0) * c;
  }

  /** tv loses tu: its column is added to that of tu. */
  lemma SubtractFirst(u: int, v: int, tu: int, tv: int, t0: int, t1: int, s0: int, s1: int, p: int)
    requires Combines(u, v, tu, tv, t0, t1, s0, s1, p)
    ensures Combines(u, v, tu, tv - tu, t0 + t1, t1, s0 + s1, s1, p)
  {
  }

  lemma SubtractSecond(u: int, v: int, tu: int, tv: int, t0: int, t1: int, s0: int, s1: int, p: int)
    requires Combines(u, v, tu, tv, t0, t1, s0, s1, p)
    ensures Combines(u, v, tu - tv, tv, t0, t0 + t1, s0, s0 + s1, p)
  {
  }

  lemma Positive(x: int, y: int)
    requires x > 0 && y > 0
    ensures Mul(x, y) > 0
  {
    MulLe(1, x, y);
  }

  lemma NonnegativeScale(x: int, c: int)
    requires x >= 0 && c > 0
    ensures Mul(x, c) >= 0
  {
    MulPos(x, c);
  }

  /** The coefficients before the first subtraction: u == 2^uz * (tu' + q*tv) and v == 2^vz * tv. */
  lemma FirstDivision(tu: int, tv: int, q: int, r: int, cu: int, cv: int)
    requires tu == Mul(q, tv) + r
    ensures Combines(Mul(tu, cu), Mul(tv, cv), r, tv, cu, Mul(q, cu), 0, cv, Mul(cu, cv))
  {
    assert (q * tv + r) * cu == cu * r + (q * cu) * tv;
  }

  lemma ScalePower(c: nat, d: nat)
    ensures Mul(Pow2(c), Pow2(d)) == Pow2(c + d)
  {
    Pow2Add(c, d);
  }

  /**
   At the end both remainders are the odd part g of the gcd, or one is zero: then g
   divides u and v with quotients a and b, and 2^power combines a and b.
   */
  lemma Finished(u: int, v: int, tu: int, tv: int, t0: int, t1: int, s0: int, s1: int, p: int) returns (a: int, b: int)
    requires Combines(u, v, tu, tv, t0, t1, s0, s1, p) && (tu == tv || (tu == 0 && s0 == 0)) && tv > 0
    requires 0 <= s0 && 0 <= s1
    ensures u == Mul(a, tv) && v == Mul(b, tv)
    ensures Mul(-s0, a) + Mul(t0, b) == p
    ensures 0 <= s0 <= b
  {
    if tu == 0 {
      a, b := t1, s1;
    } else {
      a, b := t0 + t1, s0 + s1;
    }
  }

  /** The subtraction loop of mpz_gcdext, from the odd parts tu0, tv0 and the remaining powers of two uz, vz. */
  method Cofactors(tu0: nat, tv0: nat, uz: nat, vz: nat)
    returns (g: nat, s0: int, t0: int, power: nat, ghost a: int, ghost b: int)
    requires tu0 > 0 && tv0 > 0 && tv0 % 2 == 1
    ensures g > 0 && Mul(tu0, Pow2(uz)) == Mul(a, g) && Mul(tv0, Pow2(vz)) == Mul(b, g)
    ensures Mul(-s0, a) + Mul(t0, b) == Pow2(power)
    ensures 0 <= s0 <= b
  {
    hide Mul, Pow2, Combines;
    var tu, tv: nat := tu0, tv0;
    ghost var u, v := Mul(tu, Pow2(uz)), Mul(tv, Pow2(vz));
    t0 := Pow2(uz);
    var q;
    q, tu := DivideBy(tu, tv);
    FirstDivision(tu0, tv0, q, tu, Pow2(uz), Pow2(vz));
    Product(q, Pow2(uz));
    var t1 := q * Pow2(uz);
    var s1 := Pow2(vz);
    s0 := 0;
    power := uz + vz;
    ScalePower(uz, vz);
    if tu > 0 {
      var shift;
      tu, t0, s0, shift := Shift(u, v, tu, tv, t0, t1, s0, s1, power);
      power := power + shift;
      while tu != tv
        invariant tu > 0 && tv > 0 && tu % 2 == 1 && tv % 2 == 1
        invariant Combines(u, v, tu, tv, t0, t1, s0, s1, Pow2(power)) && 0 <= s0 && 0 <= s1
        decreases tu + tv
      {
        if tu < tv {
          SubtractFirst(u, v, tu, tv, t0, t1, s0, s1, Pow2(power));
          tv, t0, s0 := tv - tu, t0 + t1, s0 + s1;
          tv, t1, s1, shift := ShiftSecond(u, v, tu, tv, t0, t1, s0, s1, power);
        } else {
          SubtractSecond(u, v, tu, tv, t0, t1, s0, s1, Pow2(power));
          tu, t1, s1 := tu - tv, t0 + t1, s0 + s1;
          tu, t0, s0, shift := Shift(u, v, tu, tv, t0, t1, s0, s1, power);
        }
        power := power + shift;
      }
    }
    a, b := Finished(u, v, tu, tv, t0, t1, s0, s1, Pow2(power));
    g := tv;
  }

  /** mpz_tdiv_qr on positive numbers. */
  method DivideBy(x: nat, y: nat) returns (q: nat, r: nat)
    requires y > 0
    ensures x == Mul(q, y) + r && r < y
  {
    DivMod(x, y);
    QuotientNonneg(x, x / y, x % y, y);
    q, r := x / y, x % y;
  }

  /** Take the factors of two out of tu and put them on its coefficients. */
  method Shift(ghost u: int, ghost v: int, tu: nat, ghost tv: int, t0: int, ghost t1: int, s0: int, ghost s1: int,
               ghost power: nat)
    returns (odd: nat, t0': int, s0': int, shift: nat)
    requires tu > 0 && Combines(u, v, tu, tv, t0, t1, s0, s1, Pow2(power)) && 0 <= s0
    ensures odd > 0 && odd % 2 == 1 && odd <= tu && (tu % 2 == 0 ==> odd < tu)
    ensures Combines(u, v, odd, tv, t0', t1, s0', s1, Pow2(power + shift)) && 0 <= s0' && (s0 == 0 ==> s0' == 0)
  {
    hide Mul, Pow2, Combines;
    odd, shift := MakeOdd(tu);
    OddPartSmaller(odd, Pow2(shift), tu);
    ScaleFirst(u, v, tu, tv, t0, t1, s0, s1, Pow2(power), odd, Pow2(shift));
    ScalePower(power, shift);
    Product(t0, Pow2(shift));
    Product(s0, Pow2(shift));
    NonnegativeScale(s0, Pow2(shift));
    t0', s0' := t0 * Pow2(shift), s0 * Pow2(shift);
  }

  method ShiftSecond(ghost u: int, ghost v: int, ghost tu: int, tv: nat, ghost t0: int, t1: int, ghost s0: int,
                     s1: int, ghost power: nat)
    returns (odd: nat, t1': int, s1': int, shift: nat)
    requires tv > 0 && Combines(u, v, tu, tv, t0, t1, s0, s1, Pow2(power)) && 0 <= s1
    ensures odd > 0 && odd % 2 == 1 && odd <= tv && (tv % 2 == 0 ==> odd < tv)
    ensures Combines(u, v, tu, odd, t0, t1', s0, s1', Pow2(power + shift)) && 0 <= s1'
  {
    hide Mul, Pow2, Combines;
    odd, shift := MakeOdd(tv);
    OddPartSmaller(odd, Pow2(shift), tv);
    ScaleSecond(u, v, tu, tv, t0, t1, s0, s1, Pow2(power), odd, Pow2(shift));
    ScalePower(power, shift);
    Product(t1, Pow2(shift));
    Product(s1, Pow2(shift));
    NonnegativeScale(s1, Pow2(shift));
    t1', s1' := t1 * Pow2(shift), s1 * Pow2(shift);
  }

  lemma OddPartSmaller(odd: int, c: int, n: int)
    requires odd > 0 && c > 0 && n == Mul(odd, c)
    ensures odd <= n
  {
    MulLe(1, c, odd);
  }

  // ----- halving

  lemma ProductParity(x: int, y: int)
    ensures Mul(x, y) % 2 == (if x % 2 == 1 && y % 2 == 1 then 1 else 0)
  {
    var i, j := x / 2, y / 2;
    var r, q := x % 2, y % 2;
    assert x * y == 2 * (i * y + r * j) + r * q by {
      assert x == 2 * i + r && y == 2 * j + q;
    }
  }

  /** One halving: after the adjustment both cofactors are even. */
  lemma HalveStep(s0: int, t0: int, a: int, b: int, k: nat)
    requires k > 0 && Mul(s0, a) + Mul(t0, b) == Pow2(k) && (a % 2 == 1 || b % 2 == 1)
    ensures var odd := s0 % 2 == 1 || t0 % 2 == 1;
            var s, t := if odd then s0 - b else s0, if odd then t0 + a else t0;
            s % 2 == 0 && t % 2 == 0 && Mul(s / 2, a) + Mul(t / 2, b) == Pow2(k - 1)
  {
    hide Mul;
    ProductParity(s0, a);
    ProductParity(t0, b);
    var odd := s0 % 2 == 1 || t0 % 2 == 1;
    var s, t := if odd then s0 - b else s0, if odd then t0 + a else t0;
    ExchangeCofactors(s0, t0, a, b);
    HalfProduct(s / 2, a, s);
    HalfProduct(t / 2, b, t);
  }

  lemma HalfProduct(h: int, x: int, y: int)
    requires y == 2 * h
    ensures Mul(y, x) == 2 * Mul(h, x)
  {
  }

  lemma ExchangeCofactors(s0: int, t0: int, a: int, b: int)
    ensures Mul(s0 - b, a) + Mul(t0 + a, b) == Mul(s0, a) + Mul(t0, b)
    ensures Mul(s0 + b, a) + Mul(t0 - a, b) == Mul(s0, a) + Mul(t0, b)
  {
  }

  /** The halving loop and the final choice of the smaller cofactor. */
  method Halve(s: int, t: int, a: int, b: int, power: nat) returns (s0: int, t0: int)
    requires Mul(s, a) + Mul(t, b) == Pow2(power) && (a % 2 == 1 || b % 2 == 1) && -b <= s <= 0
    ensures Mul(s0, a) + Mul(t0, b) == 1
    ensures 2 * Abs(s0) <= b && (b > 0 ==> (2 * Abs(s0) == b <==> b == 2))
  {
    hide Mul, Pow2;
    s0, t0 := s, t;
    var k := power;
    while k > 0
      invariant Mul(s0, a) + Mul(t0, b) == Pow2(k) && -b <= s0 <= 0
    {
      HalveStep(s0, t0, a, b, k);
      if s0 % 2 == 1 || t0 % 2 == 1 {
        s0, t0 := s0 - b, t0 + a;
      }
      s0, t0, k := s0 / 2, t0 / 2, k - 1;
    }
    TimesPow2(1, 0);
    ExchangeCofactors(s0, t0, a, b);
    var s1 := s0 + b;
    if Abs(s0) > Abs(s1) {
      s0, t0 := s1, t0 - a;
    }
    PowZero();
    if b > 0 {
      HalfOnlyOfTwo(s0, t0, a, b);
    }
  }

  /** The smaller cofactor is exactly half the other quotient only if that is two. */
  lemma HalfOnlyOfTwo(s: int, t: int, a: int, b: int)
    requires Mul(s, a) + Mul(t, b) == 1 && 2 * Abs(s) <= b && b > 0
    ensures 2 * Abs(s) == b <==> b == 2
  {
    if b == 2 {
      ProductParity(s, a);
    } else if 2 * Abs(s) == b {
      var k := if s < 0 then a - 2 * t else a + 2 * t;
      assert s * k == 1 by {
        assert s * a + t * b == s * (if s < 0 then a - 2 * t else a + 2 * t);
      }
      assert !(1 < Abs(s)) by {
        if 1 < Abs(s) {
          FactorOfOne(s, k);
        }
      }
    }
  }

  lemma FactorOfOne(x: int, k: int)
    requires x * k == 1
    ensures -1 <= x <= 1
  {
    if x > 1 {
      if k <= 0 { MulLe(k, 0, x); } else { MulLe(1, k, x); }
    } else if x < -1 {
      if k >= 0 { MulLe(0, k, -x); } else { MulLe(k, -1, -x); }
    }
  }

  lemma PowZero()
    ensures Pow2(0) == 1
  {
  }

  // ----- the whole function

  /** The limb count that mpz_gcdext compares to decide which operand is divided first. */
  function LimbCount(n: nat): nat {
    if n == 0 then 0 else 1 + LimbCount(n / Limbs.B)
  }

  /** Putting the common power of two back: u == a*g and v == b*g, with a or b odd. */
  lemma Restore(u: nat, tu: nat, uz: nat, gz: nat, a: int, g: nat)
    requires u == Mul(tu, Pow2(uz + gz)) && Mul(tu, Pow2(uz)) == Mul(a, g)
    ensures u == Mul(a, Mul(g, Pow2(gz)))
  {
    Pow2Add(uz, gz);
    assert tu * (Pow2(uz) * Pow2(gz)) == (tu * Pow2(uz)) * Pow2(gz);
    assert (a * g) * Pow2(gz) == a * (g * Pow2(gz));
  }

  lemma OddQuotient(tu: nat, a: int, g: nat)
    requires tu % 2 == 1 && Mul(tu, Pow2(0)) == Mul(a, g)
    ensures a % 2 == 1
  {
    hide Mul;
    TimesPow2(tu, 0);
    ProductParity(a, g);
  }

  /** mpz_divexact. */
  lemma ExactQuotient(u: int, a: int, g: int)
    requires g > 0 && u == Mul(a, g)
    ensures u / g == a
  {
    DivIs(u, a, 0, g);
  }

  lemma ScaleIdentity(s: int, t: int, a: int, b: int, g: int, u: int, v: int)
    requires Mul(s, a) + Mul(t, b) == 1 && u == Mul(a, g) && v == Mul(b, g)
    ensures g == Mul(s, u) + Mul(t, v)
  {
    assert (s * a + t * b) * g == s * (a * g) + t * (b * g);
  }

  /** The cofactor c of one operand is at most half of n, the other one, over g, and less unless n is 2*g. */
  ghost predicate Small(c: int, g: int, n: int) {
    2 * Mul(Abs(c), g) <= n && (2 * Mul(Abs(c), g) < n <==> n != 2 * g)
  }

  /** mpz_gcdext exchanges its operands if the odd part of u has fewer limbs. */
  predicate Exchanged(u: nat, v: nat) {
    LimbCount(OddPart(u)) < LimbCount(OddPart(v))
  }

  /** The main branch, for positive u and v. */
  method GcdExtPositive(u: nat, v: nat) returns (g: nat, s: int, t: int)
    requires u > 0 && v > 0
    ensures g > 0 && Divides(g, u) && Divides(g, v) && g == Mul(s, u) + Mul(t, v)
    ensures if Exchanged(u, v) then Small(t, g, u) else Small(s, g, v)
  {
    hide Mul, Pow2, Divides, LimbCount, OddPart, Small;
    var tu, uz := MakeOdd(u);
    var tv, vz := MakeOdd(v);
    var gz := if uz < vz then uz else vz;
    if LimbCount(tu) < LimbCount(tv) {
      g, t, s := GcdExtOdd(v, u, tv, tu, vz - gz, uz - gz, gz);
    } else {
      g, s, t := GcdExtOdd(u, v, tu, tv, uz - gz, vz - gz, gz);
    }
  }

  /** From the odd parts on; u and v may have changed places. */
  method GcdExtOdd(u: nat, v: nat, tu: nat, tv: nat, uz: nat, vz: nat, gz: nat) returns (g: nat, s: int, t: int)
    requires u == Mul(tu, Pow2(uz + gz)) && v == Mul(tv, Pow2(vz + gz)) && (uz == 0 || vz == 0)
    requires tu > 0 && tv > 0 && tu % 2 == 1 && tv % 2 == 1
    ensures g > 0 && Divides(g, u) && Divides(g, v) && g == Mul(s, u) + Mul(t, v)
    ensures Small(s, g, v)
  {
    hide Mul, Pow2, Divides, Small;
    var odd, s0, t0, power;
    ghost var a, b;
    odd, s0, t0, power, a, b := Cofactors(tu, tv, uz, vz);
    Positive(odd, Pow2(gz));
    Product(odd, Pow2(gz));
    g := odd * Pow2(gz);
    Restore(u, tu, uz, gz, a, odd);
    Restore(v, tv, vz, gz, b, odd);
    if uz == 0 { OddQuotient(tu, a, odd); } else { OddQuotient(tv, b, odd); }
    ExactQuotient(u, a, g);
    ExactQuotient(v, b, g);
    s, t := Halve(-s0, t0, u / g, v / g, power);
    ScaleIdentity(s, t, a, b, g, u, v);
    CommuteDivides(a, g, u);
    CommuteDivides(b, g, v);
    Positive(tv, Pow2(vz + gz));
    SmallCofactor(s, b, g, v);
  }

  lemma CommuteDivides(a: int, g: int, u: int)
    requires u == Mul(a, g)
    ensures Divides(g, u)
  {
    DividesBy(g, a, u);
  }

  lemma SmallCofactor(s: int, b: int, g: int, v: int)
    requires 2 * Abs(s) <= b && (b > 0 ==> (2 * Abs(s) == b <==> b == 2)) && v == Mul(b, g) && g > 0 && v > 0
    ensures Small(s, g, v)
  {
    var c := 2 * Abs(s);
    assert 2 * Mul(Abs(s), g) == c * g;
    MulLe(c, b, g);
    if b <= 0 {
      MulLe(b, 0, g);
    } else if b == 2 {
      assert c == b;
    } else {
      MulLe(c + 1, b, g);
      if b < 2 { MulLe(b, 1, g); } else { MulLe(3, b, g); }
    }
  }

  /**
   mpz_gcdext: g is a common divisor of u and v and equals s*u + t*v; the cofactor of the
   operand divided first is small.
   */
  method Gcdext(u: int, v: int) returns (g: int, s: int, t: int)
    ensures g >= 0 && (g == 0 <==> u == 0 && v == 0)
    ensures Divides(g, u) && Divides(g, v)
    ensures g == Mul(s, u) + Mul(t, v)
    ensures u != 0 && v != 0 ==> if Exchanged(Abs(u), Abs(v)) then Small(t, g, Abs(u)) else Small(s, g, Abs(v))
  {
    hide Mul, Divides, Exchanged, Small;
    if u == 0 {
      g, s, t := Abs(v), 0, if v > 0 then 1 else if v < 0 then -1 else 0;
      SignProduct(t, v);
      ZeroProduct(u, v);
      DividesBy(g, 0, u);
      DividesBy(g, t, v);
    } else if v == 0 {
      g, s, t := Abs(u), if u > 0 then 1 else -1, 0;
      SignProduct(s, u);
      ZeroProduct(v, u);
      DividesBy(g, s, u);
      DividesBy(g, 0, v);
    } else {
      g, s, t := GcdExtPositive(Abs(u), Abs(v));
      DividesAbs(g, u);
      DividesAbs(g, v);
      SmallSign(s, g, Abs(v));
      SmallSign(t, g, Abs(u));
      if u < 0 { NegateBoth(s, u); s := -s; }
      if v < 0 { NegateBoth(t, v); t := -t; }
    }
  }

  lemma SmallSign(c: int, g: int, n: int)
    ensures Small(-c, g, n) == Small(c, g, n)
  {
  }

  /**
   The comment in the source names u as the bound of s: that holds if v is not the larger
   operand, since s is small compared to v.
   */
  lemma AnnouncedHolds(u: int, v: int, g: int, s: int, t: int)
    requires u != 0 && 0 < Abs(v) <= Abs(u) && g > 0 && Divides(g, u) && g == Mul(s, u) + Mul(t, v)
             && Small(s, g, Abs(v))
    ensures 2 * Mul(Abs(s), g) < Abs(u)
  {
    hide Mul, Divides;
    if Abs(v) == Abs(u) && Abs(u) == 2 * g {
      var k := if v == u then s + t else s - t;
      SameOperand(s, t, u, v);
      HalfOfMultiple(g, k, u);
    }
  }

  lemma SameOperand(s: int, t: int, u: int, v: int)
    requires Abs(u) == Abs(v)
    ensures Mul(s, u) + Mul(t, v) == Mul(if v == u then s + t else s - t, u)
  {
    if v != u {
      assert v == -u;
    }
  }

  lemma HalfOfMultiple(g: int, k: int, u: int)
    requires g > 0 && Abs(u) == 2 * g
    ensures g != Mul(k, u)
  {
    if u > 0 {
      if k <= 0 { MulLe(k, 0, u); } else { MulLe(1, k, u); }
    } else {
      if k >= 0 { MulLe(0, k, -u); } else { MulLe(k, -1, -u); }
    }
  }

  /** For u = 2 and v = 5 no cofactor meets that bound. */
  lemma AnnouncedFails(s: int, t: int)
    requires Mul(s, 2) + Mul(t, 5) == 1
    ensures !Exchanged(2, 5) && 2 * Mul(Abs(s), 1) >= 2
  {
    assert s != 0;
    assert OddPart(2) == 1 && LimbCount(1) == 1 && LimbCount(5) == 1;
  }

  lemma SignProduct(t: int, v: int)
    requires t == if v > 0 then 1 else if v < 0 then -1 else 0
    ensures Mul(t, v) == Abs(v) && Mul(Abs(v), t) == v
  {
  }

  lemma ZeroProduct(z: int, y: int)
    requires z == 0
    ensures Mul(0, z) == 0 && Mul(Abs(y), 0) == z
  {
  }

  lemma NegateBoth(s: int, u: int)
    ensures Mul(-s, u) == Mul(s, -u)
  {
  }

  lemma DividesAbs(g: int, u: int)
    requires Divides(g, Abs(u))
    ensures Divides(g, u)
  {
    var k: int :| Mul(g, k) == Abs(u);
    DividesBy(g, if u < 0 then -k else k, u);
  }
}
