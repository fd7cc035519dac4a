/** mpz_gcd, mpz_gcd_ui and mpn_gcd_11: the binary greatest common divisor. */
module Gcd {
  import opened Arith
  import opened PowersOfTwo
  import opened GcdExt
  import opened Bitwise
  import Limbs

  /** The divisors of g are exactly the common divisors of x and y. */
  ghost predicate IsGcd(g: int, x: int, y: int) {
    forall c :: Divides(c, g) <==> Divides(c, x) && Divides(c, y)
  }

  /** Two pairs have the same common divisors. */
  ghost predicate Alike(x: int, y: int, x': int, y': int) {
    forall c :: Divides(c, x) && Divides(c, y) <==> Divides(c, x') && Divides(c, y')
  }

  lemma AlikeGcd(g: int, x: int, y: int, x': int, y': int)
    requires Alike(x, y, x', y') && IsGcd(g, x, y)
    ensures IsGcd(g, x', y') && IsGcd(g, y', x')
  {
    hide Divides;
    assert IsGcd(g, x', y') by {
      forall c ensures Divides(c, g) <==> Divides(c, x') && Divides(c, y') {
        assert Divides(c, g) <==> Divides(c, x) && Divides(c, y);
      }
    }
  }

  lemma GcdOfEqual(x: int)
    ensures IsGcd(x, x, x)
  {
  }

  lemma GcdOfZero(x: int)
    ensures IsGcd(Abs(x), x, 0) && IsGcd(Abs(x), 0, x)
  {
    forall c ensures Divides(c, 0) && (Divides(c, Abs(x)) <==> Divides(c, x)) {
      DividesBy(c, 0, 0);
      AbsDivides(c, x);
    }
  }

  /** Divisors of two numbers divide every combination of them. */
  lemma DividesCombination(c: int, x: int, q: int, y: int)
    requires Divides(c, x) && Divides(c, y)
    ensures Divides(c, x + Mul(q, y))
  {
    var i: int :| Mul(c, i) == x;
    var j: int :| Mul(c, j) == y;
    assert c * (i + q * j) == c * i + q * (c * j);
    DividesBy(c, i + q * j, x + Mul(q, y));
  }

  /** Adding a multiple of y to x keeps the common divisors: the division and the subtraction steps. */
  lemma CombinationAlike(x: int, q: int, y: int)
    ensures Alike(x, y, x + Mul(q, y), y)
  {
    hide Divides;
    var z := x + Mul(q, y);
    assert z + Mul(-q, y) == x;
    forall c ensures Divides(c, x) && Divides(c, y) <==> Divides(c, z) && Divides(c, y) {
      if Divides(c, x) && Divides(c, y) { DividesCombination(c, x, q, y); }
      if Divides(c, z) && Divides(c, y) { DividesCombination(c, z, -q, y); }
    }
  }

  lemma OddDivides(c: int, x: int)
    requires c % 2 == 1 && Divides(c, 2 * x)
    ensures Divides(c, x)
  {
    var k: int :| Mul(c, k) == 2 * x;
    ProductParity(c, k);
    HalfFactor(c, k / 2, k);
    DividesBy(c, k / 2, x);
  }

  lemma HalfFactor(c: int, h: int, k: int)
    requires k == 2 * h
    ensures Mul(c, k) == 2 * Mul(c, h) && Mul(2 * c, h) == 2 * Mul(c, h)
  {
  }

  lemma DividesDouble(c: int, x: int)
    requires Divides(c, x)
    ensures Divides(c, 2 * x) && Divides(2 * c, 2 * x)
  {
    var k: int :| Mul(c, k) == x;
    HalfFactor(c, k, 2 * k);
    DividesBy(c, 2 * k, 2 * x);
    DividesBy(2 * c, k, 2 * x);
  }

  lemma DividesHalf(c: int, x: int)
    requires Divides(2 * c, 2 * x)
    ensures Divides(c, x)
  {
    var k: int :| Mul(2 * c, k) == 2 * x;
    HalfFactor(c, k, 2 * k);
    DividesBy(c, k, x);
  }

  lemma OddOnlyByOdd(c: int, y: int)
    requires y % 2 == 1 && Divides(c, y)
    ensures c % 2 == 1
  {
    var k: int :| Mul(c, k) == y;
    ProductParity(c, k);
  }

  /** Beside an odd number the powers of two of the other one do not matter. */
  lemma {:induction false} ShiftAlike(odd: int, n: nat, y: int)
    requires y % 2 == 1
    ensures Alike(Mul(odd, Pow2(n)), y, odd, y)
  {
    hide Divides, Pow2, Mul;
    if n == 0 {
      TimesPow2(odd, 0);
    } else {
      var x := Mul(odd, Pow2(n - 1));
      ShiftAlike(odd, n - 1, y);
      Doubled(odd, n - 1);
      forall c ensures Divides(c, 2 * x) && Divides(c, y) <==> Divides(c, odd) && Divides(c, y) {
        assert Divides(c, x) && Divides(c, y) <==> Divides(c, odd) && Divides(c, y);
        if Divides(c, y) { OddOnlyByOdd(c, y); }
        if Divides(c, 2 * x) && Divides(c, y) { OddDivides(c, x); }
        if Divides(c, x) { DividesDouble(c, x); }
      }
    }
  }

  lemma Doubled(x: int, n: nat)
    ensures Mul(x, Pow2(n + 1)) == 2 * Mul(x, Pow2(n))
  {
  }

  /** A common factor of two is one of the greatest common divisor. */
  lemma DoubleGcd(g: int, x: int, y: int)
    requires IsGcd(g, x, y)
    ensures IsGcd(2 * g, 2 * x, 2 * y)
  {
    hide Divides;
    forall c ensures Divides(c, 2 * g) <==> Divides(c, 2 * x) && Divides(c, 2 * y) {
      var d := if c % 2 == 0 then c / 2 else c;
      forall z ensures Divides(c, 2 * z) <==> Divides(d, z) {
        if Divides(d, z) { DividesDouble(d, z); }
        if Divides(c, 2 * z) {
          if c % 2 == 0 { DividesHalf(d, z); } else { OddDivides(c, z); }
        }
      }
      assert Divides(c, 2 * x) <==> Divides(d, x);
      assert Divides(c, 2 * y) <==> Divides(d, y);
      assert Divides(c, 2 * g) <==> Divides(d, g);
    }
  }

  lemma {:induction false} ScaleGcd(g: int, x: int, y: int, n: nat)
    requires IsGcd(g, x, y)
    ensures IsGcd(Mul(g, Pow2(n)), Mul(x, Pow2(n)), Mul(y, Pow2(n)))
  {
    hide IsGcd, Pow2, Mul;
    if n == 0 {
      TimesPow2(g, 0);
      TimesPow2(x, 0);
      TimesPow2(y, 0);
    } else {
      ScaleGcd(g, x, y, n - 1);
      DoubleGcd(Mul(g, Pow2(n - 1)), Mul(x, Pow2(n - 1)), Mul(y, Pow2(n - 1)));
      Doubled(g, n - 1);
      Doubled(x, n - 1);
      Doubled(y, n - 1);
    }
  }

  lemma SplitPower(x: int, m: nat, n: nat)
    ensures Mul(Mul(x, Pow2(m)), Pow2(n)) == Mul(x, Pow2(m + n))
  {
    Pow2Add(m, n);
    Assoc(x, Pow2(m), Pow2(n));
  }

  /** From the odd parts back to the numbers: only the common power of two, gz, is put back. */
  lemma RestoreGcd(g: int, x: int, y: int, uz: nat, vz: nat, gz: nat)
    requires IsGcd(g, x, y) && x % 2 == 1 && y % 2 == 1 && (uz == 0 || vz == 0)
    ensures IsGcd(Mul(g, Pow2(gz)), Mul(x, Pow2(uz + gz)), Mul(y, Pow2(vz + gz)))
  {
    hide IsGcd, Pow2, Mul, Alike;
    var x', y' := Mul(x, Pow2(uz)), Mul(y, Pow2(vz));
    AlikeGcdBack(g, x', y', x, y) by {
      TimesPow2(x, 0);
      TimesPow2(y, 0);
      ShiftAlike(x, uz, y);
      ShiftAlike(y, vz, x);
      AlikeSwap(y', x, y, x);
    }
    ScaleGcd(g, x', y', gz);
    SplitPower(x, uz, gz);
    SplitPower(y, vz, gz);
  }

  lemma AlikeSwap(x: int, y: int, x': int, y': int)
    requires Alike(x, y, x', y')
    ensures Alike(y, x, y', x')
  {
    hide Divides;
    forall c ensures Divides(c, y) && Divides(c, x) <==> Divides(c, y') && Divides(c, x') {
      assert Divides(c, x) && Divides(c, y) <==> Divides(c, x') && Divides(c, y');
    }
  }

  lemma AlikeGcdBack(g: int, x: int, y: int, x': int, y': int)
    requires Alike(x, y, x', y') && IsGcd(g, x', y')
    ensures IsGcd(g, x, y)
  {
    hide Divides;
    forall c ensures Divides(c, g) <==> Divides(c, x) && Divides(c, y) {
      assert Divides(c, x) && Divides(c, y) <==> Divides(c, x') && Divides(c, y');
    }
  }

  // ----- single limbs

  /** Shifting both words by the trailing zeros of u | v loses nothing and makes one of them odd. */
  lemma {:induction false} CommonZeros(u: nat, v: nat, odd: nat, shift: nat)
    requires Bits(Or, u, v) == Mul(odd, Pow2(shift)) && odd % 2 == 1
    ensures var x, y := u / Pow2(shift), v / Pow2(shift);
            u == Mul(x, Pow2(shift)) && v == Mul(y, Pow2(shift)) && (x % 2 == 1 || y % 2 == 1)
  {
    if shift > 0 {
      Doubled(odd, shift - 1);
      CommonZeros(u / 2, v / 2, odd, shift - 1);
      var p := Pow2(shift - 1);
      var x, y := u / 2 / p, v / 2 / p;
      Doubled(x, shift - 1);
      Doubled(y, shift - 1);
      DivIs(u, x, 0, 2 * p);
      DivIs(v, y, 0, 2 * p);
    }
  }

  lemma OrZeroBoth(u: nat, v: nat)
    requires Bits(Or, u, v) == 0
    ensures u == 0 && v == 0
  {
    if u != 0 || v != 0 {
      OrZeroBoth(u / 2, v / 2);
    }
  }

  /** mpn_gcd_11. */
  method Gcd11(u: nat, v: nat) returns (g: nat)
    requires u < Limbs.B && v < Limbs.B && (u > 0 || v > 0)
    ensures IsGcd(g, u, v) && 0 < g < Limbs.B
  {
    hide Pow2, Mul, IsGcd, Alike, Bits;
    if u == 0 {
      GcdOfZero(v);
      return v;
    } else if v == 0 {
      GcdOfZero(u);
      return u;
    }
    if Bits(Or, u, v) == 0 { OrZeroBoth(u, v); }
    ghost var odd;
    var shift;
    odd, shift := MakeOdd(Bits(Or, u, v));
    CommonZeros(u, v, odd, shift);
    var x, y := u / Pow2(shift), v / Pow2(shift);
    ZeroTimes(Pow2(shift));
    if x % 2 == 0 {
      g := Gcd11Odd(y, x);
      GcdSwap(g, y, x);
    } else {
      g := Gcd11Odd(x, y);
    }
    ScaleGcd(g, x, y, shift);
    Positive(g, Pow2(shift));
    MulAtMost(g, if x < y then y else x, Pow2(shift));
    Product(g, Pow2(shift));
    g := g * Pow2(shift);
  }

  lemma ZeroTimes(p: int)
    ensures Mul(0, p) == 0
  {
  }

  lemma MulAtMost(x: int, y: int, p: nat)
    requires x <= y
    ensures Mul(x, p) <= Mul(y, p)
  {
    MulLe(x, y, p);
  }

  lemma GcdSwap(g: int, x: int, y: int)
    requires IsGcd(g, x, y)
    ensures IsGcd(g, y, x)
  {
  }

  lemma AlikeRefl(x: int, y: int)
    ensures Alike(x, y, x, y)
  {
  }

  /** The subtraction step, in either order of the arguments, with the factors of two taken out. */
  lemma StepAlike(x: int, y: int, n: nat, odd: int, x0: int, y0: int)
    requires Alike(x, y, x0, y0) && y % 2 == 1 && x - y == Mul(odd, Pow2(n))
    ensures Alike(odd, y, x0, y0)
  {
    hide Divides, Pow2;
    MinusOnce(y);
    CombinationAlike(x, -1, y);
    ShiftAlike(odd, n, y);
    AlikeTrans(x, y, x - y, y, odd, y);
    AlikeBack(x, y, odd, y, x0, y0);
  }

  lemma MinusOnce(y: int)
    ensures Mul(-1, y) == -y
  {
  }

  lemma AlikeTrans(x: int, y: int, x': int, y': int, x'': int, y'': int)
    requires Alike(x, y, x', y') && Alike(x', y', x'', y'')
    ensures Alike(x, y, x'', y'')
  {
    hide Divides;
    forall c ensures Divides(c, x) && Divides(c, y) <==> Divides(c, x'') && Divides(c, y'') {
      assert Divides(c, x) && Divides(c, y) <==> Divides(c, x') && Divides(c, y');
      assert Divides(c, x') && Divides(c, y') <==> Divides(c, x'') && Divides(c, y'');
    }
  }

  lemma AlikeBack(x: int, y: int, x': int, y': int, x0: int, y0: int)
    requires Alike(x, y, x', y') && Alike(x, y, x0, y0)
    ensures Alike(x', y', x0, y0)
  {
    hide Divides;
    forall c ensures Divides(c, x') && Divides(c, y') <==> Divides(c, x0) && Divides(c, y0) {
      assert Divides(c, x) && Divides(c, y) <==> Divides(c, x') && Divides(c, y');
      assert Divides(c, x) && Divides(c, y) <==> Divides(c, x0) && Divides(c, y0);
    }
  }

  lemma AlikeFlip(x: int, y: int, x': int, y': int)
    requires Alike(x, y, x', y')
    ensures Alike(y, x, x', y')
  {
    hide Divides;
    forall c ensures Divides(c, y) && Divides(c, x) <==> Divides(c, x') && Divides(c, y') {
      assert Divides(c, x) && Divides(c, y) <==> Divides(c, x') && Divides(c, y');
    }
  }

  /** The loops of mpn_gcd_11, for an odd x and a y that is not zero. */
  method Gcd11Odd(x: nat, y: nat) returns (g: nat)
    requires x % 2 == 1 && y > 0
    ensures IsGcd(g, x, y) && 0 < g && g <= if x < y then y else x
  {
    hide Pow2, Mul, IsGcd, Alike;
    var u := x;
    var v, shift := MakeOdd(y);
    OddPartSmaller(v, Pow2(shift), y);
    ShiftAlike(v, shift, x);
    AlikeRefl(y, x);
    AlikeBack(y, x, v, x, y, x);
    AlikeSwap(v, x, y, x);
    while u != v
      invariant 0 < u && 0 < v && u % 2 == 1 && v % 2 == 1
      invariant u <= x && v <= y && Alike(u, v, x, y)
      decreases u + v
    {
      if u > v {
        var odd, n := MakeOdd(u - v);
        StepAlike(u, v, n, odd, x, y);
        u := odd;
      } else {
        var odd, n := MakeOdd(v - u);
        AlikeFlip(u, v, x, y);
        StepAlike(v, u, n, odd, x, y);
        AlikeFlip(odd, u, x, y);
        v := odd;
      }
    }
    GcdOfEqual(u);
    AlikeGcd(u, u, v, x, y);
    g := u;
  }

  // ----- whole numbers

  /** mpz_gcd: the divisors of the result are exactly the common divisors of u and v. */
  method MpzGcd(u: int, v: int) returns (g: nat)
    ensures IsGcd(g, u, v) && (g == 0 <==> u == 0 && v == 0)
  {
    hide Pow2, Mul, IsGcd, Alike;
    if u == 0 {
      GcdOfZero(v);
      return Abs(v);
    }
    if v == 0 {
      GcdOfZero(u);
      return Abs(u);
    }
    var tu, uz := MakeOdd(Abs(u));
    var tv, vz := MakeOdd(Abs(v));
    var gz := if uz < vz then uz else vz;
    if LimbCount(tu) < LimbCount(tv) {
      g := GcdOdd(tv, tu);
      GcdSwap(g, tv, tu);
    } else {
      g := GcdOdd(tu, tv);
    }
    RestoreGcd(g, tu, tv, uz - gz, vz - gz, gz);
    Positive(g, Pow2(gz));
    Product(g, Pow2(gz));
    g := g * Pow2(gz);
    GcdOfAbs(g, u, v);
  }

  lemma GcdOfAbs(g: int, u: int, v: int)
    requires IsGcd(g, Abs(u), Abs(v))
    ensures IsGcd(g, u, v)
  {
    hide Divides;
    forall c ensures Divides(c, g) <==> Divides(c, u) && Divides(c, v) {
      AbsDivides(c, u);
      AbsDivides(c, v);
    }
  }

  lemma AbsDivides(c: int, x: int)
    ensures Divides(c, Abs(x)) <==> Divides(c, x)
  {
    if Divides(c, Abs(x)) { DividesAbs(c, x); }
    if Divides(c, x) {
      var k: int :| Mul(c, k) == x;
      DividesBy(c, if x < 0 then -k else k, Abs(x));
    }
  }

  /** The reduction x = q*y + r keeps the common divisors. */
  lemma RemainderAlike(x: int, q: int, y: int, r: int)
    requires x == Mul(q, y) + r
    ensures Alike(r, y, x, y)
  {
    CombinationAlike(r, q, y);
  }

  /** The division, the loop and the exit to single limbs, on odd numbers. */
  method GcdOdd(x: nat, y: nat) returns (g: nat)
    requires x % 2 == 1 && y % 2 == 1
    ensures IsGcd(g, x, y) && g > 0
  {
    hide Pow2, Mul, IsGcd, Alike, LimbCount;
    var tv := y;
    var q, tu := DivideBy(x, tv);
    RemainderAlike(x, q, y, tu);
    if tu == 0 {
      GcdOfZero(tv);
      AlikeGcd(tv, 0, tv, x, y);
      return tv;
    }
    while true
      invariant tu > 0 && tv > 0 && tv % 2 == 1 && Alike(tu, tv, x, y)
      decreases tu + tv
    {
      var odd, n := MakeOdd(tu);
      OddPartSmaller(odd, Pow2(n), tu);
      ShiftAlike(odd, n, tv);
      AlikeBack(tu, tv, odd, tv, x, y);
      tu := odd;
      if tu == tv {
        GcdOfEqual(tu);
        AlikeGcd(tu, tu, tv, x, y);
        return tu;
      }
      if tu < tv {
        AlikeFlip(tu, tv, x, y);
        tu, tv := tv, tu;
      }
      if LimbCount(tv) == 1 {
        var ul;
        OneLimb(tv);
        q, ul := DivideBy(tu, tv);
        g := Gcd11(ul, tv);
        RemainderAlike(tu, q, tv, ul);
        AlikeTrans(ul, tv, tu, tv, x, y);
        AlikeGcd(g, ul, tv, x, y);
        return;
      }
      MinusOnce(tv);
      CombinationAlike(tu, -1, tv);
      AlikeBack(tu, tv, tu - tv, tv, x, y);
      tu := tu - tv;
    }
  }

  lemma OneLimb(n: nat)
    requires LimbCount(n) == 1
    ensures n < Limbs.B
  {
  }

  /** mpz_gcd_ui: the result is also returned, except that zero is returned for v == 0. */
  method MpzGcdUi(u: int, v: nat) returns (g: nat, r: nat)
    requires v < Limbs.B
    ensures IsGcd(g, u, v) && r == if v == 0 then 0 else g
  {
    hide Mul, IsGcd, Alike;
    if v == 0 {
      GcdOfZero(u);
      return Abs(u), v;
    }
    r := v;
    if u == 0 {
      GcdOfZero(v);
    } else {
      var q, ul := DivideBy(Abs(u), v);
      r := Gcd11(ul, v);
      RemainderAlike(Abs(u), q, v, ul);
      AlikeGcd(r, ul, v, Abs(u), v);
      GcdOfAbs(r, u, v);
    }
    g := r;
  }

  /** The divisor is unique: any common divisor that is a combination of u and v, as mpz_gcdext finds, is the same. */
  lemma SameAsExtended(g: nat, h: nat, s: int, t: int, u: int, v: int)
    requires IsGcd(g, u, v)
    requires Divides(h, u) && Divides(h, v) && h == Mul(s, u) + Mul(t, v)
    ensures g == h
  {
    hide Divides, Mul;
    SelfDivides(g);
    assert Divides(g, g) && Divides(h, g);
    CombinationIsGreatest(h, s, t, u, v, g);
    EachOther(g, h);
  }

  lemma SelfDivides(g: int)
    ensures Divides(g, g)
  {
    DividesBy(g, 1, g);
  }

  lemma EachOther(g: nat, h: nat)
    requires Divides(g, h) && Divides(h, g)
    ensures g == h
  {
    AtMost(g, h);
    AtMost(h, g);
  }

  lemma AtMost(g: nat, h: nat)
    requires Divides(g, h)
    ensures (g == 0 ==> h == 0) && (h > 0 ==> g <= h)
  {
    var k: int :| Mul(g, k) == h;
    if h > 0 {
      if k <= 0 { MulLe(k, 0, g); } else { MulLe(1, k, g); }
    }
  }
}
