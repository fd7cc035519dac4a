/** Numerals: digit sequences in a base, most significant digit first. */
module Radix {
  import opened Arith
  import opened PowersOfTwo
  import opened ByteStrings

  /** b to the power n. */
  ghost function PowB(b: nat, n: nat): nat {
    if n == 0 then 1 else
      MulPos(b, PowB(b, n - 1));
      b * PowB(b, n - 1)
  }

  ghost predicate Digits(s: seq<Byte>, b: nat) {
    forall d :: d in s ==> d < b
  }

  /** The number that a digit sequence denotes. */
  ghost function Num(s: seq<Byte>, b: nat): nat {
    if s == [] then 0 else
      MulPos(Num(s[..|s| - 1], b), b);
      Num(s[..|s| - 1], b) * b + s[|s| - 1]
  }

  lemma PowBStep(b: nat, n: nat)
    ensures PowB(b, n + 1) == Mul(b, PowB(b, n)) && PowB(b, 0) == 1
  {
  }

  lemma {:induction false} PowBPositive(b: nat, n: nat)
    requires b > 0
    ensures PowB(b, n) > 0
  {
    if n > 0 {
      PowBPositive(b, n - 1);
      MulLe(1, b, PowB(b, n - 1));
    }
  }

  lemma NumSnoc(s: seq<Byte>, d: Byte, b: nat)
    ensures Num(s + [d], b) == Mul(Num(s, b), b) + d
  {
    assert (s + [d])[..|s|] == s;
  }

  lemma NumNothing(b: nat)
    ensures Num([], b) == 0 && PowB(b, 0) == 1
  {
  }

  /** A digit in front. */
  lemma {:induction false} NumCons(d: Byte, s: seq<Byte>, b: nat)
    ensures Num([d] + s, b) == Mul(d, PowB(b, |s|)) + Num(s, b)
  {
    hide Mul, Num, PowB;
    if s == [] {
      assert [d] + s == [] + [d];
      NumSnoc([], d, b);
      NumNothing(b);
      ZeroOne(d, b);
    } else {
      var n := |s| - 1;
      var t := s[..n];
      assert s == t + [s[n]] && [d] + s == ([d] + t) + [s[n]];
      NumCons(d, t, b);
      NumSnoc(t, s[n], b);
      NumSnoc([d] + t, s[n], b);
      PowBStep(b, n);
      ConsAlgebra(d, PowB(b, n), Num(t, b), b, PowB(b, n + 1));
    }
  }

  lemma ZeroOne(d: int, b: int)
    ensures Mul(0, b) == 0 && Mul(d, 1) == d
  {
  }

  lemma ConsAlgebra(d: int, p: int, v: int, b: int, q: int)
    requires q == Mul(b, p)
    ensures Mul(Mul(d, p) + v, b) == Mul(d, q) + Mul(v, b)
  {
    Dist(d * p, v, b);
    Assoc(d, b, p);
    assert (d * p) * b == d * (b * p);
  }

  lemma {:induction false} NumBound(s: seq<Byte>, b: nat)
    requires Digits(s, b) && b > 0
    ensures Num(s, b) < PowB(b, |s|)
  {
    hide Mul, Num, PowB;
    if s == [] {
      NumNothing(b);
    } else {
      var n := |s| - 1;
      assert s == s[..n] + [s[n]] && s[n] in s;
      assert forall d :: d in s[..n] ==> d in s;
      NumBound(s[..n], b);
      NumSnoc(s[..n], s[n], b);
      PowBStep(b, n);
      BoundAlgebra(Num(s[..n], b), PowB(b, n), b, s[n]);
    }
  }

  lemma BoundAlgebra(v: int, p: int, b: int, d: int)
    requires v < p && 0 <= d < b
    ensures Mul(v, b) + d < Mul(b, p)
  {
    MulLe(v + 1, p, b);
    Dist(v, 1, b);
  }

  lemma {:induction false} PowBAdd(b: nat, m: nat, n: nat)
    ensures PowB(b, m + n) == Mul(PowB(b, m), PowB(b, n))
  {
    hide Mul, PowB;
    if m == 0 {
      PowBStep(b, 0);
      ZeroOne(PowB(b, n), 0);
      MulCommutes(PowB(b, 0), PowB(b, n));
    } else {
      PowBAdd(b, m - 1, n);
      PowBStep(b, m - 1);
      PowBStep(b, m - 1 + n);
      assert m - 1 + n + 1 == m + n;
      MulAssoc(b, PowB(b, m - 1), PowB(b, n));
    }
  }

  lemma MulCommutes(x: int, y: int)
    ensures Mul(x, y) == Mul(y, x)
  {
  }

  lemma MulAssoc(x: int, y: int, z: int)
    ensures Mul(x, Mul(y, z)) == Mul(Mul(x, y), z)
  {
  }

  lemma {:induction false} PowBMono(b: nat, m: nat, n: nat)
    requires b >= 1 && m <= n
    ensures PowB(b, m) <= PowB(b, n)
  {
    if m < n {
      PowBMono(b, m, n - 1);
      MulLe(1, b, PowB(b, n - 1));
    }
  }

  /** Powers of a power of two. */
  lemma {:induction false} PowBits(bits: nat, n: nat)
    ensures PowB(Pow2(bits), n) == Pow2(BitsOf(bits, n))
  {
    if n > 0 {
      PowBits(bits, n - 1);
      Pow2Add(bits, BitsOf(bits, n - 1));
      assert BitsOf(bits, n) == bits + BitsOf(bits, n - 1);
    }
  }

  /** bits times n. */
  ghost function BitsOf(bits: nat, n: nat): nat {
    if n == 0 then 0 else bits + BitsOf(bits, n - 1)
  }

  lemma {:induction false} BitsOfIs(bits: nat, n: nat)
    ensures BitsOf(bits, n) == bits * n
  {
    if n > 0 {
      BitsOfIs(bits, n - 1);
      Dist(n - 1, 1, bits);
    }
  }

  /** s writes v in base b, without a leading zero. */
  ghost predicate Writes(s: seq<Byte>, v: nat, b: nat) {
    s != [] && Digits(s, b) && Num(s, b) == v && (v > 0 ==> s[0] > 0) && (v == 0 ==> s == [0])
  }

  /** n is the number of digits of v in base b. */
  ghost predicate Length(n: nat, v: nat, b: nat) {
    n > 0 && v < PowB(b, n) && (v > 0 ==> PowB(b, n - 1) <= v) && (v == 0 ==> n == 1)
  }

  lemma WritesLength(s: seq<Byte>, v: nat, b: nat)
    requires Writes(s, v, b) && b >= 2
    ensures Length(|s|, v, b)
  {
    hide Num, PowB, Mul;
    NumBound(s, b);
    if v > 0 {
      var rest := s[1..];
      assert s == [s[0]] + rest;
      NumCons(s[0], rest, b);
      LeadingDigit(s[0], PowB(b, |rest|));
    }
  }

  lemma LeadingDigit(d: int, p: nat)
    ensures d > 0 ==> Mul(d, p) >= p
  {
    if d > 0 {
      MulLe(1, d, p);
    }
  }

  lemma LengthUnique(m: nat, n: nat, v: nat, b: nat)
    requires Length(m, v, b) && Length(n, v, b) && b >= 2
    ensures m == n
  {
    if v > 0 {
      if m < n {
        PowBMono(b, m, n - 1);
      } else if n < m {
        PowBMono(b, n, m - 1);
      }
    }
  }

  /** A digit sequence of the right length starts with a nonzero digit. */
  lemma LengthWrites(s: seq<Byte>, v: nat, b: nat)
    requires Digits(s, b) && Num(s, b) == v && Length(|s|, v, b) && b >= 2
    ensures Writes(s, v, b)
  {
    hide Num, PowB, Mul;
    if v > 0 {
      var rest := s[1..];
      assert s == [s[0]] + rest;
      NumCons(s[0], rest, b);
      assert Digits(rest, b) by {
        assert forall d :: d in rest ==> d in s;
      }
      NumBound(rest, b);
      ZeroOne(0, PowB(b, |rest|));
    } else {
      assert s == [] + [s[0]];
      NumSnoc([], s[0], b);
      NumNothing(b);
      ZeroOne(0, b);
    }
  }

  lemma {:induction false} NumConcat(s: seq<Byte>, t: seq<Byte>, b: nat)
    ensures Num(s + t, b) == Mul(Num(s, b), PowB(b, |t|)) + Num(t, b)
  {
    hide Mul, Num, PowB;
    if t == [] {
      assert s + t == s;
      NumNothing(b);
      ZeroOne(Num(s, b), b);
    } else {
      var n := |t| - 1;
      assert t == t[..n] + [t[n]] && s + t == (s + t[..n]) + [t[n]];
      NumConcat(s, t[..n], b);
      NumSnoc(t[..n], t[n], b);
      NumSnoc(s + t[..n], t[n], b);
      PowBStep(b, n);
      ConsAlgebra(Num(s, b), PowB(b, n), Num(t[..n], b), b, PowB(b, n + 1));
    }
  }

  lemma DigitsConcat(s: seq<Byte>, t: seq<Byte>, b: nat)
    ensures Digits(s, b) && Digits(t, b) <==> Digits(s + t, b)
  {
    assert forall d :: d in s ==> d in s + t;
    assert forall d :: d in t ==> d in s + t;
  }
}
