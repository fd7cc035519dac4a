/** Powers of two. */
module PowersOfTwo {
  import opened Arith

  function Pow2(n: nat): (p: nat)
    ensures p > 0
  {
    if n == 0 then 1 else 2 * Pow2(n - 1)
  }

  lemma {:induction false} Pow2Add(m: nat, n: nat)
    ensures Pow2(m + n) == Pow2(m) * Pow2(n)
  {
    if m != 0 {
      Pow2Add(m - 1, n);
      assert m + n - 1 == (m - 1) + n;
      Assoc(2, Pow2(m - 1), Pow2(n));
    }
  }

  lemma {:induction false} Pow2Mono(m: nat, n: nat)
    requires m <= n
    ensures Pow2(m) <= Pow2(n)
  {
    if m < n {
      Pow2Mono(m, n - 1);
    }
  }

  lemma Pow2Of64()
    ensures Pow2(8) == 0x100 && Pow2(16) == 0x1_0000 && Pow2(32) == 0x1_0000_0000
    ensures Pow2(64) == 0x1_0000_0000_0000_0000
  {
    assert Pow2(8) == 256;
    Pow2Add(8, 8);
    Pow2Add(16, 16);
    Pow2Add(32, 32);
  }

  /** A number strictly between two successive powers of two divides no power of two. */
  lemma {:induction false} NoDivisorBetween(k: nat, x: int, y: int, n: nat)
    requires Pow2(k) < x < Pow2(k + 1)
    ensures x * y != Pow2(n)
    decreases n
  {
    if x * y == Pow2(n) {
      if n == 0 {
        if y >= 1 {
          MulLe(1, y, x);
        } else {
          MulLe(y, 0, x);
        }
      } else if x % 2 == 0 && k > 0 {
        assert x == 2 * (x / 2);
        Assoc(2, x / 2, y);
        NoDivisorBetween(k - 1, x / 2, y, n - 1);
      } else if k > 0 {
        OddFactor(x, y, Pow2(n - 1));
        NoDivisorBetween(k, x, y / 2, n - 1);
      }
    }
  }

  lemma OddFactor(x: int, y: int, h: int)
    requires x % 2 == 1 && x * y == 2 * h
    ensures x * (y / 2) == h
  {
    var a := x / 2;
    assert x * y == 2 * (a * y) + y by {
      assert x == 2 * a + 1;
    }
    assert y == 2 * (h - a * y);
    assert x * y == 2 * (x * (y / 2)) by {
      Assoc(2, x, y / 2);
    }
  }
}
