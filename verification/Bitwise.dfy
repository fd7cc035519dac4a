/** Bits of integers in infinitely sign-extended two's complement, and bitwise operations on naturals. */
module Bitwise {
  import opened Arith
  import opened PowersOfTwo

  /** Bit i of x; a negative x has infinitely many leading ones. */
  predicate Bit(x: int, i: nat)
    decreases i
  {
    if i == 0 then x % 2 == 1 else Bit(x / 2, i - 1)
  }

  datatype BitOp = And | Or | Xor {
    predicate Of(a: bool, b: bool) {
      match this
      case And => a && b
      case Or => a || b
      case Xor => a != b
    }
  }

  /** The machine's &, | and ^ on unsigned words of any width. */
  function Bits(op: BitOp, x: nat, y: nat): nat
    decreases x + y
  {
    if x == 0 && y == 0 then 0 else
      (if op.Of(x % 2 == 1, y % 2 == 1) then 1 else 0) + 2 * Bits(op, x / 2, y / 2)
  }

  lemma {:induction false} BitOfZero(i: nat)
    ensures !Bit(0, i)
  {
    if i != 0 {
      BitOfZero(i - 1);
    }
  }

  lemma {:induction false} BitOfMinusOne(i: nat)
    ensures Bit(-1, i)
  {
    if i != 0 {
      assert -1 / 2 == -1;
      BitOfMinusOne(i - 1);
    }
  }

  lemma {:induction false} BitsBit(op: BitOp, x: nat, y: nat, i: nat)
    ensures Bit(Bits(op, x, y), i) == op.Of(Bit(x, i), Bit(y, i))
    decreases i
  {
    if x == 0 && y == 0 {
      BitOfZero(i);
    } else if i != 0 {
      assert Bits(op, x, y) / 2 == Bits(op, x / 2, y / 2);
      BitsBit(op, x / 2, y / 2, i - 1);
    }
  }

  lemma {:induction false} BitsBound(op: BitOp, x: nat, y: nat, n: nat)
    requires x < Pow2(n) && y < Pow2(n)
    ensures Bits(op, x, y) < Pow2(n)
    decreases n
  {
    if n != 0 && (x != 0 || y != 0) {
      BitsBound(op, x / 2, y / 2, n - 1);
    }
  }

  /** Integers with the same bits are equal. */
  lemma {:induction false} SameBits(x: int, y: int)
    requires forall i: nat :: Bit(x, i) == Bit(y, i)
    ensures x == y
    decreases if x < 0 then -x else x, if y < 0 then -y else y
  {
    assert Bit(x, 0) == Bit(y, 0);
    if !(x == 0 || x == -1) || !(y == 0 || y == -1) {
      forall i: nat ensures Bit(x / 2, i) == Bit(y / 2, i) {
        assert Bit(x, i + 1) == Bit(y, i + 1);
      }
      SameBits(x / 2, y / 2);
    }
  }

  /** The bits of a number are those of its low and high parts. */
  lemma {:induction false} BitSplit(lo: nat, hi: int, n: nat, i: nat)
    requires lo < Pow2(n)
    ensures Bit(lo + hi * Pow2(n), i) == if i < n then Bit(lo, i) else Bit(hi, i - n)
    decreases n
  {
    if n != 0 {
      var h := hi * Pow2(n - 1);
      assert hi * Pow2(n) == 2 * h by {
        Assoc(2, hi, Pow2(n - 1));
      }
      if i != 0 {
        assert (lo + 2 * h) / 2 == lo / 2 + h;
        BitSplit(lo / 2, hi, n - 1, i - 1);
      }
    }
  }

  lemma {:induction false} OrDisjoint(x: nat, y: nat, n: nat)
    requires y < Pow2(n)
    ensures Bits(Or, x * Pow2(n), y) == x * Pow2(n) + y
    decreases n
  {
    if n == 0 {
      OrZero(x);
    } else {
      assert x * Pow2(n) == 2 * (x * Pow2(n - 1)) by {
        Assoc(2, x, Pow2(n - 1));
      }
      OrDisjoint(x, y / 2, n - 1);
    }
  }

  lemma {:induction false} OrZero(x: nat)
    ensures Bits(Or, x, 0) == x
  {
    if x != 0 {
      OrZero(x / 2);
    }
  }

  lemma {:induction false} BitsCommute(op: BitOp, x: nat, y: nat)
    ensures Bits(op, x, y) == Bits(op, y, x)
    decreases x + y
  {
    if x != 0 || y != 0 {
      BitsCommute(op, x / 2, y / 2);
    }
  }

  /** mpz_bitmask shifted left. */
  function FieldMask(len: nat, shift: nat): nat {
    MulPos(Pow2(len) - 1, Pow2(shift));
    (Pow2(len) - 1) * Pow2(shift)
  }

  lemma OnesBit(len: nat, i: nat)
    ensures Bit(Pow2(len) - 1, i) == (i < len)
  {
    if i < len {
      BitSplit(Pow2(len) - 1, -1, len, i);
      assert Pow2(len) - 1 + -1 * Pow2(len) == -1;
      BitOfMinusOne(i);
    } else {
      BitSplit(Pow2(len) - 1, 0, len, i);
      BitOfZero(i - len);
    }
  }

  lemma ShiftedBit(x: nat, shift: nat, i: nat)
    ensures Bit(x * Pow2(shift), i) == (i >= shift && Bit(x, i - shift))
  {
    BitSplit(0, x, shift, i);
    if i < shift {
      BitOfZero(i);
    }
  }

  lemma FieldMaskBit(len: nat, shift: nat, i: nat)
    ensures Bit(FieldMask(len, shift), i) == (shift <= i < shift + len)
  {
    ShiftedBit(Pow2(len) - 1, shift, i);
    if i >= shift {
      OnesBit(len, i - shift);
    }
  }

  lemma HighBit(x: nat, n: nat, i: nat)
    requires x < Pow2(n) && i >= n
    ensures !Bit(x, i)
  {
    BitSplit(x, 0, n, i);
    BitOfZero(i - n);
  }

  lemma AndOnes(x: nat, n: nat)
    requires x < Pow2(n)
    ensures Bits(And, x, Pow2(n) - 1) == x
  {
    hide Bits, Bit, Pow2;
    var y := Bits(And, x, Pow2(n) - 1);
    forall i: nat ensures Bit(y, i) == Bit(x, i) {
      BitsBit(And, x, Pow2(n) - 1, i);
      OnesBit(n, i);
      if i >= n {
        HighBit(x, n, i);
      }
    }
    SameBits(y, x);
  }

  /** Division as a right shift does it. */
  function Quotient(x: nat, d: nat): nat
    requires d > 0
  {
    DivMod(x, d);
    QuotientNonneg(x, x / d, x % d, d);
    x / d
  }

  lemma ShiftedDown(x: nat, shift: nat, i: nat)
    ensures Bit(Quotient(x, Pow2(shift)), i) == Bit(x, i + shift)
  {
    var q, r := Quotient(x, Pow2(shift)), x % Pow2(shift);
    DivMod(x, Pow2(shift));
    Product(q, Pow2(shift));
    BitSplit(r, q, shift, i + shift);
  }

  /** Masking out the n low bits leaves what shifting right and left again would. */
  lemma ClearLow(x: nat, len: nat, n: nat)
    requires x < Pow2(len + n)
    ensures Bits(And, x, FieldMask(len, n)) == Quotient(x, Pow2(n)) * Pow2(n)
  {
    hide Bits, Bit, FieldMask, Quotient, Pow2;
    var y, z := Bits(And, x, FieldMask(len, n)), Quotient(x, Pow2(n));
    MulPos(z, Pow2(n));
    forall i: nat ensures Bit(y, i) == Bit(z * Pow2(n), i) {
      BitsBit(And, x, FieldMask(len, n), i);
      FieldMaskBit(len, n, i);
      ShiftedBit(z, n, i);
      if i >= n {
        ShiftedDown(x, n, i - n);
        if i >= len + n {
          HighBit(x, len + n, i);
        }
      }
    }
    SameBits(y, z * Pow2(n));
  }
}
