/** setelem_expr_to_range: set element keys as ranges. */
module Prefixes {
  import opened Arith
  import opened PowersOfTwo
  import opened Bitwise

  /** An integer key; a prefix covers the numbers that agree with base in the first prefixLen of len bits. */
  datatype Key = Value(v: nat) | Range(lo: nat, hi: nat) | Prefix(base: nat, prefixLen: nat, len: nat) {
    ghost predicate Valid() {
      Prefix? ==> prefixLen <= len && base < Pow2(len)
    }

    /** The numbers the key stands for, prefixes being read as section 3.1 of RFC 4632 defines them. */
    ghost predicate Matches(x: nat)
      requires Valid()
    {
      match this
      case Value(v) => x == v
      case Range(lo, hi) => lo <= x <= hi
      case Prefix(base, prefixLen, len) => Quotient(x, Pow2(len - prefixLen)) == Quotient(base, Pow2(len - prefixLen))
    }
  }

  /** setelem_expr_to_range: the host bits of a prefix are set to get its upper bound; its base stays as it is. */
  function ToRange(k: Key): (nat, nat)
    requires k.Valid()
  {
    match k
    case Value(v) => (v, v)
    case Range(lo, hi) => (lo, hi)
    case Prefix(base, prefixLen, len) => (base, Bits(Or, Pow2(len - prefixLen) - 1, base))
  }

  /** Setting the h low bits of a number. */
  lemma SetLow(x: nat, h: nat)
    ensures Bits(Or, Pow2(h) - 1, x) == Mul(Quotient(x, Pow2(h)), Pow2(h)) + Pow2(h) - 1
  {
    hide Bits, Bit, Pow2, Quotient, Mul;
    var p, q := Pow2(h), Quotient(x, Pow2(h));
    var y := Bits(Or, p - 1, x);
    var z := q * p + (p - 1);
    Product(q, p);
    forall i: nat ensures Bit(y, i) == Bit(z, i) {
      BitsBit(Or, p - 1, x, i);
      OnesBit(h, i);
      BitSplit(p - 1, q, h, i);
      if i >= h {
        ShiftedDown(x, h, i - h);
      }
    }
    SameBits(y, z);
  }

  lemma QuotientBlock(x: nat, q: nat, p: nat)
    requires p > 0
    ensures Quotient(x, p) == q <==> Mul(q, p) <= x <= Mul(q, p) + p - 1
  {
    DivMod(x, p);
    if Mul(q, p) <= x <= Mul(q, p) + p - 1 {
      DivIs(x, q, x - q * p, p);
    }
  }

  /** The range of a key is the part of what it stands for from its base on. */
  lemma RangeMatches(k: Key, x: nat)
    requires k.Valid()
    ensures ToRange(k).0 <= x <= ToRange(k).1 <==> k.Matches(x) && (k.Prefix? ==> k.base <= x)
  {
    if k.Prefix? {
      hide Bits, Pow2, Quotient, Mul;
      var h := k.len - k.prefixLen;
      var q := Quotient(k.base, Pow2(h));
      SetLow(k.base, h);
      QuotientBlock(x, q, Pow2(h));
      QuotientBlock(k.base, q, Pow2(h));
    }
  }

  /** A prefix is lowered to all of its numbers exactly if its base has no host bits set. */
  lemma PrefixExact(k: Key)
    requires k.Valid() && k.Prefix?
    ensures (forall x: nat :: ToRange(k).0 <= x <= ToRange(k).1 <==> k.Matches(x)) <==>
              k.base % Pow2(k.len - k.prefixLen) == 0
  {
    hide Bits, Pow2, Quotient, Mul, ToRange;
    var p := Pow2(k.len - k.prefixLen);
    var q := Quotient(k.base, p);
    QuotientRemainder(k.base, p);
    var first: nat := Mul(q, p);
    QuotientBlock(first, q, p);
    assert k.Matches(first);
    RangeMatches(k, first);
    if first == k.base {
      forall x: nat ensures ToRange(k).0 <= x <= ToRange(k).1 <==> k.Matches(x) {
        RangeMatches(k, x);
        QuotientBlock(x, q, p);
        assert k.Matches(x) <==> Quotient(x, p) == q;
      }
    } else {
      assert !(ToRange(k).0 <= first <= ToRange(k).1);
    }
  }

  datatype Evaluated = Ok(key: Key) | Invalid

  /** expr_evaluate_prefix: the base loses its host bits; a prefix longer than the base is refused. */
  function EvaluatePrefix(base: nat, prefixLen: nat, len: nat): Evaluated {
    if prefixLen > len then Invalid else
      Ok(Prefix(Bits(And, base, FieldMask(prefixLen, len - prefixLen)), prefixLen, len))
  }

  /**
   Every prefix that evaluation accepts is lowered to all of its numbers, those that agree
   with the base it was written with.
   */
  lemma EvaluatedPrefix(base: nat, prefixLen: nat, len: nat)
    requires base < Pow2(len)
    ensures EvaluatePrefix(base, prefixLen, len).Ok? <==> prefixLen <= len
    ensures prefixLen <= len ==>
              var k := EvaluatePrefix(base, prefixLen, len).key;
              && k.Valid()
              && forall x: nat :: ToRange(k).0 <= x <= ToRange(k).1 <==> Prefix(base, prefixLen, len).Matches(x)
  {
    if prefixLen <= len {
      hide Bits, Pow2, Quotient, Mul, ToRange, FieldMask;
      var h := len - prefixLen;
      var q := Quotient(base, Pow2(h));
      var k := EvaluatePrefix(base, prefixLen, len).key;
      ClearLow(base, prefixLen, h);
      QuotientRemainder(base, Pow2(h));
      Product(q, Pow2(h));
      assert k.base == Mul(q, Pow2(h));
      QuotientBlock(k.base, q, Pow2(h));
      MultipleOf(q, Pow2(h), k.base);
      PrefixExact(k);
      forall x: nat ensures ToRange(k).0 <= x <= ToRange(k).1 <==> Prefix(base, prefixLen, len).Matches(x) {
        assert k.Matches(x) <==> Prefix(base, prefixLen, len).Matches(x);
      }
    }
  }

  lemma MultipleOf(q: nat, p: nat, n: nat)
    requires n == Mul(q, p) && p > 0
    ensures n % p == 0
  {
    DivIs(n, q, 0, p);
  }

  lemma QuotientRemainder(x: nat, p: nat)
    requires p > 0
    ensures x == Mul(Quotient(x, p), p) + x % p && 0 <= x % p < p && Mul(Quotient(x, p), p) >= 0
  {
    DivMod(x, p);
    MulPos(Quotient(x, p), p);
  }
}
