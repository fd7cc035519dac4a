/** struct gmp_div_inverse: a divisor's normalising shift, its top limbs shifted, and their reciprocal. */
module DivInverse {
  import opened Arith
  import opened Limbs
  import opened PowersOfTwo
  import opened Bitwise
  import opened Reciprocal
  import opened Invert
  import opened Mpn
  import opened MpnDivision

  datatype Inverse = Inverse(shift: nat, d1: Limb, d0: Limb, di: Limb)

  /** gmp_clz: the number of leading zero bits, by bytes and then by bits. */
  method Clz(x: Limb) returns (count: nat)
    requires x > 0
    ensures count < 64 && Mul(x, Pow2(count)) < B <= 2 * Mul(x, Pow2(count))
  {
    hide Mul, Pow2, Low;
    count := 0;
    var y: Limb := x;
    ClzStart(x);
    while y / 0x100_0000_0000_0000 == 0         // no bit of the top byte is set
      invariant 0 < y && y == Mul(x, Pow2(count))
      decreases B - y
    {
      ClzStep(x, count, 8, y);
      LowIs(y * 0x100, 0);
      y := Low(y * 0x100);
      count := count + 8;
    }
    while y / 0x8000_0000_0000_0000 == 0        // GMP_LIMB_HIGHBIT is clear
      invariant 0 < y && y == Mul(x, Pow2(count))
      decreases B - y
    {
      ClzStep(x, count, 1, y);
      LowIs(y * 2, 0);
      y := Low(y * 2);
      count := count + 1;
    }
    ClzBound(x, count, y);
  }

  lemma ClzStart(x: Limb)
    ensures Mul(x, Pow2(0)) == x
  {
  }

  lemma ClzStep(x: int, c: nat, n: nat, y: int)
    requires y == Mul(x, Pow2(c)) && (n == 1 || n == 8)
    ensures Mul(x, Pow2(c + n)) == y * if n == 1 then 2 else 0x100
  {
    Pow2Add(c, n);
    Pow2Of64();
    Assoc(x, Pow2(c), Pow2(n));
  }

  lemma ClzBound(x: int, c: nat, y: int)
    requires 1 <= x && y == Mul(x, Pow2(c)) < B
    ensures c < 64
  {
    if c >= 64 {
      Pow2Mono(64, c);
      Pow2Of64();
      MulLe(1, x, Pow2(c));
    }
  }

  /** inv is usable for the single-limb divisor d. */
  ghost predicate Inverts1(inv: Inverse, d: Limb) {
    d > 0 && inv.shift < 64 && inv.d1 == Mul(d, Pow2(inv.shift)) && Recip21(inv.d1, inv.di)
  }

  /** inv is usable for the divisor ds of two or more limbs, whose top limb is not zero. */
  ghost predicate Inverts2(inv: Inverse, ds: seq<Limb>) {
    && |ds| >= 2 && inv.shift < 64 && ds[|ds| - 1] > 0
    && B <= 2 * inv.d1 && Recip32(inv.d1, inv.d0, inv.di)
    && Shr(ds[|ds| - 1], 64 - inv.shift) == 0
    && (if inv.shift == 0 then inv.d1 == ds[|ds| - 1] && inv.d0 == ds[|ds| - 2]
        else inv.d1 == ShiftedLimb(ds, |ds| - 1, inv.shift) && inv.d0 == ShiftedLimb(ds, |ds| - 2, inv.shift))
  }

  /** mpn_div_qr_1_invert. */
  method Invert1(d: Limb) returns (inv: Inverse)
    requires d > 0
    ensures Inverts1(inv, d)
  {
    hide Mul, Pow2, Recip21, Recip32;
    var shift := Clz(d);
    Product(d, Pow2(shift));
    LowIs(d * Pow2(shift), 0);
    var d1 := Shl(d, shift);
    var di := Invert32(d1, 0);
    inv := Inverse(shift, d1, 0, di);
  }

  lemma TopNormalised(x: Limb, y: Limb, shift: nat)
    requires shift < 64 && Mul(x, Pow2(shift)) < B <= 2 * Mul(x, Pow2(shift))
    ensures Shr(x, 64 - shift) == 0
    ensures shift > 0 ==> var z := Bits(Or, Shl(x, shift), Shr(y, 64 - shift)); z < B <= 2 * z
    ensures shift == 0 ==> B <= 2 * x
  {
    hide Mul, Pow2, Low, Bits, Shr, Shl;
    if shift == 0 {
      ClzStart(x);
      TopBitZero(x);
    } else {
      ShiftLimb(x, shift);
      JoinLimb(x, y, shift);
    }
  }

  lemma TopBitZero(x: Limb)
    ensures Shr(x, 64) == 0
  {
    Pow2Of64();
    DivIs(x, 0, x, B);
  }

  /** mpn_div_qr_2_invert and the general case of mpn_div_qr_invert. */
  method InvertMany(dp: array<Limb>, dn: nat) returns (inv: Inverse)
    requires 2 <= dn <= dp.Length && dp[dn - 1] > 0
    ensures Inverts2(inv, dp[..dn])
  {
    hide Mul, Pow2, Low, Bits, Shr, Shl, Recip32;
    ghost var ds := dp[..dn];
    var d1, d0 := dp[dn - 1], dp[dn - 2];
    assert ds[dn - 1] == d1 && ds[dn - 2] == d0;
    var shift := Clz(d1);
    TopNormalised(d1, d0, shift);
    if shift > 0 {
      if dn > 2 {
        assert ds[dn - 3] == dp[dn - 3];
        JoinLimb(d0, dp[dn - 3], shift);
      }
      d1 := Bits(Or, Shl(d1, shift), Shr(d0, 64 - shift));
      d0 := if dn == 2 then Shl(d0, shift) else Bits(Or, Shl(d0, shift), Shr(dp[dn - 3], 64 - shift));
    }
    var di := Invert32(d1, d0);
    inv := Inverse(shift, d1, d0, di);
  }
}
