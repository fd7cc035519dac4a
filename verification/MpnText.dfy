/** mpn_get_str and mpn_set_str: limbs to digits and back. */
module MpnText {
  import opened Arith
  import opened Limbs
  import opened PowersOfTwo
  import opened Bitwise
  import opened Reciprocal
  import opened Mpn
  import opened MpnSigned
  import opened DivInverse
  import opened MpnDivQr
  import opened MpzBitwise
  import opened ByteStrings
  import opened Radix

  /** mpn_base_power_of_two_p: the bits of a digit, or 0 if the base is no power of two. */
  function BaseBits(b: nat): (bits: nat)
    ensures bits <= 8 && (bits > 0 ==> Pow2(bits) == b)
    ensures b <= 36 && bits > 0 ==> bits <= 5
  {
    match b
    case 2 => 1
    case 4 => assert Pow2(2) == 4; 2
    case 8 => assert Pow2(3) == 2 * Pow2(2) == 8; 3
    case 16 => assert Pow2(4) == 4 * Pow2(2) == 16; 4
    case 32 => assert Pow2(5) == 8 * Pow2(2) == 32; 5
    case 64 => assert Pow2(6) == 16 * Pow2(2) == 64; 6
    case 128 => assert Pow2(7) == 32 * Pow2(2) == 4 * Pow2(5) == 128; 7
    case 256 => assert Pow2(8) == 8 * Pow2(5) == 256; 8
    case _ => 0
  }

  /** struct mpn_base_info: the largest power of the base that fits in a limb. */
  datatype BaseInfo = BaseInfo(exp: nat, bb: Limb)

  ghost predicate IsInfo(info: BaseInfo, b: nat) {
    info.exp > 0 && info.bb == PowB(b, info.exp) && info.bb >= b
  }

  /** mpn_get_base_info */
  method GetBaseInfo(b: Limb) returns (info: BaseInfo)
    requires 2 <= b < H
    ensures IsInfo(info, b) && Mul(info.bb, b) > B - 1
  {
    hide Mul, PowB;
    var m := (B - 1) / b;
    var p: Limb, exp := b, 1;
    PowBStep(b, 0);
    MulOneIs(b);
    while p <= m
      invariant exp > 0 && p == PowB(b, exp) && b <= p
      decreases B - p
    {
      FitsLimb(p, b, m);
      PowBStep(b, exp);
      MulCommutes(b, p);
      p := p * b;
      exp := exp + 1;
    }
    TooBig(p, b, m);
    info := BaseInfo(exp, p);
  }

  lemma MulOneIs(b: int)
    ensures Mul(b, 1) == b
  {
  }

  lemma FitsLimb(p: int, b: int, m: int)
    requires 2 <= b && 0 < p <= m && m == (B - 1) / b
    ensures p < p * b <= B - 1 && p * b == Mul(p, b)
  {
    DivMod(B - 1, b);
    MulLe(p, m, b);
    MulLe(2, b, p);
  }

  lemma TooBig(p: int, b: int, m: int)
    requires 2 <= b && p > m && m == (B - 1) / b
    ensures Mul(p, b) > B - 1
  {
    DivMod(B - 1, b);
    MulLe(m + 1, p, b);
    Dist(m, 1, b);
  }

  /** mpn_limb_size_in_base_2 */
  method LimbSize2(u: Limb) returns (n: nat)
    requires u > 0
    ensures 0 < n <= 64 && Pow2(n - 1) <= u < Pow2(n)
  {
    hide Mul, Pow2;
    var shift := Clz(u);
    n := 64 - shift;
    SizeOf(u, shift);
  }

  lemma SizeOf(u: Limb, shift: nat)
    requires shift < 64 && Mul(u, Pow2(shift)) < B <= 2 * Mul(u, Pow2(shift))
    ensures Pow2(64 - shift - 1) <= u < Pow2(64 - shift)
  {
    hide Pow2;
    Pow2Of64();
    var p, q, h := Pow2(shift), Pow2(64 - shift), Pow2(64 - shift - 1);
    Pow2Add(shift, 64 - shift);
    assert shift + (64 - shift) == 64;
    Pow2Add(1, 64 - shift - 1);
    assert Pow2(1) == 2 by { OnePow(); }
    Assoc(2, h, p);
    SizeBounds(u, p, q, h);
  }

  lemma SizeBounds(u: int, p: int, q: int, h: int)
    requires p > 0 && Mul(u, p) < B <= 2 * Mul(u, p) && q * p == B && q == 2 * h
    ensures h <= u < q
  {
    if u >= q {
      MulLe(q, u, p);
    } else if u < h {
      MulLe(u + 1, h, p);
      Dist(u, 1, p);
    }
  }

  lemma OnePow()
    ensures Pow2(1) == 2
  {
  }

  /** The bits of a number whose top limb has k bits. */
  lemma BitLength(us: seq<Limb>, k: nat)
    requires us != [] && 0 < k <= 64 && Pow2(k - 1) <= us[|us| - 1] < Pow2(k)
    ensures var n := 64 * (|us| - 1) + k; Pow2(n - 1) <= Val(us) < Pow2(n)
  {
    hide Val, Pow2, Pow, Mul;
    var m := |us| - 1;
    assert us[..m + 1] == us;
    ValTake(us, m);
    PowIsPow2(m);
    Pow2Add(64 * m, k);
    Pow2Add(64 * m, k - 1);
    Product(Pow(m), Pow2(k));
    Product(Pow(m), Pow2(k - 1));
    LengthBounds(us[m], Val(us[..m]), Pow(m), Pow2(k), Pow2(k - 1));
  }

  lemma LengthBounds(x: int, low: nat, p: nat, hi: int, lo: int)
    requires lo <= x < hi && low < p
    ensures Mul(p, lo) <= low + Mul(x, p) < Mul(p, hi)
  {
    MulLe(lo, x, p);
    MulLe(x + 1, hi, p);
    Dist(x, 1, p);
  }

  // ----- power-of-two bases, to digits

  /** mpn_get_str_bits: the digit that starts at bit `shift` of limb i, and where the next one starts. */
  method NextDigit(up: array<Limb>, un: nat, i0: nat, shift0: nat, bits: nat) returns (digit: Byte, i: nat, shift: nat)
    requires 1 <= bits <= 8 && i0 < un <= up.Length && shift0 < 64
    ensures digit == AboveBit(up[..un], i0, shift0) % Pow2(bits)
    ensures i == i0 || i == i0 + 1
    ensures 64 * i0 + shift0 + bits < 64 * un ==> shift < 64 && 64 * i + shift == 64 * i0 + shift0 + bits && i < un
  {
    hide Val, Mul, Pow2, Bits, Shr, Shl;
    SmallPow(bits);
    ghost var us := up[..un];
    var mask := Pow2(bits) - 1;
    var d: Byte := Shr(up[i0], shift0) % 0x100;
    i, shift := i0, shift0 + bits;
    AboveInLimb(us, i0, shift0, bits);
    if shift >= 64 {
      i := i + 1;
      if i < un {
        shift := shift - 64;
        SmallOr(d, Shl(up[i], bits - shift) % 0x100);
        AboveInTwo(us, i0, shift0, bits, d);
        d := Bits(Or, d, Shl(up[i], bits - shift) % 0x100);
      }
    }
    AndMask(d, bits);
    digit := Bits(And, d, mask);
  }

  /** The number above bit `shift` of limb i. */
  ghost function AboveBit(us: seq<Limb>, i: nat, shift: nat): nat
    requires i < |us| && shift < 64
  {
    MulPos(Val(us[i + 1..]), Pow2(64 - shift));
    Shr(us[i], shift) + Mul(Val(us[i + 1..]), Pow2(64 - shift))
  }

  lemma SmallPow(bits: nat)
    requires 1 <= bits <= 8
    ensures 2 <= Pow2(bits) <= 0x100
  {
    Pow2Mono(1, bits);
    Pow2Mono(bits, 8);
    Pow2Of64();
    OnePow();
  }

  lemma SmallOr(x: Byte, y: Byte)
    ensures Bits(Or, x, y) < 0x100
  {
    Pow2Of64();
    BitsBound(Or, x, y, 8);
  }

  /** Masking keeps the low bits. */
  lemma AndMask(x: nat, n: nat)
    ensures Bits(And, x, Pow2(n) - 1) == x % Pow2(n)
  {
    hide Bits, Bit, Pow2;
    DivMod(x, Pow2(n));
    var q, r := Quotient(x, Pow2(n)), x % Pow2(n);
    Product(q, Pow2(n));
    forall i: nat ensures Bit(Bits(And, x, Pow2(n) - 1), i) == Bit(r, i) {
      BitsBit(And, x, Pow2(n) - 1, i);
      OnesBit(n, i);
      BitSplit(r, q, n, i);
      if i >= n {
        HighBit(r, n, i);
      }
    }
    SameBits(Bits(And, x, Pow2(n) - 1), r);
  }

  /** Reducing modulo a larger power of two first changes nothing. */
  lemma ModTwice(x: nat, m: nat, n: nat)
    requires m <= n
    ensures (x % Pow2(n)) % Pow2(m) == x % Pow2(m)
  {
    hide Pow2;
    DivMod(x, Pow2(n));
    DivMod(x % Pow2(n), Pow2(m));
    Pow2Add(n - m, m);
    ModAlgebra(x, x / Pow2(n), x % Pow2(n), Pow2(n - m), Pow2(m), Pow2(n));
  }

  lemma ModAlgebra(x: int, q: int, r: int, c: int, m: nat, n: nat)
    requires m > 0 && n == c * m && x == Mul(q, n) + r && r == Mul(r / m, m) + r % m
    ensures r % m == x % m
  {
    Assoc(q, c, m);
    Dist(q * c, r / m, m);
    DivIs(x, q * c + r / m, r % m, m);
  }

  /** Adding a multiple of the modulus changes nothing. */
  lemma ModPlus(x: nat, k: nat, m: nat, n: nat)
    requires m <= n
    ensures Mul(k, Pow2(n)) >= 0 && (x + Mul(k, Pow2(n))) % Pow2(m) == x % Pow2(m)
  {
    hide Pow2;
    MulPos(k, Pow2(n));
    DivMod(x, Pow2(m));
    Pow2Add(n - m, m);
    PlusAlgebra(x, k, Pow2(n - m), Pow2(m), Pow2(n));
  }

  lemma PlusAlgebra(x: int, k: int, c: int, m: nat, n: nat)
    requires m > 0 && n == c * m && x == Mul(x / m, m) + x % m
    ensures (x + Mul(k, n)) % m == x % m
  {
    Assoc(k, c, m);
    Dist(k * c, x / m, m);
    DivIs(x + k * n, k * c + x / m, x % m, m);
  }

  /** A digit that ends in its limb. */
  lemma AboveInLimb(us: seq<Limb>, i: nat, shift: nat, bits: nat)
    requires i < |us| && shift < 64 && 1 <= bits <= 8
    ensures shift + bits <= 64 || i + 1 == |us| ==>
              (Shr(us[i], shift) % 0x100) % Pow2(bits) == AboveBit(us, i, shift) % Pow2(bits)
  {
    hide Val, Pow2, Mul, Shr;
    Pow2Of64();
    ModTwice(Shr(us[i], shift), bits, 8);
    if shift + bits <= 64 {
      ModPlus(Shr(us[i], shift), Val(us[i + 1..]), bits, 64 - shift);
    } else if i + 1 == |us| {
      NothingAbove(us[i + 1..], Pow2(64 - shift));
    }
  }

  lemma NothingAbove(s: seq<Limb>, p: int)
    requires s == []
    ensures Mul(Val(s), p) == 0
  {
  }

  lemma ModBit(x: nat, n: nat, j: nat)
    ensures Bit(x % Pow2(n), j) == (j < n && Bit(x, j))
  {
    hide Bits, Bit, Pow2;
    AndMask(x, n);
    BitsBit(And, x, Pow2(n) - 1, j);
    OnesBit(n, j);
  }

  lemma ShlBit(x: Limb, t: nat, j: nat)
    requires j < 8
    ensures Bit(Shl(x, t) % 0x100, j) == (j >= t && Bit(x, j - t))
  {
    hide Bit, Pow2;
    Pow2Of64();
    ModBit(Shl(x, t), 8, j);
    MulPos(x, Pow2(t));
    ModBit(x * Pow2(t), 64, j);
    ShiftedBit(x, t, j);
  }

  /** The bits at a position of a number, in two adjacent limbs. */
  lemma AboveBits(us: seq<Limb>, i: nat, shift: nat, j: nat)
    requires i + 1 < |us| && 0 < shift < 64 && j < 64
    ensures var t := 64 - shift;
            Shr(us[i], shift) < Pow2(t)
            && Bit(AboveBit(us, i, shift), j) == if j < t then Bit(Shr(us[i], shift), j) else Bit(us[i + 1], j - t)
  {
    hide Bit, Pow2, Val, Mul, Shr;
    var t, rest := 64 - shift, us[i + 1..];
    assert 64 - t == shift;
    ShiftLimb(us[i], t);
    Product(Val(rest), Pow2(t));
    BitSplit(Shr(us[i], shift), Val(rest), t, j);
    if j >= t {
      LimbBits(rest, 0, j - t);
      assert 64 * 0 + (j - t) == j - t;
    }
  }

  /** A digit whose high part is in the next limb. */
  lemma AboveInTwo(us: seq<Limb>, i: nat, shift: nat, bits: nat, d: Byte)
    requires i + 1 < |us| && shift < 64 <= shift + bits && 1 <= bits <= 8 && d == Shr(us[i], shift) % 0x100
    ensures Bits(Or, d, Shl(us[i + 1], 64 - shift) % 0x100) % Pow2(bits) == AboveBit(us, i, shift) % Pow2(bits)
  {
    hide Bit, Bits, Pow2, AboveBit, Shl, Shr, Val;
    var y := Shl(us[i + 1], 64 - shift) % 0x100;
    var l, r := Bits(Or, d, y), AboveBit(us, i, shift);
    Remainders2(l, r, bits);
    forall j: nat ensures Bit(l % Pow2(bits), j) == Bit(r % Pow2(bits), j) {
      ModBit(l, bits, j);
      ModBit(r, bits, j);
      if j < bits {
        BitsBit(Or, d, y, j);
        AboveBits(us, i, shift, j);
        ShlBit(us[i + 1], 64 - shift, j);
        Pow2Of64();
        ModBit(Shr(us[i], shift), 8, j);
        if j >= 64 - shift {
          HighBit(Shr(us[i], shift), 64 - shift, j);
        }
      }
    }
    SameBits(l % Pow2(bits), r % Pow2(bits));
  }

  lemma Remainders2(x: nat, y: nat, n: nat)
    ensures x % Pow2(n) >= 0 && y % Pow2(n) >= 0
  {
  }

  /** s has the low digits of v, and q is what is above them. */
  ghost predicate Written(s: seq<Byte>, q: nat, v: nat, b: nat) {
    Digits(s, b) && v == Num(s, b) + Mul(q, PowB(b, |s|))
  }

  lemma WrittenStart(v: nat, b: nat)
    ensures Written([], v, v, b)
  {
    NumNothing(b);
  }

  lemma WrittenStep(s: seq<Byte>, q: nat, v: nat, b: nat, d: Byte, q': nat)
    requires Written(s, q, v, b) && 2 <= b && d < b && q == Mul(q', b) + d
    ensures Written([d] + s, q', v, b)
  {
    hide Mul, Num, PowB;
    NumCons(d, s, b);
    PowBStep(b, |s|);
    StepAlgebra(q, q', b, d, PowB(b, |s|), PowB(b, |s| + 1));
  }

  lemma StepAlgebra(q: int, q': int, b: int, d: int, p: int, p': int)
    requires q == Mul(q', b) + d && p' == Mul(b, p)
    ensures Mul(q, p) == Mul(d, p) + Mul(q', p')
  {
    Dist(q' * b, d, p);
    Assoc(q', b, p);
  }

  /** What is above t digits of bits each is what is above that many bits. */
  lemma WrittenAbove(s: seq<Byte>, q: nat, us: seq<Limb>, bits: nat, i: nat, shift: nat)
    requires Written(s, q, Val(us), Pow2(bits)) && i < |us| && shift < 64 && 64 * i + shift == bits * |s|
    ensures q == AboveBit(us, i, shift)
  {
    hide Mul, Num, PowB, Pow2, Val;
    var b := Pow2(bits);
    NumBound(s, b);
    PowBits(bits, |s|);
    BitsOfIs(bits, |s|);
    var lo, hi := SplitLimbs(us, i, shift);
    Product(q, PowB(b, |s|));
    Product(hi, PowB(b, |s|));
    DivUnique(Num(s, b), q, lo, hi, PowB(b, |s|));
  }

  lemma WrittenEnd(s: seq<Byte>, q: nat, v: nat, b: nat)
    requires Written(s, q, v, b) && Length(|s|, v, b) && b >= 2
    ensures Writes(s, v, b)
  {
    hide Mul, Num, PowB;
    NothingLeft(q, PowB(b, |s|), v);
    LengthWrites(s, v, b);
  }

  lemma NothingLeft(q: nat, p: nat, v: nat)
    requires v < p && v >= Mul(q, p)
    ensures q == 0 && Mul(q, p) == 0
  {
    if q > 0 {
      MulLe(1, q, p);
    }
  }

  /** How many digits of the given bits a number of n bits has. */
  lemma DigitsFor(v: nat, n: nat, bits: nat, sn: nat)
    requires n > 0 && bits > 0 && Pow2(n - 1) <= v < Pow2(n) && sn == (n + bits - 1) / bits
    ensures Length(sn, v, Pow2(bits)) && bits * sn >= n > bits * (sn - 1)
  {
    hide Pow2, PowB, Mul;
    var c := CeilBits(n, bits);
    assert c == sn;
    BitsOfIs(bits, sn);
    BitsOfIs(bits, sn - 1);
    PowBits(bits, sn);
    PowBits(bits, sn - 1);
    Pow2Mono(n, bits * sn);
    Pow2Mono(bits * (sn - 1), n - 1);
  }

  lemma CeilBits(n: nat, bits: nat) returns (c: nat)
    requires bits > 0 && n > 0
    ensures c == (n + bits - 1) / bits && c > 0 && c * bits == bits * c >= n && bits * (c - 1) < n
  {
    DivMod(n + bits - 1, bits);
    var q := (n + bits - 1) / bits;
    if q <= 0 {
      MulLe(q, 0, bits);
    }
    c := q;
    Dist(c, 1, bits);
  }

  lemma RoomForDigits(sn: nat, v: nat, b: nat, room: nat)
    requires Length(sn, v, b) && v < PowB(b, room) && b >= 2 && v > 0
    ensures sn <= room
  {
    if room < sn {
      PowBMono(b, room, sn - 1);
    }
  }

  lemma NextPosition(bits: nat, t: nat)
    ensures bits * (t + 1) == bits * t + bits
  {
  }

  lemma BelowTotal(bits: nat, t: nat, sn: nat, n: nat)
    requires t < sn && bits * (sn - 1) < n
    ensures bits * t < n
  {
    MulLe(t, sn - 1, bits);
  }

  /** mpn_get_str_bits */
  method GetStrBits(sp: array<Byte>, so: nat, bits: nat, up: array<Limb>, un: nat) returns (sn: nat)
    requires 1 <= bits <= 8 && 0 < un <= up.Length && up[un - 1] > 0 && so <= sp.Length
    requires Val(up[..un]) < PowB(Pow2(bits), sp.Length - so)
    modifies sp
    ensures so + sn <= sp.Length && Writes(sp[so..so + sn], Val(up[..un]), Pow2(bits))
    ensures sp[..so] == old(sp[..so]) && sp[so + sn..] == old(sp[so + sn..])
  {
    hide Val, Mul, Pow2, PowB, Num, Writes, Written, Length, Digits, AboveBit;
    ghost var us, v, b, s0 := up[..un], Val(up[..un]), Pow2(bits), sp[..];
    var size := LimbSize2(up[un - 1]);
    BitLength(us, size);
    ghost var n := 64 * (un - 1) + size;
    sn := ((un - 1) * 64 + size + bits - 1) / bits;
    DigitsFor(v, n, bits, sn);
    SmallPow(bits);
    Positive2(v, n - 1);
    RoomForDigits(sn, v, b, sp.Length - so);
    ghost var s: seq<Byte>, q: nat := [], v;
    WrittenStart(v, b);
    var i, j, shift := 0, sn, 0;
    while j > 0
      invariant 0 <= j <= sn && |s| == sn - j && so + sn <= sp.Length
      invariant Written(s, q, v, b) && up[..un] == us
      invariant j > 0 ==> i < un && shift < 64 && 64 * i + shift == bits * |s|
      invariant sp[..so] == s0[..so] && sp[so + sn..] == s0[so + sn..] && sp[so + j..so + sn] == s
    {
      j := j - 1;
      WrittenAbove(s, q, us, bits, i, shift);
      var digit;
      digit, i, shift := NextDigit(up, un, i, shift, bits);
      DivMod(q, b);
      WrittenStep(s, q, v, b, digit, Quotient(q, b));
      NextPosition(bits, |s|);
      if j > 0 {
        BelowTotal(bits, |s| + 1, sn, n);
      }
      sp[so + j] := digit;
      q := Quotient(q, b);
      s := [digit] + s;
      assert sp[so + j..so + sn] == [digit] + sp[so + j + 1..so + sn];
    }
    WrittenEnd(s, q, v, b);
    assert sp[so..so + sn] == s;
  }

  lemma Positive2(v: nat, n: nat)
    requires Pow2(n) <= v
    ensures v > 0
  {
  }

  // ----- other bases, to digits

  /** One division of mpn_limb_get_str: the low digit of a limb, by the shifted divisor. */
  method DivDigit(w: Limb, inv: Inverse, ghost b: Limb) returns (q: Limb, r: Limb)
    requires Inverts1(inv, b) && 2 <= b <= 0x100
    ensures w == Mul(q, b) + r && r < b
  {
    hide Mul, Pow2, Recip21, Shl, Shr;
    Recip21Normalised(inv.d1, inv.di);
    ShiftIsPositive(inv, b);
    var h, l := Shr(w, 64 - inv.shift), Shl(w, inv.shift);
    ShiftLimb(w, inv.shift);
    DivisorAbove(h, b, Pow2(inv.shift), inv.d1);
    q, r := Udiv21(h, l, inv.d1, inv.di);
    Product(q, inv.d1);
    Unshift(w, b, q, r, Pow2(inv.shift), Mul(w, Pow2(inv.shift)), inv.d1);
    ShrIs(r, inv.shift);
    r := Shr(r, inv.shift);
  }

  lemma ShrIs(x: Limb, s: nat)
    ensures Shr(x, s) == x / Pow2(s)
  {
  }

  lemma DivisorAbove(h: int, b: int, p: int, d: int)
    requires h < p && p > 0 && b >= 1 && d == Mul(b, p)
    ensures h < d
  {
    MulLe(1, b, p);
  }

  lemma ShiftIsPositive(inv: Inverse, b: Limb)
    requires Inverts1(inv, b) && b <= 0x100 && B <= 2 * inv.d1
    ensures 1 <= inv.shift < 64
  {
    assert inv.shift == 0 ==> Pow2(inv.shift) == 1 && inv.d1 == b;
  }

  /** A number of which some digits are written has room for those that are left. */
  lemma RoomLeft(s: seq<Byte>, q: nat, v: nat, b: nat, room: nat)
    requires Written(s, q, v, b) && v < PowB(b, room) && q > 0 && b >= 2
    ensures |s| < room && q < PowB(b, room - |s|)
  {
    hide Mul, Num, PowB;
    LeadingDigit(q, PowB(b, |s|));
    if room <= |s| {
      PowBMono(b, room, |s|);
    } else {
      PowBAdd(b, room - |s|, |s|);
      NotAbove(q, PowB(b, room - |s|), PowB(b, |s|));
    }
  }

  lemma NotAbove(q: int, p: int, c: int)
    requires Mul(q, c) < Mul(p, c) && c >= 0
    ensures q < p
  {
    if q >= p {
      MulLe(p, q, c);
    }
  }

  /** mpn_limb_get_str: the digits of a limb, the lowest first. */
  method LimbGetStr(sp: array<Byte>, so: nat, w0: Limb, inv: Inverse, ghost b: Limb) returns (n: nat)
    requires Inverts1(inv, b) && 2 <= b <= 0x100 && so <= sp.Length && w0 < PowB(b, sp.Length - so)
    modifies sp
    ensures so + n <= sp.Length && Written(Reversed(sp[so..so + n]), 0, w0, b)
    ensures if w0 > 0 then Length(n, w0, b) else n == 0
    ensures sp[..so] == old(sp[..so]) && sp[so + n..] == old(sp[so + n..])
  {
    hide Mul, PowB, Num, Written, Length, Digits, Inverts1, Reversed;
    ghost var s0, s, last: nat := sp[..], [], 0;
    var w := w0;
    n := 0;
    WrittenStart(w0, b);
    ReversedNothing(sp[so..so]);
    while w > 0
      invariant so + n <= sp.Length && s == Reversed(sp[so..so + n]) && Written(s, w, w0, b)
      invariant sp[..so] == s0[..so] && sp[so + n..] == s0[so + n..]
      invariant if n == 0 then w == w0 else w0 > 0
      invariant n > 0 ==> PowB(b, n - 1) <= w0
    {
      RoomLeft(s, w, w0, b, sp.Length - so);
      AtLeast(s, w, w0, b);
      var q, r := DivDigit(w, inv, b);
      Smaller(w, q, b, r);
      WrittenStep(s, w, w0, b, r, q);
      ghost var l := sp[so..so + n];
      sp[so + n] := r;
      assert sp[so..so + n + 1] == l + [r];
      ReversedSnoc(l, r);
      s := [r] + s;
      w := q;
      n := n + 1;
    }
    if w0 > 0 {
      WrittenLength(s, w0, b);
    }
  }

  lemma Smaller(w: int, q: int, b: int, r: int)
    requires w > 0 && b >= 2 && w == Mul(q, b) + r && 0 <= r && q >= 0
    ensures q < w
  {
    MulLe(2, b, q);
  }

  lemma ReversedNothing(s: seq<Byte>)
    requires s == []
    ensures Reversed(s) == []
  {
  }

  lemma AtLeast(s: seq<Byte>, q: nat, v: nat, b: nat)
    requires Written(s, q, v, b) && q > 0
    ensures PowB(b, |s|) <= v
  {
    LeadingDigit(q, PowB(b, |s|));
  }

  lemma WrittenLength(s: seq<Byte>, v: nat, b: nat)
    requires Written(s, 0, v, b) && b > 0 && s != [] && v > 0 && PowB(b, |s| - 1) <= v
    ensures Length(|s|, v, b)
  {
    NumBound(s, b);
  }

  /** A whole chunk of digits in front of those written so far. */
  lemma WrittenChunk(s: seq<Byte>, x: nat, v: nat, b: nat, c: seq<Byte>, w: nat, q: nat)
    requires Written(s, x, v, b) && Written(c, 0, w, b) && x == Mul(q, PowB(b, |c|)) + w
    ensures Written(c + s, q, v, b)
  {
    hide Mul, Num, PowB;
    NumConcat(c, s, b);
    PowBAdd(b, |c|, |s|);
    DigitsConcat(c, s, b);
    ZeroOne(0, PowB(b, |c|));
    ChunkAlgebra(x, q, w, PowB(b, |c|), PowB(b, |s|), PowB(b, |c| + |s|));
  }

  lemma ChunkAlgebra(x: int, q: int, w: int, p: int, r: int, pr: int)
    requires x == Mul(q, p) + w && pr == Mul(p, r)
    ensures Mul(x, r) == Mul(w, r) + Mul(q, pr)
  {
    Dist(q * p, w, r);
    Assoc(q, p, r);
  }

  /** The i outermost digits at either end are swapped. */
  ghost predicate HalfReversed(now: seq<Byte>, l: seq<Byte>, i: nat) {
    |now| == |l| && forall k :: 0 <= k < |l| ==> now[k] == Swapped(l, i, k)
  }

  ghost function Swapped(l: seq<Byte>, i: nat, k: nat): Byte
    requires k < |l|
  {
    if k < i || k >= |l| - i then l[|l| - 1 - k] else l[k]
  }

  lemma HalfReversedStep(now: seq<Byte>, l: seq<Byte>, i: nat)
    requires HalfReversed(now, l, i) && 2 * i + 1 < |l|
    ensures HalfReversed(now[i := now[|l| - 1 - i]][|l| - 1 - i := now[i]], l, i + 1)
  {
    var j := |l| - 1 - i;
    var new_ := now[i := now[j]][j := now[i]];
    assert now[i] == l[i] && now[j] == l[j];
    forall k | 0 <= k < |l| ensures new_[k] == Swapped(l, i + 1, k) {
      assert now[k] == Swapped(l, i, k);
      assert k == j ==> |l| - 1 - k == i;
    }
  }

  lemma HalfReversedEnd(now: seq<Byte>, l: seq<Byte>, i: nat)
    requires HalfReversed(now, l, i) && 2 * i + 1 >= |l|
    ensures now == Reversed(l)
  {
    hide Reversed;
    forall k | 0 <= k < |l| ensures now[k] == Reversed(l)[k] {
      ReversedAt(l, k);
      assert !(k < i || k >= |l| - i) ==> k == |l| - 1 - k;
    }
    assert now == Reversed(l);
  }

  /** The digits from so to so + n are put in the opposite order. */
  method ReverseDigits(sp: array<Byte>, so: nat, n: nat)
    requires so + n <= sp.Length
    modifies sp
    ensures sp[so..so + n] == Reversed(old(sp[so..so + n]))
    ensures sp[..so] == old(sp[..so]) && sp[so + n..] == old(sp[so + n..])
  {
    hide Reversed;
    ghost var s0, l := sp[..], sp[so..so + n];
    var i := 0;
    assert HalfReversed(l, l, 0);
    hide HalfReversed;
    while 2 * i + 1 < n
      invariant 0 <= i && HalfReversed(sp[so..so + n], l, i)
      invariant sp[..so] == s0[..so] && sp[so + n..] == s0[so + n..]
    {
      ghost var now := sp[so..so + n];
      HalfReversedStep(now, l, i);
      var t := sp[so + i];
      sp[so + i] := sp[so + n - i - 1];
      sp[so + n - i - 1] := t;
      assert sp[so..so + n] == now[i := now[n - 1 - i]][n - 1 - i := now[i]];
      i := i + 1;
    }
    HalfReversedEnd(sp[so..so + n], l, i);
  }

  /** Dividing a number of at least two limbs by one leaves a number with one limb less or as many. */
  lemma TopAfter(us: seq<Limb>, qs: seq<Limb>, d: Limb, w: Limb) returns (un: nat)
    requires |us| == |qs| >= 2 && us[|us| - 1] > 0 && w < d
    requires Val(us) == Mul(Val(qs), d) + w
    ensures un == (if qs[|qs| - 1] == 0 then |qs| - 1 else |qs|) && un > 0 && qs[un - 1] > 0
    ensures Val(qs[..un]) == Val(qs) > 0
  {
    hide Val, Mul, Pow;
    var n := |us|;
    ValPositive(us);
    un := n;
    if qs[n - 1] == 0 {
      ValZeroTop(qs);
      un := n - 1;
      var t := qs[..n - 1];
      if t[n - 2] == 0 {
        assert t[..n - 2] == qs[..n - 2];
        ValZeroTop(t);
        TooSmall(Val(t[..n - 2]), Pow(n - 2), d, w, Pow(n - 1)) by { PowNext(n - 2); }
      }
      ValPositive(t);
    } else {
      ValPositive(qs);
      assert qs[..n] == qs;
    }
  }

  lemma TooSmall(x: nat, p: nat, d: Limb, w: Limb, q: nat)
    requires x < p && w < d && q == B * p
    ensures Mul(x, d) + w < q
  {
    MulLe(x, p - 1, d);
    MulLe(d, B, p);
    Dist(p, 1, d);
  }

  /** Leading zeros of a chunk. */
  lemma WrittenZero(s: seq<Byte>, v: nat, b: nat)
    requires Written(s, 0, v, b) && b >= 2
    ensures Written([0] + s, 0, v, b)
  {
    ZeroOne(0, b);
    WrittenStep(s, 0, v, b, 0, 0);
  }

  /** The part of mpn_get_str_other that writes a limb as a full chunk of exp digits. */
  method PutChunk(sp: array<Byte>, so: nat, w: Limb, inv: Inverse, exp: nat, ghost b: Limb)
    requires Inverts1(inv, b) && 2 <= b <= 0x100 && so + exp <= sp.Length && w < PowB(b, exp) && exp > 0
    modifies sp
    ensures Written(Reversed(sp[so..so + exp]), 0, w, b)
    ensures sp[..so] == old(sp[..so]) && sp[so + exp..] == old(sp[so + exp..])
  {
    hide Mul, PowB, Num, Written, Length, Digits, Inverts1, Reversed;
    ghost var s0 := sp[..];
    PowBMono(b, exp, sp.Length - so);
    var done := LimbGetStr(sp, so, w, inv, b);
    AtMostExp(done, w, b, exp, sp[so..so + done]);
    assert sp[so + exp..] == sp[so + done..][exp - done..] == s0[so + done..][exp - done..] == s0[so + exp..];
    while done < exp
      invariant done <= exp && Written(Reversed(sp[so..so + done]), 0, w, b)
      invariant sp[..so] == s0[..so] && sp[so + exp..] == s0[so + exp..]
    {
      ghost var l := sp[so..so + done];
      WrittenZero(Reversed(l), w, b);
      ReversedSnoc(l, 0);
      sp[so + done] := 0;
      assert sp[so..so + done + 1] == l + [0];
      done := done + 1;
    }
  }

  /** The digits of a limb below b to the power exp are no more than exp. */
  lemma AtMostExp(n: nat, w: nat, b: nat, exp: nat, l: seq<Byte>)
    requires b >= 2 && w < PowB(b, exp) && |l| == n && Written(Reversed(l), 0, w, b) && (w > 0 ==> Length(n, w, b))
    requires w == 0 ==> n == 0
    ensures n <= exp
  {
    if w > 0 {
      RoomForDigits(n, w, b, exp);
    }
  }

  /** Room for one more chunk, when something is left above it. */
  lemma RoomForChunk(s: seq<Byte>, x: nat, q: nat, w: nat, v: nat, b: nat, exp: nat, room: nat)
    requires Written(s, x, v, b) && x == Mul(q, PowB(b, exp)) + w && q > 0 && v < PowB(b, room) && b >= 2
    ensures |s| + exp < room
  {
    hide Mul, Num, PowB;
    PowBMono(b, 0, exp);
    NumNothing(b);
    LeadingDigit(q, PowB(b, exp));
    LeadingDigit2(x, PowB(b, exp), PowB(b, |s|));
    PowBAdd(b, exp, |s|);
    if room <= |s| + exp {
      PowBMono(b, room, exp + |s|);
    }
  }

  lemma LeadingDigit2(x: int, p: int, c: int)
    requires x >= p && c >= 0
    ensures Mul(x, c) >= Mul(p, c)
  {
    MulLe(p, x, c);
  }

  /** The last limb's digits, and with them all. */
  lemma LastDigits(s: seq<Byte>, x: nat, v: nat, b: nat, c: seq<Byte>)
    requires Written(s, x, v, b) && Written(c, 0, x, b) && x > 0 && Length(|c|, x, b) && b >= 2
    ensures Writes(c + s, v, b) && Length(|c + s|, v, b)
  {
    hide Mul, Num, PowB;
    ZeroOne(0, PowB(b, |c|));
    ZeroTimesAny(PowB(b, |c|));
    WrittenChunk(s, x, v, b, c, x, 0);
    PowBAdd(b, |c| - 1, |s|);
    assert |c| - 1 + |s| == |c + s| - 1;
    LeadingDigit2(x, PowB(b, |c| - 1), PowB(b, |s|));
    PowBPositive(b, |c| - 1);
    PowBPositive(b, |s|);
    NumBound(c + s, b);
    ZeroTimesAny(PowB(b, |c + s|));
    PositiveAbove(PowB(b, |s|), x, v);
    WrittenEnd(c + s, 0, v, b);
  }

  lemma ZeroTimesAny(p: int)
    ensures Mul(0, p) == 0
  {
  }

  lemma PositiveAbove(p: int, x: int, v: int)
    requires p > 0 && x > 0 && v >= Mul(x, p)
    ensures v > 0
  {
    MulLe(1, x, p);
  }

  /** One limb's worth of digits in mpn_get_str_other: divide by the chunk's power and write the remainder. */
  method GetChunk(sp: array<Byte>, so: nat, sn: nat, up: array<Limb>, un: nat, info: BaseInfo, bbinv: Inverse,
                  binv: Inverse, ghost b: Limb, ghost v: nat)
    returns (un': nat)
    requires 2 <= b <= 0x100 && IsInfo(info, b) && Inverts1(bbinv, info.bb) && Inverts1(binv, b)
    requires 2 <= un <= up.Length && up[un - 1] > 0 && so + sn <= sp.Length && v < PowB(b, sp.Length - so)
    requires Written(Reversed(sp[so..so + sn]), Val(up[..un]), v, b)
    modifies sp, up
    ensures 0 < un' <= un && up[un' - 1] > 0 && so + sn + info.exp <= sp.Length
    ensures Val(up[..un']) < old(Val(up[..un]))
    ensures Written(Reversed(sp[so..so + sn + info.exp]), Val(up[..un']), v, b)
    ensures sp[..so] == old(sp[..so]) && sp[so + sn + info.exp..] == old(sp[so + sn + info.exp..])
  {
    hide Mul, PowB, Num, Written, Digits, Inverts1, Reversed, Val, Pow;
    ghost var us, l, s0 := up[..un], sp[so..so + sn], sp[..];
    var w;
    ghost var qs;
    w, qs := Div1Preinv(up, up, un, bbinv, info.bb);
    assert up[..un] == qs;
    ghost var n := TopAfter(us, qs, info.bb, w);
    un' := if up[un - 1] == 0 then un - 1 else un;
    assert up[..un'] == qs[..n];
    ReversedLength(l);
    RoomForChunk(Reversed(l), Val(us), Val(qs), w, v, b, info.exp, sp.Length - so);
    PutChunk(sp, so + sn, w, binv, info.exp, b);
    ghost var c := sp[so + sn..so + sn + info.exp];
    WrittenChunk(Reversed(l), Val(us), v, b, Reversed(c), w, Val(qs));
    ReversedConcat(l, c);
    assert sp[so..so + sn] == sp[..so + sn][so..] == l;
    assert sp[so..so + sn + info.exp] == l + c;
    assert sp[..so] == sp[..so + sn][..so] == s0[..so];
    Smaller2(Val(us), Val(qs), info.bb, w);
  }

  lemma Smaller2(x: int, q: int, d: int, w: int)
    requires x == Mul(q, d) + w && q > 0 && d >= 2 && w >= 0
    ensures q < x
  {
    MulLe(2, d, q);
  }

  lemma ReversedLength(l: seq<Byte>)
    ensures |Reversed(l)| == |l|
  {
  }

  lemma {:induction false} ReversedConcat(s: seq<Byte>, t: seq<Byte>)
    ensures Reversed(s + t) == Reversed(t) + Reversed(s)
  {
    if s == [] {
      assert s + t == t;
    } else {
      assert (s + t)[1..] == s[1..] + t && (s + t)[0] == s[0];
      ReversedConcat(s[1..], t);
    }
  }

  /** The digits of the last limb, which is not zero. */
  method LastChunk(sp: array<Byte>, so: nat, sn: nat, up: array<Limb>, binv: Inverse, ghost b: Limb, ghost v: nat)
    returns (n: nat)
    requires 2 <= b <= 0x100 && Inverts1(binv, b) && up.Length > 0 && up[0] > 0 && so + sn <= sp.Length
    requires v < PowB(b, sp.Length - so) && Written(Reversed(sp[so..so + sn]), Val(up[..1]), v, b)
    modifies sp
    ensures sn <= n && so + n <= sp.Length && Writes(Reversed(sp[so..so + n]), v, b)
    ensures sp[..so] == old(sp[..so]) && sp[so + n..] == old(sp[so + n..])
  {
    hide Mul, PowB, Num, Written, Digits, Inverts1, Reversed, Val, Pow, Length, Writes;
    ghost var l, s0 := sp[so..so + sn], sp[..];
    OneLimb1(up[..1]);
    ReversedLength(l);
    RoomLeft(Reversed(l), Val(up[..1]), v, b, sp.Length - so);
    n := LimbGetStr(sp, so + sn, up[0], binv, b);
    ghost var c := sp[so + sn..so + sn + n];
    ReversedLength(c);
    LastDigits(Reversed(l), up[0], v, b, Reversed(c));
    ReversedConcat(l, c);
    assert sp[so..so + sn] == sp[..so + sn][so..] == s0[..so + sn][so..] == l;
    assert sp[so..so + sn + n] == l + c;
    assert sp[..so] == sp[..so + sn][..so] == s0[..so];
    n := sn + n;
  }

  /**
   mpn_get_str_other: chunks of digits from the low end, then the digits of the last limb,
   then all of them reversed.
   */
  method GetStrOther(sp: array<Byte>, so: nat, b: Limb, info: BaseInfo, up: array<Limb>, un0: nat) returns (sn: nat)
    requires 2 <= b <= 0x100 && IsInfo(info, b) && 0 < un0 <= up.Length && up[un0 - 1] > 0 && so <= sp.Length
    requires Val(up[..un0]) < PowB(b, sp.Length - so)
    modifies sp, up
    ensures so + sn <= sp.Length && Writes(sp[so..so + sn], old(Val(up[..un0])), b)
    ensures sp[..so] == old(sp[..so]) && sp[so + sn..] == old(sp[so + sn..])
  {
    hide Mul, PowB, Num, Written, Digits, Inverts1, Reversed, Val, Pow, Length, Writes;
    ghost var v, s0 := Val(up[..un0]), sp[..];
    var un := un0;
    var binv := Invert1(b);
    sn := 0;
    WrittenStart(v, b);
    ReversedNothing(sp[so..so]);
    if un > 1 {
      var bbinv := Invert1(info.bb);
      while un > 1
        invariant 0 < un <= up.Length && up[un - 1] > 0 && so + sn <= sp.Length
        invariant Written(Reversed(sp[so..so + sn]), Val(up[..un]), v, b)
        invariant sp[..so] == s0[..so] && sp[so + sn..] == s0[so + sn..]
        decreases Val(up[..un])
      {
        ghost var s1 := sp[..];
        un := GetChunk(sp, so, sn, up, un, info, bbinv, binv, b, v);
        TailTail(s1, s0, so + sn, so + sn + info.exp);
        sn := sn + info.exp;
      }
    }
    ghost var s2, m := sp[..], sn;
    sn := LastChunk(sp, so, sn, up, binv, b, v);
    TailTail(s2, s0, so + m, so + sn);
    assert sp[so + sn..] == s0[so + sn..];
    ReverseDigits(sp, so, sn);
  }

  lemma TailTail(s: seq<Byte>, t: seq<Byte>, m: nat, n: nat)
    requires |s| == |t| && m <= n <= |s| && s[m..] == t[m..]
    ensures s[n..] == t[n..]
  {
    assert s[n..] == s[m..][n - m..] && t[n..] == t[m..][n - m..];
  }

  lemma OneLimb1(s: seq<Limb>)
    requires |s| == 1
    ensures Val(s) == s[0]
  {
    ValOne(s[0]);
    assert s == [s[0]];
  }
}
