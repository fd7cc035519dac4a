/** mpn_set_str: digits to limbs. */
module MpnSetStr {
  import opened Arith
  import opened Limbs
  import opened PowersOfTwo
  import opened Bitwise
  import opened Reciprocal
  import opened Mpn
  import opened MpnSigned
  import opened MpzNumbers
  import opened MpzBitwise
  import opened ByteStrings
  import opened Radix
  import opened MpnText

  // ----- power-of-two bases

  /** Where the next digit goes: `shift` bits of the top limb are in use, or a new limb is due if that is 0. */
  ghost predicate Position(rs: seq<Limb>, shift: nat, pos: nat) {
    if shift == 0 then pos == 64 * |rs|
    else rs != [] && shift < 64 && pos == 64 * (|rs| - 1) + shift && rs[|rs| - 1] < Pow2(shift)
  }

  /** The top limb with a digit or'ed in, and what of the digit does not fit. */
  lemma OrDigit(top: Limb, d: Limb, shift: nat)
    requires 0 < shift < 64 && top < Pow2(shift)
    ensures Bits(Or, top, Shl(d, shift)) == top + Shl(d, shift) < B
    ensures Mul(d, Pow2(shift)) == Shl(d, shift) + B * Shr(d, 64 - shift)
  {
    hide Mul, Pow2, Bits, Shl, Shr, LowBits;
    ShiftLimb(d, shift);
    var l := LowBits(d, 64 - shift);
    Product(l, Pow2(shift));
    OrDisjoint(l, top, shift);
    BitsCommute(Or, top, Shl(d, shift));
    BitsLimb(Or, top, Shl(d, shift));
  }

  /** How much of a digit of the given bits goes into the next limb. */
  lemma DigitSpill(d: nat, bits: nat, shift: nat, top: nat)
    requires 0 < shift < 64 && 1 <= bits <= 8 && d < Pow2(bits) && d < B && top < Pow2(shift)
    ensures shift + bits <= 64 ==> Shr(d, 64 - shift) == 0 && top + Mul(d, Pow2(shift)) < Pow2(shift + bits)
    ensures shift + bits > 64 ==> Shr(d, 64 - shift) < Pow2(shift + bits - 64)
  {
    hide Mul, Pow2, Shr;
    Pow2Add(bits, shift);
    Combined(d, Pow2(bits), top, Pow2(shift));
    ShrParts(d, 64 - shift);
    if shift + bits <= 64 {
      Pow2Mono(bits, 64 - shift);
      NoQuotient(d, Shr(d, 64 - shift), Pow2(64 - shift));
    } else {
      Pow2Add(shift + bits - 64, 64 - shift);
      assert shift + bits - 64 + (64 - shift) == bits;
      SmallQuotient(d, Shr(d, 64 - shift), Pow2(64 - shift), Pow2(shift + bits - 64), Pow2(bits));
    }
  }

  lemma Combined(d: int, p: int, top: int, q: int)
    requires 0 <= d < p && 0 <= top < q
    ensures top + Mul(d, q) < p * q
  {
    MulLe(d + 1, p, q);
    Dist(d, 1, q);
  }

  lemma NoQuotient(d: int, q: nat, p: nat)
    requires d < p && d >= Mul(q, p)
    ensures q == 0
  {
    if q > 0 {
      MulLe(1, q, p);
    }
  }

  lemma SmallQuotient(d: int, q: nat, p: nat, r: nat, pr: nat)
    requires d < pr && pr == r * p && d >= Mul(q, p)
    ensures q < r
  {
    if q >= r {
      MulLe(r, q, p);
    }
  }

  /** The limbs after one more digit. */
  ghost function WithDigit(rs: seq<Limb>, shift: nat, bits: nat, d: Limb): seq<Limb>
    requires shift == 0 || (rs != [] && 0 < shift < 64 && rs[|rs| - 1] < Pow2(shift))
  {
    if shift == 0 then rs + [d] else
      OrDigit(rs[|rs| - 1], d, shift);
      var n := |rs| - 1;
      var low := rs[..n] + [Bits(Or, rs[n], Shl(d, shift))];
      if shift + bits > 64 then low + [Shr(d, 64 - shift)] else low
  }

  lemma WithDigitValue(rs: seq<Limb>, shift: nat, bits: nat, d: Limb, pos: nat)
    requires Position(rs, shift, pos) && 1 <= bits <= 8 && d < Pow2(bits)
    ensures var rs' := WithDigit(rs, shift, bits, d);
            && Val(rs') == Val(rs) + Mul(d, Pow2(pos))
            && Position(rs', if shift + bits >= 64 then shift + bits - 64 else shift + bits, pos + bits)
  {
    hide Val, Mul, Pow2, Bits, Shl, Shr, Pow;
    if shift == 0 {
      ValPush(rs, d);
      PowIsPow2(|rs|);
    } else {
      var n := |rs| - 1;
      var low, top := rs[..n], rs[n];
      assert rs == low + [top];
      OrDigit(top, d, shift);
      DigitSpill(d, bits, shift, top);
      var x: Limb := top + Shl(d, shift);
      ValPush(low, top);
      ValPush(low, x);
      PowIsPow2(n);
      Pow2Add(shift, 64 * n);
      Assoc3(d, Pow2(shift), Pow(n), Pow2(shift + 64 * n));
      if shift + bits > 64 {
        ValPush(low + [x], Shr(d, 64 - shift));
        PowNext(n);
        TwoLimbs(top, Shl(d, shift), Shr(d, 64 - shift), Mul(d, Pow2(shift)), Pow(n), Pow(n + 1));
      } else {
        OneLimb2(top, Shl(d, shift), Mul(d, Pow2(shift)), Pow(n));
      }
    }
  }

  lemma Assoc3(d: int, p: int, q: int, r: int)
    requires r == p * q
    ensures Mul(Mul(d, p), q) == Mul(d, r)
  {
    Assoc(d, p, q);
  }

  lemma TwoLimbs(top: int, l: int, h: int, x: int, p: int, q: int)
    requires x == l + B * h && q == B * p
    ensures Mul(top + l, p) + Mul(h, q) == Mul(top, p) + Mul(x, p)
  {
    Dist(top, l, p);
    Dist(l, B * h, p);
    Assoc(h, B, p);
  }

  lemma OneLimb2(top: int, l: int, x: int, p: int)
    requires x == l
    ensures Mul(top + l, p) == Mul(top, p) + Mul(x, p)
  {
    Dist(top, l, p);
  }

  /** Space for the limbs of a position. */
  lemma PositionRoom(rs: seq<Limb>, shift: nat, pos: nat, length: nat)
    requires Position(rs, shift, pos) && pos <= 64 * length
    ensures |rs| <= length && shift < 64 && (shift > 0 ==> |rs| > 0 && rs[|rs| - 1] < Pow2(shift))
    ensures shift == 0 && pos < 64 * length ==> |rs| < length
  {
  }

  lemma PositionStart(rs: seq<Limb>)
    requires rs == []
    ensures Position(rs, 0, 0) && Val(rs) == 0
  {
  }

  /** One digit of mpn_set_str_bits. */
  method PutDigit(rp: array<Limb>, rn0: nat, shift0: nat, bits: nat, d: Byte, ghost pos: nat)
    returns (rn: nat, shift: nat)
    requires rn0 <= rp.Length && 1 <= bits <= 8 && d < Pow2(bits)
    requires Position(rp[..rn0], shift0, pos) && pos + bits <= 64 * rp.Length
    modifies rp
    ensures rn <= rp.Length && Position(rp[..rn], shift, pos + bits)
    ensures Val(rp[..rn]) == Val(old(rp[..rn0])) + Mul(d, Pow2(pos))
  {
    hide Val, Mul, Pow2, Bits, Shl, Shr, Position;
    ghost var rs := rp[..rn0];
    PositionRoom(rs, shift0, pos, rp.Length);
    WithDigitValue(rs, shift0, bits, d, pos);
    rn, shift := rn0, shift0;
    if shift == 0 {
      WithDigitRoom(rs, shift0, bits, d, pos, rp.Length);
      rp[rn] := d;
      rn := rn + 1;
      shift := shift + bits;
      assert rp[..rn] == rs + [d];
    } else {
      WithDigitRoom(rs, shift0, bits, d, pos, rp.Length);
      OrDigit(rp[rn - 1], d, shift);
      rp[rn - 1] := Bits(Or, rp[rn - 1], Shl(d, shift));
      ghost var low := rs[..rn - 1] + [rp[rn - 1]];
      assert rp[..rn] == low;
      shift := shift + bits;
      if shift >= 64 {
        shift := shift - 64;
        if shift > 0 {
          rp[rn] := Shr(d, bits - shift);
          rn := rn + 1;
          assert rp[..rn] == low + [Shr(d, 64 - shift0)];
        }
      }
    }
  }

  lemma WithDigitRoom(rs: seq<Limb>, shift: nat, bits: nat, d: Limb, pos: nat, length: nat)
    requires Position(rs, shift, pos) && 1 <= bits <= 8 && d < Pow2(bits) && pos + bits <= 64 * length
    ensures |WithDigit(rs, shift, bits, d)| <= length
    ensures |WithDigit(rs, shift, bits, d)| == if shift == 0 || shift + bits > 64 then |rs| + 1 else |rs|
  {
  }

  /** mpn_set_str_bits: the digits from the last one on. */
  method SetStrBits(rp: array<Limb>, sp: array<Byte>, sn: nat, bits: nat) returns (rn: nat)
    requires 1 <= bits <= 8 && sn <= sp.Length && Digits(sp[..sn], Pow2(bits)) && bits * sn <= 64 * rp.Length
    modifies rp
    ensures rn <= rp.Length && (rn > 0 ==> rp[rn - 1] != 0) && Val(rp[..rn]) == Num(sp[..sn], Pow2(bits))
  {
    hide Val, Mul, Pow2, Num, Position, PowB, Digits;
    ghost var s, b, all := [], Pow2(bits), sp[..sn];
    rn := 0;
    var j, shift := sn, 0;
    PositionStart(rp[..0]);
    NumNothing(b);
    while j > 0
      invariant 0 <= j <= sn && s == all[j..] && rn <= rp.Length && sp[..sn] == all
      invariant Position(rp[..rn], shift, bits * |s|) && Val(rp[..rn]) == Num(s, b)
      modifies rp
    {
      j := j - 1;
      var d := sp[j];
      assert d == all[j] && all[j..] == [d] + all[j + 1..];
      DigitAt(all, j, b);
      NumCons(d, s, b);
      PowBits(bits, |s|);
      BitsOfIs(bits, |s|);
      NextPosition(bits, |s|);
      DigitsFit(bits, |s| + 1, sn);
      rn, shift := PutDigit(rp, rn, shift, bits, d, bits * |s|);
      s := [d] + s;
    }
    assert all[0..] == all;
    rn := NormalizedSize(rp, rn);
  }

  lemma DigitAt(s: seq<Byte>, j: nat, b: nat)
    requires Digits(s, b) && j < |s|
    ensures s[j] < b
  {
    assert s[j] in s;
  }

  lemma DigitsFit(bits: nat, t: nat, sn: nat)
    requires t <= sn
    ensures bits * t <= bits * sn
  {
    MulLe(t, sn, bits);
  }

  // ----- other bases

  /** The value of k digits, which fits in a limb. */
  method ChunkValue(sp: array<Byte>, j0: nat, k: nat, b: Limb, ghost exp: nat) returns (w: Limb)
    requires 1 <= k <= exp && j0 + k <= sp.Length && Digits(sp[j0..j0 + k], b) && 2 <= b && PowB(b, exp) < B
    ensures w == Num(sp[j0..j0 + k], b) < PowB(b, exp)
  {
    hide Mul, Num, PowB, Digits;
    ghost var s := sp[j0..j0 + k];
    var j := 1;
    w := sp[j0];
    assert s[..1] == [] + [s[0]];
    NumSnoc([], s[0], b);
    NumNothing(b);
    ZeroOne(0, b);
    while j < k
      invariant 1 <= j <= k && w == Num(s[..j], b)
    {
      assert s[..j + 1] == s[..j] + [s[j]] && s[j] == sp[j0 + j];
      NumSnoc(s[..j], s[j], b);
      ChunkBound(s[..j + 1], s, b, exp);
      Product(w, b);
      w := w * b + sp[j0 + j];
      j := j + 1;
    }
    assert s[..k] == s;
    ChunkBound(s, s, b, exp);
  }

  lemma ChunkBound(t: seq<Byte>, s: seq<Byte>, b: nat, exp: nat)
    requires Digits(s, b) && |t| <= |s| <= exp && t == s[..|t|] && b >= 2
    ensures Num(t, b) < PowB(b, exp)
  {
    assert forall d :: d in t ==> d in s;
    NumBound(t, b);
    PowBMono(b, |t|, exp);
  }

  /** The carries of the multiplication and of the addition fit together in one limb. */
  lemma CarryFits(v: nat, p: nat, bb: nat, w: nat, r1: nat, c1: int, r2: nat, c2: int)
    requires v < p && w < bb <= B && r1 + Mul(c1, p) == Mul(v, bb) && r2 + Mul(c2, p) == r1 + w && c1 >= 0 && c2 >= 0
    ensures c1 + c2 < bb && r2 + Mul(c1 + c2, p) == Mul(v, bb) + w
  {
    Dist(c1, c2, p);
    MulLe(v + 1, p, bb);
    Dist(v, 1, bb);
    if c1 + c2 >= bb {
      MulLe(bb, c1 + c2, p);
    }
  }

  /** The limbs are as many as the number needs, except that a zero number has one. */
  ghost predicate Full(rs: seq<Limb>) {
    rs != [] && (|rs| == 1 || rs[|rs| - 1] > 0)
  }

  lemma FullAfter(rs: seq<Limb>, res: seq<Limb>, cy: Limb, bb: Limb, w: nat)
    requires Full(rs) && |res| == |rs| && bb > 0 && Val(res) + Mul(cy, Pow(|rs|)) == Mul(Val(rs), bb) + w
    ensures Full(if cy > 0 then res + [cy] else res)
    ensures Val(if cy > 0 then res + [cy] else res) == Mul(Val(rs), bb) + w
  {
    hide Val, Mul, Pow;
    if cy > 0 {
      ValPush(res, cy);
    } else {
      ZeroTimesAny(Pow(|rs|));
      if |rs| > 1 {
        ValPositive(rs);
        Grows(Val(rs), bb);
        TopLimbNonzero(res);
      }
    }
  }

  lemma Grows(v: nat, bb: int)
    requires bb >= 1
    ensures Mul(v, bb) >= v
  {
    MulLe2B(v, bb);
  }

  lemma MulLe2B(v: nat, bb: int)
    requires bb >= 1
    ensures v * bb >= v
  {
    MulLe(1, bb, v);
  }

  /** One chunk of mpn_set_str_other: multiply by the chunk's power and add its value. */
  method PushChunk(rp: array<Limb>, rn0: nat, bb: Limb, w: Limb) returns (rn: nat)
    requires rn0 < rp.Length && Full(rp[..rn0]) && w < bb
    modifies rp
    ensures rn0 <= rn <= rn0 + 1 && Full(rp[..rn]) && Val(rp[..rn]) == Mul(old(Val(rp[..rn0])), bb) + w
  {
    hide Val, Mul, Pow, Full, Patch;
    ghost var rs := rp[..rn0];
    NotEmpty(rs);
    rn := rn0;
    assert rp[0..0 + rn] == rs;
    var cy := Mul1(rp, 0, rp, 0, rn, bb);
    ghost var r1, c1 := rp[0..0 + rn], cy;
    var c2 := Add1(rp, 0, rp, 0, rn, w);
    ghost var res := rp[..rn];
    assert rp[0..0 + rn] == res;
    CarryFits(Val(rs), Pow(rn), bb, w, Val(r1), c1, Val(res), c2);
    cy := cy + c2;
    FullAfter(rs, res, cy, bb, w);
    if cy > 0 {
      rp[rn] := cy;
      assert rp[..rn + 1] == res + [cy];
      rn := rn + 1;
    }
  }

  lemma NotEmpty(rs: seq<Limb>)
    requires Full(rs)
    ensures |rs| > 0
  {
  }

  /** The first chunk takes what is left over from full ones. */
  lemma FirstChunk(sn: nat, exp: nat) returns (rem: nat)
    requires sn > 0 && exp > 0
    ensures var k := 1 + (sn - 1) % exp;
            && 1 <= k <= exp && k <= sn && sn == k + Mul(rem, exp) && (sn + exp - 1) / exp == rem + 1
  {
    DivMod(sn - 1, exp);
    var q := (sn - 1) / exp;
    if q < 0 {
      MulLe(q, -1, exp);
    }
    rem := q;
    MulPos(rem, exp);
    Dist(rem, 1, exp);
    DivIs(sn + exp - 1, rem + 1, (sn - 1) % exp, exp);
  }

  lemma OneChunk(rem: nat, exp: nat)
    requires rem > 0
    ensures Mul(rem, exp) == Mul(rem - 1, exp) + exp && Mul(rem - 1, exp) >= 0
  {
    Dist(rem - 1, 1, exp);
    MulPos(rem - 1, exp);
  }

  /** mpn_set_str_other: chunk after chunk from the first digit on. */
  method SetStrOther(rp: array<Limb>, sp: array<Byte>, sn: nat, b: Limb, info: BaseInfo) returns (rn: nat)
    requires 2 <= b && IsInfo(info, b) && 0 < sn <= sp.Length && Digits(sp[..sn], b)
    requires (sn + info.exp - 1) / info.exp <= rp.Length
    modifies rp
    ensures rn <= rp.Length && Full(rp[..rn]) && Val(rp[..rn]) == Num(sp[..sn], b)
  {
    hide Val, Mul, Num, PowB, Digits, Full, Pow;
    ghost var all := sp[..sn];
    ghost var rem := FirstChunk(sn, info.exp);
    var k := 1 + (sn - 1) % info.exp;
    DigitsSlice(all, 0, k, b);
    assert sp[0..0 + k] == all[0..k];
    var w := ChunkValue(sp, 0, k, b, info.exp);
    rp[0] := w;
    rn := 1;
    var j := k;
    FullOne(rp[..1], w);
    assert all[0..k] == all[..k];
    while j < sn
      invariant j <= sn == j + Mul(rem, info.exp) && rn + rem <= rp.Length && sp[..sn] == all
      invariant Full(rp[..rn]) && Val(rp[..rn]) == Num(all[..j], b)
      decreases sn - j
      modifies rp
    {
      SomeLeft(rem, info.exp, sn, j);
      OneChunk(rem, info.exp);
      DigitsSlice(all, j, j + info.exp, b);
      assert sp[j..j + info.exp] == all[j..j + info.exp];
      w := ChunkValue(sp, j, info.exp, b, info.exp);
      NumConcat(all[..j], all[j..j + info.exp], b);
      assert all[..j + info.exp] == all[..j] + all[j..j + info.exp];
      rn := PushChunk(rp, rn, info.bb, w);
      j := j + info.exp;
      rem := rem - 1;
    }
    assert all[..j] == all;
  }

  lemma SomeLeft(rem: nat, exp: nat, sn: nat, j: nat)
    requires sn == j + Mul(rem, exp) && j < sn
    ensures rem > 0
  {
    ZeroTimesAny(exp);
  }

  lemma DigitsSlice(s: seq<Byte>, i: nat, j: nat, b: nat)
    requires Digits(s, b) && i <= j <= |s|
    ensures Digits(s[i..j], b)
  {
    forall d | d in s[i..j] ensures d < b {
      assert d in s;
    }
  }

  lemma FullOne(s: seq<Limb>, w: Limb)
    requires s == [w]
    ensures Full(s) && Val(s) == w
  {
    OneLimb1(s);
  }
}
