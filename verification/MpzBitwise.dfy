/** mpz_and, mpz_ior, mpz_xor and mpz_tstbit: sign and magnitude read as infinite two's complement. */
module MpzBitwise {
  import opened Arith
  import opened Limbs
  import opened PowersOfTwo
  import opened Bitwise
  import opened Mpn
  import opened MpnSigned
  import opened MpzNumbers

  lemma {:induction false} XorOnes(x: nat, n: nat)
    requires x < Pow2(n)
    ensures Bits(Xor, x, Pow2(n) - 1) == Pow2(n) - 1 - x
  {
    if n > 0 {
      var y: nat := Pow2(n) - 1;
      assert y % 2 == 1 && y / 2 == Pow2(n - 1) - 1;
      XorStep(x, y);
      XorOnes(x / 2, n - 1);
    }
  }

  lemma XorStep(x: nat, y: nat)
    requires y % 2 == 1
    ensures Bits(Xor, x, y) == (1 - x % 2) + 2 * Bits(Xor, x / 2, y / 2)
  {
  }

  lemma {:induction false} XorZero(x: nat)
    ensures Bits(Xor, x, 0) == x
  {
    if x != 0 {
      XorZero(x / 2);
    }
  }

  /** The limb of all ones or all zeros that a sign flag stands for. */
  function Mask(neg: bool): Limb {
    if neg then B - 1 else 0
  }

  lemma MaskedXor(x: Limb, neg: bool)
    ensures Bits(Xor, x, Mask(neg)) == if neg then B - 1 - x else x
  {
    Pow2Of64();
    if neg {
      XorOnes(x, 64);
    } else {
      XorZero(x);
    }
  }

  lemma MaskBit(neg: bool, j: nat)
    requires j < 64
    ensures Bit(Mask(neg), j) == neg
  {
    Pow2Of64();
    if neg {
      BitSplit(B - 1, -1, 64, j);
      assert B - 1 + -1 * Pow2(64) == -1;
      BitOfMinusOne(j);
    } else {
      BitOfZero(j);
    }
  }

  lemma BitsLimb(op: BitOp, x: Limb, y: Limb)
    ensures Bits(op, x, y) < B
  {
    Pow2Of64();
    BitsBound(op, x, y, 64);
  }

  /** One limb of a conversion between magnitude and two's complement, with its carry. */
  method Convert(x: Limb, neg: bool, c: Limb) returns (y: Limb, c': Limb)
    requires c <= 1 && (!neg ==> c == 0)
    ensures c' <= c
    ensures if neg then y + x == B - 1 + c - (if c' == 1 then B else 0) else y == x
  {
    MaskedXor(x, neg);
    y := Low(Bits(Xor, x, Mask(neg)) + c);
    c' := if y < c then 1 else 0;
  }

  /** ys and xs are each other's two's complement if neg, with c the carry out, and equal otherwise. */
  ghost predicate Converted(xs: seq<Limb>, neg: bool, ys: seq<Limb>, c: Limb) {
    && |xs| == |ys| && c <= 1 && (!neg ==> c == 0)
    && if neg then Val(ys) + Val(xs) == (if c == 1 then 0 else Pow(|xs|)) else ys == xs
  }

  lemma ConvertedStep(xs: seq<Limb>, neg: bool, ys: seq<Limb>, c: Limb, x: Limb, y: Limb, c': Limb)
    requires Converted(xs, neg, ys, c) && c' <= c
    requires if neg then y + x == B - 1 + c - (if c' == 1 then B else 0) else y == x
    ensures Converted(xs + [x], neg, ys + [y], c')
  {
    hide Val, Mul, Pow;
    if neg {
      ValPush(xs, x);
      ValPush(ys, y);
      ConvertAlgebra(Val(xs), Val(ys), x, y, c, c', Pow(|xs|), Pow(|xs| + 1)) by { PowNext(|xs|); }
    }
  }

  lemma PowNext(n: nat)
    ensures Pow(n + 1) == B * Pow(n)
  {
  }

  lemma ConvertAlgebra(vx: int, vy: int, x: int, y: int, c: int, c': int, p: int, q: int)
    requires 0 <= c' <= c <= 1 && vy + vx == (if c == 1 then 0 else p) && q == B * p
    requires y + x == B - 1 + c - (if c' == 1 then B else 0)
    ensures vy + Mul(y, p) + vx + Mul(x, p) == if c' == 1 then 0 else q
  {
    Dist(y, x, p);
    assert Mul(y, p) + Mul(x, p) == Mul(y + x, p);
    if c' == 1 {
      assert y + x == 0;
    } else {
      assert y + x == B - 1 + c;
      Dist(B, 1, p);
    }
  }

  lemma PowIsPow2(n: nat)
    ensures Pow(n) == Pow2(64 * n)
  {
    if n > 0 {
      PowIsPow2(n - 1);
      Pow2Add(64, 64 * (n - 1));
      Pow2Of64();
    }
  }

  /** The bits of a limb sequence are those of its limbs. */
  lemma {:induction false} LimbBits(t: seq<Limb>, k: nat, j: nat)
    requires k < |t| && j < 64
    ensures Bit(Val(t), 64 * k + j) == Bit(t[k], j)
  {
    hide Val, Mul, Pow, Bit;
    var n := |t| - 1;
    var low := t[..n];
    assert t[..n + 1] == t;
    ValTake(t, n);
    PowIsPow2(n);
    Product(t[n], Pow(n));
    BitSplit(Val(low), t[n], 64 * n, 64 * k + j);
    if k < n {
      LimbBits(low, k, j);
    }
  }

  /** Below its length, the two's complement limbs of u hold its bits; above it, there is only the sign. */
  lemma ConvertedBits(u: int, us: seq<Limb>, neg: bool, n: nat, t: seq<Limb>, c: Limb, k: nat, j: nat)
    requires n <= |us| && SignedVal(u, us, neg) && Converted(us[..n], neg, t, c) && j < 64
    ensures k < n ==> Bit(u, 64 * k + j) == Bit(t[k], j)
    ensures k >= n && n == |us| && c == 0 ==> Bit(u, 64 * k + j) == neg
  {
    hide Bit;
    var rest := us[n..];
    assert us == us[..n] + rest;
    ValAppend(us[..n], rest);
    var high := if neg then (if c == 1 then 0 else -1) - Val(rest) else Val(rest);
    TopPart(u, Val(t), high, Val(us[..n]), Val(rest), Pow(n), neg, c);
    SignedBits(u, t, high, k, j);
  }

  ghost predicate SignedVal(x: int, us: seq<Limb>, neg: bool) {
    x == if neg then 0 - Val(us) else Val(us)
  }

  /** The bits of a number given by its low limbs and what is above them. */
  lemma SignedBits(x: int, t: seq<Limb>, high: int, k: nat, j: nat)
    requires x == Val(t) + high * Pow(|t|) && j < 64
    ensures k < |t| ==> Bit(x, 64 * k + j) == Bit(t[k], j)
    ensures k >= |t| && (high == 0 || high == -1) ==> Bit(x, 64 * k + j) == (high == -1)
  {
    hide Bit;
    var n := |t|;
    PowIsPow2(n);
    BitSplit(Val(t), high, 64 * n, 64 * k + j);
    if k < n {
      LimbBits(t, k, j);
    } else {
      BitOfZero(64 * k + j - 64 * n);
      BitOfMinusOne(64 * k + j - 64 * n);
    }
  }

  lemma TopPart(u: int, t: int, k: int, low: int, rest: int, p: int, neg: bool, c: int)
    requires 0 <= c <= 1 && (!neg ==> c == 0)
    requires u == if neg then 0 - (low + rest * p) else low + rest * p
    requires if neg then t + low == (if c == 1 then 0 else p) else t == low
    requires k == if neg then (if c == 1 then 0 else -1) - rest else rest
    ensures u == t + k * p
  {
  }

  /** The two's complement limb of v at position k, which past its own limbs is the sign. */
  function Extended(t: seq<Limb>, neg: bool, k: nat): Limb {
    if k < |t| then t[k] else Mask(neg)
  }

  /** The state of the limb loop: the operands converted so far, and the result converted back. */
  ghost predicate Running(op: BitOp, us: seq<Limb>, uneg: bool, vs: seq<Limb>, vneg: bool, i: nat,
                          tu: seq<Limb>, uc: Limb, tv: seq<Limb>, vc: Limb, o: seq<Limb>, rs: seq<Limb>, rc: Limb) {
    && i <= |us| && Converted(us[..i], uneg, tu, uc)
    && |tv| == (if i <= |vs| then i else |vs|) && Converted(vs[..|tv|], vneg, tv, vc)
    && |o| == i && (forall k :: 0 <= k < i ==> o[k] == Bits(op, tu[k], Extended(tv, vneg, k)))
    && Converted(o, op.Of(uneg, vneg), rs, rc)
  }

  lemma RunningStart(op: BitOp, us: seq<Limb>, uneg: bool, vs: seq<Limb>, vneg: bool)
    ensures Running(op, us, uneg, vs, vneg, 0, [], Flag(uneg), [], Flag(vneg), [], [], Flag(op.Of(uneg, vneg)))
  {
    assert us[..0] == [] && vs[..0] == [];
  }

  function Flag(b: bool): Limb {
    if b then 1 else 0
  }

  /** The limb x was converted to y, with carry c before and c1 after. */
  ghost predicate OneLimb(x: Limb, neg: bool, y: Limb, c: Limb, c1: Limb) {
    c1 <= c && if neg then y + x == B - 1 + c - (if c1 == 1 then B else 0) else y == x
  }

  lemma RunningStep(op: BitOp, us: seq<Limb>, uneg: bool, vs: seq<Limb>, vneg: bool, i: nat,
                    tu: seq<Limb>, uc: Limb, tv: seq<Limb>, vc: Limb, o: seq<Limb>, rs: seq<Limb>, rc: Limb,
                    ul: Limb, uc1: Limb, vl: Limb, vc1: Limb, ol: Limb, rl: Limb, rc1: Limb)
    requires Running(op, us, uneg, vs, vneg, i, tu, uc, tv, vc, o, rs, rc)
    requires i < |us| && OneLimb(us[i], uneg, ul, uc, uc1) && OneLimb(ol, op.Of(uneg, vneg), rl, rc, rc1)
    requires if i < |vs| then OneLimb(vs[i], vneg, vl, vc, vc1) else vl == Mask(vneg) && vc1 == vc
    requires ol == Bits(op, ul, vl)
    ensures Running(op, us, uneg, vs, vneg, i + 1, tu + [ul], uc1, if i < |vs| then tv + [vl] else tv, vc1,
                    o + [ol], rs + [rl], rc1)
  {
    hide Converted, Mask, OneLimb, Bits;
    assert us[..i + 1] == us[..i] + [us[i]];
    StepOf(us[..i], uneg, tu, uc, us[i], ul, uc1);
    StepOf(o, op.Of(uneg, vneg), rs, rc, ol, rl, rc1);
    if i < |vs| {
      assert vs[..i + 1] == vs[..i] + [vs[i]];
      StepOf(vs[..i], vneg, tv, vc, vs[i], vl, vc1);
    }
    Lengths(us[..i], uneg, tu, uc);
    CombinedSnoc(op, i, tu, tv, o, ul, if i < |vs| then tv + [vl] else tv, vneg, vl, ol);
  }

  lemma CombinedSnoc(op: BitOp, i: nat, tu: seq<Limb>, tv: seq<Limb>, o: seq<Limb>, ul: Limb, tv': seq<Limb>,
                     vneg: bool, vl: Limb, ol: Limb)
    requires |tu| == |o| == i && |tv| <= i && forall k :: 0 <= k < i ==> o[k] == Bits(op, tu[k], Extended(tv, vneg, k))
    requires (tv' == tv && vl == Mask(vneg)) || (tv' == tv + [vl] && |tv| == i)
    requires ol == Bits(op, ul, vl)
    ensures forall k :: 0 <= k < i + 1 ==> (o + [ol])[k] == Bits(op, (tu + [ul])[k], Extended(tv', vneg, k))
  {
    hide Bits, Mask;
  }

  lemma Lengths(xs: seq<Limb>, neg: bool, ys: seq<Limb>, c: Limb)
    requires Converted(xs, neg, ys, c)
    ensures |xs| == |ys|
  {
  }

  lemma StepOf(xs: seq<Limb>, neg: bool, ys: seq<Limb>, c: Limb, x: Limb, y: Limb, c1: Limb)
    requires Converted(xs, neg, ys, c) && OneLimb(x, neg, y, c, c1)
    ensures Converted(xs + [x], neg, ys + [y], c1)
  {
    ConvertedStep(xs, neg, ys, c, x, y, c1);
  }

  /** The first loop of mpz_and, mpz_ior and mpz_xor: convert both limbs, combine them, convert back. */
  method LowLimbs(op: BitOp, rp: array<Limb>, up: array<Limb>, uneg: bool, vp: array<Limb>, vneg: bool, vn: nat,
                  ghost us: seq<Limb>, ghost vs: seq<Limb>)
    returns (uc: Limb, rc: Limb, ghost tu: seq<Limb>, ghost tv: seq<Limb>, ghost o: seq<Limb>)
    requires 0 < vn <= |us| <= up.Length && us == up[..|us|] && vn <= vp.Length && vs == vp[..vn] && vn <= rp.Length
    requires vp[vn - 1] != 0
    modifies rp
    ensures rp[..] == Patch(old(rp[..]), 0, rp[..vn])
    ensures Running(op, us, uneg, vs, vneg, vn, tu, uc, tv, 0, o, rp[..vn], rc)
  {
    hide *;
    ghost var r0, rs: seq<Limb> := rp[..], [];
    var vc := Flag(vneg);
    uc, rc := Flag(uneg), Flag(op.Of(uneg, vneg));
    tu, tv, o := [], [], [];
    RunningStart(op, us, uneg, vs, vneg);
    PatchNothing(r0, 0);
    var i := 0;
    while i < vn
      invariant i <= vn && |rs| == i && rp[..] == Patch(r0, 0, rs)
      invariant (rp != up ==> up[..|us|] == us) && (rp != vp ==> vp[..vn] == vs)
      invariant Running(op, us, uneg, vs, vneg, i, tu, uc, tv, vc, o, rs, rc)
    {
      PatchGet(r0, 0, rs, i);
      assert up[i] == us[i] && vp[i] == vs[i];
      Carries(op, us, uneg, vs, vneg, i, tu, uc, tv, vc, o, rs, rc);
      ghost var uc0, vc0, rc0 := uc, vc, rc;
      var ul, vl, ol, rl;
      ul, uc := Limb1(up[i], uneg, uc);
      vl, vc := Limb1(vp[i], vneg, vc);
      ol, rl, rc := Combine(op, ul, vl, op.Of(uneg, vneg), rc);
      rp[i] := rl;
      PatchSnoc(r0, 0, rs, rl);
      RunningStep(op, us, uneg, vs, vneg, i, tu, uc0, tv, vc0, o, rs, rc0, ul, uc, vl, vc, ol, rl, rc);
      tu, tv, o, rs := tu + [ul], tv + [vl], o + [ol], rs + [rl];
      i := i + 1;
    }
    NoCarryLeft(op, us, uneg, vs, vneg, i, tu, uc, tv, vc, o, rs, rc);
    assert vc == 0;
    PatchSlice(r0, 0, rs);
    assert rp[0..0 + vn] == rp[..vn];
  }

  /** The second loop: past the limbs of v there is only its sign. */
  method HighLimbs(op: BitOp, rp: array<Limb>, up: array<Limb>, uneg: bool, vneg: bool, vn: nat, rn: nat,
                   ghost us: seq<Limb>, ghost vs: seq<Limb>, ghost r0: seq<Limb>, uc0: Limb, rc0: Limb,
                   ghost tu0: seq<Limb>, ghost tv: seq<Limb>, ghost o0: seq<Limb>)
    returns (ghost uc: Limb, rc: Limb, ghost tu: seq<Limb>, ghost o: seq<Limb>)
    requires vn == |vs| <= rn <= |us| <= up.Length && rn <= rp.Length && |r0| == rp.Length
    requires rp[..] == Patch(r0, 0, rp[..vn]) && (rp == up ==> us == r0[..|us|]) && (rp != up ==> us == up[..|us|])
    requires Running(op, us, uneg, vs, vneg, vn, tu0, uc0, tv, 0, o0, rp[..vn], rc0)
    modifies rp
    ensures Running(op, us, uneg, vs, vneg, rn, tu, uc, tv, 0, o, rp[..rn], rc)
  {
    hide *;
    ghost var rs := rp[..vn];
    var uc1 := uc0;
    rc := rc0;
    tu, o := tu0, o0;
    var i := vn;
    while i < rn
      invariant vn <= i <= rn && |rs| == i && rp[..] == Patch(r0, 0, rs)
      invariant rp != up ==> up[..|us|] == us
      invariant Running(op, us, uneg, vs, vneg, i, tu, uc1, tv, 0, o, rs, rc)
    {
      PatchGet(r0, 0, rs, i);
      assert up[i] == us[i];
      Carries(op, us, uneg, vs, vneg, i, tu, uc1, tv, 0, o, rs, rc);
      ghost var uc2, rc2 := uc1, rc;
      var ul, rl;
      ghost var ol;
      ul, uc1 := Limb1(up[i], uneg, uc1);
      OfXor(uneg, vneg);
      if op == Xor {
        ol, rl, rc := XorLimb(ul, uneg, vneg, rc);
      } else {
        ol, rl, rc := Combine(op, ul, Mask(vneg), op.Of(uneg, vneg), rc);
      }
      rp[i] := rl;
      PatchSnoc(r0, 0, rs, rl);
      RunningStep(op, us, uneg, vs, vneg, i, tu, uc2, tv, 0, o, rs, rc2, ul, uc1, Mask(vneg), 0, ol, rl, rc);
      tu, o, rs := tu + [ul], o + [ol], rs + [rl];
      i := i + 1;
    }
    PatchSlice(r0, 0, rs);
    assert rp[0..0 + rn] == rp[..rn];
    uc := uc1;
  }

  lemma OfXor(a: bool, b: bool)
    ensures Xor.Of(a, b) == (a != b)
  {
  }

  /** (ul op vl) ^ mask, plus the carry. */
  method Combine(op: BitOp, ul: Limb, vl: Limb, rneg: bool, c: Limb) returns (ol: Limb, rl: Limb, c1: Limb)
    requires c <= 1 && (!rneg ==> c == 0)
    ensures ol == Bits(op, ul, vl) && OneLimb(ol, rneg, rl, c, c1) && c1 <= 1 && (!rneg ==> c1 == 0)
  {
    BitsLimb(op, ul, vl);
    ol := Bits(op, ul, vl);
    rl, c1 := Convert(ol, rneg, c);
  }

  /** (x ^ mask) + c with its carry. */
  method Limb1(x: Limb, neg: bool, c: Limb) returns (y: Limb, c1: Limb)
    requires c <= 1 && (!neg ==> c == 0)
    ensures OneLimb(x, neg, y, c, c1) && c1 <= 1 && (!neg ==> c1 == 0)
  {
    y, c1 := Convert(x, neg, c);
  }

  /** In mpz_xor the high limbs of the result are computed as (u ^ mask of u) + c. */
  method XorLimb(ul: Limb, uneg: bool, vneg: bool, c: Limb) returns (ghost ol: Limb, y: Limb, c1: Limb)
    requires c <= 1 && (uneg == vneg ==> c == 0)
    ensures ol == Bits(Xor, ul, Mask(vneg))
    ensures OneLimb(ol, uneg != vneg, y, c, c1) && c1 <= 1 && (uneg == vneg ==> c1 == 0)
  {
    BitsLimb(Xor, ul, Mask(vneg));
    MaskedXor(ul, uneg);
    MaskedXor(ul, vneg);
    hide Bits, Mask;
    ol := Bits(Xor, ul, Mask(vneg));
    y := Low(Bits(Xor, ul, Mask(uneg)) + c);
    c1 := if y < c then 1 else 0;
  }

  lemma Carries(op: BitOp, us: seq<Limb>, uneg: bool, vs: seq<Limb>, vneg: bool, i: nat,
                tu: seq<Limb>, uc: Limb, tv: seq<Limb>, vc: Limb, o: seq<Limb>, rs: seq<Limb>, rc: Limb)
    requires Running(op, us, uneg, vs, vneg, i, tu, uc, tv, vc, o, rs, rc)
    ensures uc <= 1 && vc <= 1 && rc <= 1 && (!uneg ==> uc == 0) && (!vneg ==> vc == 0)
            && (!op.Of(uneg, vneg) ==> rc == 0)
  {
  }

  lemma NoCarryLeft(op: BitOp, us: seq<Limb>, uneg: bool, vs: seq<Limb>, vneg: bool, i: nat,
                    tu: seq<Limb>, uc: Limb, tv: seq<Limb>, vc: Limb, o: seq<Limb>, rs: seq<Limb>, rc: Limb)
    requires Running(op, us, uneg, vs, vneg, i, tu, uc, tv, vc, o, rs, rc) && i == |vs| > 0 && vs[|vs| - 1] != 0
    ensures vc == 0
  {
    ValPositive(vs);
    assert vs[..|tv|] == vs;
  }

  /** The limb count of the result, before normalisation: where the bits past v are settled, u does not matter. */
  function ResultSize(op: BitOp, un: nat, vn: nat, vneg: bool): nat {
    match op
    case And => if vneg then un else vn
    case Or => if vneg then vn else un
    case Xor => un
  }

  lemma OperandBit(v: int, vs: seq<Limb>, neg: bool, t: seq<Limb>, k: nat, j: nat)
    requires SignedVal(v, vs, neg) && Converted(vs, neg, t, 0) && j < 64
    ensures Bit(v, 64 * k + j) == Bit(Extended(t, neg, k), j)
  {
    assert vs[..|vs|] == vs;
    ConvertedBits(v, vs, neg, |vs|, t, 0, k, j);
    MaskBit(neg, j);
  }

  lemma ResultBit(r: int, o: seq<Limb>, neg: bool, rs: seq<Limb>, rc: Limb, k: nat, j: nat)
    requires Converted(o, neg, rs, rc) && r == (if neg then 0 - (Val(rs) + Mul(rc, Pow(|rs|))) else Val(rs)) && j < 64
    ensures Bit(r, 64 * k + j) == if k < |o| then Bit(o[k], j) else neg
  {
    hide Bit;
    var high := if neg then -1 else 0;
    assert r == Val(o) + high * Pow(|o|);
    SignedBits(r, o, high, k, j);
  }

  /** Every bit of the result is the operation on the operands' bits. */
  lemma LogicBit(op: BitOp, us: seq<Limb>, uneg: bool, vs: seq<Limb>, vneg: bool, rn: nat,
                 tu: seq<Limb>, uc: Limb, tv: seq<Limb>, o: seq<Limb>, rs: seq<Limb>, rc: Limb,
                 u: int, v: int, r: int, k: nat, j: nat)
    requires Running(op, us, uneg, vs, vneg, rn, tu, uc, tv, 0, o, rs, rc) && j < 64
    requires |vs| <= |us| && Val(us) > 0 && rn == ResultSize(op, |us|, |vs|, vneg)
    requires SignedVal(u, us, uneg) && SignedVal(v, vs, vneg)
    requires r == if op.Of(uneg, vneg) then 0 - (Val(rs) + Mul(rc, Pow(|rs|))) else Val(rs)
    ensures Bit(r, 64 * k + j) == op.Of(Bit(u, 64 * k + j), Bit(v, 64 * k + j))
  {
    hide *;
    Sizes(op, |us|, |vs|, vneg, uneg);
    RunningParts(op, us, uneg, vs, vneg, rn, tu, uc, tv, o, rs, rc);
    OperandBit(v, vs, vneg, tv, k, j);
    ResultBit(r, o, op.Of(uneg, vneg), rs, rc, k, j);
    ConvertedBits(u, us, uneg, rn, tu, uc, k, j);
    if rn == |us| {
      assert us[..rn] == us;
      Spent(us, uneg, tu, uc);
    }
    if k < rn {
      BitsBit(op, tu[k], Extended(tv, vneg, k), j);
    } else {
      PastV(tv, vneg, k, j);
    }
  }

  lemma RunningParts(op: BitOp, us: seq<Limb>, uneg: bool, vs: seq<Limb>, vneg: bool, rn: nat,
                     tu: seq<Limb>, uc: Limb, tv: seq<Limb>, o: seq<Limb>, rs: seq<Limb>, rc: Limb)
    requires Running(op, us, uneg, vs, vneg, rn, tu, uc, tv, 0, o, rs, rc) && |vs| <= rn
    ensures rn <= |us| && Converted(us[..rn], uneg, tu, uc) && Converted(vs, vneg, tv, 0) && |tv| == |vs|
    ensures Converted(o, op.Of(uneg, vneg), rs, rc) && |o| == |tu| == rn
    ensures forall k :: 0 <= k < rn ==> o[k] == Bits(op, tu[k], Extended(tv, vneg, k))
  {
    assert vs[..|vs|] == vs;
  }

  lemma PastV(tv: seq<Limb>, vneg: bool, k: nat, j: nat)
    requires k >= |tv| && j < 64
    ensures Bit(Extended(tv, vneg, k), j) == vneg
  {
    MaskBit(vneg, j);
  }

  /** Past the limbs of the result, its sign is the operation on the signs or on what v's sign decides alone. */
  lemma Sizes(op: BitOp, un: nat, vn: nat, vneg: bool, uneg: bool)
    requires vn <= un
    ensures vn <= ResultSize(op, un, vn, vneg) <= un
    ensures ResultSize(op, un, vn, vneg) < un ==> forall b :: op.Of(b, vneg) == op.Of(uneg, vneg)
  {
  }

  lemma Spent(xs: seq<Limb>, neg: bool, ys: seq<Limb>, c: Limb)
    requires Converted(xs, neg, ys, c) && Val(xs) > 0
    ensures c == 0
  {
  }

  /** The bits of r are the operation on those of u and v, at every position. */
  ghost predicate BitwiseResult(op: BitOp, r: int, u: int, v: int) {
    forall i: nat :: Bit(r, i) == op.Of(Bit(u, i), Bit(v, i))
  }

  lemma BitwiseCommutes(op: BitOp, r: int, u: int, v: int)
    requires BitwiseResult(op, r, u, v)
    ensures BitwiseResult(op, r, v, u)
  {
    forall i: nat ensures Bit(r, i) == op.Of(Bit(v, i), Bit(u, i)) {
      assert Bit(r, i) == op.Of(Bit(u, i), Bit(v, i));
    }
  }

  lemma BitwiseZero(op: BitOp, u: int)
    ensures BitwiseResult(op, if op == And then 0 else u, u, 0)
  {
    forall i: nat ensures Bit(if op == And then 0 else u, i) == op.Of(Bit(u, i), Bit(0, i)) {
      BitOfZero(i);
    }
  }

  /** There is only one such result. */
  lemma BitwiseUnique(op: BitOp, r: int, r': int, u: int, v: int)
    requires BitwiseResult(op, r, u, v) && BitwiseResult(op, r', u, v)
    ensures r == r'
  {
    forall i: nat ensures Bit(r, i) == Bit(r', i) {
      assert Bit(r, i) == op.Of(Bit(u, i), Bit(v, i));
    }
    SameBits(r, r');
  }

  lemma LogicBits(op: BitOp, us: seq<Limb>, uneg: bool, vs: seq<Limb>, vneg: bool, rn: nat,
                  tu: seq<Limb>, uc: Limb, tv: seq<Limb>, o: seq<Limb>, rs: seq<Limb>, rc: Limb, u: int, v: int, r: int)
    requires Running(op, us, uneg, vs, vneg, rn, tu, uc, tv, 0, o, rs, rc)
    requires 0 < |vs| <= |us| && us[|us| - 1] != 0 && rn == ResultSize(op, |us|, |vs|, vneg)
    requires SignedVal(u, us, uneg) && SignedVal(v, vs, vneg)
    requires r == if op.Of(uneg, vneg) then 0 - (Val(rs) + Mul(rc, Pow(|rs|))) else Val(rs)
    ensures BitwiseResult(op, r, u, v)
  {
    hide *;
    ValPositive(us);
    forall i: nat ensures Bit(r, i) == op.Of(Bit(u, i), Bit(v, i)) {
      var k, j := i / 64, i % 64;
      LogicBit(op, us, uneg, vs, vneg, rn, tu, uc, tv, o, rs, rc, u, v, r, k, j);
      assert 64 * k + j == i;
    }
    Gathered(op, r, u, v);
  }

  lemma Gathered(op: BitOp, r: int, u: int, v: int)
    requires forall i: nat :: Bit(r, i) == op.Of(Bit(u, i), Bit(v, i))
    ensures BitwiseResult(op, r, u, v)
  {
  }

  lemma FlagTimes(c: Limb, p: int)
    requires c <= 1
    ensures Mul(c, p) == if c == 0 then 0 else p
  {
  }

  lemma ValueSigned(u: Mpz)
    requires u.Valid()
    ensures SignedVal(u.Value(), u.d[..Abs(u.size)], u.size < 0)
  {
  }

  /** The work of mpz_and, mpz_ior and mpz_xor for a second operand that is not zero and has no more limbs. */
  method LogicNonzero(op: BitOp, r: Mpz, u: Mpz, v: Mpz)
    requires u.Valid() && v.Valid() && Apart(r, u) && Apart(r, v) && Apart(u, v)
    requires 0 < Abs(v.size) <= Abs(u.size)
    modifies r, r.d
    ensures r.d == old(r.d) || fresh(r.d)
    ensures r.Valid() && BitwiseResult(op, r.Value(), old(u.Value()), old(v.Value()))
  {
    hide Val, Bits, Running, BitwiseResult, Mul, Pow, SignedVal, Flag, ResultSize, Patch;
    ValueSigned(u);
    ValueSigned(v);
    var un, vn, uneg, vneg := Abs(u.size), Abs(v.size), u.size < 0, v.size < 0;
    var rneg := op.Of(uneg, vneg);
    var rn := ResultSize(op, un, vn, vneg);
    ghost var us, vs, uval, vval := u.d[..un], v.d[..vn], u.Value(), v.Value();
    Sizes(op, un, vn, vneg, uneg);
    r.Realloc(rn + Flag(rneg));
    var rp := r.d;
    assert u.d[..un] == us && v.d[..vn] == vs;
    ghost var r0 := rp[..];
    var uc, rc;
    ghost var tu, tv, o, uc1;
    uc, rc, tu, tv, o := LowLimbs(op, rp, u.d, uneg, v.d, vneg, vn, us, vs);
    uc1, rc, tu, o := HighLimbs(op, rp, u.d, uneg, vneg, vn, rn, us, vs, r0, uc, rc, tu, tv, o);
    ghost var rs := rp[..rn];
    Carries(op, us, uneg, vs, vneg, rn, tu, uc1, tv, 0, o, rs, rc);
    ghost var mag := Val(rs) + Mul(rc, Pow(rn));
    LogicBits(op, us, uneg, vs, vneg, rn, tu, uc1, tv, o, rs, rc, uval, vval, if rneg then 0 - mag else Val(rs));
    FinishLogic(r, rn, rc, rneg);
  }

  /** The carry out, if any, becomes the top limb; otherwise the result is normalised. */
  method FinishLogic(r: Mpz, rn0: nat, rc: Limb, rneg: bool)
    requires rn0 + Flag(rneg) <= r.d.Length && rc <= 1 && (!rneg ==> rc == 0)
    modifies r`size, r.d
    ensures r.d == old(r.d) && r.Valid()
    ensures r.Value() == if rneg then 0 - (old(Val(r.d[..rn0])) + Mul(rc, Pow(rn0))) else old(Val(r.d[..rn0]))
  {
    hide Val, Mul, Pow;
    var rn := rn0;
    var rp := r.d;
    ghost var rs := rp[..rn];
    FlagTimes(rc, Pow(rn));
    if rc != 0 {
      rp[rn] := rc;
      ValPush(rs, rc);
      assert rp[..rn + 1] == rs + [rc];
      rn := rn + 1;
    } else {
      rn := NormalizedSize(rp, rn);
    }
    EmptyVal([]);
    assert rn == 0 ==> rp[..rn] == [];
    r.size := if rneg then -rn else rn;
  }

  /** mpz_and, mpz_ior and mpz_xor.  Operands and result may be the same number. */
  method LogicalOp(op: BitOp, r: Mpz, u: Mpz, v: Mpz)
    requires u.Valid() && v.Valid() && Apart(r, u) && Apart(r, v) && Apart(u, v)
    modifies r, r.d
    ensures r.d == old(r.d) || fresh(r.d)
    ensures r.Valid() && BitwiseResult(op, r.Value(), old(u.Value()), old(v.Value()))
  {
    hide Val, BitwiseResult;
    ghost var uval, vval := u.Value(), v.Value();
    var a, b := u, v;
    if Abs(u.size) < Abs(v.size) {
      a, b := v, u;
    }
    ghost var aval, bval := a.Value(), b.Value();
    if b.size == 0 {
      EmptyVal(b.d[..0]);
      BitwiseZero(op, aval);
      if op == And {
        r.size := 0;
        EmptyVal(r.d[..0]);
      } else {
        SetMpz(r, a);
      }
    } else {
      LogicNonzero(op, r, a, b);
    }
    BitwiseCommutes(op, r.Value(), aval, bval);
  }

  /** A number split at bit i: its bit there, and that of its negation. */
  lemma SplitBit(m: int, lo: nat, hi: int, i: nat)
    requires lo < Pow2(i) && m == lo + Mul(hi, Pow2(i))
    ensures Bit(m, i) == (hi % 2 == 1)
    ensures Bit(0 - m, i) == ((hi % 2 == 1) != (lo != 0))
  {
    hide Mul, Pow2, Bit;
    var p := Pow2(i);
    LowestBit(hi);
    LowestBit(0 - hi);
    LowestBit(0 - hi - 1);
    Product(hi, p);
    BitSplit(lo, hi, i, i);
    NegatedSplit(hi, p);
    if lo == 0 {
      Product(0 - hi, p);
      BitSplit(0, 0 - hi, i, i);
    } else {
      Product(0 - hi - 1, p);
      BitSplit(p - lo, 0 - hi - 1, i, i);
    }
  }

  lemma LowestBit(x: int)
    ensures Bit(x, 0) == (x % 2 == 1)
  {
  }

  lemma NegatedSplit(hi: int, p: int)
    ensures Mul(0 - hi, p) == 0 - Mul(hi, p) && Mul(0 - hi - 1, p) == 0 - Mul(hi, p) - p
  {
  }

  /** A limb sequence split at bit s of limb k. */
  lemma SplitLimbs(us: seq<Limb>, k: nat, s: nat) returns (lo: nat, hi: nat)
    requires k < |us| && s < 64
    ensures lo < Pow2(64 * k + s) && Val(us) == lo + Mul(hi, Pow2(64 * k + s))
    ensures hi % 2 == Shr(us[k], s) % 2 && hi == Shr(us[k], s) + Mul(Val(us[k + 1..]), Pow2(64 - s))
    ensures lo == 0 <==> LowBits(us[k], s) == 0 && Val(us[..k]) == 0
  {
    hide *;
    var w, rest := us[k], us[k + 1..];
    var above := [w] + rest;
    assert us == us[..k] + above;
    ValAppend(us[..k], above);
    Product(Val(above), Pow(k));
    ValCons(w, rest);
    ShrParts(w, s);
    PowIsPow2(k);
    Powers(k, s);
    lo, hi := SplitAlgebra(Val(us), Val(us[..k]), w, Val(above), LowBits(w, s), Shr(w, s), Val(rest),
                           Pow(k), Pow2(s), Pow2(64 - s), Pow2(64 * k + s));
    EvenProduct(Val(rest), Pow2(64 - s), 64 - s);
  }

  lemma ShrParts(w: Limb, s: nat)
    ensures w == Mul(Shr(w, s), Pow2(s)) + LowBits(w, s)
  {
    DivMod(w, Pow2(s));
  }

  lemma Powers(k: nat, s: nat)
    requires s < 64
    ensures Pow2(64 * k + s) == Mul(Pow2(64 * k), Pow2(s)) && B == Mul(Pow2(s), Pow2(64 - s))
  {
    hide Pow2;
    Pow2Add(64 * k, s);
    Pow2Add(s, 64 - s);
    assert s + (64 - s) == 64;
    Pow2Of64();
  }

  lemma EvenProduct(x: nat, c: nat, n: nat)
    requires n > 0 && c == Pow2(n)
    ensures Mul(x, c) % 2 == 0
  {
    Assoc(x, 2, Pow2(n - 1));
    assert x * c == 2 * (x * Pow2(n - 1));
  }

  lemma SplitAlgebra(v: int, low: nat, w: int, x: int, wl: nat, wh: nat, rv: nat, p: nat, t: nat, c: nat, q: nat)
    returns (lo: nat, hi: nat)
    requires v == low + Mul(x, p) && x == w + B * rv && w == Mul(wh, t) + wl && wl < t && low < p
    requires B == Mul(t, c) && q == Mul(p, t)
    ensures hi == wh + Mul(rv, c) && lo < q && v == lo + Mul(hi, q)
    ensures lo == 0 <==> wl == 0 && low == 0
  {
    hide Mul;
    MulSum(wl, t, p, low);
    PositiveProduct(wl, p);
    Nonnegative(wl, p);
    lo := low + Mul(wl, p);
    Nonnegative(rv, c);
    hi := wh + Mul(rv, c);
    SplitSum(x, w, wh, t, wl, rv, c, p, hi, q);
  }

  lemma Nonnegative(x: nat, y: nat)
    ensures Mul(x, y) >= 0
  {
  }

  lemma MulSum(wl: nat, t: nat, p: nat, low: nat)
    requires wl < t && low < p
    ensures low + Mul(wl, p) < Mul(p, t)
  {
    MulLe(wl, t - 1, p);
  }

  lemma SplitSum(x: int, w: int, wh: int, t: int, wl: int, rv: int, c: int, p: int, hi: int, q: int)
    requires x == w + B * rv && B == Mul(t, c) && w == Mul(wh, t) + wl && hi == wh + Mul(rv, c) && q == Mul(p, t)
    ensures Mul(x, p) == Mul(wl, p) + Mul(hi, q)
  {
    var a := wh * t;
    var b := (t * c) * rv;
    assert x == a + wl + b;
    assert x * p == a * p + wl * p + b * p;
    assert a * p == wh * (p * t);
    SplitTerm(rv, c, p, t);
    Dist(wh, rv * c, p * t);
  }

  lemma SplitTerm(rv: int, c: int, p: int, t: int)
    ensures ((t * c) * rv) * p == (rv * c) * (p * t)
  {
    Assoc(rv * c, p, t);
    Assoc(t, c, rv);
  }

  /** The bits a left shift keeps are zero exactly if the low bits are. */
  lemma ShiftedOut(w: Limb, s: nat)
    requires 0 < s < 64
    ensures Shl(w, 64 - s) > 0 <==> LowBits(w, s) != 0
  {
    ShiftLimb(w, 64 - s);
    assert 64 - (64 - s) == s;
    PositiveProduct(LowBits(w, s), Pow2(64 - s));
  }

  lemma PositiveProduct(x: nat, y: nat)
    requires y > 0
    ensures Mul(x, y) > 0 <==> x > 0
  {
    MulPos(x, y);
    if x > 0 {
      MulLe(1, x, y);
    }
  }

  lemma {:induction false} ZeroLimbs(s: seq<Limb>)
    ensures Val(s) == 0 <==> forall m :: 0 <= m < |s| ==> s[m] == 0
  {
    if s != [] {
      var n := |s| - 1;
      var t := s[..n];
      ZeroLimbs(t);
      assert s[..n + 1] == s;
      ValTake(s, n);
      PositiveProduct(s[n], Pow(n));
      assert forall m :: 0 <= m < n ==> t[m] == s[m];
    }
  }

  /** mpz_tstbit: the bit of the magnitude, complemented if the number is negative and a lower bit is set. */
  method TstBit(d: Mpz, bitIndex: nat) returns (bit: bool)
    requires d.Valid()
    ensures bit == Bit(d.Value(), bitIndex)
  {
    hide Val, Bit, Shl, Shr, LowBits, Pow2, Mul;
    var dn := Abs(d.size);
    ghost var us := d.d[..dn];
    var limbIndex := bitIndex / 64;
    var shift := bitIndex % 64;
    if limbIndex >= dn {
      PastLimbs(us, d.size < 0, bitIndex);
      return d.size < 0;
    }
    var w := d.d[limbIndex];
    assert w == us[limbIndex];
    ghost var low := us[..limbIndex];
    ghost var lo, hi := SplitLimbs(us, limbIndex, shift);
    SplitBit(Val(us), lo, hi, bitIndex);
    ZeroLimbs(low);
    bit := Shr(w, shift) % 2 == 1;
    if d.size < 0 {
      NoShift(w);
      if shift > 0 {
        ShiftedOut(w, shift);
      }
      if shift > 0 && Shl(w, 64 - shift) > 0 {
        return !bit;
      }
      var k := limbIndex;
      while k > 0
        invariant k <= limbIndex && forall m :: k <= m < limbIndex ==> low[m] == 0
      {
        k := k - 1;
        assert d.d[k] == low[k];
        if d.d[k] > 0 {
          return !bit;
        }
      }
    }
  }

  lemma NoShift(w: Limb)
    ensures LowBits(w, 0) == 0
  {
  }

  /** Past the limbs of a number there is only its sign. */
  lemma PastLimbs(us: seq<Limb>, neg: bool, i: nat)
    requires i / 64 >= |us| && (neg ==> us != [] && us[|us| - 1] != 0)
    ensures Bit(if neg then 0 - Val(us) else Val(us), i) == neg
  {
    hide Val, Bit;
    var n := 64 * |us|;
    PowIsPow2(|us|);
    if neg {
      ValPositive(us);
      BitSplit(Pow2(n) - Val(us), -1, n, i);
      assert Pow2(n) - Val(us) + -1 * Pow2(n) == 0 - Val(us);
      BitOfMinusOne(i - n);
    } else {
      BitSplit(Val(us), 0, n, i);
      BitOfZero(i - n);
    }
  }
}
