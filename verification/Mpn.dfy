/** The mpn loops: carry arithmetic in place on limb arrays. */
module Mpn {
  import opened Arith
  import opened Limbs
  import opened Reciprocal
  import opened PowersOfTwo
  import opened Bitwise

  /** s with the stretch that starts at index at overwritten by r. */
  ghost function Patch(s: seq<Limb>, at: nat, r: seq<Limb>): (p: seq<Limb>)
    requires at + |r| <= |s|
    ensures |p| == |s|
  {
    s[..at] + r + s[at + |r|..]
  }

  lemma ValTake(s: seq<Limb>, i: nat)
    requires i < |s|
    ensures Val(s[..i + 1]) == Val(s[..i]) + Mul(s[i], Pow(i))
  {
    assert s[..i + 1] == s[..i] + [s[i]];
    ValSnoc(s[..i], s[i]);
  }

  lemma ValCons(x: Limb, s: seq<Limb>)
    ensures Val([x] + s) == x + B * Val(s)
  {
    ValAppend([x], s);
    assert [x][..0] == [];
    assert Pow(1) == B * Pow(0);
    assert Val([x]) == Val([x][..0]) + x * Pow(0);
  }

  /** One step of a carry loop: limb x and carry c1 replace carry c and the term e. */
  lemma Emit(res: seq<Limb>, x: Limb, c: int, c1: int, e: int)
    requires x + c1 * B == c + e
    ensures Val(res + [x]) + Mul(c1, Pow(|res| + 1)) == Val(res) + Mul(c, Pow(|res|)) + Mul(e, Pow(|res|))
  {
    ValSnoc(res, x);
    EmitProduct(x, c, c1, e, Pow(|res|));
  }

  lemma EmitProduct(x: int, c: int, c1: int, e: int, p: int)
    requires x + c1 * B == c + e
    ensures x * p + Mul(c1, B * p) == Mul(c, p) + Mul(e, p)
  {
    assert (x + c1 * B) * p == (c + e) * p;
    Assoc(c1, B, p);
  }

  lemma MulSum2(x: int, y: int, p: int)
    ensures Mul(x + y, p) == Mul(x, p) + Mul(y, p)
    ensures Mul(x - y, p) == Mul(x, p) - Mul(y, p)
  {
  }

  lemma PatchSnoc(s: seq<Limb>, at: nat, r: seq<Limb>, x: Limb)
    requires at + |r| < |s|
    ensures Patch(s, at, r)[at + |r| := x] == Patch(s, at, r + [x])
  {
  }

  lemma PatchGet(s: seq<Limb>, at: nat, r: seq<Limb>, k: nat)
    requires at + |r| <= |s| && k < |s|
    ensures Patch(s, at, r)[k] == if at <= k < at + |r| then r[k - at] else s[k]
  {
  }

  lemma PatchSlice(s: seq<Limb>, at: nat, r: seq<Limb>)
    requires at + |r| <= |s|
    ensures Patch(s, at, r)[at..at + |r|] == r
  {
  }

  lemma PatchNothing(s: seq<Limb>, at: nat)
    requires at <= |s|
    ensures Patch(s, at, []) == s
  {
  }

  lemma StartCarry()
    ensures Val([]) == 0 && Mul(0, Pow(0)) == 0
  {
  }

  /** mpn_add_n.  The result may be written over an operand, as long as no limb is written before it is read. */
  method AddN(rp: array<Limb>, ro: nat, ap: array<Limb>, ao: nat, bp: array<Limb>, bo: nat, n: nat) returns (cy: Limb)
    requires ro + n <= rp.Length && ao + n <= ap.Length && bo + n <= bp.Length
    requires (rp == ap ==> ro <= ao) && (rp == bp ==> ro <= bo)
    modifies rp
    ensures cy <= 1
    ensures rp[..] == Patch(old(rp[..]), ro, rp[ro..ro + n])
    ensures Val(rp[ro..ro + n]) + Mul(cy, Pow(n)) == Val(old(ap[ao..ao + n])) + Val(old(bp[bo..bo + n]))
  {
    hide *;
    ghost var xs, ys, rs := ap[ao..ao + n], bp[bo..bo + n], rp[..];
    ghost var res: seq<Limb> := [];
    cy := 0;
    PatchNothing(rs, ro);
    StartCarry();
    assert xs[..0] == [] && ys[..0] == [];
    for i := 0 to n
      invariant |res| == i && cy <= 1
      invariant rp[..] == Patch(rs, ro, res)
      invariant rp != ap ==> ap[ao..ao + n] == xs
      invariant rp != bp ==> bp[bo..bo + n] == ys
      invariant Val(res) + Mul(cy, Pow(i)) == Val(xs[..i]) + Val(ys[..i])
    {
      if rp == ap { PatchGet(rs, ro, res, ao + i); }
      if rp == bp { PatchGet(rs, ro, res, bo + i); }
      var a, b := ap[ao + i], bp[bo + i];
      assert a == xs[i] && b == ys[i];
      ghost var c := cy;
      var r;
      r, cy := AddCarry(a, b, cy);
      rp[ro + i] := r;
      PatchSnoc(rs, ro, res, r);
      SumStep(res, r, c, cy, Val(xs[..i]), Val(ys[..i]), a, b);
      ValTake(xs, i);
      ValTake(ys, i);
      res := res + [r];
    }
    assert xs[..n] == xs && ys[..n] == ys;
    PatchSlice(rs, ro, res);
  }

  /** The limb step of mpn_add_n. */
  method AddCarry(a: Limb, b: Limb, cy0: Limb) returns (r: Limb, cy: Limb)
    requires cy0 <= 1
    ensures r + cy * B == cy0 + a + b && cy <= 1
  {
    hide Low;
    LowIs(a + cy0, if a + cy0 < B then 0 else 1);
    r := Low(a + cy0);
    cy := if r < cy0 then 1 else 0;
    LowIs(r + b, if r + b < B then 0 else 1);
    r := Low(r + b);
    cy := cy + if r < b then 1 else 0;
  }

  lemma SumStep(res: seq<Limb>, r: Limb, c: int, c1: int, va: int, vb: int, a: int, b: int)
    requires Val(res) + Mul(c, Pow(|res|)) == va + vb
    requires r + c1 * B == c + a + b
    ensures Val(res + [r]) + Mul(c1, Pow(|res| + 1)) == va + Mul(a, Pow(|res|)) + vb + Mul(b, Pow(|res|))
  {
    hide *;
    Emit(res, r, c, c1, a + b);
    MulSum2(a, b, Pow(|res|));
  }

  /** The limb step of mpn_mul_1: a product and a carry in, a limb and a carry out. */
  method MulCarry(ul: Limb, vl: Limb, cl0: Limb) returns (lpl: Limb, cl: Limb)
    ensures lpl + cl * B == cl0 + Mul(ul, vl)
    ensures cl <= B - 2 || (cl == B - 1 && lpl == 0)
  {
    hide Low, Mul;
    var hpl;
    hpl, lpl := Umul(ul, vl);
    Product(ul, vl);
    ProductBound(ul, vl);
    LowIs(lpl + cl0, if lpl + cl0 < B then 0 else 1);
    lpl := Low(lpl + cl0);
    cl := (if lpl < cl0 then 1 else 0) + hpl;
  }

  lemma ProductBound(x: Limb, y: Limb)
    ensures 0 <= Mul(x, y) <= (B - 1) * (B - 1)
  {
    MulPos(x, y);
    MulLe(x, B - 1, y);
  }

  /** mpn_mul_1. */
  method Mul1(rp: array<Limb>, ro: nat, up: array<Limb>, uo: nat, n: nat, vl: Limb) returns (cl: Limb)
    requires n >= 1 && ro + n <= rp.Length && uo + n <= up.Length
    requires rp == up ==> ro <= uo
    modifies rp
    ensures rp[..] == Patch(old(rp[..]), ro, rp[ro..ro + n])
    ensures Val(rp[ro..ro + n]) + Mul(cl, Pow(n)) == Mul(Val(old(up[uo..uo + n])), vl)
  {
    hide *;
    ghost var us, rs := up[uo..uo + n], rp[..];
    ghost var res: seq<Limb> := [];
    cl := 0;
    PatchNothing(rs, ro);
    StartProduct(vl);
    assert us[..0] == [];
    for i := 0 to n
      invariant |res| == i
      invariant rp[..] == Patch(rs, ro, res)
      invariant rp != up ==> up[uo..uo + n] == us
      invariant Val(res) + Mul(cl, Pow(i)) == Mul(Val(us[..i]), vl)
    {
      if rp == up { PatchGet(rs, ro, res, uo + i); }
      var ul := up[uo + i];
      assert ul == us[i];
      ghost var c := cl;
      var lpl;
      lpl, cl := MulCarry(ul, vl, cl);
      rp[ro + i] := lpl;
      PatchSnoc(rs, ro, res, lpl);
      Emit(res, lpl, c, cl, Mul(ul, vl));
      ValTake(us, i);
      ScaleTake(Val(us[..i]), ul, Pow(i), vl);
      res := res + [lpl];
    }
    assert us[..n] == us;
    PatchSlice(rs, ro, res);
  }

  lemma StartProduct(vl: int)
    ensures Val([]) == 0 && Mul(0, Pow(0)) == 0 && Mul(0, vl) == 0
  {
  }

  lemma ScaleTake(v: int, x: int, p: int, y: int)
    ensures Mul(v + Mul(x, p), y) == Mul(v, y) + Mul(Mul(x, y), p)
  {
    assert (v + x * p) * y == v * y + (x * y) * p;
  }

  /** mpn_add_1. */
  method Add1(rp: array<Limb>, ro: nat, ap: array<Limb>, ao: nat, n: nat, b0: Limb) returns (b: Limb)
    requires n >= 1 && ro + n <= rp.Length && ao + n <= ap.Length
    requires rp == ap ==> ro <= ao
    modifies rp
    ensures b <= 1
    ensures rp[..] == Patch(old(rp[..]), ro, rp[ro..ro + n])
    ensures Val(rp[ro..ro + n]) + Mul(b, Pow(n)) == Val(old(ap[ao..ao + n])) + b0
  {
    hide *;
    ghost var xs, rs := ap[ao..ao + n], rp[..];
    ghost var res: seq<Limb> := [];
    b := b0;
    PatchNothing(rs, ro);
    TimesOne(b);
    assert xs[..0] == [];
    for i := 0 to n
      invariant |res| == i && (i > 0 ==> b <= 1)
      invariant rp[..] == Patch(rs, ro, res)
      invariant rp != ap ==> ap[ao..ao + n] == xs
      invariant Val(res) + Mul(b, Pow(i)) == Val(xs[..i]) + b0
    {
      if rp == ap { PatchGet(rs, ro, res, ao + i); }
      var a := ap[ao + i];
      assert a == xs[i];
      ghost var c := b;
      LowIs(a + b, if a + b < B then 0 else 1);
      var r := Low(a + b);
      b := if r < b then 1 else 0;
      rp[ro + i] := r;
      PatchSnoc(rs, ro, res, r);
      Emit(res, r, c, b, a);
      ValTake(xs, i);
      res := res + [r];
    }
    assert xs[..n] == xs;
    PatchSlice(rs, ro, res);
  }

  lemma TimesOne(x: int)
    ensures Val([]) == 0 && Mul(x, Pow(0)) == x
  {
  }

  /** The limb step of mpn_submul_1. */
  method SubMulCarry(rl: Limb, ul: Limb, vl: Limb, cl0: Limb) returns (x: Limb, cl: Limb)
    ensures x - cl * B == rl - cl0 - Mul(ul, vl)
  {
    hide Low, Mul;
    var lpl;
    lpl, cl := MulCarry(ul, vl, cl0);
    LowIs(rl - lpl, if rl - lpl < 0 then -1 else 0);
    x := Low(rl - lpl);
    cl := cl + if x > rl then 1 else 0;
  }

  /** mpn_submul_1. */
  method SubMul1(rp: array<Limb>, ro: nat, up: array<Limb>, uo: nat, n: nat, vl: Limb) returns (cl: Limb)
    requires n >= 1 && ro + n <= rp.Length && uo + n <= up.Length
    requires rp != up
    modifies rp
    ensures rp[..] == Patch(old(rp[..]), ro, rp[ro..ro + n])
    ensures Val(rp[ro..ro + n]) - Mul(cl, Pow(n)) == Val(old(rp[ro..ro + n])) - Mul(Val(up[uo..uo + n]), vl)
  {
    hide *;
    ghost var us, rs := up[uo..uo + n], rp[..];
    ghost var old_ := rp[ro..ro + n];
    ghost var res: seq<Limb> := [];
    cl := 0;
    PatchNothing(rs, ro);
    StartProduct(vl);
    assert us[..0] == [] && old_[..0] == [];
    for i := 0 to n
      invariant |res| == i
      invariant rp[..] == Patch(rs, ro, res)
      invariant Val(res) - Mul(cl, Pow(i)) == Val(old_[..i]) - Mul(Val(us[..i]), vl)
    {
      PatchGet(rs, ro, res, ro + i);
      var ul, rl := up[uo + i], rp[ro + i];
      assert ul == us[i] && rl == old_[i];
      ghost var c := cl;
      var x;
      x, cl := SubMulCarry(rl, ul, vl, cl);
      rp[ro + i] := x;
      PatchSnoc(rs, ro, res, x);
      Borrow(res, x, c, cl, rl, Mul(ul, vl));
      ValTake(us, i);
      ValTake(old_, i);
      ScaleTake(Val(us[..i]), ul, Pow(i), vl);
      res := res + [x];
    }
    assert us[..n] == us && old_[..n] == old_;
    PatchSlice(rs, ro, res);
  }

  lemma Borrow(res: seq<Limb>, x: Limb, c: int, c1: int, r: int, e: int)
    requires x - c1 * B == r - c - e
    ensures Val(res + [x]) - Mul(c1, Pow(|res| + 1)) == Val(res) - Mul(c, Pow(|res|)) + Mul(r, Pow(|res|))
            - Mul(e, Pow(|res|))
  {
    ValSnoc(res, x);
    BorrowProduct(x, c, c1, r, e, Pow(|res|));
  }

  lemma BorrowProduct(x: int, c: int, c1: int, r: int, e: int, p: int)
    requires x - c1 * B == r - c - e
    ensures x * p - Mul(c1, B * p) == Mul(r, p) - Mul(c, p) - Mul(e, p)
  {
    assert (x - c1 * B) * p == (r - c - e) * p;
    Assoc(c1, B, p);
  }

  // ----- shifts

  /** The C shifts << and >> on a limb. */
  function Shl(x: Limb, cnt: nat): Limb {
    Low(x * Pow2(cnt))
  }

  function Shr(x: Limb, cnt: nat): (y: Limb)
    ensures y <= x
  {
    DivMod(x, Pow2(cnt));
    ShrBound(x, x / Pow2(cnt), LowBits(x, cnt), Pow2(cnt));
    x / Pow2(cnt)
  }

  /** The bits that a right shift by cnt drops. */
  function LowBits(x: Limb, cnt: nat): (y: nat)
    ensures y < Pow2(cnt)
  {
    x % Pow2(cnt)
  }

  lemma ShrBound(x: int, q: int, r: int, d: int)
    requires x == Mul(q, d) + r && 0 <= r < d && x >= 0
    ensures 0 <= q <= x
  {
    if q < 0 {
      MulLe(q, -1, d);
    } else {
      MulLe(1, d, q);
    }
  }

  /** What a left shift by cnt keeps in a limb and what it pushes into the next one. */
  lemma ShiftLimb(x: Limb, cnt: nat)
    requires 1 <= cnt < 64
    ensures Shl(x, cnt) == Mul(LowBits(x, 64 - cnt), Pow2(cnt))
    ensures Mul(x, Pow2(cnt)) == Shl(x, cnt) + B * Shr(x, 64 - cnt)
    ensures Shr(x, 64 - cnt) < Pow2(cnt) && 0 <= LowBits(x, 64 - cnt) < Pow2(64 - cnt)
  {
    hide Low, Mul, Pow2;
    TwoShifts(cnt);
    DivMod(x, Pow2(64 - cnt));
    SplitProduct(x / Pow2(64 - cnt), Pow2(64 - cnt), LowBits(x, 64 - cnt), Pow2(cnt), x);
    Product(x, Pow2(cnt));
    LowIs(x * Pow2(cnt), x / Pow2(64 - cnt));
  }

  lemma TwoShifts(cnt: nat)
    requires 1 <= cnt < 64
    ensures Mul(Pow2(cnt), Pow2(64 - cnt)) == B
  {
    hide Pow2;
    Pow2Add(cnt, 64 - cnt);
    Pow2Of64();
  }

  lemma SplitProduct(h: int, t: int, l: int, c: int, x: Limb)
    requires x == Mul(h, t) + l && 0 <= l < t && Mul(c, t) == B && c > 0
    ensures Mul(x, c) == h * B + Mul(l, c) && 0 <= Mul(l, c) < B && 0 <= h < c
  {
    Assoc(h, t, c);
    MulLe(l, t - 1, c);
    MulPos(l, c);
    QuotientBelow(h, t, l, x, c);
  }

  /** Joining the low part of one limb with the high part of its neighbour: | adds, and the sum is a limb. */
  lemma JoinLimb(x: Limb, y: Limb, cnt: nat)
    requires 1 <= cnt < 64
    ensures Shl(x, cnt) + Shr(y, 64 - cnt) < B
    ensures Bits(Or, Shl(x, cnt), Shr(y, 64 - cnt)) == Shl(x, cnt) + Shr(y, 64 - cnt)
    ensures Bits(Or, Shr(y, 64 - cnt), Shl(x, cnt)) == Shl(x, cnt) + Shr(y, 64 - cnt)
  {
    hide *;
    TwoShifts(cnt);
    ShiftLimb(x, cnt);
    ShiftLimb(y, cnt);
    var l, c := LowBits(x, 64 - cnt), Shr(y, 64 - cnt);
    JoinBound(Shl(x, cnt), l, Pow2(cnt), Pow2(64 - cnt), c);
    Product(l, Pow2(cnt));
    OrDisjoint(l, c, cnt);
    BitsCommute(Or, Shl(x, cnt), c);
  }

  lemma JoinBound(low: int, y: int, c: int, t: int, carry: int)
    requires low == Mul(y, c) && 0 <= y < t && 0 <= carry < c && Mul(c, t) == B
    ensures 0 <= low && low + carry < B
  {
    MulPos(y, c);
    MulLe(y, t - 1, c);
  }

  /** Limb k of a sequence shifted left by cnt. */
  ghost function ShiftedLimb(us: seq<Limb>, k: nat, cnt: nat): int
    requires k < |us| && 1 <= cnt < 64
  {
    if k == 0 then Shl(us[0], cnt) else Bits(Or, Shl(us[k], cnt), Shr(us[k - 1], 64 - cnt))
  }

  /** res holds the limbs from j on of us shifted left by cnt. */
  ghost predicate IsShifted(res: seq<Limb>, us: seq<Limb>, j: nat, cnt: nat)
    requires 1 <= cnt < 64 && j + |res| <= |us|
  {
    forall k :: 0 <= k < |res| ==> res[k] == ShiftedLimb(us, j + k, cnt)
  }

  lemma NothingShifted(us: seq<Limb>, j: nat, cnt: nat)
    requires 1 <= cnt < 64 && j <= |us|
    ensures IsShifted([], us, j, cnt)
  {
  }

  /**
   The loop of mpn_lshift with limb j pending: res, the shifted limbs above j, has
   been written into now, and with the pending limb it is the shifted value.
   */
  ghost predicate Lshifting(now: seq<Limb>, rs: seq<Limb>, ro: nat, us: seq<Limb>, j: nat, res: seq<Limb>, ret: Limb,
                            cnt: nat) {
    && 1 <= cnt < 64 && j < |us| && |res| == |us| - 1 - j && ro + |us| <= |rs|
    && now == Patch(rs, ro + j + 1, res)
    && Val([Shl(us[j], cnt)] + res) + Mul(ret, Pow(|us| - j)) == Mul(Val(us[j..]), Pow2(cnt))
    && IsShifted(res, us, j + 1, cnt)
  }

  lemma LshiftingStart(rs: seq<Limb>, ro: nat, us: seq<Limb>, cnt: nat)
    requires 1 <= cnt < 64 && |us| >= 1 && ro + |us| <= |rs|
    ensures Lshifting(rs, rs, ro, us, |us| - 1, [], Shr(us[|us| - 1], 64 - cnt), cnt)
    ensures Shr(us[|us| - 1], 64 - cnt) < Pow2(cnt)
  {
    hide Patch, Val, Mul, Pow, Pow2, Shl, Shr;
    var n, x := |us|, us[|us| - 1];
    ShiftLimb(x, cnt);
    ShiftStart(us, x, Shl(x, cnt), Shr(x, 64 - cnt), cnt);
    PatchNothing(rs, ro + n);
    NothingShifted(us, n, cnt);
  }

  lemma LshiftingRead(now: seq<Limb>, rs: seq<Limb>, ro: nat, us: seq<Limb>, j: nat, res: seq<Limb>, ret: Limb,
                      cnt: nat, k: nat)
    requires Lshifting(now, rs, ro, us, j, res, ret, cnt) && k <= ro + j
    ensures k < |now| == |rs| && now[k] == rs[k]
  {
    hide Val, Mul, Pow, Pow2, Shl, Shr;
  }

  lemma LshiftingStep(now: seq<Limb>, rs: seq<Limb>, ro: nat, us: seq<Limb>, j: nat, res: seq<Limb>, ret: Limb,
                      cnt: nat)
    requires Lshifting(now, rs, ro, us, j, res, ret, cnt) && j > 0
    ensures var x := Bits(Or, Shl(us[j], cnt), Shr(us[j - 1], 64 - cnt));
            x < B && ro + j < |now| && Lshifting(now[ro + j := x], rs, ro, us, j - 1, [x] + res, ret, cnt)
  {
    hide Patch, Val, Mul, Pow, Pow2, Shl, Shr, Bits, IsShifted;
    ShiftStep(us, j, res, ret, cnt, |us|);
    var x := Bits(Or, Shl(us[j], cnt), Shr(us[j - 1], 64 - cnt));
    PatchCons(rs, ro + j, res, x);
    ShiftedCons(res, us, j, cnt, x);
  }

  lemma LshiftingEnd(now: seq<Limb>, rs: seq<Limb>, ro: nat, us: seq<Limb>, res: seq<Limb>, ret: Limb, cnt: nat)
    requires Lshifting(now, rs, ro, us, 0, res, ret, cnt)
    ensures ro < |now| && |[Shl(us[0], cnt)] + res| == |us|
    ensures now[ro := Shl(us[0], cnt)] == Patch(rs, ro, [Shl(us[0], cnt)] + res)
    ensures Val([Shl(us[0], cnt)] + res) + Mul(ret, Pow(|us|)) == Mul(Val(us), Pow2(cnt))
    ensures IsShifted([Shl(us[0], cnt)] + res, us, 0, cnt)
  {
    hide Patch, Val, Mul, Pow, Pow2, Shl, Shr, Bits, IsShifted;
    PatchCons(rs, ro, res, Shl(us[0], cnt));
    ShiftedCons(res, us, 0, cnt, Shl(us[0], cnt));
    assert us[0..] == us;
  }

  /** mpn_lshift, working down from the top limb. */
  method Lshift(rp: array<Limb>, ro: nat, up: array<Limb>, uo: nat, n: nat, cnt: nat) returns (retval: Limb)
    requires n >= 1 && 1 <= cnt < 64 && ro + n <= rp.Length && uo + n <= up.Length
    requires rp == up ==> uo <= ro
    modifies rp
    ensures rp[..] == Patch(old(rp[..]), ro, rp[ro..ro + n])
    ensures Val(rp[ro..ro + n]) + Mul(retval, Pow(n)) == Mul(Val(old(up[uo..uo + n])), Pow2(cnt))
    ensures retval == Shr(old(up[uo + n - 1]), 64 - cnt) < Pow2(cnt)
    ensures IsShifted(rp[ro..ro + n], old(up[uo..uo + n]), 0, cnt)
  {
    hide *;
    ghost var us, rs := up[uo..uo + n], rp[..];
    ghost var res: seq<Limb> := [];
    var tnc := 64 - cnt;
    var j := n - 1;
    var lowLimb := up[uo + j];
    assert us[n - 1] == lowLimb;
    retval := Shr(lowLimb, tnc);
    var highLimb := Shl(lowLimb, cnt);
    LshiftingStart(rs, ro, us, cnt);
    while j > 0
      invariant 0 <= j < n && highLimb == Shl(us[j], cnt)
      invariant rp != up ==> up[uo..uo + n] == us
      invariant Lshifting(rp[..], rs, ro, us, j, res, retval, cnt)
    {
      if rp == up { LshiftingRead(rp[..], rs, ro, us, j, res, retval, cnt, uo + j - 1); }
      lowLimb := up[uo + j - 1];
      assert lowLimb == us[j - 1];
      LshiftingStep(rp[..], rs, ro, us, j, res, retval, cnt);
      var x: Limb := Bits(Or, highLimb, Shr(lowLimb, tnc));
      rp[ro + j] := x;
      highLimb := Shl(lowLimb, cnt);
      res := [x] + res;
      j := j - 1;
    }
    LshiftingEnd(rp[..], rs, ro, us, res, retval, cnt);
    rp[ro] := highLimb;
    PatchSlice(rs, ro, [highLimb] + res);
  }

  lemma ShiftedCons(res: seq<Limb>, us: seq<Limb>, j: nat, cnt: nat, x: Limb)
    requires 1 <= cnt < 64 && j + 1 + |res| <= |us| && IsShifted(res, us, j + 1, cnt)
    requires x == if j == 0 then Shl(us[0], cnt) else Bits(Or, Shl(us[j], cnt), Shr(us[j - 1], 64 - cnt))
    ensures IsShifted([x] + res, us, j, cnt)
  {
    hide Shl, Shr, Bits;
    forall k | 0 <= k < 1 + |res|
      ensures ([x] + res)[k] == ShiftedLimb(us, j + k, cnt)
    {
      if k > 0 {
        assert ([x] + res)[k] == res[k - 1];
        assert j + 1 + (k - 1) == j + k;
      }
    }
  }

  lemma PatchCons(s: seq<Limb>, at: nat, r: seq<Limb>, x: Limb)
    requires at + 1 + |r| <= |s|
    ensures Patch(s, at + 1, r)[at := x] == Patch(s, at, [x] + r)
  {
  }

  lemma ShiftStart(us: seq<Limb>, x: Limb, h: Limb, ret: Limb, cnt: nat)
    requires |us| >= 1 && us[|us| - 1] == x
    requires Mul(x, Pow2(cnt)) == h + B * ret
    ensures Val([h] + []) + Mul(ret, Pow(1)) == Mul(Val(us[|us| - 1..]), Pow2(cnt))
  {
    hide Mul, Pow2;
    ValCons(h, []);
    ValCons(x, []);
    assert us[|us| - 1..] == [x] + [];
    assert Val([]) == 0;
    assert Pow(1) == B * Pow(0) == B;
    MulB(ret);
  }

  lemma MulB(x: int)
    ensures Mul(x, B) == B * x
  {
  }

  lemma ShiftStep(us: seq<Limb>, j: nat, res: seq<Limb>, ret: Limb, cnt: nat, n: nat)
    requires 0 < j < |us| == n && |res| == n - 1 - j && 1 <= cnt < 64
    requires Val([Shl(us[j], cnt)] + res) + Mul(ret, Pow(n - j)) == Mul(Val(us[j..]), Pow2(cnt))
    ensures var x := Bits(Or, Shl(us[j], cnt), Shr(us[j - 1], 64 - cnt));
            && x < B
            && Val([Shl(us[j - 1], cnt)] + ([x] + res)) + Mul(ret, Pow(n - (j - 1))) == Mul(Val(us[j - 1..]), Pow2(cnt))
  {
    hide Mul, Pow2, Val, Shl, Shr, Bits, Pow;
    var h, h1, c := Shl(us[j], cnt), Shl(us[j - 1], cnt), Shr(us[j - 1], 64 - cnt);
    ShiftLimb(us[j - 1], cnt);
    JoinLimb(us[j], us[j - 1], cnt);
    var x := h + c;
    ValCons(h, res);
    ValCons(x, res);
    ValCons(h1, [x] + res);
    assert us[j - 1..] == [us[j - 1]] + us[j..];
    ValCons(us[j - 1], us[j..]);
    MulShift(us[j - 1], Val(us[j..]), Pow2(cnt));
    PowStep(ret, n - j);
  }

  lemma MulShift(x: int, v: int, p: int)
    ensures Mul(x + B * v, p) == Mul(x, p) + B * Mul(v, p)
  {
  }

  lemma PowStep(x: int, i: nat)
    ensures Mul(x, Pow(i + 1)) == B * Mul(x, Pow(i))
  {
    Assoc(x, B, Pow(i));
  }

  /** mpn_rshift, working up from the lowest limb; the bits shifted out come back in the high end of retval. */
  method Rshift(rp: array<Limb>, ro: nat, up: array<Limb>, uo: nat, n: nat, cnt: nat) returns (retval: Limb)
    requires n >= 1 && 1 <= cnt < 64 && ro + n <= rp.Length && uo + n <= up.Length
    requires rp == up ==> ro <= uo
    modifies rp
    ensures rp[..] == Patch(old(rp[..]), ro, rp[ro..ro + n])
    ensures retval == Shl(old(up[uo]), 64 - cnt)
    ensures Val(old(up[uo..uo + n])) == Mul(Val(rp[ro..ro + n]), Pow2(cnt)) + LowBits(old(up[uo]), cnt)
  {
    hide *;
    ghost var us, rs := up[uo..uo + n], rp[..];
    ghost var res: seq<Limb> := [];
    ghost var rem := LowBits(us[0], cnt);
    var tnc := 64 - cnt;
    var highLimb := up[uo];
    retval := Shl(highLimb, tnc);
    var lowLimb := Shr(highLimb, cnt);
    PatchNothing(rs, ro);
    assert us[..1] == [us[0]] && res + [lowLimb] == [lowLimb];
    RshiftStart(us[0], cnt);
    for i := 1 to n
      invariant |res| == i - 1 && lowLimb == Shr(us[i - 1], cnt)
      invariant rp[..] == Patch(rs, ro, res)
      invariant rp != up ==> up[uo..uo + n] == us
      invariant Val(us[..i]) == Mul(Val(res + [lowLimb]), Pow2(cnt)) + rem
    {
      if rp == up { PatchGet(rs, ro, res, uo + i); }
      highLimb := up[uo + i];
      assert highLimb == us[i];
      JoinRight(highLimb, us[i - 1], cnt);
      var x: Limb := Bits(Or, lowLimb, Shl(highLimb, tnc));
      rp[ro + i - 1] := x;
      PatchSnoc(rs, ro, res, x);
      ValTake(us, i);
      RshiftStep(res, lowLimb, highLimb, x, cnt);
      lowLimb := Shr(highLimb, cnt);
      res := res + [x];
    }
    rp[ro + n - 1] := lowLimb;
    PatchSnoc(rs, ro, res, lowLimb);
    res := res + [lowLimb];
    assert us[..n] == us;
    PatchSlice(rs, ro, res);
  }

  lemma RshiftLimb(x: Limb, cnt: nat)
    requires 1 <= cnt < 64
    ensures x == Mul(Shr(x, cnt), Pow2(cnt)) + LowBits(x, cnt)
    ensures Mul(Shl(x, 64 - cnt), Pow2(cnt)) == B * (LowBits(x, cnt))
  {
    hide Pow2, Mul;
    DivMod(x, Pow2(cnt));
    ShiftLimb(x, 64 - cnt);
    TwoShifts(cnt);
    Regroup(LowBits(x, cnt), Pow2(64 - cnt), Pow2(cnt));
    MulB(LowBits(x, cnt));
  }

  lemma Regroup(x: int, y: int, z: int)
    ensures Mul(Mul(x, y), z) == Mul(x, Mul(z, y)) == Mul(x, Mul(y, z))
  {
  }

  lemma JoinRight(x: Limb, y: Limb, cnt: nat)
    requires 1 <= cnt < 64
    ensures Shl(x, 64 - cnt) + Shr(y, cnt) < B
    ensures Bits(Or, Shr(y, cnt), Shl(x, 64 - cnt)) == Shl(x, 64 - cnt) + Shr(y, cnt)
  {
    JoinLimb(x, y, 64 - cnt);
  }

  lemma RshiftStart(x: Limb, cnt: nat)
    requires 1 <= cnt < 64
    ensures Val([x]) == Mul(Val([Shr(x, cnt)]), Pow2(cnt)) + LowBits(x, cnt)
  {
    hide *;
    RshiftLimb(x, cnt);
    ValOne(x);
    ValOne(Shr(x, cnt));
  }

  lemma ValOne(x: Limb)
    ensures Val([x]) == x
  {
    ValCons(x, []);
    assert [x] + [] == [x];
  }

  lemma ValPush(s: seq<Limb>, x: Limb)
    ensures Val(s + [x]) == Val(s) + Mul(x, Pow(|s|)) && Pow(|s| + 1) == B * Pow(|s|)
  {
    hide Val;
    ValSnoc(s, x);
  }

  lemma RshiftStep(res: seq<Limb>, low: Limb, high: Limb, x: Limb, cnt: nat)
    requires 1 <= cnt < 64 && x == Shl(high, 64 - cnt) + low
    ensures Mul(Val(res + [x] + [Shr(high, cnt)]), Pow2(cnt))
         == Mul(Val(res + [low]), Pow2(cnt)) + Mul(high, Pow(|res| + 1))
  {
    hide Mul, Val, Pow, Pow2, Shl, Shr, Low, LowBits;
    RshiftLimb(high, cnt);
    ValPush(res, low);
    ValPush(res, x);
    ValPush(res + [x], Shr(high, cnt));
    RshiftAlgebra(Val(res), Val(res + [low]), Val(res + [x] + [Shr(high, cnt)]), low, Shl(high, 64 - cnt), x,
                  Shr(high, cnt),
      Pow2(cnt), LowBits(high, cnt), high, Pow(|res|), Pow(|res| + 1));
  }

  lemma RshiftAlgebra(v: int, v0: int, v1: int, low: int, hs: int, x: int, l1: int, c: int, m: int, high: int,
                      p: int, p1: int)
    requires high == Mul(l1, c) + m && Mul(hs, c) == B * m && x == hs + low && p1 == B * p
    requires v0 == v + Mul(low, p) && v1 == v + Mul(x, p) + Mul(l1, p1)
    ensures Mul(v1, c) == Mul(v0, c) + Mul(high, p1)
  {
    assert v1 == v0 + hs * p + l1 * p1;
    assert v1 * c == v0 * c + (hs * c) * p + (l1 * c) * p1;
    assert (hs * c) * p == m * p1;
  }
}
