/** mpz_sizeinbase, mpz_get_str and mpz_set_str: numbers as text and back. */
module MpzText {
  import opened Arith
  import opened Limbs
  import opened PowersOfTwo
  import opened Mpn
  import opened MpnSigned
  import opened DivInverse
  import opened MpnDivQr
  import opened MpzNumbers
  import opened ByteStrings
  import opened Radix
  import opened MpnText
  import opened MpnSetStr

  // ----- the number of digits

  /** q is what is left of v after n divisions by b. */
  ghost predicate Counting(q: nat, v: nat, b: nat, n: nat) {
    Mul(q, PowB(b, n)) <= v < Mul(q, PowB(b, n)) + PowB(b, n)
  }

  lemma CountingStart(v: nat, b: nat)
    ensures Counting(v, v, b, 0)
  {
    NumNothing(b);
  }

  lemma CountingStep(q: nat, v: nat, b: nat, n: nat, q': nat, r: nat)
    requires Counting(q, v, b, n) && b >= 2 && q == Mul(q', b) + r && r < b
    ensures Counting(q', v, b, n + 1) && (q > 0 ==> PowB(b, n) <= v)
  {
    hide Mul, PowB;
    PowBStep(b, n);
    CountAlgebra(q, v, b, q', r, PowB(b, n), PowB(b, n + 1));
    LeadingDigit(q, PowB(b, n));
  }

  lemma CountAlgebra(q: int, v: int, b: int, q': int, r: int, p: nat, p': int)
    requires Mul(q, p) <= v < Mul(q, p) + p && q == Mul(q', b) + r && 0 <= r < b && p' == Mul(b, p)
    ensures Mul(q', p') <= v < Mul(q', p') + p'
  {
    Dist(q' * b, r, p);
    Assoc(q', b, p);
    MulLe(r + 1, b, p);
    Dist(r, 1, p);
    MulPos(r, p);
  }

  lemma CountingEnd(v: nat, b: nat, n: nat)
    requires Counting(0, v, b, n) && n > 0 && v > 0 && PowB(b, n - 1) <= v
    ensures Length(n, v, b)
  {
    ZeroTimesAny(PowB(b, n));
  }

  /** What dividing by one limb leaves of a number: the limb count drops by one exactly if the top limb becomes zero. */
  lemma DropTop(us: seq<Limb>, qs: seq<Limb>, d: Limb, w: Limb) returns (un: nat)
    requires |us| == |qs| > 0 && us[|us| - 1] > 0 && w < d && Val(us) == Mul(Val(qs), d) + w
    ensures un == (if qs[|qs| - 1] == 0 then |qs| - 1 else |qs|) && Val(qs[..un]) == Val(qs)
    ensures un > 0 ==> qs[un - 1] > 0
  {
    if |us| >= 2 {
      un := TopAfter(us, qs, d, w);
    } else {
      un := if qs[0] == 0 then 0 else 1;
      assert qs[..1] == qs;
      if un == 0 {
        ValZeroTop(qs);
      }
    }
  }

  lemma Nonzero(s: seq<Limb>)
    requires s != [] && s[|s| - 1] > 0
    ensures Val(s) > 0
  {
    ValPositive(s);
  }

  /** The loop of mpz_sizeinbase: divide by the base until nothing is left. */
  method CountDigits(up: array<Limb>, un0: nat, b: Limb) returns (ndigits: nat)
    requires 2 <= b <= 36 && 0 < un0 <= up.Length && up[un0 - 1] > 0
    ensures Length(ndigits, Val(up[..un0]), b)
  {
    hide Val, Mul, PowB, Counting, Length, Inverts1;
    ghost var v := Val(up[..un0]);
    var tp := new Limb[un0](i requires 0 <= i < un0 reads up => up[i]);
    assert tp[..un0] == up[..un0];
    var bi := Invert1(b);
    var un := un0;
    ndigits := 0;
    CountingStart(v, b);
    Nonzero(tp[..un]);
    while un > 0
      invariant un <= tp.Length && (un > 0 ==> tp[un - 1] > 0)
      invariant Counting(Val(tp[..un]), v, b, ndigits) && (un == un0 || ndigits > 0)
      invariant un == 0 ==> ndigits > 0
      invariant ndigits > 0 ==> PowB(b, ndigits - 1) <= v
      decreases Val(tp[..un])
      modifies tp
    {
      ghost var us := tp[..un];
      Nonzero(us);
      ndigits := ndigits + 1;
      var r;
      ghost var qs;
      r, qs := Div1Preinv(tp, tp, un, bi, b);
      assert tp[..un] == qs;
      ghost var n := DropTop(us, qs, b, r);
      un := if tp[un - 1] == 0 then un - 1 else un;
      assert tp[..un] == qs[..n];
      CountingStep(Val(us), v, b, ndigits - 1, Val(qs), r);
      Smaller3(Val(us), Val(qs), b, r);
    }
    EmptyVal(tp[..0]);
    CountingEnd(v, b, ndigits);
  }

  lemma Smaller3(x: nat, q: nat, b: int, r: nat)
    requires x == Mul(q, b) + r && b >= 2 && x > 0
    ensures q < x
  {
    MulLe(2, b, q);
  }

  /** mpz_sizeinbase: the exact number of digits. */
  method SizeInBase(u: Mpz, base: nat) returns (n: nat)
    requires u.Valid() && 2 <= base <= 36
    ensures Length(n, u.Mag(), base)
  {
    hide Val, Mul, PowB, Length, Pow2;
    var un := Abs(u.size);
    ghost var us := u.d[..un];
    if un == 0 {
      EmptyVal(us);
      ZeroLength(base);
      return 1;
    }
    var k := LimbSize2(u.d[un - 1]);
    BitLength(us, k);
    var bits := (un - 1) * 64 + k;
    ghost var v := Val(us);
    BaseBitsCases(base);
    match base {
      case 2 => n := bits; DigitsFor(v, bits, 1, n);
      case 4 => n := (bits + 1) / 2; DigitsFor(v, bits, 2, n);
      case 8 => n := (bits + 2) / 3; DigitsFor(v, bits, 3, n);
      case 16 => n := (bits + 3) / 4; DigitsFor(v, bits, 4, n);
      case 32 => n := (bits + 4) / 5; DigitsFor(v, bits, 5, n);
      case _ => n := CountDigits(u.d, un, base);
    }
  }

  lemma ZeroLength(b: nat)
    requires b >= 2
    ensures Length(1, 0, b)
  {
    PowBStep(b, 0);
  }

  lemma BaseBitsCases(b: nat)
    ensures Pow2(1) == 2 && Pow2(2) == 4 && Pow2(3) == 8 && Pow2(4) == 16 && Pow2(5) == 32
    ensures b <= 36 && BaseBits(b) > 0 ==> BaseBits(b) <= 5 && Pow2(BaseBits(b)) == b
  {
    assert Pow2(3) == 8 && Pow2(5) == 4 * Pow2(3);
  }

  // ----- to text; characters are their codes

  /** A digit as mpz_get_str writes it. */
  function DigitChar(d: Byte, upper: bool): Byte
    requires d < 36
  {
    if d < 10 then 48 + d else if upper then 65 + (d - 10) else 97 + (d - 10)
  }

  ghost function Chars(s: seq<Byte>, upper: bool): (c: seq<Byte>)
    requires Digits(s, 36)
    ensures |c| == |s|
  {
    seq(|s|, i requires 0 <= i < |s| => assert s[i] in s; DigitChar(s[i], upper))
  }

  /** The text of a number with the digits s. */
  ghost function Text(neg: bool, s: seq<Byte>, upper: bool): seq<Byte>
    requires Digits(s, 36)
  {
    (if neg then [45] else []) + Chars(s, upper)
  }

  /** A C string of the given length. */
  ghost predicate Terminated(sp: array<Byte>, len: nat)
    reads sp
  {
    len < sp.Length && sp[len] == 0 && forall k :: 0 <= k < len ==> sp[k] != 0
  }

  lemma DigitsUpTo(s: seq<Byte>, b: nat, c: nat)
    requires Digits(s, b) && b <= c
    ensures Digits(s, c)
  {
  }

  /** The digits of |u|, written to sp from position i on, without their characters yet. */
  method PutDigits(sp: array<Byte>, i: nat, base: nat, u: Mpz) returns (sn: nat)
    requires u.Valid() && u.size != 0 && 2 <= base <= 36 && i <= sp.Length && u.Mag() < PowB(base, sp.Length - i)
    modifies sp
    ensures i + sn <= sp.Length && Writes(sp[i..i + sn], u.Mag(), base)
    ensures sp[..i] == old(sp[..i]) && sp[i + sn..] == old(sp[i + sn..])
  {
    hide Val, Mul, PowB, Writes, Pow2;
    var un := Abs(u.size);
    var bits := BaseBits(base);
    if bits > 0 {
      sn := GetStrBits(sp, i, bits, u.d, un);
    } else {
      var info := GetBaseInfo(base);
      var d := u.d;
      var tp := new Limb[un](k requires 0 <= k < d.Length reads d => d[k]);
      assert tp[..un] == u.d[..un];
      sn := GetStrOther(sp, i, base, info, tp, un);
    }
  }

  /**
   mpz_get_str, into the caller's buffer if there is one, which then has room for sign,
   digits and terminator; no base above 36 is known.
   */
  method MpzGetStr(buffer: array?<Byte>, base0: int, u: Mpz)
    returns (sp: array?<Byte>, ghost s: seq<Byte>, ghost len: nat)
    requires u.Valid()
    requires buffer != null ==> forall n: nat :: Length(n, u.Mag(), TextBase(base0)) ==> n + 2 <= buffer.Length
    modifies if buffer == null then {} else {buffer}
    ensures u.Valid() && u.Mag() == old(u.Mag())
    ensures var base := if base0 > 1 then base0 else if base0 < -1 then -base0 else 10;
            if base > 36 then sp == null
            else && sp != null && (if buffer == null then fresh(sp) else sp == buffer)
                 && Writes(s, u.Mag(), base) && Digits(s, 36)
                 && Terminated(sp, len) && sp[..len] == Text(u.size < 0, s, base0 < 0)
  {
    hide Val, Mul, PowB, Writes, Num, Length;
    var upper := base0 < 0;
    var base := TextBase(base0);
    s, len := [], 0;
    if base > 36 {
      return null, s, len;
    }
    var n := SizeInBase(u, base);
    var sn := 1 + n;
    var str: array<Byte>;
    if buffer == null {
      str := new Byte[1 + sn];
    } else {
      str := buffer;
    }
    if u.size == 0 {
      str[0], str[1] := 48, 0;
      s, len := [0], 1;
      EmptyVal(u.d[..0]);
      ZeroText(base, upper);
      assert str[..1] == [48];
      return str, s, len;
    }
    s, len := GetNonzero(str, base, u, n, upper);
    sp := str;
  }

  /** The text of a number that is not zero: sign, digits, then the digits' characters. */
  method GetNonzero(str: array<Byte>, base: nat, u: Mpz, n: nat, upper: bool)
    returns (ghost s: seq<Byte>, ghost len: nat)
    requires u.Valid() && u.size != 0 && 2 <= base <= 36 && Length(n, u.Mag(), base) && n + 2 <= str.Length
    modifies str
    ensures u.Valid() && u.Mag() == old(u.Mag())
    ensures Writes(s, u.Mag(), base) && Digits(s, 36) && Terminated(str, len)
            && str[..len] == Text(u.size < 0, s, upper)
  {
    hide Val, Mul, PowB, Writes, Num, Length, Digits;
    ghost var v := u.Mag();
    NonzeroMag(u);
    var i := 0;
    if u.size < 0 {
      str[0] := 45;
      i := 1;
    }
    ghost var sign := str[..i];
    assert sign == if u.size < 0 then [45] else [];
    LengthFits(n, v, base, str.Length - i);
    var count := PutDigits(str, i, base, u);
    s := str[i..i + count];
    WritesLength(s, v, base);
    LengthUnique(count, n, v, base);
    WritesDigits(s, v, base);
    PutChars(str, i, i + count, s, upper);
    str[i + count] := 0;
    len := i + count;
    assert str[..i] == sign && str[i..len] == Chars(s, upper);
    ghost var text := Text(u.size < 0, s, upper);
    assert str[..len] == str[..i] + str[i..len] == text;
    TextNonzero(u.size < 0, s, upper);
    CString(str, len, text);
  }

  lemma CString(sp: array<Byte>, len: nat, t: seq<Byte>)
    requires len < sp.Length && sp[len] == 0 && sp[..len] == t && forall k :: 0 <= k < |t| ==> t[k] != 0
    ensures Terminated(sp, len)
  {
    forall k | 0 <= k < len ensures sp[k] != 0 {
      assert sp[k] == t[k];
    }
  }

  /** The digits from start to end become characters in place. */
  method PutChars(str: array<Byte>, start: nat, end: nat, ghost s: seq<Byte>, upper: bool)
    requires start <= end <= str.Length && str[start..end] == s && Digits(s, 36)
    modifies str
    ensures str[start..end] == Chars(s, upper) && str[..start] == old(str[..start]) && str[end..] == old(str[end..])
  {
    ghost var chars, s0 := Chars(s, upper), str[..];
    var i := start;
    while i < end
      invariant start <= i <= end
      invariant forall k :: start <= k < i ==> str[k] == chars[k - start]
      invariant forall k :: i <= k < end ==> str[k] == s[k - start]
      invariant str[..start] == s0[..start] && str[end..] == s0[end..]
    {
      assert s[i - start] in s;
      assert str[i] == s[i - start] && chars[i - start] == DigitChar(str[i], upper);
      str[i] := DigitChar(str[i], upper);
      i := i + 1;
    }
    forall k | 0 <= k < |chars| ensures str[start..end][k] == chars[k] {
      assert str[start + k] == chars[k];
    }
    assert str[start..end] == chars;
  }

  /** The base that mpz_get_str works with. */
  function TextBase(base0: int): (b: nat)
    ensures b >= 2
  {
    var b := if base0 >= 0 then base0 else 0 - base0;
    if b <= 1 then 10 else b
  }

  lemma ZeroText(base: nat, upper: bool)
    requires base >= 2
    ensures Writes([0], 0, base) && Digits([0], 36) && Text(false, [0], upper) == [48]
  {
    assert [0] == [] + [0];
    NumSnoc([], 0, base);
    NumNothing(base);
    ZeroOne(0, base);
  }

  lemma NonzeroMag(u: Mpz)
    requires u.Valid() && u.size != 0
    ensures u.Mag() > 0
  {
    Nonzero(u.d[..Abs(u.size)]);
  }

  lemma LengthFits(n: nat, v: nat, b: nat, room: nat)
    requires Length(n, v, b) && b >= 2 && n <= room
    ensures v < PowB(b, room)
  {
    PowBMono(b, n, room);
  }

  lemma WritesDigits(s: seq<Byte>, v: nat, b: nat)
    requires Writes(s, v, b) && b <= 36
    ensures Digits(s, 36)
  {
  }

  lemma TextNonzero(neg: bool, s: seq<Byte>, upper: bool)
    requires Digits(s, 36)
    ensures forall k :: 0 <= k < |Text(neg, s, upper)| ==> Text(neg, s, upper)[k] != 0
  {
  }

  // ----- from text

  predicate IsSpace(c: Byte) {
    c == 32 || 9 <= c <= 13
  }

  /** The value of a character as a digit; base itself if it is none. */
  function DigitValue(c: Byte, base: nat): nat {
    if 48 <= c <= 57 then c - 48
    else if 97 <= c <= 122 then c - 97 + 10
    else if 65 <= c <= 90 then c - 65 + 10
    else base
  }

  function SkipSpaces(s: seq<Byte>): seq<Byte> {
    if s != [] && IsSpace(s[0]) then SkipSpaces(s[1..]) else s
  }

  datatype Numeral = Numeral(neg: bool, digits: seq<Byte>, base: nat) | NotNumeral

  /** The digits of a text, spaces left out; the flag tells whether every other character is a digit. */
  function ReadDigits(s: seq<Byte>, base: nat): (r: (bool, seq<Byte>))
    requires base <= 36
    ensures r.0 ==> Digits(r.1, base)
  {
    if s == [] then (true, [])
    else if IsSpace(s[|s| - 1]) then ReadDigits(s[..|s| - 1], base)
    else
      var r := ReadDigits(s[..|s| - 1], base);
      var d := DigitValue(s[|s| - 1], base);
      if r.0 && d < base then (true, r.1 + [d]) else (false, [])
  }

  /** The base that a text announces by its first characters, and how many of them that takes. */
  function Announced(s: seq<Byte>, base0: nat): (r: (nat, nat))
    ensures r.1 <= |s| && (base0 == 0 ==> 2 <= r.0 <= 16) && (base0 > 0 ==> r.0 == base0)
  {
    if base0 != 0 then (base0, 0)
    else if s == [] || s[0] != 48 then (10, 0)
    else if |s| > 1 && (s[1] == 120 || s[1] == 88) then (16, 2)
    else if |s| > 1 && (s[1] == 98 || s[1] == 66) then (2, 2)
    else (8, 0)
  }

  /** What mpz_set_str reads. */
  function Parse(s: seq<Byte>, base0: nat): Numeral
    requires base0 <= 36
  {
    var t := SkipSpaces(s);
    var neg := t != [] && t[0] == 45;
    var u := if neg then t[1..] else t;
    var a := Announced(u, base0);
    ToNumeral(ReadDigits(u[a.1..], a.0), neg, a.0)
  }

  function ToNumeral(d: (bool, seq<Byte>), neg: bool, base: nat): Numeral {
    if d.0 && d.1 != [] then Numeral(neg, d.1, base) else NotNumeral
  }

  lemma {:induction false} SkipSpacesStep(s: seq<Byte>, p: nat)
    requires p <= |s|
    ensures SkipSpaces(s[p..]) == if p < |s| && IsSpace(s[p]) then SkipSpaces(s[p + 1..]) else s[p..]
  {
    if p < |s| {
      assert s[p..][1..] == s[p + 1..];
    }
  }

  lemma ReadStep(s: seq<Byte>, i: nat, base: nat)
    requires i < |s| && base <= 36
    ensures var r, d := ReadDigits(s[..i], base), DigitValue(s[i], base);
            ReadDigits(s[..i + 1], base) ==
            if IsSpace(s[i]) then r else if r.0 && d < base then (true, r.1 + [d]) else (false, [])
  {
    assert s[..i + 1][..i] == s[..i];
  }

  /** A character that is no digit spoils all that follows. */
  lemma {:induction false} ReadFails(s: seq<Byte>, i: nat, base: nat)
    requires i <= |s| && base <= 36 && !ReadDigits(s[..i], base).0
    ensures !ReadDigits(s, base).0
    decreases |s| - i
  {
    if i < |s| {
      ReadStep(s, i, base);
      ReadFails(s, i + 1, base);
    } else {
      assert s[..i] == s;
    }
  }

  /** The digits of a string from position p on, as numbers. */
  method CollectDigits(sp: array<Byte>, p0: nat, ghost len: nat, base: nat) returns (ok: bool, dp: array<Byte>, dn: nat)
    requires Terminated(sp, len) && p0 <= len && 2 <= base <= 36
    ensures fresh(dp) && dn <= dp.Length
    ensures ok == ReadDigits(sp[p0..len], base).0 && (ok ==> dp[..dn] == ReadDigits(sp[p0..len], base).1)
  {
    hide ReadDigits;
    ghost var s := sp[p0..len];
    var n := 0;
    while sp[p0 + n] != 0
      invariant p0 + n <= len
      decreases len - n
    {
      n := n + 1;
    }
    dp := new Byte[n];
    dn, ok := 0, true;
    var i := 0;
    NothingRead(base);
    assert s[..0] == [];
    while sp[p0 + i] != 0
      invariant 0 <= i <= |s| == n && dn <= i && dp[..dn] == ReadDigits(s[..i], base).1 && ReadDigits(s[..i], base).0
      decreases n - i
      modifies dp
    {
      ReadStep(s, i, base);
      var c := sp[p0 + i];
      assert c == s[i];
      if IsSpace(c) {
        i := i + 1;
        continue;
      }
      var digit := DigitValue(c, base);
      if digit >= base {
        ReadFails(s, i + 1, base);
        return false, dp, 0;
      }
      dp[dn] := digit;
      assert dp[..dn + 1] == dp[..dn] + [digit];
      dn := dn + 1;
      i := i + 1;
    }
    assert s[..i] == s;
  }

  lemma NothingRead(base: nat)
    requires base <= 36
    ensures ReadDigits([], base) == (true, [])
  {
  }

  /** The limbs of a digit sequence that is not empty. */
  method SetDigits(r: Mpz, dp: array<Byte>, dn: nat, base: nat) returns (rn: nat)
    requires 0 < dn <= dp.Length && 2 <= base <= 36 && Digits(dp[..dn], base)
    modifies r`d, r.d
    ensures r.d == old(r.d) || fresh(r.d)
    ensures rn <= r.d.Length && (rn > 0 ==> r.d[rn - 1] != 0) && Val(r.d[..rn]) == Num(old(dp[..dn]), base)
  {
    hide Val, Num, Pow2, PowB, Mul, Full, Digits;
    var bits := BaseBits(base);
    ghost var s := dp[..dn];
    if bits > 0 {
      r.Realloc((dn * bits + 63) / 64);
      EnoughLimbs(dn, bits);
      assert dp[..dn] == s;
      rn := SetStrBits(r.d, dp, dn, bits);
    } else {
      var info := GetBaseInfo(base);
      ghost var rem := FirstChunk(dn, info.exp);
      r.Realloc((dn + info.exp - 1) / info.exp);
      assert dp[..dn] == s;
      rn := SetStrOther(r.d, dp, dn, base, info);
      FullTop(r.d[..rn]);
      if r.d[rn - 1] == 0 {
        ValZeroTop(r.d[..rn]);
        assert r.d[..rn][..rn - 1] == r.d[..rn - 1];
        rn := rn - 1;
      }
    }
  }

  lemma EnoughLimbs(dn: nat, bits: nat)
    ensures 0 <= (dn * bits + 63) / 64 && bits * dn <= 64 * ((dn * bits + 63) / 64)
  {
    MulPos(dn, bits);
  }

  lemma FullTop(rs: seq<Limb>)
    requires Full(rs)
    ensures |rs| > 0 && (rs[|rs| - 1] == 0 ==> |rs| == 1)
  {
  }

  /** The number that a numeral stands for. */
  ghost function Denotes(n: Numeral): int
    requires n.Numeral?
  {
    if n.neg then 0 - Num(n.digits, n.base) else Num(n.digits, n.base)
  }

  /** The start of a string: white space and a minus sign. */
  method SkipSign(sp: array<Byte>, ghost len: nat) returns (p: nat, sign: bool)
    requires Terminated(sp, len)
    ensures p <= len
    ensures var t := SkipSpaces(sp[..len]);
            sign == (t != [] && t[0] == 45) && sp[p..len] == if sign then t[1..] else t
  {
    hide SkipSpaces;
    ghost var s := sp[..len];
    p := 0;
    assert s[0..] == s;
    while IsSpace(sp[p])
      invariant 0 <= p <= len && SkipSpaces(s) == SkipSpaces(s[p..])
      decreases len - p
    {
      SkipSpacesStep(s, p);
      p := p + 1;
    }
    SkipSpacesStep(s, p);
    ghost var t := s[p..];
    sign := sp[p] == 45;
    if sign {
      assert t[1..] == s[p + 1..];
      p := p + 1;
    }
    assert sp[p..len] == s[p..];
  }

  /** The base, if it was not given: by the prefixes of C. */
  method FindBase(sp: array<Byte>, p0: nat, base0: nat, ghost len: nat, ghost u: seq<Byte>) returns (p: nat, base: nat)
    requires Terminated(sp, len) && p0 <= len && u == sp[p0..len]
    ensures p <= len && Announced(u, base0).0 == base && sp[p..len] == u[Announced(u, base0).1..]
  {
    p, base := p0, base0;
    if base == 0 {
      if sp[p] == 48 {
        if sp[p + 1] == 120 || sp[p + 1] == 88 {
          base := 16;
          p := p + 2;
        } else if sp[p + 1] == 98 || sp[p + 1] == 66 {
          base := 2;
          p := p + 2;
        } else {
          base := 8;
        }
      } else {
        base := 10;
      }
    }
    assert Announced(u, base0).1 == p - p0;
  }

  /** r is what the numeral denotes; without one it is 0, and that is a failure. */
  ghost predicate Set(r: Mpz, ok: bool, n: Numeral)
    reads r, r.d
  {
    r.Valid() && ok == n.Numeral? && if ok then r.Value() == Denotes(n) else r.size == 0
  }

  /** The rest of mpz_set_str: the digits from p on, and the number they denote. */
  method SetNumeral(r: Mpz, sp: array<Byte>, p: nat, ghost len: nat, ghost v: seq<Byte>, sign: bool, base: nat)
    returns (ok: bool)
    requires Terminated(sp, len) && p <= len && v == sp[p..len] && r.Valid() && 2 <= base <= 36
    modifies r, r.d
    ensures r.d == old(r.d) || fresh(r.d)
    ensures Set(r, ok, ToNumeral(ReadDigits(v, base), sign, base))
  {
    hide Val, Num, ReadDigits;
    EmptyVal([]);
    if sp[p] == 0 {
      NothingRead(base);
      assert v == [];
      r.size := 0;
      return false;
    }
    var dp, dn;
    ok, dp, dn := CollectDigits(sp, p, len, base);
    if !ok || dn == 0 {
      r.size := 0;
      return false;
    }
    var rn := SetDigits(r, dp, dn, base);
    assert r.d[..0] == [];
    var n: int := rn;
    r.size := if sign then 0 - n else n;
  }

  /** mpz_set_str: the number a string denotes, or 0 and a failure. */
  method MpzSetStr(r: Mpz, sp: array<Byte>, base0: nat, ghost s: seq<Byte>) returns (ok: bool)
    requires Terminated(sp, |s|) && s == sp[..|s|] && r.Valid() && (base0 == 0 || 2 <= base0 <= 36)
    modifies r, r.d
    ensures r.d != old(r.d) ==> fresh(r.d)
    ensures Set(r, ok, Parse(s, base0))
  {
    hide *;
    ghost var len := |s|;
    StringFits(sp, len);
    var p, sign := SkipSign(sp, len);
    ghost var u := sp[p..len];
    ParseIs(s, base0, sign, u);
    var base;
    p, base := FindBase(sp, p, base0, len, u);
    ok := SetNumeral(r, sp, p, len, u[Announced(u, base0).1..], sign, base);
  }

  lemma StringFits(sp: array<Byte>, len: nat)
    requires Terminated(sp, len)
    ensures len < sp.Length
  {
  }

  /** What a string is read as, when its start is known. */
  lemma ParseIs(s: seq<Byte>, base0: nat, sign: bool, u: seq<Byte>)
    requires base0 <= 36
    requires var t := SkipSpaces(s); sign == (t != [] && t[0] == 45) && u == if sign then t[1..] else t
    ensures var a := Announced(u, base0); Parse(s, base0) == ToNumeral(ReadDigits(u[a.1..], a.0), sign, a.0)
  {
    hide ReadDigits, SkipSpaces, Announced;
  }

  // ----- round trip

  lemma CharBack(d: Byte, b: nat, upper: bool)
    requires d < b <= 36
    ensures var c := DigitChar(d, upper); DigitValue(c, b) == d && !IsSpace(c) && c != 45 && c != 0
  {
  }

  lemma {:induction false} CharsBack(s: seq<Byte>, b: nat, upper: bool)
    requires Digits(s, b) && b <= 36
    ensures Digits(s, 36) && ReadDigits(Chars(s, upper), b) == (true, s)
  {
    DigitsUpTo(s, b, 36);
    if s == [] {
      NothingRead(b);
      assert Chars(s, upper) == [];
    } else {
      var n := |s| - 1;
      var c := Chars(s, upper);
      DigitsSlice(s, 0, n, b);
      assert s[0..n] == s[..n] && s[n] in s;
      CharsBack(s[..n], b, upper);
      assert c[..n] == Chars(s[..n], upper);
      ReadStep(c, n, b);
      assert c[..n + 1] == c;
      CharBack(s[n], b, upper);
      assert s == s[..n] + [s[n]];
    }
  }

  /** What mpz_get_str writes, mpz_set_str reads back: for every integer, every base and both cases of letters. */
  lemma TextRoundTrip(x: int, s: seq<Byte>, b: nat, upper: bool)
    requires 2 <= b <= 36 && Writes(s, Abs(x), b) && Digits(s, 36)
    ensures var n := Parse(Text(x < 0, s, upper), b);
            n == Numeral(x < 0, s, b) && Denotes(n) == x
  {
    hide Num, ReadDigits;
    var t, c := Text(x < 0, s, upper), Chars(s, upper);
    CharsBack(s, b, upper);
    assert s[0] in s;
    CharBack(s[0], b, upper);
    SkipSpacesStep(t, 0);
    assert t[0..] == t;
    assert x < 0 ==> t[1..] == c;
    assert x >= 0 ==> t == c;
    assert c[0..] == c;
  }

  /** Without a given base, the first characters tell it: 0x or 0X, 0b or 0B, 0, or none of them for ten. */
  ghost predicate Prefixed(p: seq<Byte>, b: nat) {
    || (b == 16 && (p == [48, 120] || p == [48, 88]))
    || (b == 2 && (p == [48, 98] || p == [48, 66]))
    || (b == 8 && p == [48])
    || (b == 10 && p == [])
  }

  /** Every integer is read back from its prefixed text, with the base left to the prefix, in both cases of letters. */
  lemma PrefixRoundTrip(x: int, s: seq<Byte>, b: nat, p: seq<Byte>, upper: bool)
    requires 2 <= b <= 36 && Prefixed(p, b) && Writes(s, Abs(x), b) && Digits(s, 36)
    ensures var n := Parse((if x < 0 then [45] else []) + p + Chars(s, upper), 0);
            n.Numeral? && n.neg == (x < 0) && Denotes(n) == x
  {
    hide Num, ReadDigits, Chars, Announced, SkipSpaces;
    var u := p + Chars(s, upper);
    var t := (if x < 0 then [45] else []) + p + Chars(s, upper);
    PrefixStart(s, Abs(x), b, p, upper);
    SkipSpacesStep(t, 0);
    assert t[0..] == t && (x < 0 ==> t[1..] == u) && (x >= 0 ==> t == u);
    ParseIs(t, 0, x < 0, u);
    PrefixRead(s, Abs(x), b, p, upper);
  }

  /** Neither white space nor a sign comes first. */
  lemma PrefixStart(s: seq<Byte>, v: nat, b: nat, p: seq<Byte>, upper: bool)
    requires 2 <= b <= 36 && Prefixed(p, b) && Writes(s, v, b) && Digits(s, 36)
    ensures var u := p + Chars(s, upper); u != [] && !IsSpace(u[0]) && u[0] != 45
  {
    hide Num;
    assert s[0] in s;
    CharBack(s[0], b, upper);
    if p == [] {
      assert p + Chars(s, upper) == Chars(s, upper);
    }
  }

  lemma PrefixRead(s: seq<Byte>, v: nat, b: nat, p: seq<Byte>, upper: bool)
    requires 2 <= b <= 36 && Prefixed(p, b) && Writes(s, v, b) && Digits(s, 36)
    ensures var u := p + Chars(s, upper);
            var a := Announced(u, 0);
            var r := ReadDigits(u[a.1..], a.0);
            r.0 && r.1 != [] && Num(r.1, a.0) == v
  {
    var u, c := p + Chars(s, upper), Chars(s, upper);
    CharsBack(s, b, upper);
    assert s[0] in s;
    CharBack(s[0], b, upper);
    if b == 16 || b == 2 {
      assert Announced(u, 0) == (b, 2) && u[2..] == c;
    } else if b == 8 {
      ZeroFirst(s, upper);
      OctalStart(s, upper);
      assert u[0..] == u == [48] + c;
    } else {
      assert u == c && u[0..] == u;
      if s[0] == 0 {
        ZeroAlone(s, v, upper);
        assert Announced(u, 0) == (8, 0);
      } else {
        assert Announced(u, 0) == (10, 0);
      }
    }
  }

  /** The digit after the zero of an octal number is no letter. */
  lemma OctalStart(s: seq<Byte>, upper: bool)
    requires Digits(s, 8) && Digits(s, 36)
    ensures Announced([48] + Chars(s, upper), 0) == (8, 0)
  {
    if s != [] {
      assert s[0] in s;
      assert Chars(s, upper)[0] == 48 + s[0];
    }
  }

  /** A zero before the digits of an octal number changes nothing. */
  lemma ZeroFirst(s: seq<Byte>, upper: bool)
    requires Digits(s, 8)
    ensures Digits(s, 36) && ReadDigits([48] + Chars(s, upper), 8) == (true, [0] + s) && Num([0] + s, 8) == Num(s, 8)
  {
    hide Num, ReadDigits;
    DigitsUpTo(s, 8, 36);
    var z := [0] + s;
    assert Digits(z, 8) && Digits(z, 36);
    CharsBack(z, 8, upper);
    assert Chars(z, upper) == [48] + Chars(s, upper);
    NumCons(0, s, 8);
    NoProduct(PowB(8, |s|));
  }

  lemma NoProduct(p: int)
    ensures Mul(0, p) == 0
  {
  }

  /** Zero is the only number whose digits begin with a zero, and it is read as octal. */
  lemma ZeroAlone(s: seq<Byte>, v: nat, upper: bool)
    requires Writes(s, v, 10) && s[0] == 0
    ensures v == 0 && Digits(s, 36) && Chars(s, upper) == [48] && ReadDigits([48], 8) == (true, [0]) && Num([0], 8) == 0
  {
    assert s == [0];
    ZeroFirst([], upper);
    assert Chars([], upper) == [] && [48] + [] == [48] && [0] + [] == [0];
    NumNothing(8);
  }

  /** The characters that a text may consist of, with the values of the digits: the others are white space. */
  lemma {:induction false} ReadableChars(s: seq<Byte>, b: nat)
    requires 2 <= b <= 36
    ensures ReadDigits(s, b).0 <==>
              forall k :: 0 <= k < |s| ==>
                || s[k] == 32 || 9 <= s[k] <= 13 || (48 <= s[k] <= 57 && s[k] - 48 < b)
                || (97 <= s[k] <= 122 && s[k] - 87 < b) || (65 <= s[k] <= 90 && s[k] - 55 < b)
  {
    if s != [] {
      var n := |s| - 1;
      ReadableChars(s[..n], b);
      assert s[..n + 1] == s;
      ReadStep(s, n, b);
      hide ReadDigits;
    }
  }

  /** White space counts for nothing, wherever it is among the digits. */
  lemma {:induction false} SpaceIgnored(s: seq<Byte>, c: Byte, t: seq<Byte>, b: nat)
    requires b <= 36 && (c == 32 || 9 <= c <= 13)
    ensures ReadDigits(s + [c] + t, b) == ReadDigits(s + t, b)
  {
    hide ReadDigits;
    if t == [] {
      ReadStep(s + [c], |s|, b);
      assert (s + [c])[..|s|] == s && (s + [c])[..|s| + 1] == s + [c];
      assert s + [c] + t == s + [c] && s + t == s;
    } else {
      var n := |t| - 1;
      var x, y := s + [c] + t, s + t;
      SpaceIgnored(s, c, t[..n], b);
      ReadStep(x, |x| - 1, b);
      ReadStep(y, |y| - 1, b);
      assert x[..|x| - 1] == s + [c] + t[..n] && y[..|y| - 1] == s + t[..n];
      assert x[..|x| - 1 + 1] == x && y[..|y| - 1 + 1] == y;
    }
  }

  /** Nor does white space before the text. */
  lemma SpaceBefore(c: Byte, s: seq<Byte>, base0: nat)
    requires base0 <= 36 && (c == 32 || 9 <= c <= 13)
    ensures Parse([c] + s, base0) == Parse(s, base0)
  {
    var t := [c] + s;
    SkipSpacesStep(t, 0);
    SkipSpacesStep(t, 1);
    assert t[0..] == t && t[1..] == s;
    hide ReadDigits, SkipSpaces, Announced;
  }

  /** The digits are the characters that the source lists. */
  lemma DigitChars(d: Byte)
    requires d < 36
    ensures DigitChar(d, false) == "0123456789abcdefghijklmnopqrstuvwxyz"[d] as int
  {
  }

  lemma UpperDigitChars(d: Byte)
    requires d < 36
    ensures DigitChar(d, true) == "0123456789ABCDEFGHIJKLMNOPQRSTUVWXYZ"[d] as int
  {
  }
}
