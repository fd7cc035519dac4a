/** Numbers as byte strings, least significant byte first. */
module ByteStrings {
  import opened Arith
  import opened Limbs
  import opened PowersOfTwo

  type Byte = x: int | 0 <= x < 256

  /** 256 to the power n. */
  ghost function Pow256(n: nat): (p: nat)
    ensures p > 0
  {
    if n == 0 then 1 else 256 * Pow256(n - 1)
  }

  /** The number that a byte string denotes, least significant byte first. */
  ghost function ByteVal(s: seq<Byte>): (v: nat) {
    if s == [] then 0 else s[0] + 256 * ByteVal(s[1..])
  }

  /** The n low bytes of x, least significant first. */
  ghost function BytesOf(x: nat, n: nat): (s: seq<Byte>)
    ensures |s| == n
  {
    if n == 0 then [] else [x % 256] + BytesOf(x / 256, n - 1)
  }

  /** Byte k has the weight 256^k. */
  lemma {:induction false} BytesOfAt(x: nat, n: nat, k: nat)
    requires k < n
    ensures BytesOf(x, n)[k] == x / Pow256(k) % 256
  {
    if k > 0 {
      BytesOfAt(x / 256, n - 1, k - 1);
      DivTwice(x, 256, Pow256(k - 1));
    } else {
      assert Pow256(0) == 1;
    }
  }

  lemma DivTwice(x: nat, a: nat, b: nat)
    requires a > 0 && b > 0
    ensures a * b > 0 && x / a / b == x / (a * b)
  {
    MulLe(1, a, b);
    var q, r := x / a, x % a;
    var q', r' := q / b, q % b;
    DivMod(x, a);
    DivMod(q, b);
    assert r' * a + r < a * b by {
      MulLe(r' + 1, b, a);
      Dist(r', 1, a);
    }
    MulPos(r', a);
    assert x == q' * (a * b) + (r' * a + r) by {
      assert (q' * b + r') * a == q' * (a * b) + r' * a;
    }
    DivIs(x, q', r' * a + r, a * b);
  }

  ghost function Reversed(s: seq<Byte>): (r: seq<Byte>)
    ensures |r| == |s|
  {
    if s == [] then [] else Reversed(s[1..]) + [s[0]]
  }

  lemma {:induction false} ReversedAt(s: seq<Byte>, k: nat)
    requires k < |s|
    ensures Reversed(s)[k] == s[|s| - 1 - k]
  {
    if k < |s| - 1 {
      ReversedAt(s[1..], k);
    }
  }

  lemma {:induction false} ReversedSnoc(s: seq<Byte>, b: Byte)
    ensures Reversed(s + [b]) == [b] + Reversed(s)
  {
    if s == [] {
      assert s + [b] == [b] && [b][1..] == [];
    } else {
      assert (s + [b])[1..] == s[1..] + [b] && (s + [b])[0] == s[0];
      ReversedSnoc(s[1..], b);
    }
  }

  lemma ReversedTwice(s: seq<Byte>)
    ensures Reversed(Reversed(s)) == s
  {
    forall k | 0 <= k < |s| ensures Reversed(Reversed(s))[k] == s[k] {
      ReversedAt(Reversed(s), k);
      ReversedAt(s, |s| - 1 - k);
    }
  }

  lemma {:induction false} ByteValBound(s: seq<Byte>)
    ensures ByteVal(s) < Pow256(|s|)
  {
    if s != [] {
      ByteValBound(s[1..]);
    }
  }

  lemma {:induction false} BytesOfVal(s: seq<Byte>)
    ensures BytesOf(ByteVal(s), |s|) == s
  {
    if s != [] {
      var v := ByteVal(s[1..]);
      BytesOfVal(s[1..]);
      assert ByteVal(s) == s[0] + 256 * v;
      assert ByteVal(s) / 256 == v && ByteVal(s) % 256 == s[0];
      assert s == [s[0]] + s[1..];
    }
  }

  lemma {:induction false} ValOfBytes(x: nat, n: nat)
    requires x < Pow256(n)
    ensures ByteVal(BytesOf(x, n)) == x
  {
    if n > 0 {
      ValOfBytes(x / 256, n - 1);
    }
  }

  lemma {:induction false} ByteValSnoc(s: seq<Byte>, b: Byte)
    ensures ByteVal(s + [b]) == ByteVal(s) + Mul(b, Pow256(|s|))
  {
    if s == [] {
      assert s + [b] == [b] && [b][1..] == [];
    } else {
      assert (s + [b])[1..] == s[1..] + [b];
      ByteValSnoc(s[1..], b);
      Assoc(256, b, Pow256(|s| - 1));
    }
  }

  /** Eight bytes make a limb. */
  lemma {:induction false} Pow256Limbs(i: nat, n: nat)
    ensures Pow256(8 * i + n) == Mul(Pow(i), Pow256(n))
    ensures Pow256(n) == Pow2(8 * n)
    decreases i, n
  {
    Bytes2(n);
    if i > 0 {
      Pow256Limbs(i - 1, n);
      EightMore(8 * (i - 1) + n);
      Assoc(B, Pow(i - 1), Pow256(n));
    }
  }

  lemma EightMore(m: nat)
    ensures Pow256(m + 8) == B * Pow256(m)
  {
    assert Pow256(m + 8) == 256 * Pow256(m + 7) == 0x1_0000 * Pow256(m + 6) == 0x100_0000 * Pow256(m + 5);
    assert Pow256(m + 5) == 256 * Pow256(m + 4) == 0x1_0000 * Pow256(m + 3) == 0x100_0000 * Pow256(m + 2);
    assert Pow256(m + 2) == 256 * Pow256(m + 1) == 0x1_0000 * Pow256(m);
  }

  lemma {:induction false} Bytes2(n: nat)
    ensures Pow256(n) == Pow2(8 * n)
  {
    if n > 0 {
      Bytes2(n - 1);
      Pow2Add(8, 8 * (n - 1));
      Pow2Of64();
    }
  }
}
