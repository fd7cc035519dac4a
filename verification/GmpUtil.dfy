/** src/gmputil.c: numbers as data in big-endian or host byte order. */
module GmpUtil {
  import opened Arith
  import opened ByteStrings
  import opened MpnSigned
  import opened MpzNumbers
  import opened MpzBytes

  /** Bytes, least significant first, in the order of the data: reversed if big. */
  ghost function Ordered(s: seq<Byte>, big: bool): (r: seq<Byte>)
    ensures |r| == |s|
  {
    if big then Reversed(s) else s
  }

  lemma OrderedTwice(s: seq<Byte>, big: bool)
    ensures Ordered(Ordered(s, big), big) == s
  {
    ReversedTwice(s);
  }

  lemma {:induction false} ZeroBytes(len: nat)
    ensures BytesOf(0, len) == seq(len, i => 0)
  {
    if len > 0 {
      ZeroBytes(len - 1);
      assert [0] + seq(len - 1, i => 0) == seq(len, i => 0);
    }
  }

  lemma OneWord(words: seq<seq<Byte>>, order: int, endian: int)
    requires |words| == 1
    ensures Memory(words, order, endian) == InMemory(words[0], endian) && Flat(words) == words[0]
  {
    var w := words[0];
    assert words == [] + [w];
    WordsSnoc([], w, order, endian, |w|);
    assert [] + InMemory(w, endian) == InMemory(w, endian) + [] == InMemory(w, endian);
  }

  /** __mpz_export_data: the magnitude in len bytes, which it has to fit. */
  method ExportData(data: array<Byte>, op: Mpz, big: bool, hostLittle: bool, len: nat)
    requires len <= data.Length && op.Valid() && op.Mag() < Pow256(len)
    modifies data
    ensures data[..len] == Ordered(BytesOf(op.Mag(), len), big || !hostLittle)
    ensures forall k :: 0 <= k < len ==>
              data[k] == op.Mag() / Pow256(if big || !hostLittle then len - 1 - k else k) % 256
    ensures data[len..] == old(data[len..])
  {
    hide BytesOf, Memory, InMemory, Flat, Pow256, Mul;
    for i := 0 to len
      invariant data[..i] == seq(i, k => 0) && data[len..] == old(data[len..])
    {
      data[i] := 0;
      assert data[..i + 1] == data[..i] + [0];
    }
    var order, endian := if big then 1 else if hostLittle then -1 else 1, if big then 1 else 0;
    OneTimes(len);
    if len == 0 {
      FitsNothing(op);
    }
    var count;
    ghost var words;
    count, words := MpzExport(data, order, len, endian, hostLittle, op, 1);
    if count == 0 {
      NothingThere(op.Mag());
      ZeroBytes(len);
      ReversedZeros(len);
    } else {
      OneWord(words, order, Endian(endian, hostLittle));
      InMemoryOrdered(words[0], Endian(endian, hostLittle), big || !hostLittle);
    }
    forall k | 0 <= k < len ensures data[k] == op.Mag() / Pow256(if big || !hostLittle then len - 1 - k else k) % 256 {
      assert data[k] == data[..len][k];
      OrderedAt(op.Mag(), len, big || !hostLittle, k);
    }
  }

  /** The most significant byte comes first in big-endian data. */
  lemma OrderedAt(x: nat, len: nat, big: bool, k: nat)
    requires k < len
    ensures Ordered(BytesOf(x, len), big)[k] == x / Pow256(if big then len - 1 - k else k) % 256
  {
    BytesOfAt(x, len, if big then len - 1 - k else k);
    if big {
      ReversedAt(BytesOf(x, len), k);
    }
  }

  lemma OneTimes(len: nat)
    ensures Mul(1, len) == len && Mul(0, len) == 0
  {
  }

  lemma FitsNothing(op: Mpz)
    requires op.Valid() && op.Mag() < Pow256(0)
    ensures op.size == 0
  {
    if op.size != 0 {
      Nonzero(op);
    }
  }

  lemma Nonzero(op: Mpz)
    requires op.Valid() && op.size != 0
    ensures op.Mag() > 0
  {
    ValPositive(op.d[..Abs(op.size)]);
  }

  lemma NothingThere(x: nat)
    requires x < Pow256(Mul(0, 0)) || x < Pow256(0)
    ensures x == 0
  {
    assert Pow256(0) == 1;
  }

  lemma ReversedZeros(len: nat)
    ensures Reversed(seq(len, i => 0)) == seq(len, i => 0)
  {
    var s := seq(len, i => 0);
    forall k | 0 <= k < len ensures Reversed(s)[k] == s[k] {
      ReversedAt(s, k);
    }
  }

  lemma InMemoryOrdered(w: seq<Byte>, endian: int, big: bool)
    requires big == (endian == 1)
    ensures InMemory(w, endian) == Ordered(w, big)
  {
  }

  /** Bytes as words of one byte each. */
  lemma {:induction false} Singles(words: seq<seq<Byte>>, order: int, endian: int)
    requires WordsOf(words, 1)
    ensures Memory(words, order, endian) == Ordered(Flat(words), order == 1)
  {
    if words != [] {
      var n := |words| - 1;
      var init, w := words[..n], words[n];
      assert w in words && words == init + [w];
      Singles(init, order, endian);
      WordsSnoc(init, w, order, endian, 1);
      assert w == [w[0]];
      SingleInMemory(w[0], endian);
      ReversedSnoc(Flat(init), w[0]);
    }
  }

  lemma SingleInMemory(b: Byte, endian: int)
    ensures InMemory([b], endian) == [b]
  {
    assert [b][1..] == [];
  }

  /** __mpz_import_data: the number that len bytes denote. */
  method ImportData(rop: Mpz, data: array<Byte>, big: bool, hostLittle: bool, len: nat)
    requires len <= data.Length && rop.Valid()
    modifies rop, rop.d
    ensures rop.d == old(rop.d) || fresh(rop.d)
    ensures rop.Valid() && rop.size >= 0 && rop.Value() == ByteVal(Ordered(old(data[..len]), big || !hostLittle))
    ensures 0 <= rop.Value() < Pow256(len)
    ensures forall k :: 0 <= k < len ==>
              old(data[k]) == rop.Value() / Pow256(if big || !hostLittle then len - 1 - k else k) % 256
  {
    hide ByteVal, Memory, InMemory, Flat, Mul, Pow256, Ordered;
    var order, endian := if big then 1 else if hostLittle then -1 else 1, if big then 1 else 0;
    TimesOne(len);
    ghost var s := data[..len];
    ghost var words := Partition(s, len, order, Endian(endian, hostLittle), 1);
    Singles(words, order, Endian(endian, hostLittle));
    OrderedTwice(Flat(words), order == 1);
    MpzImport(rop, len, order, 1, endian, hostLittle, data, words);
    ImportedBytes(s, rop.Value(), len, big || !hostLittle);
  }

  lemma ImportedBytes(s: seq<Byte>, x: nat, len: nat, big: bool)
    requires |s| == len && x == ByteVal(Ordered(s, big))
    ensures x < Pow256(len) && forall k :: 0 <= k < len ==> s[k] == x / Pow256(if big then len - 1 - k else k) % 256
  {
    hide *;
    var t := Ordered(s, big);
    ByteValBound(t);
    BytesOfVal(t);
    OrderedTwice(s, big);
    forall k | 0 <= k < len ensures s[k] == x / Pow256(if big then len - 1 - k else k) % 256 {
      OrderedAt(x, len, big, k);
    }
  }

  lemma TimesOne(len: nat)
    ensures Mul(len, 1) == len == len * 1
  {
  }

  /** Importing what was exported gives the number back. */
  lemma RoundTrip(x: nat, len: nat, big: bool)
    requires x < Pow256(len)
    ensures ByteVal(Ordered(Ordered(BytesOf(x, len), big), big)) == x
  {
    OrderedTwice(BytesOf(x, len), big);
    ValOfBytes(x, len);
  }

  /** The number with its len bytes in the opposite order. */
  ghost function Switched(x: nat, len: nat): nat {
    ByteVal(Reversed(BytesOf(x, len)))
  }

  /** Switching the byte order twice changes nothing. */
  lemma SwitchedTwice(x: nat, len: nat)
    requires x < Pow256(len)
    ensures Switched(x, len) < Pow256(len) && Switched(Switched(x, len), len) == x
  {
    var s := BytesOf(x, len);
    ByteValBound(Reversed(s));
    BytesOfVal(Reversed(s));
    ReversedTwice(s);
    ValOfBytes(x, len);
  }

  /** __mpz_switch_byteorder: byte reversal on a little-endian host, and nothing on a big-endian one. */
  method SwitchByteorder(rop: Mpz, len: nat, hostLittle: bool)
    requires rop.Valid() && rop.Mag() < Pow256(len)
    modifies rop, rop.d
    ensures rop.d == old(rop.d) || fresh(rop.d)
    ensures rop.Valid() && rop.Value() == if hostLittle then Switched(old(rop.Mag()), len) else old(rop.Mag())
  {
    hide ByteVal, BytesOf, Pow256, Reversed;
    ghost var x := rop.Mag();
    var data := new Byte[len];
    ExportData(data, rop, true, hostLittle, len);
    ImportData(rop, data, false, hostLittle, len);
    RoundTrip(x, len, true);
    assert data[..len] == Ordered(BytesOf(x, len), true);
  }
}
