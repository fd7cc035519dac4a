/** mpz_import and mpz_export, and the byte-order helpers of src/gmputil.c on top of them. */
module MpzBytes {
  import opened Arith
  import opened Limbs
  import opened PowersOfTwo
  import opened Bitwise
  import opened Mpn
  import opened MpnSigned
  import opened MpzNumbers
  import opened ByteStrings

  /** A word as it lies in memory: most significant byte first if endian is 1. */
  ghost function InMemory(w: seq<Byte>, endian: int): (m: seq<Byte>)
    ensures |m| == |w|
  {
    if endian == 1 then Reversed(w) else w
  }

  /** Words, least significant first, as they lie in memory: the most significant one first if order is 1. */
  ghost function Memory(words: seq<seq<Byte>>, order: int, endian: int): seq<Byte> {
    if words == [] then [] else
      var n := |words| - 1;
      if order == 1 then InMemory(words[n], endian) + Memory(words[..n], order, endian)
      else Memory(words[..n], order, endian) + InMemory(words[n], endian)
  }

  /** All bytes of the words, least significant first. */
  ghost function Flat(words: seq<seq<Byte>>): seq<Byte> {
    if words == [] then [] else Flat(words[..|words| - 1]) + words[|words| - 1]
  }

  ghost predicate WordsOf(words: seq<seq<Byte>>, size: nat) {
    forall w :: w in words ==> |w| == size
  }

  lemma WordsSnoc(words: seq<seq<Byte>>, w: seq<Byte>, order: int, endian: int, size: nat)
    ensures Flat(words + [w]) == Flat(words) + w
    ensures Memory(words + [w], order, endian) ==
            if order == 1 then InMemory(w, endian) + Memory(words, order, endian)
            else Memory(words, order, endian) + InMemory(w, endian)
    ensures WordsOf(words, size) && |w| == size ==> WordsOf(words + [w], size)
  {
    assert (words + [w])[..|words|] == words;
  }

  lemma {:induction false} WordsLength(words: seq<seq<Byte>>, order: int, endian: int, size: nat)
    requires WordsOf(words, size)
    ensures |Memory(words, order, endian)| == |Flat(words)| == Mul(|words|, size)
  {
    hide Mul, InMemory, Memory, Flat, WordsOf;
    NoWords(order, endian, size);
    if words != [] {
      var n := |words| - 1;
      var init, w := words[..n], words[n];
      InitWords(words, size);
      assert words == init + [w];
      WordsSnoc(init, w, order, endian, size);
      WordsLength(init, order, endian, size);
      Step(n, size);
    }
  }

  /** Every memory block of n words can be read as such words. */
  lemma {:induction false} Partition(m: seq<Byte>, n: nat, order: int, endian: int, size: nat)
    returns (words: seq<seq<Byte>>)
    requires |m| == Mul(n, size)
    ensures |words| == n && WordsOf(words, size) && Memory(words, order, endian) == m
    decreases n
  {
    hide *;
    if n == 0 {
      words := [];
      NoWords(order, endian, size);
      NoneOf(size);
    } else {
      Step(n - 1, size);
      var at := |m| - size;
      var w, rest := if order == 1 then m[..size] else m[at..], if order == 1 then m[size..] else m[..at];
      assert m == if order == 1 then w + rest else rest + w;
      InMemoryTwice(w, endian);
      var init := Partition(rest, n - 1, order, endian, size);
      WordsSnoc(init, InMemory(w, endian), order, endian, size);
      words := init + [InMemory(w, endian)];
    }
  }

  lemma NoneOf(size: nat)
    ensures WordsOf([], size)
  {
  }

  lemma NoWords(order: int, endian: int, size: nat)
    ensures Memory([], order, endian) == [] && Mul(0, size) == 0 && Flat([]) == []
  {
  }

  lemma InMemoryAt(w: seq<Byte>, endian: int, j: nat)
    requires j < |w|
    ensures InMemory(w, endian)[if endian == 1 then |w| - 1 - j else j] == w[j]
  {
    if endian == 1 {
      ReversedAt(w, |w| - 1 - j);
    }
  }

  /** Where byte j of word i is in memory. */
  lemma {:induction false} MemoryAt(words: seq<seq<Byte>>, order: int, endian: int, size: nat, i: nat, j: nat)
    requires WordsOf(words, size) && i < |words| && j < size
    ensures |words[i]| == size && |Memory(words, order, endian)| == Mul(|words|, size)
    ensures var at := Mul(if order == 1 then |words| - 1 - i else i, size) + if endian == 1 then size - 1 - j else j;
            0 <= at < Mul(|words|, size) && Memory(words, order, endian)[at] == words[i][j]
  {
    hide *;
    var n, off := |words| - 1, if endian == 1 then size - 1 - j else j;
    var init, w := words[..n], words[n];
    InitWords(words, size);
    assert words == init + [w];
    WordsSnoc(init, w, order, endian, size);
    WordsLength(words, order, endian, size);
    WordsLength(init, order, endian, size);
    Step(n, size);
    var at := Mul(if order == 1 then n - i else i, size) + off;
    if i == n {
      InMemoryAt(w, endian, j);
      ZeroTimes(size);
    } else {
      assert init[i] == words[i];
      MemoryAt(init, order, endian, size, i, j);
      Step(n - 1 - i, size);
    }
  }

  lemma {:induction false} FlatAt(words: seq<seq<Byte>>, size: nat, i: nat, j: nat)
    requires WordsOf(words, size) && i < |words| && j < size
    ensures |words[i]| == size && |Flat(words)| == Mul(|words|, size) && 0 <= Mul(i, size) + j < Mul(|words|, size)
    ensures Flat(words)[Mul(i, size) + j] == words[i][j]
  {
    hide *;
    var n := |words| - 1;
    var init, w := words[..n], words[n];
    InitWords(words, size);
    assert words == init + [w];
    WordsSnoc(init, w, 1, 1, size);
    WordsLength(words, 1, 1, size);
    WordsLength(init, 1, 1, size);
    Step(n, size);
    if i < n {
      assert init[i] == words[i];
      FlatAt(init, size, i, j);
    }
  }

  /**
   Byte j of word i in memory is byte i*size + j of the number, in order of significance:
   order 1 puts the most significant word first, endian 1 the most significant byte of
   each word, and endian 0 means the host's.
   */
  lemma MemoryByte(words: seq<seq<Byte>>, v: nat, order: int, endian0: int, hostLittle: bool, size: nat, i: nat, j: nat)
    requires (order == 1 || order == -1) && -1 <= endian0 <= 1
    requires WordsOf(words, size) && Flat(words) == BytesOf(v, Mul(|words|, size)) && i < |words| && j < size
    ensures var word := Mul(if order == 1 then |words| - 1 - i else i, size);
            var byte := if endian0 == 1 || (endian0 == 0 && !hostLittle) then size - 1 - j else j;
            var m := Memory(words, order, Endian(endian0, hostLittle));
            && |m| == Mul(|words|, size) && 0 <= word + byte < |m| && 0 <= Mul(i, size)
            && m[word + byte] == v / Pow256(Mul(i, size) + j) % 256
  {
    var endian := Endian(endian0, hostLittle);
    Step(i, size);
    hide Memory, Flat, BytesOf, Pow256, Mul;
    MemoryAt(words, order, endian, size, i, j);
    FlatAt(words, size, i, j);
    BytesOfAt(v, Mul(|words|, size), Mul(i, size) + j);
  }

  lemma InMemoryTwice(w: seq<Byte>, endian: int)
    ensures InMemory(InMemory(w, endian), endian) == w
  {
    ReversedTwice(w);
  }

  // ----- import

  /** The bytes read so far, as complete limbs and the one being filled. */
  ghost predicate Importing(rs: seq<Limb>, limb: Limb, bytes: nat, done: seq<Byte>) {
    && bytes < 8 && limb < Pow256(bytes) && |done| == 8 * |rs| + bytes
    && ByteVal(done) == Val(rs) + Mul(limb, Pow(|rs|))
  }

  lemma ImportingStep(rs: seq<Limb>, limb: Limb, bytes: nat, done: seq<Byte>, b: Byte, limb': int)
    requires Importing(rs, limb, bytes, done) && limb' == limb + Mul(b, Pow256(bytes))
    ensures 0 <= limb' < Pow256(bytes + 1) <= B
    ensures bytes == 7 ==> Importing(rs + [limb' as int], 0, 0, done + [b])
    ensures bytes < 7 ==> Importing(rs, limb', bytes + 1, done + [b])
  {
    hide Mul, Val, Pow, ByteVal;
    NextByte(limb, b, bytes, limb');
    ByteValSnoc(done, b);
    Pow256Limbs(|rs|, bytes);
    Regrouped(limb, b, Pow256(bytes), Pow(|rs|), limb', Pow256(|done|));
    if bytes == 7 {
      ValPush(rs, limb');
      ZeroTimes(Pow(|rs| + 1));
    }
  }

  lemma ZeroTimes(p: int)
    ensures Mul(0, p) == 0
  {
  }

  lemma Regrouped(limb: int, b: int, q: int, p: int, limb': int, pq: int)
    requires limb' == limb + Mul(b, q) && pq == Mul(p, q)
    ensures Mul(limb', p) == Mul(limb, p) + Mul(b, pq)
  {
    Dist(limb, b * q, p);
    Assoc(b, q, p);
  }

  lemma NextByte(limb: int, b: Byte, bytes: nat, limb': int)
    requires 0 <= limb < Pow256(bytes) && bytes < 8 && limb' == limb + Mul(b, Pow256(bytes))
    ensures 0 <= limb' < Pow256(bytes + 1) <= B && Pow256(0) == 1
  {
    MulLe(b, 255, Pow256(bytes));
    MulPos(b, Pow256(bytes));
    Bytes2(bytes + 1);
    Pow2Mono(8 * (bytes + 1), 64);
    Pow2Of64();
  }

  /** limb |= byte << (8 * bytes) */
  method AddByte(limb: Limb, b: Byte, bytes: nat) returns (limb': Limb)
    requires limb < Pow256(bytes) && bytes < 8
    ensures limb' == limb + Mul(b, Pow256(bytes))
  {
    hide Mul, Pow2, Bits, Pow256;
    NextByte(limb, b, bytes, limb + Mul(b, Pow256(bytes)));
    Bytes2(bytes);
    var shifted := Low(b * Pow2(8 * bytes));
    Product(b, Pow2(8 * bytes));
    Small(limb, Mul(b, Pow256(bytes)));
    OrDisjoint(b, limb, 8 * bytes);
    BitsCommute(Or, shifted, limb);
    limb' := Bits(Or, limb, shifted);
  }

  lemma Small(limb: int, x: int)
    requires 0 <= limb && limb + x < B && x >= 0
    ensures Low(x) == x
  {
  }

  /** Where word k starts in memory. */
  ghost function WordStart(k: nat, count: nat, size: nat, order: int): int {
    Mul(if order == 1 then count - 1 - k else k, size)
  }

  ghost predicate Placed(m: seq<Byte>, at: int, x: seq<Byte>) {
    0 <= at && at + |x| <= |m| && m[at..at + |x|] == x
  }

  /** Word k of n lies at its place in memory. */
  lemma {:induction false} WordAt(words: seq<seq<Byte>>, k: nat, size: nat, order: int, endian: int)
    requires k < |words| && WordsOf(words, size)
    ensures Placed(Memory(words, order, endian), WordStart(k, |words|, size, order), InMemory(words[k], endian))
  {
    hide *;
    var n := |words| - 1;
    var init, last := words[..n], words[n];
    InitWords(words, size);
    WordsSnoc(init, last, order, endian, size);
    assert words == init + [last];
    var m, m', w := Memory(words, order, endian), Memory(init, order, endian), InMemory(last, endian);
    WordsLength(init, order, endian, size);
    StartInside(k, n, size, order);
    if k < n {
      WordAt(init, k, size, order, endian);
      InParts(m, m', w, WordStart(k, n, size, order), order, InMemory(init[k], endian));
    } else {
      LastPart(m, m', w, order);
    }
  }

  /** One more word in front moves the others up in memory if the last word comes first. */
  lemma StartInside(k: nat, n: nat, size: nat, order: int)
    ensures WordStart(k, n + 1, size, order) == WordStart(k, n, size, order) + if order == 1 then size else 0
    ensures WordStart(n, n + 1, size, order) == if order == 1 then 0 else Mul(n, size)
  {
    Dist(n - 1 - k, 1, size);
  }

  lemma InitWords(words: seq<seq<Byte>>, size: nat)
    requires WordsOf(words, size) && words != []
    ensures WordsOf(words[..|words| - 1], size) && |words[|words| - 1]| == size
  {
    assert words[|words| - 1] in words;
  }

  lemma InParts(m: seq<Byte>, m': seq<Byte>, w: seq<Byte>, at: int, order: int, x: seq<Byte>)
    requires m == (if order == 1 then w + m' else m' + w) && Placed(m', at, x)
    ensures Placed(m, if order == 1 then at + |w| else at, x)
  {
  }

  lemma LastPart(m: seq<Byte>, m': seq<Byte>, w: seq<Byte>, order: int)
    requires m == if order == 1 then w + m' else m' + w
    ensures Placed(m, if order == 1 then 0 else |m'|, w)
  {
  }

  lemma Step(n: int, size: nat)
    ensures Mul(n + 1, size) == Mul(n, size) + size
    ensures n >= 0 ==> Mul(n, size) >= 0
  {
    if n >= 0 {
      MulPos(n, size);
    }
  }

  /** Byte j of a word lies at its place in the word. */
  lemma ByteAt(w: seq<Byte>, j: nat, endian: int)
    requires j < |w|
    ensures InMemory(w, endian)[if endian == 1 then |w| - 1 - j else j] == w[j]
  {
    if endian == 1 {
      ReversedAt(w, |w| - 1 - j);
    }
  }

  lemma PlacedAt(m: seq<Byte>, at: int, x: seq<Byte>, j: nat)
    requires Placed(m, at, x) && j < |x|
    ensures 0 <= at + j < |m| && m[at + j] == x[j]
  {
    assert m[at..at + |x|][j] == m[at + j];
  }

  /** gmp_detect_endian where endian is 0. */
  function Endian(endian: int, hostLittle: bool): int {
    if endian == 0 then (if hostLittle then -1 else 1) else endian
  }

  lemma {:induction false} FlatTake(words: seq<seq<Byte>>, k: nat, size: nat)
    requires k < |words| && WordsOf(words, size)
    ensures Flat(words[..k + 1]) == Flat(words[..k]) + words[k]
    ensures |words[k]| == size && |Flat(words[..k])| == Mul(k, size)
    ensures Mul(k, size) + size <= Mul(|words|, size)
  {
    assert words[..k + 1] == words[..k] + [words[k]];
    WordsSnoc(words[..k], words[k], 0, 0, size);
    WordsLength(words[..k], 0, 0, size);
    MulLe(k + 1, |words|, size);
    Dist(k, 1, size);
  }

  lemma ByteIs(words: seq<seq<Byte>>, k: nat, j: nat, size: nat, order: int, endian: int, p: int)
    requires k < |words| && WordsOf(words, size) && j < size && (endian == 1 || endian == -1)
    requires p == WordStart(k, |words|, size, order) + if endian == 1 then size - 1 - j else j
    ensures var m := Memory(words, order, endian); 0 <= p < |m| && |words[k]| == size && m[p] == words[k][j]
  {
    hide Mul, Memory, InMemory, WordStart;
    assert words[k] in words;
    WordAt(words, k, size, order, endian);
    ByteAt(words[k], j, endian);
    var m, at := Memory(words, order, endian), WordStart(k, |words|, size, order);
    var w := InMemory(words[k], endian);
    PlacedAt(m, at, w, p - at);
  }

  lemma Within(words: seq<seq<Byte>>, k: nat, j: nat, size: nat, count: nat, total: nat)
    requires WordsOf(words, size) && k < |words| == count && j < size && total == Mul(count, size)
    ensures |words[k]| == size && |Flat(words[..k]) + words[k][..j]| < total
  {
    FlatTake(words, k, size);
  }

  /** One byte goes into the current limb, and a full limb to the array. */
  method TakeByte(rp: array<Limb>, limb0: Limb, bytes0: nat, i0: nat, b: Byte, ghost done: seq<Byte>, ghost total: nat)
    returns (limb: Limb, bytes: nat, i: nat)
    requires i0 <= rp.Length && Importing(rp[..i0], limb0, bytes0, done) && |done| < total
             && (total + 7) / 8 <= rp.Length
    modifies rp
    ensures i <= rp.Length && Importing(rp[..i], limb, bytes, done + [b])
  {
    hide Val, Mul, Pow, ByteVal, Importing, Pow256;
    ghost var rs := rp[..i0];
    Room(rs, limb0, bytes0, done, total);
    limb := AddByte(limb0, b, bytes0);
    ImportingStep(rs, limb0, bytes0, done, b, limb);
    bytes, i := bytes0 + 1, i0;
    if bytes == 8 {
      rp[i] := limb;
      assert rp[..i + 1] == rs + [limb];
      i, bytes, limb := i + 1, 0, 0;
    }
  }

  /** The inner loop: the bytes of one word, from the least significant one on. */
  method ImportWord(rp: array<Limb>, limb0: Limb, bytes0: nat, i0: nat, data: array<Byte>, p0: int, ghost k: nat,
                    ghost count: nat,
                    size: nat, ghost order: int, endian: int, ghost words: seq<seq<Byte>>, ghost done0: seq<Byte>,
                    ghost total: nat)
    returns (limb: Limb, bytes: nat, i: nat, p: int)
    requires k < count == |words| && WordsOf(words, size) && (endian == 1 || endian == -1)
    requires total == Mul(count, size) && total <= data.Length && data[..total] == Memory(words, order, endian)
    requires p0 == WordStart(k, count, size, order) + if endian == 1 then size - 1 else 0
    requires i0 <= rp.Length && (total + 7) / 8 <= rp.Length
    requires done0 == Flat(words[..k]) && Importing(rp[..i0], limb0, bytes0, done0)
    modifies rp
    ensures i <= rp.Length && Importing(rp[..i], limb, bytes, done0 + words[k])
    ensures p == WordStart(k, count, size, order) + if endian == 1 then -1 else size
  {
    hide Val, Mul, Pow, ByteVal, Importing, Memory, InMemory, WordStart, WordsOf, Flat, Pow256;
    limb, bytes, i, p := limb0, bytes0, i0, p0;
    ghost var m, w := data[..total], words[k];
    assert |w| == size by { FlatTake(words, k, size); }
    var j: nat := 0;
    assert done0 + w[..0] == done0;
    while j < size
      invariant j <= size && i <= rp.Length && Importing(rp[..i], limb, bytes, done0 + w[..j])
      invariant p == WordStart(k, count, size, order) + if endian == 1 then size - 1 - j else j
      modifies rp
    {
      ByteIs(words, k, j, size, order, endian, p);
      var b := data[p];
      assert b == m[p] == w[j];
      Within(words, k, j, size, count, total);
      limb, bytes, i := TakeByte(rp, limb, bytes, i, b, done0 + w[..j], total);
      assert done0 + w[..j] + [b] == done0 + w[..j + 1];
      p := p - endian;
      j := j + 1;
    }
    assert w[..size] == w;
  }

  /** mpz_import of count words. */
  method MpzImport(r: Mpz, count: nat, order: int, size: nat, endian0: int, hostLittle: bool, data: array<Byte>,
                   ghost words: seq<seq<Byte>>)
    requires (order == 1 || order == -1) && -1 <= endian0 <= 1 && r.Valid()
    requires |words| == count && WordsOf(words, size) && count * size <= data.Length
    requires data[..count * size] == Memory(words, order, Endian(endian0, hostLittle))
    modifies r, r.d
    ensures r.d == old(r.d) || fresh(r.d)
    ensures r.Valid() && r.size >= 0 && r.Value() == ByteVal(Flat(words))
  {
    hide Val, Mul, Pow, ByteVal, Importing, Memory, InMemory, WordStart, WordsOf, Flat, Pow256;
    var endian := Endian(endian0, hostLittle);
    ghost var m, total := Memory(words, order, endian), Mul(count, size);
    Product(count, size);
    WordsLength(words, order, endian, size);
    var wordStep := if order != endian then 2 * size else 0;
    var p := 0;
    if order == 1 {
      p := size * (count - 1);
      wordStep := -wordStep;
    }
    if endian == 1 {
      p := p + size - 1;
    }
    var rn := (size * count + 7) / 8;
    r.Realloc(rn);
    var rp := r.d;
    var limb: Limb, bytes: nat, i: nat := 0, 0, 0;
    ghost var done: seq<Byte> := [];
    ImportingStart(rp[..0], words);
    Starts(count, size, order);
    var k: nat := 0;
    while k < count
      invariant k <= count && done == Flat(words[..k]) && |done| == Mul(k, size)
      invariant i <= rp.Length && Importing(rp[..i], limb, bytes, done)
      invariant k < count ==> p == WordStart(k, count, size, order) + if endian == 1 then size - 1 else 0
      modifies rp
    {
      FlatTake(words, k, size);
      limb, bytes, i, p := ImportWord(rp, limb, bytes, i, data, p, k, count, size, order, endian, words, done, total);
      done := done + words[k];
      Starts2(k, count, size, order);
      p := p + wordStep;
      k := k + 1;
    }
    assert words[..count] == words;
    ImportingEnd(rp[..i], limb, bytes, done);
    if limb != 0 {
      Room2(rp[..i], limb, bytes, done);
      ghost var rs := rp[..i];
      rp[i] := limb;
      ValPush(rs, limb);
      assert rp[..i + 1] == rs + [limb];
      i := i + 1;
    } else {
      i := NormalizedSize(rp, i);
    }
    r.size := i;
  }

  lemma ImportingStart(rs: seq<Limb>, words: seq<seq<Byte>>)
    requires rs == []
    ensures Importing(rs, 0, 0, []) && Flat(words[..0]) == []
  {
    EmptyVal(rs);
  }

  lemma Starts(count: nat, size: nat, order: int)
    ensures count > 0 ==> WordStart(0, count, size, order) == if order == 1 then size * (count - 1) else 0
    ensures Mul(0, size) == 0
  {
  }

  /** From one word to the next: one word on, or one word back. */
  lemma Starts2(k: nat, count: nat, size: nat, order: int)
    ensures WordStart(k + 1, count, size, order) == WordStart(k, count, size, order) + if order == 1 then 0 - size
            else size
    ensures Mul(k + 1, size) == Mul(k, size) + size
  {
    Dist(k, 1, size);
    Dist(count - 1 - k, 1, size);
  }

  lemma Room(rs: seq<Limb>, limb: Limb, bytes: nat, done: seq<Byte>, total: nat)
    requires Importing(rs, limb, bytes, done) && |done| < total
    ensures bytes < 8 && limb < Pow256(bytes) && |rs| < (total + 7) / 8
  {
  }

  lemma ImportingEnd(rs: seq<Limb>, limb: Limb, bytes: nat, done: seq<Byte>)
    requires Importing(rs, limb, bytes, done)
    ensures ByteVal(done) == Val(rs) + Mul(limb, Pow(|rs|)) && (limb == 0 ==> ByteVal(done) == Val(rs))
  {
    hide Mul, Val, Pow, Pow256, ByteVal;
    ZeroTimes(Pow(|rs|));
  }

  lemma Room2(rs: seq<Limb>, limb: Limb, bytes: nat, done: seq<Byte>)
    requires Importing(rs, limb, bytes, done) && limb != 0
    ensures |rs| < (|done| + 7) / 8
  {
    assert Pow256(0) == 1;
  }

  // ----- export

  /** out has the low bytes of the number; the rest of it is the current limb, b bytes long, and the limbs from i on. */
  ghost predicate Exporting(us: seq<Limb>, i: nat, limb: Limb, b: nat, out: seq<Byte>, total: nat) {
    && i <= |us| && b <= 8 && limb < Pow256(b) && |out| <= total
    && BytesOf(Val(us), total) == out + BytesOf(Rest(limb, Val(us[i..]), b), total - |out|)
  }

  /** The number of which v is what is above the b low bytes, and limb those. */
  ghost function Rest(limb: nat, v: nat, b: nat): nat {
    MulPos(v, Pow256(b));
    limb + Mul(v, Pow256(b))
  }

  lemma ExportingStart(us: seq<Limb>, total: nat)
    ensures Exporting(us, 0, 0, 0, [], total)
  {
    assert us[0..] == us;
    assert Rest(0, Val(us), 0) == Val(us);
    assert [] + BytesOf(Val(us), total) == BytesOf(Val(us), total);
  }

  lemma ExportingEnd(us: seq<Limb>, i: nat, limb: Limb, b: nat, out: seq<Byte>, total: nat)
    requires Exporting(us, i, limb, b, out, total) && |out| == total
    ensures out == BytesOf(Val(us), total)
  {
  }

  /** Taking the next limb, or zeros after the last one. */
  lemma ExportingLoad(us: seq<Limb>, i: nat, limb: Limb, out: seq<Byte>, total: nat)
    requires Exporting(us, i, limb, 0, out, total)
    ensures i < |us| ==> Exporting(us, i + 1, us[i], 8, out, total)
    ensures i == |us| ==> Exporting(us, i, limb, 8, out, total)
  {
    hide Mul, Val, BytesOf;
    var v := Val(us[i..]);
    assert Pow256(0) == 1 && limb == 0;
    MulOneRight(v);
    Pow256Eight();
    hide Pow256;
    if i < |us| {
      assert us[i..] == [us[i]] + us[i + 1..];
      ValCons(us[i], us[i + 1..]);
      MulSwap(Val(us[i + 1..]));
    } else {
      EmptyVal(us[i..]);
      ZeroTimes(1);
      ZeroTimes(B);
    }
  }

  lemma Pow256Eight()
    ensures Pow256(8) == B
  {
    Bytes2(8);
    Pow2Of64();
  }

  lemma MulOneRight(x: int)
    ensures Mul(x, 1) == x
  {
  }

  lemma MulSwap(x: int)
    ensures Mul(x, B) == B * x
  {
  }

  /** Giving out the low byte of the current limb. */
  lemma ExportingStep(us: seq<Limb>, i: nat, limb: Limb, b: nat, out: seq<Byte>, total: nat, byte: Byte, limb': Limb)
    requires Exporting(us, i, limb, b, out, total) && b > 0 && |out| < total
    requires byte == limb % 256 && limb' == limb / 256
    ensures Exporting(us, i, limb', b - 1, out + [byte], total)
  {
    hide Mul, Val, BytesOf;
    var v := Val(us[i..]);
    var x, n := Rest(limb, v, b), total - |out|;
    BytesStep(limb, v, b);
    BytesOfStep(x, n);
    assert out + ([byte] + BytesOf(x / 256, n - 1)) == (out + [byte]) + BytesOf(x / 256, n - 1);
  }

  lemma BytesOfStep(x: nat, n: nat)
    requires n > 0
    ensures BytesOf(x, n) == [x % 256] + BytesOf(x / 256, n - 1)
  {
  }

  lemma BytesStep(limb: nat, v: nat, b: nat)
    requires b > 0 && limb < Pow256(b)
    ensures var x := limb + Mul(v, Pow256(b));
            x >= 0 && x % 256 == limb % 256 && x / 256 == limb / 256 + Mul(v, Pow256(b - 1))
              && limb / 256 < Pow256(b - 1)
  {
    hide Mul;
    TimesPow256(v, b);
    var y := Mul(v, Pow256(b - 1));
    assert limb + 256 * y == (limb % 256) + 256 * (limb / 256 + y);
  }

  lemma TimesPow256(v: nat, b: nat)
    requires b > 0
    ensures Mul(v, Pow256(b)) == 256 * Mul(v, Pow256(b - 1)) && Mul(v, Pow256(b - 1)) >= 0
  {
    Assoc(v, 256, Pow256(b - 1));
    MulPos(v, Pow256(b - 1));
  }

  method GiveByte(u: array<Limb>, un: nat, i0: nat, limb0: Limb, b0: nat, ghost out: seq<Byte>, ghost total: nat)
    returns (byte: Byte, i: nat, limb: Limb, b: nat)
    requires un <= u.Length && |out| < total && Exporting(u[..un], i0, limb0, b0, out, total)
    ensures Exporting(u[..un], i, limb, b, out + [byte], total)
  {
    hide Exporting;
    ghost var us := u[..un];
    i, limb, b := i0, limb0, b0;
    ExportingBounds(us, i, limb, b, out, total);
    if b == 0 {
      ExportingLoad(us, i, limb, out, total);
      if i < un {
        limb := u[i];
        i := i + 1;
      }
      b := 8;
    }
    byte := limb % 256;
    ExportingStep(us, i, limb, b, out, total, byte, limb / 256);
    limb := limb / 256;
    b := b - 1;
  }

  lemma ExportingBounds(us: seq<Limb>, i: nat, limb: Limb, b: nat, out: seq<Byte>, total: nat)
    requires Exporting(us, i, limb, b, out, total)
    ensures i <= |us| && b <= 8
  {
  }

  /** The inner loop: one word, written from its least significant byte on. */
  method ExportWord(data: array<Byte>, p0: int, ghost at: nat, size: nat, endian: int, u: array<Limb>, un: nat,
                    i0: nat, limb0: Limb, b0: nat, ghost out0: seq<Byte>, ghost total: nat)
    returns (p: int, i: nat, limb: Limb, b: nat, ghost w: seq<Byte>)
    requires (endian == 1 || endian == -1) && p0 == at + (if endian == 1 then size - 1 else 0)
             && at + size <= data.Length
    requires un <= u.Length && |out0| + size <= total && Exporting(u[..un], i0, limb0, b0, out0, total)
    modifies data
    ensures |w| == size && Exporting(u[..un], i, limb, b, out0 + w, total)
    ensures data[..at] == old(data[..at]) && data[at..at + size] == InMemory(w, endian)
    ensures data[at + size..] == old(data[at + size..])
    ensures p == at + if endian == 1 then -1 else size
  {
    hide Exporting, InMemory;
    p, i, limb, b := p0, i0, limb0, b0;
    w := [];
    ghost var us, d0 := u[..un], data[..];
    assert out0 + w == out0;
    var j := 0;
    while j < size
      invariant 0 <= j <= size && |w| == j && u[..un] == us
      invariant Exporting(us, i, limb, b, out0 + w, total)
      invariant p == at + if endian == 1 then size - 1 - j else j
      invariant forall t :: 0 <= t < j ==> data[at + if endian == 1 then size - 1 - t else t] == w[t]
      invariant forall x :: 0 <= x < data.Length && !(at <= x < at + size) ==> data[x] == d0[x]
    {
      var byte;
      byte, i, limb, b := GiveByte(u, un, i, limb, b, out0 + w, total);
      assert out0 + w + [byte] == out0 + (w + [byte]);
      data[p] := byte;
      w := w + [byte];
      p := p - endian;
      j := j + 1;
    }
    assert data[at..at + size] == InMemory(w, endian) by {
      forall t | 0 <= t < size ensures data[at + t] == InMemory(w, endian)[t] {
        ByteAt(w, if endian == 1 then size - 1 - t else t, endian);
      }
    }
  }

  /** How many bytes a nonzero limb has. */
  method CountBytes(limb0: Limb) returns (k: nat)
    requires limb0 != 0
    ensures 0 < k <= 8 && Pow256(k - 1) <= limb0 < Pow256(k)
  {
    var limb: int := limb0;
    k := 0;
    assert Pow256(0) == 1;
    MulOneRight(limb);
    MulOneRight(limb + 1);
    while true
      invariant k < 8 && 0 < limb < B
      invariant Mul(limb, Pow256(k)) <= limb0 < Mul(limb + 1, Pow256(k))
      decreases limb
    {
      ByteCount(limb, limb0, k);
      k := k + 1;
      limb := limb / 256;
      if limb == 0 {
        break;
      }
    }
  }

  lemma ByteCount(limb: int, limb0: Limb, k: nat)
    requires 0 < limb < B && k < 8 && Mul(limb, Pow256(k)) <= limb0 < Mul(limb + 1, Pow256(k))
    ensures var l := limb / 256; Mul(l, Pow256(k + 1)) <= limb0 < Mul(l + 1, Pow256(k + 1))
    ensures Pow256(k) <= limb0 && (limb / 256 == 0 ==> limb0 < Pow256(k + 1)) && (limb / 256 > 0 ==> k < 7)
  {
    var l, p := limb / 256, Pow256(k);
    assert Pow256(k + 1) == 256 * p;
    Assoc(l, 256, p);
    Assoc(l + 1, 256, p);
    MulLe(256 * l, limb, p);
    MulLe(limb + 1, 256 * (l + 1), p);
    MulLe(1, limb, p);
    if l > 0 && k == 7 {
      MulLe(256, limb, p);
      Pow256Eight();
    }
  }

  /** Rounding up to whole words. */
  lemma CeilDiv(n: nat, size: nat) returns (c: nat)
    requires size > 0
    ensures c == (n + size - 1) / size && Mul(c, size) >= n && (n > 0 ==> c > 0 && Mul(c - 1, size) < n)
  {
    c := (n + size - 1) / size;
    DivMod(n + size - 1, size);
    if n > 0 {
      Dist(c, 1, size);
      if c <= 0 {
        MulLe(c, 0, size);
      }
    }
  }

  lemma {:induction false} Pow256Mono(m: nat, n: nat)
    requires m <= n
    ensures Pow256(m) <= Pow256(n)
  {
    if m < n {
      Pow256Mono(m, n - 1);
    }
  }

  /** The magnitude of a number whose top limb has k bytes. */
  lemma ByteLength(us: seq<Limb>, k: nat)
    requires us != [] && 0 < k <= 8 && Pow256(k - 1) <= us[|us| - 1] < Pow256(k)
    ensures var n := 8 * (|us| - 1) + k; Pow256(n - 1) <= Val(us) < Pow256(n)
  {
    hide Val, Pow256, Pow;
    var m := |us| - 1;
    assert us[..m + 1] == us;
    ValTake(us, m);
    Pow256Limbs(m, k);
    Pow256Limbs(m, k - 1);
    LengthAlgebra(us[m], Val(us[..m]), Pow(m), Pow256(k), Pow256(k - 1));
  }

  lemma LengthAlgebra(x: int, low: nat, p: nat, hi: int, lo: int)
    requires lo <= x < hi && low < p
    ensures Mul(p, lo) <= low + Mul(x, p) < Mul(p, hi)
  {
    MulLe(lo, x, p);
    MulLe(x + 1, hi, p);
    Dist(x, 1, p);
  }

  lemma RoomFor(n: nat, count: nat, size: nat, v: nat, room: nat)
    requires n > 0 && count > 0 && Mul(count, size) >= n && Mul(count - 1, size) < n
    requires Pow256(n - 1) <= v < Pow256(n) && v < Pow256(Mul(room, size))
    ensures count <= room && Mul(count, size) <= Mul(room, size)
    ensures v < Pow256(Mul(count, size)) && 0 <= Mul(count - 1, size) && Pow256(Mul(count - 1, size)) <= v
  {
    hide Mul, Pow256;
    MulOrdered(0, count - 1, size);
    Pow256Mono(n, Mul(count, size));
    Pow256Mono(Mul(count - 1, size), n - 1);
    if room < count {
      MulOrdered(room, count - 1, size);
      Pow256Mono(Mul(room, size), n - 1);
    } else {
      MulOrdered(count, room, size);
    }
  }

  lemma MulOrdered(a: nat, b: nat, c: nat)
    requires a <= b
    ensures 0 <= Mul(a, c) <= Mul(b, c)
  {
    MulLe(a, b, c);
    MulPos(a, c);
  }

  /** Where the words written so far end, or start if they are written downwards. */
  ghost function Edge(k: nat, count: nat, size: nat, order: int): int {
    Mul(if order == 1 then count - k else k, size)
  }

  lemma Edges(k: nat, count: nat, size: nat, order: int)
    requires k < count
    ensures var at := WordStart(k, count, size, order);
            && 0 <= at && at + size <= Mul(count, size)
            && Edge(k, count, size, order) == (if order == 1 then at + size else at)
            && Edge(k + 1, count, size, order) == if order == 1 then at else at + size
  {
    hide Mul;
    InRange(k, count, size, order);
    Step(count - 1 - k, size);
    Step(k, size);
  }

  /** The words written so far, where they belong; nothing past the last word is touched. */
  ghost predicate Writing(data: seq<Byte>, d0: seq<Byte>, words: seq<seq<Byte>>, count: nat, size: nat, order: int,
                          endian: int) {
    var total, at := Mul(count, size), Edge(|words|, count, size, order);
    && |data| == |d0| && |words| <= count && 0 <= at <= total <= |data| && data[total..] == d0[total..]
    && (if order == 1 then data[at..total] else data[..at]) == Memory(words, order, endian)
  }

  lemma WritingStep(data: seq<Byte>, d0: seq<Byte>, words: seq<seq<Byte>>, count: nat, size: nat, order: int,
                    endian: int, w: seq<Byte>, data': seq<Byte>)
    requires Writing(data, d0, words, count, size, order, endian) && |words| < count && |w| == size
    requires var at := WordStart(|words|, count, size, order);
             && |data'| == |data| && 0 <= at && at + size <= |data|
             && data'[..at] == data[..at] && data'[at..at + size] == InMemory(w, endian)
               && data'[at + size..] == data[at + size..]
    ensures Writing(data', d0, words + [w], count, size, order, endian)
  {
    hide *;
    var total, at := Mul(count, size), WordStart(|words|, count, size, order);
    WordsSnoc(words, w, order, endian, size);
    Edges(|words|, count, size, order);
    WritingParts(data, d0, words, count, size, order, endian);
    Joined(data, data', at, size, total);
    WritingIs(data', d0, words + [w], count, size, order, endian);
  }

  lemma WritingParts(data: seq<Byte>, d0: seq<Byte>, words: seq<seq<Byte>>, count: nat, size: nat, order: int,
                     endian: int)
    requires Writing(data, d0, words, count, size, order, endian)
    ensures var total, at := Mul(count, size), Edge(|words|, count, size, order);
            && |words| <= count && 0 <= at <= total <= |data| == |d0| && data[total..] == d0[total..]
            && Memory(words, order, endian) == if order == 1 then data[at..total] else data[..at]
  {
  }

  lemma WritingIs(data: seq<Byte>, d0: seq<Byte>, words: seq<seq<Byte>>, count: nat, size: nat, order: int, endian: int)
    requires var total, at := Mul(count, size), Edge(|words|, count, size, order);
             && |words| <= count && 0 <= at <= total <= |data| == |d0| && data[total..] == d0[total..]
             && Memory(words, order, endian) == if order == 1 then data[at..total] else data[..at]
    ensures Writing(data, d0, words, count, size, order, endian)
  {
  }

  lemma Joined(s: seq<Byte>, t: seq<Byte>, at: nat, size: nat, total: nat)
    requires |s| == |t| && at + size <= total <= |s| && s[..at] == t[..at] && s[at + size..] == t[at + size..]
    ensures t[at..total] == t[at..at + size] + s[at + size..total]
    ensures t[..at + size] == s[..at] + t[at..at + size]
    ensures s[total..] == t[total..]
  {
    Suffix(s, t, at + size, total);
    assert t[at..total] == t[at..at + size] + t[at + size..total];
    assert t[..at + size] == t[..at] + t[at..at + size];
  }

  lemma Suffix(s: seq<Byte>, t: seq<Byte>, from: nat, to: nat)
    requires |s| == |t| && from <= to <= |s| && s[from..] == t[from..]
    ensures s[to..] == t[to..] && s[from..to] == t[from..to]
  {
    assert s[to..] == s[from..][to - from..] && t[to..] == t[from..][to - from..];
    assert s[from..to] == s[from..][..to - from] && t[from..to] == t[from..][..to - from];
  }

  lemma MulLe2(k: int, n: int, size: nat)
    requires k <= n
    ensures Mul(k, size) <= Mul(n, size)
  {
    MulLe(k, n, size);
  }

  lemma Product3(count: int, k: int, size: int)
    ensures Mul(count - k, size) == Mul(count, size) - Mul(k, size)
    ensures Mul(count - 1 - k, size) == Mul(count, size) - Mul(k + 1, size)
  {
  }

  lemma InRange(k: nat, count: nat, size: nat, order: int)
    requires k < count
    ensures 0 <= WordStart(k, count, size, order) && WordStart(k, count, size, order) + size <= Mul(count, size)
    ensures Mul(k, size) >= 0 && Mul(k + 1, size) == Mul(k, size) + size <= Mul(count, size)
  {
    Product3(count, k, size);
    MulLe2(k + 1, count, size);
    Step(k, size);
    Step(count - 1 - k, size);
    MulPos(count - 1 - k, size);
  }

  lemma LimbsFit(u: Mpz)
    requires u.Valid()
    ensures Abs(u.size) <= u.d.Length
  {
  }

  /** The outer loop of mpz_export. */
  method ExportWords(data: array<Byte>, order: int, size: nat, endian: int, count: nat, u: Mpz, ghost us: seq<Limb>)
    returns (ghost words: seq<seq<Byte>>)
    requires (order == 1 || order == -1) && (endian == 1 || endian == -1) && count > 0
    requires u.Valid() && us == u.d[..Abs(u.size)] && 0 <= Mul(count, size) <= data.Length
    modifies data
    ensures |words| == count && WordsOf(words, size) && Flat(words) == BytesOf(Val(us), Mul(count, size))
    ensures data[..Mul(count, size)] == Memory(words, order, endian)
    ensures data[Mul(count, size)..] == old(data[Mul(count, size)..])
  {
    hide *;
    ghost var d0, total := data[..], Mul(count, size);
    words := [];
    LimbsFit(u);
    var un := Abs(u.size);
    var wordStep := if order != endian then 2 * size else 0;
    var p := 0;
    if order == 1 {
      p := size * (count - 1);
      wordStep := -wordStep;
    }
    if endian == 1 {
      p := p + size - 1;
    }
    var limb: Limb, b: nat, i: nat := 0, 0, 0;
    Starts(count, size, order);
    ExportingStart(us, total);
    WritingStart(d0, count, size, order, endian);
    var k: nat := 0;
    while k < count
      invariant k <= count == |words| + (count - k) && WordsOf(words, size) && |Flat(words)| == Mul(k, size)
      invariant u.d[..un] == us && Exporting(us, i, limb, b, Flat(words), total)
      invariant Writing(data[..], d0, words, count, size, order, endian)
      invariant k < count ==> p == WordStart(k, count, size, order) + if endian == 1 then size - 1 else 0
    {
      ghost var at, before := WordStart(k, count, size, order), data[..];
      InRange(k, count, size, order);
      ghost var w;
      p, i, limb, b, w := ExportWord(data, p, at, size, endian, u.d, un, i, limb, b, Flat(words), total);
      WritingStep(before, d0, words, count, size, order, endian, w, data[..]);
      WordsSnoc(words, w, order, endian, size);
      words := words + [w];
      Starts2(k, count, size, order);
      p := p + wordStep;
      k := k + 1;
    }
    ExportingEnd(us, i, limb, b, Flat(words), total);
    WritingEnd(data[..], d0, words, count, size, order, endian);
  }

  lemma WritingStart(d0: seq<Byte>, count: nat, size: nat, order: int, endian: int)
    requires 0 <= Mul(count, size) <= |d0|
    ensures Writing(d0, d0, [], count, size, order, endian) && Flat([]) == [] && WordsOf([], size)
  {
    hide Mul;
    ZeroTimes(size);
  }

  lemma WritingEnd(data: seq<Byte>, d0: seq<Byte>, words: seq<seq<Byte>>, count: nat, size: nat, order: int,
                   endian: int)
    requires Writing(data, d0, words, count, size, order, endian) && |words| == count
    ensures var total := Mul(count, size);
            0 <= total <= |data| == |d0| && data[..total] == Memory(words, order, endian)
              && data[total..] == d0[total..]
  {
    hide Mul, Memory;
    ZeroTimes(size);
    assert count - |words| == 0;
  }

  /** mpz_export: the fewest words of the given size that hold the magnitude. */
  method MpzExport(data: array<Byte>, order: int, size: nat, endian0: int, hostLittle: bool, u: Mpz, ghost room: nat)
    returns (count: nat, ghost words: seq<seq<Byte>>)
    requires (order == 1 || order == -1) && -1 <= endian0 <= 1 && u.Valid() && (size > 0 || u.size == 0)
    requires Mul(room, size) <= data.Length && u.Mag() < Pow256(Mul(room, size))
    modifies data
    ensures |words| == count <= room && WordsOf(words, size) && 0 <= Mul(count, size) <= data.Length
    ensures data[..Mul(count, size)] == Memory(words, order, Endian(endian0, hostLittle))
    ensures data[Mul(count, size)..] == old(data[Mul(count, size)..])
    ensures Flat(words) == BytesOf(u.Mag(), Mul(count, size)) && u.Mag() < Pow256(Mul(count, size))
    ensures count > 0 ==> 0 <= Mul(count - 1, size) && Pow256(Mul(count - 1, size)) <= u.Mag()
  {
    hide Val, Mul, BytesOf, Pow256, Memory, Flat, WordsOf, InMemory;
    var un := Abs(u.size);
    ghost var us := u.d[..un];
    count, words := 0, [];
    NoWords(order, Endian(endian0, hostLittle), size);
    if un == 0 {
      NothingToExport(us, size);
      return;
    }
    var k := CountBytes(u.d[un - 1]);
    count := (k + (un - 1) * 8 + size - 1) / size;
    ghost var n := k + (un - 1) * 8;
    ByteLength(us, k);
    ghost var c := CeilDiv(n, size);
    RoomFor(n, count, size, Val(us), room);
    words := ExportWords(data, order, size, Endian(endian0, hostLittle), count, u, us);
  }

  lemma NothingToExport(us: seq<Limb>, size: nat)
    requires us == []
    ensures Val(us) == 0 && BytesOf(0, 0) == [] && Pow256(0) == 1 && WordsOf([], size)
  {
  }
}
