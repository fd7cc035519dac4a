/** The tables of the ruleset cache: one list of all items and a hash table of the same items. */
module RulesetCache {

  const HSIZE := 8192

  /** What the kernel lists, with the bucket its name hashes to. */
  datatype Object = Object(name: nat, hash: nat) {
    predicate Valid() {
      hash < HSIZE
    }
  }

  /** A cached object, with the generation it was read in and the request number of its dump. */
  datatype Item = Item(obj: Object, readIn: nat, seqnum: nat)

  datatype Cache = Cache(list: seq<Item>, ht: seq<seq<Item>>)

  ghost function WithHash(s: seq<Item>, h: nat): seq<Item> {
    if s == [] then [] else (if s[0].obj.hash == h then [s[0]] else []) + WithHash(s[1..], h)
  }

  /** Every bucket has exactly the listed items with its hash, in list order. */
  ghost predicate Consistent(c: Cache) {
    && |c.ht| == HSIZE && (forall i :: i in c.list ==> i.obj.Valid())
    && forall h :: 0 <= h < HSIZE ==> c.ht[h] == WithHash(c.list, h)
  }

  function Empty(): Cache {
    Cache([], seq(HSIZE, i => []))
  }

  /** cache_add */
  function CacheAdd(c: Cache, item: Item): Cache {
    var h := item.obj.hash;
    Cache(c.list + [item], if h < |c.ht| then c.ht[h := c.ht[h] + [item]] else c.ht)
  }

  /** cache_del of the item at the front of the list, which is at the front of its bucket too. */
  function CacheDelFirst(c: Cache): Cache
    requires c.list != []
  {
    var h := c.list[0].obj.hash;
    Cache(c.list[1..], if h < |c.ht| && c.ht[h] != [] then c.ht[h := c.ht[h][1..]] else c.ht)
  }

  lemma FirstInBucket(c: Cache)
    requires Consistent(c) && c.list != []
    ensures var i := c.list[0]; i.obj.Valid() && c.ht[i.obj.hash] != [] && c.ht[i.obj.hash][0] == i
  {
  }

  lemma {:induction false} WithHashSnoc(s: seq<Item>, i: Item, h: nat)
    ensures WithHash(s + [i], h) == WithHash(s, h) + if i.obj.hash == h then [i] else []
  {
    hide WithHash;
    if s == [] {
      assert s + [i] == [i] + [];
      WithHashCons(i, [], h);
    } else {
      assert s == [s[0]] + s[1..] && s + [i] == [s[0]] + (s[1..] + [i]);
      WithHashCons(s[0], s[1..], h);
      WithHashCons(s[0], s[1..] + [i], h);
      WithHashSnoc(s[1..], i, h);
    }
  }

  lemma WithHashCons(i: Item, s: seq<Item>, h: nat)
    ensures WithHash([i] + s, h) == (if i.obj.hash == h then [i] else []) + WithHash(s, h)
    ensures WithHash([], h) == []
  {
    assert ([i] + s)[1..] == s;
  }

  lemma AddConsistent(c: Cache, item: Item)
    requires Consistent(c) && item.obj.Valid()
    ensures Consistent(CacheAdd(c, item))
  {
    forall h | 0 <= h < HSIZE ensures CacheAdd(c, item).ht[h] == WithHash(c.list + [item], h) {
      WithHashSnoc(c.list, item, h);
    }
  }

  lemma DelConsistent(c: Cache)
    requires Consistent(c) && c.list != []
    ensures Consistent(CacheDelFirst(c))
  {
    var d := CacheDelFirst(c);
    FirstInBucket(c);
    forall h | 0 <= h < HSIZE ensures d.ht[h] == WithHash(d.list, h) {
      assert c.ht[h] == WithHash(c.list, h);
    }
  }

  /** nft_cache_flush: delete item after item. */
  function Flush(c: Cache): Cache
    decreases |c.list|
  {
    if c.list == [] then c else Flush(CacheDelFirst(c))
  }

  /** Afterwards nothing is left in the list, nor in any bucket. */
  lemma {:induction false} FlushEmpties(c: Cache)
    requires Consistent(c)
    ensures Flush(c) == Empty()
    decreases |c.list|
  {
    if c.list == [] {
      assert c.ht == Empty().ht;
    } else {
      DelConsistent(c);
      FlushEmpties(CacheDelFirst(c));
    }
  }

  lemma EmptyConsistent()
    ensures Consistent(Empty())
  {
  }
}
