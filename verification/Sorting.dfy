/** The merge sort of src/mergesort.c on sequences: what the list code computes. */
module Sorting {

  /** list_splice_sorted: merge l into h, an element of l going before an element of h with the same key. */
  function Splice<T>(l: seq<T>, h: seq<T>, key: T -> int): seq<T>
    decreases |l| + |h|
  {
    if l == [] then h
    else if h == [] || key(l[0]) <= key(h[0]) then [l[0]] + Splice(l[1..], h, key)
    else [h[0]] + Splice(l, h[1..], key)
  }

  /** list_expr_sort: the first part, of (n + 1) / 2 elements, is merged into the rest. */
  function ListSort<T>(s: seq<T>, key: T -> int): seq<T>
    decreases |s|
  {
    if |s| <= 1 then s else
      var m := (|s| + 1) / 2;
      Splice(ListSort(s[..m], key), ListSort(s[m..], key), key)
  }

  ghost predicate SortedBy<T>(s: seq<T>, key: T -> int) {
    forall i, j :: 0 <= i < j < |s| ==> key(s[i]) <= key(s[j])
  }

  /** The elements with key k, in order. */
  ghost function WithKey<T>(s: seq<T>, key: T -> int, k: int): seq<T> {
    if s == [] then [] else (if key(s[0]) == k then [s[0]] else []) + WithKey(s[1..], key, k)
  }

  lemma {:induction false} SpliceElements<T>(l: seq<T>, h: seq<T>, key: T -> int)
    ensures multiset(Splice(l, h, key)) == multiset(l) + multiset(h)
    ensures |Splice(l, h, key)| == |l| + |h|
    decreases |l| + |h|
  {
    hide Splice;
    if l == [] {
      SpliceNothing(h, key, 0);
    } else if h == [] || key(l[0]) <= key(h[0]) {
      SpliceStep(l, h, key);
      SpliceElements(l[1..], h, key);
      assert l == [l[0]] + l[1..];
    } else {
      SpliceStep(l, h, key);
      SpliceElements(l, h[1..], key);
      assert h == [h[0]] + h[1..];
    }
  }

  lemma SortedCons<T>(x: T, s: seq<T>, key: T -> int)
    requires SortedBy(s, key) && (forall y :: y in s ==> key(x) <= key(y))
    ensures SortedBy([x] + s, key)
  {
    var t := [x] + s;
    forall i, j | 0 <= i < j < |t| ensures key(t[i]) <= key(t[j]) {
      assert t[j] == s[j - 1] && s[j - 1] in s;
      if i > 0 {
        assert t[i] == s[i - 1];
      }
    }
  }

  lemma {:induction false} SpliceSorts<T>(l: seq<T>, h: seq<T>, key: T -> int)
    requires SortedBy(l, key) && SortedBy(h, key)
    ensures SortedBy(Splice(l, h, key), key)
    decreases |l| + |h|
  {
    if l == [] {
    } else if h == [] || key(l[0]) <= key(h[0]) {
      SpliceSorts(l[1..], h, key);
      SpliceElements(l[1..], h, key);
      forall y | y in Splice(l[1..], h, key) ensures key(l[0]) <= key(y) {
        FromEither(y, Splice(l[1..], h, key), l[1..], h);
      }
      SortedCons(l[0], Splice(l[1..], h, key), key);
    } else {
      SpliceSorts(l, h[1..], key);
      SpliceElements(l, h[1..], key);
      forall y | y in Splice(l, h[1..], key) ensures key(h[0]) <= key(y) {
        FromEither(y, Splice(l, h[1..], key), l, h[1..]);
      }
      SortedCons(h[0], Splice(l, h[1..], key), key);
    }
  }

  lemma FromEither<T>(y: T, s: seq<T>, l: seq<T>, h: seq<T>)
    requires y in s && multiset(s) == multiset(l) + multiset(h)
    ensures y in l || y in h
  {
    assert y in multiset(s);
  }

  /** Merging leaves the elements of l in their order: nothing is sorted by it that was not before. */
  lemma {:induction false} SpliceKeepsOrder<T>(l: seq<T>, h: seq<T>, key: T -> int)
    requires SortedBy(Splice(l, h, key), key)
    ensures SortedBy(l, key)
    decreases |l| + |h|
  {
    if l != [] {
      var l0 := h == [] || key(l[0]) <= key(h[0]);
      var x, rest := if l0 then l[0] else h[0], if l0 then Splice(l[1..], h, key) else Splice(l, h[1..], key);
      SpliceStep(l, h, key);
      SortedTail(x, rest, key);
      if l0 {
        SpliceKeepsOrder(l[1..], h, key);
        SpliceElements(l[1..], h, key);
        forall y | y in l[1..] ensures key(l[0]) <= key(y) {
          assert y in multiset(rest);
        }
        SortedCons(l[0], l[1..], key);
        assert l == [l[0]] + l[1..];
      } else {
        SpliceKeepsOrder(l, h[1..], key);
      }
    }
  }

  lemma SortedTail<T>(x: T, s: seq<T>, key: T -> int)
    requires SortedBy([x] + s, key)
    ensures SortedBy(s, key) && forall y :: y in s ==> key(x) <= key(y)
  {
    var t := [x] + s;
    forall i, j | 0 <= i < j < |s| ensures key(s[i]) <= key(s[j]) {
      assert key(t[i + 1]) <= key(t[j + 1]);
    }
    forall y | y in s ensures key(x) <= key(y) {
      var j :| 0 <= j < |s| && s[j] == y;
      assert key(t[0]) <= key(t[j + 1]);
    }
  }

  lemma WithKeyCons<T>(x: T, s: seq<T>, key: T -> int, k: int)
    ensures WithKey([x] + s, key, k) == (if key(x) == k then [x] else []) + WithKey(s, key, k)
  {
    assert ([x] + s)[1..] == s;
  }

  lemma {:induction false} WithKeyConcat<T>(s: seq<T>, t: seq<T>, key: T -> int, k: int)
    ensures WithKey(s + t, key, k) == WithKey(s, key, k) + WithKey(t, key, k)
  {
    hide WithKey;
    if s == [] {
      assert s + t == t;
      SpliceNothing<T>([], key, k);
    } else {
      WithKeyConcat(s[1..], t, key, k);
      assert s == [s[0]] + s[1..] && s + t == [s[0]] + (s[1..] + t);
      WithKeyCons(s[0], s[1..], key, k);
      WithKeyCons(s[0], s[1..] + t, key, k);
    }
  }

  lemma {:induction false} NoneWithKey<T>(s: seq<T>, key: T -> int, k: int)
    requires forall y :: y in s ==> key(y) != k
    ensures WithKey(s, key, k) == []
  {
    if s != [] {
      NoneWithKey(s[1..], key, k);
    }
  }

  lemma SpliceStep<T>(l: seq<T>, h: seq<T>, key: T -> int)
    requires l != []
    ensures if h == [] || key(l[0]) <= key(h[0]) then Splice(l, h, key) == [l[0]] + Splice(l[1..], h, key)
            else Splice(l, h, key) == [h[0]] + Splice(l, h[1..], key)
  {
  }

  lemma SpliceNothing<T>(h: seq<T>, key: T -> int, k: int)
    ensures Splice([], h, key) == h && WithKey<T>([], key, k) == []
  {
  }

  /** Merging keeps, key by key, the elements of l before those of h. */
  lemma {:induction false} SpliceStable<T>(l: seq<T>, h: seq<T>, key: T -> int, k: int)
    requires SortedBy(l, key)
    ensures WithKey(Splice(l, h, key), key, k) == WithKey(l, key, k) + WithKey(h, key, k)
    decreases |l| + |h|
  {
    hide Splice, WithKey;
    if l == [] {
      SpliceNothing(h, key, k);
    } else if h == [] || key(l[0]) <= key(h[0]) {
      SpliceStep(l, h, key);
      SpliceStable(l[1..], h, key, k);
      assert l == [l[0]] + l[1..];
      WithKeyCons(l[0], l[1..], key, k);
      WithKeyCons(l[0], Splice(l[1..], h, key), key, k);
    } else {
      SpliceStep(l, h, key);
      SpliceStable(l, h[1..], key, k);
      assert h == [h[0]] + h[1..];
      WithKeyCons(h[0], h[1..], key, k);
      WithKeyCons(h[0], Splice(l, h[1..], key), key, k);
      if key(h[0]) == k {
        NoneWithKey(l, key, k);
      }
    }
  }

  lemma SortedShort<T>(s: seq<T>, key: T -> int)
    requires |s| <= 1
    ensures SortedBy(s, key)
  {
  }

  /** The sort: same elements, sorted, and stable. */
  lemma {:induction false} ListSortCorrect<T>(s: seq<T>, key: T -> int)
    ensures SortedBy(ListSort(s, key), key)
    ensures multiset(ListSort(s, key)) == multiset(s) && |ListSort(s, key)| == |s|
    ensures forall k :: WithKey(ListSort(s, key), key, k) == WithKey(s, key, k)
    decreases |s|
  {
    hide Splice, WithKey, SortedBy;
    if |s| <= 1 {
      assert SortedBy(s, key) by { SortedShort(s, key); }
    } else {
      var m := (|s| + 1) / 2;
      var l, h := ListSort(s[..m], key), ListSort(s[m..], key);
      ListSortCorrect(s[..m], key);
      ListSortCorrect(s[m..], key);
      SpliceElements(l, h, key);
      SpliceSorts(l, h, key);
      assert s == s[..m] + s[m..];
      forall k ensures WithKey(ListSort(s, key), key, k) == WithKey(s, key, k) {
        SpliceStable(l, h, key, k);
        WithKeyConcat(s[..m], s[m..], key, k);
      }
    }
  }
}
