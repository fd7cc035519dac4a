/**
 src/mergesort.c on linked lists: the nodes are relinked in place, and end in the order of the
 sequence-level sort.
 */
module MergeSort {
  import opened Sorting
  import opened LinkedLists

  function KeyOf(n: Node): int {
    n.key
  }

  /** The entries of l that are still to be merged: linked up to the sentinel, but no longer a list of their own. */
  ghost predicate Remaining(list: Node, rest: seq<Node>)
    reads {list} + Nodes(rest)
  {
    var c := rest + [list];
    (forall i :: 0 <= i < |rest| ==> c[i].next == c[i + 1]) && (forall i :: 0 <= i < |rest| ==> c[i + 1].prev == c[i])
  }

  lemma RingRemaining(list: Node, s: seq<Node>)
    requires Ring(list, s)
    ensures Remaining(list, s)
  {
    var c, d := [list] + s + [list], s + [list];
    forall i | 0 <= i < |s| ensures d[i].next == d[i + 1] && d[i + 1].prev == d[i] {
      assert c[i + 1].next == c[i + 2] && c[i + 2].prev == c[i + 1];
    }
  }

  /** All nodes of two lists and their sentinels are different ones. */
  ghost predicate Apart(head: Node, hs: seq<Node>, list: Node, ls: seq<Node>) {
    Distinct([head] + hs) && Distinct([list] + ls) && forall n :: n in [head] + hs ==> n !in [list] + ls
  }

  /** One entry x is linked in before h; l goes on to the next one that remains. */
  method InsertNext(l0: Node, h: Node, ghost head: Node, ghost done: seq<Node>, ghost restH: seq<Node>,
                    ghost list: Node, ghost x: Node, ghost more: seq<Node>) returns (l: Node)
    requires l0 == x && Remaining(list, [x] + more) && Apart(head, done + restH, list, [x] + more)
    requires Ring(head, done + restH) && h == if restH == [] then head else restH[0]
    modifies {x, head} + Nodes(done) + Nodes(restH)
    ensures l == (if more == [] then list else more[0]) && Remaining(list, more)
    ensures Ring(head, done + [x] + restH) && Apart(head, done + [x] + restH, list, more)
  {
    hide Ring, Remaining, Apart;
    RemainingStep(list, x, more);
    ApartMove(head, done, restH, list, x, more);
    l := l0.next;
    InsertBefore(l.prev, h, head, done, restH);
  }

  /**
   list_splice_sorted: the entries of one sorted list are linked into another one, each
   before the first entry with a greater or equal key.  They are not unlinked from
   the first list, whose sentinel is left stale.
   */
  method ListSpliceSorted(list: Node, head: Node, ghost ls: seq<Node>, ghost hs: seq<Node>)
    requires Ring(list, ls) && Ring(head, hs) && Apart(head, hs, list, ls)
    modifies {list, head} + Nodes(ls) + Nodes(hs)
    ensures Ring(head, Splice(ls, hs, KeyOf))
  {
    hide Ring, Remaining, Splice, Apart, Nodes;
    ghost var done: seq<Node>, restL, restH := [], ls, hs;
    RingRemaining(list, ls);
    RingFirst(head, hs);
    RingFirst(list, ls);
    var h, l := head.next, list.next;
    assert done + restH == hs;
    HeadOrEntry(head, done, restH, list, restL);
    NodesCons(head, []);
    while l != list
      invariant l == (if restL == [] then list else restL[0]) && h == (if restH == [] then head else restH[0])
      invariant Ring(head, done + restH) && Remaining(list, restL) && Apart(head, done + restH, list, restL)
      invariant Splice(ls, hs, KeyOf) == done + Splice(restL, restH, KeyOf)
      invariant restL != [] ==> restL[0] != list
      invariant Nodes(done) + Nodes(restH) + Nodes(restL) <= Nodes(ls) + Nodes(hs)
      decreases |restL| + |restH|
    {
      SpliceStep(restL, restH, KeyOf);
      ghost var x, more := restL[0], restL[1..];
      assert restL == [x] + more;
      if h == head || l.key <= h.key {
        HeadOrEntry(head, done, restH, list, restL);
        NodesCons(x, more);
        NodesSnoc(done, x);
        l := InsertNext(l, h, head, done, restH, list, x, more);
        assert done + [x] + restH == (done + [x]) + restH;
        done, restL := done + [x], more;
        HeadOrEntry(head, done, restH, list, restL);
      } else {
        RingNext(head, done, restH);
        NodesCons(restH[0], restH[1..]);
        NodesSnoc(done, restH[0]);
        assert restH == [restH[0]] + restH[1..];
        h := h.next;
        assert done + restH == (done + [restH[0]]) + restH[1..];
        done, restH := done + [restH[0]], restH[1..];
      }
    }
    SpliceNothing(restH, KeyOf, 0);
  }

  lemma NodesCons(x: Node, s: seq<Node>)
    ensures Nodes([x] + s) == {x} + Nodes(s) && Nodes([]) == {}
  {
  }

  lemma NodesSnoc(s: seq<Node>, x: Node)
    ensures Nodes(s + [x]) == Nodes(s) + {x}
  {
  }

  lemma RingFirst(head: Node, s: seq<Node>)
    requires Ring(head, s)
    ensures head.next == if s == [] then head else s[0]
  {
    RingEnds(head, s);
  }

  lemma RingNext(head: Node, s: seq<Node>, t: seq<Node>)
    requires Ring(head, s + t) && t != []
    ensures t[0].next == if |t| == 1 then head else t[1]
  {
    var c := [head] + (s + t) + [head];
    assert c[|s| + 1].next == c[|s| + 2];
  }

  lemma SentinelApart(s: seq<Node>, t: seq<Node>, x: Node)
    requires Distinct([x] + (s + t))
    ensures t != [] ==> t[0] != x
  {
    var c := [x] + (s + t);
    assert t != [] ==> c[|s| + 1] == t[0] && c[0] == x;
  }

  lemma HeadOrEntry(head: Node, s: seq<Node>, t: seq<Node>, list: Node, l: seq<Node>)
    requires Apart(head, s + t, list, l)
    ensures (t != [] ==> t[0] != head) && (l != [] ==> l[0] != list)
  {
    SentinelApart(s, t, head);
    assert [] + l == l;
    SentinelApart([], l, list);
  }

  lemma RemainingStep(list: Node, x: Node, more: seq<Node>)
    requires Remaining(list, [x] + more)
    ensures x.next == (if more == [] then list else more[0]) && x.next.prev == x && Remaining(list, more)
  {
    var c, d := [x] + more + [list], more + [list];
    assert c[0].next == c[1] && c[1].prev == c[0];
    forall i | 0 <= i < |more| ensures d[i].next == d[i + 1] && d[i + 1].prev == d[i] {
      assert c[i + 1].next == c[i + 2] && c[i + 2].prev == c[i + 1];
    }
  }

  lemma DistinctCons(x: Node, s: seq<Node>)
    requires Distinct([x] + s)
    ensures Distinct(s) && x !in s
  {
    var c := [x] + s;
    forall i | 0 <= i < |s| ensures s[i] != x && forall j :: i < j < |s| ==> s[i] != s[j] {
      assert c[0] == x && c[i + 1] == s[i];
      forall j | i < j < |s| ensures s[i] != s[j] {
        assert c[j + 1] == s[j];
      }
    }
  }

  lemma ConsDistinct(x: Node, s: seq<Node>)
    requires Distinct(s) && x !in s
    ensures Distinct([x] + s)
  {
  }

  lemma ApartMove(head: Node, s: seq<Node>, t: seq<Node>, list: Node, x: Node, more: seq<Node>)
    requires Apart(head, s + t, list, [x] + more)
    ensures Apart(head, s + [x] + t, list, more)
    ensures x != head && x !in s + t
    ensures ({list} + Nodes(more)) !! ({x, head} + Nodes(s) + Nodes(t))
  {
    hide Distinct;
    var c, d := [head] + (s + t), [list] + ([x] + more);
    assert list in d && x in d && head in c;
    assert forall n :: n in more ==> n in d;
    assert forall n :: n in s || n in t ==> n in c;
    InsertDistinct(head, s, t, x);
    DistinctCons(list, [x] + more);
    DistinctCons(x, more);
    assert list !in more by {
      assert forall n :: n in more ==> n in [x] + more;
    }
    ConsDistinct(list, more);
    assert list != x by {
      assert x in [x] + more;
    }
    forall n | n in [head] + (s + [x] + t) ensures n !in [list] + more {
      assert n == x || n in c;
      assert n !in d || n == x;
    }
  }

  /** list_cut_middle: two markers meet in the middle; both parts get at least one entry. */
  method ListCutMiddle(list: Node, head: Node, ghost s: seq<Node>)
    requires Ring(head, s) && |s| >= 2 && list != head && list !in s
    modifies {list, head} + Nodes(s)
    ensures var m := (|s| + 1) / 2;
            0 < m < |s| && Ring(list, s[..m]) && Ring(head, s[m..])
  {
    hide Ring;
    RingEnds(head, s);
    var first, last := head.next, head.prev;
    ghost var i, j := 0, |s| - 1;
    RingDistinct(head, s, i, j);
    while last != first
      invariant 0 <= i <= j < |s| && first == s[i] && last == s[j]
      invariant Ring(head, s)
      invariant i + j == |s| - 1 || (i == j && 2 * i == |s| - 2)
      decreases j - i
    {
      RingNeighbours(head, s, j - 1);
      last := last.prev;
      j := j - 1;
      if i < j {
        RingDistinct(head, s, i, j);
        RingNeighbours(head, s, i);
        assert s[i] != s[j];
      }
      if last != first {
        first := first.next;
        i := i + 1;
      }
    }
    if i < j {
      RingDistinct(head, s, i, j);
    }
    ghost var m := (|s| + 1) / 2;
    assert s == s[..m] + s[m..] && s[..m][m - 1] == first;
    ListCutPosition(list, head, first, s[..m], s[m..]);
  }

  /** list_expr_sort: the list holds the same nodes afterwards, in the order of the merge sort. */
  method ListExprSort(head: Node, ghost s: seq<Node>)
    requires Ring(head, s)
    modifies {head} + Nodes(s)
    ensures Ring(head, ListSort(s, KeyOf))
    ensures SortedBy(ListSort(s, KeyOf), KeyOf) && multiset(ListSort(s, KeyOf)) == multiset(s)
    ensures forall k :: WithKey(ListSort(s, KeyOf), KeyOf, k) == WithKey(s, KeyOf, k)
    decreases |s|
  {
    hide Ring, ListSort, Splice, SortedBy, WithKey;
    ListSortCorrect(s, KeyOf);
    RingShape(head, s);
    SortShort(s);
    if head.next == head || head.next == head.prev {
      return;
    }
    var list := new Node(0);
    ghost var m := (|s| + 1) / 2;
    ListCutMiddle(list, head, s);
    CutApart(head, s, list, m);
    ListExprSort(head, s[m..]);
    ListExprSort(list, s[..m]);
    SortedApart(head, s[m..], list, s[..m]);
    ListSpliceSorted(list, head, ListSort(s[..m], KeyOf), ListSort(s[m..], KeyOf));
  }

  lemma RingShape(head: Node, s: seq<Node>)
    requires Ring(head, s)
    ensures head.next == head <==> s == []
    ensures s != [] && head.next == head.prev ==> |s| == 1
    ensures |s| <= 1 ==> head.next == head.prev
    ensures Distinct([head] + s)
  {
    RingEnds(head, s);
    if s != [] {
      SentinelApart([], s, head) by { assert [] + s == s; }
    }
    if |s| >= 2 {
      RingDistinct(head, s, 0, |s| - 1);
    }
  }

  lemma SortShort(s: seq<Node>)
    ensures |s| <= 1 ==> ListSort(s, KeyOf) == s
    ensures |s| > 1 ==> var m := (|s| + 1) / 2;
                        ListSort(s, KeyOf) == Splice(ListSort(s[..m], KeyOf), ListSort(s[m..], KeyOf), KeyOf)
  {
  }

  lemma CutApart(head: Node, s: seq<Node>, list: Node, m: nat)
    requires Distinct([head] + s) && list != head && list !in s && m <= |s|
    ensures Apart(head, s[m..], list, s[..m])
    ensures ({head} + Nodes(s[m..])) !! ({list} + Nodes(s[..m]))
    ensures Nodes(s) == Nodes(s[..m]) + Nodes(s[m..])
  {
    assert s == s[..m] + s[m..];
    SubDistinct(head, s[..m], s[m..], list);
    forall n | n in [head] + s[m..] ensures n !in [list] + s[..m] {
      assert n != list;
    }
  }

  lemma SortedApart(head: Node, hs: seq<Node>, list: Node, ls: seq<Node>)
    requires Apart(head, hs, list, ls)
    ensures Apart(head, ListSort(hs, KeyOf), list, ListSort(ls, KeyOf))
    ensures Nodes(ListSort(hs, KeyOf)) == Nodes(hs) && Nodes(ListSort(ls, KeyOf)) == Nodes(ls)
  {
    hide ListSort;
    SortedDistinct(head, hs);
    SortedDistinct(list, ls);
    var hs', ls' := ListSort(hs, KeyOf), ListSort(ls, KeyOf);
    forall n | n in [head] + hs' ensures n !in [list] + ls' {
      assert n in [head] + hs by {
        assert n in hs' ==> n in Nodes(hs');
        assert n in Nodes(hs) ==> n in hs;
      }
      assert n in ls' ==> n in Nodes(ls');
      assert n !in ls;
    }
  }

  lemma SortedDistinct(head: Node, s: seq<Node>)
    requires Distinct([head] + s)
    ensures Distinct([head] + ListSort(s, KeyOf)) && Nodes(ListSort(s, KeyOf)) == Nodes(s)
  {
    hide ListSort;
    ListSortCorrect(s, KeyOf);
    var t := ListSort(s, KeyOf);
    DistinctCons(head, s);
    forall n ensures n in t <==> n in s {
      assert n in multiset(t) <==> n in multiset(s);
    }
    forall i, j | 0 <= i < j < |t| ensures t[i] != t[j] {
      if t[i] == t[j] {
        Twice(t, i, j);
        Once(s, t[i]);
      }
    }
    ConsDistinct(head, t);
    assert Nodes(t) == Nodes(s);
  }

  lemma Twice(t: seq<Node>, i: nat, j: nat)
    requires i < j < |t| && t[i] == t[j]
    ensures multiset(t)[t[i]] >= 2
  {
    var x := t[i];
    var c, d := t[..i] + [x], t[i + 1..j] + [x];
    assert t == c + d + t[j + 1..];
    assert multiset(c)[x] >= 1 && multiset(d)[x] >= 1;
  }

  lemma {:induction false} Once(s: seq<Node>, n: Node)
    requires Distinct(s)
    ensures multiset(s)[n] <= 1
  {
    if s != [] {
      assert s == [s[0]] + s[1..];
      DistinctCons(s[0], s[1..]);
      Once(s[1..], n);
    }
  }
}
