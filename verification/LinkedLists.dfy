/** struct list_head: circular doubly linked lists with a sentinel, and the primitives that relink them. */
module LinkedLists {

  /** A list_head together with the key of the entry that contains it. */
  class Node {
    var next: Node
    var prev: Node
    const key: int

    /** LIST_HEAD: a list with no entries. */
    constructor (k: int)
      ensures key == k && next == this && prev == this
    {
      key, next, prev := k, this, this;
    }
  }

  ghost function Nodes(s: seq<Node>): set<Node> {
    set n | n in s
  }

  ghost predicate Distinct(s: seq<Node>) {
    forall i, j :: 0 <= i < j < |s| ==> s[i] != s[j]
  }

  /** Each node of c points to the next one, and that points back. */
  ghost predicate Linked(c: seq<Node>)
    reads c
  {
    forall i :: 0 <= i < |c| - 1 ==> c[i].next == c[i + 1] && c[i + 1].prev == c[i]
  }

  /** head is the sentinel of a well-formed list whose entries are s, in order. */
  ghost predicate Ring(head: Node, s: seq<Node>)
    reads {head} + Nodes(s)
  {
    Distinct([head] + s) && Linked([head] + s + [head])
  }

  /** __list_add between two neighbours. */
  method ListAdd(new_: Node, prev: Node, next: Node)
    requires new_ != prev && new_ != next
    modifies new_, prev, next
    ensures new_.next == next && new_.prev == prev && prev.next == new_ && next.prev == new_
    ensures prev != next ==> prev.prev == old(prev.prev) && next.next == old(next.next)
  {
    next.prev := new_;
    new_.next := next;
    new_.prev := prev;
    prev.next := new_;
  }

  lemma RingEnds(head: Node, s: seq<Node>)
    requires Ring(head, s)
    ensures head.next == (if s == [] then head else s[0]) && head.prev == (if s == [] then head else s[|s| - 1])
  {
    var c := [head] + s + [head];
    assert c[0].next == c[1] && c[|s|].next == c[|s| + 1] && c[|s| + 1].prev == c[|s|];
  }

  /** list_add_tail: the entry joins the list just before h, the head or an entry of it. */
  method InsertBefore(new_: Node, h: Node, ghost head: Node, ghost s: seq<Node>, ghost t: seq<Node>)
    requires Ring(head, s + t) && new_ != head && new_ !in s + t
    requires h == if t == [] then head else t[0]
    modifies {new_, head} + Nodes(s) + Nodes(t)
    ensures Ring(head, s + [new_] + t)
  {
    ghost var c, d := [head] + (s + t) + [head], [head] + (s + [new_] + t) + [head];
    ghost var k := |s|;
    assert c[k + 1] == h && c[k].next == c[k + 1] && c[k + 1].prev == c[k];
    ghost var p := c[k];
    forall i | 0 <= i < |c| - 1 && i != k ensures c[i] != p {
      DistinctAt(head, s + t, i, k);
    }
    forall j | 0 < j < |c| && j != k + 1 ensures c[j] != h {
      DistinctAt(head, s + t, j - 1, k);
    }
    ListAdd(new_, h.prev, h);
    forall i | 0 <= i < |d| - 1 ensures d[i].next == d[i + 1] && d[i + 1].prev == d[i] {
      if i < k {
        assert d[i] == c[i] && d[i + 1] == c[i + 1];
        assert old(c[i].next) == c[i + 1] && old(c[i + 1].prev) == c[i];
      } else if i > k + 1 {
        assert d[i] == c[i - 1] && d[i + 1] == c[i];
        assert old(c[i - 1].next) == c[i] && old(c[i].prev) == c[i - 1];
      }
    }
    assert Distinct([head] + (s + [new_] + t)) by {
      InsertDistinct(head, s, t, new_);
    }
  }

  /** Around a ring no node comes twice, neither as a predecessor nor as a successor. */
  lemma DistinctAt(head: Node, s: seq<Node>, i: nat, k: nat)
    requires Distinct([head] + s) && i <= |s| && k <= |s| && i != k
    ensures var c := [head] + s + [head]; c[i] != c[k] && c[i + 1] != c[k + 1]
  {
    var c, e := [head] + s + [head], [head] + s;
    assert c[i] == e[i] && c[k] == e[k];
    assert c[i + 1] == (if i < |s| then e[i + 1] else e[0]);
    assert c[k + 1] == (if k < |s| then e[k + 1] else e[0]);
  }

  lemma InsertDistinct(head: Node, s: seq<Node>, t: seq<Node>, x: Node)
    requires Distinct([head] + (s + t)) && x != head && x !in s + t
    ensures Distinct([head] + (s + [x] + t))
  {
    var c, d := [head] + (s + t), [head] + (s + [x] + t);
    var k := |s| + 1;
    forall i, j | 0 <= i < j < |d| ensures d[i] != d[j] {
      assert i != k ==> d[i] == c[if i < k then i else i - 1];
      assert j != k ==> d[j] == c[if j < k then j else j - 1];
      assert forall m :: 0 <= m < |c| ==> c[m] != x;
    }
  }

  /** Neighbours in a list point to each other. */
  lemma RingNeighbours(head: Node, s: seq<Node>, i: nat)
    requires Ring(head, s) && i + 1 < |s|
    ensures s[i].next == s[i + 1] && s[i + 1].prev == s[i] && s[i] != s[i + 1]
  {
    var c, d := [head] + s + [head], [head] + s;
    assert c[i + 1].next == c[i + 2] && c[i + 2].prev == c[i + 1];
    assert d[i + 1] != d[i + 2];
  }

  lemma RingDistinct(head: Node, s: seq<Node>, i: nat, j: nat)
    requires Ring(head, s) && i < j < |s|
    ensures s[i] != s[j]
  {
    var d := [head] + s;
    assert d[i + 1] != d[j + 1];
  }

  lemma SubDistinct(head: Node, s: seq<Node>, t: seq<Node>, list: Node)
    requires Distinct([head] + (s + t)) && list != head && list !in s + t
    ensures Distinct([head] + t) && Distinct([list] + s)
    ensures head !in s && head !in t && forall n :: n in s ==> n !in t
  {
    var c := [head] + (s + t);
    var d, e := [head] + t, [list] + s;
    forall i, j | 0 <= i < j < |d| ensures d[i] != d[j] {
      assert d[i] == c[if i == 0 then 0 else i + |s|] && d[j] == c[j + |s|];
    }
    forall i, j | 0 <= i < j < |e| ensures e[i] != e[j] {
      assert e[j] == c[j] && c[j] == (s + t)[j - 1];
      assert i > 0 ==> e[i] == c[i];
    }
    forall k | 0 <= k < |s + t| ensures (s + t)[k] != head {
      assert c[k + 1] == (s + t)[k] && c[0] == head;
    }
    forall n | n in s ensures n != head && n !in t {
      var i :| 0 <= i < |s| && s[i] == n;
      assert c[i + 1] == n;
      forall j | 0 <= j < |t| ensures t[j] != n {
        assert c[1 + |s| + j] == t[j];
      }
    }
    forall n | n in t ensures n != head {
      var j :| 0 <= j < |t| && t[j] == n;
      assert (s + t)[|s| + j] == n;
    }
  }

  /** __list_cut_position: the entries up to and including `entry` move from head to list. */
  method ListCutPosition(list: Node, head: Node, entry: Node, ghost s: seq<Node>, ghost t: seq<Node>)
    requires Ring(head, s + t) && s != [] && entry == s[|s| - 1] && list != head && list !in s + t
    modifies {list, head} + Nodes(s) + Nodes(t)
    ensures Ring(list, s) && Ring(head, t)
  {
    ghost var c, d, e := [head] + (s + t) + [head], [head] + t + [head], [list] + s + [list];
    ghost var k := |s|;
    SubDistinct(head, s, t, list);
    forall i | 0 <= i < |c| - 1 ensures c[i].next == c[i + 1] && c[i + 1].prev == c[i] {
    }
    assert c[k] == entry && c[1] == s[0] && c[0] == head && c[|c| - 1] == head;
    assert c[k + 1] == d[1];
    assert entry.next == c[k + 1] && head.next == c[1];
    var newFirst := entry.next;
    list.next := head.next;
    list.next.prev := list;
    list.prev := entry;
    entry.next := list;
    head.next := newFirst;
    newFirst.prev := head;
    forall i | 0 <= i < |e| - 1 ensures e[i].next == e[i + 1] && e[i + 1].prev == e[i] {
      if 0 < i < k {
        assert e[i] == c[i] == s[i - 1] && e[i + 1] == c[i + 1] == s[i];
        assert s[i - 1] != s[k - 1] && s[i] != s[0] by {
          DistinctIn(list, s, i - 1, k - 1);
          DistinctIn(list, s, 0, i);
        }
      }
    }
    forall i | 0 <= i < |d| - 1 ensures d[i].next == d[i + 1] && d[i + 1].prev == d[i] {
      if 0 < i {
        assert d[i] == c[i + k] == t[i - 1] && d[i + 1] == c[i + k + 1];
        if i < |t| {
          assert d[i + 1] == t[i];
          DistinctIn(head, t, 0, i);
        }
      }
    }
  }

  lemma DistinctIn(x: Node, s: seq<Node>, i: nat, j: nat)
    requires Distinct([x] + s) && i < j < |s|
    ensures s[i] != s[j]
  {
    var c := [x] + s;
    assert c[i + 1] != c[j + 1];
  }
}
