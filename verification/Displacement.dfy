/** Which kernel elements a scan purges, and which ranges it leaves, in terms of the ranges it was given. */
module Displacement {
  import opened Intervals
  import opened Permutations
  import opened Remainders
  import opened Automerge

  /** n comes within gap of k, or overlaps it, and reaches outside it. */
  predicate Displaces(n: Elem, k: Elem, gap: int) {
    n.lo <= k.hi + gap && k.lo <= n.hi + gap && (n.lo < k.lo || k.hi < n.hi)
  }

  /** x and the number after it are in one range. */
  ghost predicate Together(s: seq<Elem>, x: int) {
    exists e :: e in s && e.lo <= x && x + 1 <= e.hi
  }

  /** No element comes before a kernel element with the same left bound. */
  ghost predicate KernelFirst(l: seq<Elem>) {
    forall j, k :: 0 <= j < k < |l| && l[k].kernel ==> l[j].lo < l[k].lo
  }

  /** The element before i ends where a given range does that begins before all kernel elements from i on. */
  ghost predicate Owned(l: seq<Elem>, i: nat, orig: seq<Elem>)
    requires i <= |l|
  {
    i > 0 ==> exists n :: n in orig && l[i - 1].lo <= n.lo <= n.hi == l[i - 1].hi
                          && forall j :: i <= j < |l| && l[j].kernel ==> n.lo < l[j].lo
  }

  /**
   What the scan keeps about the given ranges: those from i on are still there, kernel
   elements are given ones, every given range lies in one of the list, and without
   auto-merge no two numbers are in one range that no given one has both of.
   */
  ghost predicate Traced(l: seq<Elem>, i: nat, orig: seq<Elem>, gap: int) {
    && i <= |l| && (forall j :: i <= j < |l| ==> l[j] in orig) && KernelFirst(l) && Owned(l, i, orig)
    && (forall f :: f in l && f.kernel ==> f in orig)
    && (forall n :: n in orig ==> Inside(n, l))
    && (gap == 0 ==> forall x :: Together(l, x) ==> Together(orig, x))
  }

  ghost predicate Inside(n: Elem, l: seq<Elem>) {
    exists f :: f in l && Within(n, f)
  }

  /** Every purged element was displaced by a given range. */
  ghost predicate AllDisplaced(purged: seq<Elem>, orig: seq<Elem>, gap: int) {
    forall k :: k in purged ==> exists n :: n in orig && Displaces(n, k, gap)
  }

  lemma JoinedMembers(l: seq<Elem>, i: nat, m: Elem)
    requires 0 < i < |l|
    ensures var l' := Joined(l, i, m);
            && |l'| == |l| - 1 && l'[i - 1] == m && (forall j :: 0 <= j < i - 1 ==> l'[j] == l[j])
            && (forall j :: i <= j < |l'| ==> l'[j] == l[j + 1])
            && (forall f :: f in l' ==> f == m || f in l) && m in l'
            && forall f :: f in l ==> f in l' || f == l[i - 1] || f == l[i]
  {
  }

  lemma InsideJoined(l: seq<Elem>, i: nat, m: Elem, n: Elem)
    requires 0 < i < |l| && Inside(n, l) && Within(l[i - 1], m) && Within(l[i], m)
    ensures Inside(n, Joined(l, i, m))
  {
    JoinedMembers(l, i, m);
    var f :| f in l && Within(n, f);
    assert f in Joined(l, i, m) || Within(n, m);
  }

  /** One replacement: m takes the place of p and e, and ends where one of them does. */
  lemma TracedJoin(l: seq<Elem>, i: nat, m: Elem, orig: seq<Elem>, gap: int)
    requires 0 < i < |l| && Traced(l, i, orig, gap) && Ranges(l) && Sorted(l)
    requires var p, e := l[i - 1], l[i];
             && Within(p, m) && Within(e, m) && m.lo == p.lo && (m.hi == p.hi || m.hi == e.hi)
             && e.lo <= p.hi + gap && (m.kernel ==> m == p)
    ensures Traced(Joined(l, i, m), i, orig, gap)
  {
    hide Together, Inside;
    var p, e, l' := l[i - 1], l[i], Joined(l, i, m);
    JoinedMembers(l, i, m);
    assert p in l && e in l;
    forall n | n in orig ensures Inside(n, l') {
      InsideJoined(l, i, m, n);
    }
    assert KernelFirst(l') by {
      forall j, k | 0 <= j < k < |l'| && l'[k].kernel ensures l'[j].lo < l'[k].lo {
        assert k == i - 1 ==> l[j].lo < l[i - 1].lo;
        assert k >= i ==> l[if j < i then j else j + 1].lo < l[k + 1].lo;
      }
    }
    OwnedJoin(l, i, m, orig);
    if gap == 0 {
      forall x | Together(l', x) ensures Together(orig, x) {
        TogetherJoin(l, i, m, x);
      }
    }
  }

  lemma OwnedJoin(l: seq<Elem>, i: nat, m: Elem, orig: seq<Elem>)
    requires 0 < i < |l| && Owned(l, i, orig) && l[i] in orig && KernelFirst(l) && l[i - 1].lo <= l[i].lo <= l[i].hi
    requires m.lo == l[i - 1].lo && (m.hi == l[i - 1].hi || m.hi == l[i].hi)
    ensures i <= |Joined(l, i, m)| && Owned(Joined(l, i, m), i, orig)
  {
    var l' := Joined(l, i, m);
    JoinedMembers(l, i, m);
    var n :| n in orig && l[i - 1].lo <= n.lo <= n.hi == l[i - 1].hi
             && forall j :: i <= j < |l| && l[j].kernel ==> n.lo < l[j].lo;
    var o := if m.hi == l[i - 1].hi then n else l[i];
    assert o in orig && l'[i - 1].lo <= o.lo <= o.hi == l'[i - 1].hi;
    forall j | i <= j < |l'| && l'[j].kernel ensures o.lo < l'[j].lo {
      assert l'[j] == l[j + 1];
    }
  }

  lemma TogetherJoin(l: seq<Elem>, i: nat, m: Elem, x: int)
    requires 0 < i < |l| && Together(Joined(l, i, m), x)
    requires m.lo == l[i - 1].lo && l[i].lo <= l[i - 1].hi && (m.hi == l[i - 1].hi || m.hi == l[i].hi)
    ensures Together(l, x)
  {
    JoinedMembers(l, i, m);
    var p, e := l[i - 1], l[i];
    assert p in l && e in l;
    var f :| f in Joined(l, i, m) && f.lo <= x && x + 1 <= f.hi;
    if f !in l {
      assert (p.lo <= x && x + 1 <= p.hi) || (e.lo <= x && x + 1 <= e.hi);
    }
  }

  lemma TracedNext(l: seq<Elem>, i: nat, orig: seq<Elem>, gap: int)
    requires i < |l| && Traced(l, i, orig, gap) && Ranges(l)
    ensures Traced(l, i + 1, orig, gap)
  {
    hide Together, Inside;
    var n := l[i];
    assert n in orig && n in l;
    assert l[i + 1 - 1].lo <= n.lo <= n.hi == l[i + 1 - 1].hi;
    assert forall j :: i + 1 <= j < |l| && l[j].kernel ==> n.lo < l[j].lo;
  }

  /** The owner of the element before i displaces the kernel element at i if that one is purged. */
  lemma OwnerDisplaces(l: seq<Elem>, i: nat, orig: seq<Elem>, gap: int)
    requires 0 < i < |l| && Owned(l, i, orig) && l[i].kernel && l[i].lo <= l[i].hi && l[i].lo <= l[i - 1].hi + gap
    requires 0 <= gap
    ensures exists n :: n in orig && Displaces(n, l[i], gap)
  {
    var n :| n in orig && l[i - 1].lo <= n.lo <= n.hi == l[i - 1].hi
             && forall j :: i <= j < |l| && l[j].kernel ==> n.lo < l[j].lo;
    assert Displaces(n, l[i], gap);
  }

  lemma DisplacedMore(purged: seq<Elem>, gone: seq<Elem>, orig: seq<Elem>, gap: int)
    requires AllDisplaced(purged, orig, gap) && AllDisplaced(gone, orig, gap)
    ensures AllDisplaced(purged + gone, orig, gap)
  {
  }

  lemma DisplacedCover(l: seq<Elem>, i: nat, orig: seq<Elem>, gap: int)
    requires 0 < i < |l| && Traced(l, i, orig, gap) && Ranges(l) && Covered(l[i - 1], l[i]) && 0 <= gap
    ensures AllDisplaced(Gone(l[i]), orig, gap)
  {
    assert l[i] in l;
    if l[i].kernel {
      OwnerDisplaces(l, i, orig, gap);
    }
  }

  lemma DisplacedUnion(l: seq<Elem>, i: nat, automerge: bool, orig: seq<Elem>)
    requires 0 < i < |l| && Traced(l, i, orig, if automerge then 1 else 0) && Ranges(l) && Sorted(l)
    requires !Covered(l[i - 1], l[i]) && Meets(l[i - 1], l[i], automerge)
    ensures AllDisplaced(PurgedBy(l[i - 1], l[i]), orig, if automerge then 1 else 0)
  {
    var p, e, gap := l[i - 1], l[i], if automerge then 1 else 0;
    assert p in l && e in l && e in orig;
    if p.kernel {
      assert Displaces(e, p, gap);
    } else if e.kernel {
      OwnerDisplaces(l, i, orig, gap);
    }
  }

  lemma MergingParts(l: seq<Elem>, i: nat, orig: seq<Elem>, gap: int, size: int, purged: seq<Elem>, size0: int)
    requires Merging(l, i, orig, gap) && Conserves(l, size, purged, orig, size0, gap) && KernelSpaced(orig, gap)
    ensures i <= |l| && Ranges(l) && Sorted(l) && KernelSpaced(l, gap)
  {
  }

  lemma UnionShape(p: Elem, e: Elem, automerge: bool)
    requires p.lo <= p.hi && e.lo <= e.hi && p.lo <= e.lo && !Covered(p, e) && Meets(p, e, automerge)
    requires p.kernel && e.kernel ==> Spaced(p, e, if automerge then 1 else 0)
    ensures var m := Union(p, e);
            && Within(p, m) && Within(e, m) && m.lo == p.lo && m.hi == e.hi && (m.kernel ==> m == p)
            && e.lo <= p.hi + if automerge then 1 else 0
  {
  }

  /** From any point of the scan on, what it keeps about the given ranges. */
  lemma {:induction false} MergeTraced(l: seq<Elem>, i: nat, automerge: bool, purged: seq<Elem>, orig: seq<Elem>,
                                       size: int, size0: int, gap: int)
    requires i <= |l| && gap == (if automerge then 1 else 0) && KernelSpaced(orig, gap)
    requires Merging(l, i, orig, gap) && Conserves(l, size, purged, orig, size0, gap)
    requires Traced(l, i, orig, gap) && AllDisplaced(purged, orig, gap)
    ensures var m := MergeFrom(l, i, automerge);
            Traced(m.list, |m.list|, orig, gap) && AllDisplaced(purged + m.purged, orig, gap)
    decreases |l|, |l| - i
  {
    hide Merging, Conserves, Traced, AllDisplaced, Ranges, Sorted, KernelSpaced, Gone, PurgedBy, Union;
    MergingParts(l, i, orig, gap, size, purged, size0);
    if i == |l| {
      assert purged + [] == purged;
    } else if i > 0 && Covered(l[i - 1], l[i]) {
      var l', gone := Joined(l, i, l[i - 1]), Gone(l[i]);
      CoveredKeeps(l, i, size, purged, orig, size0, gap);
      Bounds(l, i, orig, gap);
      GoneOne(l[i]);
      assert Traced(l', i, orig, gap) by { TracedJoin(l, i, l[i - 1], orig, gap); }
      DisplacedCover(l, i, orig, gap);
      DisplacedMore(purged, gone, orig, gap);
      MergeTraced(l', i, automerge, purged + gone, orig, if gone == [] then size - 1 else size, size0, gap);
      assert purged + gone + MergeFrom(l', i, automerge).purged == purged + (gone + MergeFrom(l', i, automerge).purged);
    } else if i > 0 && Meets(l[i - 1], l[i], automerge) {
      var l', gone := Joined(l, i, Union(l[i - 1], l[i])), PurgedBy(l[i - 1], l[i]);
      UnionKeeps(l, i, automerge, size, purged, orig, size0, gap);
      Bounds(l, i, orig, gap);
      NeighboursSpaced(l, i, gap);
      UnionShape(l[i - 1], l[i], automerge);
      TracedJoin(l, i, Union(l[i - 1], l[i]), orig, gap);
      DisplacedUnion(l, i, automerge, orig);
      DisplacedMore(purged, gone, orig, gap);
      MergeTraced(l', i, automerge, purged + gone, orig, if gone == [] then size - 1 else size, size0, gap);
      assert purged + gone + MergeFrom(l', i, automerge).purged == purged + (gone + MergeFrom(l', i, automerge).purged);
    } else {
      if i > 0 {
        Apart(l[i - 1], l[i], automerge);
        Bounds(l, i, orig, gap);
      }
      MergingNext(l, i, orig, gap);
      TracedNext(l, i, orig, gap);
      MergeTraced(l, i + 1, automerge, purged, orig, size, size0, gap);
    }
  }

  lemma NeighboursSpaced(l: seq<Elem>, i: nat, gap: int)
    requires 0 < i < |l| && KernelSpaced(l, gap)
    ensures l[i - 1].kernel && l[i].kernel ==> Spaced(l[i - 1], l[i], gap)
  {
  }

  lemma TracedStart(l: seq<Elem>, gap: int)
    requires KernelFirst(l)
    ensures Traced(l, 0, l, gap) && AllDisplaced([], l, gap)
  {
    forall n | n in l ensures Inside(n, l) {
      assert Within(n, n);
    }
  }

  /** An element that the scan leaves was not displaced. */
  lemma NotDisplaced(l: seq<Elem>, orig: seq<Elem>, k: Elem, n: Elem, gap: int)
    requires Separated(l, gap) && Ranges(l) && k in l && n in orig && Inside(n, l) && n.lo <= n.hi && 0 <= gap
    ensures !Displaces(n, k, gap)
  {
    var f :| f in l && Within(n, f);
    var i :| 0 <= i < |l| && l[i] == k;
    var j :| 0 <= j < |l| && l[j] == f;
    assert i < j ==> l[i].hi + gap < l[j].lo;
    assert j < i ==> l[j].hi + gap < l[i].lo;
  }

  /**
   The scan of a sorted list whose kernel elements are spaced and come first: it purges
   exactly the kernel elements that another range comes to and reaches outside of; every
   given range lies in one of those left, and without auto-merge two neighbouring numbers
   are in one range exactly if they were in one of the given ones.
   */
  lemma MergeDisplaces(l: seq<Elem>, automerge: bool)
    requires Ranges(l) && Sorted(l) && KernelFirst(l) && KernelSpaced(l, if automerge then 1 else 0)
    ensures var m, gap := MergeFrom(l, 0, automerge), if automerge then 1 else 0;
            && (forall k :: k in l && k.kernel ==> (k in m.purged <==> exists n :: n in l && Displaces(n, k, gap)))
            && (forall n :: n in l ==> Inside(n, m.list))
            && (!automerge ==> forall x :: Together(m.list, x) <==> Together(l, x))
  {
    var m, gap := MergeFrom(l, 0, automerge), if automerge then 1 else 0;
    hide *;
    assert [] + m.purged == m.purged;
    MergingStart(l, 0, gap);
    TracedStart(l, gap);
    MergeTraced(l, 0, automerge, [], l, 0, 0, gap);
    TracedEnd(m.list, l, gap);
    MergeCorrect(l, automerge);
    forall k | k in l && k.kernel ensures k in m.purged <==> exists n :: n in l && Displaces(n, k, gap) {
      DisplacedExactly(l, m, k, gap);
    }
    if !automerge {
      forall x ensures Together(m.list, x) <==> Together(l, x) {
        TogetherInside(l, m.list, x);
      }
    }
  }

  lemma TracedEnd(list: seq<Elem>, l: seq<Elem>, gap: int)
    requires Traced(list, |list|, l, gap)
    ensures forall n :: n in l ==> Inside(n, list)
    ensures gap == 0 ==> forall x :: Together(list, x) ==> Together(l, x)
  {
  }

  lemma DisplacedExactly(l: seq<Elem>, m: Scan, k: Elem, gap: int)
    requires k in l && k.kernel && AllDisplaced(m.purged, l, gap) && Kernels(m.list) + multiset(m.purged) == Kernels(l)
    requires Separated(m.list, gap) && Ranges(m.list) && Ranges(l) && 0 <= gap && forall n :: n in l ==>
               Inside(n, m.list)
    ensures k in m.purged <==> exists n :: n in l && Displaces(n, k, gap)
  {
    if k !in m.purged {
      KernelLeft(l, m, k);
      forall n | n in l ensures !Displaces(n, k, gap) {
        NotDisplaced(m.list, l, k, n, gap);
      }
    }
  }

  lemma KernelLeft(l: seq<Elem>, m: Scan, k: Elem)
    requires Kernels(m.list) + multiset(m.purged) == Kernels(l) && k in l && k.kernel && k !in m.purged
    ensures k in m.list
  {
    hide Kernels;
    KernelsCount(l, k);
    KernelsCount(m.list, k);
    SameMembers(l, l);
    SameMembers(m.list, m.list);
    assert Kernels(l)[k] > 0;
  }

  lemma TogetherInside(l: seq<Elem>, list: seq<Elem>, x: int)
    requires forall n :: n in l ==> Inside(n, list)
    ensures Together(l, x) ==> Together(list, x)
  {
    if Together(l, x) {
      var e :| e in l && e.lo <= x && x + 1 <= e.hi;
      assert Inside(e, list);
      var f :| f in list && Within(e, f);
      assert f.lo <= x && x + 1 <= f.hi;
    }
  }
}
