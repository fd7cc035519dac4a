/** Why the cached list has to be sorted, and what an unsorted one does to the next addition. */
module CacheOrder {
  import opened Intervals
  import opened Permutations
  import opened Sorting
  import opened Automerge
  import opened SetAutomerge
  import opened Remainders
  import opened ElementDelete

  /** As far as neighbours are apart, the scan passes over them. */
  lemma {:induction false} PassOver(l: seq<Elem>, i: nat, n: nat, automerge: bool)
    requires i <= n <= |l|
    requires forall j :: 0 < j < n ==> !Covered(l[j - 1], l[j]) && !Meets(l[j - 1], l[j], automerge)
    ensures MergeFrom(l, i, automerge) == MergeFrom(l, n, automerge)
    decreases n - i
  {
    if i < n {
      PassOver(l, i + 1, n, automerge);
    }
  }

  /** The element before i ends where some range does that keeps its distance from all that follow. */
  ghost predicate Behind(l: seq<Elem>, i: nat, gap: int)
    requires 0 < i <= |l|
  {
    exists b: Elem ::
      && b.lo <= b.hi == l[i - 1].hi && (b == l[i - 1] || l[i - 1].hi < l[i - 1].lo)
      && forall j :: i <= j < |l| ==> Spaced(b, l[j], gap)
  }

  /** Number x is in no range any more, and none of the ranges that follow can bring it back. */
  ghost predicate Losing(l: seq<Elem>, i: nat, x: int, gap: int) {
    && i <= |l| && (forall f :: f in l ==> !f.Has(x))
    && (forall j :: i <= j < |l| ==> l[j].lo <= l[j].hi)
    && (forall j, k :: i <= j < k < |l| ==> Spaced(l[j], l[k], gap))
    && (i > 0 ==> Behind(l, i, gap))
  }

  /** Two spaced ranges that the scan takes for overlapping end as a range with its bounds the wrong way round. */
  lemma Inverted(l: seq<Elem>, i: nat, x: int, automerge: bool)
    requires 0 < i < |l| && Losing(l, i, x, if automerge then 1 else 0)
    ensures !Covered(l[i - 1], l[i])
    ensures Meets(l[i - 1], l[i], automerge) ==>
              && Union(l[i - 1], l[i]).hi < Union(l[i - 1], l[i]).lo
              && Losing(Joined(l, i, Union(l[i - 1], l[i])), i, x, if automerge then 1 else 0)
  {
    var gap, q, e := if automerge then 1 else 0, l[i - 1], l[i];
    var b: Elem :| && b.lo <= b.hi == q.hi && (b == q || q.hi < q.lo)
                   && forall j :: i <= j < |l| ==> Spaced(b, l[j], gap);
    assert Spaced(b, e, gap);
    if Meets(q, e, automerge) {
      var m := Union(q, e);
      var l' := Joined(l, i, m);
      forall f | f in l' ensures !f.Has(x) {
        assert f == m || f in l;
      }
      assert forall j :: i <= j < |l'| ==> l'[j] == l[j + 1];
      assert e.lo <= e.hi == l'[i - 1].hi;
      assert Behind(l', i, gap);
    }
  }

  lemma LosingNext(l: seq<Elem>, i: nat, x: int, gap: int)
    requires i < |l| && Losing(l, i, x, gap)
    ensures Losing(l, i + 1, x, gap)
  {
    var b := l[i];
    assert b.lo <= b.hi == l[i + 1 - 1].hi;
    assert Behind(l, i + 1, gap);
  }

  lemma {:induction false} LostForGood(l: seq<Elem>, i: nat, x: int, automerge: bool)
    requires Losing(l, i, x, if automerge then 1 else 0)
    ensures forall f :: f in MergeFrom(l, i, automerge).list ==> !f.Has(x)
    decreases |l|, |l| - i
  {
    hide Losing, Covered, Meets;
    if i == |l| {
      LosingMisses(l, i, x, if automerge then 1 else 0);
    } else {
      LosingMisses(l, i, x, if automerge then 1 else 0);
      if i > 0 {
        Inverted(l, i, x, automerge);
      }
      if i > 0 && Meets(l[i - 1], l[i], automerge) {
        LostForGood(Joined(l, i, Union(l[i - 1], l[i])), i, x, automerge);
      } else {
        LosingNext(l, i, x, if automerge then 1 else 0);
        LostForGood(l, i + 1, x, automerge);
      }
    }
  }

  lemma LosingMisses(l: seq<Elem>, i: nat, x: int, gap: int)
    requires Losing(l, i, x, gap)
    ensures i <= |l| && forall f :: f in l ==> !f.Has(x)
  {
  }

  /** Where an unsorted list first descends. */
  lemma {:induction false} FirstDescent(l: seq<Elem>, i: nat) returns (n: nat)
    requires !Sorted(l) && i <= |l| && forall j, k :: 0 <= j < k < i ==> l[j].lo <= l[k].lo
    ensures 0 < n < |l| && l[n].lo < l[n - 1].lo && forall j :: 0 < j < n ==> l[j - 1].lo <= l[j].lo
    decreases |l| - i
  {
    if i == 0 || l[i - 1].lo <= l[i].lo {
      n := FirstDescent(l, i + 1);
    } else {
      n := i;
    }
  }

  /** Merging a list of ranges that keep their distance changes nothing if it is sorted, and loses numbers if not. */
  lemma MergeNeedsOrder(known: seq<Elem>, automerge: bool)
    requires Ranges(known) && AllSpaced(known, if automerge then 1 else 0)
    ensures Den(MergeFrom(known, 0, automerge).list) == Den(known) <==> Sorted(known)
  {
    if Sorted(known) {
      MergeCorrect(known, automerge);
    } else {
      hide Sorted, Den;
      var n := FirstDescent(known, 0);
      Descends(known, n, automerge);
    }
  }

  lemma Descends(known: seq<Elem>, n: nat, automerge: bool)
    requires Ranges(known) && AllSpaced(known, if automerge then 1 else 0)
    requires 0 < n < |known| && known[n].lo < known[n - 1].lo && forall j :: 0 < j < n ==>
               known[j - 1].lo <= known[j].lo
    ensures Den(MergeFrom(known, 0, automerge).list) != Den(known)
  {
    var gap, p, e := if automerge then 1 else 0, known[n - 1], known[n];
    var l, x := Joined(known, n, Union(p, e)), p.lo;
    assert Spaced(p, e, gap) && p in known && e in known && p.Has(x);
    DescendPass(known, n, automerge);
    DescendLosing(known, n, gap);
    hide Losing, AllSpaced, Joined, Union;
    LostForGood(l, n, x, automerge);
    assert MergeFrom(known, n, automerge).list == MergeFrom(l, n, automerge).list;
    assert x in Den(known) && x !in Den(MergeFrom(l, n, automerge).list);
  }

  lemma DescendPass(known: seq<Elem>, n: nat, automerge: bool)
    requires Ranges(known) && AllSpaced(known, if automerge then 1 else 0)
    requires 0 < n < |known| && forall j :: 0 < j < n ==> known[j - 1].lo <= known[j].lo
    ensures MergeFrom(known, 0, automerge) == MergeFrom(known, n, automerge)
  {
    forall j | 0 < j < n ensures !Covered(known[j - 1], known[j]) && !Meets(known[j - 1], known[j], automerge) {
      assert known[j] in known && known[j - 1] in known;
      assert Spaced(known[j - 1], known[j], if automerge then 1 else 0);
    }
    PassOver(known, 0, n, automerge);
  }

  lemma DescendLosing(known: seq<Elem>, n: nat, gap: int)
    requires Ranges(known) && AllSpaced(known, gap) && gap >= 0
    requires 0 < n < |known| && known[n].lo < known[n - 1].lo
    ensures Losing(Joined(known, n, Union(known[n - 1], known[n])), n, known[n - 1].lo, gap)
  {
    var p, e := known[n - 1], known[n];
    var m := Union(p, e);
    var l := Joined(known, n, m);
    assert p in known && e in known && Spaced(known[n - 1], known[n], gap);
    forall j | 0 <= j < |l|
      ensures !l[j].Has(p.lo) && (j >= n ==> l[j] == known[j + 1] && Spaced(e, l[j], gap) && l[j].lo <= l[j].hi)
    {
      if j < n - 1 {
        assert l[j] == known[j] && Spaced(known[j], known[n - 1], gap);
      } else if j >= n {
        assert l[j] == known[j + 1] && Spaced(known[n - 1], known[j + 1], gap) && Spaced(known[n], known[j + 1], gap);
        assert known[j + 1] in known;
      }
    }
    assert e.lo <= e.hi == l[n - 1].hi;
    assert Behind(l, n, gap);
  }

  /** An addition does what it should: the cache denotes the old and the new numbers. */
  ghost predicate AddsRight(known: seq<Elem>, new_: seq<Elem>, automerge: bool) {
    Den(Marked(MergeFrom(Spliced(known, new_), 0, automerge).list)) == Den(known) + Den(new_)
  }

  /** Every addition to a cache of spaced ranges does what it should exactly if the cache is sorted. */
  lemma CacheMustBeSorted(known: seq<Elem>, automerge: bool)
    requires Ranges(known) && AllSpaced(known, if automerge then 1 else 0)
    ensures (forall new_ :: Ranges(new_) && NoKernel(new_) ==> AddsRight(known, new_, automerge)) <==> Sorted(known)
  {
    hide Den, Sorted, MergeFrom, Spliced, Marked;
    if Sorted(known) {
      assert Tidy(known, if automerge then 1 else 0);
      forall new_ | Ranges(new_) && NoKernel(new_) ensures AddsRight(known, new_, automerge) {
        Survivors(known, new_, automerge);
      }
    } else if AddsRight(known, [], automerge) {
      SpliceNone(known);
      DenMarked(MergeFrom(known, 0, automerge).list);
      NoElements(0);
      assert Den(known) + iset{} == Den(known);
      MergeNeedsOrder(known, automerge);
      assert false;
    }
  }

  lemma {:induction false} SpliceNone(known: seq<Elem>)
    ensures Spliced(known, []) == known
  {
    if known != [] {
      SpliceNone(known[1..]);
      assert known == [known[0]] + known[1..];
    }
  }

  /** Ranges 1-2 and 10-20 with 15 deleted: the pieces go to the ends of the cached list. */
  lemma SplitUnsorts()
    ensures var s := [Elem(1, 2, true, false), Elem(10, 20, true, false), Elem(15, 15, false, true)];
            && ListSort(s, Low) == s && RemoveAt(s, 2) && Accepts(s, 2, true)
            && Marked(After(s, 2)) == [Elem(10, 14, true, false), Elem(1, 2, true, false), Elem(16, 20, true, false)]
  {
    var s := [Elem(1, 2, true, false), Elem(10, 20, true, false), Elem(15, 15, false, true)];
    assert s[..2] == [s[0], s[1]] && s[2..] == [s[2]];
    assert [s[0], s[1]][..1] == [s[0]] && [s[0], s[1]][1..] == [s[1]];
    SpliceNone([s[0]]);
    assert Splice([s[0]], [s[1]], Low) == [s[0], s[1]] by { SpliceStep([s[0]], [s[1]], Low); }
    assert Splice([s[1]], [s[2]], Low) == [s[1], s[2]] by { SpliceStep([s[1]], [s[2]], Low); }
    SpliceStep([s[0], s[1]], [s[2]], Low);
    assert After(s, 2) == [Elem(10, 14, false, false), s[0], Elem(16, 20, false, false)];
  }

  /** Adding 12 in the same batch then purges the piece 10-14 and turns 1-2 into 10-2. */
  lemma SplitThenAdd()
    ensures var cache := [Elem(10, 14, true, false), Elem(1, 2, true, false), Elem(16, 20, true, false)];
            var m := MergeFrom(Spliced(cache, [Elem(12, 12, false, false)]), 0, true);
            && m.purged == [Elem(10, 14, true, false)]
            && m.list == [Elem(10, 2, true, false), Elem(12, 12, false, false), Elem(16, 20, true, false)]
  {
    var a, b, c, d := Elem(10, 14, true, false), Elem(1, 2, true, false), Elem(12, 12, false, false),
                          Elem(16, 20, true, false);
    SpliceStep([a, b, d], [c], Low);
    SpliceStep([b, d], [c], Low);
    SpliceStep([d], [c], Low);
    assert [a, b, d][1..] == [b, d] && [b, d][1..] == [d] && [c][1..] == [];
    assert Splice([d], [], Low) == [d] by { SpliceStep([d], [], Low); }
    assert Spliced([a, b, d], [c]) == [a, b, c, d];
    var x := Elem(10, 2, true, false);
    assert Joined([a, b, c, d], 1, Union(a, b)) == [x, c, d];
    PassOver([x, c, d], 1, 3, true);
  }
}
