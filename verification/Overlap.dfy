/** set_overlap: adding elements to an interval set without auto-merge. */
module Overlap {
  import opened Intervals
  import opened Permutations
  import opened Remainders
  import opened SetAutomerge
  import opened Sorting
  import Boundaries

  /** Two elements of one set: the same range, or ranges with no number in common. */
  predicate Compatible(a: Elem, b: Elem) {
    Same(a, b) || Spaced(a, b, 0)
  }

  ghost predicate AllCompatible(s: seq<Elem>) {
    forall i, j :: 0 <= i < j < |s| ==> Compatible(s[i], s[j])
  }

  lemma CompatiblePermute(s: seq<Elem>, t: seq<Elem>)
    requires multiset(s) == multiset(t)
    ensures AllCompatible(s) <==> AllCompatible(t)
  {
    var r := (a: Elem, b: Elem) => Compatible(a, b);
    assert AllCompatible(s) ==> Pairwise(s, r);
    assert AllCompatible(t) ==> Pairwise(t, r);
    if Pairwise(s, r) || Pairwise(t, r) {
      if Pairwise(s, r) {
        PairsPermute(s, t, r);
      } else {
        PairsPermute(t, s, r);
      }
      assert forall i, j :: 0 <= i < j < |s| ==> r(s[i], s[j]);
      assert forall i, j :: 0 <= i < j < |t| ==> r(t[i], t[j]);
    }
  }

  /**
   setelem_overlap: comparing neighbours finds every conflict, and takes any element for
   one that is out of order.
   */
  method SetelemOverlap(init: SetExpr) returns (ok: bool)
    requires Ranges(init.exprs)
    ensures ok <==> Sorted(init.exprs) && AllCompatible(init.exprs)
  {
    var i := 0;
    while i < |init.exprs|
      invariant 0 <= i <= |init.exprs|
      invariant forall j, k :: 0 <= j < k < i ==>
                  Same(init.exprs[j], init.exprs[k]) || init.exprs[j].hi < init.exprs[k].lo
    {
      var e := init.exprs[i];
      assert e in init.exprs;
      if i > 0 {
        var prev := init.exprs[i - 1];
        assert prev in init.exprs;
        if prev.lo == e.lo && prev.hi == e.hi {
        } else if prev.lo <= e.lo && prev.hi >= e.hi {
          assert !Compatible(init.exprs[i - 1], init.exprs[i]);
          return false;
        } else if e.lo <= prev.hi {
          assert init.exprs[i - 1].lo <= init.exprs[i].lo ==> !Compatible(init.exprs[i - 1], init.exprs[i]);
          return false;
        }
      }
      i := i + 1;
    }
    forall j, k | 0 <= j < k < |init.exprs| ensures init.exprs[j].lo <= init.exprs[k].lo {
      assert init.exprs[j] in init.exprs;
    }
    return true;
  }

  /** The elements that overlap detection looks at besides the new ones. */
  ghost function Compared(set_: IntervalSet): seq<Elem>
    reads set_, set_.existing, if set_.existing == null then {} else {set_.existing.init}
  {
    if set_.Cached() then set_.Known() else []
  }

  /**
   set_overlap: accepted exactly if no two different ranges, new or in a usable cache, have
   a number in common, and the cache is sorted; the elements join the cache either way,
   and those that the kernel does not know yet are left to be added.
   */
  method SetOverlap(set_: IntervalSet, init: SetExpr) returns (ok: bool)
    requires init !in set_.Footprint() && Ranges(init.exprs) && NoKernel(init.exprs) && Ranges(set_.Known())
    requires set_.existing != null && set_.existing.errors ==> set_.existing.init != null
    modifies init`exprs, set_.Footprint()
    ensures ok <==> old(Sorted(Compared(set_)) && AllCompatible(Compared(set_) + init.exprs))
    ensures old(Sorted(Compared(set_))) ==> Sorted(init.exprs) && (set_.Cached() ==> Sorted(set_.Known()))
    ensures multiset(init.exprs) + old(Kernels(Compared(set_))) == multiset(old(init.exprs))
            + multiset(old(Compared(set_)))
    ensures set_.existing == null ==> set_.Known() == []
    ensures set_.Cached() ==> multiset(set_.Known()) == old(Kernels(set_.Known())) + multiset(Marked(init.exprs))
    ensures set_.existing != null && !set_.Cached() ==> set_.Known() == old(set_.Known()) + Marked(init.exprs)
  {
    hide Den, Kernels, Fresh, Ranges, Sorted, Marked, Added, NoKernel, Splice, ListSort, AllCompatible;
    ghost var known, new_ := Compared(set_), init.exprs;
    NoElements(0);
    OverlapFacts(known, new_);
    SetSortSplice(init, set_);
    ghost var l := init.exprs;
    assert l == Spliced(known, new_);
    ok := SetelemOverlap(init);
    SublistsSorted(l);
    if set_.existing != null {
      Publish(init, set_.existing.init);
    }
  }

  /** Of two elements either the bounds are the same, or no number is in both. */
  lemma CompatibleIs(all: seq<Elem>)
    requires Ranges(all)
    ensures AllCompatible(all) <==>
              forall i, j, x :: 0 <= i < j < |all| && all[i].Has(x) && all[j].Has(x) ==>
                all[i].lo == all[j].lo && all[i].hi == all[j].hi
  {
    if AllCompatible(all) {
      forall i, j, x | 0 <= i < j < |all| && all[i].Has(x) && all[j].Has(x)
        ensures all[i].lo == all[j].lo && all[i].hi == all[j].hi
      {
        assert Compatible(all[i], all[j]);
      }
    } else {
      var i, j :| 0 <= i < j < |all| && !Compatible(all[i], all[j]);
      assert all[i] in all && all[j] in all;
      var x := if all[i].lo < all[j].lo then all[j].lo else all[i].lo;
      assert all[i].Has(x) && all[j].Has(x);
    }
  }

  /** What is handed to the cache, and what is left to be added, keeps the order of the list. */
  lemma {:induction false} SublistsSorted(l: seq<Elem>)
    ensures Sorted(l) ==> Sorted(Added(l)) && Sorted(Marked(l))
    ensures forall e :: e in Added(l) ==> e in l
  {
    if l != [] {
      var t, e := l[..|l| - 1], l[|l| - 1];
      SublistsSorted(t);
      assert Sorted(l) ==> Sorted(t);
      if Sorted(l) {
        forall f | f in t ensures f.lo <= e.lo {
          var i :| 0 <= i < |t| && t[i] == f;
          assert l[i].lo <= l[|l| - 1].lo;
        }
      }
    }
  }

  lemma OverlapFacts(known: seq<Elem>, new_: seq<Elem>)
    requires Ranges(known) && Ranges(new_) && NoKernel(new_)
    ensures var l := Spliced(known, new_);
            && Ranges(l) && (Sorted(l) <==> Sorted(known)) && (AllCompatible(l) <==> AllCompatible(known + new_))
            && multiset(Added(l)) + Kernels(known) == multiset(new_) + multiset(known)
            && multiset(Marked(l)) == Kernels(known) + multiset(Marked(Added(l)))
            && (known == [] ==> Added(l) == l)
  {
    hide Den, Kernels, Fresh, Marked, Added, Splice, ListSort, AllCompatible, Sorted, Ranges, KernelSpaced;
    var l := Spliced(known, new_);
    SplicedFacts(known, new_);
    CompatiblePermute(known + new_, l);
    AddedFacts(l);
    AddedElements(l);
    assert Kernels(l) + multiset(Added(l)) == multiset(Added(l)) + Kernels(known);
    assert multiset(known + new_) == multiset(new_) + multiset(known);
    if known == [] {
      NoElements(0);
      NothingCached(l, []);
    }
  }

  lemma {:induction false} AddedElements(s: seq<Elem>)
    ensures multiset(s) == Kernels(s) + multiset(Added(s))
  {
    hide Added, Kernels;
    if s == [] {
      Nothing();
    } else {
      var t, e := s[..|s| - 1], s[|s| - 1];
      AddedElements(t);
      assert s == t + [e];
      Snoc(t, e);
      KernelsConcat(t, [e]);
      KernelsOne(e);
    }
  }

  /** An accepted list is one that set_to_intervals can lower, whether or not a range is listed twice. */
  lemma AcceptedLowers(s: seq<Elem>)
    requires Ranges(s)
    ensures Sorted(s) && AllCompatible(s) <==> Boundaries.Consecutive(s)
  {
    forall i, j | 0 <= i < j < |s|
      ensures s[i].lo <= s[j].lo && Compatible(s[i], s[j]) <==> s[i].hi < s[j].lo || Same(s[i], s[j])
    {
      assert s[i] in s && s[j] in s;
    }
  }
}
