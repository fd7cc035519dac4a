/** set_delete: removing ranges from an interval set whose kernel contents are known. */
module SetDelete {
  import opened Intervals
  import opened Permutations
  import opened Sorting
  import opened Automerge
  import opened SetAutomerge
  import opened Remainders
  import opened ElementDelete

  function Key(d: Elem): Elem {
    Elem(d.lo, d.hi, true, false)
  }

  /** The kernel elements with the bounds of these. */
  function Keys(ds: seq<Elem>): seq<Elem> {
    seq(|ds|, i requires 0 <= i < |ds| => Key(ds[i]))
  }

  lemma KeysSnoc(ds: seq<Elem>, d: Elem)
    ensures Keys(ds + [d]) == Keys(ds) + [Key(d)]
  {
  }

  /**
   The state between two deletions from a set without auto-merge: only whole ranges went, and
   none that was ignored.
   */
  ghost predicate Matched(e: seq<Elem>, known: seq<Elem>, ds: seq<Elem>, purged: seq<Elem>) {
    && Ranges(e) && NoRemove(e) && AllSpaced(e, 0)
    && purged == Keys(Effective(known, ds)) && multiset(e) + multiset(purged) == multiset(known)
  }

  ghost predicate Deleting(automerge: bool, e: seq<Elem>, known: seq<Elem>, ds: seq<Elem>, purged: seq<Elem>) {
    if automerge then Remaining(e, known, ds, purged) && Den(ds) <= Den(known)
    else Matched(e, known, ds, purged)
  }

  lemma DeletingStart(automerge: bool, known: seq<Elem>)
    requires Ranges(known) && NoRemove(known) && AllSpaced(known, if automerge then 1 else 0)
    ensures Deleting(automerge, known, known, [], [])
  {
    assert Den([]) == iset{};
    assert Effective(known, []) == [] && Keys([]) == [];
  }

  lemma DeletingSpaced(automerge: bool, e: seq<Elem>, known: seq<Elem>, ds: seq<Elem>, purged: seq<Elem>)
    requires Deleting(automerge, e, known, ds, purged)
    ensures Ranges(e) && NoRemove(e) && AllSpaced(e, if automerge then 1 else 0)
  {
  }

  /** The elements without the kernel's flag stay. */
  lemma FreshStays(e: seq<Elem>, known: seq<Elem>, ds: seq<Elem>, purged: seq<Elem>, q: Elem)
    requires Matched(e, known, ds, purged) && !q.kernel
    ensures q in e <==> q in known
  {
    SameMembers(e, e);
    SameMembers(known, known);
    SameMembers(purged, purged);
    forall p | p in purged ensures p.kernel {
    }
    assert q in multiset(known) <==> q in multiset(e) || q in multiset(purged);
  }

  /** Without auto-merge, a deletion meets an element without the kernel's flag exactly if it is ignored. */
  lemma MatchedIsKernel(e: seq<Elem>, known: seq<Elem>, ds: seq<Elem>, purged: seq<Elem>, d: Elem, p: Elem)
    requires Matched(e, known, ds, purged) && p in e && Same(d, p)
    ensures p.kernel <==> !Ignored(known, d)
  {
    if !p.kernel {
      FreshStays(e, known, ds, purged, p);
    }
    if Ignored(known, d) {
      var q :| q in known && !q.kernel && Same(d, q);
      FreshStays(e, known, ds, purged, q);
      if p != q {
        SpacedMembers(e, p, q, 0);
      }
    }
  }

  lemma MatchedStep(e: seq<Elem>, known: seq<Elem>, ds: seq<Elem>, purged: seq<Elem>, d: Elem, p: Elem,
                    rest: seq<Elem>, e': seq<Elem>)
    requires Matched(e, known, ds, purged) && p in e && Same(d, p) && NoRemove(e')
    requires multiset(e) == multiset(rest + [p]) && multiset(e') == multiset(rest + Leftover(d, p))
    ensures Matched(e', known, ds + [d], purged + Gone(p))
  {
    hide Effective, Ignored;
    MatchedIsKernel(e, known, ds, purged, d, p);
    EffectiveSnoc(known, ds, d);
    assert rest + [] == rest && purged + [] == purged && Effective(known, ds) + [] == Effective(known, ds);
    SameMembers(e, rest + [p]);
    SpacedPermute(e, rest + [p], 0);
    if p.kernel {
      KeysSnoc(Effective(known, ds), d);
      assert p == Key(d);
      assert multiset(e') == multiset(rest);
      SameMembers(e', rest);
      RestSpaced(rest, p, 0);
      SpacedPermute(rest, e', 0);
    } else {
      SameMembers(e', rest + [p]);
      SpacedPermute(rest + [p], e', 0);
    }
    forall f | f in e' ensures f in e {
      assert f in rest + [p];
    }
  }

  lemma DeletingStep(automerge: bool, e: seq<Elem>, known: seq<Elem>, ds: seq<Elem>, purged: seq<Elem>, d: Elem,
                     p: Elem, rest: seq<Elem>, e': seq<Elem>)
    requires Deleting(automerge, e, known, ds, purged) && d.lo <= d.hi
    requires p in e && Within(d, p) && (automerge || Same(d, p)) && NoRemove(e')
    requires automerge ==> forall g :: g in ds ==> Spaced(g, d, 1) && g.lo <= g.hi
    requires multiset(e) == multiset(rest + [p]) && multiset(e') == multiset(rest + Leftover(d, p))
    ensures Deleting(automerge, e', known, ds + [d], purged + Gone(p))
  {
    if automerge {
      assert Den([d]) <= Den(e) by {
        DenOne(d);
        assert forall x :: d.Has(x) ==> p.Has(x);
      }
      DenConcat(ds, [d]);
      RemainingStep(e, known, ds, purged, d, p, rest, e');
    } else {
      MatchedStep(e, known, ds, purged, d, p, rest, e');
    }
  }

  /** What it takes for all deletions to go through. */
  ghost predicate CanDelete(automerge: bool, known: seq<Elem>, ds: seq<Elem>) {
    if automerge then Den(ds) <= Den(known) else multiset(Keys(Effective(known, ds))) <= Kernels(known)
  }

  lemma DeletingRefused(automerge: bool, e: seq<Elem>, known: seq<Elem>, ds: seq<Elem>, purged: seq<Elem>, d: Elem,
                        later: seq<Elem>)
    requires Deleting(automerge, e, known, ds, purged)
    requires automerge ==> !(Den([d]) <= Den(e)) && forall g :: g in ds ==> Spaced(g, d, 1)
    requires !automerge ==> forall f :: f in e ==> !Same(d, f)
    ensures !CanDelete(automerge, known, ds + [d] + later)
  {
    if automerge {
      DenOne(d);
      var x :| x in Den([d]) && x !in Den(e);
      assert d in ds + [d] + later && d.Has(x);
      EffectiveMembers(known, ds);
      assert x !in Den(Effective(known, ds));
    } else {
      MatchedRefused(e, known, ds, purged, d, later);
    }
  }

  lemma MatchedRefused(e: seq<Elem>, known: seq<Elem>, ds: seq<Elem>, purged: seq<Elem>, d: Elem, later: seq<Elem>)
    requires Matched(e, known, ds, purged) && forall f :: f in e ==> !Same(d, f)
    ensures !(multiset(Keys(Effective(known, ds + [d] + later))) <= Kernels(known))
  {
    hide Effective, Kernels;
    if Ignored(known, d) {
      var q :| q in known && !q.kernel && Same(d, q);
      FreshStays(e, known, ds, purged, q);
    }
    EffectiveSnoc(known, ds, d);
    EffectivePrefix(known, ds + [d], later);
    KeysSnoc(Effective(known, ds), d);
    var all := Effective(known, ds + [d] + later);
    var more := all[|Effective(known, ds)| + 1..];
    assert all == Effective(known, ds) + [d] + more;
    assert Keys(all) == Keys(Effective(known, ds)) + [Key(d)] + Keys(more);
    assert Key(d) !in e;
    SameMembers(e, e);
    KernelsCount(known, Key(d));
    assert multiset(known)[Key(d)] == multiset(purged)[Key(d)];
    assert multiset(Keys(all))[Key(d)] >= multiset(purged)[Key(d)] + 1;
  }

  lemma {:induction false} EffectivePrefix(known: seq<Elem>, ds: seq<Elem>, later: seq<Elem>)
    ensures Effective(known, ds) <= Effective(known, ds + later)
  {
    if later == [] {
      assert ds + later == ds;
    } else {
      var t, d := later[..|later| - 1], later[|later| - 1];
      EffectivePrefix(known, ds, t);
      EffectiveSnoc(known, ds + t, d);
      assert ds + later == ds + t + [d];
    }
  }

  lemma DeletingDone(automerge: bool, e: seq<Elem>, known: seq<Elem>, ds: seq<Elem>, purged: seq<Elem>)
    requires Deleting(automerge, e, known, ds, purged)
    ensures CanDelete(automerge, known, ds)
    ensures Kernels(e) + multiset(purged) == Kernels(known)
    ensures !automerge ==> purged == Keys(Effective(known, ds))
  {
    if !automerge {
      MatchedKernels(e, known, purged);
    }
  }

  lemma MatchedKernels(e: seq<Elem>, known: seq<Elem>, purged: seq<Elem>)
    requires multiset(e) + multiset(purged) == multiset(known) && forall p :: p in purged ==> p.kernel
    ensures Kernels(e) + multiset(purged) == Kernels(known)
  {
    hide Kernels, Fresh;
    assert multiset(e + purged) == multiset(known);
    CountsPermute(e + purged, known);
    KernelsConcat(e, purged);
    KernelsOfUniform(purged);
  }

  /** What is left, as numbers, in both kinds of sets. */
  lemma DeletedDen(automerge: bool, e: seq<Elem>, known: seq<Elem>, ds: seq<Elem>, purged: seq<Elem>)
    requires Deleting(automerge, e, known, ds, purged) && AllSpaced(known, 0) && Ranges(known)
    ensures Den(e) == Den(known) - Den(Effective(known, ds))
  {
    if !automerge {
      hide Effective, Kernels, AllSpaced, Ranges, Den, Keys;
      var gone := Effective(known, ds);
      assert multiset(e + purged) == multiset(known);
      SpacedPermute(known, e + purged, 0);
      DenPermute(known, e + purged);
      DenConcat(e, purged);
      KeysDen(gone);
      SpacedApart(e, purged);
      assert Den(known) - Den(purged) == Den(e);
    }
  }

  lemma KeysDen(ds: seq<Elem>)
    ensures Den(Keys(ds)) == Den(ds)
  {
    var k := Keys(ds);
    forall x ensures x in Den(k) <==> x in Den(ds) {
      if x in Den(k) {
        var i :| 0 <= i < |k| && k[i].Has(x);
        assert ds[i] in ds && ds[i].Has(x);
      }
      if x in Den(ds) {
        var i :| 0 <= i < |ds| && ds[i].Has(x);
        assert k[i] in k && k[i].Has(x);
      }
    }
  }

  lemma SpacedApart(s: seq<Elem>, t: seq<Elem>)
    requires AllSpaced(s + t, 0)
    ensures forall x :: x in Den(s) ==> x !in Den(t)
  {
    forall x | x in Den(s) ensures x !in Den(t) {
      var i :| 0 <= i < |s| && s[i].Has(x);
      forall j | 0 <= j < |t| ensures !t[j].Has(x) {
        assert Spaced((s + t)[i], (s + t)[|s| + j], 0);
      }
    }
  }

  // ----- what is ignored, in terms of the numbers to delete

  /** q is not known to the kernel and exactly one of the ranges that the numbers to delete fall into. */
  ghost predicate Stuck(q: Elem, numbers: iset<int>) {
    && !q.kernel && q.lo - 1 !in numbers && q.hi + 1 !in numbers
    && forall x :: q.lo <= x <= q.hi ==> x in numbers
  }

  ghost predicate LeftAt(known: seq<Elem>, numbers: iset<int>, x: int) {
    exists q :: q in known && Stuck(q, numbers) && q.Has(x)
  }

  /** The numbers that a deletion leaves although it names them. */
  ghost function Left(known: seq<Elem>, numbers: iset<int>): iset<int> {
    iset x | LeftAt(known, numbers, x)
  }

  /** Separated ranges are maximal: the numbers next to one are in none of them. */
  lemma Maximal(ds: seq<Elem>, d: Elem)
    requires Separated(ds, 1) && Ranges(ds) && d in ds
    ensures d.lo - 1 !in Den(ds) && d.hi + 1 !in Den(ds)
    ensures forall x :: d.Has(x) ==> x in Den(ds)
  {
    var i :| 0 <= i < |ds| && ds[i] == d;
    forall f | f in ds ensures !f.Has(d.lo - 1) && !f.Has(d.hi + 1) {
      var j :| 0 <= j < |ds| && ds[j] == f;
      assert i < j ==> ds[i].hi + 1 < ds[j].lo;
      assert j < i ==> ds[j].hi + 1 < ds[i].lo;
    }
  }

  lemma StuckIsMerged(ds: seq<Elem>, q: Elem)
    requires Separated(ds, 1) && Ranges(ds) && q.lo <= q.hi && !q.kernel
    ensures Stuck(q, Den(ds)) <==> exists d :: d in ds && Same(d, q)
  {
    if d :| d in ds && Same(d, q) {
      hide Den;
      Maximal(ds, d);
      assert forall x :: q.lo <= x <= q.hi ==> d.Has(x);
    }
    if Stuck(q, Den(ds)) {
      assert q.lo in Den(ds);
      var d :| d in ds && d.Has(q.lo);
      hide Den, Separated;
      Maximal(ds, d);
      assert d.lo < q.lo ==> d.Has(q.lo - 1);
      assert d.hi > q.hi ==> d.Has(q.hi + 1);
    }
  }

  /** What the merged ranges delete, in terms of their numbers; it is everything exactly if no cached range is stuck. */
  lemma EffectiveDen(known: seq<Elem>, ds: seq<Elem>)
    requires Separated(ds, 1) && Ranges(ds) && Ranges(known)
    ensures Den(Effective(known, ds)) == Den(ds) - Left(known, Den(ds))
    ensures Den(known) - Den(Effective(known, ds)) == Den(known) - Den(ds) <==> forall q :: q in known ==>
              !Stuck(q, Den(ds))
  {
    hide Effective, Separated, Stuck;
    var numbers := Den(ds);
    EffectiveMembers(known, ds);
    SeparatedSpaced(ds, 1);
    forall q | q in known && !q.kernel ensures Stuck(q, numbers) <==> exists d :: d in ds && Same(d, q) {
      StuckIsMerged(ds, q);
    }
    forall x ensures x in Den(Effective(known, ds)) <==> x in numbers && x !in Left(known, numbers) {
      EffectiveAt(known, ds, x);
    }
    if q :| q in known && Stuck(q, numbers) {
      assert q.Has(q.lo) && q.lo in Den(known) && q.lo in numbers by { StuckNumber(q, numbers); }
      assert q.lo in Left(known, numbers);
    }
  }

  lemma StuckNumber(q: Elem, numbers: iset<int>)
    requires Stuck(q, numbers)
    ensures !q.kernel && (q.lo <= q.hi ==> q.lo in numbers)
  {
    assert q.lo <= q.hi ==> q.Has(q.lo);
  }

  lemma EffectiveAt(known: seq<Elem>, ds: seq<Elem>, x: int)
    requires AllSpaced(ds, 1) && Ranges(ds)
    requires forall q :: q in known && !q.kernel ==> (Stuck(q, Den(ds)) <==> exists d :: d in ds && Same(d, q))
    ensures x in Den(Effective(known, ds)) <==> x in Den(ds) && x !in Left(known, Den(ds))
  {
    hide Effective, Stuck;
    EffectiveMembers(known, ds);
    if x in Den(Effective(known, ds)) {
      var g :| g in Effective(known, ds) && g.Has(x);
      forall q | q in known && Stuck(q, Den(ds)) ensures !q.Has(x) {
        assert !q.kernel by { StuckNumber(q, Den(ds)); }
        var d :| d in ds && Same(d, q);
        if q.Has(x) {
          OnlyOne(ds, d, g, Elem(x, x, false, false));
        }
      }
    } else if x in Den(ds) {
      var g :| g in ds && g.Has(x);
      assert Ignored(known, g);
      var q :| q in known && !q.kernel && Same(g, q);
      assert Stuck(q, Den(ds)) && q.Has(x);
    }
  }

  // ----- the order of the cache

  /** Nothing remains below d but what borders on it. */
  ghost predicate FirstOf(remain: iset<int>, d: Elem) {
    forall x, y :: x in remain && x <= y < d.lo ==> y in remain
  }

  /** Nothing remains above d but what borders on it. */
  ghost predicate LastOf(remain: iset<int>, d: Elem) {
    forall x, y :: x in remain && d.hi < y <= x ==> y in remain
  }

  /**
   When the last range deleted, d, leaves the cache sorted, in terms of the numbers that
   remain: d was a whole range; or nothing remains below d but what borders on it, and d
   was cut off at one end or nothing remains above it but what borders on it.
   */
  ghost predicate OrderKept(remain: iset<int>, d: Elem) {
    || (d.lo - 1 !in remain && d.hi + 1 !in remain)
    || (FirstOf(remain, d) && (d.lo - 1 !in remain || d.hi + 1 !in remain || LastOf(remain, d)))
  }

  /** The numbers around the range p that d is taken from. */
  lemma Surroundings(rest: seq<Elem>, d: Elem, p: Elem, remain: iset<int>)
    requires AllSpaced(rest + [p], 1) && Ranges(rest + [p]) && Within(d, p) && d.lo <= d.hi
    requires remain == Den(rest) + Den(Leftover(d, p))
    ensures p.lo - 1 !in remain && p.hi + 1 !in remain
    ensures !Same(d, p) ==> forall y :: p.lo <= y <= p.hi ==> (y in remain <==> !d.Has(y))
    ensures forall y :: y in remain && !p.Has(y) ==> y in Den(rest)
    ensures forall f :: f in rest ==> f.lo in remain && (f.hi + 1 < p.lo || p.hi + 1 < f.lo)
  {
    hide Pieces, AllSpaced;
    RestSpaced(rest, p, 1);
    LeftoverDen(d, p);
    forall f | f in rest ensures f.lo in Den(rest) && (f.hi + 1 < p.lo || p.hi + 1 < f.lo) {
      assert f in rest + [p] && f.Has(f.lo);
    }
  }

  lemma LeftoverDen(d: Elem, p: Elem)
    requires Within(d, p) && d.lo <= d.hi
    ensures forall y :: y in Den(Leftover(d, p)) ==> p.Has(y)
    ensures !Same(d, p) ==> forall y :: p.lo <= y <= p.hi ==> (y in Den(Leftover(d, p)) <==> !d.Has(y))
  {
    DenPieces(d, p);
    DenOne(d);
    DenOne(p);
  }

  lemma OrderInNumbers(rest: seq<Elem>, d: Elem, p: Elem, remain: iset<int>)
    requires AllSpaced(rest + [p], 1) && Ranges(rest + [p]) && Within(d, p) && d.lo <= d.hi
    requires remain == Den(rest) + Den(Leftover(d, p))
    ensures KeepsOrder(rest, d, p) <==> OrderKept(remain, d)
  {
    hide AllSpaced, Leftover, FirstOf, LastOf, Den;
    Surroundings(rest, d, p, remain);
    if !Same(d, p) {
      Below(rest, d, p, remain);
      Above(rest, d, p, remain);
      assert d.lo - 1 in remain <==> p.lo < d.lo;
      assert d.hi + 1 in remain <==> d.hi < p.hi;
      assert rest != [] ==> rest[0] in rest;
    }
  }

  /** Nothing but the rest of p remains below d exactly if p is the first range. */
  lemma Below(rest: seq<Elem>, d: Elem, p: Elem, remain: iset<int>)
    requires Within(d, p) && d.lo <= d.hi && p.lo - 1 !in remain && Ranges(rest)
    requires forall y :: p.lo <= y <= p.hi ==> (y in remain <==> !d.Has(y))
    requires forall y :: y in remain && !p.Has(y) ==> y in Den(rest)
    requires forall f :: f in rest ==> f.lo in remain && (f.hi + 1 < p.lo || p.hi + 1 < f.lo)
    ensures (forall f :: f in rest ==> p.lo <= f.lo) <==> FirstOf(remain, d)
  {
    if forall f :: f in rest ==> p.lo <= f.lo {
      forall x, y | x in remain && x <= y < d.lo ensures y in remain {
        assert p.Has(x) && p.Has(y);
      }
    } else {
      var f :| f in rest && f.lo < p.lo;
      assert f.lo in remain && f.lo <= p.lo - 1 < d.lo;
    }
  }

  /** Nothing but the rest of p remains above d exactly if p is the last range. */
  lemma Above(rest: seq<Elem>, d: Elem, p: Elem, remain: iset<int>)
    requires Within(d, p) && d.lo <= d.hi && p.hi + 1 !in remain && Ranges(rest)
    requires forall y :: p.lo <= y <= p.hi ==> (y in remain <==> !d.Has(y))
    requires forall y :: y in remain && !p.Has(y) ==> y in Den(rest)
    requires forall f :: f in rest ==> f.lo in remain && (f.hi + 1 < p.lo || p.hi + 1 < f.lo)
    ensures (forall f :: f in rest ==> f.lo < p.lo) <==> LastOf(remain, d)
  {
    if forall f :: f in rest ==> f.lo < p.lo {
      forall x, y | x in remain && d.hi < y <= x ensures y in remain {
        assert p.Has(x) && p.Has(y);
      }
    } else {
      var f :| f in rest && p.lo <= f.lo;
      assert f.lo in remain && d.hi < p.hi + 1 <= f.lo;
    }
  }

  /** What holds of the order after the deletion of d. */
  ghost predicate Placing(automerge: bool, e: seq<Elem>, d: Elem) {
    if automerge then Sorted(e) <==> OrderKept(Den(e), d) else Sorted(e)
  }

  lemma PlacingStep(automerge: bool, e: seq<Elem>, e': seq<Elem>, rest: seq<Elem>, d: Elem, p: Elem)
    requires Ranges(e) && AllSpaced(e, if automerge then 1 else 0) && d.lo <= d.hi
    requires Within(d, p) && (automerge || Same(d, p))
    requires multiset(e) == multiset(rest + [p]) && multiset(e') == multiset(rest + Leftover(d, p))
    requires Sorted(e') <==> KeepsOrder(rest, d, p)
    ensures Placing(automerge, e', d)
  {
    if automerge {
      hide Den, AllSpaced, Ranges, Leftover, KeepsOrder, OrderKept, Sorted;
      SpacedPermute(e, rest + [p], 1);
      DenPermute(e, rest + [p]);
      DenPermute(rest + Leftover(d, p), e');
      DenConcat(rest, Leftover(d, p));
      OrderInNumbers(rest, d, p, Den(e'));
    }
  }

  /** d is the highest of the ranges that the numbers to delete fall into. */
  ghost predicate LastRun(d: Elem, numbers: iset<int>) {
    && d.lo <= d.hi && d.lo - 1 !in numbers
    && (forall x :: d.Has(x) ==> x in numbers) && forall x :: x in numbers ==> x <= d.hi
  }

  lemma LastRunIs(ds: seq<Elem>, d: Elem)
    requires Separated(ds, 1) && Ranges(ds) && LastRun(d, Den(ds))
    ensures ds != [] && Same(d, ds[|ds| - 1])
  {
    assert d.Has(d.hi) && d.hi in Den(ds);
    var f :| f in ds && f.Has(d.hi);
    hide Den;
    Maximal(ds, f);
    assert f.Has(f.hi);
    assert f.lo < d.lo ==> f.Has(d.lo - 1);
    assert d.lo < f.lo ==> d.Has(f.lo - 1);
    var n := |ds| - 1;
    assert ds[n] in ds && ds[n].Has(ds[n].hi);
    Maximal(ds, ds[n]);
    LastHighest(ds, f);
  }

  lemma LastHighest(ds: seq<Elem>, f: Elem)
    requires Separated(ds, 1) && Ranges(ds) && f in ds
    ensures f == ds[|ds| - 1] || f.hi < ds[|ds| - 1].hi
  {
    var i :| 0 <= i < |ds| && ds[i] == f;
    assert ds[|ds| - 1] in ds;
    assert i < |ds| - 1 ==> ds[i].hi + 1 < ds[|ds| - 1].lo;
  }

  lemma {:induction false} MarkedSorted(s: seq<Elem>)
    ensures Sorted(Marked(s)) <==> Sorted(s)
  {
    var m := Marked(s);
    if Sorted(m) {
      forall i, j | 0 <= i < j < |s| ensures s[i].lo <= s[j].lo {
        assert m[i].lo <= m[j].lo;
      }
    }
  }

  lemma MarkedDen(s: seq<Elem>, gap: int)
    requires Ranges(s) && AllSpaced(s, gap) && NoRemove(s)
    ensures var m := Marked(s);
            Den(m) == Den(s) && AllKernel(m) && Ranges(m) && AllSpaced(m, gap) && NoRemove(m)
  {
    DenMarked(s);
  }

  /** The ranges that the kernel does not know are copied for the add command and flagged as known. */
  method Commit(cache: SetExpr) returns (add: seq<Elem>)
    modifies cache`exprs
    ensures cache.exprs == Marked(old(cache.exprs)) && add == Added(old(cache.exprs))
  {
    hide Marked, Added, Mark;
    ghost var s := cache.exprs;
    add := [];
    Nothing();
    assert s[..0] == [];
    var i := 0;
    while i < |cache.exprs|
      invariant 0 <= i <= |cache.exprs| == |s|
      invariant add == Added(s[..i]) && cache.exprs == Marked(s[..i]) + s[i..]
      invariant |Marked(s[..i])| == i
    {
      var e := cache.exprs[i];
      assert e == s[i] && s[..i + 1] == s[..i] + [e];
      Snoc(s[..i], e);
      Marking(e);
      if !e.kernel {
        add := add + [e];
        cache.exprs := cache.exprs[i := e.(kernel := true)];
      }
      assert cache.exprs == Marked(s[..i]) + [Mark(e)] + s[i + 1..];
      i := i + 1;
    }
    assert s[..i] == s;
  }

  /** automerge_delete: the ranges to delete are sorted and merged; what that purges is thrown away. */
  method AutomergeDelete(init: SetExpr)
    requires Ranges(init.exprs)
    modifies init
    ensures Ranges(init.exprs) && Separated(init.exprs, 1) && Den(init.exprs) == old(Den(init.exprs))
  {
    hide Den, ListSort, Ranges, Separated, MergeFrom;
    ghost var given := init.exprs;
    var purge := new SetExpr();
    init.exprs := ListSort(init.exprs, Low);
    ListSortCorrect(given, Low);
    DenPermute(given, init.exprs);
    SortedEither(init.exprs);
    SetelemAutomerge(init, purge, true);
  }

  lemma EarlierSpaced(ds: seq<Elem>, n: nat)
    requires Separated(ds, 1) && Ranges(ds) && n < |ds|
    ensures forall g :: g in ds[..n] ==> Spaced(g, ds[n], 1) && g.lo <= g.hi
  {
    forall g | g in ds[..n] ensures Spaced(g, ds[n], 1) && g.lo <= g.hi {
      var i :| 0 <= i < n && ds[i] == g;
      assert ds[i] in ds;
    }
  }

  lemma RangeAt(ds: seq<Elem>, n: nat)
    requires Ranges(ds) && n < |ds|
    ensures ds[n].lo <= ds[n].hi && ds[..n + 1] == ds[..n] + [ds[n]] && ds[..n] + [ds[n]] + ds[n + 1..] == ds
  {
    assert ds[n] in ds;
  }

  /** The deletions of one command, in turn; on a failure the rest is handed back. */
  method DeleteAll(cache: SetExpr, init: SetExpr, automerge: bool, ghost known: seq<Elem>) returns (ok: bool)
    requires cache != init && cache.exprs == known && Ranges(init.exprs) && (automerge ==> Separated(init.exprs, 1))
    requires Ranges(known) && NoRemove(known) && AllSpaced(known, if automerge then 1 else 0)
    modifies cache`exprs, init`exprs
    ensures ok == CanDelete(automerge, known, old(init.exprs))
    ensures ok ==> Deleting(automerge, cache.exprs, known, old(init.exprs), init.exprs)
    ensures ok ==> if old(init.exprs) == [] then cache.exprs == known
                   else Placing(automerge, cache.exprs, old(init.exprs[|init.exprs| - 1]))
  {
    hide Deleting, CanDelete, Den, AllSpaced, Separated, Leftover, Ranges, Placing, KeepsOrder, Sorted;
    ghost var ds := init.exprs;
    var delList := init.exprs;
    init.exprs := [];
    ghost var n := 0;
    assert ds[..0] == [];
    DeletingStart(automerge, known);
    while delList != []
      invariant n <= |ds| && delList == ds[n..]
      invariant Deleting(automerge, cache.exprs, known, ds[..n], init.exprs)
      invariant if n == 0 then cache.exprs == known else Placing(automerge, cache.exprs, ds[n - 1])
      decreases |ds| - n
    {
      var d := delList[0];
      delList := delList[1..];
      ghost var e, purged := cache.exprs, init.exprs;
      DeletingSpaced(automerge, e, known, ds[..n], purged);
      RangeAt(ds, n);
      if automerge {
        EarlierSpaced(ds, n);
      }
      var deleted;
      ghost var p, rest;
      deleted, p, rest := DeleteOne(cache, d, init, automerge);
      if !deleted {
        DeletingRefused(automerge, e, known, ds[..n], purged, d, ds[n + 1..]);
        init.exprs := delList + init.exprs;
        return false;
      }
      DeletingStep(automerge, e, known, ds[..n], purged, d, p, rest, cache.exprs);
      PlacingStep(automerge, e, cache.exprs, rest, d, p);
      n := n + 1;
    }
    assert ds[..n] == ds;
    DeletingDone(automerge, cache.exprs, known, ds, init.exprs);
    return true;
  }

  /** What a successful run leaves: the cache after Commit, the purge list and the add list. */
  lemma Deleted(automerge: bool, e: seq<Elem>, known: seq<Elem>, ds: seq<Elem>, purged: seq<Elem>)
    requires Deleting(automerge, e, known, ds, purged) && Ranges(ds) && Ranges(known)
    requires AllSpaced(known, if automerge then 1 else 0)
    ensures var m, add := Marked(e), Added(e);
            && multiset(purged) <= Kernels(known) && NoKernel(add)
            && multiset(m) == Kernels(known) - multiset(purged) + multiset(Marked(add))
            && AllKernel(m) && Ranges(m) && NoRemove(m) && AllSpaced(m, if automerge then 1 else 0)
            && Den(m) == Den(known) - Den(Effective(known, ds)) && Den(e) == Den(m)
            && (automerge ==>
                  forall k :: k in known && k.kernel ==> (k in purged <==> exists x :: k.Has(x) && x in Den(ds)))
            && (!automerge ==> purged == Keys(Effective(known, ds)))
  {
    hide Den, Marked, Added, Kernels, Fresh, Ranges, AllSpaced, AllKernel, NoKernel, NoRemove, Effective;
    AddedFacts(e);
    DeletingDone(automerge, e, known, ds, purged);
    DeletingSpaced(automerge, e, known, ds, purged);
    MarkedDen(e, if automerge then 1 else 0);
    assert multiset(known) - multiset(purged) == multiset(known) - multiset(purged);
    assert Kernels(known) - multiset(purged) == Kernels(e);
    assert AllSpaced(known, 0) by { SpacedEither(known, automerge); }
    DeletedDen(automerge, e, known, ds, purged);
    if automerge {
      PurgedExactly(e, known, ds, purged);
    }
  }

  lemma SpacedEither(known: seq<Elem>, automerge: bool)
    requires AllSpaced(known, if automerge then 1 else 0)
    ensures AllSpaced(known, 0)
  {
  }

  /** The order of the cache, once the elements are flagged. */
  lemma OrderAfter(automerge: bool, e: seq<Elem>, ds: seq<Elem>)
    requires ds != [] && Placing(automerge, e, ds[|ds| - 1])
    ensures !automerge ==> Sorted(Marked(e))
    ensures automerge && Separated(ds, 1) && Ranges(ds) ==>
              forall d :: LastRun(d, Den(ds)) ==> (Sorted(Marked(e)) <==> OrderKept(Den(e), d))
  {
    hide Sorted, Den, LastRun, Separated, Ranges, Marked;
    MarkedSorted(e);
    if automerge && Separated(ds, 1) && Ranges(ds) {
      forall d | LastRun(d, Den(ds)) ensures Sorted(Marked(e)) <==> OrderKept(Den(e), d) {
        LastRunIs(ds, d);
      }
    }
  }

  lemma CanDeleteSame(automerge: bool, known: seq<Elem>, given: seq<Elem>, ds: seq<Elem>)
    requires if automerge then Den(ds) == Den(given) else ds == given
    ensures CanDelete(automerge, known, given) == CanDelete(automerge, known, ds)
  {
  }

  lemma NothingToDelete(given: seq<Elem>, ds: seq<Elem>)
    requires Den(given) == Den(ds) && Ranges(ds)
    ensures given == [] ==> ds == []
    ensures ds == [] ==> forall d :: !LastRun(d, Den(given))
  {
    if ds != [] {
      assert ds[0] in ds && ds[0].Has(ds[0].lo) && ds[0].lo in Den(ds);
    } else {
      assert forall d: Elem :: d.lo <= d.hi ==> d.Has(d.lo);
    }
  }

  lemma NothingAdded(e: seq<Elem>, known: seq<Elem>, ds: seq<Elem>, purged: seq<Elem>)
    requires Deleting(false, e, known, ds, purged) && AllKernel(known)
    ensures Added(e) == [] && Effective(known, ds) == ds
  {
    hide Effective;
    EffectiveMembers(known, ds);
    SameMembers(e + purged, known);
    forall f | f in e ensures f.kernel {
      assert f in e + purged;
    }
    KernelsOfUniform(e);
    AddedFacts(e);
  }

  /**
   set_delete.  With auto-merge it succeeds exactly if every number to delete is in the
   set, and without exactly if every range to delete is one of its elements.  Then init
   holds the kernel elements that have to go, add what has to be added, and the cache
   what the set will contain.  Ranges equal to a cached one without the kernel's flag
   are not deleted.  The cache is left sorted without auto-merge, and with it exactly if
   the last deletion was not one that puts a piece out of place.
   */
  method SetDelete(set_: IntervalSet, init: SetExpr) returns (ok: bool, add: seq<Elem>)
    requires set_.existing != null && init !in set_.Footprint() && Ranges(init.exprs)
    requires Ranges(set_.Known()) && NoRemove(set_.Known()) && AllSpaced(set_.Known(), Gap(set_))
    modifies init, set_.Footprint()
    ensures ok <==> old(CanDelete(set_.automerge, set_.Known(), init.exprs))
    ensures ok ==> && multiset(init.exprs) <= old(Kernels(set_.Known())) && NoKernel(add)
                   && multiset(set_.Known()) ==
                      old(Kernels(set_.Known())) - multiset(init.exprs) + multiset(Marked(add))
                   && Ranges(set_.Known()) && AllKernel(set_.Known()) && NoRemove(set_.Known())
                     && AllSpaced(set_.Known(), Gap(set_))
    ensures ok && old(init.exprs) == [] ==> (Sorted(set_.Known()) <==> old(Sorted(set_.Known())))
    ensures ok && set_.automerge ==>
              var known, numbers := old(set_.Known()), old(Den(init.exprs));
              && Den(set_.Known()) == Den(known) - (numbers - Left(known, numbers))
              && (Den(set_.Known()) == Den(known) - numbers <==> forall q :: q in known ==> !Stuck(q, numbers))
              && (forall k :: k in known && k.kernel ==> (k in init.exprs <==> exists x :: k.Has(x) && x in numbers))
              && (forall d :: LastRun(d, numbers) ==> (Sorted(set_.Known()) <==> OrderKept(Den(set_.Known()), d)))
    ensures ok && !set_.automerge ==>
              var known, ds := old(set_.Known()), old(init.exprs);
              && init.exprs == Keys(Effective(known, ds)) && Den(set_.Known()) == Den(known) - Den(Effective(known, ds))
              && (AllKernel(known) ==> add == [] && init.exprs == Keys(ds))
              && (ds != [] ==> Sorted(set_.Known()))
  {
    hide Deleting, Den, Ranges, AllSpaced, AllKernel, NoKernel, NoRemove, Separated, Keys, Marked, Added, Kernels,
      Effective;
    hide Stuck, Left, LastRun, OrderKept, FirstOf, LastOf, Sorted, Placing, CanDelete;
    ghost var known, given := set_.Known(), init.exprs;
    if set_.automerge {
      AutomergeDelete(init);
    }
    if set_.existing.init == null {
      set_.existing.init := new SetExpr();
    }
    var cache := set_.existing.init;
    ghost var ds := init.exprs;
    CanDeleteSame(set_.automerge, known, given, ds);
    add := [];
    ok := DeleteAll(cache, init, set_.automerge, known);
    if ok {
      ghost var e := cache.exprs;
      Deleted(set_.automerge, e, known, ds, init.exprs);
      if set_.automerge {
        EffectiveDen(known, ds);
        NothingToDelete(given, ds);
      } else {
        if AllKernel(known) {
          NothingAdded(e, known, ds, init.exprs);
        }
      }
      MarkedSorted(e);
      if ds != [] {
        OrderAfter(set_.automerge, e, ds);
      }
      add := Commit(cache);
    }
  }

  /** Deleting 5 from a cache that lists 5 without the kernel's flag: accepted, but 5 stays and is added again. */
  lemma IgnoredDeletion()
    ensures var s := [Elem(5, 5, false, false), Elem(5, 5, false, true)];
            Accepts(s, 1, true) && After(s, 1) == [Elem(5, 5, false, false)]
              && Added(After(s, 1)) == [Elem(5, 5, false, false)]
  {
    assert Added([]) == [];
  }
}
