/** set_automerge: adding elements to an interval set whose kernel contents are known. */
module SetAutomerge {
  import opened Intervals
  import opened Automerge
  import opened Permutations
  import opened Sorting
  import opened Remainders
  import opened Displacement

  /** The set as the cache knows it: its elements, if any were ever listed. */
  class ExistingSet {
    var init: SetExpr?
    var errors: bool
  }

  class IntervalSet {
    var automerge: bool
    var isMap: bool
    var existing: ExistingSet?

    /** The cached elements take part: they exist and are free of errors. */
    ghost predicate Cached()
      reads this, existing
    {
      existing != null && !existing.errors
    }

    /** The elements that the cache lists, those of the kernel and those of a set defined in the same batch. */
    ghost function Known(): seq<Elem>
      reads this, existing, if existing == null then {} else {existing.init}
    {
      if existing == null || existing.init == null then [] else existing.init.exprs
    }

    ghost function Footprint(): set<object>
      reads this, existing
    {
      if existing == null then {} else if existing.init == null then {existing} else {existing, existing.init}
    }
  }

  function Low(e: Elem): int {
    e.lo
  }

  /** set_sort_splice: the new elements are sorted and the cached ones are merged into them. */
  method SetSortSplice(init: SetExpr, set_: IntervalSet)
    requires init !in set_.Footprint()
    modifies init`exprs, set_.Footprint()
    ensures !set_.Cached() ==> init.exprs == ListSort(old(init.exprs), Low) && set_.Known() == old(set_.Known())
    ensures set_.Cached() ==> && set_.existing.init != null && set_.existing.init != init && set_.Known() == []
                              && init.exprs == Splice(old(set_.Known()), ListSort(old(init.exprs), Low), Low)
    ensures set_.existing != null ==> set_.existing.errors == old(set_.existing.errors)
    ensures set_.existing != null && old(set_.existing.init) != null ==> set_.existing.init == old(set_.existing.init)
    ensures set_.existing != null && old(set_.existing.init) == null && set_.existing.init != null ==>
              fresh(set_.existing.init)
  {
    init.exprs := ListSort(init.exprs, Low);
    var existing := set_.existing;
    if existing == null || existing.errors {
      return;
    }
    if existing.init != null {
      init.exprs := Splice(existing.init.exprs, init.exprs, Low);
      existing.init.exprs := [];
    } else {
      existing.init := new SetExpr();
    }
  }

  /** The element as the cache keeps it: flagged EXPR_F_KERNEL. */
  function Mark(e: Elem): Elem {
    e.(kernel := true)
  }

  function Marked(s: seq<Elem>): seq<Elem> {
    seq(|s|, i requires 0 <= i < |s| => Mark(s[i]))
  }

  /** The elements that are not in the kernel yet. */
  function Added(s: seq<Elem>): seq<Elem> {
    if s == [] then [] else Added(s[..|s| - 1]) + if s[|s| - 1].kernel then [] else [s[|s| - 1]]
  }

  /** Sorting the new elements and merging: nothing is lost, and the result is sorted exactly if the cache was. */
  lemma SplicedFacts(known: seq<Elem>, init: seq<Elem>)
    requires NoKernel(init)
    ensures var l := Splice(known, ListSort(init, Low), Low);
            && multiset(l) == multiset(known + init)
            && (Ranges(known) && Ranges(init) ==> Ranges(l))
            && Den(l) == Den(known) + Den(init) && (Sorted(l) <==> Sorted(known))
            && Kernels(l) == Kernels(known) && Fresh(l) == Fresh(known) + |init|
            && (forall gap :: KernelSpaced(known, gap) ==> KernelSpaced(l, gap))
  {
    hide Splice, ListSort, Den, Kernels, Fresh, KernelSpaced;
    var sorted := ListSort(init, Low);
    var l := Splice(known, sorted, Low);
    ListSortCorrect(init, Low);
    SpliceElements(known, sorted, Low);
    SortedEither(known);
    SortedEither(l);
    if Sorted(known) {
      SpliceSorts(known, sorted, Low);
    }
    if Sorted(l) {
      SpliceKeepsOrder(known, sorted, Low);
    }
    assert multiset(l) == multiset(known + init);
    DenPermute(known + init, l);
    DenConcat(known, init);
    CountsPermute(known + init, l);
    KernelsConcat(known, init);
    KernelsOfUniform(init);
    forall gap | KernelSpaced(known, gap) ensures KernelSpaced(l, gap) {
      SpacedAppend(known, init, gap);
      KernelSpacedPermute(known + init, l, gap);
    }
  }

  lemma SortedEither(l: seq<Elem>)
    ensures SortedBy(l, Low) <==> Sorted(l)
  {
    if SortedBy(l, Low) {
      forall i, j | 0 <= i < j < |l| ensures l[i].lo <= l[j].lo {
        assert Low(l[i]) <= Low(l[j]);
      }
    }
  }

  lemma SpacedAppend(known: seq<Elem>, init: seq<Elem>, gap: int)
    requires KernelSpaced(known, gap) && NoKernel(init)
    ensures KernelSpaced(known + init, gap)
  {
    var l := known + init;
    forall i, j | 0 <= i < j < |l| && l[i].kernel && l[j].kernel ensures Spaced(l[i], l[j], gap) {
      assert l[j] in init || (l[j] == known[j] && l[i] == known[i]);
    }
  }

  lemma Snoc(s: seq<Elem>, e: Elem)
    ensures Marked(s + [e]) == Marked(s) + [Mark(e)]
    ensures Added(s + [e]) == if e.kernel then Added(s) else Added(s) + [e]
    ensures e.kernel ==> Mark(e) == e
  {
    assert (s + [e])[..|s|] == s;
  }

  lemma Nothing()
    ensures Marked([]) == [] && Added([]) == [] && Kernels([]) == multiset{} && Fresh([]) == 0
  {
  }

  lemma {:induction false} AddedFacts(s: seq<Elem>)
    ensures NoKernel(Added(s)) && |Added(s)| == Fresh(s)
    ensures multiset(Marked(s)) == Kernels(s) + multiset(Marked(Added(s)))
  {
    hide Marked, Added, Kernels, Fresh, Mark;
    if s == [] {
      Nothing();
    } else {
      var t, e := s[..|s| - 1], s[|s| - 1];
      AddedFacts(t);
      assert s == t + [e];
      Snoc(t, e);
      Snoc(Added(t), e);
      KernelsConcat(t, [e]);
      KernelsOne(e);
    }
  }

  lemma DenMarked(s: seq<Elem>)
    ensures Den(Marked(s)) == Den(s)
  {
    var m := Marked(s);
    forall x ensures x in Den(m) <==> x in Den(s) {
      if x in Den(m) {
        var i :| 0 <= i < |m| && m[i].Has(x);
        assert s[i] in s && s[i].Has(x);
      }
      if x in Den(s) {
        var i :| 0 <= i < |s| && s[i].Has(x);
        assert m[i] in m && m[i].Has(x);
      }
    }
  }

  lemma MarkedFacts(s: seq<Elem>, gap: int)
    requires Separated(s, gap) && Ranges(s)
    ensures Den(Marked(s)) == Den(s) && AllKernel(Marked(s)) && Separated(Marked(s), gap) && Ranges(Marked(s))
  {
    DenMarked(s);
  }

  /** The first `done` survivors were handed over, i of them new. */
  ghost predicate Publishing(all: seq<Elem>, done: nat, i: nat, left: seq<Elem>, cache: seq<Elem>, base: seq<Elem>) {
    && done <= |all| && i == |Added(all[..done])|
    && left == Added(all[..done]) + all[done..] && cache == base + Marked(all[..done])
  }

  lemma PublishingStep(all: seq<Elem>, done: nat, i: nat, left: seq<Elem>, cache: seq<Elem>, base: seq<Elem>)
    requires Publishing(all, done, i, left, cache, base) && i < |left|
    ensures left[i].kernel ==> Publishing(all, done + 1, i, left[..i] + left[i + 1..], cache + [left[i]], base)
    ensures !left[i].kernel ==> Publishing(all, done + 1, i + 1, left, cache + [Mark(left[i])], base)
    ensures done < |all|
  {
    hide Added, Marked, Mark;
    var e := left[i];
    assert done < |all| && e == all[done];
    assert all[..done + 1] == all[..done] + [e];
    Snoc(all[..done], e);
    var rest := all[done + 1..];
    assert all[done..] == [e] + rest;
    assert left[..i] + left[i + 1..] == Added(all[..done]) + rest;
    assert left == (Added(all[..done]) + [e]) + rest;
  }

  lemma PublishingEnds(all: seq<Elem>, done: nat, i: nat, left: seq<Elem>, cache: seq<Elem>, base: seq<Elem>)
    requires Publishing(all, done, i, left, cache, base)
    ensures i <= |left| && (i == |left| ==> left == Added(all) && cache == base + Marked(all))
  {
    if i == |left| {
      assert done == |all| && all[..done] == all;
      assert all[done..] == [];
    }
  }

  lemma PublishingStart(all: seq<Elem>, base: seq<Elem>)
    ensures Publishing(all, 0, 0, all, base, base)
  {
    assert all[..0] == [] && Marked([]) == [];
  }

  /** Handing the survivors to the cache: kernel elements move there, the others are copied. */
  method Publish(init: SetExpr, cache: SetExpr)
    requires init != cache
    modifies init`exprs, cache`exprs
    ensures init.exprs == Added(old(init.exprs))
    ensures cache.exprs == old(cache.exprs) + Marked(old(init.exprs))
  {
    hide Publishing, Mark;
    ghost var all, base := init.exprs, cache.exprs;
    ghost var done: nat := 0;
    var i := 0;
    PublishingStart(all, base);
    while i < |init.exprs|
      invariant 0 <= i <= |init.exprs| && done <= |all|
      invariant Publishing(all, done, i, init.exprs, cache.exprs, base)
      decreases |all| - done
    {
      var e := init.exprs[i];
      PublishingStep(all, done, i, init.exprs, cache.exprs, base);
      if e.kernel {
        init.exprs := init.exprs[..i] + init.exprs[i + 1..];
        cache.exprs := cache.exprs + [e];
      } else {
        Marking(e);
        cache.exprs := cache.exprs + [e.(kernel := true)];
        i := i + 1;
      }
      done := done + 1;
      PublishingEnds(all, done, i, init.exprs, cache.exprs, base);
    }
    PublishingEnds(all, done, i, init.exprs, cache.exprs, base);
  }

  lemma Marking(e: Elem)
    ensures Mark(e) == e.(kernel := true)
  {
  }

  /** Without cached elements nothing is purged and every survivor is new. */
  lemma {:induction false} NothingCached(left: seq<Elem>, purged: seq<Elem>)
    requires Kernels(left) + multiset(purged) == multiset{}
    ensures purged == [] && Added(left) == left
  {
    assert |Kernels(left)| + |multiset(purged)| == |Kernels(left) + multiset(purged)|;
    if left != [] {
      var t, e := left[..|left| - 1], left[|left| - 1];
      assert Kernels(left) == multiset{};
      assert e.kernel ==> e in Kernels(left);
      NothingCached(t, purged);
      assert left == t + [e];
    }
  }

  ghost function Gap(set_: IntervalSet): int
    reads set_
  {
    if set_.automerge then 1 else 0
  }

  ghost function Listed(purge: SetExpr?): seq<Elem>
    reads purge
  {
    if purge == null then [] else purge.exprs
  }

  /** A list that set_automerge may rely on: the cache is sorted, and the kernel's ranges in it keep their distance. */
  ghost predicate Tidy(known: seq<Elem>, gap: int) {
    Ranges(known) && Sorted(known) && KernelSpaced(known, gap)
  }

  /** The list that is merged: the new elements, and those of a usable cache. */
  function Spliced(known: seq<Elem>, init: seq<Elem>): seq<Elem> {
    Splice(known, ListSort(init, Low), Low)
  }

  /**
   The merge of a tidy cache and new elements, in terms of the two: the cache that comes
   of it, the elements to add and those purged.
   */
  ghost predicate Merged(known: seq<Elem>, new_: seq<Elem>, m: Scan, gap: int) {
    && NoKernel(Added(m.list)) && |Added(m.list)| == |new_| + Fresh(known) - m.dropped
    && Den(Marked(m.list)) == Den(known) + Den(new_)
    && AllKernel(Marked(m.list)) && Separated(Marked(m.list), gap) && Ranges(Marked(m.list))
    && multiset(m.purged) <= Kernels(known)
    && multiset(Marked(m.list)) == Kernels(known) - multiset(m.purged) + multiset(Marked(Added(m.list)))
  }

  lemma Survivors(known: seq<Elem>, new_: seq<Elem>, automerge: bool)
    requires Tidy(known, if automerge then 1 else 0) && Ranges(new_) && NoKernel(new_)
    ensures Merged(known, new_, MergeFrom(Spliced(known, new_), 0, automerge), if automerge then 1 else 0)
  {
    hide Den, Kernels, Fresh, Ranges, Sorted, KernelSpaced, Separated, Marked, Added, AllKernel, NoKernel, Splice,
      ListSort;
    hide MergeFrom;
    var gap, l := if automerge then 1 else 0, Spliced(known, new_);
    var m := MergeFrom(l, 0, automerge);
    SplicedFacts(known, new_);
    MergeCorrect(l, automerge);
    AddedFacts(m.list);
    MarkedFacts(m.list, gap);
    assert Kernels(known) - multiset(m.purged) == Kernels(m.list);
  }

  /** Without cached elements nothing is purged, and what is left is what the set will contain. */
  lemma NoneCached(new_: seq<Elem>, automerge: bool)
    requires Ranges(new_) && NoKernel(new_)
    ensures var m := MergeFrom(ListSort(new_, Low), 0, automerge);
            && m.purged == [] && Added(m.list) == m.list && NoKernel(m.list) && |m.list| == |new_| - m.dropped
            && Den(m.list) == Den(new_) && Separated(m.list, if automerge then 1 else 0) && Ranges(m.list)
            && (!automerge ==> forall x :: Together(m.list, x) <==> Together(new_, x))
  {
    hide Den, Kernels, Fresh, Ranges, Sorted, KernelSpaced, Separated, Marked, Added, AllKernel, NoKernel, ListSort;
    hide MergeFrom;
    var l := ListSort(new_, Low);
    var m, gap := MergeFrom(l, 0, automerge), if automerge then 1 else 0;
    NoElements(gap);
    SplicedFacts([], new_);
    MergeCorrect(l, automerge);
    NothingCached(m.list, m.purged);
    AddedFacts(m.list);
    SplicedDisplaces([], new_, automerge);
    assert Spliced([], new_) == l && [] + new_ == new_;
  }

  // ----- what an addition purges and adds

  /** The cached elements come before new ones with the same left bound. */
  lemma {:induction false} SpliceKernelFirst(known: seq<Elem>, h: seq<Elem>)
    requires Sorted(known) && AllSpaced(known, 0) && Ranges(known) && SortedBy(h, Low) && NoKernel(h)
    ensures KernelFirst(Splice(known, h, Low))
    decreases |known| + |h|
  {
    var l := Splice(known, h, Low);
    if known == [] {
    } else if h == [] || known[0].lo <= h[0].lo {
      SpliceStep(known, h, Low);
      SpacedTail(known);
      SpliceKernelFirst(known[1..], h);
      FirstBelow(known[0], known[1..], h);
      FirstOfAll(known[0], Splice(known[1..], h, Low));
    } else {
      SpliceStep(known, h, Low);
      SortedTail(h[0], h[1..], Low) by { assert h == [h[0]] + h[1..]; }
      SpliceKernelFirst(known, h[1..]);
      assert forall k :: k in known ==> known[0].lo <= k.lo;
      FirstBelow(h[0], known, h[1..]);
      FirstOfAll(h[0], Splice(known, h[1..], Low));
    }
  }

  lemma FirstBelow(x: Elem, known: seq<Elem>, h: seq<Elem>)
    requires NoKernel(h) && forall k :: k in known ==> x.lo < k.lo
    ensures forall e :: e in Splice(known, h, Low) && e.kernel ==> x.lo < e.lo
  {
    SpliceElements(known, h, Low);
    forall e | e in Splice(known, h, Low) && e.kernel ensures x.lo < e.lo {
      FromEither(e, Splice(known, h, Low), known, h);
    }
  }

  lemma SpacedTail(known: seq<Elem>)
    requires known != [] && Sorted(known) && AllSpaced(known, 0) && Ranges(known)
    ensures Sorted(known[1..]) && AllSpaced(known[1..], 0) && Ranges(known[1..])
    ensures forall k :: k in known[1..] ==> known[0].lo < k.lo
  {
    forall i, j | 0 <= i < j < |known[1..]| ensures Spaced(known[1..][i], known[1..][j], 0) {
      assert Spaced(known[i + 1], known[j + 1], 0);
    }
    forall k | k in known[1..] ensures known[0].lo < k.lo {
      var i :| 0 <= i < |known[1..]| && known[1..][i] == k;
      assert Spaced(known[0], known[i + 1], 0) && known[0] in known && known[i + 1] in known;
    }
  }

  lemma FirstOfAll(x: Elem, s: seq<Elem>)
    requires KernelFirst(s) && forall e :: e in s && e.kernel ==> x.lo < e.lo
    ensures KernelFirst([x] + s)
  {
    var t := [x] + s;
    forall j, k | 0 <= j < k < |t| && t[k].kernel ensures t[j].lo < t[k].lo {
      assert t[k] == s[k - 1] && s[k - 1] in s;
      if j > 0 {
        assert s[j - 1].lo < s[k - 1].lo;
      }
    }
  }

  lemma SplicedMembers(known: seq<Elem>, new_: seq<Elem>)
    ensures forall e :: e in Spliced(known, new_) <==> e in known || e in new_
    ensures SortedBy(ListSort(new_, Low), Low) && (NoKernel(new_) ==> NoKernel(ListSort(new_, Low)))
  {
    var sorted := ListSort(new_, Low);
    ListSortCorrect(new_, Low);
    SpliceElements(known, sorted, Low);
    assert multiset(Spliced(known, new_)) == multiset(known + new_);
    SameMembers(Spliced(known, new_), known + new_);
    SameMembers(sorted, new_);
  }

  /** A kernel element is purged exactly if a new range comes to it and reaches outside it. */
  ghost predicate PurgesDisplaced(known: seq<Elem>, new_: seq<Elem>, purged: seq<Elem>, gap: int) {
    forall k :: k in known && k.kernel ==>
      (k in purged <==> exists n :: n in new_ && Displaces(n, k, gap))
  }

  /** Every range, cached or new, lies in one of the list; without auto-merge nothing else is joined. */
  ghost predicate Gathers(known: seq<Elem>, new_: seq<Elem>, list: seq<Elem>, gap: int) {
    && (forall n :: n in known || n in new_ ==> Inside(n, list))
    && (gap == 0 ==> forall x :: Together(list, x) <==> Together(known + new_, x))
  }

  lemma TogetherMembers(s: seq<Elem>, t: seq<Elem>)
    requires forall e :: e in s <==> e in t
    ensures forall x :: Together(s, x) <==> Together(t, x)
  {
  }

  lemma SplicedDisplaces(known: seq<Elem>, new_: seq<Elem>, automerge: bool)
    requires Tidy(known, if automerge then 1 else 0) && AllSpaced(known, if automerge then 1 else 0)
    requires Ranges(new_) && NoKernel(new_)
    ensures var m, gap := MergeFrom(Spliced(known, new_), 0, automerge), if automerge then 1 else 0;
            PurgesDisplaced(known, new_, m.purged, gap) && Gathers(known, new_, m.list, gap)
  {
    var gap, l := if automerge then 1 else 0, Spliced(known, new_);
    SplicedReady(known, new_, gap);
    hide *;
    var m := MergeFrom(l, 0, automerge);
    MergeDisplaces(l, automerge);
    forall k | k in known && k.kernel ensures k in m.purged <==> exists n :: n in new_ && Displaces(n, k, gap) {
      OnlyNewDisplace(known, k, gap);
    }
    GathersIs(l, known, new_, m.list, gap);
    PurgesIs(known, new_, m.purged, gap);
  }

  lemma SplicedReady(known: seq<Elem>, new_: seq<Elem>, gap: int)
    requires Tidy(known, gap) && AllSpaced(known, gap) && 0 <= gap && Ranges(new_) && NoKernel(new_)
    ensures var l := Spliced(known, new_);
            && Ranges(l) && Sorted(l) && KernelFirst(l) && KernelSpaced(l, gap)
            && forall e :: e in l <==> e in known || e in new_
  {
    SpacedEither(known, gap);
    SplicedFacts(known, new_);
    SplicedMembers(known, new_);
    hide Splice, ListSort, KernelFirst;
    SpliceKernelFirst(known, ListSort(new_, Low));
  }

  lemma OnlyNewDisplace(known: seq<Elem>, k: Elem, gap: int)
    requires AllSpaced(known, gap) && k in known && 0 <= gap
    ensures forall n :: n in known ==> !Displaces(n, k, gap)
  {
    forall n | n in known ensures !Displaces(n, k, gap) {
      if n != k {
        SpacedMembers(known, n, k, gap);
      }
    }
  }

  lemma GathersIs(l: seq<Elem>, known: seq<Elem>, new_: seq<Elem>, list: seq<Elem>, gap: int)
    requires forall e :: e in l <==> e in known || e in new_
    requires forall n :: n in l ==> Inside(n, list)
    requires gap == 0 ==> forall x :: Together(list, x) <==> Together(l, x)
    ensures Gathers(known, new_, list, gap)
  {
    hide Inside, Together;
    TogetherMembers(l, known + new_);
  }

  lemma PurgesIs(known: seq<Elem>, new_: seq<Elem>, purged: seq<Elem>, gap: int)
    requires forall k :: k in known && k.kernel ==> (k in purged <==> exists n :: n in new_ && Displaces(n, k, gap))
    ensures PurgesDisplaced(known, new_, purged, gap)
  {
  }

  lemma SpacedEither(known: seq<Elem>, gap: int)
    requires AllSpaced(known, gap) && 0 <= gap
    ensures AllSpaced(known, 0)
  {
  }

  /** In an auto-merge set, a kernel element is purged exactly if a number next to it is in the set, old or new. */
  lemma PurgedNextTo(known: seq<Elem>, new_: seq<Elem>, purged: seq<Elem>, k: Elem)
    requires PurgesDisplaced(known, new_, purged, 1) && k in known && k.kernel
    requires Ranges(known) && Ranges(new_) && AllSpaced(known, 1)
    ensures var all := Den(known) + Den(new_); k in purged <==> k.lo - 1 in all || k.hi + 1 in all
  {
    forall n | n in known ensures !n.Has(k.lo - 1) && !n.Has(k.hi + 1) {
      if n != k {
        SpacedMembers(known, n, k, 1);
      }
    }
    if n :| n in new_ && Displaces(n, k, 1) {
      assert n.Has(k.lo - 1) || n.Has(k.hi + 1);
    }
    if k.lo - 1 in Den(new_) {
      var n :| n in new_ && n.Has(k.lo - 1);
      assert Displaces(n, k, 1);
    }
    if k.hi + 1 in Den(new_) {
      var n :| n in new_ && n.Has(k.hi + 1);
      assert Displaces(n, k, 1);
    }
  }

  /** Nothing is purged and nothing added exactly if every new range lies in a cached one. */
  lemma NothingNew(known: seq<Elem>, new_: seq<Elem>, list: seq<Elem>, purged: seq<Elem>, gap: int)
    requires AllKernel(known) && AllSpaced(known, gap) && 0 <= gap && Ranges(new_) && Ranges(known)
    requires PurgesDisplaced(known, new_, purged, gap) && Gathers(known, new_, list, gap)
    requires Kernels(list) + multiset(purged) == multiset(known) && Den(list) == Den(known) + Den(new_)
    requires Separated(list, gap) && Ranges(list)
    ensures purged == [] && Added(list) == [] <==> forall n :: n in new_ ==> Inside(n, known)
  {
    hide Added, Kernels, Den, Displaces, Inside;
    if purged == [] && Added(list) == [] {
      AddedFacts(list);
      assert Fresh(list) == 0;
      NoFresh(list);
      KernelsOfUniform(list);
      assert multiset(list) == multiset(known);
      SameMembers(list, known);
      forall n | n in new_ ensures Inside(n, known) {
        assert Inside(n, list);
        InsideMembers(n, list, known);
      }
    } else if forall n :: n in new_ ==> Inside(n, known) {
      forall n, k | n in new_ && k in known ensures !Displaces(n, k, gap) {
        InsideOnly(known, n, k, gap);
      }
      SameMembers(purged, purged);
      SameMembers(known, known);
      NonePurged(known, purged);
      AllOld(known, new_, list, gap);
      assert false;
    }
  }

  lemma NonePurged(known: seq<Elem>, purged: seq<Elem>)
    requires multiset(purged) <= multiset(known) && forall k :: k in known ==> k !in purged
    ensures purged == []
  {
    var m := multiset(purged);
    forall k: Elem ensures m[k] == 0 {
      assert m[k] <= multiset(known)[k];
      assert k in known <==> k in multiset(known);
      assert k in purged <==> k in m;
    }
    assert m == multiset{};
    assert |purged| == |m|;
  }

  lemma InsideMembers(n: Elem, s: seq<Elem>, t: seq<Elem>)
    requires Inside(n, s) && forall e :: e in s ==> e in t
    ensures Inside(n, t)
  {
  }

  lemma InsideOnly(known: seq<Elem>, n: Elem, k: Elem, gap: int)
    requires AllSpaced(known, gap) && Inside(n, known) && k in known && n.lo <= n.hi && 0 <= gap
    ensures !Displaces(n, k, gap)
  {
    var f :| f in known && Within(n, f);
    if f != k {
      SpacedMembers(known, f, k, gap);
    }
  }

  lemma AllOld(known: seq<Elem>, new_: seq<Elem>, list: seq<Elem>, gap: int)
    requires AllKernel(known) && Kernels(list) == multiset(known) && Den(list) == Den(known) + Den(new_)
    requires Separated(list, gap) && Ranges(list) && 0 <= gap
    requires forall n :: n in new_ ==> Inside(n, known)
    ensures Added(list) == []
  {
    hide Kernels, Added;
    forall f | f in list ensures f.kernel {
      assert f.Has(f.lo) && f.lo in Den(list);
      var k :| k in known && k.Has(f.lo) by { OldCovers(known, new_, f.lo); }
      assert k in Kernels(list);
      KernelsCount(list, k);
      SameMembers(list, list);
      SeparatedOnly(list, f, k, f.lo, gap);
    }
    NoFresh(list);
    AddedFacts(list);
  }

  lemma OldCovers(known: seq<Elem>, new_: seq<Elem>, x: int)
    requires x in Den(known) + Den(new_) && forall n :: n in new_ ==> Inside(n, known)
    ensures exists k :: k in known && k.Has(x)
  {
    if x in Den(new_) {
      var n :| n in new_ && n.Has(x);
      assert Inside(n, known);
      var f :| f in known && Within(n, f);
      assert f.Has(x);
    }
  }

  lemma SeparatedOnly(list: seq<Elem>, f: Elem, k: Elem, x: int, gap: int)
    requires Separated(list, gap) && f in list && k in list && f.Has(x) && k.Has(x) && 0 <= gap
    ensures f == k
  {
    SeparatedSpaced(list, gap);
    if f != k {
      SpacedMembers(list, f, k, gap);
    }
  }

  /** Ranges of an auto-merge set keep so far apart that what they cover together, one of them covers. */
  lemma CoveredInside(known: seq<Elem>, new_: seq<Elem>)
    requires AllSpaced(known, 1) && Ranges(known) && Ranges(new_)
    ensures (forall n :: n in new_ ==> Inside(n, known)) <==> Den(new_) <= Den(known)
  {
    if Den(new_) <= Den(known) {
      forall n | n in new_ ensures Inside(n, known) {
        assert n.Has(n.lo) && n.lo in Den(new_);
        var k :| k in known && k.Has(n.lo);
        if k.hi < n.hi {
          assert n.Has(k.hi + 1) && k.hi + 1 in Den(new_);
          var f :| f in known && f.Has(k.hi + 1);
          SpacedMembers(known, f, k, 1);
        }
        assert Within(n, k);
      }
    } else {
      var x :| x in Den(new_) && x !in Den(known);
      if forall n :: n in new_ ==> Inside(n, known) {
        OldCovers(known, new_, x);
      }
    }
  }

  /**
   Which kernel elements an addition purges and what it adds, in terms of cached and new
   ranges.  Purged is exactly what a new range overlaps, or in an auto-merge set touches,
   and reaches outside of.  With auto-merge the ranges left are the maximal ones; without,
   two neighbouring numbers are in one range exactly if they were in one before.  Nothing
   happens exactly if every new range lies in a cached one.
   */
  ghost predicate AddsExactly(known: seq<Elem>, new_: seq<Elem>, cache: seq<Elem>, added: seq<Elem>, purged: seq<Elem>,
                              automerge: bool) {
    var gap, all := if automerge then 1 else 0, Den(known) + Den(new_);
    && Separated(cache, gap) && Separated(added, gap)
    && (forall k :: k in known && k.kernel ==>
          (k in purged <==>
            exists n :: n in new_ && n.lo <= k.hi + gap && k.lo <= n.hi + gap && (n.lo < k.lo || k.hi < n.hi)))
    && (automerge ==> forall k :: k in known && k.kernel ==> (k in purged <==> k.lo - 1 in all || k.hi + 1 in all))
    && (!automerge ==> forall x :: Together(cache, x) <==> Together(known + new_, x))
    && (AllKernel(known) ==>
          (purged == [] && added == [] <==>
            forall n :: n in new_ ==> (exists k :: k in known && k.lo <= n.lo && n.hi <= k.hi)))
    && (AllKernel(known) && automerge ==> (purged == [] && added == [] <==> Den(new_) <= Den(known)))
  }

  lemma Addition(known: seq<Elem>, new_: seq<Elem>, automerge: bool)
    requires Tidy(known, if automerge then 1 else 0) && AllSpaced(known, if automerge then 1 else 0)
    requires Ranges(new_) && NoKernel(new_)
    ensures var m := MergeFrom(Spliced(known, new_), 0, automerge);
            AddsExactly(known, new_, Marked(m.list), Added(m.list), m.purged, automerge)
  {
    var gap, l := if automerge then 1 else 0, Spliced(known, new_);
    assert l == Splice(known, ListSort(new_, Low), Low);
    hide *;
    var m := MergeFrom(l, 0, automerge);
    TidyParts(known, gap);
    SplicedFacts(known, new_);
    MergeCorrect(l, automerge);
    SplicedDisplaces(known, new_, automerge);
    MarkedFacts(m.list, gap);
    AddedSeparated(m.list, gap);
    KernelsOfUniform(known);
    TogetherMarked(m.list);
    if automerge {
      forall k | k in known && k.kernel
        ensures k in m.purged <==> k.lo - 1 in Den(known) + Den(new_) || k.hi + 1 in Den(known) + Den(new_)
      {
        PurgedNextTo(known, new_, m.purged, k);
      }
      CoveredInside(known, new_);
    }
    if AllKernel(known) {
      NothingNew(known, new_, m.list, m.purged, gap);
    }
    AdditionIs(known, new_, m.list, m.purged, automerge);
  }

  lemma TidyParts(known: seq<Elem>, gap: int)
    requires Tidy(known, gap)
    ensures Ranges(known) && Sorted(known) && KernelSpaced(known, gap)
  {
  }

  lemma TogetherMarked(s: seq<Elem>)
    ensures forall x :: Together(Marked(s), x) <==> Together(s, x)
  {
    var m := Marked(s);
    forall x ensures Together(m, x) <==> Together(s, x) {
      if Together(m, x) {
        var i :| 0 <= i < |m| && m[i].lo <= x && x + 1 <= m[i].hi;
        assert s[i] in s;
      }
      if Together(s, x) {
        var i :| 0 <= i < |s| && s[i].lo <= x && x + 1 <= s[i].hi;
        assert m[i] in m;
      }
    }
  }

  lemma AdditionIs(known: seq<Elem>, new_: seq<Elem>, list: seq<Elem>, purged: seq<Elem>, automerge: bool)
    requires var gap, all := if automerge then 1 else 0, Den(known) + Den(new_);
             && Separated(Marked(list), gap) && Separated(Added(list), gap)
             && PurgesDisplaced(known, new_, purged, gap) && Gathers(known, new_, list, gap)
             && (automerge ==>
                   forall k :: k in known && k.kernel ==> (k in purged <==> k.lo - 1 in all || k.hi + 1 in all))
             && (forall x :: Together(Marked(list), x) <==> Together(list, x))
             && (AllKernel(known) ==>
                   (purged == [] && Added(list) == [] <==> forall n :: n in new_ ==> Inside(n, known)))
             && (automerge ==> ((forall n :: n in new_ ==> Inside(n, known)) <==> Den(new_) <= Den(known)))
    ensures AddsExactly(known, new_, Marked(list), Added(list), purged, automerge)
  {
    hide Den, Marked, Added, Together, AllKernel, Separated;
    assert (forall n :: n in new_ ==> Inside(n, known))
      <==> forall n :: n in new_ ==> exists k :: k in known && k.lo <= n.lo && n.hi <= k.hi;
  }

  lemma {:induction false} AddedSeparated(s: seq<Elem>, gap: int)
    requires Separated(s, gap)
    ensures Separated(Added(s), gap) && forall e :: e in Added(s) ==> e in s
  {
    if s != [] {
      var t, e := s[..|s| - 1], s[|s| - 1];
      AddedSeparated(t, gap);
      forall i | 0 <= i < |Added(t)| ensures Added(t)[i].hi + gap < e.lo {
        assert Added(t)[i] in Added(t);
        var j :| 0 <= j < |t| && t[j] == Added(t)[i];
        assert s[j].hi + gap < s[|s| - 1].lo;
      }
    }
  }

  lemma NoElements(gap: int)
    ensures Ranges([]) && Sorted([]) && KernelSpaced([], gap) && Den([]) == iset{} && Kernels([]) == multiset{}
            && Fresh([]) == 0
    ensures forall s: seq<Elem> :: [] + s == s && Splice([], s, Low) == s
  {
  }

  lemma NoFresh(s: seq<Elem>)
    ensures Fresh(s) == 0 <==> AllKernel(s)
  {
    if s != [] {
      var t, e := s[..|s| - 1], s[|s| - 1];
      NoFresh(t);
      assert s == t + [e];
    }
  }

  /**
   set_automerge.  Whatever the cache lists, the elements to add, the purge list and the
   cache are those of one scan over the spliced list.  If the cache is tidy, it ends with
   what the set will contain, sorted and without overlap, and the elements to delete and
   to add turn the kernel's elements into exactly that list; the element count is right
   exactly if all cached elements are the kernel's.  The result is null when no delete
   command is needed.
   */
  method SetAutomerge(set_: IntervalSet, init: SetExpr) returns (purge: SetExpr?)
    requires init !in set_.Footprint() && Ranges(init.exprs) && NoKernel(init.exprs) && init.size == |init.exprs|
    requires set_.existing != null && set_.existing.errors ==> set_.existing.init != null
    modifies init, set_.Footprint()
    ensures purge != null ==> fresh(purge) && purge.exprs != []
    ensures set_.isMap ==>
              && purge == null && init.exprs == ListSort(old(init.exprs), Low) && init.size == old(init.size)
              && set_.Known() == old(set_.Known())
    ensures !set_.isMap && !set_.Cached() ==>
              var m := MergeFrom(ListSort(old(init.exprs), Low), 0, set_.automerge);
              && purge == null && init.exprs == m.list && init.size == |init.exprs|
              && NoKernel(init.exprs) && Den(init.exprs) == old(Den(init.exprs)) && Separated(init.exprs, Gap(set_))
              && set_.Known() == old(set_.Known()) + (if set_.existing == null then [] else Marked(init.exprs))
              && (!set_.automerge ==> forall x :: Together(init.exprs, x) <==> Together(old(init.exprs), x))
    ensures !set_.isMap && set_.Cached() ==>
              var m := MergeFrom(Spliced(old(set_.Known()), old(init.exprs)), 0, set_.automerge);
              && init.exprs == Added(m.list) && init.size == old(init.size) - m.dropped
              && Listed(purge) == m.purged && set_.Known() == Marked(m.list)
    ensures !set_.isMap && set_.Cached() && old(Tidy(set_.Known(), Gap(set_))) ==>
              && Den(set_.Known()) == old(Den(set_.Known())) + old(Den(init.exprs))
              && Ranges(set_.Known()) && AllKernel(set_.Known()) && Separated(set_.Known(), Gap(set_))
              && NoKernel(init.exprs)
              && multiset(Listed(purge)) <= old(Kernels(set_.Known()))
              && multiset(set_.Known()) ==
                 old(Kernels(set_.Known())) - multiset(Listed(purge)) + multiset(Marked(init.exprs))
              && init.size == |init.exprs| - old(Fresh(set_.Known()))
              && (init.size == |init.exprs| <==> old(AllKernel(set_.Known())))
    ensures !set_.isMap && set_.Cached() && old(Tidy(set_.Known(), Gap(set_)) && AllSpaced(set_.Known(), Gap(set_))) ==>
              AddsExactly(old(set_.Known()), old(init.exprs), set_.Known(), init.exprs, Listed(purge), set_.automerge)
  {
    hide Den, Kernels, Fresh, Ranges, Sorted, Separated, Marked, Added, AllKernel, NoKernel, Splice, ListSort,
      MergeFrom;
    hide Tidy, Spliced, AllSpaced, AddsExactly, Together;
    if set_.isMap {
      init.exprs := ListSort(init.exprs, Low);
      return null;
    }
    ghost var known, new_ := set_.Known(), init.exprs;
    ghost var m := MergeFrom(if set_.Cached() then Spliced(known, new_) else ListSort(new_, Low), 0, set_.automerge);
    if set_.Cached() && Tidy(known, Gap(set_)) {
      Survivors(known, new_, set_.automerge);
      NoFresh(known);
      if AllSpaced(known, Gap(set_)) {
        Addition(known, new_, set_.automerge);
      }
    } else if !set_.Cached() {
      NoneCached(new_, set_.automerge);
    }
    NoElements(0);
    var purged := MergeAndPublish(set_, init);
    purge := if purged.exprs == [] then null else purged;
  }

  /** set_automerge for sets that are not maps: splice, merge, and hand the survivors to the cache, if there is one. */
  method MergeAndPublish(set_: IntervalSet, init: SetExpr) returns (purged: SetExpr)
    requires init !in set_.Footprint()
    requires set_.existing != null && set_.existing.errors ==> set_.existing.init != null
    modifies init, set_.Footprint()
    ensures fresh(purged) && set_.Cached() == old(set_.Cached())
    ensures var l := old(if set_.Cached() then Spliced(set_.Known(), init.exprs) else ListSort(init.exprs, Low));
            var m := MergeFrom(l, 0, set_.automerge);
            && init.exprs == (if set_.existing == null then m.list else Added(m.list))
            && purged.exprs == m.purged && init.size == old(init.size) - m.dropped
            && set_.Known() == (if set_.Cached() then [] else old(set_.Known()))
                               + if set_.existing == null then [] else Marked(m.list)
  {
    hide Marked, Added, Splice, ListSort, MergeFrom, Ranges, Sorted, Den, Separated, KernelSpaced, Fresh, Kernels;
    ghost var known, l := set_.Known(),
                          if set_.Cached() then Spliced(set_.Known(), init.exprs) else ListSort(init.exprs, Low);
    ghost var m := MergeFrom(l, 0, set_.automerge);
    purged := new SetExpr();
    SetSortSplice(init, set_);
    assert init.exprs == l && set_.Known() == if set_.Cached() then [] else known;
    SetelemAutomerge(init, purged, set_.automerge);
    assert [] + m.purged == m.purged && known + [] == known;
    assert init.exprs == m.list && purged.exprs == m.purged;
    hide Spliced;
    if set_.existing != null {
      Publish(init, set_.existing.init);
    }
  }

  /**
   A cached element without the kernel's flag is added again but not counted: [1, 1] cached
   and [2, 2] added leave one element, count 0.
   */
  lemma UncountedElement()
    ensures var m := MergeFrom(Spliced([Elem(1, 1, false, false)], [Elem(2, 2, false, false)]), 0, true);
            |Added(m.list)| == 1 && 1 - m.dropped == 0
  {
    var a, b := Elem(1, 1, false, false), Elem(2, 2, false, false);
    assert Spliced([a], [b]) == [a, b];
    assert Joined([a, b], 1, Union(a, b)) == [Elem(1, 2, false, false)];
    assert MergeFrom([Elem(1, 2, false, false)], 1, true) == Scan([Elem(1, 2, false, false)], [], 0);
  }
}
