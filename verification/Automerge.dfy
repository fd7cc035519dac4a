/** setelem_automerge: merging a sorted list of old and new ranges in place. */
module Automerge {
  import opened Intervals

  /** purge_elem: a kernel element is moved to the list of elements to delete. */
  method PurgeElem(purge: SetExpr, e: Elem)
    modifies purge`exprs
    ensures purge.exprs == old(purge.exprs) + [e]
  {
    purge.exprs := purge.exprs + [e];
  }

  /** The list with elements i - 1 and i replaced by m. */
  function Joined(s: seq<Elem>, i: nat, m: Elem): seq<Elem>
    requires 0 < i < |s|
  {
    s[..i - 1] + [m] + s[i + 1..]
  }

  /**
   What the loop keeps: the list stays sorted and denotes what it did, and the first
   i elements are separated.
   */
  ghost predicate Merging(l: seq<Elem>, i: nat, orig: seq<Elem>, gap: int) {
    && i <= |l| && Ranges(l) && Sorted(l) && Den(l) == Den(orig)
    && Separated(l[..i], gap)
  }

  /**
   Element conservation: every counted element that left the list was uncounted, and
   as long as kernel elements are spaced, each of them is either still in the list,
   unchanged, or in the purge list.
   */
  ghost predicate Conserves(l: seq<Elem>, size: int, purged: seq<Elem>, orig: seq<Elem>, size0: int, gap: int) {
    && size - Fresh(l) == size0 - Fresh(orig)
    && (KernelSpaced(orig, gap) ==> KernelSpaced(l, gap) && Kernels(l) + multiset(purged) == Kernels(orig))
  }

  /** m is the union of two ranges that overlap or touch. */
  ghost predicate IsUnion(m: Elem, p: Elem, e: Elem) {
    && p.lo <= e.lo <= p.hi + 1
    && m.lo == p.lo && m.hi == if p.hi < e.hi then e.hi else p.hi
  }

  lemma MergingJoin(l: seq<Elem>, i: nat, orig: seq<Elem>, gap: int, m: Elem)
    requires 0 < i < |l| && Merging(l, i, orig, gap) && IsUnion(m, l[i - 1], l[i])
    ensures Merging(Joined(l, i, m), i, orig, gap)
  {
    hide Den;
    var l' := Joined(l, i, m);
    JoinDen(l, i, m);
    assert l'[..i] == l[..i - 1] + [m];
    forall e | e in l' ensures e.lo <= e.hi {
      assert e == m || e in l;
      assert l[i - 1] in l;
    }
    assert Separated(l'[..i], gap) by {
      forall j, k | 0 <= j < k < i ensures l'[j].hi + gap < l'[k].lo {
        assert l[..i][j].hi + gap < l[..i][k].lo;
      }
    }
  }

  lemma JoinDen(l: seq<Elem>, i: nat, m: Elem)
    requires 0 < i < |l| && IsUnion(m, l[i - 1], l[i]) && Ranges(l)
    ensures Den(Joined(l, i, m)) == Den(l)
  {
    hide Den;
    var pre, post := l[..i - 1], l[i + 1..];
    assert l == pre + ([l[i - 1]] + [l[i]]) + post;
    assert l[i - 1] in l && l[i] in l;
    DenConcat(pre, [m]);
    DenConcat(pre + [m], post);
    DenConcat(pre, [l[i - 1]] + [l[i]]);
    DenConcat(pre + ([l[i - 1]] + [l[i]]), post);
    DenConcat([l[i - 1]], [l[i]]);
    DenOne(m);
    DenOne(l[i - 1]);
    DenOne(l[i]);
  }

  lemma MergingNext(l: seq<Elem>, i: nat, orig: seq<Elem>, gap: int)
    requires i < |l| && Merging(l, i, orig, gap) && (i > 0 ==> l[i - 1].hi + gap < l[i].lo)
    ensures Merging(l, i + 1, orig, gap)
  {
    var done := l[..i + 1];
    forall j, k | 0 <= j < k < |done| ensures done[j].hi + gap < done[k].lo {
      if k < i {
        assert l[..i][j].hi + gap < l[..i][k].lo;
      } else if j < i - 1 {
        assert l[..i][j].hi + gap < l[..i][i - 1].lo;
      }
    }
  }

  /** The counts of a list around two neighbours. */
  lemma CountAround(l: seq<Elem>, i: nat, m: Elem)
    requires 0 < i < |l|
    ensures var p, e := l[i - 1], l[i];
            && Fresh(l) - Fresh(Joined(l, i, m)) == Fresh([p]) + Fresh([e]) - Fresh([m])
            && Kernels(l) + Kernels([m]) == Kernels(Joined(l, i, m)) + Kernels([p]) + Kernels([e])
  {
    hide Fresh, Kernels;
    var pre, post := l[..i - 1], l[i + 1..];
    assert l == pre + ([l[i - 1]] + [l[i]]) + post;
    KernelsConcat(pre, [m]);
    KernelsConcat(pre + [m], post);
    KernelsConcat(pre, [l[i - 1]] + [l[i]]);
    KernelsConcat(pre + ([l[i - 1]] + [l[i]]), post);
    KernelsConcat([l[i - 1]], [l[i]]);
  }

  /** Replacing two neighbours by one that is the kept one of them, or not in the kernel. */
  lemma SpacedJoin(l: seq<Elem>, i: nat, m: Elem, gap: int)
    requires 0 < i < |l| && KernelSpaced(l, gap) && (m.kernel ==> m == l[i - 1] || m == l[i])
    ensures KernelSpaced(Joined(l, i, m), gap)
  {
    var l' := Joined(l, i, m);
    forall j, k | 0 <= j < k < |l'| && l'[j].kernel && l'[k].kernel ensures Spaced(l'[j], l'[k], gap) {
      var at := if m == l[i - 1] then i - 1 else i;
      var j', k' := if j < i - 1 then j else if j == i - 1 then at else j + 1,
                    if k < i - 1 then k else if k == i - 1 then at else k + 1;
      assert l[j'] == l'[j] && l[k'] == l'[k];
    }
  }

  lemma MultisetCancel<T>(a: multiset<T>, b: multiset<T>, c: multiset<T>)
    requires a + c == b + c
    ensures a == b
  {
    forall x: T ensures a[x] == b[x] {
      assert (a + c)[x] == (b + c)[x];
    }
  }

  /** What m and the purged elements have to make up for in the place of p and e. */
  ghost predicate Balances(p: Elem, e: Elem, m: Elem, gone: seq<Elem>, gap: int) {
    && Fresh([p]) + Fresh([e]) - Fresh([m]) == (if gone == [] then 1 else 0)
    && ((p.kernel && e.kernel && !Spaced(p, e, gap))
        || (multiset(gone) + Kernels([m]) == Kernels([p]) + Kernels([e]) && (m.kernel ==> m == p || m == e)))
  }

  /** Conservation across one replacement. */
  lemma ConservesJoin(l: seq<Elem>, i: nat, m: Elem, gone: seq<Elem>, size: int, purged: seq<Elem>, orig: seq<Elem>,
                      size0: int, gap: int)
    requires 0 < i < |l| && Conserves(l, size, purged, orig, size0, gap) && Balances(l[i - 1], l[i], m, gone, gap)
    ensures Conserves(Joined(l, i, m), if gone == [] then size - 1 else size, purged + gone, orig, size0, gap)
  {
    hide Fresh, Kernels, Spaced;
    var p, e := l[i - 1], l[i];
    CountAround(l, i, m);
    if KernelSpaced(orig, gap) {
      assert p.kernel && e.kernel ==> Spaced(p, e, gap);
      SpacedJoin(l, i, m, gap);
      var joined := Kernels(Joined(l, i, m));
      assert joined + Kernels([p]) + Kernels([e]) == joined + (Kernels([p]) + Kernels([e]));
      assert joined + (multiset(gone) + Kernels([m])) == joined + multiset(gone) + Kernels([m]);
      MultisetCancel(Kernels(l), joined + multiset(gone), Kernels([m]));
    }
  }

  /** The first case of the scan: e lies inside the element before it. */
  predicate Covered(p: Elem, e: Elem) {
    p.lo <= e.lo && p.hi >= e.hi
  }

  /** The second case: e begins before p ends, or in an auto-merge set right after. */
  predicate Meets(p: Elem, e: Elem, automerge: bool) {
    e.lo <= p.hi || (automerge && e.lo - p.hi == 1)
  }

  /** The element that takes the place of p and e. */
  function Union(p: Elem, e: Elem): Elem {
    if p.kernel then e.(lo := p.lo) else p.(hi := e.hi)
  }

  function PurgedBy(p: Elem, e: Elem): seq<Elem> {
    if p.kernel then [p] else Gone(e)
  }

  /** A finished scan: the list, the kernel elements purged, and how many others were dropped and uncounted. */
  datatype Scan = Scan(list: seq<Elem>, purged: seq<Elem>, dropped: nat) {
    function After(gone: seq<Elem>): Scan {
      Scan(list, gone + purged, if gone == [] then dropped + 1 else dropped)
    }
  }

  /** What the scan makes of any list, sorted or not, when it stands at element i. */
  function MergeFrom(l: seq<Elem>, i: nat, automerge: bool): Scan
    requires i <= |l|
    decreases |l|, |l| - i
  {
    if i == |l| then Scan(l, [], 0)
    else if i > 0 && Covered(l[i - 1], l[i]) then
      MergeFrom(Joined(l, i, l[i - 1]), i, automerge).After(Gone(l[i]))
    else if i > 0 && Meets(l[i - 1], l[i], automerge) then
      MergeFrom(Joined(l, i, Union(l[i - 1], l[i])), i, automerge).After(PurgedBy(l[i - 1], l[i]))
    else MergeFrom(l, i + 1, automerge)
  }

  lemma BalancedCover(p: Elem, e: Elem, gap: int)
    ensures Balances(p, e, p, Gone(e), gap)
  {
    hide Fresh, Kernels;
    KernelsOne(p);
    KernelsOne(e);
  }

  lemma BalancedUnion(p: Elem, e: Elem, automerge: bool)
    requires p.lo <= e.lo <= e.hi && !Covered(p, e) && Meets(p, e, automerge) && p.lo <= p.hi
    ensures Balances(p, e, Union(p, e), PurgedBy(p, e), if automerge then 1 else 0)
  {
    hide Fresh, Kernels;
    KernelsOne(p);
    KernelsOne(e);
    KernelsOne(Union(p, e));
  }

  /** A covered element goes: numbers, order, count and kernel elements are kept. */
  lemma CoveredKeeps(l: seq<Elem>, i: nat, size: int, purged: seq<Elem>, orig: seq<Elem>, size0: int, gap: int)
    requires 0 < i < |l| && Covered(l[i - 1], l[i])
    requires Merging(l, i, orig, gap) && Conserves(l, size, purged, orig, size0, gap)
    ensures Merging(Joined(l, i, l[i - 1]), i, orig, gap)
    ensures Conserves(Joined(l, i, l[i - 1]), if l[i].kernel then size else size - 1, purged + Gone(l[i]), orig,
                      size0, gap)
  {
    hide Merging, Conserves, Balances;
    Bounds(l, i, orig, gap);
    MergingJoin(l, i, orig, gap, l[i - 1]);
    BalancedCover(l[i - 1], l[i], gap);
    ConservesJoin(l, i, l[i - 1], Gone(l[i]), size, purged, orig, size0, gap);
  }

  /** Two ranges that overlap or touch become one; of the kernel's elements, the one that goes is purged unchanged. */
  lemma UnionKeeps(l: seq<Elem>, i: nat, automerge: bool, size: int, purged: seq<Elem>, orig: seq<Elem>, size0: int,
                   gap: int)
    requires 0 < i < |l| && !Covered(l[i - 1], l[i]) && Meets(l[i - 1], l[i], automerge)
    requires gap == (if automerge then 1 else 0)
    requires Merging(l, i, orig, gap) && Conserves(l, size, purged, orig, size0, gap)
    ensures var p, e := l[i - 1], l[i];
            && Merging(Joined(l, i, Union(p, e)), i, orig, gap)
            && Conserves(Joined(l, i, Union(p, e)), if PurgedBy(p, e) == [] then size - 1 else size,
                         purged + PurgedBy(p, e), orig, size0, gap)
  {
    hide Merging, Conserves, Balances;
    var p, e := l[i - 1], l[i];
    Bounds(l, i, orig, gap);
    MergingJoin(l, i, orig, gap, Union(p, e));
    BalancedUnion(p, e, automerge);
    ConservesJoin(l, i, Union(p, e), PurgedBy(p, e), size, purged, orig, size0, gap);
  }

  lemma Bounds(l: seq<Elem>, i: nat, orig: seq<Elem>, gap: int)
    requires 0 < i < |l| && Merging(l, i, orig, gap)
    ensures l[i - 1].lo <= l[i].lo <= l[i].hi && l[i - 1].lo <= l[i - 1].hi
  {
    assert l[i] in l && l[i - 1] in l;
  }

  /** From any point of the scan on, a sorted list is merged as it should be. */
  lemma {:induction false} MergeFromKeeps(l: seq<Elem>, i: nat, automerge: bool, size: int, purged: seq<Elem>,
                                          orig: seq<Elem>, size0: int, gap: int)
    requires i <= |l| && gap == (if automerge then 1 else 0)
    requires Merging(l, i, orig, gap) && Conserves(l, size, purged, orig, size0, gap)
    ensures var m := MergeFrom(l, i, automerge);
            && Merging(m.list, |m.list|, orig, gap)
            && Conserves(m.list, size - m.dropped, purged + m.purged, orig, size0, gap)
    decreases |l|, |l| - i
  {
    hide Merging, Conserves, Covered, Meets, Union, PurgedBy, Gone;
    if i == |l| {
      assert purged + [] == purged;
    } else if i > 0 && Covered(l[i - 1], l[i]) {
      var l', gone := Joined(l, i, l[i - 1]), Gone(l[i]);
      CoveredKeeps(l, i, size, purged, orig, size0, gap);
      GoneOne(l[i]);
      MergeFromKeeps(l', i, automerge, if gone == [] then size - 1 else size, purged + gone, orig, size0, gap);
      assert purged + gone + MergeFrom(l', i, automerge).purged == purged + (gone + MergeFrom(l', i, automerge).purged);
    } else if i > 0 && Meets(l[i - 1], l[i], automerge) {
      var l', gone := Joined(l, i, Union(l[i - 1], l[i])), PurgedBy(l[i - 1], l[i]);
      UnionKeeps(l, i, automerge, size, purged, orig, size0, gap);
      MergeFromKeeps(l', i, automerge, if gone == [] then size - 1 else size, purged + gone, orig, size0, gap);
      assert purged + gone + MergeFrom(l', i, automerge).purged == purged + (gone + MergeFrom(l', i, automerge).purged);
    } else {
      if i > 0 {
        Apart(l[i - 1], l[i], automerge);
        Bounds(l, i, orig, gap);
      }
      MergingNext(l, i, orig, gap);
      MergeFromKeeps(l, i + 1, automerge, size, purged, orig, size0, gap);
    }
  }

  lemma GoneOne(e: Elem)
    ensures Gone(e) == [] <==> !e.kernel
  {
  }

  lemma Apart(p: Elem, e: Elem, automerge: bool)
    requires !Meets(p, e, automerge)
    ensures p.hi + (if automerge then 1 else 0) < e.lo
  {
  }

  /**
   Merging a sorted list: the numbers it denotes stay the same, neighbours end further
   apart than gap, the elements uncounted are those dropped, and kernel elements that
   are spaced to begin with stay as they are or are purged as they were.
   */
  lemma MergeCorrect(l: seq<Elem>, automerge: bool)
    requires Ranges(l) && Sorted(l)
    ensures var m, gap := MergeFrom(l, 0, automerge), if automerge then 1 else 0;
            && Ranges(m.list) && Den(m.list) == Den(l) && Separated(m.list, gap)
            && Fresh(m.list) == Fresh(l) - m.dropped
            && (KernelSpaced(l, gap) ==>
                  KernelSpaced(m.list, gap) && Kernels(m.list) + multiset(m.purged) == Kernels(l))
  {
    var m, gap := MergeFrom(l, 0, automerge), if automerge then 1 else 0;
    hide MergeFrom;
    MergingStart(l, 0, gap);
    MergeFromKeeps(l, 0, automerge, 0, [], l, 0, gap);
    assert [] + m.purged == m.purged;
    MergingEnd(m.list, l, gap);
    ConservesEnd(m.list, 0 - m.dropped, m.purged, l, 0, gap);
  }

  /** remove_overlapping_range: element i lies inside the one before it. */
  method RemoveOverlappingRange(init: SetExpr, purge: SetExpr, i: nat)
    requires init != purge && 0 < i < |init.exprs|
    modifies init, purge
    ensures init.exprs == Joined(old(init.exprs), i, old(init.exprs[i - 1]))
    ensures purge.exprs == old(purge.exprs) + Gone(old(init.exprs[i]))
    ensures init.size == old(init.size) - if old(init.exprs[i].kernel) then 0 else 1
  {
    var e := init.exprs[i];
    if e.kernel {
      PurgeElem(purge, e);
    } else {
      init.size := init.size - 1;
    }
    init.exprs := init.exprs[..i] + init.exprs[i + 1..];
  }

  /**
   merge_ranges: element i reaches beyond the one before it.  A kernel element gives
   its bound to the other one and is purged; the result says that i replaced prev.
   */
  method MergeRanges(init: SetExpr, purge: SetExpr, i: nat) returns (replaced: bool)
    requires init != purge && 0 < i < |init.exprs|
    modifies init, purge
    ensures var p, e := old(init.exprs[i - 1]), old(init.exprs[i]);
            && init.exprs == Joined(old(init.exprs), i, Union(p, e))
            && purge.exprs == old(purge.exprs) + PurgedBy(p, e)
            && init.size == old(init.size) - (if PurgedBy(p, e) == [] then 1 else 0)
            && replaced == p.kernel
  {
    var e, prev := init.exprs[i], init.exprs[i - 1];
    if prev.kernel {
      PurgeElem(purge, prev);
      init.exprs := init.exprs[i := e.(lo := prev.lo)];
      init.exprs := init.exprs[..i - 1] + init.exprs[i..];
      replaced := true;
    } else {
      init.exprs := init.exprs[i - 1 := prev.(hi := e.hi)];
      init.exprs := init.exprs[..i] + init.exprs[i + 1..];
      if e.kernel {
        PurgeElem(purge, e);
      } else {
        init.size := init.size - 1;
      }
      replaced := false;
    }
  }

  /**
   setelem_automerge: overlapping ranges are merged, and adjacent ones too in an
   auto-merge set.  For a sorted list, the numbers it denotes stay the same; kernel
   elements that lose their place are purged with their original bounds.
   */
  method SetelemAutomerge(init: SetExpr, purge: SetExpr, automerge: bool)
    requires init != purge
    modifies init, purge
    ensures var m := MergeFrom(old(init.exprs), 0, automerge);
            init.exprs == m.list && purge.exprs == old(purge.exprs) + m.purged
              && init.size == old(init.size) - m.dropped
    ensures old(Ranges(init.exprs) && Sorted(init.exprs)) ==>
              && Ranges(init.exprs) && Den(init.exprs) == old(Den(init.exprs))
              && Separated(init.exprs, if automerge then 1 else 0)
              && init.size - Fresh(init.exprs) == old(init.size - Fresh(init.exprs))
              && (old(KernelSpaced(init.exprs, if automerge then 1 else 0)) ==>
                    && KernelSpaced(init.exprs, if automerge then 1 else 0)
                    && Kernels(init.exprs) + multiset(purge.exprs[old(|purge.exprs|)..]) == old(Kernels(init.exprs)))
  {
    hide Den, Ranges, Sorted, Separated, KernelSpaced, Kernels, Fresh, Gone, Union, PurgedBy, Joined;
    ghost var orig, m := init.exprs, MergeFrom(init.exprs, 0, automerge);
    ghost var size0, purged0 := init.size, purge.exprs;
    var i := 0;
    var prevLow, prevHigh := 0, 0;
    while i < |init.exprs|
      invariant 0 <= i <= |init.exprs|
      invariant i > 0 ==> prevLow == init.exprs[i - 1].lo && prevHigh == init.exprs[i - 1].hi
      invariant Reached(init.exprs, i, automerge, init.size, purge.exprs, m, size0, purged0)
      decreases |init.exprs| - i
    {
      var low, high := init.exprs[i].lo, init.exprs[i].hi;
      ReachedNext(init.exprs, i, automerge, init.size, purge.exprs, m, size0, purged0);
      if i > 0 {
        JoinedAt(init.exprs, i);
        if prevLow <= low && prevHigh >= high {
          RemoveOverlappingRange(init, purge, i);
          continue;
        } else if low <= prevHigh || (automerge && low - prevHigh == 1) {
          var _ := MergeRanges(init, purge, i);
          prevHigh := high;
          continue;
        }
      }
      prevLow, prevHigh := low, high;
      i := i + 1;
    }
    assert purge.exprs == purged0 + m.purged;
    if Ranges(orig) && Sorted(orig) {
      MergeCorrect(orig, automerge);
      assert purge.exprs[|purged0|..] == m.purged;
    }
  }

  /** The scan from here on leads to m. */
  ghost predicate Reached(l: seq<Elem>, i: nat, automerge: bool, size: int, purged: seq<Elem>, m: Scan, size0: int,
                          purged0: seq<Elem>)
    requires i <= |l|
  {
    var rest := MergeFrom(l, i, automerge);
    m.list == rest.list && purged + rest.purged == purged0 + m.purged && size - rest.dropped == size0 - m.dropped
  }

  lemma ReachedNext(l: seq<Elem>, i: nat, automerge: bool, size: int, purged: seq<Elem>, m: Scan, size0: int,
                    purged0: seq<Elem>)
    requires i < |l| && Reached(l, i, automerge, size, purged, m, size0, purged0)
    ensures if i > 0 && Covered(l[i - 1], l[i]) then
              Reached(Joined(l, i, l[i - 1]), i, automerge, if l[i].kernel then size else size - 1, purged + Gone(l[i]),
                      m, size0, purged0)
            else if i > 0 && Meets(l[i - 1], l[i], automerge) then
              var gone := PurgedBy(l[i - 1], l[i]);
              Reached(Joined(l, i, Union(l[i - 1], l[i])), i, automerge, if gone == [] then size - 1 else size,
                      purged + gone, m, size0, purged0)
            else Reached(l, i + 1, automerge, size, purged, m, size0, purged0)
  {
    hide Gone, Union, PurgedBy, Covered, Meets;
    if i > 0 {
      GoneOne(l[i]);
      var gone := if Covered(l[i - 1], l[i]) then Gone(l[i]) else PurgedBy(l[i - 1], l[i]);
      var l' := Joined(l, i, if Covered(l[i - 1], l[i]) then l[i - 1] else Union(l[i - 1], l[i]));
      var rest := MergeFrom(l', i, automerge);
      assert purged + gone + rest.purged == purged + (gone + rest.purged);
    }
  }

  lemma JoinedAt(l: seq<Elem>, i: nat)
    requires 0 < i < |l|
    ensures forall m :: |Joined(l, i, m)| == |l| - 1 && Joined(l, i, m)[i - 1] == m
    ensures Union(l[i - 1], l[i]).lo == l[i - 1].lo && Union(l[i - 1], l[i]).hi == l[i].hi
  {
  }

  lemma MergingStart(l: seq<Elem>, size: int, gap: int)
    requires Ranges(l) && Sorted(l)
    ensures Merging(l, 0, l, gap) && Conserves(l, size, [], l, size, gap)
  {
  }

  lemma MergingEnd(l: seq<Elem>, orig: seq<Elem>, gap: int)
    requires Merging(l, |l|, orig, gap)
    ensures Ranges(l) && Den(l) == Den(orig) && Separated(l, gap)
  {
    assert l[..|l|] == l;
  }

  lemma ConservesEnd(l: seq<Elem>, size: int, purged: seq<Elem>, orig: seq<Elem>, size0: int, gap: int)
    requires Conserves(l, size, purged, orig, size0, gap)
    ensures size - Fresh(l) == size0 - Fresh(orig)
    ensures KernelSpaced(orig, gap) ==> KernelSpaced(l, gap) && Kernels(l) + multiset(purged) == Kernels(orig)
  {
  }
}
