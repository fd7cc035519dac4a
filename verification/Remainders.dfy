/** What is left of a list of ranges when one range is cut out of one of them. */
module Remainders {
  import opened Intervals
  import opened Permutations

  ghost predicate NoRemove(s: seq<Elem>) {
    forall e :: e in s ==> !e.remove
  }

  ghost predicate AllSpaced(s: seq<Elem>, gap: int) {
    forall i, j :: 0 <= i < j < |s| ==> Spaced(s[i], s[j], gap)
  }

  predicate Same(d: Elem, p: Elem) {
    p.lo == d.lo && p.hi == d.hi
  }

  predicate Within(d: Elem, p: Elem) {
    p.lo <= d.lo && d.hi <= p.hi
  }

  /** What remains of p when d, which lies within it, is removed. */
  function Pieces(d: Elem, p: Elem): seq<Elem> {
    (if p.lo < d.lo then [p.(hi := d.lo - 1, kernel := false)] else [])
    + if d.hi < p.hi then [p.(lo := d.hi + 1, kernel := false)] else []
  }

  /** An element that matches exactly is dropped only if the kernel knows it. */
  function Leftover(d: Elem, p: Elem): seq<Elem> {
    if Same(d, p) && !p.kernel then [p] else Pieces(d, p)
  }

  lemma SeparatedSpaced(s: seq<Elem>, gap: int)
    requires Separated(s, gap)
    ensures AllSpaced(s, gap)
  {
  }

  lemma SpacedPermute(s: seq<Elem>, t: seq<Elem>, gap: int)
    requires AllSpaced(s, gap) && multiset(s) == multiset(t)
    ensures AllSpaced(t, gap)
  {
    var r := (a: Elem, b: Elem) => Spaced(a, b, gap);
    assert Pairwise(s, r);
    PairsPermute(s, t, r);
    forall i, j | 0 <= i < j < |t| ensures Spaced(t[i], t[j], gap) {
      assert r(t[i], t[j]);
    }
  }

  lemma RestSpaced(rest: seq<Elem>, p: Elem, gap: int)
    requires AllSpaced(rest + [p], gap)
    ensures AllSpaced(rest, gap) && forall f :: f in rest ==> Spaced(f, p, gap)
  {
    var s := rest + [p];
    forall i, j | 0 <= i < j < |rest| ensures Spaced(rest[i], rest[j], gap) {
      assert Spaced(s[i], s[j], gap);
    }
    forall f | f in rest ensures Spaced(f, p, gap) {
      var i :| 0 <= i < |rest| && rest[i] == f;
      assert Spaced(s[i], s[|rest|], gap);
    }
  }

  lemma SpacedSnoc(s: seq<Elem>, f: Elem, gap: int)
    requires AllSpaced(s, gap) && forall e :: e in s ==> Spaced(e, f, gap)
    ensures AllSpaced(s + [f], gap)
  {
    var t := s + [f];
    forall i, j | 0 <= i < j < |t| ensures Spaced(t[i], t[j], gap) {
      assert t[i] in s;
      if j < |s| {
        assert Spaced(s[i], s[j], gap);
      }
    }
  }

  /** The pieces keep their distance from the other ranges and from each other. */
  lemma SpacedCut(rest: seq<Elem>, p: Elem, d: Elem, gap: int)
    requires AllSpaced(rest + [p], gap) && Within(d, p) && d.lo <= d.hi && 0 <= gap <= 1
    ensures AllSpaced(rest + Pieces(d, p), gap)
  {
    RestSpaced(rest, p, gap);
    var lower, upper := p.(hi := d.lo - 1, kernel := false), p.(lo := d.hi + 1, kernel := false);
    assert rest + [] == rest;
    if p.lo < d.lo {
      SpacedSnoc(rest, lower, gap);
      if d.hi < p.hi {
        SpacedSnoc(rest + [lower], upper, gap);
        assert rest + [lower] + [upper] == rest + Pieces(d, p);
      } else {
        assert Pieces(d, p) == [lower];
      }
    } else if d.hi < p.hi {
      SpacedSnoc(rest, upper, gap);
      assert Pieces(d, p) == [upper];
    }
  }

  lemma DenPieces(d: Elem, p: Elem)
    requires Within(d, p) && d.lo <= d.hi
    ensures Den(Pieces(d, p)) == Den([p]) - Den([d]) && Ranges(Pieces(d, p)) && NoKernel(Pieces(d, p))
    ensures p.remove || NoRemove(Pieces(d, p))
  {
    DenOne(d);
    DenOne(p);
    var lower, upper := p.(hi := d.lo - 1, kernel := false), p.(lo := d.hi + 1, kernel := false);
    forall x ensures x in Den(Pieces(d, p)) <==> p.Has(x) && !d.Has(x) {
      assert p.lo < d.lo ==> lower in Pieces(d, p);
      assert d.hi < p.hi ==> upper in Pieces(d, p);
      assert forall e :: e in Pieces(d, p) ==> e == lower || e == upper;
    }
  }

  /** Cutting d out of one range takes exactly its numbers away from the whole list. */
  lemma DenCut(rest: seq<Elem>, p: Elem, d: Elem)
    requires AllSpaced(rest + [p], 0) && Ranges(rest + [p]) && Within(d, p) && d.lo <= d.hi
    ensures Den(rest + Pieces(d, p)) == Den(rest + [p]) - Den([d]) && Ranges(rest + Pieces(d, p))
  {
    RestSpaced(rest, p, 0);
    DenPieces(d, p);
    DenConcat(rest, [p]);
    DenConcat(rest, Pieces(d, p));
    DenOne(d);
    forall x | x in Den(rest) ensures x !in Den([d]) {
      var f :| f in rest && f.Has(x);
      assert Spaced(f, p, 0) && f in rest + [p] && p in rest + [p];
    }
    forall e | e in rest + Pieces(d, p) ensures e.lo <= e.hi {
      assert e in rest ==> e in rest + [p];
    }
  }

  /**
   A range to delete that equals a cached one without the kernel's flag: setelem_delete
   drops the request and leaves the element.
   */
  ghost predicate Ignored(known: seq<Elem>, d: Elem) {
    exists q :: q in known && !q.kernel && Same(d, q)
  }

  /** The ranges to delete that are not ignored. */
  ghost function Effective(known: seq<Elem>, ds: seq<Elem>): seq<Elem> {
    if ds == [] then [] else
      Effective(known, ds[..|ds| - 1]) + if Ignored(known, ds[|ds| - 1]) then [] else [ds[|ds| - 1]]
  }

  lemma EffectiveSnoc(known: seq<Elem>, ds: seq<Elem>, d: Elem)
    ensures Effective(known, ds + [d]) == Effective(known, ds) + if Ignored(known, d) then [] else [d]
  {
    assert (ds + [d])[..|ds|] == ds;
  }

  lemma {:induction false} EffectiveMembers(known: seq<Elem>, ds: seq<Elem>)
    ensures forall d :: d in Effective(known, ds) <==> d in ds && !Ignored(known, d)
    ensures AllKernel(known) ==> Effective(known, ds) == ds
    ensures (forall d :: d in ds ==> !Ignored(known, d)) <==> Effective(known, ds) == ds
  {
    if ds != [] {
      var t, d := ds[..|ds| - 1], ds[|ds| - 1];
      EffectiveMembers(known, t);
      assert ds == t + [d];
      EffectiveShorter(known, t);
    }
  }

  lemma {:induction false} EffectiveShorter(known: seq<Elem>, ds: seq<Elem>)
    ensures |Effective(known, ds)| <= |ds|
  {
    if ds != [] {
      EffectiveShorter(known, ds[..|ds| - 1]);
    }
  }

  predicate Touching(f: Elem, g: Elem) {
    g.hi + 1 == f.lo || f.hi + 1 == g.lo
  }

  /**
   The state between two deletions: e is left of the cached ranges after the ranges ds
   were removed, except the ignored ones, and purged has the kernel's ranges that had to
   go.  A range the kernel does not know is a cached one or borders on a removed range,
   and a cached one is there as long as nothing less than the whole of it was removed.
   */
  ghost predicate Remaining(e: seq<Elem>, known: seq<Elem>, ds: seq<Elem>, purged: seq<Elem>) {
    && Ranges(e) && NoRemove(e) && AllSpaced(e, 1)
    && Den(e) == Den(known) - Den(Effective(known, ds))
    && Kernels(e) + multiset(purged) == Kernels(known)
    && (forall f :: f in e ==> f.kernel || f in known || exists g :: g in ds && Touching(f, g))
    && (forall q :: q in known && !q.kernel && (forall g :: g in ds ==> Within(g, q) ==> Same(g, q)) ==> q in e)
    && (forall p :: p in purged ==> exists g :: g in ds && Within(g, p))
  }

  /** Of two ranges of a spaced list with a number in common there is only one. */
  lemma OnlyOne(e: seq<Elem>, p: Elem, q: Elem, d: Elem)
    requires AllSpaced(e, 1) && p in e && q in e && Within(d, p) && Within(d, q) && d.lo <= d.hi
    ensures p == q
  {
    if p != q {
      SpacedMembers(e, p, q, 1);
    }
  }

  /** A deletion matches exactly a range without the kernel's flag only if that one was cached so. */
  lemma ExactIsKernel(e: seq<Elem>, known: seq<Elem>, ds: seq<Elem>, purged: seq<Elem>, d: Elem, p: Elem)
    requires Remaining(e, known, ds, purged) && p in e && Within(d, p) && d.lo <= d.hi
    requires forall g :: g in ds ==> Spaced(g, d, 1) && g.lo <= g.hi
    ensures Same(d, p) ==> (p.kernel <==> !Ignored(known, d))
    ensures Ignored(known, d) ==> Same(d, p) && !p.kernel
  {
    if Same(d, p) && !p.kernel {
      forall g | g in ds ensures !Touching(p, g) {
        assert Spaced(g, d, 1);
      }
      assert p in known;
    }
    if Ignored(known, d) {
      var q :| q in known && !q.kernel && Same(d, q);
      forall g | g in ds ensures !Within(g, q) {
        assert Spaced(g, d, 1);
      }
      OnlyOne(e, p, q, d);
    }
  }

  /** An ignored deletion changes nothing. */
  lemma IgnoredStep(e: seq<Elem>, known: seq<Elem>, ds: seq<Elem>, purged: seq<Elem>, d: Elem, e': seq<Elem>)
    requires Remaining(e, known, ds, purged) && Ignored(known, d)
    requires multiset(e') == multiset(e) && NoRemove(e')
    ensures Remaining(e', known, ds + [d], purged)
  {
    hide Den, Kernels, AllSpaced, Touching, Effective, Ignored, Within, Same;
    SameMembers(e, e');
    EffectiveSnoc(known, ds, d);
    assert Effective(known, ds) + [] == Effective(known, ds);
    SpacedPermute(e, e', 1);
    DenPermute(e, e');
    CountsPermute(e, e');
    assert forall g :: g in ds ==> g in ds + [d];
    forall f | f in e' && !f.kernel && f !in known ensures exists g :: g in ds + [d] && Touching(f, g) {
      assert f in e;
      var g :| g in ds && Touching(f, g);
      assert g in ds + [d];
    }
    forall p | p in purged ensures exists g :: g in ds + [d] && Within(g, p) {
      var g :| g in ds && Within(g, p);
      assert g in ds + [d];
    }
  }

  lemma StepBorders(rest: seq<Elem>, known: seq<Elem>, ds: seq<Elem>, purged: seq<Elem>, d: Elem, p: Elem, e: seq<Elem>,
                    e': seq<Elem>)
    requires forall f :: f in e ==> f.kernel || f in known || exists g :: g in ds && Touching(f, g)
    requires forall q :: q in known && !q.kernel && (forall g :: g in ds ==> Within(g, q) ==> Same(g, q)) ==> q in e
    requires forall q :: q in purged ==> exists g :: g in ds && Within(g, q)
    requires Within(d, p) && multiset(e) == multiset(rest + [p]) && multiset(e') == multiset(rest + Pieces(d, p))
    requires !Ignored(known, d)
    ensures forall f :: f in e' ==> f.kernel || f in known || exists g :: g in ds + [d] && Touching(f, g)
    ensures forall q :: q in known && !q.kernel && (forall g :: g in ds + [d] ==> Within(g, q) ==> Same(g, q)) ==>
              q in e'
    ensures forall q :: q in purged + Gone(p) ==> exists g :: g in ds + [d] && Within(g, q)
  {
    SameMembers(e, rest + [p]);
    SameMembers(e', rest + Pieces(d, p));
    assert d in ds + [d];
    forall f | f in e' && !f.kernel && f !in known ensures exists g :: g in ds + [d] && Touching(f, g) {
      if f in rest {
        assert f in e;
        var g :| g in ds && Touching(f, g);
        assert g in ds + [d];
      } else {
        assert f in Pieces(d, p);
        assert Touching(f, d);
      }
    }
    forall q | q in known && !q.kernel && (forall g :: g in ds + [d] ==> Within(g, q) ==> Same(g, q)) ensures q in e' {
      forall g | g in ds && Within(g, q) ensures Same(g, q) {
        assert g in ds + [d];
      }
      assert q in rest + [p];
    }
    forall q | q in purged + Gone(p) ensures exists g :: g in ds + [d] && Within(g, q) {
      if q in purged {
        var g :| g in ds && Within(g, q);
        assert g in ds + [d];
      } else {
        assert q == p;
      }
    }
  }

  lemma StepKernels(rest: seq<Elem>, known: seq<Elem>, purged: seq<Elem>, d: Elem, p: Elem, e: seq<Elem>, e': seq<Elem>)
    requires Kernels(e) + multiset(purged) == Kernels(known) && Within(d, p) && d.lo <= d.hi
    requires multiset(e) == multiset(rest + [p]) && multiset(e') == multiset(rest + Pieces(d, p))
    ensures Kernels(e') + multiset(purged + Gone(p)) == Kernels(known)
  {
    hide Kernels;
    CountsPermute(e, rest + [p]);
    CountsPermute(e', rest + Pieces(d, p));
    KernelsConcat(rest, [p]);
    KernelsConcat(rest, Pieces(d, p));
    KernelsOne(p);
    DenPieces(d, p);
    KernelsOfUniform(Pieces(d, p));
    assert multiset(Gone(p)) == Kernels([p]);
  }

  /** A deletion that is not ignored. */
  lemma CutStep(e: seq<Elem>, known: seq<Elem>, ds: seq<Elem>, purged: seq<Elem>, d: Elem, p: Elem,
                rest: seq<Elem>, e': seq<Elem>)
    requires Remaining(e, known, ds, purged) && p in e && Within(d, p) && d.lo <= d.hi && !Ignored(known, d)
    requires multiset(e) == multiset(rest + [p]) && multiset(e') == multiset(rest + Pieces(d, p)) && NoRemove(e')
    ensures Remaining(e', known, ds + [d], purged + Gone(p))
  {
    hide Den, Kernels, AllSpaced, Touching, Effective, Ignored, Pieces, Gone, Same, Within;
    SpacedPermute(e, rest + [p], 1);
    SpacedCut(rest, p, d, 1);
    SpacedPermute(rest + Pieces(d, p), e', 1);
    SpacedLess(rest + [p]);
    DenPermute(e, rest + [p]);
    DenCut(rest, p, d);
    DenPermute(rest + Pieces(d, p), e');
    EffectiveSnoc(known, ds, d);
    DenConcat(Effective(known, ds), [d]);
    StepKernels(rest, known, purged, d, p, e, e');
    StepBorders(rest, known, ds, purged, d, p, e, e');
  }

  /** One deletion keeps the state. */
  lemma RemainingStep(e: seq<Elem>, known: seq<Elem>, ds: seq<Elem>, purged: seq<Elem>, d: Elem, p: Elem,
                      rest: seq<Elem>, e': seq<Elem>)
    requires Remaining(e, known, ds, purged) && p in e && Within(d, p) && d.lo <= d.hi
    requires forall g :: g in ds ==> Spaced(g, d, 1) && g.lo <= g.hi
    requires multiset(e) == multiset(rest + [p]) && multiset(e') == multiset(rest + Leftover(d, p)) && NoRemove(e')
    ensures Remaining(e', known, ds + [d], purged + Gone(p))
  {
    hide Remaining, Ignored;
    ExactIsKernel(e, known, ds, purged, d, p);
    if Ignored(known, d) {
      assert purged + Gone(p) == purged;
      IgnoredStep(e, known, ds, purged, d, e');
    } else {
      CutStep(e, known, ds, purged, d, p, rest, e');
    }
  }

  lemma SpacedLess(s: seq<Elem>)
    requires AllSpaced(s, 1)
    ensures AllSpaced(s, 0)
  {
  }

  /** A kernel range went exactly if a number to delete is in it. */
  lemma PurgedExactly(e: seq<Elem>, known: seq<Elem>, ds: seq<Elem>, purged: seq<Elem>)
    requires Remaining(e, known, ds, purged) && Ranges(ds) && AllSpaced(known, 1)
    ensures forall k :: k in known && k.kernel ==> (k in purged <==> exists x :: k.Has(x) && x in Den(ds))
  {
    hide Effective;
    forall k | k in known && k.kernel ensures k in purged <==> exists x :: k.Has(x) && x in Den(ds) {
      if k in purged {
        var g :| g in ds && Within(g, k);
        assert k.Has(g.lo) && g.Has(g.lo) && g.lo in Den(ds);
      } else {
        assert k in Kernels(known) by { KernelsCount(known, k); }
        assert k in Kernels(e);
        KernelsCount(e, k);
        assert k in e;
        forall x | k.Has(x) ensures x !in Den(ds) {
          NotIgnoredIn(known, ds, k, x);
          assert x in Den(e);
        }
      }
    }
  }

  /** Numbers of a kernel range are deleted whatever is ignored. */
  lemma NotIgnoredIn(known: seq<Elem>, ds: seq<Elem>, k: Elem, x: int)
    requires AllSpaced(known, 1) && k in known && k.kernel && k.Has(x)
    ensures x in Den(ds) ==> x in Den(Effective(known, ds))
  {
    hide Effective;
    if x in Den(ds) {
      var g :| g in ds && g.Has(x);
      EffectiveMembers(known, ds);
      if Ignored(known, g) {
        var q :| q in known && !q.kernel && Same(g, q);
        OnlyOne(known, k, q, Elem(x, x, false, false));
      }
    }
  }

  /** d is covered exactly if it lies within one of the ranges, since they keep their distance. */
  lemma CoveredWithin(e: seq<Elem>, d: Elem, p: Elem)
    requires AllSpaced(e, 1) && p in e && p.lo <= p.hi && p.lo <= d.lo <= d.hi && p.hi < d.hi
    requires forall f :: f in e && f.lo <= d.lo ==> f.lo <= p.lo
    ensures !(Den([d]) <= Den(e))
  {
    var x := if p.hi < d.lo then d.lo else p.hi + 1;
    DenOne(d);
    assert x in Den([d]);
    forall f | f in e ensures !f.Has(x) {
      if f != p {
        SpacedMembers(e, p, f, 1);
      }
    }
  }

  lemma SpacedMembers(e: seq<Elem>, p: Elem, f: Elem, gap: int)
    requires AllSpaced(e, gap) && p in e && f in e && p != f
    ensures Spaced(p, f, gap)
  {
    var i :| 0 <= i < |e| && e[i] == p;
    var j :| 0 <= j < |e| && e[j] == f;
    assert Spaced(e[i], e[j], gap) || Spaced(e[j], e[i], gap);
  }
}
