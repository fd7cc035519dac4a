/** Interval set elements, the sets of numbers they denote, and how lists of them are spaced. */
module Intervals {

  /** A set element whose key is the range [lo, hi], with the flags EXPR_F_KERNEL and EXPR_F_REMOVE. */
  datatype Elem = Elem(lo: int, hi: int, kernel: bool, remove: bool) {
    predicate Has(x: int) {
      lo <= x <= hi
    }
  }

  /** A set expression: its element list and its element count. */
  class SetExpr {
    var exprs: seq<Elem>
    var size: int

    constructor ()
      ensures exprs == [] && size == 0
    {
      exprs, size := [], 0;
    }
  }

  ghost predicate Covers(s: seq<Elem>, x: int) {
    exists e :: e in s && e.Has(x)
  }

  /** The numbers that the ranges of a list contain. */
  ghost function Den(s: seq<Elem>): iset<int> {
    iset x: int | Covers(s, x)
  }

  lemma DenConcat(s: seq<Elem>, t: seq<Elem>)
    ensures Den(s + t) == Den(s) + Den(t)
  {
  }

  ghost predicate Ranges(s: seq<Elem>) {
    forall e :: e in s ==> e.lo <= e.hi
  }

  /** Sorted by left bound, as list_expr_sort leaves a list. */
  ghost predicate Sorted(s: seq<Elem>) {
    forall i, j :: 0 <= i < j < |s| ==> s[i].lo <= s[j].lo
  }

  /** Each range ends more than gap before the next begins: gap 0 is disjoint, gap 1 also non-adjacent. */
  ghost predicate Separated(s: seq<Elem>, gap: int) {
    forall i, j :: 0 <= i < j < |s| ==> s[i].hi + gap < s[j].lo
  }

  predicate Spaced(a: Elem, b: Elem, gap: int) {
    a.hi + gap < b.lo || b.hi + gap < a.lo
  }

  /** Every two kernel elements are more than gap apart, in whatever order they are listed. */
  ghost predicate KernelSpaced(s: seq<Elem>, gap: int) {
    forall i, j :: 0 <= i < j < |s| && s[i].kernel && s[j].kernel ==> Spaced(s[i], s[j], gap)
  }

  /** The kernel elements of a list, with multiplicity. */
  ghost function Kernels(s: seq<Elem>): multiset<Elem> {
    if s == [] then multiset{} else
      (if s[|s| - 1].kernel then multiset{s[|s| - 1]} else multiset{}) + Kernels(s[..|s| - 1])
  }

  /** How many elements are not in the kernel. */
  ghost function Fresh(s: seq<Elem>): nat {
    if s == [] then 0 else (if s[|s| - 1].kernel then 0 else 1) + Fresh(s[..|s| - 1])
  }

  /** What the kernel has to delete when p goes. */
  function Gone(p: Elem): seq<Elem> {
    if p.kernel then [p] else []
  }

  lemma {:induction false} KernelsConcat(s: seq<Elem>, t: seq<Elem>)
    ensures Kernels(s + t) == Kernels(s) + Kernels(t)
    ensures Fresh(s + t) == Fresh(s) + Fresh(t)
  {
    if t == [] {
      assert s + t == s;
    } else {
      var n := |t| - 1;
      assert (s + t)[..|s + t| - 1] == s + t[..n];
      KernelsConcat(s, t[..n]);
    }
  }

  lemma KernelsOne(e: Elem)
    ensures Kernels([e]) == if e.kernel then multiset{e} else multiset{}
    ensures Fresh([e]) == if e.kernel then 0 else 1
  {
    assert [e][..0] == [];
  }

  lemma DenOne(e: Elem)
    ensures Den([e]) == iset x: int | e.Has(x)
  {
    assert e in [e];
  }
}
