/** What a reordering of an element list keeps. */
module Permutations {
  import opened Intervals

  /** Every two elements, at different positions, are related. */
  ghost predicate Pairwise<T(!new)>(s: seq<T>, r: (T, T) -> bool) {
    forall i, j :: 0 <= i < j < |s| ==> r(s[i], s[j])
  }

  function Without<T>(s: seq<T>, i: nat): seq<T>
    requires i < |s|
  {
    s[..i] + s[i + 1..]
  }

  lemma WithoutCount<T>(s: seq<T>, i: nat)
    requires i < |s|
    ensures multiset(Without(s, i)) == multiset(s) - multiset{s[i]}
  {
    assert s == s[..i] + [s[i]] + s[i + 1..];
  }

  /** Elements at two positions of a list are at two positions of every reordering of it. */
  lemma TwoPositions<T>(s: seq<T>, t: seq<T>, i: nat, j: nat) returns (i': nat, j': nat)
    requires multiset(s) == multiset(t) && i < j < |t|
    ensures i' < |s| && j' < |s| && i' != j' && s[i'] == t[i] && s[j'] == t[j]
  {
    hide Without;
    assert t[i] in multiset(t);
    i' :| 0 <= i' < |s| && s[i'] == t[i];
    WithoutCount(s, i');
    WithoutCount(t, i);
    WithoutAt(t, i, j - 1);
    SameMembers(Without(s, i'), Without(t, i));
    var k: nat :| k < |Without(s, i')| && Without(s, i')[k] == t[j];
    WithoutAt(s, i', k);
    j' := if k < i' then k else k + 1;
  }

  lemma WithoutAt<T>(s: seq<T>, i: nat, k: nat)
    requires i < |s|
    ensures |Without(s, i)| == |s| - 1
    ensures k < |s| - 1 ==> Without(s, i)[k] == (if k < i then s[k] else s[k + 1]) && Without(s, i)[k] in Without(s, i)
  {
  }

  /** A symmetric relation that holds pairwise in a list does so in every reordering of it. */
  lemma PairsPermute<T(!new)>(s: seq<T>, t: seq<T>, r: (T, T) -> bool)
    requires Pairwise(s, r) && multiset(s) == multiset(t) && forall a, b :: r(a, b) ==> r(b, a)
    ensures Pairwise(t, r)
  {
    forall i, j | 0 <= i < j < |t| ensures r(t[i], t[j]) {
      var i', j' := TwoPositions(s, t, i, j);
      assert r(s[i'], s[j']) || r(s[j'], s[i']);
    }
  }

  lemma SameMembers<T>(s: seq<T>, t: seq<T>)
    requires multiset(s) == multiset(t)
    ensures forall x :: x in s <==> x in t
    ensures forall x :: x in s <==> x in multiset(s)
  {
    forall x ensures x in s <==> x in t {
      assert x in s <==> x in multiset(s);
      assert x in t <==> x in multiset(t);
    }
  }

  lemma DenPermute(s: seq<Elem>, t: seq<Elem>)
    requires multiset(s) == multiset(t)
    ensures Den(s) == Den(t) && (Ranges(s) ==> Ranges(t))
  {
    SameMembers(s, t);
  }

  lemma {:induction false} KernelsCount(s: seq<Elem>, e: Elem)
    ensures Kernels(s)[e] == if e.kernel then multiset(s)[e] else 0
    ensures Fresh(s) + |Kernels(s)| == |s|
  {
    if s != [] {
      KernelsCount(s[..|s| - 1], e);
      assert s == s[..|s| - 1] + [s[|s| - 1]];
    }
  }

  lemma CountsPermute(s: seq<Elem>, t: seq<Elem>)
    requires multiset(s) == multiset(t)
    ensures Kernels(s) == Kernels(t) && Fresh(s) == Fresh(t)
  {
    forall e: Elem ensures Kernels(s)[e] == Kernels(t)[e] {
      KernelsCount(s, e);
      KernelsCount(t, e);
    }
    KernelsCount(s, Elem(0, 0, false, false));
    KernelsCount(t, Elem(0, 0, false, false));
    assert |s| == |multiset(s)| && |t| == |multiset(t)|;
  }

  ghost predicate AllKernel(s: seq<Elem>) {
    forall e :: e in s ==> e.kernel
  }

  ghost predicate NoKernel(s: seq<Elem>) {
    forall e :: e in s ==> !e.kernel
  }

  lemma KernelsOfUniform(s: seq<Elem>)
    ensures AllKernel(s) ==> Kernels(s) == multiset(s) && Fresh(s) == 0
    ensures NoKernel(s) ==> Kernels(s) == multiset{} && Fresh(s) == |s|
  {
    hide Kernels, Fresh;
    forall e: Elem ensures Kernels(s)[e] == if e.kernel then multiset(s)[e] else 0 {
      KernelsCount(s, e);
    }
    SameMembers(s, s);
    if AllKernel(s) {
      assert Kernels(s) == multiset(s);
      KernelsCount(s, Elem(0, 0, false, false));
      assert |s| == |multiset(s)|;
    }
    if NoKernel(s) {
      assert Kernels(s) == multiset{};
      KernelsCount(s, Elem(0, 0, false, false));
    }
  }

  lemma KernelSpacedPermute(s: seq<Elem>, t: seq<Elem>, gap: int)
    requires KernelSpaced(s, gap) && multiset(s) == multiset(t)
    ensures KernelSpaced(t, gap)
  {
    var r := (a: Elem, b: Elem) => a.kernel && b.kernel ==> Spaced(a, b, gap);
    assert Pairwise(s, r);
    PairsPermute(s, t, r);
    forall i, j | 0 <= i < j < |t| && t[i].kernel && t[j].kernel ensures Spaced(t[i], t[j], gap) {
      assert r(t[i], t[j]);
    }
  }
}
