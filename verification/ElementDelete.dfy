/** setelem_delete: one range is taken out of the cached elements of an interval set. */
module ElementDelete {
  import opened Intervals
  import opened Permutations
  import opened Sorting
  import opened Automerge
  import opened SetAutomerge
  import opened Remainders

  /** The element to remove sits at position `at`; nothing else is flagged EXPR_F_REMOVE. */
  ghost predicate RemoveAt(s: seq<Elem>, at: nat) {
    at < |s| && forall i :: 0 <= i < |s| ==> (s[i].remove <==> i == at)
  }

  /** Whether the element before position `at` lets the one there be removed from it. */
  predicate Accepts(s: seq<Elem>, at: nat, automerge: bool)
    requires at < |s|
  {
    at > 0 && (Same(s[at], s[at - 1]) || (automerge && Within(s[at], s[at - 1])))
  }

  lemma {:induction false} WithKeyMembers<T>(s: seq<T>, key: T -> int, k: int)
    ensures forall x :: x in WithKey(s, key, k) <==> x in s && key(x) == k
  {
    if s != [] {
      WithKeyMembers(s[1..], key, k);
      assert s == [s[0]] + s[1..];
    }
  }

  /** Sorting puts an element appended to the list after all others with its key. */
  lemma Placed(s: seq<Elem>, d: Elem) returns (at: nat)
    requires NoRemove(s) && d.remove
    ensures var l := ListSort(s + [d], Low);
            && RemoveAt(l, at) && l[at] == d && multiset(Without(l, at)) == multiset(s)
            && Sorted(l) && (forall i :: 0 <= i < at ==> l[i].lo <= d.lo)
            && forall i :: at < i < |l| ==> d.lo < l[i].lo
  {
    hide ListSort, WithKey, SortedBy, Without;
    var l := ListSort(s + [d], Low);
    ListSortCorrect(s + [d], Low);
    SameMembers(l, s + [d]);
    assert d in s + [d];
    at :| 0 <= at < |l| && l[at] == d;
    WithoutCount(l, at);
    var rest := Without(l, at);
    assert multiset(rest) == multiset(s);
    SameMembers(rest, s);
    OnlyRemove(l, at, rest);
    LastWithKey(s, d, l, at);
    SortedAround(l, at);
    SortedEither(l);
  }

  lemma OnlyRemove(l: seq<Elem>, at: nat, rest: seq<Elem>)
    requires at < |l| && l[at].remove && rest == Without(l, at) && NoRemove(rest)
    ensures RemoveAt(l, at)
  {
    hide Without;
    forall i | 0 <= i < |l| ensures l[i].remove <==> i == at {
      if i != at {
        WithoutAt(l, at, if i < at then i else i - 1);
        assert l[i] in rest;
      }
    }
  }

  lemma SortedAround(l: seq<Elem>, at: nat)
    requires SortedBy(l, Low) && at < |l|
    requires forall i :: at < i < |l| ==> l[i].lo != l[at].lo
    ensures forall i :: 0 <= i < at ==> l[i].lo <= l[at].lo
    ensures forall i :: at < i < |l| ==> l[at].lo < l[i].lo
  {
    forall i | 0 <= i < |l| ensures i < at ==> l[i].lo <= l[at].lo ensures at < i ==> l[at].lo < l[i].lo {
      assert i < at ==> Low(l[i]) <= Low(l[at]);
      assert at < i ==> Low(l[at]) <= Low(l[i]);
    }
  }

  lemma LastOne<T>(a: seq<T>, w: seq<T>, t: seq<T>, d: T)
    requires a + w == t + [d]
    ensures w == [] || d in w
  {
    if w != [] {
      var n := |a| + |w| - 1;
      assert (a + w)[n] == (t + [d])[n];
      assert w[|w| - 1] == d;
    }
  }

  lemma LastWithKey(s: seq<Elem>, d: Elem, l: seq<Elem>, at: nat)
    requires RemoveAt(l, at) && l[at] == d && WithKey(l, Low, d.lo) == WithKey(s + [d], Low, d.lo)
    ensures forall i :: at < i < |l| ==> l[i].lo != d.lo
  {
    hide WithKey;
    var k := d.lo;
    var after := l[at + 1..];
    assert l == l[..at + 1] + after;
    WithKeyConcat(l[..at + 1], after, Low, k);
    WithKeyConcat(s, [d], Low, k);
    WithKeyCons(d, [], Low, k);
    assert [d] + [] == [d];
    WithKeyMembers(after, Low, k);
    var w := WithKey(after, Low, k);
    assert WithKey([], Low, k) == [] by { NoneWithKey<Elem>([], Low, k); }
    forall x | x in after ensures !x.remove {
      var j :| 0 <= j < |after| && after[j] == x;
      assert l[at + 1 + j] == x;
    }
    LastOne(WithKey(l[..at + 1], Low, k), w, WithKey(s, Low, k), d);
    forall i | at < i < |l| ensures l[i].lo != d.lo {
      assert l[i] == after[i - at - 1];
      assert l[i] in after;
      assert l[i] !in w;
    }
  }

  /** All elements but the one at position i and the one before it. */
  function Others(s: seq<Elem>, i: nat): seq<Elem>
    requires 0 < i < |s|
  {
    s[..i - 1] + s[i + 1..]
  }

  lemma OthersFacts(s: seq<Elem>, i: nat)
    requires 0 < i < |s|
    ensures multiset(s) == multiset(Others(s, i)) + multiset{s[i - 1]} + multiset{s[i]}
    ensures RemoveAt(s, i) ==> NoRemove(Others(s, i))
  {
    assert s == s[..i - 1] + [s[i - 1]] + [s[i]] + s[i + 1..];
  }

  /** adjust_elem_left: the range before loses its lower part. */
  method AdjustElemLeft(elems: SetExpr, purge: SetExpr, i: nat)
    requires elems != purge && 0 < i < |elems.exprs|
    modifies elems`exprs, purge`exprs
    ensures var s := old(elems.exprs);
            && elems.exprs == [s[i - 1].(lo := s[i].hi + 1, kernel := false)] + Others(s, i)
            && purge.exprs == old(purge.exprs) + Gone(s[i - 1])
  {
    var prev, d := elems.exprs[i - 1], elems.exprs[i];
    if prev.kernel {
      purge.exprs := purge.exprs + [prev];
    }
    ghost var s := elems.exprs;
    prev := prev.(kernel := false, lo := d.hi + 1);
    MoveToHead(elems, i - 1, prev);
    elems.exprs := elems.exprs[..i] + elems.exprs[i + 1..];
    AdjustForm(s, i, prev, elems.exprs);
  }

  /** list_move of the element at position p, whose fields are now those of e, to the head. */
  method MoveToHead(elems: SetExpr, p: nat, e: Elem)
    requires p < |elems.exprs|
    modifies elems`exprs
    ensures var s := old(elems.exprs); elems.exprs == [e] + (s[..p] + s[p + 1..])
  {
    elems.exprs := [e] + (elems.exprs[..p] + elems.exprs[p + 1..]);
  }

  /** adjust_elem_right: the range before loses its upper part. */
  method AdjustElemRight(elems: SetExpr, purge: SetExpr, i: nat)
    requires elems != purge && 0 < i < |elems.exprs|
    modifies elems`exprs, purge`exprs
    ensures var s := old(elems.exprs);
            && elems.exprs == [s[i - 1].(hi := s[i].lo - 1, kernel := false)] + Others(s, i)
            && purge.exprs == old(purge.exprs) + Gone(s[i - 1])
  {
    var prev, d := elems.exprs[i - 1], elems.exprs[i];
    if prev.kernel {
      purge.exprs := purge.exprs + [prev];
    }
    ghost var s := elems.exprs;
    prev := prev.(kernel := false, hi := d.lo - 1);
    MoveToHead(elems, i - 1, prev);
    elems.exprs := elems.exprs[..i] + elems.exprs[i + 1..];
    AdjustForm(s, i, prev, elems.exprs);
  }

  /** split_range: the upper part goes to the end of the list, the lower part to its head. */
  method SplitRange(elems: SetExpr, purge: SetExpr, i: nat)
    requires elems != purge && 0 < i < |elems.exprs|
    modifies elems`exprs, purge`exprs
    ensures var s := old(elems.exprs);
            && elems.exprs == [s[i - 1].(hi := s[i].lo - 1, kernel := false)] + Others(s, i)
                              + [s[i - 1].(lo := s[i].hi + 1, kernel := false)]
            && purge.exprs == old(purge.exprs) + Gone(s[i - 1])
  {
    var prev, d := elems.exprs[i - 1], elems.exprs[i];
    if prev.kernel {
      purge.exprs := purge.exprs + [prev];
    }
    prev := prev.(kernel := false);
    ghost var s := elems.exprs;
    elems.exprs := elems.exprs + [prev.(lo := d.hi + 1)];
    MoveToHead(elems, i - 1, prev.(hi := d.lo - 1));
    elems.exprs := elems.exprs[..i] + elems.exprs[i + 1..];
    SplitForm(s, i, prev.(hi := d.lo - 1), prev.(lo := d.hi + 1), elems.exprs);
  }

  lemma AdjustForm(s: seq<Elem>, i: nat, e: Elem, t: seq<Elem>)
    requires 0 < i < |s|
    requires var v := [e] + (s[..i - 1] + s[i..]); t == v[..i] + v[i + 1..]
    ensures t == [e] + Others(s, i)
  {
    assert s[i..] == [s[i]] + s[i + 1..];
  }

  lemma SplitForm(s: seq<Elem>, i: nat, lower: Elem, upper: Elem, t: seq<Elem>)
    requires 0 < i < |s|
    requires var u := s + [upper]; var v := [lower] + (u[..i - 1] + u[i..]); t == v[..i] + v[i + 1..]
    ensures t == [lower] + Others(s, i) + [upper]
  {
    var u := s + [upper];
    assert u[..i - 1] == s[..i - 1] && u[i..] == [s[i]] + s[i + 1..] + [upper];
  }

  /** The list after the element at i was cut out of the one before it. */
  function Cut(s: seq<Elem>, i: nat): seq<Elem>
    requires 0 < i < |s|
  {
    var pieces := Pieces(s[i], s[i - 1]);
    if pieces == [] then Others(s, i) else [pieces[0]] + Others(s, i) + pieces[1..]
  }

  lemma CutForms(s: seq<Elem>, i: nat)
    requires 0 < i < |s|
    ensures var p, d, o := s[i - 1], s[i], Others(s, i);
            var lower, upper := p.(hi := d.lo - 1, kernel := false), p.(lo := d.hi + 1, kernel := false);
            && (p.lo == d.lo && d.hi < p.hi ==> Cut(s, i) == [upper] + o)
            && (p.lo < d.lo && p.hi == d.hi ==> Cut(s, i) == [lower] + o)
            && (p.lo < d.lo && d.hi < p.hi ==> Cut(s, i) == [lower] + o + [upper])
  {
    var o := Others(s, i);
    hide Others;
    var pieces := Pieces(s[i], s[i - 1]);
    if |pieces| == 1 {
      assert pieces[1..] == [];
      assert [pieces[0]] + o + [] == [pieces[0]] + o;
    }
  }

  /** setelem_adjust: element i is cut out of the one before it, if it lies within that. */
  method SetelemAdjust(elems: SetExpr, purge: SetExpr, i: nat) returns (ok: bool)
    requires elems != purge && 0 < i < |elems.exprs| && elems.exprs[i].remove
    requires elems.exprs[i - 1].lo <= elems.exprs[i].lo && !Same(elems.exprs[i], elems.exprs[i - 1])
    modifies elems`exprs, purge`exprs
    ensures ok == old(Within(elems.exprs[i], elems.exprs[i - 1]))
    ensures !ok ==> elems.exprs == old(elems.exprs) && purge.exprs == old(purge.exprs)
    ensures ok ==> && elems.exprs == old(Cut(elems.exprs, i))
                   && purge.exprs == old(purge.exprs) + old(Gone(elems.exprs[i - 1]))
    ensures ok ==> i <= |elems.exprs|
  {
    OthersLength(elems.exprs, i);
    CutForms(elems.exprs, i);
    hide Others, Cut, Pieces;
    var prev, d := elems.exprs[i - 1], elems.exprs[i];
    if prev.lo == d.lo && prev.hi > d.hi {
      AdjustElemLeft(elems, purge, i);
    } else if prev.lo < d.lo && prev.hi == d.hi {
      AdjustElemRight(elems, purge, i);
    } else if prev.lo < d.lo && prev.hi > d.hi {
      SplitRange(elems, purge, i);
    } else {
      return false;
    }
    return true;
  }

  /** The list after a successful deletion. */
  function After(s: seq<Elem>, at: nat): seq<Elem>
    requires 0 < at < |s|
  {
    if !Same(s[at], s[at - 1]) then Cut(s, at)
    else if s[at - 1].kernel then Others(s, at)
    else s[..at] + s[at + 1..]
  }

  lemma CutFacts(s: seq<Elem>, at: nat)
    requires 0 < at < |s|
    ensures multiset(Cut(s, at)) == multiset(Others(s, at) + Pieces(s[at], s[at - 1]))
    ensures |Cut(s, at)| >= |s| - 2
  {
    var others, pieces := Others(s, at), Pieces(s[at], s[at - 1]);
    hide Others, Pieces;
    if pieces == [] {
      assert others + pieces == others;
    } else {
      assert pieces == [pieces[0]] + pieces[1..];
    }
    assert |others| == |s| - 2 by { OthersLength(s, at); }
  }

  lemma OthersLength(s: seq<Elem>, at: nat)
    requires 0 < at < |s|
    ensures |Others(s, at)| == |s| - 2
    ensures s[..at] + s[at + 1..] == Without(s, at)
  {
  }

  lemma LeftoverFlags(d: Elem, p: Elem)
    ensures forall e :: e in Leftover(d, p) ==> e.remove == p.remove
    ensures Same(d, p) ==> Pieces(d, p) == []
  {
  }

  lemma AfterMultiset(s: seq<Elem>, at: nat)
    requires 0 < at < |s|
    ensures multiset(After(s, at)) == multiset(Others(s, at) + Leftover(s[at], s[at - 1]))
    ensures |After(s, at)| >= |s| - 2
  {
    hide Others, Pieces, Cut, Without, Leftover;
    OthersLength(s, at);
    CutFacts(s, at);
    if Same(s[at], s[at - 1]) {
      AfterSame(s, at);
    } else {
      AfterOther(s, at);
    }
  }

  lemma AfterSame(s: seq<Elem>, at: nat)
    requires 0 < at < |s| && Same(s[at], s[at - 1])
    ensures multiset(After(s, at)) == multiset(Others(s, at) + Leftover(s[at], s[at - 1]))
    ensures |After(s, at)| >= |s| - 2
  {
    var others := Others(s, at);
    OthersLength(s, at);
    WithoutMultiset(s, at);
    assert others + [] == others;
  }

  lemma AfterOther(s: seq<Elem>, at: nat)
    requires 0 < at < |s| && !Same(s[at], s[at - 1])
    ensures After(s, at) == Cut(s, at) && Leftover(s[at], s[at - 1]) == Pieces(s[at], s[at - 1])
  {
  }

  lemma WithoutMultiset(s: seq<Elem>, at: nat)
    requires 0 < at < |s|
    ensures multiset(Without(s, at)) == multiset(Others(s, at) + [s[at - 1]])
  {
    assert Without(s, at) == s[..at - 1] + [s[at - 1]] + s[at + 1..];
  }

  lemma AfterFacts(s: seq<Elem>, at: nat)
    requires at > 0 && RemoveAt(s, at)
    ensures multiset(After(s, at)) == multiset(Others(s, at) + Leftover(s[at], s[at - 1]))
    ensures |After(s, at)| >= |s| - 2 && NoRemove(After(s, at))
    ensures multiset(Without(s, at)) == multiset(Others(s, at) + [s[at - 1]])
  {
    hide Others, Leftover, After, Without;
    OthersFacts(s, at);
    WithoutMultiset(s, at);
    AfterMultiset(s, at);
    LeftoverFlags(s[at], s[at - 1]);
    SameMembers(After(s, at), Others(s, at) + Leftover(s[at], s[at - 1]));
  }

  lemma AfterForms(s: seq<Elem>, i: nat)
    requires 0 < i < |s|
    ensures var t := s[..i - 1] + s[i..]; t[..i - 1] + t[i..] == Others(s, i)
    ensures Same(s[i], s[i - 1]) ==> After(s, i) == if s[i - 1].kernel then Others(s, i) else s[..i] + s[i + 1..]
    ensures !Same(s[i], s[i - 1]) ==> After(s, i) == Cut(s, i)
  {
  }

  lemma RemoveHere(s: seq<Elem>, i: nat)
    requires RemoveAt(s, i)
    ensures i < |s| && s[i].remove
  {
  }

  /** An exact match: the request goes, and the element too if the kernel knows it. */
  method RemoveSame(elems: SetExpr, purge: SetExpr, i: nat) returns (next: nat)
    requires elems != purge && 0 < i < |elems.exprs| && Same(elems.exprs[i], elems.exprs[i - 1])
    modifies elems`exprs, purge`exprs
    ensures elems.exprs == old(After(elems.exprs, i))
    ensures purge.exprs == old(purge.exprs) + old(Gone(elems.exprs[i - 1])) && next <= |elems.exprs|
  {
    hide Cut, Others, Pieces, After;
    AfterForms(elems.exprs, i);
    var prev := elems.exprs[i - 1];
    next := i;
    if prev.kernel {
      purge.exprs := purge.exprs + [prev];
      elems.exprs := elems.exprs[..i - 1] + elems.exprs[i..];
      next := i - 1;
    }
    elems.exprs := elems.exprs[..next] + elems.exprs[next + 1..];
  }

  /** The part of the scan that deals with the element to remove; `next` is where the scan goes on. */
  method Remove(elems: SetExpr, purge: SetExpr, automerge: bool, i: nat) returns (ok: bool, next: nat)
    requires elems != purge && 0 < i < |elems.exprs| && RemoveAt(elems.exprs, i)
             && elems.exprs[i - 1].lo <= elems.exprs[i].lo
    modifies elems`exprs, purge`exprs
    ensures ok == old(Accepts(elems.exprs, i, automerge))
    ensures !ok ==> elems.exprs == old(elems.exprs) && purge.exprs == old(purge.exprs)
    ensures ok ==> && elems.exprs == old(After(elems.exprs, i))
                   && purge.exprs == old(purge.exprs) + old(Gone(elems.exprs[i - 1]))
    ensures ok ==> NoRemove(elems.exprs) && next <= |elems.exprs|
  {
    hide Cut, Others, Pieces, After, RemoveAt;
    var prev, e := elems.exprs[i - 1], elems.exprs[i];
    AfterFacts(elems.exprs, i);
    AfterForms(elems.exprs, i);
    assert e.remove by { RemoveHere(elems.exprs, i); }
    ok, next := true, i;
    if prev.lo == e.lo && prev.hi == e.hi {
      next := RemoveSame(elems, purge, i);
    } else if automerge {
      ok := SetelemAdjust(elems, purge, i);
    } else {
      ok := false;
    }
  }

  /** setelem_delete: the element to remove is taken out of the one listed before it. */
  method SetelemDelete(elems: SetExpr, purge: SetExpr, automerge: bool, ghost at: nat) returns (ok: bool)
    requires elems != purge && RemoveAt(elems.exprs, at)
    requires at > 0 ==> elems.exprs[at - 1].lo <= elems.exprs[at].lo
    modifies elems`exprs, purge`exprs
    ensures ok == old(Accepts(elems.exprs, at, automerge))
    ensures !ok ==> elems.exprs == old(elems.exprs) && purge.exprs == old(purge.exprs)
    ensures ok ==> && elems.exprs == old(After(elems.exprs, at))
                   && purge.exprs == old(purge.exprs) + old(Gone(elems.exprs[at - 1]))
  {
    hide After;
    ghost var s, purged := elems.exprs, purge.exprs;
    ghost var done := false;
    var prev: int, i: nat := -1, 0;
    while i < |elems.exprs|
      invariant 0 <= i <= |elems.exprs| && -1 <= prev < i
      invariant !done ==> i <= at && elems.exprs == s && purge.exprs == purged && prev == i - 1
      invariant done ==> Accepts(s, at, automerge) && NoRemove(elems.exprs)
      invariant done ==> elems.exprs == After(s, at) && purge.exprs == purged + Gone(s[at - 1])
      decreases !done, |elems.exprs| - i
    {
      var e := elems.exprs[i];
      var last := i + 1 == |elems.exprs|;
      assert done ==> e in elems.exprs;
      if prev == -1 && e.remove {
        return false;
      }
      if !e.remove {
        prev := i;
        i := i + 1;
        continue;
      }
      var removed, next := Remove(elems, purge, automerge, i);
      if !removed {
        return false;
      }
      prev, i := -1, next;
      done := true;
      if last {
        break;
      }
    }
    return true;
  }

  // ----- order

  /** When a deletion leaves the sorted list sorted: the pieces go to its ends. */
  ghost predicate KeepsOrder(rest: seq<Elem>, d: Elem, p: Elem) {
    || Same(d, p)
    || ((forall f :: f in rest ==> p.lo <= f.lo) && (p.lo == d.lo || p.hi == d.hi || rest == []))
  }

  /** Where the others are: those listed before the range end before it, those after begin after it. */
  lemma OthersAround(s: seq<Elem>, at: nat)
    requires 0 < at < |s| && Sorted(s) && Ranges(Without(s, at)) && AllSpaced(Without(s, at), 0)
    ensures forall j :: 0 <= j < at - 1 ==> s[j].lo <= s[j].hi < s[at - 1].lo
    ensures forall j :: at < j < |s| ==> s[at - 1].hi < s[j].lo
  {
    var w := Without(s, at);
    forall j | 0 <= j < |s| && j != at && j != at - 1
      ensures j < at - 1 ==> s[j].lo <= s[j].hi < s[at - 1].lo
      ensures j > at ==> s[at - 1].hi < s[j].lo
    {
      WithoutAt(s, at, if j < at then j else j - 1);
      WithoutAt(s, at, at - 1);
      assert if j < at then Spaced(w[j], w[at - 1], 0) else Spaced(w[at - 1], w[j - 1], 0);
    }
  }

  /** The pieces of any range but the first are out of order at the head of the list. */
  lemma LaterCut(s: seq<Elem>, at: nat)
    requires 1 < at < |s| && Sorted(s) && Within(s[at], s[at - 1]) && !Same(s[at], s[at - 1]) && s[at].lo <= s[at].hi
    requires forall j :: 0 <= j < at - 1 ==> s[j].lo < s[at - 1].lo
    ensures !Sorted(Cut(s, at)) && !KeepsOrder(Others(s, at), s[at], s[at - 1])
  {
    hide Pieces, Cut;
    var o, t := Others(s, at), Cut(s, at);
    CutForms(s, at);
    assert o[0] == s[0];
    assert t[1] == o[0] && t[1].lo < t[0].lo;
  }

  lemma FirstCut(s: seq<Elem>)
    requires 1 < |s| && Sorted(s) && Within(s[1], s[0]) && !Same(s[1], s[0]) && s[1].lo <= s[1].hi
    requires forall j :: 1 < j < |s| ==> s[0].hi < s[j].lo
    ensures Sorted(Cut(s, 1)) <==> s[0].lo == s[1].lo || s[0].hi == s[1].hi || |s| == 2
    ensures Sorted(Cut(s, 1)) <==> KeepsOrder(Others(s, 1), s[1], s[0])
  {
    hide Pieces, Cut, Sorted, Others;
    var p, d, o := s[0], s[1], Others(s, 1);
    CutForms(s, 1);
    FirstOthers(s);
    var lower, upper := p.(hi := d.lo - 1, kernel := false), p.(lo := d.hi + 1, kernel := false);
    if p.lo == d.lo {
      PutFirst(upper, o);
    } else if p.hi == d.hi {
      PutFirst(lower, o);
    } else {
      PutAround(lower, o, upper);
      assert o != [] ==> upper.lo < o[0].lo;
    }
  }

  lemma FirstOthers(s: seq<Elem>)
    requires 1 < |s| && Sorted(s) && s[0].lo <= s[0].hi && forall j :: 1 < j < |s| ==> s[0].hi < s[j].lo
    ensures var o := Others(s, 1); |o| == |s| - 2 && Sorted(o) && forall f :: f in o ==> s[0].lo <= s[0].hi < f.lo
  {
    assert Others(s, 1) == s[2..];
  }

  lemma PutFirst(x: Elem, o: seq<Elem>)
    requires Sorted(o)
    ensures (forall f :: f in o ==> x.lo <= f.lo) ==> Sorted([x] + o)
  {
    assert forall j :: 0 <= j < |o| ==> o[j] in o;
  }

  lemma PutAround(x: Elem, o: seq<Elem>, y: Elem)
    requires x.lo <= y.lo
    ensures o == [] ==> Sorted([x] + o + [y])
    ensures (exists j :: 0 <= j < |o| && y.lo < o[j].lo) ==> !Sorted([x] + o + [y])
  {
    var t := [x] + o + [y];
    if j :| 0 <= j < |o| && y.lo < o[j].lo {
      assert t[j + 1] == o[j] && t[|o| + 1] == y;
    }
  }

  lemma WholeRange(s: seq<Elem>, at: nat)
    requires 0 < at < |s| && Sorted(s) && Same(s[at], s[at - 1])
    ensures Sorted(After(s, at)) && KeepsOrder(Others(s, at), s[at], s[at - 1])
  {
  }

  lemma CutInstead(s: seq<Elem>, at: nat)
    requires 0 < at < |s| && !Same(s[at], s[at - 1])
    ensures After(s, at) == Cut(s, at)
  {
  }

  /**
   A deletion leaves the list sorted exactly if it takes a whole range, or cuts the first
   range at one end, or splits the only one.
   */
  lemma AfterSorted(s: seq<Elem>, at: nat)
    requires 0 < at < |s| && Sorted(s) && Within(s[at], s[at - 1]) && s[at].lo <= s[at].hi
    requires Ranges(Without(s, at)) && AllSpaced(Without(s, at), 0)
    ensures Sorted(After(s, at)) <==>
              Same(s[at], s[at - 1]) || (at == 1 && (s[0].lo == s[1].lo || s[0].hi == s[1].hi || |s| == 2))
    ensures Sorted(After(s, at)) <==> KeepsOrder(Others(s, at), s[at], s[at - 1])
  {
    hide KeepsOrder, Cut, Others, Without, Sorted, After;
    if Same(s[at], s[at - 1]) {
      WholeRange(s, at);
    } else {
      CutInstead(s, at);
      OthersAround(s, at);
      if at > 1 {
        LaterCut(s, at);
      } else {
        FirstCut(s);
      }
    }
  }

  lemma ElsewhereIn(l: seq<Elem>, at: nat, s: seq<Elem>)
    requires at < |l| && multiset(Without(l, at)) == multiset(s)
    ensures forall f :: f in s ==> exists i :: 0 <= i < |l| && i != at && l[i] == f
    ensures forall i :: 0 <= i < |l| && i != at ==> l[i] in s
  {
    SameMembers(Without(l, at), s);
    forall f | f in s ensures exists i :: 0 <= i < |l| && i != at && l[i] == f {
      var k :| 0 <= k < |Without(l, at)| && Without(l, at)[k] == f;
      assert l[if k < at then k else k + 1] == f;
    }
    forall i | 0 <= i < |l| && i != at ensures l[i] in s {
      WithoutAt(l, at, if i < at then i else i - 1);
    }
  }

  /** A refused deletion names numbers that are not there, or, without auto-merge, a range that is not. */
  lemma Refused(e: seq<Elem>, d: Elem, l: seq<Elem>, at: nat, automerge: bool)
    requires Ranges(e) && AllSpaced(e, if automerge then 1 else 0) && d.lo <= d.hi
    requires at < |l| && Same(l[at], d) && multiset(Without(l, at)) == multiset(e) && Sorted(l)
    requires forall i :: 0 <= i < at ==> l[i].lo <= d.lo
    requires forall i :: at < i < |l| ==> d.lo < l[i].lo
    requires !Accepts(l, at, automerge)
    ensures automerge ==> !(Den([d]) <= Den(e))
    ensures !automerge ==> forall f :: f in e ==> !Same(d, f)
  {
    ElsewhereIn(l, at, e);
    if at == 0 {
      forall f | f in e ensures d.lo < f.lo {
        var i :| 0 <= i < |l| && i != at && l[i] == f;
      }
      DenOne(d);
      assert d.Has(d.lo) && d.lo !in Den(e);
    } else {
      var p := l[at - 1];
      assert p in e;
      forall f | f in e && f.lo <= d.lo ensures f.lo <= p.lo {
        var i :| 0 <= i < |l| && i != at && l[i] == f;
      }
      if automerge {
        CoveredWithin(e, d, p);
      } else {
        forall f | f in e ensures !Same(d, f) {
          if f != p {
            SpacedMembers(e, p, f, 0);
          }
        }
      }
    }
  }

  lemma Ordered(e: seq<Elem>, l: seq<Elem>, at: nat, automerge: bool)
    requires Ranges(e) && AllSpaced(e, if automerge then 1 else 0) && Sorted(l)
    requires 0 < at < |l| && Accepts(l, at, automerge) && l[at].lo <= l[at].hi
             && multiset(Without(l, at)) == multiset(e)
    ensures Sorted(After(l, at)) <==> KeepsOrder(Others(l, at), l[at], l[at - 1])
  {
    hide Without, After, KeepsOrder;
    SpacedPermute(e, Without(l, at), if automerge then 1 else 0);
    DenPermute(e, Without(l, at));
    assert AllSpaced(Without(l, at), 0);
    AfterSorted(l, at);
  }

  lemma RemoveFlag(d: Elem, p: Elem)
    ensures var d' := d.(remove := true);
            Within(d', p) == Within(d, p) && Same(d', p) == Same(d, p) && Leftover(d', p) == Leftover(d, p)
  {
  }

  /** __set_delete: one range is removed, if it is there. */
  method DeleteOne(cache: SetExpr, d: Elem, purge: SetExpr, automerge: bool)
    returns (ok: bool, ghost p: Elem, ghost rest: seq<Elem>)
    requires cache != purge && Ranges(cache.exprs) && NoRemove(cache.exprs) && d.lo <= d.hi
    requires AllSpaced(cache.exprs, if automerge then 1 else 0)
    modifies cache`exprs, purge`exprs
    ensures ok ==> && p in old(cache.exprs) && Within(d, p) && (automerge || Same(d, p)) && NoRemove(cache.exprs)
                   && multiset(old(cache.exprs)) == multiset(rest + [p])
                   && multiset(cache.exprs) == multiset(rest + Leftover(d, p))
                   && purge.exprs == old(purge.exprs) + Gone(p)
    ensures ok ==> (Sorted(cache.exprs) <==> KeepsOrder(rest, d, p))
    ensures !ok && automerge ==> !(Den([d]) <= old(Den(cache.exprs)))
    ensures !ok && !automerge ==> forall f :: f in old(cache.exprs) ==> !Same(d, f)
  {
    hide Den, Ranges, AllSpaced, ListSort, Others, Leftover, Without, After, Sorted;
    ghost var e := cache.exprs;
    var marked := d.(remove := true);
    cache.exprs := ListSort(cache.exprs + [marked], Low);
    ghost var l := cache.exprs;
    ghost var at := Placed(e, marked);
    ok := SetelemDelete(cache, purge, automerge, at);
    if ok {
      p, rest := l[at - 1], Others(l, at);
      AfterFacts(l, at);
      RemoveFlag(d, p);
      SameMembers(e, rest + [p]);
      Ordered(e, l, at, automerge);
      assert KeepsOrder(rest, d, p) <==> KeepsOrder(rest, marked, p);
    } else {
      p, rest := d, [];
      Refused(e, d, l, at, automerge);
    }
  }
}
