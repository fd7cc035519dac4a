/** set_to_intervals: lowering ranges to the list of boundaries that the kernel takes. */
module Boundaries {
  import opened Intervals
  import opened PowersOfTwo

  /** A boundary: where a range starts or, with EXPR_F_INTERVAL_END, the first number after it. */
  datatype Boundary = Boundary(key: int, end: bool, open: bool)

  /** mpz_scan0 from bit 0: the position of the lowest clear bit. */
  function Scan0(x: nat): (i: nat)
    ensures Pow2(i) <= x + 1
  {
    if x % 2 == 0 then 0 else 1 + Scan0(x / 2)
  }

  /** The scan stops at the key length exactly for the greatest key. */
  lemma {:induction false} Scan0IsAllOnes(x: nat, len: nat)
    requires x < Pow2(len)
    ensures Scan0(x) == len <==> x == Pow2(len) - 1
  {
    if len > 0 {
      if x % 2 == 1 {
        Scan0IsAllOnes(x / 2, len - 1);
      }
    }
  }

  /** What the kernel makes of a boundary list: the last boundary at or before v decides. */
  predicate Inside(s: seq<Boundary>, v: int) {
    s != [] && (var last := s[|s| - 1]; if last.key <= v then !last.end else Inside(s[..|s| - 1], v))
  }

  lemma InsideSnoc(s: seq<Boundary>, b: Boundary, v: int)
    ensures Inside(s + [b], v) == if b.key <= v then !b.end else Inside(s, v)
  {
    assert (s + [b])[..|s|] == s;
  }

  /** segtree_needs_first_segment */
  predicate NeedsFirstSegment(add: bool, root: bool, anonymous: bool, setInit: SetExpr?, init: SetExpr)
    reads setInit
  {
    add && !root && (anonymous || (setInit != null && setInit.size == 0) || setInit == null || setInit == init)
  }

  /** Keys do not decrease; only the end of one range and the start of the next may share one, and not if strict. */
  ghost predicate Ordered(s: seq<Boundary>, strict: bool) {
    forall i, j :: 0 <= i < j < |s| ==>
      s[i].key < s[j].key || (!strict && s[i].key == s[j].key && j == i + 1 && s[i].end && !s[j].end)
  }

  ghost predicate Bounded(s: seq<Boundary>, len: nat) {
    forall b :: b in s ==> 0 <= b.key < Pow2(len)
  }

  /** Two starts with the same key. */
  ghost predicate Repeats(s: seq<Boundary>) {
    exists i, j :: 0 <= i < j < |s| && s[i].key == s[j].key && !s[i].end && !s[j].end
  }

  /** Sorted ranges of which one may be listed again, as set_overlap lets through, but no two others share a number. */
  ghost predicate Consecutive(s: seq<Elem>) {
    forall i, j :: 0 <= i < j < |s| ==> s[i].hi < s[j].lo || (s[i].lo == s[j].lo && s[i].hi == s[j].hi)
  }

  /** The keys are in order as long as no range came twice. */
  ghost predicate InOrder(s: seq<Boundary>, pending: seq<Boundary>, done: seq<Elem>, strict: bool) {
    if Separated(done, 0) then Ordered(s + pending, strict) else Repeats(s)
  }

  /** The ranges so far, as the boundaries moved to the list and the end that is held back. */
  ghost predicate Lowered(s: seq<Boundary>, pending: seq<Boundary>, done: seq<Elem>, len: nat, strict: bool) {
    && Bounded(s + pending, len) && InOrder(s, pending, done, strict)
    && (forall v :: 0 <= v < Pow2(len) ==> (Inside(s + pending, v) <==> Covers(done, v)))
    && if done == [] then pending == [] && (s == [] || s == [Boundary(0, true, false)])
       else s != [] && s[|s| - 1] == StartOf(done[|done| - 1], len) && pending == EndOf(done[|done| - 1], len)
  }

  lemma OrderedSnoc(s: seq<Boundary>, b: Boundary, strict: bool)
    requires Ordered(s, strict)
    requires s != [] ==> s[|s| - 1].key < b.key || (!strict && s[|s| - 1].key == b.key && s[|s| - 1].end && !b.end)
    ensures Ordered(s + [b], strict)
  {
    var t := s + [b];
    forall i, j | 0 <= i < j < |t|
      ensures t[i].key < t[j].key || (!strict && t[i].key == t[j].key && j == i + 1 && t[i].end && !t[j].end)
    {
      if j == |s| && i < |s| - 1 {
        assert s[i].key < s[|s| - 1].key || (s[i].key == s[|s| - 1].key && s[i].end && !s[|s| - 1].end);
      }
    }
  }

  lemma OrderedPrefix(s: seq<Boundary>, t: seq<Boundary>, strict: bool)
    requires Ordered(s + t, strict)
    ensures Ordered(s, strict) && !Repeats(s)
  {
    var u := s + t;
    forall i, j | 0 <= i < j < |s|
      ensures s[i].key < s[j].key || (!strict && s[i].key == s[j].key && j == i + 1 && s[i].end && !s[j].end)
    {
      assert u[i] == s[i] && u[j] == s[j];
    }
  }

  /** The end held back goes to the list, unless in an anonymous set the next range starts there. */
  function Flushed(s: seq<Boundary>, pending: seq<Boundary>, lo: int, strict: bool): seq<Boundary> {
    if pending != [] && (!strict || pending[0].key != lo) then s + pending else s
  }

  function EndOf(e: Elem, len: nat): seq<Boundary> {
    if e.hi == Pow2(len) - 1 then [] else [Boundary(e.hi + 1, true, false)]
  }

  function StartOf(e: Elem, len: nat): Boundary {
    Boundary(e.lo, false, e.hi == Pow2(len) - 1)
  }

  ghost predicate Fits(s: seq<Boundary>, done: seq<Elem>, e: Elem, len: nat) {
    0 <= e.lo <= e.hi < Pow2(len) && Consecutive(done + [e]) && (done == [] && s != [] ==> e.lo > 0)
  }

  lemma FlushedFacts(s: seq<Boundary>, pending: seq<Boundary>, e: Elem, len: nat, strict: bool)
    requires Bounded(s + pending, len) && |pending| <= 1
    ensures var f := Flushed(s, pending, e.lo, strict);
            && Bounded(f, len) && s <= f && forall v :: 0 <= v < e.lo ==> Inside(f, v) == Inside(s + pending, v)
  {
    hide Inside;
    assert forall b :: b in s ==> b in s + pending;
    if pending == [] {
      assert s + pending == s;
    } else {
      assert pending == [pending[0]];
      forall v | 0 <= v < e.lo ensures pending[0].key == e.lo ==> Inside(s, v) == Inside(s + pending, v) {
        InsideSnoc(s, pending[0], v);
      }
    }
  }

  lemma SeparatedPrefix(done: seq<Elem>, e: Elem)
    requires Separated(done + [e], 0)
    ensures Separated(done, 0) && (done != [] ==> done[|done| - 1].hi < e.lo)
  {
    var t := done + [e];
    assert forall i :: 0 <= i < |done| ==> t[i] == done[i];
    assert t[|done|] == e;
  }

  /** A range that is not apart from the separated ones before it is the last of them again. */
  lemma LastAgain(done: seq<Elem>, e: Elem)
    requires Separated(done, 0) && !Separated(done + [e], 0) && Consecutive(done + [e]) && e.lo <= e.hi
    requires forall d :: d in done ==> d.lo <= d.hi
    ensures done != [] && done[|done| - 1].lo == e.lo
  {
    var t, n := done + [e], |done|;
    assert n > 0 ==> t[n - 1].hi < t[n].lo || t[n - 1].lo == t[n].lo;
    if n == 0 || t[n - 1].hi < t[n].lo {
      SeparatedSnoc(done, e);
    }
  }

  lemma SeparatedSnoc(done: seq<Elem>, e: Elem)
    requires Separated(done, 0) && (forall d :: d in done ==> d.lo <= d.hi)
             && (done != [] ==> done[|done| - 1].hi < e.lo)
    ensures Separated(done + [e], 0)
  {
    forall i | 0 <= i < |done| ensures done[i].hi < e.lo {
      assert i < |done| - 1 ==> done[i].hi < done[|done| - 1].lo;
      assert done[|done| - 1] in done;
    }
  }

  /** The order of the keys after one more range. */
  lemma OrderStep(s: seq<Boundary>, pending: seq<Boundary>, done: seq<Elem>, e: Elem, len: nat, strict: bool)
    requires Lowered(s, pending, done, len, strict) && Fits(s, done, e, len)
    requires forall d :: d in done ==> d.hi < Pow2(len) && d.lo <= d.hi
    ensures InOrder(Flushed(s, pending, e.lo, strict) + [StartOf(e, len)], EndOf(e, len), done + [e], strict)
  {
    hide Inside, Covers, Bounded, Consecutive;
    var f, start, end := Flushed(s, pending, e.lo, strict), StartOf(e, len), EndOf(e, len);
    var t := f + [start];
    if Separated(done + [e], 0) {
      SeparatedPrefix(done, e);
      OrderedPrefix(s, pending, strict);
      assert done != [] ==> done[|done| - 1] in done;
      hide Separated, Ordered;
      assert s + [] == s;
      OrderedSnoc(f, start, strict);
      if end == [] {
        assert t + end == t;
      } else {
        OrderedSnoc(t, end[0], strict);
      }
    } else if Separated(done, 0) {
      LastAgain(done, e);
      assert f[|s| - 1] == s[|s| - 1];
      assert t[|s| - 1].key == t[|f|].key && !t[|s| - 1].end && !t[|f|].end;
    } else {
      var i, j :| 0 <= i < j < |s| && s[i].key == s[j].key && !s[i].end && !s[j].end;
      assert t[i] == s[i] && t[j] == s[j];
    }
  }

  lemma LoweredStep(s: seq<Boundary>, pending: seq<Boundary>, done: seq<Elem>, e: Elem, len: nat, strict: bool)
    requires Lowered(s, pending, done, len, strict) && Fits(s, done, e, len)
    requires forall d :: d in done ==> d.hi < Pow2(len) && d.lo <= d.hi
    ensures Lowered(Flushed(s, pending, e.lo, strict) + [StartOf(e, len)], EndOf(e, len), done + [e], len, strict)
  {
    OrderStep(s, pending, done, e, len, strict);
    hide Flushed, Inside, Covers, InOrder;
    var f, start, end := Flushed(s, pending, e.lo, strict), StartOf(e, len), EndOf(e, len);
    FlushedFacts(s, pending, e, len, strict);
    var s' := f + [start];
    assert end == [] ==> s' + end == s';
    forall b: Boundary | b in s' + end ensures 0 <= b.key < Pow2(len) {
      assert b in f || b == start || b in end;
    }
    forall v | 0 <= v < Pow2(len) ensures Inside(s' + end, v) <==> Covers(done + [e], v) {
      InsideSnoc(f, start, v);
      if end != [] {
        assert end == [end[0]];
        InsideSnoc(s', end[0], v);
      }
      CoversSnoc(done, e, v);
      if v >= e.lo {
        NotBefore(done, e, v);
      }
    }
  }

  // ----- which boundaries are listed

  /**
   The boundaries of separated ranges: every start, open exactly at the greatest key; the
   end of every range below the greatest key, but in an anonymous set not where another
   range starts; and perhaps an end at 0 before all of them.
   */
  ghost predicate Bounds(b: Boundary, all: seq<Elem>, zero: bool, len: nat, anonymous: bool) {
    || (exists e :: e in all && b == Boundary(e.lo, false, e.hi == Pow2(len) - 1))
    || (exists e :: e in all && e.hi < Pow2(len) - 1 && b == Boundary(e.hi + 1, true, false)
                    && !(anonymous && exists f :: f in all && f.lo == e.hi + 1))
    || (zero && b == Boundary(0, true, false))
  }

  ghost predicate Listed(s: seq<Boundary>, all: seq<Elem>, zero: bool, len: nat, anonymous: bool) {
    forall b :: b in s <==> Bounds(b, all, zero, len, anonymous)
  }

  /** The bounds of one more range, in terms of those before: only the last end may be left out for it. */
  lemma BoundsSnoc(b: Boundary, done: seq<Elem>, e: Elem, zero: bool, len: nat, anonymous: bool)
    requires Separated(done + [e], 0) && Keyed(done + [e], len)
    ensures Bounds(b, done + [e], zero, len, anonymous) <==>
              || (Bounds(b, done, zero, len, anonymous)
                  && !(anonymous && b == Boundary(e.lo, true, false) && e.lo != 0))
              || b == StartOf(e, len) || b in EndOf(e, len)
  {
    var t := done + [e];
    assert t[|done|] == e && e in t;
    assert forall d :: d in done ==> d in t;
    forall d | d in done ensures d.lo <= d.hi < e.lo {
      var i :| 0 <= i < |done| && done[i] == d;
      assert t[i].hi < t[|done|].lo;
    }
    assert forall d :: d in t ==> d in done || d == e;
  }

  lemma ListedStep(s: seq<Boundary>, pending: seq<Boundary>, done: seq<Elem>, e: Elem, zero: bool, len: nat,
                   strict: bool)
    requires Lowered(s, pending, done, len, strict) && Separated(done + [e], 0) && Keyed(done + [e], len)
    requires Listed(s + pending, done, zero, len, strict) && (zero ==> done != [] || e.lo != 0)
    ensures Listed(Flushed(s, pending, e.lo, strict) + [StartOf(e, len)] + EndOf(e, len), done + [e], zero, len, strict)
  {
    var f := Flushed(s, pending, e.lo, strict);
    var t := f + [StartOf(e, len)] + EndOf(e, len);
    SeparatedPrefix(done, e);
    hide Bounds, Inside, Covers, Separated;
    forall b ensures b in t <==> Bounds(b, done + [e], zero, len, strict) {
      BoundsSnoc(b, done, e, zero, len, strict);
      assert b in s + pending <==> Bounds(b, done, zero, len, strict);
      FlushedMembers(s, pending, e, strict, b);
      if strict && b == Boundary(e.lo, true, false) && e.lo != 0 {
        EndDropped(s, pending, done, e, len);
      }
    }
  }

  lemma FlushedMembers(s: seq<Boundary>, pending: seq<Boundary>, e: Elem, strict: bool, b: Boundary)
    requires |pending| <= 1
    ensures b in Flushed(s, pending, e.lo, strict) ==> b in s + pending
    ensures b in s + pending ==> b in Flushed(s, pending, e.lo, strict) || (strict && b.key == e.lo && b in pending)
  {
  }

  /** In an anonymous set no end is left where the next range starts. */
  lemma EndDropped(s: seq<Boundary>, pending: seq<Boundary>, done: seq<Elem>, e: Elem, len: nat)
    requires Lowered(s, pending, done, len, true) && Separated(done, 0) && e.lo != 0
    requires done != [] ==> done[|done| - 1].hi < e.lo && done[|done| - 1].lo < e.lo
    ensures Boundary(e.lo, true, false) !in Flushed(s, pending, e.lo, true)
  {
    OrderedPrefix(s, pending, true);
    forall c | c in s ensures c.key != e.lo {
      var i :| 0 <= i < |s| && s[i] == c;
      assert i == |s| - 1 || s[i].key < s[|s| - 1].key;
    }
  }

  lemma CoversSnoc(done: seq<Elem>, e: Elem, v: int)
    ensures Covers(done + [e], v) <==> Covers(done, v) || e.Has(v)
  {
    var t := done + [e];
    if Covers(done, v) {
      var f :| f in done && f.Has(v);
      assert f in t;
    }
    assert e in t;
  }

  /** From the next range on, the ranges before it cover nothing that it does not. */
  lemma NotBefore(done: seq<Elem>, e: Elem, v: int)
    requires Consecutive(done + [e]) && e.lo <= v
    ensures Covers(done, v) ==> e.Has(v)
  {
    var t := done + [e];
    if Covers(done, v) {
      var f :| f in done && f.Has(v);
      var i :| 0 <= i < |done| && done[i] == f;
      assert t[i] == f && t[|done|] == e;
    }
  }

  /** The boundaries of one range: the end held back, the start, and the next end to hold back. */
  method LowerOne(s: seq<Boundary>, pending: seq<Boundary>, e: Elem, len: nat, anonymous: bool)
    returns (intervals: seq<Boundary>, newelem: seq<Boundary>)
    requires 0 <= e.hi < Pow2(len) && |pending| <= 1
    ensures intervals == Flushed(s, pending, e.lo, anonymous) + [StartOf(e, len)] && newelem == EndOf(e, len)
    ensures |newelem| <= 1
  {
    intervals, newelem := s, pending;
    StepForms(s, pending, e, len, anonymous);
    if newelem != [] {
      if !anonymous || newelem[0].key != e.lo {
        intervals := intervals + newelem;
      }
    }
    newelem := [];
    var open := true;
    AtMost(e, len);
    if Scan0(e.hi) != len {
      newelem := [Boundary(e.hi + 1, true, false)];
      open := false;
    }
    intervals := intervals + [Boundary(e.lo, false, open)];
  }

  lemma FirstKey(s: seq<Boundary>, pending: seq<Boundary>, e: Elem, len: nat, strict: bool)
    ensures s != [] ==> Flushed(s, pending, e.lo, strict) != [] && Flushed(s, pending, e.lo, strict)[0] == s[0]
    ensures s == [] && pending == [] ==> Flushed(s, pending, e.lo, strict) == [] && StartOf(e, len).key == e.lo
  {
  }

  /**
   set_to_intervals for keys of the given length.  A number is inside the boundary list
   exactly if it is in one of the ranges; no boundary is past the greatest key.  The keys
   are in order, in an anonymous set strictly, exactly if no range is listed twice; then
   the boundaries are the starts and ends of the ranges, without the end where in an
   anonymous set the next range starts, and an end at 0 if the first segment is needed.
   */
  method SetToIntervals(init: SetExpr, len: nat, anonymous: bool, setInit: SetExpr?, root: bool, add: bool)
    returns (intervals: seq<Boundary>)
    requires Consecutive(init.exprs) && Keyed(init.exprs, len)
    modifies init
    ensures init.exprs == []
    ensures forall v :: 0 <= v < Pow2(len) ==> (Inside(intervals, v) <==> v in old(Den(init.exprs)))
    ensures Bounded(intervals, len) && (Ordered(intervals, anonymous) <==> old(Separated(init.exprs, 0)))
    ensures var all := old(init.exprs);
            var first := add && !root && (anonymous || setInit == null || setInit == init || old(setInit.size) == 0);
            && (first && all != [] ==> intervals != [] && intervals[0].key == 0)
            && init.size == old(init.size) + |all| + (if first && all != [] && all[0].lo != 0 then 1 else 0)
            && (Separated(all, 0) ==>
                  forall b :: b in intervals <==>
                    || (exists e :: e in all && b == Boundary(e.lo, false, e.hi == Pow2(len) - 1))
                    || (exists e :: e in all && e.hi < Pow2(len) - 1 && b == Boundary(e.hi + 1, true, false)
                                    && !(anonymous && exists f :: f in all && f.lo == e.hi + 1))
                    || (first && all != [] && all[0].lo != 0 && b == Boundary(0, true, false)))
  {
    hide Progress, Flushed, StartOf, EndOf, Inside, Den, Ordered, Bounded, Separated, Consecutive;
    ghost var all, size0 := init.exprs, init.size;
    ghost var first := NeedsFirstSegment(add, root, anonymous, setInit, init);
    ghost var n: nat := 0;
    var prev := false;
    var newelem: seq<Boundary> := [];
    intervals := [];
    ProgressStart(all, size0, first, len, anonymous);
    while init.exprs != []
      invariant Progress(all, n, init.exprs, intervals, newelem, prev, init.size, size0, first, len, anonymous)
      invariant |newelem| <= 1 && n + |init.exprs| == |all|
      invariant !prev ==> NeedsFirstSegment(add, root, anonymous, setInit, init) == first
      decreases |init.exprs|
    {
      var e := init.exprs[0];
      ProgressStep(all, n, init.exprs, intervals, newelem, prev, init.size, size0, first, len, anonymous);
      if !prev && NeedsFirstSegment(add, root, anonymous, setInit, init) && e.lo != 0 {
        intervals := [Boundary(0, true, false)] + intervals;
        init.size := init.size + 1;
      }
      intervals, newelem := LowerOne(intervals, newelem, e, len, anonymous);
      init.size := init.size + 1;
      init.exprs := init.exprs[1..];
      prev := true;
      n := n + 1;
    }
    ProgressEnd(all, n, init.exprs, intervals, newelem, prev, init.size, size0, first, len, anonymous);
    if newelem != [] {
      intervals := intervals + newelem;
    }
  }

  /** Where the scan stands after n ranges. */
  ghost predicate Progress(all: seq<Elem>, n: nat, rest: seq<Elem>, intervals: seq<Boundary>, newelem: seq<Boundary>,
                           prev: bool, size: int, size0: int, first: bool, len: nat, strict: bool) {
    && n <= |all| && rest == all[n..] && prev == (n > 0)
    && Lowered(intervals, newelem, all[..n], len, strict)
    && (n == 0 ==> intervals == [] && newelem == [] && size == size0)
    && (n > 0 ==> size == size0 + n + Extra(all, first) && intervals != [] && (first ==> intervals[0].key == 0))
    && (Separated(all[..n], 0) ==> Listed(intervals + newelem, all[..n], n > 0 && Extra(all, first) > 0, len, strict))
  }

  ghost function Extra(all: seq<Elem>, first: bool): nat {
    if first && all != [] && all[0].lo != 0 then 1 else 0
  }

  lemma ProgressStart(all: seq<Elem>, size0: int, first: bool, len: nat, strict: bool)
    ensures Progress(all, 0, all, [], [], false, size0, size0, first, len, strict)
  {
    assert all[..0] == [];
    LoweredStart(len, strict);
  }

  ghost predicate Keyed(all: seq<Elem>, len: nat) {
    forall e :: e in all ==> 0 <= e.lo <= e.hi < Pow2(len)
  }

  lemma ProgressStep(all: seq<Elem>, n: nat, rest: seq<Elem>, intervals: seq<Boundary>, newelem: seq<Boundary>,
                     prev: bool, size: int, size0: int, first: bool, len: nat, strict: bool)
    requires Progress(all, n, rest, intervals, newelem, prev, size, size0, first, len, strict)
    requires rest != [] && Consecutive(all) && Keyed(all, len)
    ensures 0 <= rest[0].lo <= rest[0].hi < Pow2(len)
    ensures var e := rest[0];
            var extra := !prev && first && e.lo != 0;
            var s := if extra then [Boundary(0, true, false)] + intervals else intervals;
            Progress(all, n + 1, rest[1..], Flushed(s, newelem, e.lo, strict) + [StartOf(e, len)], EndOf(e, len), true,
                     size + (if extra then 2 else 1), size0, first, len, strict)
  {
    hide Lowered, Flushed, StartOf, EndOf, Fits, Listed, Separated;
    var e := rest[0];
    assert e == all[n] && e in all && all[..n + 1] == all[..n] + [e];
    var s := if !prev && first && e.lo != 0 then [Boundary(0, true, false)] + intervals else intervals;
    if n == 0 {
      assert all[..n] == [] && (s == [] || s == [Boundary(0, true, false)]);
      LoweredStart(len, strict);
    }
    FitsHere(s, all, n, len);
    assert forall d :: d in all[..n] ==> d in all;
    if Separated(all[..n + 1], 0) {
      ListedNext(s, intervals, newelem, all, n, first, len, strict);
    }
    LoweredStep(s, newelem, all[..n], e, len, strict);
    FirstKey(s, newelem, e, len, strict);
  }

  lemma ListedNext(s: seq<Boundary>, intervals: seq<Boundary>, newelem: seq<Boundary>, all: seq<Elem>, n: nat,
                   first: bool, len: nat, strict: bool)
    requires n < |all| && Separated(all[..n + 1], 0) && Keyed(all, len)
    requires Separated(all[..n], 0) ==>
               Listed(intervals + newelem, all[..n], n > 0 && Extra(all, first) > 0, len, strict)
    requires n == 0 ==> intervals == [] && newelem == []
    requires s == if n == 0 && first && all[0].lo != 0 then [Boundary(0, true, false)] + intervals else intervals
    requires Lowered(s, newelem, all[..n], len, strict)
    ensures Listed(Flushed(s, newelem, all[n].lo, strict) + [StartOf(all[n], len)] + EndOf(all[n], len), all[..n + 1],
                   Extra(all, first) > 0, len, strict)
  {
    var e := all[n];
    assert all[..n + 1] == all[..n] + [e];
    SeparatedPrefix(all[..n], e);
    ListedFirst(s, intervals, newelem, all, n, first, len, strict);
    ListedStep(s, newelem, all[..n], e, Extra(all, first) > 0, len, strict);
  }

  lemma ListedFirst(s: seq<Boundary>, intervals: seq<Boundary>, newelem: seq<Boundary>, all: seq<Elem>, n: nat,
                    first: bool, len: nat, strict: bool)
    requires n < |all| && Listed(intervals + newelem, all[..n], n > 0 && Extra(all, first) > 0, len, strict)
    requires n == 0 ==> intervals == [] && newelem == []
    requires s == if n == 0 && first && all[0].lo != 0 then [Boundary(0, true, false)] + intervals else intervals
    ensures Listed(s + newelem, all[..n], Extra(all, first) > 0, len, strict)
  {
    if n == 0 {
      assert all[..0] == [];
      assert s + newelem == s;
    }
  }

  lemma ProgressEnd(all: seq<Elem>, n: nat, rest: seq<Elem>, intervals: seq<Boundary>, newelem: seq<Boundary>,
                    prev: bool, size: int, size0: int, first: bool, len: nat, strict: bool)
    requires Progress(all, n, rest, intervals, newelem, prev, size, size0, first, len, strict) && rest == []
    ensures var t := intervals + newelem;
            && Bounded(t, len) && (Ordered(t, strict) <==> Separated(all, 0)) && (newelem == [] ==> t == intervals)
            && (forall v :: 0 <= v < Pow2(len) ==> (Inside(t, v) <==> v in Den(all)))
            && (first && all != [] ==> t != [] && t[0].key == 0)
            && size == size0 + |all| + Extra(all, first)
            && (Separated(all, 0) ==> Listed(t, all, Extra(all, first) > 0, len, strict))
  {
    hide Lowered, Inside, Den, Ordered, Bounded;
    assert all[..n] == all;
    LoweredEnd(intervals, newelem, all, len, strict);
  }

  lemma LoweredStart(len: nat, strict: bool)
    ensures Lowered([], [], [], len, strict) && Lowered([Boundary(0, true, false)], [], [], len, strict)
  {
    var b := Boundary(0, true, false);
    assert [b] + [] == [b];
    assert forall v :: Inside([b], v) == false;
  }

  lemma AtMost(e: Elem, len: nat)
    requires 0 <= e.hi < Pow2(len)
    ensures Scan0(e.hi) == len <==> e.hi == Pow2(len) - 1
  {
    Scan0IsAllOnes(e.hi, len);
  }

  lemma FitsHere(s: seq<Boundary>, all: seq<Elem>, n: nat, len: nat)
    requires n < |all| && 0 <= all[n].lo <= all[n].hi < Pow2(len) && Consecutive(all)
    requires n == 0 && s != [] ==> all[n].lo > 0
    ensures Fits(s, all[..n], all[n], len)
  {
    assert all[..n] + [all[n]] == all[..n + 1];
  }

  lemma StepForms(s: seq<Boundary>, pending: seq<Boundary>, e: Elem, len: nat, strict: bool)
    ensures Flushed(s, pending, e.lo, strict) ==
            if pending != [] && (!strict || pending[0].key != e.lo) then s + pending else s
    ensures StartOf(e, len) == Boundary(e.lo, false, e.hi == Pow2(len) - 1)
    ensures EndOf(e, len) == if e.hi == Pow2(len) - 1 then [] else [Boundary(e.hi + 1, true, false)]
  {
  }

  lemma LoweredEnd(s: seq<Boundary>, pending: seq<Boundary>, all: seq<Elem>, len: nat, strict: bool)
    requires Lowered(s, pending, all, len, strict)
    ensures var t := s + pending;
            && Bounded(t, len) && (Ordered(t, strict) <==> Separated(all, 0))
            && (forall v :: 0 <= v < Pow2(len) ==> (Inside(t, v) <==> v in Den(all)))
            && (pending == [] ==> t == s)
  {
    if Ordered(s + pending, strict) {
      OrderedPrefix(s, pending, strict);
    }
  }
}
