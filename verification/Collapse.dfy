/** nft_cmd_collapse and nft_cmd_uncollapse: element commands for one set joined into one, and taken apart again. */
module Collapse {

  datatype Option<T> = None | Some(value: T)

  /** A set element; `cmd` names the command it was moved out of. */
  datatype Elem = Elem(data: nat, cmd: Option<nat>)

  datatype Op = Add | Create | Other

  datatype Handle = Handle(family: nat, table: string, set_: string)

  /**
   A command with its elements and their count.  Commands have different ids, which stand
   for their addresses; `setRef` is what evaluation looked up.
   */
  datatype Cmd = Cmd(id: nat, op: Op, elements: bool, handle: Handle, exprs: seq<Elem>, size: int,
                     collapseList: seq<Cmd>, setRef: Option<nat>)

  /** Commands that can be joined. */
  predicate Like(a: Cmd, b: Cmd) {
    a.op != Other && a.op == b.op && a.elements && b.elements && a.handle == b.handle
  }

  /** The elements moved out of one command, or out of none, as that command listed them. */
  function Owned(s: seq<Elem>, cmd: Option<nat>): seq<Elem> {
    if s == [] then [] else
      Owned(s[..|s| - 1], cmd) + if s[|s| - 1].cmd == cmd then [s[|s| - 1].(cmd := None)] else []
  }

  function Moved(s: seq<Elem>): nat {
    if s == [] then 0 else Moved(s[..|s| - 1]) + if s[|s| - 1].cmd.Some? then 1 else 0
  }

  /** A collapsed command with its elements back, and the set that the head was evaluated with. */
  function Refilled(head: Cmd, m: Cmd): Cmd {
    m.(exprs := m.exprs + Owned(head.exprs, Some(m.id)), setRef := if head.setRef.Some? then head.setRef else m.setRef)
  }

  function RefilledAll(head: Cmd, ms: seq<Cmd>): seq<Cmd> {
    seq(|ms|, i requires 0 <= i < |ms| => Refilled(head, ms[i]))
  }

  /** The head of a group with only its own elements. */
  function Own(c: Cmd): Cmd {
    c.(exprs := Owned(c.exprs, None), size := c.size - Moved(c.exprs), collapseList := [])
  }

  /** The commands that one command stands for, in the order in which they were given. */
  function Members(c: Cmd): seq<Cmd> {
    [Own(c)] + RefilledAll(c, c.collapseList)
  }

  function AllMembers(s: seq<Cmd>): seq<Cmd> {
    if s == [] then [] else AllMembers(s[..|s| - 1]) + Members(s[|s| - 1])
  }

  function Tagged(s: seq<Elem>, id: nat): seq<Elem> {
    seq(|s|, i requires 0 <= i < |s| => s[i].(cmd := Some(id)))
  }

  /** As the parser leaves a command. */
  ghost predicate Parsed(c: Cmd) {
    c.size == |c.exprs| && c.collapseList == [] && c.setRef == None && forall e :: e in c.exprs ==> e.cmd == None
  }

  ghost predicate DistinctIds(s: seq<Cmd>) {
    forall i, j :: 0 <= i < j < |s| ==> s[i].id != s[j].id
  }

  lemma {:induction false} OwnedConcat(s: seq<Elem>, t: seq<Elem>, cmd: Option<nat>)
    ensures Owned(s + t, cmd) == Owned(s, cmd) + Owned(t, cmd) && Moved(s + t) == Moved(s) + Moved(t)
  {
    if t == [] {
      assert s + t == s;
    } else {
      var n := |t| - 1;
      assert (s + t)[..|s + t| - 1] == s + t[..n];
      OwnedConcat(s, t[..n], cmd);
    }
  }

  lemma {:induction false} OwnedTagged(s: seq<Elem>, id: nat, cmd: Option<nat>)
    requires forall e :: e in s ==> e.cmd == None
    ensures Owned(Tagged(s, id), cmd) == if cmd == Some(id) then s else []
    ensures Moved(Tagged(s, id)) == |s|
  {
    if s != [] {
      var n := |s| - 1;
      var t := s[..n];
      assert s[n] in s && s == t + [s[n]];
      OwnedTagged(t, id, cmd);
      TaggedSnoc(t, s[n], id);
      OwnedSnoc(Tagged(s, id), n, cmd);
      assert Tagged(s, id)[..n + 1] == Tagged(s, id) && Tagged(s, id)[..n] == Tagged(t, id);
    }
  }

  lemma TaggedSnoc(t: seq<Elem>, e: Elem, id: nat)
    ensures Tagged(t + [e], id) == Tagged(t, id) + [e.(cmd := Some(id))]
    ensures e.cmd == None ==> e.(cmd := Some(id)).(cmd := None) == e
  {
  }

  lemma {:induction false} OwnedUniform(s: seq<Elem>, cmd: Option<nat>)
    ensures (forall e :: e in s ==> e.cmd != cmd) ==> Owned(s, cmd) == []
    ensures (forall e :: e in s ==> e.cmd == None) ==> Moved(s) == 0 && Owned(s, None) == s
  {
    if s != [] {
      var n := |s| - 1;
      OwnedUniform(s[..n], cmd);
      assert s[n] in s && s == s[..n] + [s[n]];
      assert s[n].cmd == None ==> s[n].(cmd := None) == s[n];
    }
  }

  /** Every mark in the element list is one of the collapsed commands'. */
  ghost predicate Marks(c: Cmd) {
    forall e :: e in c.exprs && e.cmd.Some? ==> exists m :: m in c.collapseList && m.id == e.cmd.value
  }

  /** Joining one more command adds exactly it to what the head stands for. */
  lemma JoinMembers(head: Cmd, c: Cmd, head': Cmd)
    requires Parsed(c) && Marks(head) && forall m :: m in head.collapseList ==> m.id != c.id
    requires head.setRef == None
    requires head' == head.(exprs := head.exprs + Tagged(c.exprs, c.id), size := head.size + c.size,
                            collapseList := head.collapseList + [c.(exprs := [])])
    ensures Members(head') == Members(head) + [c] && Marks(head')
  {
    hide Owned, Moved;
    var t := Tagged(c.exprs, c.id);
    OwnedConcat(head.exprs, t, None);
    OwnedTagged(c.exprs, c.id, None);
    assert Own(head') == Own(head);
    assert RefilledAll(head', head'.collapseList) == RefilledAll(head, head.collapseList) + [c] by {
      JoinRefilled(head, c, head');
    }
    assert c.(exprs := []) in head'.collapseList;
    forall e | e in head'.exprs && e.cmd.Some? ensures exists m :: m in head'.collapseList && m.id == e.cmd.value {
      if e in head.exprs {
        var m :| m in head.collapseList && m.id == e.cmd.value;
        assert m in head'.collapseList;
      }
    }
  }

  lemma JoinRefilled(head: Cmd, c: Cmd, head': Cmd)
    requires Parsed(c) && Marks(head) && forall m :: m in head.collapseList ==> m.id != c.id
    requires head.setRef == None && head'.setRef == None && head'.exprs == head.exprs + Tagged(c.exprs, c.id)
    requires head'.collapseList == head.collapseList + [c.(exprs := [])]
    ensures RefilledAll(head', head'.collapseList) == RefilledAll(head, head.collapseList) + [c]
  {
    hide Owned, Moved, Tagged;
    var t := Tagged(c.exprs, c.id);
    forall m | m in head.collapseList ensures Refilled(head', m) == Refilled(head, m) {
      OwnedConcat(head.exprs, t, Some(m.id));
      OwnedTagged(c.exprs, c.id, Some(m.id));
    }
    OwnedConcat(head.exprs, t, Some(c.id));
    OwnedTagged(c.exprs, c.id, Some(c.id));
    OwnedUniform(head.exprs, Some(c.id));
    assert Refilled(head', c.(exprs := [])) == c;
    hide Refilled;
    var ms := head.collapseList;
    assert forall i :: 0 <= i < |ms| ==> ms[i] in ms;
  }

  lemma ParsedMembers(c: Cmd)
    requires Parsed(c)
    ensures Members(c) == [c] && Marks(c)
  {
    OwnedUniform(c.exprs, None);
    hide Owned, Moved;
    assert Own(c) == c.(exprs := c.exprs, size := c.size, collapseList := c.collapseList) == c;
    assert RefilledAll(c, []) == [];
    assert [c] + [] == [c];
  }

  lemma MembersSnoc(left: seq<Cmd>, c: Cmd)
    ensures AllMembers(left + [c]) == AllMembers(left) + Members(c)
  {
    assert (left + [c])[..|left|] == left;
  }

  lemma MembersLast(left: seq<Cmd>)
    requires left != []
    ensures AllMembers(left) == AllMembers(left[..|left| - 1]) + Members(left[|left| - 1])
  {
  }

  lemma MemberAt(c: Cmd, k: nat)
    requires k < |c.collapseList|
    ensures |Members(c)| == |c.collapseList| + 1 && Members(c)[k + 1].id == c.collapseList[k].id
  {
  }

  /** The collapsed commands of the last head are among the commands seen so far. */
  lemma MemberSeen(left: seq<Cmd>, cmds: seq<Cmd>, i: nat, k: nat)
    requires left != [] && i < |cmds| && AllMembers(left) == cmds[..i] && DistinctIds(cmds)
    requires k < |left[|left| - 1].collapseList|
    ensures left[|left| - 1].collapseList[k].id != cmds[i].id
  {
    hide *;
    var c := left[|left| - 1];
    MembersLast(left);
    MemberAt(c, k);
    SeenAt(AllMembers(left[..|left| - 1]), Members(c), cmds, i, k + 1);
  }

  lemma SeenAt(before: seq<Cmd>, ms: seq<Cmd>, cmds: seq<Cmd>, i: nat, k: nat)
    requires i < |cmds| && before + ms == cmds[..i] && k < |ms| && DistinctIds(cmds)
    ensures ms[k].id != cmds[i].id
  {
    var at := |before| + k;
    assert (before + ms)[at] == ms[k];
    assert cmds[..i][at] == cmds[at];
  }

  /** What the scan keeps about the commands left so far. */
  ghost predicate Scanned(left: seq<Cmd>, cmds: seq<Cmd>, i: nat, elems: bool) {
    && i <= |cmds| && AllMembers(left) == cmds[..i] && |left| <= i
    && (forall c :: c in left ==> Marks(c) && c.setRef == None)
    && (forall k :: 0 < k < |left| ==> !Like(left[k - 1], left[k]))
    && (elems <==> left != [] && left[|left| - 1].op != Other && left[|left| - 1].elements)
  }

  lemma ScannedKeep(left: seq<Cmd>, cmds: seq<Cmd>, i: nat, elems: bool)
    requires Scanned(left, cmds, i, elems) && i < |cmds| && Parsed(cmds[i])
    requires left != [] ==> !Like(left[|left| - 1], cmds[i])
    ensures Scanned(left + [cmds[i]], cmds, i + 1, cmds[i].op != Other && cmds[i].elements)
  {
    hide Members, Marks, AllMembers;
    ParsedMembers(cmds[i]);
    MembersSnoc(left, cmds[i]);
    assert cmds[..i + 1] == cmds[..i] + [cmds[i]];
  }

  lemma ScannedJoin(left: seq<Cmd>, cmds: seq<Cmd>, i: nat, elems: bool, head': Cmd)
    requires Scanned(left, cmds, i, elems) && i < |cmds| && Parsed(cmds[i]) && DistinctIds(cmds) && left != []
    requires var c, head := cmds[i], left[|left| - 1];
             Like(head, c) && head' == head.(exprs := head.exprs + Tagged(c.exprs, c.id), size := head.size + c.size,
                                             collapseList := head.collapseList + [c.(exprs := [])])
    ensures Scanned(left[..|left| - 1] + [head'], cmds, i + 1, true)
    ensures Members(head') == Members(left[|left| - 1]) + [cmds[i]]
  {
    hide Members, Marks, AllMembers;
    var n := |left| - 1;
    var head, c := left[n], cmds[i];
    assert head in left;
    forall m | m in head.collapseList ensures m.id != c.id {
      var k :| 0 <= k < |head.collapseList| && head.collapseList[k] == m;
      MemberSeen(left, cmds, i, k);
    }
    JoinMembers(head, c, head');
    MembersLast(left);
    MembersSnoc(left[..n], head');
    assert AllMembers(left[..n]) + (Members(head) + [c]) == AllMembers(left[..n]) + Members(head) + [c];
    assert cmds[..i + 1] == cmds[..i] + [c];
    var left' := left[..n] + [head'];
    forall k | 0 < k < |left'| ensures !Like(left'[k - 1], left'[k]) {
      assert !Like(left[k - 1], left[k]);
    }
  }

  // ----- what is joined

  /** The elements of a command list, one command after the other. */
  function Elements(s: seq<Cmd>): seq<Elem> {
    if s == [] then [] else Elements(s[..|s| - 1]) + s[|s| - 1].exprs
  }

  function Unmarked(s: seq<Elem>): seq<Elem> {
    seq(|s|, i requires 0 <= i < |s| => s[i].(cmd := None))
  }

  lemma {:induction false} ElementsConcat(s: seq<Cmd>, t: seq<Cmd>)
    ensures Elements(s + t) == Elements(s) + Elements(t)
  {
    if t == [] {
      assert s + t == s;
    } else {
      var n := |t| - 1;
      assert (s + t)[..|s + t| - 1] == s + t[..n];
      ElementsConcat(s, t[..n]);
    }
  }

  lemma ElementsOne(c: Cmd)
    ensures Elements([c]) == c.exprs
  {
    assert [c][..0] == [];
  }

  lemma UnmarkedConcat(s: seq<Elem>, t: seq<Elem>)
    ensures Unmarked(s + t) == Unmarked(s) + Unmarked(t)
  {
  }

  lemma UnmarkedTagged(s: seq<Elem>, id: nat)
    requires forall e :: e in s ==> e.cmd == None
    ensures Unmarked(Tagged(s, id)) == s && Unmarked(s) == s
  {
    forall i | 0 <= i < |s| ensures s[i].(cmd := None) == s[i] {
      assert s[i] in s;
    }
  }

  /** The elements of a head are those of the commands it stands for, in their order, and its count is theirs. */
  ghost predicate InSequence(c: Cmd) {
    Unmarked(c.exprs) == Elements(Members(c)) && c.size == |c.exprs|
  }

  lemma JoinInSequence(head: Cmd, c: Cmd, head': Cmd)
    requires Parsed(c) && InSequence(head) && Members(head') == Members(head) + [c]
    requires head'.exprs == head.exprs + Tagged(c.exprs, c.id) && head'.size == head.size + c.size
    ensures InSequence(head')
  {
    hide Members, Elements, Unmarked;
    ElementsConcat(Members(head), [c]);
    ElementsOne(c);
    UnmarkedConcat(head.exprs, Tagged(c.exprs, c.id));
    UnmarkedTagged(c.exprs, c.id);
  }

  lemma ParsedInSequence(c: Cmd)
    requires Parsed(c)
    ensures InSequence(c)
  {
    ParsedMembers(c);
    hide Members, Elements, Unmarked;
    ElementsOne(c);
    UnmarkedTagged(c.exprs, c.id);
  }

  /** Both add elements to the same set, or both create elements of it. */
  predicate SameSet(a: Cmd, b: Cmd) {
    && (a.op == Add || a.op == Create) && b.op == a.op && a.elements && b.elements
    && a.handle.family == b.handle.family && a.handle.table == b.handle.table && a.handle.set_ == b.handle.set_
  }

  /** What the scan joined so far: only commands for the same set, and some exactly if two neighbours were for one. */
  ghost predicate Joining(left: seq<Cmd>, cmds: seq<Cmd>, i: nat, collapse: bool) {
    && i <= |cmds| && (forall c :: c in left ==> InSequence(c))
    && (forall c, m :: c in left && m in c.collapseList ==> SameSet(c, m))
    && (i > 0 ==> left != [] && LikeLast(left[|left| - 1], cmds[i - 1]))
    && (collapse ==> exists k :: 0 < k < i && SameSet(cmds[k - 1], cmds[k]))
    && (!collapse ==> left == cmds[..i])
  }

  predicate LikeLast(a: Cmd, b: Cmd) {
    a.op == b.op && a.elements == b.elements && a.handle == b.handle
  }

  lemma JoiningStart(cmds: seq<Cmd>)
    ensures Joining([], cmds, 0, false)
  {
  }

  lemma JoiningKeep(left: seq<Cmd>, cmds: seq<Cmd>, i: nat, collapse: bool)
    requires Joining(left, cmds, i, collapse) && i < |cmds| && Parsed(cmds[i])
    ensures Joining(left + [cmds[i]], cmds, i + 1, collapse)
  {
    hide InSequence;
    ParsedInSequence(cmds[i]);
    if collapse {
      var k :| 0 < k < i && SameSet(cmds[k - 1], cmds[k]);
      assert 0 < k < i + 1;
    }
  }

  lemma JoiningJoin(left: seq<Cmd>, cmds: seq<Cmd>, i: nat, collapse: bool, head': Cmd)
    requires Joining(left, cmds, i, collapse) && i < |cmds| && Parsed(cmds[i]) && left != [] && i > 0
    requires var c, head := cmds[i], left[|left| - 1];
             && SameSet(head, c) && Members(head') == Members(head) + [c]
             && head' == head.(exprs := head.exprs + Tagged(c.exprs, c.id), size := head.size + c.size,
                               collapseList := head.collapseList + [c.(exprs := [])])
    ensures Joining(left[..|left| - 1] + [head'], cmds, i + 1, true)
  {
    hide InSequence, Members;
    var n := |left| - 1;
    var left' := left[..n] + [head'];
    assert left[n] in left;
    JoinInSequence(left[n], cmds[i], head');
    forall c, m | c in left' && m in c.collapseList ensures SameSet(c, m) {
      if c == head' {
        assert m in left[n].collapseList || m == cmds[i].(exprs := []);
      } else {
        assert c in left;
      }
    }
    assert SameSet(cmds[i + 1 - 2], cmds[i]);
    assert 0 < i < i + 1;
  }

  /** The elements of one command move to the end of another one's, marked with where they come from. */
  method MoveElements(to: seq<Elem>, from: Cmd) returns (exprs: seq<Elem>)
    ensures exprs == to + Tagged(from.exprs, from.id)
  {
    exprs := to;
    var i := 0;
    while i < |from.exprs|
      invariant 0 <= i <= |from.exprs| && exprs == to + Tagged(from.exprs, from.id)[..i]
    {
      exprs := exprs + [from.exprs[i].(cmd := Some(from.id))];
      i := i + 1;
    }
  }

  /**
   nft_cmd_collapse: neighbours that can be joined are, and only those that add or create
   elements of the same set.  What is left stands for exactly the given commands, in
   order; each head has their elements, in order, and their count.
   */
  method NftCmdCollapse(cmds: seq<Cmd>) returns (left: seq<Cmd>, collapse: bool)
    requires DistinctIds(cmds) && forall c :: c in cmds ==> Parsed(c)
    ensures AllMembers(left) == cmds && (collapse <==> |left| < |cmds|)
    ensures forall k :: 0 < k < |left| ==>
              var a, b := left[k - 1], left[k];
              !(&& (a.op == Add || a.op == Create) && b.op == a.op && a.elements && b.elements
                && b.handle.family == a.handle.family && b.handle.table == a.handle.table
                  && b.handle.set_ == a.handle.set_)
    ensures forall c :: c in left ==> Marks(c) && c.setRef == None
    ensures forall c :: c in left ==> Unmarked(c.exprs) == Elements(Members(c)) && c.size == |c.exprs|
    ensures forall c, m :: c in left && m in c.collapseList ==>
              && m.op == c.op && (c.op == Add || c.op == Create) && c.elements && m.elements
              && m.handle.family == c.handle.family && m.handle.table == c.handle.table
                && m.handle.set_ == c.handle.set_
    ensures collapse <==>
              exists k ::
                && 0 < k < |cmds| && (cmds[k - 1].op == Add || cmds[k - 1].op == Create) && cmds[k].op == cmds[k - 1].op
                && cmds[k - 1].elements && cmds[k].elements && cmds[k].handle.family == cmds[k - 1].handle.family
                && cmds[k].handle.table == cmds[k - 1].handle.table && cmds[k].handle.set_ == cmds[k - 1].handle.set_
    ensures !collapse ==> left == cmds
  {
    hide Scanned, Parsed, Joining, Members, AllMembers;
    left, collapse := [], false;
    var elems := false;
    var i := 0;
    ScannedStart(cmds);
    JoiningStart(cmds);
    while i < |cmds|
      invariant 0 <= i <= |cmds| && Scanned(left, cmds, i, elems)
      invariant |left| <= i && (collapse <==> |left| < i)
      invariant Joining(left, cmds, i, collapse)
    {
      var cmd := cmds[i];
      assert cmd in cmds;
      ScannedElems(left, cmds, i, elems);
      if cmd.op != Add && cmd.op != Create {
        elems := false;
        ScannedKeep(left, cmds, i, OpenHead(left));
        JoiningKeep(left, cmds, i, collapse);
        left := left + [cmd];
      } else if !cmd.elements {
        elems := false;
        ScannedKeep(left, cmds, i, OpenHead(left));
        JoiningKeep(left, cmds, i, collapse);
        left := left + [cmd];
      } else if !elems || cmd.op != left[|left| - 1].op || left[|left| - 1].handle != cmd.handle {
        ScannedKeep(left, cmds, i, elems);
        JoiningKeep(left, cmds, i, collapse);
        left := left + [cmd];
        elems := true;
      } else {
        var head := left[|left| - 1];
        var exprs := MoveElements(head.exprs, cmd);
        head := head.(exprs := exprs, size := head.size + cmd.size,
                      collapseList := head.collapseList + [cmd.(exprs := [])]);
        ScannedJoin(left, cmds, i, elems, head);
        JoiningJoin(left, cmds, i, collapse, head);
        collapse := true;
        left := left[..|left| - 1] + [head];
      }
      i := i + 1;
    }
    ScannedEnd(left, cmds, elems);
    JoiningEnd(left, cmds, collapse);
  }

  lemma JoiningEnd(left: seq<Cmd>, cmds: seq<Cmd>, collapse: bool)
    requires Joining(left, cmds, |cmds|, collapse) && forall k :: 0 < k < |left| ==> !Like(left[k - 1], left[k])
    ensures forall c :: c in left ==> InSequence(c)
    ensures forall c, m :: c in left && m in c.collapseList ==> SameSet(c, m)
    ensures collapse <==> exists k :: 0 < k < |cmds| && SameSet(cmds[k - 1], cmds[k])
    ensures !collapse ==> left == cmds
  {
    assert cmds[..|cmds|] == cmds;
  }

  ghost function OpenHead(left: seq<Cmd>): bool {
    left != [] && left[|left| - 1].op != Other && left[|left| - 1].elements
  }

  lemma ScannedElems(left: seq<Cmd>, cmds: seq<Cmd>, i: nat, elems: bool)
    requires Scanned(left, cmds, i, elems)
    ensures elems == OpenHead(left)
  {
  }

  lemma ScannedStart(cmds: seq<Cmd>)
    ensures Scanned([], cmds, 0, false)
  {
  }

  lemma ScannedEnd(left: seq<Cmd>, cmds: seq<Cmd>, elems: bool)
    requires Scanned(left, cmds, |cmds|, elems)
    ensures AllMembers(left) == cmds && (forall k :: 0 < k < |left| ==> !Like(left[k - 1], left[k]))
    ensures forall c :: c in left ==> Marks(c) && c.setRef == None
  {
    assert cmds[..|cmds|] == cmds;
  }

  // ----- uncollapse

  function Reverse<T>(s: seq<T>): (r: seq<T>)
    ensures |r| == |s|
  {
    if s == [] then [] else Reverse(s[1..]) + [s[0]]
  }

  /** What one command is replaced by: itself, and the commands it stands for, last one first. */
  function Released(c: Cmd): seq<Cmd> {
    if c.collapseList == [] then [c] else [Own(c)] + Reverse(RefilledAll(c, c.collapseList))
  }

  function AllReleased(s: seq<Cmd>): seq<Cmd> {
    if s == [] then [] else AllReleased(s[..|s| - 1]) + Released(s[|s| - 1])
  }

  /** Member k of the collapse list after the first j elements were looked at. */
  ghost predicate Returned(ms: seq<Cmd>, c: Cmd, j: nat) {
    && j <= |c.exprs| && |ms| == |c.collapseList|
    && forall k :: 0 <= k < |ms| ==>
         ms[k] == c.collapseList[k].(exprs := c.collapseList[k].exprs + Owned(c.exprs[..j], Some(c.collapseList[k].id)))
  }

  lemma OwnedSnoc(s: seq<Elem>, j: nat, cmd: Option<nat>)
    requires j < |s|
    ensures Owned(s[..j + 1], cmd) == Owned(s[..j], cmd) + if s[j].cmd == cmd then [s[j].(cmd := None)] else []
    ensures Moved(s[..j + 1]) == Moved(s[..j]) + if s[j].cmd.Some? then 1 else 0
  {
    assert s[..j + 1][..j] == s[..j];
  }

  lemma ReturnedStep(ms: seq<Cmd>, c: Cmd, j: nat, k: nat)
    requires Returned(ms, c, j) && j < |c.exprs| && k < |ms| && DistinctIds(c.collapseList)
    requires c.exprs[j].cmd == Some(ms[k].id)
    ensures Returned(ms[k := ms[k].(exprs := ms[k].exprs + [c.exprs[j].(cmd := None)])], c, j + 1)
  {
    hide Owned;
    var ms' := ms[k := ms[k].(exprs := ms[k].exprs + [c.exprs[j].(cmd := None)])];
    forall i | 0 <= i < |ms'| ensures
      ms'[i] == c.collapseList[i].(exprs := c.collapseList[i].exprs
        + Owned(c.exprs[..j + 1], Some(c.collapseList[i].id)))
    {
      var m := c.collapseList[i];
      OwnedSnoc(c.exprs, j, Some(m.id));
      assert i < k ==> c.collapseList[i].id != c.collapseList[k].id;
      assert k < i ==> c.collapseList[k].id != c.collapseList[i].id;
      assert m.exprs + (Owned(c.exprs[..j], Some(m.id)) + [c.exprs[j].(cmd := None)])
          == m.exprs + Owned(c.exprs[..j], Some(m.id)) + [c.exprs[j].(cmd := None)];
    }
  }

  lemma ReturnedSkip(ms: seq<Cmd>, c: Cmd, j: nat)
    requires Returned(ms, c, j) && j < |c.exprs| && c.exprs[j].cmd == None
    ensures Returned(ms, c, j + 1)
  {
    hide Owned;
    forall i | 0 <= i < |ms| ensures
      ms[i] == c.collapseList[i].(exprs := c.collapseList[i].exprs
        + Owned(c.exprs[..j + 1], Some(c.collapseList[i].id)))
    {
      OwnedSnoc(c.exprs, j, Some(c.collapseList[i].id));
    }
  }

  /** The elements that were moved in go back to the commands they came from. */
  method ReturnElements(c: Cmd) returns (own: Cmd, ms: seq<Cmd>)
    requires Marks(c) && DistinctIds(c.collapseList)
    ensures own == Own(c) && Returned(ms, c, |c.exprs|)
  {
    hide Returned, Owned, Moved;
    var kept: seq<Elem>, size := [], c.size;
    ms := c.collapseList;
    var j := 0;
    ReturnedStart(c);
    while j < |c.exprs|
      invariant 0 <= j <= |c.exprs| && Returned(ms, c, j)
      invariant kept == Owned(c.exprs[..j], None) && size == c.size - Moved(c.exprs[..j])
    {
      var e := c.exprs[j];
      assert e in c.exprs;
      OwnedSnoc(c.exprs, j, None);
      if e.cmd == None {
        ReturnedSkip(ms, c, j);
        assert e.(cmd := None) == e;
        kept := kept + [e];
      } else {
        var k := MemberNamed(ms, c, j, e.cmd.value);
        ReturnedStep(ms, c, j, k);
        ms := ms[k := ms[k].(exprs := ms[k].exprs + [e.(cmd := None)])];
        size := size - 1;
      }
      j := j + 1;
    }
    assert c.exprs[..j] == c.exprs;
    own := c.(exprs := kept, size := size, collapseList := []);
  }

  lemma ReturnedStart(c: Cmd)
    ensures Returned(c.collapseList, c, 0) && Owned(c.exprs[..0], None) == [] && Moved(c.exprs[..0]) == 0
  {
    forall k | 0 <= k < |c.collapseList| ensures
      c.collapseList[k] == c.collapseList[k].(exprs := c.collapseList[k].exprs
        + Owned(c.exprs[..0], Some(c.collapseList[k].id)))
    {
      var m := c.collapseList[k];
      assert m.exprs + [] == m.exprs;
      assert m == m.(exprs := m.exprs);
    }
  }

  /** The command that a mark names, following the pointer. */
  method MemberNamed(ms: seq<Cmd>, ghost c: Cmd, ghost j: nat, id: nat) returns (k: nat)
    requires Returned(ms, c, j) && exists m :: m in c.collapseList && m.id == id
    ensures k < |ms| && ms[k].id == id
  {
    ghost var m :| m in c.collapseList && m.id == id;
    ghost var at :| 0 <= at < |c.collapseList| && c.collapseList[at] == m;
    assert ms[at].id == id;
    k := 0;
    while ms[k].id != id
      invariant k <= at
      decreases at - k
    {
      k := k + 1;
    }
  }

  lemma ReturnedEnd(ms: seq<Cmd>, c: Cmd, k: nat)
    requires Returned(ms, c, |c.exprs|) && k < |ms|
    ensures |ms| == |c.collapseList|
    ensures ms[k].(setRef := if c.setRef.Some? then c.setRef else ms[k].setRef) == Refilled(c, c.collapseList[k])
  {
    hide Owned;
    assert c.exprs[..|c.exprs|] == c.exprs;
  }

  lemma {:induction false} ReverseSnoc<T>(s: seq<T>, x: T)
    ensures Reverse(s + [x]) == [x] + Reverse(s)
  {
    if s == [] {
      assert s + [x] == [x] && [x][1..] == [];
    } else {
      assert (s + [x])[1..] == s[1..] + [x] && (s + [x])[0] == s[0];
      ReverseSnoc(s[1..], x);
    }
  }

  /**
   nft_cmd_uncollapse: every command gets back exactly the elements it came with, in
   order, wherever the others went in between.
   */
  method NftCmdUncollapse(cmds: seq<Cmd>) returns (out: seq<Cmd>)
    requires forall c :: c in cmds ==> Marks(c) && DistinctIds(c.collapseList)
    ensures out == AllReleased(cmds)
  {
    hide Own, Returned, Marks, DistinctIds, Refilled;
    out := [];
    var i := 0;
    while i < |cmds|
      invariant 0 <= i <= |cmds| && out == AllReleased(cmds[..i])
    {
      var c := cmds[i];
      assert c in cmds && cmds[..i + 1][..i] == cmds[..i];
      if c.collapseList == [] {
        out := out + [c];
      } else {
        var own, ms := ReturnElements(c);
        var inserted := [];
        var k := 0;
        ghost var all := RefilledAll(c, c.collapseList);
        ReturnedLength(ms, c);
        assert all[..0] == [];
        while k < |ms|
          invariant 0 <= k <= |ms| == |all| && inserted == Reverse(all[..k])
        {
          var m := ms[k];
          ReturnedEnd(ms, c, k);
          if c.setRef.Some? {
            m := m.(setRef := c.setRef);
          }
          assert m == m.(setRef := m.setRef);
          assert m == all[k] && all[..k + 1] == all[..k] + [m];
          ReverseSnoc(all[..k], m);
          inserted := [m] + inserted;
          k := k + 1;
        }
        assert all[..k] == all;
        out := out + ([own] + inserted);
      }
      i := i + 1;
    }
    assert cmds[..i] == cmds;
  }

  lemma ReturnedLength(ms: seq<Cmd>, c: Cmd)
    requires Returned(ms, c, |c.exprs|)
    ensures |ms| == |c.collapseList|
  {
  }

  lemma {:induction false} ReverseMultiset<T>(s: seq<T>)
    ensures multiset(Reverse(s)) == multiset(s)
  {
    if s != [] {
      assert s == [s[0]] + s[1..];
      ReverseMultiset(s[1..]);
    }
  }

  /** A group comes back with its head first and the other commands in reverse order. */
  lemma ReleasedGroup(c: Cmd)
    requires Marks(c)
    ensures Released(c) == [Members(c)[0]] + Reverse(Members(c)[1..])
    ensures multiset(Released(c)) == multiset(Members(c))
  {
    hide Owned, Moved;
    var rest := RefilledAll(c, c.collapseList);
    assert Members(c)[1..] == rest && Members(c) == [Own(c)] + rest;
    if c.collapseList == [] {
      OwnedUniform(c.exprs, None);
      assert forall e :: e in c.exprs ==> e.cmd == None;
      assert Own(c) == c.(exprs := c.exprs, size := c.size, collapseList := c.collapseList) == c;
      assert rest == [];
    }
    ReverseMultiset(rest);
  }

  /** The commands of a group get the set that the head was evaluated with. */
  lemma ReleasedSet(c: Cmd, k: nat)
    requires k < |c.collapseList|
    ensures |Released(c)| == 1 + |c.collapseList| && Released(c)[0].setRef == c.setRef
    ensures Released(c)[|c.collapseList| - k].setRef == if c.setRef == None then c.collapseList[k].setRef else c.setRef
  {
    var all := RefilledAll(c, c.collapseList);
    ReverseAt(all, k);
    assert Released(c)[|all| - k] == Reverse(all)[|all| - 1 - k] == Refilled(c, c.collapseList[k]);
  }

  lemma {:induction false} ReverseAt<T>(s: seq<T>, k: nat)
    requires k < |s|
    ensures Reverse(s)[|s| - 1 - k] == s[k]
  {
    if k > 0 {
      ReverseAt(s[1..], k - 1);
    }
  }

  lemma MemberIds(c: Cmd)
    requires DistinctIds(Members(c))
    ensures DistinctIds(c.collapseList)
  {
    forall i, j | 0 <= i < j < |c.collapseList| ensures c.collapseList[i].id != c.collapseList[j].id {
      MemberAt(c, i);
      MemberAt(c, j);
      assert Members(c)[i + 1].id != Members(c)[j + 1].id;
    }
  }

  lemma DistinctParts(s: seq<Cmd>, t: seq<Cmd>)
    requires DistinctIds(s + t)
    ensures DistinctIds(s) && DistinctIds(t)
  {
    var c := s + t;
    forall i, j | 0 <= i < j < |s| ensures s[i].id != s[j].id {
      assert c[i].id != c[j].id;
    }
    forall i, j | 0 <= i < j < |t| ensures t[i].id != t[j].id {
      assert c[|s| + i].id != c[|s| + j].id;
    }
  }

  /**
   Uncollapsing what collapsing left returns the given commands, each unchanged; only their
   order within a group changes.
   */
  lemma {:induction false} RoundTrip(left: seq<Cmd>)
    requires DistinctIds(AllMembers(left)) && forall c :: c in left ==> Marks(c)
    ensures forall c :: c in left ==> DistinctIds(c.collapseList)
    ensures multiset(AllReleased(left)) == multiset(AllMembers(left))
  {
    if left != [] {
      var n := |left| - 1;
      var init, c := left[..n], left[n];
      assert left == init + [c];
      DistinctParts(AllMembers(init), Members(c));
      RoundTrip(init);
      ReleasedGroup(c);
      MemberIds(c);
    }
  }
}
