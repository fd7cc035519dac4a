/** nft_cache_update as a step machine against a kernel that commits new generations at any time. */
module CacheProtocol {
  import opened RulesetCache

  datatype Flag = Content(bit: nat) | Terse | Maybe | Refresh | Update | Flushed

  /**
   The kernel's history up to its last generation: the id of each generation, and what it
   lists for given flags.  Ids are 32 bits wide, never zero, and no two generations have
   the same one.
   */
  datatype Kernel = Kernel(last: nat, ids: nat -> nat, contents: (nat, set<Flag>) -> seq<Object>) {
    ghost predicate Valid() {
      && (forall i: nat :: i <= last ==> 0 < ids(i) < 0x1_0000_0000)
      && (forall i: nat, j: nat :: i <= last && j <= last && ids(i) == ids(j) ==> i == j)
      && forall i: nat, flags, o :: i <= last && o in contents(i, flags) ==> o.Valid()
    }
  }

  /** There is such a history with any number of generations that 32 bits can tell apart. */
  lemma Histories(last: nat, contents: (nat, set<Flag>) -> seq<Object>)
    requires last < 0xFFFF_FFFF
    ensures (forall i: nat, flags, o :: i <= last && o in contents(i, flags) ==> o.Valid()) ==>
              exists k: Kernel :: k.Valid() && k.last == last && k.contents == contents
  {
    var k := Kernel(last, i => i + 1, contents);
    assert k.last == last && k.contents == contents;
  }

  /**
   Where a call is: about to ask for the generation id; deciding, with the id it got;
   dumping, having read pos objects; returned.  `began` is the generation that was
   current when the id was asked for, `how` says on which path the call returned.
   */
  datatype Pc = Replay | Decide(genid: nat, began: nat) | Dump(genid: nat, began: nat, pos: nat)
              | Done(ret: int, how: Path)

  datatype Path = Updated | Emptied | Dumped | Failed

  datatype State = State(now: nat, cache: Cache, genid: nat, flags: set<Flag>, seqnum: nat, req: set<Flag>, pc: Pc)

  datatype Step = Commit | Call(flags: set<Flag>) | GetGenid | Choose | Read | Interrupted | Error | Finish

  /** nft_cache_release */
  function Release(s: State): State {
    s.(cache := Flush(s.cache), genid := 0, flags := {})
  }

  /** nft_cache_is_updated; its parameter is 16 bits wide. */
  predicate IsUpdated(genid: nat, cacheGenid: nat) {
    var low := genid % 0x1_0000;
    low != 0 && (low == cacheGenid || low == cacheGenid + 1)
  }

  predicate Shortcut(s: State, genid: nat) {
    Refresh !in s.flags && Refresh !in s.req && s.req <= s.flags && IsUpdated(genid, s.genid)
  }

  predicate Enabled(k: Kernel, s: State, step: Step) {
    match step
    case Commit => s.now < k.last
    case Call(_) => s.pc.Done?
    case GetGenid => s.pc.Replay?
    case Choose => s.pc.Decide?
    case Read => s.pc.Dump? && s.req != {} && s.pc.pos < |k.contents(s.now, s.req)|
    case Interrupted => s.pc.Dump?
    case Error => s.pc.Dump?
    case Finish => s.pc.Dump? && (s.req == {} || s.pc.pos >= |k.contents(s.now, s.req)|)
  }

  ghost function Apply(k: Kernel, s: State, step: Step): State
    requires Enabled(k, s, step)
  {
    match step
    case Commit => s.(now := s.now + 1)
    case Call(flags) => s.(req := flags, pc := Replay)
    case GetGenid => s.(seqnum := s.seqnum + 1, pc := Decide(k.ids(s.now), s.now))
    case Choose =>
      var g := s.pc.genid;
      if Shortcut(s, g) then
        s.(genid := g % 0x1_0000, pc := Done(0, Updated))
      else
        var r := if s.genid != 0 then Release(s) else s;
        if Flushed in s.req then
          r.(genid := g, flags := if Update in s.req then {Update} else {}, pc := Done(0, Emptied))
        else
          r.(pc := Dump(g, s.pc.began, 0))
    case Read =>
      var item := Item(k.contents(s.now, s.req)[s.pc.pos], s.now, s.seqnum);
      s.(cache := CacheAdd(s.cache, item), pc := s.pc.(pos := s.pc.pos + 1))
    case Interrupted => Release(s).(pc := Replay)
    case Error => Release(s).(pc := Done(-1, Failed))
    case Finish =>
      if k.ids(s.now) != s.pc.genid then Release(s).(pc := Replay)
      else s.(genid := s.pc.genid, flags := s.req, pc := Done(0, Dumped))
  }

  ghost function Objects(s: seq<Item>): seq<Object> {
    seq(|s|, i requires 0 <= i < |s| => s[i].obj)
  }

  /** All items were read in generation g, under the latest request, and they are all that it lists. */
  ghost predicate Snapshot(k: Kernel, s: State, g: nat) {
    && (forall i :: i in s.cache.list ==> i.readIn == g && i.seqnum == s.seqnum)
    && Objects(s.cache.list) == if s.req == {} then [] else k.contents(g, s.req)
  }

  /** The dump so far: if no commit has come in between, it is a prefix of what the generation lists. */
  ghost predicate Partial(k: Kernel, s: State, began: nat, pos: nat) {
    && (forall i :: i in s.cache.list ==> began <= i.readIn <= s.now && i.seqnum == s.seqnum)
    && (s.req == {} ==> pos == 0) && pos == |s.cache.list|
    && (s.now == began ==> var all := k.contents(began, s.req); pos <= |all| && Objects(s.cache.list) == all[..pos])
  }

  /** What holds in every reachable state. */
  ghost predicate Inv(k: Kernel, s: State) {
    && s.now <= k.last && Consistent(s.cache) && (s.genid == 0 && !s.pc.Dump? ==> s.cache == Empty())
    && match s.pc
       case Replay => true
       case Decide(g, began) => began <= s.now && g == k.ids(began)
       case Dump(g, began, pos) => began <= s.now && g == k.ids(began) && Partial(k, s, began, pos)
       case Done(_, Dumped) => exists g: nat :: g <= k.last && k.ids(g) == s.genid && Snapshot(k, s, g)
       case Done(_, Updated) => true
       case Done(_, _) => s.cache == Empty()
  }

  lemma ReleaseEmpties(s: State)
    requires Consistent(s.cache)
    ensures Release(s).cache == Empty() && Consistent(Release(s).cache)
  {
    FlushEmpties(s.cache);
    EmptyConsistent();
  }

  lemma ReadKeeps(k: Kernel, s: State)
    requires k.Valid() && Inv(k, s) && Enabled(k, s, Read)
    ensures Inv(k, Apply(k, s, Read))
  {
    hide Consistent;
    var all := k.contents(s.now, s.req);
    var o := all[s.pc.pos];
    assert o in all && o.Valid();
    var item := Item(o, s.now, s.seqnum);
    var s' := Apply(k, s, Read);
    AddConsistent(s.cache, item);
    if s.now == s.pc.began {
      assert Objects(s'.cache.list) == Objects(s.cache.list) + [o];
      assert all[..s.pc.pos + 1] == all[..s.pc.pos] + [o];
    }
  }

  lemma FinishKeeps(k: Kernel, s: State)
    requires k.Valid() && Inv(k, s) && Enabled(k, s, Finish)
    ensures Inv(k, Apply(k, s, Finish))
  {
    hide Consistent;
    ReleaseEmpties(s);
    if k.ids(s.now) == s.pc.genid {
      var g := s.now;
      assert s.pc.began == g;
      var s' := Apply(k, s, Finish);
      var all := k.contents(g, s.req);
      assert s.req != {} ==> all[..s.pc.pos] == all;
      assert Snapshot(k, s', g);
    }
  }

  /** Every step, of the kernel or of the call, keeps the invariant. */
  lemma StepKeeps(k: Kernel, s: State, step: Step)
    requires k.Valid() && Inv(k, s) && Enabled(k, s, step)
    ensures Inv(k, Apply(k, s, step))
  {
    hide Consistent, Flush;
    ReleaseEmpties(s);
    match step
    case Read => ReadKeeps(k, s);
    case Finish => FinishKeeps(k, s);
    case Commit =>
      if s.pc.Done? && s.pc.how == Dumped {
        var g: nat :| g <= k.last && k.ids(g) == s.genid && Snapshot(k, s, g);
        assert Snapshot(k, Apply(k, s, step), g);
      }
    case _ =>
  }

  /** The cache is what generation g lists for the flags recorded as loaded. */
  ghost predicate Loaded(k: Kernel, s: State, g: nat) {
    && (forall i :: i in s.cache.list ==> i.readIn == g)
    && Objects(s.cache.list) == if s.flags == {} then [] else k.contents(g, s.flags)
  }

  /** Recorded as loaded is what some generation listed, or nothing, after a flush. */
  ghost predicate Holding(k: Kernel, s: State) {
    (s.cache == Empty() && s.flags <= {Update}) || exists g: nat :: g <= k.last && Loaded(k, s, g)
  }

  /** What holds of the flags in every reachable state. */
  ghost predicate Recorded(k: Kernel, s: State) {
    && (s.genid == 0 ==> s.flags == {}) && (s.pc.Dump? ==> s.genid == 0) && (s.genid != 0 ==> Holding(k, s))
    && (s.pc.Done? && s.pc.ret == 0 ==>
          match s.pc.how
          case Updated => s.genid != 0 && s.req <= s.flags
          case Dumped => s.genid != 0 && s.flags == s.req
          case Emptied => Flushed in s.req && s.cache == Empty() && s.flags == s.req * {Update}
          case Failed => false)
  }

  lemma DumpRecords(k: Kernel, s: State)
    requires k.Valid() && Inv(k, s) && Recorded(k, s) && Enabled(k, s, Finish)
    ensures Recorded(k, Apply(k, s, Finish))
  {
    hide Consistent, Flush;
    FinishKeeps(k, s);
    var s' := Apply(k, s, Finish);
    if k.ids(s.now) == s.pc.genid {
      var g: nat :| g <= k.last && k.ids(g) == s'.genid && Snapshot(k, s', g);
      assert Loaded(k, s', g);
    }
  }

  lemma ChooseRecords(k: Kernel, s: State)
    requires k.Valid() && Inv(k, s) && Recorded(k, s) && s.pc.Decide?
    ensures Recorded(k, Apply(k, s, Choose))
  {
    hide Consistent, Flush;
    ReleaseEmpties(s);
    var s' := Apply(k, s, Choose);
    if s'.pc == Done(0, Updated) {
      HoldingSame(k, s, s');
    }
  }

  /** Every step keeps what is known of the flags. */
  lemma StepRecords(k: Kernel, s: State, step: Step)
    requires k.Valid() && Inv(k, s) && Recorded(k, s) && Enabled(k, s, step)
    ensures Recorded(k, Apply(k, s, step))
  {
    hide Consistent, Flush;
    match step
    case Finish => DumpRecords(k, s);
    case Choose => ChooseRecords(k, s);
    case Commit => HoldingSame(k, s, Apply(k, s, step));
    case Call(_) => HoldingSame(k, s, Apply(k, s, step));
    case GetGenid => HoldingSame(k, s, Apply(k, s, step));
    case _ =>
  }

  lemma HoldingSame(k: Kernel, s: State, s': State)
    requires s'.cache == s.cache && s'.flags == s.flags
    ensures Holding(k, s) <==> Holding(k, s')
  {
    assert forall g: nat :: Loaded(k, s, g) <==> Loaded(k, s', g);
  }

  ghost predicate Init(k: Kernel, s: State) {
    s.now <= k.last && s.cache == Empty() && s.genid == 0 && s.flags == {} && s.pc == Done(-1, Failed)
  }

  ghost predicate Next(k: Kernel, s: State, s': State) {
    exists step :: Enabled(k, s, step) && s' == Apply(k, s, step)
  }

  /** A run: any interleaving of calls and of commits by the kernel. */
  ghost predicate Run(k: Kernel, run: seq<State>) {
    run != [] && Init(k, run[0]) && forall i :: 0 < i < |run| ==> Next(k, run[i - 1], run[i])
  }

  lemma {:induction false} RunKeeps(k: Kernel, run: seq<State>, i: nat)
    requires k.Valid() && Run(k, run) && i < |run|
    ensures Inv(k, run[i]) && Recorded(k, run[i])
  {
    hide Recorded, Inv;
    if i == 0 {
      StartKeeps(k, run[0]);
    } else {
      RunKeeps(k, run, i - 1);
      assert Next(k, run[i - 1], run[i]);
      var step :| Enabled(k, run[i - 1], step) && run[i] == Apply(k, run[i - 1], step);
      StepKeeps(k, run[i - 1], step);
      StepRecords(k, run[i - 1], step);
    }
  }

  lemma StartKeeps(k: Kernel, s: State)
    requires Init(k, s)
    ensures Inv(k, s) && Recorded(k, s)
  {
    EmptyConsistent();
  }

  /**
   Whenever a call has returned through a full dump, the cache is exactly what the kernel
   listed in the one generation whose id is recorded, nothing from an abandoned attempt is
   in it, and the buckets agree with the list.
   */
  lemma FullDumpIsOneGeneration(k: Kernel, run: seq<State>, i: nat)
    requires k.Valid() && Run(k, run) && i < |run| && run[i].pc == Done(0, Dumped)
    ensures Consistent(run[i].cache)
    ensures exists g: nat :: g <= k.last && k.ids(g) == run[i].genid && Snapshot(k, run[i], g)
  {
    RunKeeps(k, run, i);
  }

  /**
   Whenever a call returns 0, what is recorded as loaded covers the request, and the cache
   is what a single generation listed for it; or the ruleset is flushed, and nothing is loaded.
   */
  lemma LoadedCoversRequest(k: Kernel, run: seq<State>, i: nat)
    requires k.Valid() && Run(k, run) && i < |run| && run[i].pc.Done? && run[i].pc.ret == 0
    ensures var s := run[i];
            if s.pc.how == Emptied then Flushed in s.req && s.cache == Empty() && s.flags <= {Update}
            else && s.req <= s.flags
                 && ((s.cache == Empty() && s.flags <= {Update}) || exists g: nat :: g <= k.last && Loaded(k, s, g))
    ensures run[i].pc.how == Dumped ==> run[i].flags == run[i].req
  {
    RunKeeps(k, run, i);
  }

  /** After an error, or when the ruleset is flushed anyway, the cache is empty. */
  lemma NothingLeft(k: Kernel, run: seq<State>, i: nat)
    requires k.Valid() && Run(k, run) && i < |run| && run[i].pc.Done?
             && (run[i].pc.how.Failed? || run[i].pc.how.Emptied?)
    ensures run[i].cache == Empty()
  {
    RunKeeps(k, run, i);
  }

  /**
   The shortcut compares the low half of the kernel's id with the whole recorded one, so
   it accepts an unchanged generation or the next one exactly if the id fits in 16 bits.
   */
  lemma ShortcutNeedsNarrowIds(genid: nat, cacheGenid: nat)
    requires 0 < genid && (genid == cacheGenid || genid == cacheGenid + 1)
    ensures IsUpdated(genid, cacheGenid) <==> genid < 0x1_0000
  {
  }

  /**
   It accepts nothing but the recorded generation and the next one exactly if the id fits
   in 16 bits or its low half is zero, in which case it accepts nothing at all.
   */
  lemma ShortcutConfuses(genid: nat)
    ensures (forall c: nat :: IsUpdated(genid, c) ==> genid == c || genid == c + 1)
            <==> genid < 0x1_0000 || genid % 0x1_0000 == 0
  {
    assert genid % 0x1_0000 != 0 ==> IsUpdated(genid, genid % 0x1_0000);
  }

  /** Generation 65541 passes for generation 5. */
  lemma ConfusedIds()
    ensures IsUpdated(65541, 5) && 65541 != 5 && 65541 != 5 + 1
  {
  }
}
