/**
  Whole runs on a pool that may give out.  Ownership holds at the end of a run
  exactly when every call that needed new tables found them; once a call did
  not, frame 0 stays in the tree for ever.
 */
module ExhaustedRuns {
  import opened Bits
  import opened PageWords
  import opened PageTable
  import opened Exhaustion
  import opened PagingRuns

  /** Request n needs no new table, or the pool has frames for all tables up to it and all data before it. */
  ghost predicate Served(free: int, rs: seq<Request>, n: nat)
    requires n < |rs|
  {
    TablesNeeded(rs[..n + 1]) == TablesNeeded(rs[..n]) || TablesNeeded(rs[..n + 1]) + Grabs(rs[..n]) <= free
  }

  ghost predicate AllServed(free: int, rs: seq<Request>) {
    forall n: nat | n < |rs| :: Served(free, rs, n)
  }

  function Positive(n: int): nat { if n < 0 then 0 else n }

  /** What is true while every call is served: data requests may already have come back empty. */
  ghost predicate Sound(s0: Paging, rs: seq<Request>, s: Paging) {
    && Owned(s) && TablesAre(s, rs)
    && s.pool.Free() == Positive(s0.pool.Free() - TablesNeeded(rs) - Grabs(rs))
  }

  lemma ServedStep(free: int, rs: seq<Request>, r: Request)
    ensures AllServed(free, rs + [r]) <==>
              AllServed(free, rs) && (TablesNeeded(rs + [r]) == TablesNeeded(rs) || TablesNeeded(rs + [r]) + Grabs(rs) <= free)
  {
    hide TablesNeeded, Grabs;
    var all := rs + [r];
    assert all[..|rs|] == rs && all[..|rs| + 1] == all;
    forall n: nat | n < |rs|
      ensures Served(free, all, n) <==> Served(free, rs, n)
    {
      assert all[..n] == rs[..n] && all[..n + 1] == rs[..n + 1];
    }
    assert Served(free, all, |rs|) <==> TablesNeeded(all) == TablesNeeded(rs) || TablesNeeded(all) + Grabs(rs) <= free;
  }

  lemma GrabsStep(rs: seq<Request>, r: Request)
    ensures Grabs(rs + [r]) == Grabs(rs) + if r.Grab? then 1 else 0
    ensures r.Grab? ==> TablesNeeded(rs + [r]) == TablesNeeded(rs)
  {
    assert (rs + [r])[..|rs|] == rs;
    NeedsGrow(rs, r);
  }

  lemma SoundMap(s0: Paging, rs: seq<Request>, s: Paging, va: Word, pa: Word)
    requires Sound(s0, rs, s) && Missing(s, va) <= s.pool.Free()
    ensures Sound(s0, rs + [Map(va, pa)], MapPage(s, va, pa))
  {
    hide MapPage, TableAt, TablesNeeded, Grabs;
    GrabsStep(rs, Map(va, pa));
    MissingIsGrowth(s, rs, va, pa);
    MapPageStep(s, va, pa);
    TablesAfterMap(s, MapPage(s, va, pa), rs, va, pa);
  }

  lemma SoundGrab(s0: Paging, rs: seq<Request>, s: Paging)
    requires Sound(s0, rs, s)
    ensures Sound(s0, rs + [Grab], Step(s, Grab))
  {
    hide TablesNeeded, Grabs, Prefixes;
    var t := Step(s, Grab);
    GrabsStep(rs, Grab);
    if s.pool.Free() > 0 {
      GrabKeepsOwned(s);
    }
    SamePaths(s, t);
    forall q: Path | 1 <= |q| <= 3
      ensures IsTable(t, q) <==> q in Prefixes(rs + [Grab], |q|)
    {
      PrefixesGrow(rs, Grab, |q|);
      assert IsTable(s, q) <==> q in Prefixes(rs, |q|);
    }
  }

  lemma FreshIsSound(s0: Paging)
    requires Fresh(s0)
    ensures Sound(s0, [], s0)
  {
    forall q: Path | 1 <= |q|
      ensures At(s0, q).None?
    {
      EmptyRoot(s0, q);
    }
    assert forall k | 0 <= k <= 4 :: Prefixes([], k) == {};
  }

  /** Some path of proper tables ends at frame 0. */
  ghost predicate Severed(s: Paging) {
    exists p: Path :: Broken(s, p)
  }

  /** Either every call so far was served, or a path of proper tables ends at frame 0. */
  lemma {:induction false} SoundOrBroken(s0: Paging, rs: seq<Request>)
    requires Fresh(s0)
    ensures AllServed(s0.pool.Free(), rs) ==> Sound(s0, rs, Run(s0, rs))
    ensures !AllServed(s0.pool.Free(), rs) ==> Severed(Run(s0, rs))
  {
    hide MapPage, Severed, Sound, AllServed, Broken, TablesNeeded, Grabs, Missing;
    if rs == [] {
      FreshIsSound(s0);
      NothingToServe(s0.pool.Free());
    } else {
      var before, r := rs[..|rs| - 1], rs[|rs| - 1];
      assert rs == before + [r];
      SoundOrBroken(s0, before);
      ServedStep(s0.pool.Free(), before, r);
      if AllServed(s0.pool.Free(), before) {
        StepFromSound(s0, before, Run(s0, before), r);
      } else {
        StepKeepsSevered(Run(s0, before), r);
      }
    }
  }

  lemma NothingToServe(free: int)
    ensures AllServed(free, [])
  {
  }

  lemma StepKeepsSevered(s: Paging, r: Request)
    requires Severed(s)
    ensures Severed(Step(s, r))
  {
    hide Broken;
    var p: Path :| Broken(s, p);
    match r
    case Map(va, pa) => MapPageKeepsBroken(s, p, va, pa);
    case Grab => GrabKeepsBroken(s, p);
  }

  lemma GrabKeepsBroken(s: Paging, p: Path)
    requires Broken(s, p)
    ensures Broken(Step(s, Grab), p)
  {
    assert Step(s, Grab) == s;
  }

  lemma StepFromSound(s0: Paging, rs: seq<Request>, s: Paging, r: Request)
    requires Sound(s0, rs, s)
    ensures TablesNeeded(rs + [r]) == TablesNeeded(rs) || TablesNeeded(rs + [r]) + Grabs(rs) <= s0.pool.Free() ==>
              Sound(s0, rs + [r], Step(s, r))
    ensures !(TablesNeeded(rs + [r]) == TablesNeeded(rs) || TablesNeeded(rs + [r]) + Grabs(rs) <= s0.pool.Free()) ==>
              Severed(Step(s, r))
  {
    hide MapPage, TablesNeeded, Grabs, Missing, Broken, TableAt;
    match r
    case Map(va, pa) =>
      MissingIsGrowth(s, rs, va, pa);
      if Missing(s, va) <= s.pool.Free() {
        SoundMap(s0, rs, s, va, pa);
      } else {
        var p := NotEnoughFrames(s, va, pa);
        assert Broken(Step(s, r), p);
      }
    case Grab =>
      GrabsStep(rs, r);
      SoundGrab(s0, rs, s);
  }

  /** The exact condition over whole runs of map_page calls and data requests. */
  lemma OwnedIffAllServed(s0: Paging, rs: seq<Request>)
    requires Fresh(s0)
    ensures Owned(Run(s0, rs)) <==> AllServed(s0.pool.Free(), rs)
  {
    hide AllServed, Owned, Broken, Run;
    SoundOrBroken(s0, rs);
    if !AllServed(s0.pool.Free(), rs) {
      var p: Path :| Broken(Run(s0, rs), p);
      BrokenIsNotOwned(Run(s0, rs), p);
    }
  }

  lemma {:induction false} MapsOnlyServed(free: int, rs: seq<Request>)
    requires free >= 0 && forall k | 0 <= k < |rs| :: rs[k].Map?
    ensures Grabs(rs) == 0
    ensures AllServed(free, rs) <==> TablesNeeded(rs) <= free
  {
    hide AllServed, TablesNeeded;
    if rs == [] {
      NothingToServe(free);
      NoTables();
    } else {
      var before, r := rs[..|rs| - 1], rs[|rs| - 1];
      assert rs == before + [r];
      MapsOnlyServed(free, before);
      NeedsGrow(before, r);
      ServedStep(free, before, r);
      GrabsStep(before, r);
    }
  }

  lemma NoTables()
    ensures TablesNeeded([]) == 0
  {
    assert forall k | 0 <= k <= 4 :: Prefixes([], k) == {};
  }

  /** With map_page calls only: the tree is owned at the end if and only if the pool had a frame for every prefix. */
  lemma OwnedIffTablesFit(s0: Paging, rs: seq<Request>)
    requires Fresh(s0) && forall k | 0 <= k < |rs| :: rs[k].Map?
    ensures Owned(Run(s0, rs)) <==> TablesNeeded(rs) <= s0.pool.Free()
  {
    OwnedIffAllServed(s0, rs);
    MapsOnlyServed(s0.pool.Free(), rs);
  }

  /** The first call after the root took the last frame: its entry leads to frame 0. */
  lemma RootTakesTheLastFrame(mem: Memory, pool: Pool, va: Word, pa: Word)
    requires mem == [ZeroFrame(), ZeroFrame()] && pool == Pool(1, 1, 0)
    ensures var s := NewRoot(mem, pool);
      Fresh(s) && At(MapPage(s, va, pa), PathOf(va)[..1]) == Some(0) && !Owned(MapPage(s, va, pa))
  {
    hide MapPage, NewRoot, PathOf;
    var s := NewRoot(mem, pool);
    NewRootIsFresh(mem, pool);
    EmptyRoot(s, PathOf(va)[..1]);
    EmptyTreeFails(s, va, pa);
  }

  /** On an empty tree with no frame left every call puts frame 0 under the root. */
  lemma EmptyTreeFails(s: Paging, va: Word, pa: Word)
    requires Owned(s) && s.pool.Free() == 0 && At(s, PathOf(va)[..1]).None?
    ensures At(MapPage(s, va, pa), PathOf(va)[..1]) == Some(0) && !Owned(MapPage(s, va, pa))
  {
    var p := PathOf(va);
    assert p[..1] == [] + [p[0]] && IsTable(s, []) && Table(s, []) == s.root;
    var (t, pud) := NextTable(s, s.root, p[0]);
    LevelFails(s, [], p[0]);
    BrokenFrom2(t, p[..1], pud, va, pa);
    MapPageInStages(s, va, pa);
    BrokenIsNotOwned(MapPage(s, va, pa), p[..1]);
  }

  // ---------- Runs that stay in memory ----------

  /** The table pointers of every call of the run lie in memory. */
  ghost predicate RunStays(s0: Paging, rs: seq<Request>) {
    rs == [] || (
      var before, r := rs[..|rs| - 1], rs[|rs| - 1];
      RunStays(s0, before) && (r.Map? ==> StaysInMemory(Run(s0, before), r.va)))
  }

  /** A run the pool can feed does. */
  lemma {:induction false} FedRunStays(s0: Paging, rs: seq<Request>)
    requires Fresh(s0) && TablesNeeded(rs) + Grabs(rs) <= s0.pool.Free()
    ensures RunStays(s0, rs)
  {
    hide Run, StaysInMemory, TablesNeeded, Grabs, Fresh, Owned;
    if rs != [] {
      var before, r := rs[..|rs| - 1], rs[|rs| - 1];
      assert rs == before + [r];
      NeedsGrow(before, r);
      FedRunStays(s0, before);
      if r.Map? {
        RunRefinesMap(s0, before);
        OwnedStaysInMemory(Run(s0, before), r.va);
      }
    }
  }

  /** Each call of such a run. */
  lemma {:induction false} CallStays(s0: Paging, rs: seq<Request>, n: nat)
    requires RunStays(s0, rs) && n < |rs| && rs[n].Map?
    ensures StaysInMemory(Run(s0, rs[..n]), rs[n].va)
    decreases |rs|
  {
    hide Run, StaysInMemory;
    if n < |rs| - 1 {
      CallStays(s0, rs[..|rs| - 1], n);
      assert rs[..|rs| - 1][..n] == rs[..n];
    }
  }

  lemma RunOneMore(s0: Paging, rs: seq<Request>, va: Word, pa: Word)
    ensures Run(s0, rs + [Map(va, pa)]) == MapPage(Run(s0, rs), va, pa)
  {
    assert (rs + [Map(va, pa)])[..|rs|] == rs;
  }
}
