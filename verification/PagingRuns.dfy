/**
  Runs of the paging code: any interleaving of map_page calls and of frames
  taken from the pool for other purposes.  The tables that result depend on
  the requests only through a finite map and three sets of path prefixes.
 */
module PagingRuns {
  import opened Bits
  import opened PageWords
  import opened PageTable
  import Sets

  /** One request: map a page, or take a frame for data (the font page, the frames of alloc). */
  datatype Request = Map(va: Word, pa: Word) | Grab

  function Step(s: Paging, r: Request): Paging {
    match r
    case Map(va, pa) => MapPage(s, va, pa)
    case Grab => s.(pool := Allocate(s.pool).0)
  }

  function Run(s: Paging, rs: seq<Request>): Paging {
    if rs == [] then s else Step(Run(s, rs[..|rs| - 1]), rs[|rs| - 1])
  }

  // ---------- What the requests ask for ----------

  /** The finite map from pages to physical addresses in which the first mapping of each page wins. */
  function Mapping(rs: seq<Request>): map<nat, Word> {
    if rs == [] then map[]
    else
      var m, r := Mapping(rs[..|rs| - 1]), rs[|rs| - 1];
      if r.Map? && PageOf(r.va) !in m then m[PageOf(r.va) := r.pa] else m
  }

  function AddressIn(m: map<nat, Word>, page: nat): Option<Word> {
    if page in m then Some(m[page]) else None
  }

  /** The frame of a page. */
  function Lookup(m: map<nat, Word>, page: nat): Option<nat> {
    if page in m then Some(FrameOf(m[page])) else None
  }

  /** The distinct length-k prefixes of the paths of the pages mapped. */
  ghost function Prefixes(rs: seq<Request>, k: nat): set<Path>
    requires k <= 4
  {
    if rs == [] then {}
    else
      var before, r := Prefixes(rs[..|rs| - 1], k), rs[|rs| - 1];
      if r.Map? then before + {PathOf(r.va)[..k]} else before
  }

  ghost function TablesNeeded(rs: seq<Request>): nat {
    |Prefixes(rs, 1)| + |Prefixes(rs, 2)| + |Prefixes(rs, 3)|
  }

  function Grabs(rs: seq<Request>): nat {
    if rs == [] then 0 else Grabs(rs[..|rs| - 1]) + if rs[|rs| - 1].Grab? then 1 else 0
  }

  /** The frames that went to data. */
  function Grabbed(s: Paging, rs: seq<Request>): set<nat> {
    if rs == [] then {}
    else
      var before := rs[..|rs| - 1];
      if rs[|rs| - 1].Grab? then Grabbed(s, before) + {Allocate(Run(s, before).pool).1} else Grabbed(s, before)
  }

  // ---------- The start: an empty root ----------

  /** The first frame of the pool, cleared, becomes the top-level table. */
  function NewRoot(mem: Memory, pool: Pool): Paging {
    var (p, c) := Allocate(pool);
    Paging(Clear(mem, c), c, p)
  }

  /** Only the root exists, and it has no entries. */
  ghost predicate Fresh(s: Paging) {
    Owned(s) && s.root < |s.mem| && s.mem[s.root] == ZeroFrame()
  }

  lemma NewRootIsFresh(mem: Memory, pool: Pool)
    requires 0 < pool.base && pool.used < pool.capacity && pool.base + pool.capacity <= |mem| <= FRAME_LIMIT
    ensures Fresh(NewRoot(mem, pool)) && NewRoot(mem, pool).pool == pool.(used := pool.used + 1)
  {
    var s := NewRoot(mem, pool);
    forall q: Path | 1 <= |q|
      ensures At(s, q).None?
    {
      EmptyRoot(s, q);
    }
    assert forall q: Path | IsTable(s, q) :: q == [];
  }

  lemma {:induction false} EmptyRoot(s: Paging, q: Path)
    requires s.root < |s.mem| && s.mem[s.root] == ZeroFrame() && 1 <= |q|
    ensures At(s, q).None?
  {
    if |q| == 1 {
      assert q[..0] == [] && At(s, []) == Some(s.root);
      assert s.mem[s.root][q[0]] == 0;
    } else {
      EmptyRoot(s, q[..|q| - 1]);
    }
  }

  // ---------- One more request ----------

  lemma PrefixesGrow(rs: seq<Request>, r: Request, k: nat)
    requires k <= 4
    ensures Prefixes(rs + [r], k) == if r.Map? then Prefixes(rs, k) + {PathOf(r.va)[..k]} else Prefixes(rs, k)
  {
    assert (rs + [r])[..|rs|] == rs;
  }

  /** A prefix is in the set exactly when some request maps a page under it. */
  lemma {:induction false} PrefixesAreRequested(rs: seq<Request>, k: nat, p: Path)
    requires k <= 4
    ensures p in Prefixes(rs, k) <==> exists i | 0 <= i < |rs| :: rs[i].Map? && PathOf(rs[i].va)[..k] == p
  {
    if rs != [] {
      var n := |rs| - 1;
      PrefixesAreRequested(rs[..n], k, p);
      assert forall i | 0 <= i < n :: rs[..n][i] == rs[i];
    }
  }

  /** The tables of s are exactly the prefixes rs asks for. */
  ghost predicate TablesAre(s: Paging, rs: seq<Request>) {
    forall q: Path | 1 <= |q| <= 3 :: IsTable(s, q) <==> q in Prefixes(rs, |q|)
  }

  lemma PrefixesCounted(s: Paging, rs: seq<Request>, va: Word, pa: Word, k: nat)
    requires TablesAre(s, rs) && 1 <= k <= 3
    ensures |Prefixes(rs + [Map(va, pa)], k)| == |Prefixes(rs, k)| + if IsTable(s, PathOf(va)[..k]) then 0 else 1
  {
    var q := PathOf(va)[..k];
    PrefixesGrow(rs, Map(va, pa), k);
    assert IsTable(s, q) <==> q in Prefixes(rs, |q|);
    if q in Prefixes(rs, k) {
      assert Prefixes(rs, k) + {q} == Prefixes(rs, k);
    }
  }

  lemma MissingIsGrowth(s: Paging, rs: seq<Request>, va: Word, pa: Word)
    requires TablesAre(s, rs)
    ensures TablesNeeded(rs + [Map(va, pa)]) == TablesNeeded(rs) + Missing(s, va)
  {
    PrefixesCounted(s, rs, va, pa, 1);
    PrefixesCounted(s, rs, va, pa, 2);
    PrefixesCounted(s, rs, va, pa, 3);
  }

  lemma TablesAfterMap(s: Paging, t: Paging, rs: seq<Request>, va: Word, pa: Word)
    requires TablesAre(s, rs)
    requires forall q: Path :: IsTable(t, q) <==> IsTable(s, q) || OnTheWay(q, va)
    ensures TablesAre(t, rs + [Map(va, pa)])
  {
    forall q: Path | 1 <= |q| <= 3
      ensures IsTable(t, q) <==> q in Prefixes(rs + [Map(va, pa)], |q|)
    {
      PrefixesGrow(rs, Map(va, pa), |q|);
      assert IsTable(s, q) <==> q in Prefixes(rs, |q|);
    }
  }

  lemma NeedsGrow(rs: seq<Request>, r: Request)
    ensures TablesNeeded(rs) <= TablesNeeded(rs + [r]) && Grabs(rs) <= Grabs(rs + [r])
    ensures r.Grab? ==> TablesNeeded(rs + [r]) == TablesNeeded(rs)
  {
    PrefixesGrow(rs, r, 1);
    PrefixesGrow(rs, r, 2);
    PrefixesGrow(rs, r, 3);
    assert (rs + [r])[..|rs|] == rs;
    if r.Map? {
      Sets.SubsetSize(Prefixes(rs, 1), Prefixes(rs, 1) + {PathOf(r.va)[..1]});
      Sets.SubsetSize(Prefixes(rs, 2), Prefixes(rs, 2) + {PathOf(r.va)[..2]});
      Sets.SubsetSize(Prefixes(rs, 3), Prefixes(rs, 3) + {PathOf(r.va)[..3]});
    }
  }

  lemma GrabKeepsOwned(s: Paging)
    requires Owned(s) && s.pool.Free() > 0
    ensures var t := Step(s, Grab);
      && Owned(t) && t.mem == s.mem && t.root == s.root && t.pool == s.pool.(used := s.pool.used + 1)
      && forall q: Path :: At(t, q) == At(s, q)
  {
    var t := Step(s, Grab);
    assert forall q: Path :: At(t, q) == At(s, q);
    forall q: Path | IsTable(t, q)
      ensures t.pool.Handed(Table(t, q))
    {
      assert IsTable(s, q) && s.pool.Handed(Table(s, q));
    }
    forall p: Path, q: Path | IsTable(t, p) && IsTable(t, q) && Table(t, p) == Table(t, q)
      ensures p == q
    {
      assert IsTable(s, p) && IsTable(s, q);
    }
  }

  // ---------- Every run ----------

  /** What is true after the requests rs, when they started from s0. */
  ghost predicate RunState(s0: Paging, rs: seq<Request>, s: Paging) {
    && Owned(s) && s.root == s0.root && |s.mem| == |s0.mem|
    && s.pool == s0.pool.(used := s0.pool.used + TablesNeeded(rs) + Grabs(rs))
    && TablesAre(s, rs)
    && forall va: Word :: Walk(s, va) == Lookup(Mapping(rs), PageOf(va))
  }

  /**
    Refinement, ownership and frame accounting for every run the pool can feed: the four-level walk is the finite
    map of the requests, every table is a distinct frame of the pool, and the frames used are exactly one for each
    distinct prefix and one for each data request.
   */
  lemma {:induction false} RunRefinesMap(s0: Paging, rs: seq<Request>)
    requires Fresh(s0) && TablesNeeded(rs) + Grabs(rs) <= s0.pool.Free()
    ensures RunState(s0, rs, Run(s0, rs))
  {
    if rs == [] {
      assert forall k | 0 <= k <= 4 :: Prefixes(rs, k) == {};
      forall q: Path | 1 <= |q|
        ensures At(s0, q).None?
      {
        EmptyRoot(s0, q);
      }
    } else {
      var before, r := rs[..|rs| - 1], rs[|rs| - 1];
      assert rs == before + [r];
      NeedsGrow(before, r);
      RunRefinesMap(s0, before);
      match r
      case Map(va, pa) => MapKeepsRunState(s0, before, Run(s0, before), va, pa);
      case Grab => GrabKeepsRunState(s0, before, Run(s0, before));
    }
  }

  lemma MappingGrows(rs: seq<Request>, va: Word, pa: Word, page: nat)
    ensures AddressIn(Mapping(rs + [Map(va, pa)]), page) == (
              if page == PageOf(va) && page !in Mapping(rs) then Some(pa) else AddressIn(Mapping(rs), page))
    ensures Lookup(Mapping(rs + [Map(va, pa)]), page) == (
              if page == PageOf(va) && Lookup(Mapping(rs), page).None? then Some(FrameOf(pa)) else Lookup(Mapping(rs), page))
  {
    assert (rs + [Map(va, pa)])[..|rs|] == rs;
  }

  /** Later requests change no entry of the map. */
  lemma {:induction false} MappingKeeps(rs: seq<Request>, more: seq<Request>, page: nat)
    requires page in Mapping(rs)
    ensures page in Mapping(rs + more) && Mapping(rs + more)[page] == Mapping(rs)[page]
    decreases |more|
  {
    if more == [] {
      assert rs + more == rs;
    } else {
      var n := |more| - 1;
      MappingKeeps(rs, more[..n], page);
      assert (rs + more)[..|rs| + n] == rs + more[..n];
    }
  }

  lemma MapKeepsRunState(s0: Paging, rs: seq<Request>, s: Paging, va: Word, pa: Word)
    requires RunState(s0, rs, s)
    requires TablesNeeded(rs + [Map(va, pa)]) + Grabs(rs) <= s0.pool.Free()
    ensures RunState(s0, rs + [Map(va, pa)], MapPage(s, va, pa))
  {
    hide MapPage, TableAt, PageOf, FrameOf;
    var after, t := rs + [Map(va, pa)], MapPage(s, va, pa);
    assert Grabs(after) == Grabs(rs) by { assert after[..|rs|] == rs; }
    MissingIsGrowth(s, rs, va, pa);
    MapPageStep(s, va, pa);
    TablesAfterMap(s, t, rs, va, pa);
    forall vb: Word
      ensures Walk(t, vb) == Lookup(Mapping(after), PageOf(vb))
    {
      MappingGrows(rs, va, pa, PageOf(vb));
      assert Walk(s, vb) == Lookup(Mapping(rs), PageOf(vb)) && Walk(s, va) == Lookup(Mapping(rs), PageOf(va));
    }
  }

  /** In a run the pool can feed, the next call finds what MapPageStep asks for. */
  lemma NextCallFits(s0: Paging, rs: seq<Request>, va: Word, pa: Word)
    requires Fresh(s0) && TablesNeeded(rs + [Map(va, pa)]) + Grabs(rs) <= s0.pool.Free()
    ensures var s := Run(s0, rs);
      && Owned(s) && Missing(s, va) <= s.pool.Free()
      && Run(s0, rs + [Map(va, pa)]) == MapPage(s, va, pa)
  {
    hide MapPage, TableAt, Mapping, Missing, TablesNeeded;
    NeedsGrow(rs, Map(va, pa));
    RunRefinesMap(s0, rs);
    MissingIsGrowth(Run(s0, rs), rs, va, pa);
    assert (rs + [Map(va, pa)])[..|rs|] == rs;
  }

  lemma {:induction false} NeedsMonotone(rs: seq<Request>, more: seq<Request>)
    ensures TablesNeeded(rs) <= TablesNeeded(rs + more) && Grabs(rs) <= Grabs(rs + more)
    decreases |more|
  {
    if more == [] {
      assert rs + more == rs;
    } else {
      var n := |more| - 1;
      NeedsMonotone(rs, more[..n]);
      NeedsGrow(rs + more[..n], more[n]);
      assert rs + more == rs + more[..n] + [more[n]];
    }
  }

  lemma GrabKeepsRunState(s0: Paging, rs: seq<Request>, s: Paging)
    requires RunState(s0, rs, s) && TablesNeeded(rs) + Grabs(rs) + 1 <= s0.pool.Free()
    ensures RunState(s0, rs + [Grab], Step(s, Grab))
  {
    var after := rs + [Grab];
    assert after[..|rs|] == rs;
    GrabKeepsOwned(s);
    NeedsGrow(rs, Grab);
    forall q: Path | 1 <= |q| <= 3
      ensures IsTable(Step(s, Grab), q) <==> q in Prefixes(after, |q|)
    {
      PrefixesGrow(rs, Grab, |q|);
      assert IsTable(s, q) <==> q in Prefixes(rs, |q|);
    }
  }

  /** No frame given out for data ever serves as a table, and no frame is given out twice. */
  ghost predicate DataApart(s0: Paging, rs: seq<Request>, t: Paging) {
    && |Grabbed(s0, rs)| == Grabs(rs)
    && (forall f | f in Grabbed(s0, rs) :: s0.pool.base + s0.pool.used <= f && t.pool.Handed(f))
    && (forall p: Path | IsTable(t, p) :: Table(t, p) !in Grabbed(s0, rs))
  }

  lemma {:induction false} DataFramesAreNotTables(s0: Paging, rs: seq<Request>)
    requires Fresh(s0) && TablesNeeded(rs) + Grabs(rs) <= s0.pool.Free()
    ensures DataApart(s0, rs, Run(s0, rs))
  {
    if rs != [] {
      var before, r := rs[..|rs| - 1], rs[|rs| - 1];
      assert rs == before + [r];
      NeedsGrow(before, r);
      DataFramesAreNotTables(s0, before);
      RunRefinesMap(s0, before);
      StepKeepsDataApart(s0, before, Run(s0, before), r);
    }
  }

  lemma StepKeepsDataApart(s0: Paging, rs: seq<Request>, s: Paging, r: Request)
    requires s == Run(s0, rs) && RunState(s0, rs, s) && DataApart(s0, rs, s)
    requires TablesNeeded(rs + [r]) + Grabs(rs + [r]) <= s0.pool.Free()
    ensures DataApart(s0, rs + [r], Step(s, r))
  {
    match r
    case Map(va, pa) =>
      MissingIsGrowth(s, rs, va, pa);
      assert Grabs(rs + [r]) == Grabs(rs) by { assert (rs + [r])[..|rs|] == rs; }
      MapKeepsDataApart(s0, rs, s, va, pa);
    case Grab =>
      NeedsGrow(rs, r);
      GrabsOneMore(s0, rs);
      GrabKeepsDataApart(s0, rs, s, Step(s, Grab));
  }

  lemma GrabKeepsDataApart(s0: Paging, rs: seq<Request>, s: Paging, t: Paging)
    requires s == Run(s0, rs) && t == s.(pool := s.pool.(used := s.pool.used + 1))
    requires s.pool.Free() > 0 && s0.pool.base == s.pool.base && s0.pool.used <= s.pool.used
    requires forall p: Path | IsTable(s, p) :: s.pool.Handed(Table(s, p))
    requires DataApart(s0, rs, s)
    ensures DataApart(s0, rs + [Grab], t)
  {
    var f := s.pool.base + s.pool.used;
    GrabsOneMore(s0, rs);
    SamePaths(s, t);
    assert f !in Grabbed(s0, rs);
  }

  lemma MapKeepsDataApart(s0: Paging, rs: seq<Request>, s: Paging, va: Word, pa: Word)
    requires s == Run(s0, rs) && Owned(s) && Missing(s, va) <= s.pool.Free()
    requires DataApart(s0, rs, s)
    ensures DataApart(s0, rs + [Map(va, pa)], MapPage(s, va, pa))
  {
    hide MapPage, TableAt;
    var after := rs + [Map(va, pa)];
    assert Grabbed(s0, after) == Grabbed(s0, rs) && Grabs(after) == Grabs(rs) by { assert after[..|rs|] == rs; }
    MapPageStep(s, va, pa);
    NewTablesAreNewFrames(s, va, pa);
  }

  lemma GrabsOneMore(s0: Paging, rs: seq<Request>)
    ensures Grabs(rs + [Grab]) == Grabs(rs) + 1
    ensures Grabbed(s0, rs + [Grab]) == Grabbed(s0, rs) + {Allocate(Run(s0, rs).pool).1}
  {
    assert (rs + [Grab])[..|rs|] == rs;
  }

  lemma SamePaths(s: Paging, t: Paging)
    requires t.mem == s.mem && t.root == s.root
    ensures forall p: Path :: IsTable(t, p) <==> IsTable(s, p)
    ensures forall p: Path | IsTable(s, p) :: Table(t, p) == Table(s, p)
  {
  }

  lemma NewTablesAreNewFrames(s: Paging, va: Word, pa: Word)
    requires Owned(s) && Missing(s, va) <= s.pool.Free()
    ensures var t := MapPage(s, va, pa);
      forall p: Path | IsTable(t, p) :: (IsTable(s, p) && Table(t, p) == Table(s, p)) || !s.pool.Handed(Table(t, p))
  {
    hide TableAt, PathOf, NextTable, SetLeaf, Owned, Grows, Missing, FreshTables;
    var p := PathOf(va);
    var s1, s2, s3, pud, pmd, pt := Descent(s, va);
    RootIsTable(s);
    EnoughOnTheWay(s, s1, s2, va);
    assert p[..1] == [] + [p[0]] && p[..2] == p[..1] + [p[1]] && p[..3] == p[..2] + [p[2]];
    LevelHasFreshTables(s, [], p[0]);
    LevelHasFreshTables(s1, p[..1], p[1]);
    LevelHasFreshTables(s2, p[..2], p[2]);
    LeafHasFreshTables(s3, p[..3], p[3], pa);
    FreshCompose(s, s1, s2);
    FreshCompose(s, s2, s3);
    FreshCompose(s, s3, MapPage(s, va, pa));
    FreshMeans(s, MapPage(s, va, pa));
  }

  /** Every table of t is one of s, or a frame s had not handed out. */
  ghost predicate FreshTables(s: Paging, t: Paging) {
    && t.pool == s.pool.(used := t.pool.used) && s.pool.used <= t.pool.used
    && forall p: Path | IsTable(t, p) :: (IsTable(s, p) && Table(t, p) == Table(s, p)) || !s.pool.Handed(Table(t, p))
  }

  lemma FreshMeans(s: Paging, t: Paging)
    requires FreshTables(s, t)
    ensures forall p: Path | IsTable(t, p) :: (IsTable(s, p) && Table(t, p) == Table(s, p)) || !s.pool.Handed(Table(t, p))
  {
  }

  lemma FreshCompose(s: Paging, t: Paging, u: Paging)
    requires FreshTables(s, t) && FreshTables(t, u)
    ensures FreshTables(s, u)
  {
    hide TableAt;
  }

  lemma LevelHasFreshTables(s: Paging, path: Path, i: Index)
    requires Owned(s) && IsTable(s, path) && |path| <= 2 && (IsTable(s, path + [i]) || s.pool.Free() > 0)
    ensures FreshTables(s, NextTable(s, Table(s, path), i).0)
  {
    hide NextTable, TableAt;
    var t := NextTable(s, Table(s, path), i).0;
    assert IsTable(s, path) && SoleOwner(s, path);
    NextTableStep(s, path, i);
    GrowsTables(s, t, path + [i]);
    if At(s, path + [i]).None? {
      HangsTable(s, path, i);
    }
  }

  lemma LeafHasFreshTables(s: Paging, path: Path, i: Index, pa: Word)
    requires Owned(s) && IsTable(s, path) && |path| == 3
    ensures FreshTables(s, SetLeaf(s, Table(s, path), i, pa))
  {
    hide SetLeaf, TableAt;
    SetLeafStep(s, path, i, pa);
    GrowsTables(s, SetLeaf(s, Table(s, path), i, pa), path + [i]);
  }

  // ---------- The finite map, declaratively ----------

  /** Mapping(rs) sends a page to the physical address of the first request that names the page. */
  lemma {:induction false} FirstMappingWins(rs: seq<Request>, page: nat)
    ensures page in Mapping(rs) <==> exists k | 0 <= k < |rs| :: rs[k].Map? && PageOf(rs[k].va) == page
    ensures forall k | 0 <= k < |rs| && rs[k].Map? && PageOf(rs[k].va) == page
              && (forall j | 0 <= j < k :: !(rs[j].Map? && PageOf(rs[j].va) == page)) ::
              page in Mapping(rs) && Mapping(rs)[page] == rs[k].pa
  {
    if rs != [] {
      var n := |rs| - 1;
      var before := rs[..n];
      FirstMappingWins(before, page);
      assert forall k | 0 <= k < n :: before[k] == rs[k];
      if page in Mapping(before) {
        var k :| 0 <= k < n && before[k].Map? && PageOf(before[k].va) == page;
        assert rs[k].Map? && PageOf(rs[k].va) == page;
      }
    }
  }
}
