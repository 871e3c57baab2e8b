/**
  What the paging code writes: the frames of its tables, and no others.  Data
  frames keep their contents, whether taken before the root or in between.
 */
module PoolFootprint {
  import opened Bits
  import opened PageWords
  import opened PageTable
  import opened PagingRuns

  /** Some table lies in frame f. */
  ghost predicate TableFrame(s: Paging, f: nat) {
    exists p: Path :: IsTable(s, p) && Table(s, p) == f
  }

  /** From s to t only frames of t's tables have been written, tables stay, and the pool has only advanced. */
  ghost predicate WritesTables(s: Paging, t: Paging) {
    && |t.mem| == |s.mem| && t.pool == s.pool.(used := t.pool.used) && s.pool.used <= t.pool.used
    && (forall p: Path | IsTable(s, p) :: IsTable(t, p) && Table(t, p) == Table(s, p))
    && forall f: nat | f < |s.mem| && t.mem[f] != s.mem[f] :: TableFrame(t, f)
  }

  lemma TableFrameStays(s: Paging, t: Paging, f: nat)
    requires WritesTables(s, t) && TableFrame(s, f)
    ensures TableFrame(t, f)
  {
    hide TableAt;
    var p: Path :| IsTable(s, p) && Table(s, p) == f;
    assert IsTable(t, p) && Table(t, p) == f;
  }

  lemma WritesCompose(s: Paging, t: Paging, u: Paging)
    requires WritesTables(s, t) && WritesTables(t, u)
    ensures WritesTables(s, u)
  {
    hide TableAt, TableFrame;
    forall f: nat | f < |s.mem| && u.mem[f] != s.mem[f]
      ensures TableFrame(u, f)
    {
      if t.mem[f] != s.mem[f] { TableFrameStays(t, u, f); }
    }
  }

  lemma LevelWrites(s: Paging, path: Path, i: Index)
    requires Owned(s) && IsTable(s, path) && |path| <= 2 && (IsTable(s, path + [i]) || s.pool.Free() > 0)
    ensures WritesTables(s, NextTable(s, Table(s, path), i).0)
  {
    hide TableAt, SoleOwner;
    var f := Table(s, path);
    var (t, c) := NextTable(s, f, i);
    assert s.pool.Handed(f);
    NextTableStep(s, path, i);
    GrowsTables(s, t, path + [i]);
    assert IsTable(t, path) && Table(t, path) == f;
    assert IsTable(t, path + [i]) && Table(t, path + [i]) == c;
    forall g: nat | g < |s.mem| && t.mem[g] != s.mem[g]
      ensures TableFrame(t, g)
    {
      assert g == f || g == c;
    }
  }

  lemma LeafWrites(s: Paging, path: Path, i: Index, pa: Word)
    requires Owned(s) && IsTable(s, path) && |path| == 3
    ensures WritesTables(s, SetLeaf(s, Table(s, path), i, pa))
  {
    hide TableAt, SoleOwner;
    var t := SetLeaf(s, Table(s, path), i, pa);
    SetLeafStep(s, path, i, pa);
    GrowsTables(s, t, path + [i]);
    assert IsTable(t, path) && Table(t, path) == Table(s, path);
  }

  lemma MapPageWrites(s: Paging, va: Word, pa: Word)
    requires Owned(s) && Missing(s, va) <= s.pool.Free()
    ensures WritesTables(s, MapPage(s, va, pa))
  {
    hide TableAt, Owned, Grows, Missing, NextTable, SetLeaf, PathOf, WritesTables;
    var p := PathOf(va);
    var s1, s2, s3, pud, pmd, pt := Descent(s, va);
    RootIsTable(s);
    EnoughOnTheWay(s, s1, s2, va);
    assert p[..1] == [] + [p[0]] && p[..2] == p[..1] + [p[1]] && p[..3] == p[..2] + [p[2]];
    LevelWrites(s, [], p[0]);
    LevelWrites(s1, p[..1], p[1]);
    LevelWrites(s2, p[..2], p[2]);
    LeafWrites(s3, p[..3], p[3], pa);
    WritesCompose(s, s1, s2);
    WritesCompose(s, s2, s3);
    WritesCompose(s, s3, MapPage(s, va, pa));
  }

  lemma GrabWrites(s: Paging)
    requires s.pool.Free() > 0
    ensures WritesTables(s, Step(s, Grab)) && FreshTables(s, Step(s, Grab))
  {
    SamePaths(s, Step(s, Grab));
  }

  /** A run the pool can feed writes only its tables, and makes them in frames not handed out before. */
  lemma {:induction false} RunWrites(s0: Paging, rs: seq<Request>)
    requires Fresh(s0) && TablesNeeded(rs) + Grabs(rs) <= s0.pool.Free()
    ensures WritesTables(s0, Run(s0, rs)) && FreshTables(s0, Run(s0, rs))
  {
    hide MapPage, TableAt, Owned, Missing, TablesNeeded, WritesTables, FreshTables, Fresh;
    if rs == [] {
      NothingWritten(s0);
    } else {
      var before, r := rs[..|rs| - 1], rs[|rs| - 1];
      assert rs == before + [r];
      NeedsGrow(before, r);
      RunWrites(s0, before);
      RunRefinesMap(s0, before);
      var s := Run(s0, before);
      if r.Map? {
        NextCallFits(s0, before, r.va, r.pa);
        MapPageWrites(s, r.va, r.pa);
        MapPageMakesFresh(s, r.va, r.pa);
      } else {
        GrabWrites(s);
      }
      WritesCompose(s0, s, Run(s0, rs));
      FreshCompose(s0, s, Run(s0, rs));
    }
  }

  lemma NothingWritten(s: Paging)
    ensures WritesTables(s, s) && FreshTables(s, s)
  {
  }

  lemma MapPageMakesFresh(s: Paging, va: Word, pa: Word)
    requires Owned(s) && Missing(s, va) <= s.pool.Free()
    ensures FreshTables(s, MapPage(s, va, pa))
  {
    hide MapPage, TableAt, Missing;
    MapPageStep(s, va, pa);
    NewTablesAreNewFrames(s, va, pa);
  }

  /**
    From before the root was taken: only frames of tables are written.  Frames outside the pool, frames handed out
    before and frames taken for data keep their contents.
   */
  lemma OnlyTablesAreWritten(mem: Memory, pool: Pool, rs: seq<Request>)
    requires 0 < pool.base && pool.base + pool.capacity <= |mem| <= FRAME_LIMIT
    requires 1 + TablesNeeded(rs) + Grabs(rs) <= pool.Free()
    ensures var t := Run(NewRoot(mem, pool), rs);
      && |t.mem| == |mem| && t.pool == pool.(used := t.pool.used) && t.pool.used <= pool.capacity
      && (forall f: nat | f < |mem| && t.mem[f] != mem[f] :: TableFrame(t, f))
      && (forall f: nat | TableFrame(t, f) :: t.pool.Handed(f) && !pool.Handed(f) && f !in Grabbed(NewRoot(mem, pool), rs))
  {
    hide Run, TablesNeeded, Grabs, TableAt, SoleOwner, Grabbed;
    var s0, t := NewRoot(mem, pool), Run(NewRoot(mem, pool), rs);
    NewRootIsFresh(mem, pool);
    RunWrites(s0, rs);
    RunRefinesMap(s0, rs);
    DataFramesAreNotTables(s0, rs);
    RootIsTable(s0);
    forall f: nat | f < |mem| && t.mem[f] != mem[f]
      ensures TableFrame(t, f)
    {
      if f == s0.root { assert IsTable(t, []) && Table(t, []) == f; }
    }
    forall f: nat | TableFrame(t, f)
      ensures t.pool.Handed(f) && !pool.Handed(f) && f !in Grabbed(s0, rs)
    {
      var p: Path :| IsTable(t, p) && Table(t, p) == f;
      assert t.pool.Handed(Table(t, p));
      OnlyTheRoot(s0, p);
    }
  }

  lemma OnlyTheRoot(s0: Paging, p: Path)
    requires Fresh(s0)
    ensures IsTable(s0, p) ==> Table(s0, p) == s0.root
  {
    if p != [] { EmptyRoot(s0, p); }
  }
}
