/**
  map_page does not look at the frame pmm_allocate gives it.  When the pool is
  used up that frame is number 0, and the call threads physical frame 0 into
  the tree.  The theorem says exactly when: ownership survives a call if and
  only if the tables it misses are at most the frames the pool has left.
 */
module Exhaustion {
  import opened Bits
  import opened PageWords
  import opened PageTable

  /** Path p runs through proper tables and ends at frame 0, with nothing left in the pool. */
  ghost predicate Broken(s: Paging, p: Path) {
    && s.pool.Free() == 0 && s.pool.base > 0 && |p| <= 3 && At(s, p) == Some(0)
    && forall k | 0 <= k < |p| :: At(s, p[..k]).Some? && At(s, p[..k]).value != 0
  }

  /** Outside frame 0, t has every present entry of s. */
  ghost predicate KeepsEntries(s: Paging, t: Paging) {
    && t.root == s.root && t.pool == s.pool && |t.mem| == |s.mem|
    && forall f, i: Index | 0 < f < |s.mem| && Present(s.mem[f][i]) :: t.mem[f][i] == s.mem[f][i]
  }

  /** A path whose tables are not frame 0 is a path of t as well. */
  lemma {:induction false} PathIsKept(s: Paging, t: Paging, p: Path)
    requires KeepsEntries(s, t) && At(s, p).Some?
    requires forall k | 0 <= k < |p| :: At(s, p[..k]).Some? && At(s, p[..k]).value != 0
    ensures At(t, p) == At(s, p)
  {
    if p != [] {
      var q := p[..|p| - 1];
      assert At(s, p[..|q|]).value != 0;
      forall k | 0 <= k < |q|
        ensures At(s, q[..k]).Some? && At(s, q[..k]).value != 0
      {
        assert q[..k] == p[..k];
      }
      PathIsKept(s, t, q);
    }
  }

  lemma BrokenStays(s: Paging, t: Paging, p: Path)
    requires Broken(s, p) && KeepsEntries(s, t)
    ensures Broken(t, p)
  {
    forall k | 0 <= k <= |p|
      ensures At(t, p[..k]) == At(s, p[..k])
    {
      assert p[..|p|] == p;
      forall j | 0 <= j < k
        ensures At(s, p[..k][..j]).Some? && At(s, p[..k][..j]).value != 0
      {
        assert p[..k][..j] == p[..j];
      }
      PathIsKept(s, t, p[..k]);
    }
    assert p[..|p|] == p;
  }

  lemma BrokenIsNotOwned(s: Paging, p: Path)
    requires Broken(s, p)
    ensures !Owned(s)
  {
    assert IsTable(s, p) && Table(s, p) == 0;
  }

  /** With the pool used up every level, whatever it works on, clears at most frame 0 and fills an absent entry. */
  lemma NextTableBroken(s: Paging, p: Path, f: nat, i: Index)
    requires Broken(s, p)
    ensures Broken(NextTable(s, f, i).0, p)
  {
    BrokenStays(s, NextTable(s, f, i).0, p);
  }

  lemma SetLeafBroken(s: Paging, p: Path, f: nat, i: Index, pa: Word)
    requires Broken(s, p)
    ensures Broken(SetLeaf(s, f, i, pa), p)
  {
    BrokenStays(s, SetLeaf(s, f, i, pa), p);
  }

  /** The level at which the pool gives out. */
  lemma LevelFails(s: Paging, path: Path, i: Index)
    requires Owned(s) && IsTable(s, path) && |path| <= 2 && At(s, path + [i]).None? && s.pool.Free() == 0
    ensures var (t, c) := NextTable(s, Table(s, path), i); c == 0 && Broken(t, path + [i]) && t.mem[0] == ZeroFrame()
  {
    var f, p := Table(s, path), path + [i];
    assert p[..|p| - 1] == path && s.pool.Handed(f);
    var t := NextTable(s, f, i).0;
    var cleared := s.(mem := Clear(s.mem, 0));
    assert t.mem == Store(cleared.mem, f, i, TableEntry(0));
    assert forall q: Path | IsTable(s, q) :: Table(s, q) != 0;
    forall k | 0 <= k <= |path|
      ensures At(t, path[..k]) == At(s, path[..k]) && IsTable(s, path[..k])
    {
      PrefixIsTable(s, path, k);
      ClearKeepsPaths(s, 0, path[..k]);
      ClearThenStore(s, path, i, path[..k]);
    }
    assert path[..|path|] == path;
    forall k | 0 <= k < |p|
      ensures At(t, p[..k]).Some? && At(t, p[..k]).value != 0
    {
      assert p[..k] == path[..k];
    }
  }

  lemma PrefixIsTable(s: Paging, path: Path, k: nat)
    requires IsTable(s, path) && k <= |path|
    ensures IsTable(s, path[..k])
    decreases |path|
  {
    if k == |path| {
      assert path[..k] == path;
    } else {
      var q := path[..|path| - 1];
      PrefixIsTable(s, q, k);
      assert q[..k] == path[..k];
    }
  }

  lemma ClearThenStore(s: Paging, path: Path, i: Index, q: Path)
    requires Owned(s) && IsTable(s, path) && |path| <= 2 && At(s, path + [i]).None? && |q| <= 3 && q != path + [i]
    ensures At(s.(mem := Store(Clear(s.mem, 0), Table(s, path), i, TableEntry(0))), q) == At(s, q)
  {
    var f, p := Table(s, path), path + [i];
    assert p[..|p| - 1] == path;
    assert forall r: Path | IsTable(s, r) :: s.pool.Handed(Table(s, r));
    var cleared := s.(mem := Clear(s.mem, 0));
    ClearedPaths(s, cleared, 0);
    StoredPaths(cleared, cleared.(mem := Store(cleared.mem, f, i, TableEntry(0))), path, i, TableEntry(0));
  }

  // map_page in stages: from its first, second and third level on.

  ghost function From1(s: Paging, va: Word, pa: Word): Paging {
    var (t, pud) := NextTable(s, s.root, PathOf(va)[0]);
    From2(t, pud, va, pa)
  }

  ghost function From2(s: Paging, pud: nat, va: Word, pa: Word): Paging {
    var (t, pmd) := NextTable(s, pud, PathOf(va)[1]);
    From3(t, pmd, va, pa)
  }

  ghost function From3(s: Paging, pmd: nat, va: Word, pa: Word): Paging {
    var (t, pt) := NextTable(s, pmd, PathOf(va)[2]);
    SetLeaf(t, pt, PathOf(va)[3], pa)
  }

  lemma MapPageInStages(s: Paging, va: Word, pa: Word)
    ensures MapPage(s, va, pa) == From1(s, va, pa)
  {
  }

  lemma BrokenFrom3(s: Paging, q: Path, pmd: nat, va: Word, pa: Word)
    requires Broken(s, q)
    ensures Broken(From3(s, pmd, va, pa), q)
  {
    var (t, pt) := NextTable(s, pmd, PathOf(va)[2]);
    NextTableBroken(s, q, pmd, PathOf(va)[2]);
    SetLeafBroken(t, q, pt, PathOf(va)[3], pa);
  }

  lemma BrokenFrom2(s: Paging, q: Path, pud: nat, va: Word, pa: Word)
    requires Broken(s, q)
    ensures Broken(From2(s, pud, va, pa), q)
  {
    var (t, pmd) := NextTable(s, pud, PathOf(va)[1]);
    NextTableBroken(s, q, pud, PathOf(va)[1]);
    BrokenFrom3(t, q, pmd, va, pa);
  }

  /** Nothing repairs a broken path: every later call keeps it, whatever it maps. */
  lemma MapPageKeepsBroken(s: Paging, q: Path, va: Word, pa: Word)
    requires Broken(s, q)
    ensures Broken(MapPage(s, va, pa), q)
  {
    var (t, pud) := NextTable(s, s.root, PathOf(va)[0]);
    NextTableBroken(s, q, s.root, PathOf(va)[0]);
    BrokenFrom2(t, q, pud, va, pa);
    MapPageInStages(s, va, pa);
  }

  lemma FailsFrom3(s: Paging, q: Path, va: Word, pa: Word)
    requires Owned(s) && q == PathOf(va)[..2] && IsTable(s, q) && At(s, PathOf(va)[..3]).None? && s.pool.Free() == 0
    ensures Broken(From3(s, Table(s, q), va, pa), PathOf(va)[..3])
  {
    var p := PathOf(va);
    assert p[..3] == q + [p[2]];
    LevelFails(s, q, p[2]);
    SetLeafBroken(NextTable(s, Table(s, q), p[2]).0, p[..3], 0, p[3], pa);
  }

  lemma FailsFrom2(s: Paging, q: Path, va: Word, pa: Word) returns (b: Path)
    requires Owned(s) && q == PathOf(va)[..1] && IsTable(s, q) && At(s, PathOf(va)[..3]).None?
    requires s.pool.Free() < if At(s, PathOf(va)[..2]).None? then 2 else 1
    ensures Broken(From2(s, Table(s, q), va, pa), b)
  {
    var p := PathOf(va);
    var f := Table(s, q);
    assert p[..2] == q + [p[1]] && p[..3] != p[..2];
    var (t, pmd) := NextTable(s, f, p[1]);
    if At(s, p[..2]).None? && s.pool.Free() == 0 {
      LevelFails(s, q, p[1]);
      BrokenFrom3(t, p[..2], pmd, va, pa);
      b := p[..2];
    } else {
      NextTableStep(s, q, p[1]);
      GrowsTables(s, t, p[..2]);
      FailsFrom3(t, p[..2], va, pa);
      b := p[..3];
    }
  }

  lemma FailsFrom1(s: Paging, va: Word, pa: Word) returns (b: Path)
    requires Owned(s) && Missing(s, va) > s.pool.Free()
    ensures Broken(From1(s, va, pa), b)
  {
    var p := PathOf(va);
    assert p[..1] == [] + [p[0]];
    assert IsTable(s, []) && Table(s, []) == s.root;
    NoTableBelowAbsent(s, p);
    var (t, pud) := NextTable(s, s.root, p[0]);
    if At(s, p[..1]).None? && s.pool.Free() == 0 {
      LevelFails(s, [], p[0]);
      BrokenFrom2(t, p[..1], pud, va, pa);
      b := p[..1];
    } else {
      NextTableStep(s, [], p[0]);
      b := FailsAfter1(s, t, va, pa);
    }
  }

  lemma FailsAfter1(s: Paging, t: Paging, va: Word, pa: Word) returns (b: Path)
    requires Grows(s, t, PathOf(va)[..1]) && Owned(t) && Missing(s, va) > s.pool.Free()
    ensures Broken(From2(t, At(t, PathOf(va)[..1]).value, va, pa), b)
  {
    var p := PathOf(va);
    NoTableBelowAbsent(s, p);
    assert p[..2] != p[..1] && p[..3] != p[..1];
    GrowsTables(s, t, p[..1]);
    assert IsTable(t, p[..2]) <==> IsTable(s, p[..2]);
    assert IsTable(t, p[..3]) <==> IsTable(s, p[..3]);
    b := FailsFrom2(t, p[..1], va, pa);
  }

  /** A call that misses more tables than the pool has frames threads frame 0 into the tree. */
  lemma NotEnoughFrames(s: Paging, va: Word, pa: Word) returns (b: Path)
    requires Owned(s) && Missing(s, va) > s.pool.Free()
    ensures Broken(MapPage(s, va, pa), b) && !Owned(MapPage(s, va, pa))
  {
    MapPageInStages(s, va, pa);
    b := FailsFrom1(s, va, pa);
    BrokenIsNotOwned(MapPage(s, va, pa), b);
  }

  /** Exactly when an unchecked pmm_allocate is harmless to the table tree. */
  lemma OwnedIffEnoughFrames(s: Paging, va: Word, pa: Word)
    requires Owned(s)
    ensures Owned(MapPage(s, va, pa)) <==> Missing(s, va) <= s.pool.Free()
  {
    if Missing(s, va) <= s.pool.Free() {
      MapPageStep(s, va, pa);
    } else {
      var b := NotEnoughFrames(s, va, pa);
    }
  }

  // ---------- Every pointer stays in memory ----------

  /** The tables a call on va goes through, new ones included, are frames of memory. */
  ghost predicate StaysInMemory(s: Paging, va: Word) {
    var (s1, pud) := NextTable(s, s.root, PathOf(va)[0]);
    var (s2, pmd) := NextTable(s1, pud, PathOf(va)[1]);
    var (s3, pt) := NextTable(s2, pmd, PathOf(va)[2]);
    s.root < |s.mem| && pud < |s.mem| && pmd < |s.mem| && pt < |s.mem|
  }

  /** The pool is used up, and present entries of frame 0 lead back to frame 0. */
  ghost predicate ZeroTail(s: Paging) {
    |s.mem| > 0 && s.pool.Free() == 0 && forall i: Index | Present(s.mem[0][i]) :: FrameOf(s.mem[0][i]) == 0
  }

  /** On its way down a call stands at the table of path, or at frame 0 once the pool has given out. */
  ghost predicate Stands(s: Paging, path: Path, f: nat) {
    f < |s.mem| && ((Owned(s) && IsTable(s, path) && f == Table(s, path)) || (ZeroTail(s) && f == 0))
  }

  lemma LevelStands(s: Paging, path: Path, f: nat, i: Index)
    requires Stands(s, path, f) && |path| <= 2
    ensures var (t, c) := NextTable(s, f, i); Stands(t, path + [i], c) && |t.mem| == |s.mem|
  {
    var (t, c) := NextTable(s, f, i);
    if ZeroTail(s) && f == 0 {
      assert FrameOf(TableEntry(0)) == 0;
      assert c == 0 && ZeroTail(t);
    } else if IsTable(s, path + [i]) || s.pool.Free() > 0 {
      NextTableStep(s, path, i);
      assert IsTable(t, path + [i]) && t.pool.Handed(c);
    } else {
      assert s.pool.Handed(f);
      LevelFails(s, path, i);
    }
  }

  /** The first call to meet an empty pool goes wrong inside memory: no owned state makes it leave. */
  lemma OwnedStaysInMemory(s: Paging, va: Word)
    requires Owned(s)
    ensures StaysInMemory(s, va)
  {
    hide NextTable, Owned, TableAt, PathOf, ZeroTail;
    var p := PathOf(va);
    RootStands(s);
    LevelStands(s, [], s.root, p[0]);
    var (s1, pud) := NextTable(s, s.root, p[0]);
    LevelStands(s1, [] + [p[0]], pud, p[1]);
    var (s2, pmd) := NextTable(s1, pud, p[1]);
    LevelStands(s2, [] + [p[0]] + [p[1]], pmd, p[2]);
  }

  lemma RootStands(s: Paging)
    requires Owned(s)
    ensures Stands(s, [], s.root)
  {
    RootIsTable(s);
    assert s.pool.Handed(Table(s, []));
  }
}
