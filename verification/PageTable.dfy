/**
  The four-level page table that map_page builds in physical memory, as a
  function on values: memory is a sequence of frames of 512 words, and frames
  are taken from a pool in address order.  The theorems about single calls are
  here; those about runs of calls are in PagingRuns.
 */
module PageTable {
  import opened Bits
  import opened PageWords

  datatype Option<+T> = None | Some(value: T)

  type Frame = f: seq<Word> | |f| == 512 witness seq(512, _ => 0)
  type Memory = seq<Frame>
  type Path = seq<Index>

  function ZeroFrame(): Frame {
    seq(512, _ => 0)
  }

  /** Frames base .. base+capacity-1, of which the first used ones have been handed out. */
  datatype Pool = Pool(base: nat, capacity: nat, used: nat) {
    predicate Handed(f: nat) { base <= f < base + used }
    function Free(): int { capacity - used }
  }

  /** The state map_page works on; root is the frame of the top-level table. */
  datatype Paging = Paging(mem: Memory, root: nat, pool: Pool)

  // ---------- Looking things up ----------

  function Child(mem: Memory, f: nat, i: Index): Option<nat> {
    if f < |mem| && Present(mem[f][i]) then Some(FrameOf(mem[f][i])) else None
  }

  /** The frame reached from the root by following present entries; paths of length 4 end at the mapped frame. */
  function TableAt(mem: Memory, root: nat, path: Path): Option<nat> {
    if path == [] then Some(root)
    else
      var parent := TableAt(mem, root, path[..|path| - 1]);
      if parent.None? then None else Child(mem, parent.value, path[|path| - 1])
  }

  function At(s: Paging, path: Path): Option<nat> {
    TableAt(s.mem, s.root, path)
  }

  /** The page number in base 512, most significant digit first. */
  function PathOfPage(page: nat): (p: Path)
    requires page < PAGE_LIMIT
    ensures |p| == 4
  {
    [page / 0x800_0000, page / 0x4_0000 % 512, page / 512 % 512, page % 512]
  }

  function PathOf(va: nat): (p: Path)
    ensures |p| == 4
  {
    PathOfPage(PageOf(va))
  }

  /** The four-level walk of a virtual address. */
  function Walk(s: Paging, va: nat): Option<nat> {
    At(s, PathOf(va))
  }

  lemma PathsArePages(va: nat, vb: nat)
    ensures PathOf(va) == PathOf(vb) <==> PageOf(va) == PageOf(vb)
  {
    Recombine(PageOf(va));
    Recombine(PageOf(vb));
    if PathOf(va) == PathOf(vb) {
      assert forall k | 0 <= k < 4 :: PathOf(va)[k] == PathOf(vb)[k];
    }
  }

  lemma Recombine(page: nat)
    ensures page == 0x800_0000 * (page / 0x800_0000) + 0x4_0000 * (page / 0x4_0000 % 512) + 512 * (page / 512 % 512) + page % 512
  {
    assert page / 512 / 512 == page / 0x4_0000;
    assert page / 0x4_0000 / 512 == page / 0x800_0000;
  }

  // ---------- Ownership ----------

  ghost predicate IsTable(s: Paging, p: Path) {
    |p| <= 3 && At(s, p).Some?
  }

  ghost function Table(s: Paging, p: Path): nat
    requires IsTable(s, p)
  {
    At(s, p).value
  }

  /** The pool lies in memory, below the largest frame an entry can name, and leaves out frame 0. */
  ghost predicate PoolValid(s: Paging) {
    && 0 < s.pool.base && s.pool.used <= s.pool.capacity
    && s.pool.base + s.pool.capacity <= |s.mem| <= FRAME_LIMIT
  }

  /** Every table is a frame that was handed out, and no frame serves twice. */
  ghost predicate Owned(s: Paging) {
    && PoolValid(s)
    && TablesHanded(s)
    && (forall p: Path | IsTable(s, p) :: SoleOwner(s, p))
  }

  ghost predicate TablesHanded(s: Paging) {
    forall p: Path | IsTable(s, p) :: s.pool.Handed(Table(s, p))
  }

  /** No other path ends at the table of p. */
  ghost predicate SoleOwner(s: Paging, p: Path)
    requires IsTable(s, p)
  {
    forall q: Path | IsTable(s, q) && Table(s, q) == Table(s, p) :: q == p
  }

  // ---------- The kernel's operations ----------

  /** pmm_allocate: the next frame of the pool, or 0 when it is used up; the address is 4096 times the frame. */
  function Allocate(pool: Pool): (Pool, nat) {
    if pool.used < pool.capacity then (pool.(used := pool.used + 1), pool.base + pool.used)
    else (pool, 0)
  }

  function Store(mem: Memory, f: nat, i: Index, w: Word): Memory {
    if f < |mem| then mem[f := mem[f][i := w]] else mem
  }

  function Clear(mem: Memory, f: nat): Memory {
    if f < |mem| then mem[f := ZeroFrame()] else mem
  }

  /** One level of map_page: follow entry i of table f, or hang a cleared new table there. */
  function NextTable(s: Paging, f: nat, i: Index): (Paging, nat) {
    if f < |s.mem| && Present(s.mem[f][i]) then (s, FrameOf(s.mem[f][i]))
    else
      var (pool, c) := Allocate(s.pool);
      (Paging(Store(Clear(s.mem, c), f, i, TableEntry(0x1000 * c)), s.root, pool), c)
  }

  /** The last level: the first mapping of a page wins. */
  function SetLeaf(s: Paging, f: nat, i: Index, paddress: Word): Paging {
    if f < |s.mem| && Present(s.mem[f][i]) then s
    else
      s.(mem := Store(s.mem, f, i, LeafEntry(paddress)))
  }

  function MapPage(s: Paging, va: Word, pa: Word): Paging {
    var (s1, pud) := NextTable(s, s.root, PathOf(va)[0]);
    var (s2, pmd) := NextTable(s1, pud, PathOf(va)[1]);
    var (s3, pt) := NextTable(s2, pmd, PathOf(va)[2]);
    SetLeaf(s3, pt, PathOf(va)[3], pa)
  }

  /** How many new tables MapPage(s, va, _) has to take. */
  ghost function Missing(s: Paging, va: Word): nat {
    var p := PathOf(va);
    (if IsTable(s, p[..1]) then 0 else 1) + (if IsTable(s, p[..2]) then 0 else 1) + (if IsTable(s, p[..3]) then 0 else 1)
  }

  // ---------- One word at a time ----------

  /** Clearing a frame that is no table changes no path. */
  lemma {:induction false} ClearKeepsPaths(s: Paging, c: nat, q: Path)
    requires |q| <= 4
    requires forall p: Path | IsTable(s, p) :: Table(s, p) != c
    ensures At(s.(mem := Clear(s.mem, c)), q) == At(s, q)
  {
    if q != [] {
      var q0 := q[..|q| - 1];
      ClearKeepsPaths(s, c, q0);
      if At(s, q0).Some? {
        assert IsTable(s, q0);
        assert Table(s, q0) != c;
      }
    }
  }

  /** Filling an absent entry makes exactly one more path lead somewhere. */
  lemma {:induction false} StoreAddsOnePath(s: Paging, path: Path, i: Index, w: Word, q: Path)
    requires IsTable(s, path) && Table(s, path) < |s.mem| && Child(s.mem, Table(s, path), i) == None
    requires forall p: Path | IsTable(s, p) && Table(s, p) == Table(s, path) :: p == path
    requires Present(w)
    requires |path| <= 2 ==> FrameOf(w) < |s.mem| && s.mem[FrameOf(w)] == ZeroFrame() && FrameOf(w) != Table(s, path)
    requires |q| <= 4
    ensures At(s.(mem := Store(s.mem, Table(s, path), i, w)), q) == if q == path + [i] then Some(FrameOf(w)) else At(s, q)
  {
    var t := s.(mem := Store(s.mem, Table(s, path), i, w));
    if q != [] {
      var q0, j := q[..|q| - 1], q[|q| - 1];
      assert q == q0 + [j];
      StoreAddsOnePath(s, path, i, w, q0);
      if q0 == path + [i] {
        assert At(s, q0) == None by { assert q0[..|q0| - 1] == path; }
        StoreInChild(s.mem, Table(s, path), i, w, FrameOf(w), j);
        ClearedHasNoChild(s.mem, FrameOf(w), j);
      } else if At(s, q0).Some? {
        assert IsTable(s, q0);
        StoreInChild(s.mem, Table(s, path), i, w, Table(s, q0), j);
        assert Table(s, q0) == Table(s, path) <==> q0 == path;
      }
    }
  }

  lemma StoreInChild(mem: Memory, f: nat, i: Index, w: Word, g: nat, j: Index)
    requires f < |mem| && Present(w)
    ensures Child(Store(mem, f, i, w), g, j) == if g == f && j == i then Some(FrameOf(w)) else Child(mem, g, j)
  {
  }

  lemma ClearedHasNoChild(mem: Memory, f: nat, i: Index)
    requires f < |mem| && mem[f] == ZeroFrame()
    ensures Child(mem, f, i) == None
  {
  }

  // ---------- One level at a time ----------

  /** t is s with path p present: nothing else changes, and a frame is used exactly when p is a new table. */
  ghost predicate Grows(s: Paging, t: Paging, p: Path) {
    && t.root == s.root && |t.mem| == |s.mem|
    && t.pool == s.pool.(used := s.pool.used + if |p| <= 3 && At(s, p).None? then 1 else 0)
    && At(t, p).Some?
    && forall q: Path | |q| <= 4 && (q != p || At(s, q).Some?) :: At(t, q) == At(s, q)
  }

  lemma GrowsTables(s: Paging, t: Paging, p: Path)
    requires Grows(s, t, p)
    ensures forall q: Path :: IsTable(t, q) <==> IsTable(s, q) || (|q| <= 3 && q == p)
    ensures forall q: Path | IsTable(s, q) :: IsTable(t, q) && Table(t, q) == Table(s, q)
  {
    forall q: Path
      ensures IsTable(t, q) <==> IsTable(s, q) || (|q| <= 3 && q == p)
      ensures IsTable(s, q) ==> IsTable(t, q) && Table(t, q) == Table(s, q)
    {
      if |q| <= 3 && (q != p || At(s, q).Some?) {
        assert At(t, q) == At(s, q);
      }
    }
  }

  /** Ownership survives when the new path, if it is a table, ends at the frame just handed out. */
  lemma GrowsOwned(s: Paging, t: Paging, p: Path)
    requires Owned(s) && Grows(s, t, p)
    requires |p| <= 3 && At(s, p).None? ==> s.pool.Free() > 0 && At(t, p) == Some(s.pool.base + s.pool.used)
    ensures Owned(t)
  {
    GrowsTables(s, t, p);
    forall q: Path | IsTable(t, q)
      ensures t.pool.Handed(Table(t, q))
      ensures !IsTable(s, q) ==> Table(t, q) == s.pool.base + s.pool.used
    {
      if IsTable(s, q) {
        assert s.pool.Handed(Table(s, q));
      }
    }
    forall q: Path | IsTable(t, q)
      ensures SoleOwner(t, q)
    {
      if IsTable(s, q) { assert SoleOwner(s, q); }
    }
  }

  lemma ClearedPaths(s: Paging, t: Paging, c: nat)
    requires t.root == s.root && t.mem == Clear(s.mem, c)
    requires forall p: Path | IsTable(s, p) :: Table(s, p) != c
    ensures forall q: Path | |q| <= 4 :: At(t, q) == At(s, q)
    ensures forall q: Path :: IsTable(t, q) <==> IsTable(s, q)
    ensures forall q: Path | IsTable(s, q) :: Table(t, q) == Table(s, q)
  {
    forall q: Path | |q| <= 4
      ensures At(t, q) == At(s, q)
    {
      ClearKeepsPaths(s, c, q);
      assert t.mem == s.(mem := Clear(s.mem, c)).mem;
    }
  }

  lemma StoredPaths(s: Paging, t: Paging, path: Path, i: Index, w: Word)
    requires IsTable(s, path) && Table(s, path) < |s.mem| && Child(s.mem, Table(s, path), i) == None
    requires forall p: Path | IsTable(s, p) && Table(s, p) == Table(s, path) :: p == path
    requires Present(w)
    requires |path| <= 2 ==> FrameOf(w) < |s.mem| && s.mem[FrameOf(w)] == ZeroFrame() && FrameOf(w) != Table(s, path)
    requires t.root == s.root && t.mem == Store(s.mem, Table(s, path), i, w)
    ensures forall q: Path | |q| <= 4 :: At(t, q) == if q == path + [i] then Some(FrameOf(w)) else At(s, q)
  {
    forall q: Path | |q| <= 4
      ensures At(t, q) == if q == path + [i] then Some(FrameOf(w)) else At(s, q)
    {
      StoreAddsOnePath(s, path, i, w, q);
      assert t.mem == s.(mem := Store(s.mem, Table(s, path), i, w)).mem;
    }
  }

  /** A level whose entry is absent hangs the next frame of the pool there, and that is all it does. */
  lemma HangsTable(s: Paging, path: Path, i: Index)
    requires PoolValid(s) && TablesHanded(s) && IsTable(s, path) && SoleOwner(s, path)
    requires |path| <= 2 && At(s, path + [i]).None? && s.pool.Free() > 0
    ensures var (t, c) := NextTable(s, Table(s, path), i);
      Grows(s, t, path + [i]) && c == s.pool.base + s.pool.used && At(t, path + [i]) == Some(c)
  {
    var f, p, c := Table(s, path), path + [i], s.pool.base + s.pool.used;
    assert p[..|p| - 1] == path;
    assert Child(s.mem, f, i) == None by { assert At(s, p) == Child(s.mem, f, i); }
    var w := TableEntry(0x1000 * c);
    EntryNamesFrame(c);
    var cleared := Paging(Clear(s.mem, c), s.root, s.pool.(used := s.pool.used + 1));
    var t := cleared.(mem := Store(cleared.mem, f, i, w));
    assert NextTable(s, f, i) == (t, c);
    ClearedPaths(s, cleared, c);
    assert Child(cleared.mem, f, i) == None;
    StoredPaths(cleared, t, path, i, w);
    NewPathGrows(s, t, p, c);
  }

  lemma EntryNamesFrame(c: nat)
    requires c < FRAME_LIMIT
    ensures Present(TableEntry(0x1000 * c)) && FrameOf(TableEntry(0x1000 * c)) == c
  {
    assert 0x1000 * c / 0x1000 == c;
    assert (0x1000 * c + 3) / 0x1000 == c;
  }

  lemma NewPathGrows(s: Paging, t: Paging, p: Path, c: nat)
    requires t.root == s.root && |t.mem| == |s.mem| && t.pool == s.pool.(used := s.pool.used + 1)
    requires |p| <= 3 && At(s, p).None?
    requires forall q: Path | |q| <= 4 :: At(t, q) == if q == p then Some(c) else At(s, q)
    ensures Grows(s, t, p) && At(t, p) == Some(c)
  {
  }

  /** What one level of map_page does, given that a frame is left if one is needed. */
  lemma NextTableStep(s: Paging, path: Path, i: Index)
    requires Owned(s) && IsTable(s, path) && |path| <= 2
    requires IsTable(s, path + [i]) || s.pool.Free() > 0
    ensures var (t, c) := NextTable(s, Table(s, path), i);
      Grows(s, t, path + [i]) && Owned(t) && At(t, path + [i]) == Some(c)
  {
    var p := path + [i];
    assert p[..|p| - 1] == path;
    var (t, c) := NextTable(s, Table(s, path), i);
    if At(s, p).None? {
      HangsTable(s, path, i);
    } else {
      assert t == s;
    }
    GrowsOwned(s, t, p);
  }

  lemma SetLeafStep(s: Paging, path: Path, i: Index, pa: Word)
    requires Owned(s) && IsTable(s, path) && |path| == 3
    ensures var t := SetLeaf(s, Table(s, path), i, pa);
      Grows(s, t, path + [i]) && Owned(t) && (At(s, path + [i]).None? ==> At(t, path + [i]) == Some(FrameOf(pa)))
  {
    var f, p := Table(s, path), path + [i];
    assert p[..|p| - 1] == path;
    var t := SetLeaf(s, f, i, pa);
    if At(s, p).None? {
      LeafEntryWord(pa);
      forall q: Path | |q| <= 4
        ensures At(t, q) == if q == p then Some(FrameOf(pa)) else At(s, q)
      {
        StoreAddsOnePath(s, path, i, LeafEntry(pa), q);
      }
    }
    GrowsOwned(s, t, p);
  }

  // ---------- A whole call ----------

  /** The first three prefixes of va's path: the tables a call on va makes sure to have. */
  ghost predicate OnTheWay(q: Path, va: Word) {
    1 <= |q| <= 3 && q == PathOf(va)[..|q|]
  }

  /** Going down three levels, each of which hangs at most its own table. */
  lemma ThreeLevels(s: Paging, s1: Paging, s2: Paging, s3: Paging, va: Word)
    requires Grows(s, s1, PathOf(va)[..1]) && Grows(s1, s2, PathOf(va)[..2]) && Grows(s2, s3, PathOf(va)[..3])
    ensures s3.root == s.root && |s3.mem| == |s.mem| && s3.pool == s.pool.(used := s.pool.used + Missing(s, va))
    ensures forall q: Path :: IsTable(s3, q) <==> IsTable(s, q) || OnTheWay(q, va)
    ensures forall q: Path | IsTable(s, q) :: Table(s3, q) == Table(s, q)
    ensures forall q: Path | |q| == 4 :: At(s3, q) == At(s, q)
  {
    var p := PathOf(va);
    GrowsTables(s, s1, p[..1]);
    GrowsTables(s1, s2, p[..2]);
    GrowsTables(s2, s3, p[..3]);
    forall q: Path | |q| == 4
      ensures At(s3, q) == At(s, q)
    {
      assert At(s1, q) == At(s, q) && At(s2, q) == At(s1, q);
    }
  }

  lemma EnoughOnTheWay(s: Paging, s1: Paging, s2: Paging, va: Word)
    requires Missing(s, va) <= s.pool.Free()
    requires Grows(s, s1, PathOf(va)[..1]) && Grows(s1, s2, PathOf(va)[..2])
    ensures IsTable(s, PathOf(va)[..1]) || s.pool.Free() > 0
    ensures IsTable(s1, PathOf(va)[..2]) || s1.pool.Free() > 0
    ensures IsTable(s2, PathOf(va)[..3]) || s2.pool.Free() > 0
  {
    var p := PathOf(va);
    assert p[..2] != p[..1] && p[..3] != p[..1] && p[..3] != p[..2];
    GrowsTables(s, s1, p[..1]);
    GrowsTables(s1, s2, p[..2]);
    assert IsTable(s1, p[..2]) <==> IsTable(s, p[..2]);
    assert IsTable(s2, p[..3]) <==> IsTable(s, p[..3]);
  }

  /** Table f is in memory, and its entry i is present or can be made. */
  ghost predicate LevelReady(s: Paging, f: nat, i: Index) {
    f < |s.mem| && (Present(s.mem[f][i]) || s.pool.Free() > 0)
  }

  lemma LevelIsReady(s: Paging, path: Path, i: Index)
    requires Owned(s) && IsTable(s, path) && |path| <= 2 && (IsTable(s, path + [i]) || s.pool.Free() > 0)
    ensures LevelReady(s, Table(s, path), i)
  {
    var p := path + [i];
    assert p[..|p| - 1] == path && s.pool.Handed(Table(s, path));
    assert At(s, p) == Child(s.mem, Table(s, path), i);
  }

  /** Before each level of a call there is room for what the level may take. */
  lemma LevelsReady(s: Paging, s1: Paging, s2: Paging, s3: Paging, va: Word)
    requires Missing(s, va) <= s.pool.Free()
    requires Grows(s, s1, PathOf(va)[..1]) && Grows(s1, s2, PathOf(va)[..2])
    requires Owned(s) && Owned(s1) && Owned(s2) && Owned(s3)
    requires IsTable(s1, PathOf(va)[..1]) && IsTable(s2, PathOf(va)[..2]) && IsTable(s3, PathOf(va)[..3])
    ensures LevelReady(s, s.root, PathOf(va)[0])
    ensures LevelReady(s1, Table(s1, PathOf(va)[..1]), PathOf(va)[1])
    ensures LevelReady(s2, Table(s2, PathOf(va)[..2]), PathOf(va)[2])
    ensures Table(s3, PathOf(va)[..3]) < |s3.mem|
  {
    hide TableAt, PathOf, Grows, Missing;
    var p := PathOf(va);
    assert p[..1] == [] + [p[0]] && p[..2] == p[..1] + [p[1]] && p[..3] == p[..2] + [p[2]];
    EnoughOnTheWay(s, s1, s2, va);
    RootIsTable(s);
    LevelIsReady(s, [], p[0]);
    LevelIsReady(s1, p[..1], p[1]);
    LevelIsReady(s2, p[..2], p[2]);
    assert s3.pool.Handed(Table(s3, p[..3]));
  }

  lemma RootIsTable(s: Paging)
    ensures IsTable(s, []) && Table(s, []) == s.root
  {
  }

  /** The tables exist after the first three levels, in the order map_page reaches them. */
  lemma Descent(s: Paging, va: Word)
    returns (s1: Paging, s2: Paging, s3: Paging, pud: nat, pmd: nat, pt: nat)
    requires Owned(s) && Missing(s, va) <= s.pool.Free()
    ensures (s1, pud) == NextTable(s, s.root, PathOf(va)[0])
    ensures (s2, pmd) == NextTable(s1, pud, PathOf(va)[1])
    ensures (s3, pt) == NextTable(s2, pmd, PathOf(va)[2])
    ensures Grows(s, s1, PathOf(va)[..1]) && Grows(s1, s2, PathOf(va)[..2]) && Grows(s2, s3, PathOf(va)[..3])
    ensures Owned(s1) && IsTable(s1, PathOf(va)[..1]) && pud == Table(s1, PathOf(va)[..1])
    ensures Owned(s2) && IsTable(s2, PathOf(va)[..2]) && pmd == Table(s2, PathOf(va)[..2])
    ensures Owned(s3) && IsTable(s3, PathOf(va)[..3]) && pt == Table(s3, PathOf(va)[..3])
  {
    var p := PathOf(va);
    assert IsTable(s, []) && p[..1] == [] + [p[0]] && p[..2] == p[..1] + [p[1]] && p[..3] == p[..2] + [p[2]];
    NoTableBelowAbsent(s, p);
    s1, pud := NextTable(s, s.root, p[0]).0, NextTable(s, s.root, p[0]).1;
    NextTableStep(s, [], p[0]);
    s2, pmd := NextTable(s1, pud, p[1]).0, NextTable(s1, pud, p[1]).1;
    NextTableStep(s1, p[..1], p[1]);
    s3, pt := NextTable(s2, pmd, p[2]).0, NextTable(s2, pmd, p[2]).1;
    NextTableStep(s2, p[..2], p[2]);
  }

  /**
    map_page, in a state where the pool can supply the missing tables: ownership is kept, exactly the missing
    tables are taken, no other table appears, and only the translation of va's own page can change.
   */
  lemma MapPageStep(s: Paging, va: Word, pa: Word)
    requires Owned(s) && Missing(s, va) <= s.pool.Free()
    ensures var t := MapPage(s, va, pa);
      && Owned(t) && t.root == s.root && |t.mem| == |s.mem|
      && t.pool == s.pool.(used := s.pool.used + Missing(s, va))
      && (forall q: Path :: IsTable(t, q) <==> IsTable(s, q) || OnTheWay(q, va))
      && (forall q: Path | IsTable(s, q) :: Table(t, q) == Table(s, q))
      && (forall vb: Word :: Walk(t, vb) == (
           if PageOf(vb) == PageOf(va) && Walk(s, va).None? then Some(FrameOf(pa)) else Walk(s, vb)))
  {
    var p := PathOf(va);
    assert p == p[..3] + [p[3]];
    var s1, s2, s3, pud, pmd, pt := Descent(s, va);
    ThreeLevels(s, s1, s2, s3, va);
    var t := SetLeaf(s3, pt, p[3], pa);
    assert t == MapPage(s, va, pa);
    SetLeafStep(s3, p[..3], p[3], pa);
    GrowsTables(s3, t, p);
    WalksAfter(s, s3, t, va, pa);
  }

  lemma WalksAfter(s: Paging, u: Paging, t: Paging, va: Word, pa: Word)
    requires forall q: Path | |q| == 4 :: At(u, q) == At(s, q)
    requires Grows(u, t, PathOf(va)) && (At(u, PathOf(va)).None? ==> At(t, PathOf(va)) == Some(FrameOf(pa)))
    ensures forall vb: Word :: Walk(t, vb) == (
              if PageOf(vb) == PageOf(va) && Walk(s, va).None? then Some(FrameOf(pa)) else Walk(s, vb))
  {
    forall vb: Word
      ensures Walk(t, vb) == if PageOf(vb) == PageOf(va) && Walk(s, va).None? then Some(FrameOf(pa)) else Walk(s, vb)
    {
      PathsArePages(va, vb);
      assert At(u, PathOf(vb)) == At(s, PathOf(vb)) && At(u, PathOf(va)) == At(s, PathOf(va));
    }
  }

  /** A path through a missing table leads nowhere. */
  lemma NoTableBelowAbsent(s: Paging, p: Path)
    requires |p| == 4
    ensures At(s, p[..2]).Some? ==> At(s, p[..1]).Some?
    ensures At(s, p[..3]).Some? ==> At(s, p[..2]).Some?
    ensures At(s, p).Some? ==> At(s, p[..3]).Some?
  {
    assert p[..2][..1] == p[..1] && p[..3][..2] == p[..2];
  }

  /** Mapping a page that is already mapped changes nothing at all. */
  lemma RemapIsNoOp(s: Paging, va: Word, pa: Word)
    requires Walk(s, va).Some?
    ensures MapPage(s, va, pa) == s
  {
    var p := PathOf(va);
    NoTableBelowAbsent(s, p);
    assert p[..3][..2] == p[..2] && p[..2][..1] == p[..1] && p[..1][..0] == [];
    assert At(s, []) == Some(s.root);
    assert At(s, p[..1]) == Child(s.mem, s.root, p[0]);
  }
}
