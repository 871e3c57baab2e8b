/**
  Every word of every table.  After any run the pool can feed an entry of an
  inner table is the entry for the table below or 0, and an entry of a page
  table is the leaf for the first physical address asked for or 0.
 */
module TableWords {
  import opened Bits
  import opened PageWords
  import opened PageTable
  import opened PagingRuns

  /** The page a path of four indices leads to. */
  function PageNumber(q: Path): nat
    requires |q| == 4
  {
    0x800_0000 * (q[0] as nat) + 0x4_0000 * (q[1] as nat) + 512 * (q[2] as nat) + q[3]
  }

  lemma PathOfNumber(q: Path)
    requires |q| == 4
    ensures PageNumber(q) < PAGE_LIMIT && PathOfPage(PageNumber(q)) == q
  {
    var n, a: nat, b: nat, c: nat, d: nat := PageNumber(q), q[0], q[1], q[2], q[3];
    DivUnique(n, 512, 0x4_0000 * a + 512 * b + c, d);
    DivUnique(n / 512, 512, 512 * a + b, c);
    DivUnique(n, 0x4_0000, 512 * a + b, 512 * c + d);
    DivUnique(n / 0x4_0000, 512, a, b);
    DivUnique(n, 0x800_0000, a, 0x4_0000 * b + 512 * c + d);
  }

  lemma NumberOfPath(va: nat)
    ensures PageNumber(PathOf(va)) == PageOf(va)
  {
    Recombine(PageOf(va));
  }

  /** The mapped paths are those of the pages of m. */
  ghost predicate Covers(s: Paging, m: map<nat, Word>) {
    forall q: Path | |q| == 4 :: At(s, q).Some? <==> PageNumber(q) in m
  }

  /** The word that belongs at index i of the table of p. */
  ghost function WordAt(s: Paging, m: map<nat, Word>, p: Path, i: Index): Word
    requires |p| <= 3
  {
    if |p| == 3 then
      var page := PageNumber(p + [i]);
      if page in m then LeafEntry(m[page]) else 0
    else if IsTable(s, p + [i]) then TableEntry(0x1000 * Table(s, p + [i]))
    else 0
  }

  /** All words of all tables are as they should be. */
  ghost predicate Exact(s: Paging, m: map<nat, Word>) {
    forall p: Path, i: Index | IsTable(s, p) && Table(s, p) < |s.mem| :: s.mem[Table(s, p)][i] == WordAt(s, m, p, i)
  }

  // ---------- One level ----------

  /** The words after a level with an absent entry: the new entry, a cleared frame, and all others as before. */
  lemma HungWords(s: Paging, f: nat, i: Index, c: nat)
    requires f < |s.mem| && !Present(s.mem[f][i]) && s.pool.Free() > 0
    requires c == s.pool.base + s.pool.used < |s.mem| && f != c
    ensures var t := NextTable(s, f, i).0;
      && |t.mem| == |s.mem|
      && forall g, j: Index | 0 <= g < |s.mem| ::
           t.mem[g][j] == if g == f && j == i then TableEntry(0x1000 * c) else if g == c then 0 else s.mem[g][j]
  {
  }

  lemma OwnerIsPath(s: Paging, path: Path)
    requires Owned(s) && IsTable(s, path)
    ensures forall q: Path | IsTable(s, q) && Table(s, q) == Table(s, path) :: q == path
  {
    hide TableAt;
    assert SoleOwner(s, path);
  }

  lemma PresentKeeps(s: Paging, path: Path, i: Index)
    requires Owned(s) && IsTable(s, path) && |path| <= 2 && At(s, path + [i]).Some?
    ensures NextTable(s, Table(s, path), i).0 == s
  {
    assert (path + [i])[..|path|] == path;
  }

  /** Below an absent table no path is mapped. */
  lemma NothingBelow(s: Paging, m: map<nat, Word>, p: Path, j: Index)
    requires Covers(s, m) && |p| <= 3 && At(s, p).None?
    ensures At(s, p + [j]).None?
    ensures WordAt(s, m, p, j) == 0
  {
    assert (p + [j])[..|p|] == p;
  }

  lemma HangsExact(s: Paging, m: map<nat, Word>, path: Path, i: Index)
    requires Owned(s) && Exact(s, m) && Covers(s, m) && IsTable(s, path) && |path| <= 2
    requires IsTable(s, path + [i]) || s.pool.Free() > 0
    ensures var t := NextTable(s, Table(s, path), i).0; Exact(t, m) && Covers(t, m)
  {
    hide NextTable, TableEntry, SoleOwner, TableAt, PageNumber, LeafEntry;
    var f, p := Table(s, path), path + [i];
    var (t, c) := NextTable(s, f, i);
    if At(s, p).None? {
      HangsTable(s, path, i);
      GrowsTables(s, t, p);
      NewTableExact(s, m, path, i, t, c);
    } else {
      PresentKeeps(s, path, i);
    }
  }

  lemma NewTableExact(s: Paging, m: map<nat, Word>, path: Path, i: Index, t: Paging, c: nat)
    requires Owned(s) && Exact(s, m) && Covers(s, m) && IsTable(s, path) && |path| <= 2
    requires At(s, path + [i]).None? && s.pool.Free() > 0 && (t, c) == NextTable(s, Table(s, path), i)
    requires Grows(s, t, path + [i]) && c == s.pool.base + s.pool.used && At(t, path + [i]) == Some(c)
    ensures Exact(t, m)
  {
    hide NextTable, TableEntry, SoleOwner, TableAt, PageNumber, LeafEntry, Grows, Covers, WordAt;
    var f, p := Table(s, path), path + [i];
    AbsentChild(s, path, i);
    OwnerIsPath(s, path);
    GrowsTables(s, t, p);
    HungWords(s, f, i, c);
    forall q: Path, j: Index | IsTable(t, q) && Table(t, q) < |t.mem|
      ensures t.mem[Table(t, q)][j] == WordAt(t, m, q, j)
    {
      WordAfter(s, t, m, p, q, j);
      if IsTable(s, q) {
        assert Table(t, q) == Table(s, q) && s.pool.Handed(Table(s, q));
        assert q + [j] == p ==> q == path && j == i by { assert p[..|path|] == path; assert (q + [j])[..|q|] == q; }
      } else {
        NothingBelow(s, m, q, j);
        assert q == p && q + [j] != p;
      }
    }
  }

  lemma AbsentChild(s: Paging, path: Path, i: Index)
    requires Owned(s) && IsTable(s, path) && At(s, path + [i]).None?
    ensures var f := Table(s, path); f < |s.mem| && !Present(s.mem[f][i]) && s.pool.Handed(f)
  {
    assert (path + [i])[..|path|] == path && s.pool.Handed(Table(s, path));
    assert At(s, path + [i]) == Child(s.mem, Table(s, path), i);
  }

  /** What a new table at p changes about the words that belong in the tables. */
  lemma WordAfter(s: Paging, t: Paging, m: map<nat, Word>, p: Path, q: Path, j: Index)
    requires Grows(s, t, p) && |p| <= 3 && At(s, p).None? && |q| <= 3
    ensures WordAt(t, m, q, j) == if q + [j] == p then TableEntry(0x1000 * Table(t, p)) else WordAt(s, m, q, j)
  {
    hide TableAt, TableEntry, LeafEntry, PageNumber;
    GrowsTables(s, t, p);
  }

  // ---------- The leaf ----------

  /** The map after one more mapping. */
  function With(m: map<nat, Word>, page: nat, pa: Word): map<nat, Word> {
    if page in m then m else m[page := pa]
  }

  lemma LeafExact(s: Paging, m: map<nat, Word>, path: Path, i: Index, pa: Word)
    requires Owned(s) && Exact(s, m) && Covers(s, m) && IsTable(s, path) && |path| == 3
    ensures Exact(SetLeaf(s, Table(s, path), i, pa), With(m, PageNumber(path + [i]), pa))
  {
    hide SetLeaf, SoleOwner, TableAt, PageNumber, LeafEntry, WordAt;
    var f, p := Table(s, path), path + [i];
    var t, page := SetLeaf(s, f, i, pa), PageNumber(p);
    SetLeafStep(s, path, i, pa);
    GrowsTables(s, t, p);
    OwnerIsPath(s, path);
    if At(s, p).None? {
      AbsentChild(s, path, i);
      LeafWords(s, f, i, pa);
    } else {
      PresentLeafKeeps(s, path, i, pa);
    }
    forall q: Path, j: Index | IsTable(t, q) && Table(t, q) < |t.mem|
      ensures t.mem[Table(t, q)][j] == WordAt(t, With(m, page, pa), q, j)
    {
      WordAfterLeaf(s, t, m, p, q, j, pa);
      assert q + [j] == p ==> q == path && j == i by { assert p[..|path|] == path; assert (q + [j])[..|q|] == q; }
    }
  }

  lemma LeafWords(s: Paging, f: nat, i: Index, pa: Word)
    requires f < |s.mem| && !Present(s.mem[f][i])
    ensures var t := SetLeaf(s, f, i, pa);
      && |t.mem| == |s.mem|
      && forall g, j: Index | 0 <= g < |s.mem| :: t.mem[g][j] == if g == f && j == i then LeafEntry(pa) else s.mem[g][j]
  {
  }

  lemma PresentLeafKeeps(s: Paging, path: Path, i: Index, pa: Word)
    requires Owned(s) && IsTable(s, path) && At(s, path + [i]).Some?
    ensures SetLeaf(s, Table(s, path), i, pa) == s
  {
    assert (path + [i])[..|path|] == path;
  }

  lemma WordAfterLeaf(s: Paging, t: Paging, m: map<nat, Word>, p: Path, q: Path, j: Index, pa: Word)
    requires Grows(s, t, p) && |p| == 4 && |q| <= 3 && (At(s, p).Some? <==> PageNumber(p) in m)
    ensures WordAt(t, With(m, PageNumber(p), pa), q, j)
         == if q + [j] == p && At(s, p).None? then LeafEntry(pa) else WordAt(s, m, q, j)
  {
    hide TableAt, TableEntry, LeafEntry, PageNumber;
    GrowsTables(s, t, p);
    if |q| == 3 && PageNumber(q + [j]) == PageNumber(p) {
      PathOfNumber(p);
      PathOfNumber(q + [j]);
    }
  }

  // ---------- A call and a run ----------

  lemma MapPageKeepsExact(s: Paging, m: map<nat, Word>, va: Word, pa: Word)
    requires Owned(s) && Exact(s, m) && Covers(s, m) && Missing(s, va) <= s.pool.Free()
    ensures Exact(MapPage(s, va, pa), With(m, PageOf(va), pa))
  {
    hide TableAt, Owned, Exact, Covers, Missing, NextTable, SetLeaf, PathOf, PageNumber, With, Grows;
    var p := PathOf(va);
    assert p[..1] == [] + [p[0]] && p[..2] == p[..1] + [p[1]] && p[..3] == p[..2] + [p[2]] && p == p[..3] + [p[3]];
    var s1, s2, s3, pud, pmd, pt := Descent(s, va);
    RootIsTable(s);
    EnoughOnTheWay(s, s1, s2, va);
    HangsExact(s, m, [], p[0]);
    HangsExact(s1, m, p[..1], p[1]);
    HangsExact(s2, m, p[..2], p[2]);
    LeafExact(s3, m, p[..3], p[3], pa);
    NumberOfPath(va);
  }

  lemma RunCovers(s0: Paging, rs: seq<Request>, s: Paging)
    requires RunState(s0, rs, s)
    ensures Covers(s, Mapping(rs))
  {
    hide TableAt, PageNumber, Mapping;
    forall q: Path | |q| == 4
      ensures At(s, q).Some? <==> PageNumber(q) in Mapping(rs)
    {
      PathOfNumber(q);
      var va: Word := 0x1000 * PageNumber(q);
      assert PageOf(va) == PageNumber(q) && PathOf(va) == q;
      assert Walk(s, va) == Lookup(Mapping(rs), PageOf(va));
    }
  }

  /** After every run the pool can feed, every word of every table is determined by the requests. */
  lemma {:induction false} RunWords(s0: Paging, rs: seq<Request>)
    requires Fresh(s0) && TablesNeeded(rs) + Grabs(rs) <= s0.pool.Free()
    ensures Exact(Run(s0, rs), Mapping(rs)) && Covers(Run(s0, rs), Mapping(rs))
  {
    hide Exact, Covers, TablesNeeded, Grabs, Missing, MapPage;
    RunRefinesMap(s0, rs);
    RunCovers(s0, rs, Run(s0, rs));
    if rs == [] {
      FreshIsExact(s0);
    } else {
      var before, r := rs[..|rs| - 1], rs[|rs| - 1];
      assert rs == before + [r];
      NeedsGrow(before, r);
      RunWords(s0, before);
      match r
      case Map(va, pa) =>
        assert Grabs(rs) == Grabs(before) by { OneMap(before, va, pa); }
        NextCallFits(s0, before, va, pa);
        MapPageKeepsExact(Run(s0, before), Mapping(before), va, pa);
      case Grab =>
        GrabKeepsExact(Run(s0, before), Mapping(before));
    }
  }

  lemma OneMap(rs: seq<Request>, va: Word, pa: Word)
    ensures Grabs(rs + [Map(va, pa)]) == Grabs(rs)
  {
    assert (rs + [Map(va, pa)])[..|rs|] == rs;
  }

  lemma GrabKeepsExact(s: Paging, m: map<nat, Word>)
    requires Exact(s, m)
    ensures Exact(Step(s, Grab), m)
  {
    hide TableEntry, LeafEntry, PageNumber;
    SamePaths(s, Step(s, Grab));
  }

  lemma FreshIsExact(s0: Paging)
    requires Fresh(s0)
    ensures Exact(s0, map[])
  {
    forall q: Path | 1 <= |q|
      ensures At(s0, q).None?
    {
      EmptyRoot(s0, q);
    }
  }
}
