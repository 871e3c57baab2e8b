/**
  The bound of 47 frames for init_paging cannot be lowered: for a framebuffer
  window that begins in the middle of a 2-MiB region and crosses a gigabyte
  boundary, the run takes exactly 47.
 */
module WorstCase {
  import opened PageWords
  import opened PageTable
  import opened PagingRuns
  import opened KernelSpace
  import Sets

  /** Page 300 of region 1018; the window ends in region 1031, past the boundary at region 1024. */
  const WORST: Address32 := 0x7F52_C000

  lemma {:induction false} RowExactSize(p: Path, n: nat)
    requires n <= 512
    ensures |Row(p, n)| == n
  {
    if n == 0 {
      assert Row(p, n) == {};
    } else {
      RowExactSize(p, n - 1);
      assert Row(p, n) == Row(p, n - 1) + {p + [n - 1]};
      forall i: Index | i < n - 1
        ensures p + [i] != p + [n - 1]
      {
        assert (p + [i])[|p|] == i && (p + [n - 1])[|p|] == n - 1;
      }
    }
  }

  lemma RegionPathsDiffer(r: nat, s: nat)
    requires r < s < 2048
    ensures RegionPath(r) != RegionPath(s)
  {
    assert RegionPath(r)[1] == r / 512 && RegionPath(r)[2] == r % 512;
    assert RegionPath(s)[1] == s / 512 && RegionPath(s)[2] == s % 512;
  }

  lemma {:induction false} RegionsExactSize(q: nat, n: nat)
    requires q + n <= 2048
    ensures |Regions(q, n)| == n
  {
    hide RegionPath;
    if n == 0 {
      assert Regions(q, n) == {};
    } else {
      RegionsExactSize(q, n - 1);
      OneMoreRegion(q, n);
    }
  }

  lemma OneMoreRegion(q: nat, n: nat)
    requires q + n <= 2048 && n > 0
    ensures Regions(q, n) == Regions(q, n - 1) + {RegionPath(q + n - 1)}
    ensures RegionPath(q + n - 1) !in Regions(q, n - 1)
  {
    hide RegionPath;
    forall r: nat | q <= r < q + n - 1
      ensures RegionPath(r) != RegionPath(q + n - 1)
    {
      RegionPathsDiffer(r, q + n - 1);
    }
  }

  lemma TablesApart()
    ensures Row([511, 510], 13) !! Row([0, 0], 13)
    ensures Row([511, 510], 13) + Row([0, 0], 13) !! Regions(1018, 14)
  {
    forall p | p in Row([511, 510], 13) ensures p[0] == 511 {}
    forall p | p in Row([0, 0], 13) ensures p[0] == 0 && p[1] == 0 {}
    forall p | p in Regions(1018, 14)
      ensures p[0] == 0 && p[1] != 0
    {
      var r: nat :| 1018 <= r < 1032 && p == RegionPath(r);
    }
  }

  lemma WorstBound3()
    ensures |Bound3(WORST)| == 40
  {
    hide Row, Regions;
    assert WORST / 0x20_0000 == 1018;
    RowExactSize([511, 510], 13);
    RowExactSize([0, 0], 13);
    RegionsExactSize(1018, 14);
    TablesApart();
    Sets.DisjointUnionSize(Row([511, 510], 13), Row([0, 0], 13));
    Sets.DisjointUnionSize(Row([511, 510], 13) + Row([0, 0], 13), Regions(1018, 14));
  }

  lemma WorstBound12()
    ensures |Bound1()| == 2
    ensures Bound2(WORST) == {[511, 510], [0, 0], [0, 1], [0, 2]} && |Bound2(WORST)| == 4
  {
    var a, b, c, d: Path := [511, 510], [0, 0], [0, 1], [0, 2];
    assert a[0] != b[0] && a[0] != c[0] && a[0] != d[0] && b[1] != c[1] && b[1] != d[1] && c[1] != d[1];
    assert Bound2(WORST) == {a, b, c, d};
    assert |{a, b, c, d}| == 4;
    var x, y: Path := [511], [0];
    assert x[0] != y[0];
    assert |{x, y}| == 2;
  }

  /** The prefixes of the page that request j maps are counted. */
  lemma RequestCounts(j: nat, k: nat)
    requires j < 3 * WINDOW && k <= 4
    ensures PathOf(Iteration(WORST, j / 3)[j % 3].va)[..k] in Prefixes(InitRequests(WORST, WINDOW), k)
  {
    hide Prefixes, PathOfPage, PageOf;
    var rs := InitRequests(WORST, WINDOW);
    OnlyMapsInside(j);
    PrefixesAreRequested(rs, k, PathOf(Iteration(WORST, j / 3)[j % 3].va)[..k]);
    assert rs[j] == Iteration(WORST, j / 3)[j % 3];
  }

  lemma OnlyMapsInside(j: nat)
    requires j < 3 * WINDOW
    ensures Iteration(WORST, j / 3)[j % 3].Map?
  {
  }

  lemma KernelTableCounts(i: Index)
    requires i < 13
    ensures [511, 510, i] in Prefixes(InitRequests(WORST, WINDOW), 3)
  {
    hide Prefixes, PathOf;
    KernelPath(512 * i);
    RequestCounts(3 * (512 * i), 3);
  }

  lemma LowTableCounts(i: Index)
    requires i < 13
    ensures [0, 0, i] in Prefixes(InitRequests(WORST, WINDOW), 3)
  {
    hide Prefixes, PathOf;
    LowPath(512 * i);
    RequestCounts(3 * (512 * i) + 1, 3);
  }

  /** An iteration whose framebuffer page lies in region 1018 + d. */
  function InRegion(d: nat): nat
    requires d < 14
  {
    if d == 0 then 0 else 512 * d - 300
  }

  lemma RegionCounts(d: nat)
    requires d < 14
    ensures RegionPath(1018 + d) in Prefixes(InitRequests(WORST, WINDOW), 3)
  {
    hide Prefixes, PathOf;
    var i := InRegion(d);
    assert WORST / 0x20_0000 == 1018 && WORST / 0x1000 % 512 == 300;
    assert (300 + i) / 512 == d;
    FramebufferPath(WORST, i);
    RequestCounts(3 * i + 2, 3);
  }

  lemma ShorterPrefixes(rs: seq<Request>, p: Path)
    requires p in Prefixes(rs, 3) && |p| == 3
    ensures p[..2] in Prefixes(rs, 2) && p[..1] in Prefixes(rs, 1)
  {
    hide Prefixes, PathOfPage, PageOf;
    PrefixesAreRequested(rs, 3, p);
    var i :| 0 <= i < |rs| && rs[i].Map? && PathOf(rs[i].va)[..3] == p;
    assert p[..2] == PathOf(rs[i].va)[..2] && p[..1] == PathOf(rs[i].va)[..1];
    PrefixesAreRequested(rs, 2, p[..2]);
    PrefixesAreRequested(rs, 1, p[..1]);
  }

  lemma WorstCounts3()
    ensures Bound3(WORST) <= Prefixes(InitRequests(WORST, WINDOW), 3)
  {
    hide Prefixes, RegionPath, InitRequests;
    assert WORST / 0x20_0000 == 1018;
    forall p | p in Row([511, 510], 13)
      ensures p in Prefixes(InitRequests(WORST, WINDOW), 3)
    {
      var i: Index :| i < 13 && p == [511, 510] + [i];
      KernelTableCounts(i);
      assert p == [511, 510, i];
    }
    forall p | p in Row([0, 0], 13)
      ensures p in Prefixes(InitRequests(WORST, WINDOW), 3)
    {
      var i: Index :| i < 13 && p == [0, 0] + [i];
      LowTableCounts(i);
      assert p == [0, 0, i];
    }
    forall p | p in Regions(1018, 14)
      ensures p in Prefixes(InitRequests(WORST, WINDOW), 3)
    {
      var r: nat :| 1018 <= r < 1032 && p == RegionPath(r);
      RegionCounts(r - 1018);
    }
  }

  lemma WorstCounts12()
    ensures Bound1() <= Prefixes(InitRequests(WORST, WINDOW), 1)
    ensures Bound2(WORST) <= Prefixes(InitRequests(WORST, WINDOW), 2)
  {
    hide Prefixes, InitRequests;
    var rs := InitRequests(WORST, WINDOW);
    KernelTableCounts(0);
    LowTableCounts(0);
    RegionCounts(0);
    RegionCounts(13);
    assert RegionPath(1018) == [0, 1, 506] && RegionPath(1031) == [0, 2, 7];
    ShorterPrefixes(rs, [511, 510, 0]);
    ShorterPrefixes(rs, [0, 0, 0]);
    ShorterPrefixes(rs, [0, 1, 506]);
    ShorterPrefixes(rs, [0, 2, 7]);
    assert [511, 510, 0][..2] == [511, 510] && [0, 0, 0][..2] == [0, 0] && [0, 1, 506][..2] == [0, 1] && [0, 2, 7][..2] == [0, 2];
    assert [511, 510, 0][..1] == [511] && [0, 0, 0][..1] == [0];
    WorstBound12();
  }

  lemma FortySixTables()
    ensures TablesNeeded(InitRequests(WORST, WINDOW)) == 46
  {
    hide Prefixes, InitRequests, Bound1, Bound2, Bound3;
    RequestsTakeBoundedTables(WORST, WINDOW);
    WorstCounts3();
    WorstCounts12();
    WorstBound3();
    WorstBound12();
    var rs := InitRequests(WORST, WINDOW);
    assert Prefixes(rs, 1) == Bound1() && Prefixes(rs, 2) == Bound2(WORST) && Prefixes(rs, 3) == Bound3(WORST);
  }

  /** For this framebuffer init_paging takes 46 tables and the root. */
  lemma FortySevenFramesAreTaken(mem: Memory, pool: Pool)
    requires 0 < pool.base && pool.base + pool.capacity <= |mem| <= FRAME_LIMIT && pool.Free() >= 47
    ensures InitPaging(mem, pool, WORST).pool.used == pool.used + 47
  {
    hide InitPaging, TablesNeeded;
    FortySixTables();
    FortySevenFramesSuffice(mem, pool, WORST);
    InitPagingBuildsWindows(mem, pool, WORST);
  }
}
