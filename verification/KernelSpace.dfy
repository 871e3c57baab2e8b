/**
  The address space init_paging builds: 6400 pages each of the kernel window
  (onto physical memory from 0), of low identity and of framebuffer identity.
  The framebuffer address is a 32-bit number, so its window can wrap to 0.
 */
module KernelSpace {
  import opened Bits
  import opened PageWords
  import opened PageTable
  import opened PagingRuns
  import Exhaustion
  import ER = ExhaustedRuns
  import Sets

  const KERNEL_START: Word := 0xFFFF_FFFF_8000_0000
  const KERNEL_PAGE := 0xF_FFF8_0000
  const WINDOW := 6400

  type Address32 = a: nat | a < LIMIT32

  function FramebufferPage(fb: Address32, i: nat): (va: Word)
    ensures va < LIMIT32
  {
    (fb + 0x1000 * i) % LIMIT32
  }

  /** The three calls of iteration i. */
  function Iteration(fb: Address32, i: nat): seq<Request>
    requires i < WINDOW
  {
    [Map(KERNEL_START + 0x1000 * i, 0x1000 * i), Map(0x1000 * i, 0x1000 * i),
     Map(FramebufferPage(fb, i), FramebufferPage(fb, i))]
  }

  function InitRequests(fb: Address32, n: nat): seq<Request>
    requires n <= WINDOW
  {
    seq(3 * n, k requires 0 <= k < 3 * n => Iteration(fb, k / 3)[k % 3])
  }

  lemma OneMoreIteration(fb: Address32, n: nat)
    requires n < WINDOW
    ensures InitRequests(fb, n + 1) == InitRequests(fb, n) + Iteration(fb, n)
  {
  }

  /** init_paging, from the memory and the pool it finds. */
  function InitPaging(mem: Memory, pool: Pool, fb: Address32): Paging {
    Run(NewRoot(mem, pool), InitRequests(fb, WINDOW))
  }

  // ---------- The translation it defines ----------

  predicate InFramebuffer(fb: Address32, n: nat, page: nat) {
    page < 0x10_0000 && (page - fb / 0x1000) % 0x10_0000 < n
  }

  /** The union of the three windows of n pages. */
  function Windows(fb: Address32, n: nat, page: nat): Option<nat> {
    if KERNEL_PAGE <= page < KERNEL_PAGE + n then Some(page - KERNEL_PAGE)
    else if page < n || InFramebuffer(fb, n, page) then Some(page)
    else None
  }

  lemma PagesOfIteration(fb: Address32, i: nat)
    requires i < WINDOW
    ensures PageOf(KERNEL_START + 0x1000 * i) == KERNEL_PAGE + i
    ensures PageOf(0x1000 * i) == i && FrameOf(0x1000 * i) == i
    ensures var v := FramebufferPage(fb, i);
      PageOf(v) == (fb / 0x1000 + i) % 0x10_0000 && FrameOf(v) == PageOf(v)
  {
    hide PageOf, FrameOf;
    KernelPages(i);
    FramebufferPages(fb, i);
  }

  lemma KernelPages(i: nat)
    requires i < WINDOW
    ensures PageOf(KERNEL_START + 0x1000 * i) == KERNEL_PAGE + i
    ensures PageOf(0x1000 * i) == i && FrameOf(0x1000 * i) == i
  {
    assert 0x1000 * i / 0x1000 == i;
    assert (KERNEL_START + 0x1000 * i) / 0x1000 == KERNEL_START / 0x1000 + i;
  }

  lemma FramebufferPages(fb: Address32, i: nat)
    requires i < WINDOW
    ensures var v := FramebufferPage(fb, i);
      PageOf(v) == (fb / 0x1000 + i) % 0x10_0000 && FrameOf(v) == PageOf(v)
  {
    var f, o := fb / 0x1000, fb % 0x1000;
    assert fb + 0x1000 * i == 0x1000 * (f + i) + o;
    WrapPage(f + i, o);
  }

  lemma WrapPage(p: nat, o: nat)
    requires o < 0x1000
    ensures (0x1000 * p + o) % LIMIT32 / 0x1000 == p % 0x10_0000
  {
    var q, r := p / 0x10_0000, p % 0x10_0000;
    assert 0x1000 * p + o == LIMIT32 * q + (0x1000 * r + o);
    DivUnique(0x1000 * p + o, LIMIT32, q, 0x1000 * r + o);
  }

  lemma FramebufferGrows(fb: Address32, n: nat, page: nat)
    requires n < WINDOW
    ensures InFramebuffer(fb, n + 1, page) <==> InFramebuffer(fb, n, page) || page == (fb / 0x1000 + n) % 0x10_0000
  {
    var f := fb / 0x1000;
    if page < 0x10_0000 {
      Residue(f, n, page);
    }
  }

  lemma Residue(f: nat, n: nat, page: nat)
    requires f < 0x10_0000 && page < 0x10_0000 && n < WINDOW
    ensures (page - f) % 0x10_0000 == n <==> page == (f + n) % 0x10_0000
  {
  }

  /** What one iteration adds for a page that has no frame yet. */
  function Added(fb: Address32, i: nat, page: nat): Option<nat> {
    if page == KERNEL_PAGE + i then Some(i)
    else if page == i || page == (fb / 0x1000 + i) % 0x10_0000 then Some(page)
    else None
  }

  lemma IterationLookup(rs: seq<Request>, fb: Address32, i: nat, page: nat)
    requires i < WINDOW
    ensures Lookup(Mapping(rs + Iteration(fb, i)), page)
         == if Lookup(Mapping(rs), page).Some? then Lookup(Mapping(rs), page) else Added(fb, i, page)
  {
    hide Mapping, FramebufferPage, FrameOf, PageOf;
    var a, b, v: Word := KERNEL_START + 0x1000 * i, 0x1000 * i, FramebufferPage(fb, i);
    PagesOfIteration(fb, i);
    MappingGrows(rs, a, b, page);
    MappingGrows(rs + [Map(a, b)], b, b, page);
    MappingGrows(rs + [Map(a, b)] + [Map(b, b)], v, v, page);
    assert rs + Iteration(fb, i) == rs + [Map(a, b)] + [Map(b, b)] + [Map(v, v)];
  }

  lemma WindowsGrow(fb: Address32, i: nat, page: nat)
    requires i < WINDOW
    ensures Windows(fb, 0, page) == None
    ensures Windows(fb, i + 1, page) == if Windows(fb, i, page).Some? then Windows(fb, i, page) else Added(fb, i, page)
  {
    FramebufferGrows(fb, i, page);
  }

  /** The finite map of the first n iterations is the union of the windows. */
  lemma {:induction false} RequestsAreWindows(fb: Address32, n: nat, page: nat)
    requires n <= WINDOW
    ensures Lookup(Mapping(InitRequests(fb, n)), page) == Windows(fb, n, page)
  {
    hide Windows, Added, Iteration;
    if n > 0 {
      RequestsAreWindows(fb, n - 1, page);
      OneMoreIteration(fb, n - 1);
      IterationLookup(InitRequests(fb, n - 1), fb, n - 1, page);
      WindowsGrow(fb, n - 1, page);
    } else {
      WindowsGrow(fb, 0, page);
    }
  }

  // ---------- The addresses it maps ----------

  /** The round in which the framebuffer window comes to a page. */
  function FramebufferRound(fb: Address32, page: nat): nat {
    (page - fb / 0x1000) % 0x10_0000
  }

  /**
    The physical address a page is mapped at.  The framebuffer's addresses keep the offset of the framebuffer in its
    page; a low page that the framebuffer window reaches first gets that one.
   */
  function WindowAddress(fb: Address32, n: nat, page: nat): Option<Word>
    requires n <= WINDOW
  {
    if KERNEL_PAGE <= page < KERNEL_PAGE + n then Some(0x1000 * (page - KERNEL_PAGE))
    else if page < n && !(InFramebuffer(fb, n, page) && FramebufferRound(fb, page) < page) then Some(0x1000 * page)
    else if InFramebuffer(fb, n, page) then Some(0x1000 * page + fb % 0x1000)
    else None
  }

  function AddressAdded(fb: Address32, i: nat, page: nat): Option<Word>
    requires i < WINDOW
  {
    if page == KERNEL_PAGE + i || page == i then Some(0x1000 * i)
    else if page == (fb / 0x1000 + i) % 0x10_0000 then Some(FramebufferPage(fb, i))
    else None
  }

  lemma IterationAddress(rs: seq<Request>, fb: Address32, i: nat, page: nat)
    requires i < WINDOW
    ensures AddressIn(Mapping(rs + Iteration(fb, i)), page)
         == if page in Mapping(rs) then AddressIn(Mapping(rs), page) else AddressAdded(fb, i, page)
  {
    hide Mapping, FramebufferPage, FrameOf, PageOf;
    var a, b, v: Word := KERNEL_START + 0x1000 * i, 0x1000 * i, FramebufferPage(fb, i);
    PagesOfIteration(fb, i);
    MappingGrows(rs, a, b, page);
    MappingGrows(rs + [Map(a, b)], b, b, page);
    MappingGrows(rs + [Map(a, b)] + [Map(b, b)], v, v, page);
    assert rs + Iteration(fb, i) == rs + [Map(a, b)] + [Map(b, b)] + [Map(v, v)];
  }

  lemma WindowAddressGrows(fb: Address32, i: nat, page: nat)
    requires i < WINDOW
    ensures WindowAddress(fb, 0, page) == None
    ensures WindowAddress(fb, i + 1, page)
         == if WindowAddress(fb, i, page).Some? then WindowAddress(fb, i, page) else AddressAdded(fb, i, page)
  {
    hide FramebufferPage;
    FramebufferGrows(fb, i, page);
    FramebufferAddress(fb, i);
    if page < 0x10_0000 {
      Residue(fb / 0x1000, i, page);
    }
  }

  lemma FramebufferAddress(fb: Address32, i: nat)
    requires i < WINDOW
    ensures FramebufferPage(fb, i) == 0x1000 * ((fb / 0x1000 + i) % 0x10_0000) + fb % 0x1000
  {
    var f, o := fb / 0x1000, fb % 0x1000;
    var q, r := (f + i) / 0x10_0000, (f + i) % 0x10_0000;
    assert fb + 0x1000 * i == LIMIT32 * q + (0x1000 * r + o);
    DivUnique(fb + 0x1000 * i, LIMIT32, q, 0x1000 * r + o);
  }

  /** The first n iterations map exactly these addresses. */
  lemma {:induction false} RequestsAreAddresses(fb: Address32, n: nat, page: nat)
    requires n <= WINDOW
    ensures AddressIn(Mapping(InitRequests(fb, n)), page) == WindowAddress(fb, n, page)
  {
    hide WindowAddress, AddressAdded, Iteration, Mapping;
    if n > 0 {
      RequestsAreAddresses(fb, n - 1, page);
      OneMoreIteration(fb, n - 1);
      IterationAddress(InitRequests(fb, n - 1), fb, n - 1, page);
      WindowAddressGrows(fb, n - 1, page);
    } else {
      WindowAddressGrows(fb, 0, page);
      NoRequestsMapNothing(fb);
    }
  }

  lemma NoRequestsMapNothing(fb: Address32)
    ensures Mapping(InitRequests(fb, 0)) == map[]
  {
  }

  // ---------- The tables it takes ----------

  /** The page tables at entries 0 .. n-1 of one middle table. */
  ghost function Row(p: Path, n: nat): set<Path>
    requires n <= 512
  {
    set i: Index | 0 <= i < n :: p + [i]
  }

  /** The page tables of n consecutive 2-MiB regions from region q of the low 4 GiB, wrapping around. */
  ghost function Regions(q: nat, n: nat): set<Path> {
    set r: nat | q <= r < q + n :: RegionPath(r)
  }

  lemma {:induction false} RowSize(p: Path, n: nat)
    requires n <= 512
    ensures |Row(p, n)| <= n
  {
    if n == 0 {
      assert Row(p, n) == {};
    } else {
      RowSize(p, n - 1);
      assert Row(p, n) == Row(p, n - 1) + {p + [n - 1]};
    }
  }

  lemma InRow(p: Path, i: Index, n: nat)
    requires i < n <= 512
    ensures p + [i] in Row(p, n)
  {
  }

  lemma {:induction false} RegionsSize(q: nat, n: nat)
    ensures |Regions(q, n)| <= n
  {
    if n == 0 {
      assert Regions(q, n) == {};
    } else {
      RegionsSize(q, n - 1);
      assert Regions(q, n) == Regions(q, n - 1) + {RegionPath(q + n - 1)};
    }
  }

  function RegionPath(r: nat): Path {
    [0, r % 2048 / 512, r % 512]
  }

  ghost function Bound1(): set<Path> { {[511], [0]} }

  ghost function Bound2(fb: Address32): set<Path> {
    var g := fb / 0x4000_0000;
    {[511, 510], [0, 0], [0, g], [0, (g + 1) % 4]}
  }

  ghost function Bound3(fb: Address32): set<Path> {
    Row([511, 510], 13) + Row([0, 0], 13) + Regions(fb / 0x20_0000, 14)
  }

  lemma KernelPath(i: nat)
    requires i < WINDOW
    ensures PathOf(KERNEL_START + 0x1000 * i)[..3] == [511, 510, i / 512]
  {
    var k := KERNEL_PAGE + i;
    PagesOfIteration(0, i);
    assert k / 512 == 0x7FF_FC00 + i / 512;
    assert k / 0x4_0000 == 0x3_FFFE && k / 0x800_0000 == 511;
  }

  lemma LowPath(i: nat)
    requires i < WINDOW
    ensures PathOf(0x1000 * i)[..3] == [0, 0, i / 512]
  {
    PagesOfIteration(0, i);
  }

  lemma RegionPathOfPage(f: nat, i: nat)
    requires f < 0x10_0000 && i < WINDOW
    ensures PathOfPage((f + i) % 0x10_0000)[..3] == RegionPath(f / 512 + (f % 512 + i) / 512)
  {
    var page, r := (f + i) % 0x10_0000, f / 512 + (f % 512 + i) / 512;
    RegionOfPage(f, i, f / 512, (f % 512 + i) / 512);
    assert page / 0x800_0000 == 0 && page / 0x4_0000 % 512 == r % 2048 / 512 && page / 512 % 512 == r % 512;
    assert PathOfPage(page)[..3] == [page / 0x800_0000, page / 0x4_0000 % 512, page / 512 % 512];
  }

  lemma FramebufferPath(fb: Address32, i: nat)
    requires i < WINDOW
    ensures PathOf(FramebufferPage(fb, i))[..3] == RegionPath(fb / 0x20_0000 + (fb / 0x1000 % 512 + i) / 512)
  {
    var f, page := fb / 0x1000, PageOf(FramebufferPage(fb, i));
    assert page == (f + i) % 0x10_0000 by { PagesOfIteration(fb, i); }
    assert f / 512 == fb / 0x20_0000;
    RegionPathOfPage(f, i);
  }

  lemma FramebufferTables(fb: Address32, i: nat)
    requires i < WINDOW
    ensures var p := PathOf(FramebufferPage(fb, i));
      p[..1] in Bound1() && p[..2] in Bound2(fb) && p[..3] in Bound3(fb)
  {
    var p, q := PathOf(FramebufferPage(fb, i)), fb / 0x20_0000;
    var d := (fb / 0x1000 % 512 + i) / 512;
    FramebufferPath(fb, i);
    GigabyteOfRegion(q, d);
    PrefixesOfPrefix(p, RegionPath(q + d));
    assert RegionPath(q + d) in Regions(q, 14);
  }

  lemma PrefixesOfPrefix(p: Path, r: Path)
    requires |p| == 4 && p[..3] == r
    ensures p[..1] == [r[0]] && p[..2] == [r[0], r[1]]
  {
    assert p[..3][..1] == p[..1] && p[..3][..2] == p[..2];
  }

  lemma RegionOfPage(f: nat, i: nat, q: nat, d: nat)
    requires f < 0x10_0000 && i < WINDOW && q == f / 512 && d == (f % 512 + i) / 512
    ensures var p := (f + i) % 0x10_0000;
      p / 512 == (q + d) % 2048 && p / 0x4_0000 == (q + d) % 2048 / 512 && p / 512 % 512 == (q + d) % 512
  {
    var p := (f + i) % 0x10_0000;
    assert (f + i) / 512 == q + d;
    assert p == f + i || p == f + i - 0x10_0000;
    assert p / 512 == q + d || p / 512 == q + d - 2048;
    assert p / 0x4_0000 == p / 512 / 512;
  }

  lemma GigabyteOfRegion(q: nat, d: nat)
    requires q < 2048 && d < 14
    ensures (q + d) % 2048 / 512 == q / 512 || (q + d) % 2048 / 512 == (q / 512 + 1) % 4
  {
  }

  lemma KernelTables(fb: Address32, i: nat)
    requires i < WINDOW
    ensures var p := PathOf(KERNEL_START + 0x1000 * i);
      p[..1] in Bound1() && p[..2] in Bound2(fb) && p[..3] in Bound3(fb)
  {
    var p, j: Index := PathOf(KERNEL_START + 0x1000 * i), i / 512;
    KernelPath(i);
    PrefixesOfPrefix(p, [511, 510, j]);
    InRow([511, 510], j, 13);
    assert [511, 510] + [j] == [511, 510, j];
  }

  lemma LowTables(fb: Address32, i: nat)
    requires i < WINDOW
    ensures var p := PathOf(0x1000 * i);
      p[..1] in Bound1() && p[..2] in Bound2(fb) && p[..3] in Bound3(fb)
  {
    var p, j: Index := PathOf(0x1000 * i), i / 512;
    LowPath(i);
    PrefixesOfPrefix(p, [0, 0, j]);
    InRow([0, 0], j, 13);
    assert [0, 0] + [j] == [0, 0, j];
  }

  lemma RequestsTakeBoundedTables(fb: Address32, n: nat)
    requires n <= WINDOW
    ensures var rs := InitRequests(fb, n);
      Prefixes(rs, 1) <= Bound1() && Prefixes(rs, 2) <= Bound2(fb) && Prefixes(rs, 3) <= Bound3(fb)
  {
    hide PathOf, Prefixes, Bound1, Bound2, Bound3, FramebufferPage;
    var rs := InitRequests(fb, n);
    forall i | 0 <= i < |rs|
      ensures PathOf(rs[i].va)[..1] in Bound1() && PathOf(rs[i].va)[..2] in Bound2(fb) && PathOf(rs[i].va)[..3] in Bound3(fb)
    {
      KernelTables(fb, i / 3);
      LowTables(fb, i / 3);
      FramebufferTables(fb, i / 3);
    }
    forall p | p in Prefixes(rs, 1) ensures p in Bound1() { PrefixesAreRequested(rs, 1, p); }
    forall p | p in Prefixes(rs, 2) ensures p in Bound2(fb) { PrefixesAreRequested(rs, 2, p); }
    forall p | p in Prefixes(rs, 3) ensures p in Bound3(fb) { PrefixesAreRequested(rs, 3, p); }
  }

  lemma {:induction false} OnlyMaps(rs: seq<Request>)
    requires forall k | 0 <= k < |rs| :: rs[k].Map?
    ensures Grabs(rs) == 0
  {
    if rs != [] {
      OnlyMaps(rs[..|rs| - 1]);
    }
  }

  lemma BoundSizes(fb: Address32)
    ensures |Bound1()| <= 2 && |Bound2(fb)| <= 4 && |Bound3(fb)| <= 40
  {
    var k, l, f := Row([511, 510], 13), Row([0, 0], 13), Regions(fb / 0x20_0000, 14);
    RowSize([511, 510], 13);
    RowSize([0, 0], 13);
    RegionsSize(fb / 0x20_0000, 14);
    Sets.UnionSize(k, l);
    Sets.UnionSize(k + l, f);
  }

  /** Whatever the framebuffer address, the three windows need at most 46 tables below the root. */
  lemma AtMost46Tables(fb: Address32, n: nat)
    requires n <= WINDOW
    ensures TablesNeeded(InitRequests(fb, n)) <= 46 && Grabs(InitRequests(fb, n)) == 0
  {
    var rs := InitRequests(fb, n);
    RequestsTakeBoundedTables(fb, n);
    OnlyMaps(rs);
    BoundSizes(fb);
    Sets.SubsetSize(Prefixes(rs, 1), Bound1());
    Sets.SubsetSize(Prefixes(rs, 2), Bound2(fb));
    Sets.SubsetSize(Prefixes(rs, 3), Bound3(fb));
  }

  // ---------- init_paging ----------

  /** The pool can feed init_paging: the root and the tables of its requests. */
  ghost predicate CanInit(mem: Memory, pool: Pool, fb: Address32) {
    && 0 < pool.base && pool.base + pool.capacity <= |mem| <= FRAME_LIMIT
    && 1 + TablesNeeded(InitRequests(fb, WINDOW)) <= pool.Free()
  }

  /** init_paging translates exactly the union of the three windows and takes at most 47 frames, root included. */
  lemma InitPagingBuildsWindows(mem: Memory, pool: Pool, fb: Address32)
    requires CanInit(mem, pool, fb)
    ensures var t := InitPaging(mem, pool, fb);
      && Owned(t) && |t.mem| == |mem| && t.root == pool.base + pool.used
      && t.pool == pool.(used := pool.used + 1 + TablesNeeded(InitRequests(fb, WINDOW)))
      && t.pool.used <= pool.used + 47
      && forall va: Word :: Walk(t, va) == Windows(fb, WINDOW, PageOf(va))
  {
    var s0, rs := NewRoot(mem, pool), InitRequests(fb, WINDOW);
    NewRootIsFresh(mem, pool);
    AtMost46Tables(fb, WINDOW);
    RunRefinesMap(s0, rs);
    var t := Run(s0, rs);
    forall va: Word
      ensures Walk(t, va) == Windows(fb, WINDOW, PageOf(va))
    {
      RequestsAreWindows(fb, WINDOW, PageOf(va));
    }
  }

  /** The same for addresses: the three stretches of 6400 pages, byte by byte. */
  lemma InitTranslates(mem: Memory, pool: Pool, fb: Address32, a: nat)
    requires CanInit(mem, pool, fb) && a < 6400 * 0x1000
    ensures var t := InitPaging(mem, pool, fb);
      && Walk(t, 0xFFFF_FFFF_8000_0000 + a) == Some(a / 0x1000)
      && Walk(t, a) == Some(a / 0x1000)
      && Walk(t, (fb / 0x1000 * 0x1000 + a) % 0x1_0000_0000) == Some((fb / 0x1000 + a / 0x1000) % 0x10_0000)
  {
    hide InitPaging, CanInit, TableAt, PathOf, PageOf, Windows;
    InitPagingBuildsWindows(mem, pool, fb);
    WindowOfKernel(fb, a);
    WindowOfFramebuffer(fb, a);
  }

  lemma WindowOfKernel(fb: Address32, a: nat)
    requires a < 6400 * 0x1000
    ensures Windows(fb, WINDOW, PageOf(KERNEL_START + a)) == Some(a / 0x1000) == Windows(fb, WINDOW, PageOf(a))
  {
    hide PageOf;
    KernelPages(a / 0x1000);
    PageWithOffset(KERNEL_START, a);
    PageWithOffset(0, a);
  }

  lemma WindowOfFramebuffer(fb: Address32, a: nat)
    requires a < 6400 * 0x1000
    ensures var page := (fb / 0x1000 + a / 0x1000) % 0x10_0000;
      Windows(fb, WINDOW, PageOf((fb / 0x1000 * 0x1000 + a) % 0x1_0000_0000)) == Some(page)
  {
    var f, i, page := fb / 0x1000, a / 0x1000, (fb / 0x1000 + a / 0x1000) % 0x10_0000;
    WrapPage(f + i, a % 0x1000);
    assert f * 0x1000 + a == 0x1000 * (f + i) + a % 0x1000;
    Residue(f, i, page);
  }

  lemma PageWithOffset(start: nat, a: nat)
    requires start % 0x1000 == 0
    ensures PageOf(start + a) == PageOf(start + 0x1000 * (a / 0x1000))
  {
    var s := start / 0x1000;
    assert start + a == 0x1000 * (s + a / 0x1000) + a % 0x1000;
    DivUnique(start + a, 0x1000, s + a / 0x1000, a % 0x1000);
    assert (start + 0x1000 * (a / 0x1000)) / 0x1000 == s + a / 0x1000;
  }

  /** Of the other canonical addresses none above the low 4 GiB is mapped. */
  lemma InitMapsNoMore(mem: Memory, pool: Pool, fb: Address32, va: Word)
    requires CanInit(mem, pool, fb) && 0x1_0000_0000 <= va
    requires va < 0xFFFF_FFFF_8000_0000 || va >= 0xFFFF_FFFF_8000_0000 + 6400 * 0x1000
    requires va < 0x8000_0000_0000 || va >= 0xFFFF_8000_0000_0000
    ensures Walk(InitPaging(mem, pool, fb), va) == None
  {
    hide InitPaging, CanInit, TableAt, PathOf;
    InitPagingBuildsWindows(mem, pool, fb);
    if va >= 0xFFFF_8000_0000_0000 {
      DivUnique(va / 0x1000, PAGE_LIMIT, 0xFFFF, va / 0x1000 - 0xFFFF * PAGE_LIMIT);
    }
  }

  /** 47 free frames are always enough; with the font page gone a full bitmap of 100 has 99. */
  lemma FortySevenFramesSuffice(mem: Memory, pool: Pool, fb: Address32)
    requires 0 < pool.base && pool.base + pool.capacity <= |mem| <= FRAME_LIMIT
    requires pool.Free() >= 47
    ensures CanInit(mem, pool, fb)
  {
    AtMost46Tables(fb, WINDOW);
  }

  /** The requests of iteration i, one at a time, as prefixes of the whole run. */
  lemma IterationFits(s0: Paging, fb: Address32, i: nat)
    requires i < WINDOW && Fresh(s0) && TablesNeeded(InitRequests(fb, WINDOW)) <= s0.pool.Free()
    ensures var rs, w := InitRequests(fb, i), Iteration(fb, i);
      && Grabs(rs) == 0 && Grabs(rs + [w[0]]) == 0 && Grabs(rs + [w[0]] + [w[1]]) == 0
      && TablesNeeded(rs + [w[0]]) <= s0.pool.Free()
      && TablesNeeded(rs + [w[0]] + [w[1]]) <= s0.pool.Free()
      && TablesNeeded(rs + [w[0]] + [w[1]] + [w[2]]) <= s0.pool.Free()
      && InitRequests(fb, i + 1) == rs + [w[0]] + [w[1]] + [w[2]]
  {
    hide TablesNeeded, Grabs, Fresh;
    var all, w := InitRequests(fb, WINDOW), Iteration(fb, i);
    var rs := InitRequests(fb, i);
    OneMoreIteration(fb, i);
    AtMost46Tables(fb, WINDOW);
    var r1, r2, r3 := rs + [w[0]], rs + [w[0]] + [w[1]], rs + [w[0]] + [w[1]] + [w[2]];
    assert r3 == InitRequests(fb, i + 1);
    InitPrefix(fb, i + 1);
    var rest := all[3 * i + 3..];
    assert all == r3 + rest;
    assert all == r2 + ([w[2]] + rest) && all == r1 + ([w[1], w[2]] + rest) && all == rs + (w + rest);
    NeedsMonotone(r3, rest);
    NeedsMonotone(r2, [w[2]] + rest);
    NeedsMonotone(r1, [w[1], w[2]] + rest);
    NeedsMonotone(rs, w + rest);
  }

  lemma InitPrefix(fb: Address32, n: nat)
    requires n <= WINDOW
    ensures |InitRequests(fb, WINDOW)| == 3 * WINDOW
    ensures InitRequests(fb, WINDOW) == InitRequests(fb, n) + InitRequests(fb, WINDOW)[3 * n..]
  {
  }

  /** The three calls of iteration i, in a run that stays in memory. */
  lemma IterationStays(s0: Paging, fb: Address32, i: nat)
    requires i < WINDOW && ER.RunStays(s0, InitRequests(fb, WINDOW))
    ensures var rs, w := InitRequests(fb, i), Iteration(fb, i);
      && Exhaustion.StaysInMemory(Run(s0, rs), w[0].va)
      && Exhaustion.StaysInMemory(Run(s0, rs + [w[0]]), w[1].va)
      && Exhaustion.StaysInMemory(Run(s0, rs + [w[0]] + [w[1]]), w[2].va)
      && Run(s0, rs + [w[0]]) == MapPage(Run(s0, rs), w[0].va, w[0].pa)
      && Run(s0, rs + [w[0]] + [w[1]]) == MapPage(Run(s0, rs + [w[0]]), w[1].va, w[1].pa)
      && Run(s0, InitRequests(fb, i + 1)) == MapPage(Run(s0, rs + [w[0]] + [w[1]]), w[2].va, w[2].pa)
  {
    hide Run, MapPage, Exhaustion.StaysInMemory, ER.RunStays, InitRequests;
    var all, rs, w := InitRequests(fb, WINDOW), InitRequests(fb, i), Iteration(fb, i);
    OneMoreIteration(fb, i);
    InitPrefix(fb, i);
    InitPrefix(fb, i + 1);
    assert rs + [w[0]] + [w[1]] + [w[2]] == rs + w;
    assert |rs| == 3 * i && all[..3 * i] == rs by { InitLength(fb, i); }
    assert all[..3 * i + 3] == rs + w by { InitLength(fb, i + 1); }
    assert all[3 * i] == (rs + w)[3 * i] && all[3 * i + 1] == (rs + w)[3 * i + 1] && all[3 * i + 2] == (rs + w)[3 * i + 2];
    assert all[..3 * i + 1] == rs + [w[0]] && all[..3 * i + 2] == rs + [w[0]] + [w[1]];
    ER.CallStays(s0, all, 3 * i);
    ER.CallStays(s0, all, 3 * i + 1);
    ER.CallStays(s0, all, 3 * i + 2);
    ER.RunOneMore(s0, rs, w[0].va, w[0].pa);
    ER.RunOneMore(s0, rs + [w[0]], w[1].va, w[1].pa);
    ER.RunOneMore(s0, rs + [w[0]] + [w[1]], w[2].va, w[2].pa);
  }

  lemma InitLength(fb: Address32, n: nat)
    requires n <= WINDOW
    ensures |InitRequests(fb, n)| == 3 * n
  {
  }

  /** The address the kernel dereferences to reach frame f. */
  function FrameAddress(f: nat): Word {
    0x1000 * f % WORD_LIMIT
  }

  lemma FrameAddressPage(f: nat)
    requires f < FRAME_LIMIT
    ensures FrameAddress(f) == 0x1000 * f && FrameOf(FrameAddress(f)) == f
    ensures PageOf(FrameAddress(f)) == f % PAGE_LIMIT
    ensures f < PAGE_LIMIT ==> PageOf(FrameAddress(f)) == f
  {
    assert 0x1000 * f / 0x1000 == f;
  }

  /** A frame is mapped at its own address after init_paging if and only if one of the two identity windows has it. */
  lemma FrameReachableIff(mem: Memory, pool: Pool, fb: Address32, f: nat)
    requires CanInit(mem, pool, fb) && f < KERNEL_PAGE
    ensures Walk(InitPaging(mem, pool, fb), FrameAddress(f)) == Some(f) <==> f < WINDOW || InFramebuffer(fb, WINDOW, f)
  {
    hide InitPaging, CanInit, TableAt, FrameAddress, PathOf;
    InitPagingBuildsWindows(mem, pool, fb);
    FrameAddressPage(f);
  }

  // ---------- Later runs ----------

  /** init_paging and then any further requests. */
  function AfterInit(mem: Memory, pool: Pool, fb: Address32, rs: seq<Request>): Paging {
    Run(NewRoot(mem, pool), InitRequests(fb, WINDOW) + rs)
  }

  /** The pool can feed init_paging and the further requests. */
  ghost predicate CanRun(mem: Memory, pool: Pool, fb: Address32, rs: seq<Request>) {
    && 0 < pool.base && pool.base + pool.capacity <= |mem| <= FRAME_LIMIT
    && var all := InitRequests(fb, WINDOW) + rs; 1 + TablesNeeded(all) + Grabs(all) <= pool.Free()
  }

  /** With no further request this is init_paging. */
  lemma InitIsFirst(mem: Memory, pool: Pool, fb: Address32)
    requires CanInit(mem, pool, fb)
    ensures CanRun(mem, pool, fb, []) && AfterInit(mem, pool, fb, []) == InitPaging(mem, pool, fb)
  {
    AtMost46Tables(fb, WINDOW);
    assert InitRequests(fb, WINDOW) + [] == InitRequests(fb, WINDOW);
  }

  /** No later run changes a translation of the three windows. */
  lemma WindowsStay(mem: Memory, pool: Pool, fb: Address32, rs: seq<Request>)
    requires CanRun(mem, pool, fb, rs)
    ensures var t := AfterInit(mem, pool, fb, rs);
      && Owned(t) && |t.mem| == |mem| && t.pool.base == pool.base && t.pool.capacity == pool.capacity
      && forall va: Word | Windows(fb, WINDOW, PageOf(va)).Some? :: Walk(t, va) == Windows(fb, WINDOW, PageOf(va))
  {
    hide Mapping, TablesNeeded, Grabs, Fresh, Windows, PageOf, TableAt, Run;
    var s0, rs0 := NewRoot(mem, pool), InitRequests(fb, WINDOW);
    NewRootIsFresh(mem, pool);
    RunRefinesMap(s0, rs0 + rs);
    var t := AfterInit(mem, pool, fb, rs);
    forall va: Word | Windows(fb, WINDOW, PageOf(va)).Some?
      ensures Walk(t, va) == Windows(fb, WINDOW, PageOf(va))
    {
      RequestsAreWindows(fb, WINDOW, PageOf(va));
      MappingKeeps(rs0, rs, PageOf(va));
    }
  }

  /**
    With the pool below the low window every table, also one that a call after init_paging has hung, is mapped at its
    own physical address; the next call therefore reaches it.
   */
  lemma TablesStayReachable(mem: Memory, pool: Pool, fb: Address32, rs: seq<Request>, p: Path)
    requires CanRun(mem, pool, fb, rs) && pool.base + pool.capacity <= WINDOW
    requires IsTable(AfterInit(mem, pool, fb, rs), p)
    ensures var t := AfterInit(mem, pool, fb, rs); Walk(t, FrameAddress(Table(t, p))) == Some(Table(t, p))
  {
    hide AfterInit, CanRun, TableAt, FrameAddress, PageOf;
    WindowsStay(mem, pool, fb, rs);
    var t := AfterInit(mem, pool, fb, rs);
    assert t.pool.Handed(Table(t, p));
    FrameAddressPage(Table(t, p));
  }
}
