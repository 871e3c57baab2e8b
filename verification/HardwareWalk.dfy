/**
  The walk as the processor does it (section 4.5 of the Intel SDM, Volume 3A):
  an entry of the second or third level with bit 7 set maps a large page; a
  page is writable, or open to user mode, only if every entry on the way is,
  and code on it runs only if no entry has bit 63 set; bit 7 of the leaf picks
  the upper half of the page attribute table.  map_page sets bit 7 in leaf
  entries only, so the processor sees 4-KiB pages for the kernel alone, at the
  frames the model's Walk gives.
 */
module HardwareWalk {
  import opened Bits
  import opened PageWords
  import opened PageTable
  import opened PagingRuns
  import opened KernelSpace
  import opened TableWords

  /** What the entries on the way allow. */
  datatype Rights = Rights(writable: bool, user: bool, executable: bool)

  datatype Translation = Fault | Small(frame: nat, rights: Rights, pat: bool) | Large

  /** The rights left after an entry. */
  function Through(r: Rights, w: nat): Rights {
    Rights(r.writable && Bit(w, 1), r.user && Bit(w, 2), r.executable && !Bit(w, 63))
  }

  /** The translation that starts at table f of level depth (0 is the top), with the rights so far. */
  function Translate(mem: Memory, f: nat, path: Path, depth: nat, rights: Rights): Translation
    requires depth < |path| <= 4
    decreases |path| - depth
  {
    if f >= |mem| || !Present(mem[f][path[depth]]) then Fault
    else
      var w := mem[f][path[depth]];
      if depth == |path| - 1 then Small(FrameOf(w), Through(rights, w), Bit(w, 7))
      else if (depth == 1 || depth == 2) && Bit(w, 7) then Large
      else Translate(mem, FrameOf(w), path, depth + 1, Through(rights, w))
  }

  function HardwareTranslation(mem: Memory, root: nat, va: nat): Translation {
    Translate(mem, root, PathOf(va), 0, Rights(true, true, true))
  }

  /** What a leaf for physical address pa grants below entries that only the kernel may use. */
  function KernelPage(pa: Word): Translation {
    Small(FrameOf(pa), Rights(true, false, !Bit(pa, 63)), true)
  }

  // ---------- The entries map_page makes ----------

  lemma ThroughTable(r: Rights, f: nat)
    ensures Through(r, TableEntry(0x1000 * f)) == Rights(r.writable, false, r.executable)
    ensures !Bit(TableEntry(0x1000 * f), 7)
  {
    hide TableEntry, Bit;
    TableBits(0x1000 * f, 1);
    TableBits(0x1000 * f, 2);
    TableBits(0x1000 * f, 7);
    TableBits(0x1000 * f, 63);
  }

  lemma ThroughLeaf(r: Rights, pa: Word)
    requires !r.user
    ensures Through(r, LeafEntry(pa)) == Rights(r.writable, false, r.executable && !Bit(pa, 63))
    ensures Bit(LeafEntry(pa), 7) && Present(LeafEntry(pa)) && FrameOf(LeafEntry(pa)) == FrameOf(pa)
  {
    hide LeafEntry, Bit;
    LeafBits(pa, 1);
    LeafBits(pa, 7);
    LeafBits(pa, 63);
    LeafEntryWord(pa);
  }

  lemma TableEntryLeads(f: nat)
    requires f < FRAME_LIMIT
    ensures Present(TableEntry(0x1000 * f)) && FrameOf(TableEntry(0x1000 * f)) == f
  {
    EntryNamesFrame(f);
  }

  /** With all words exact the processor finds the leaf of the page's first address, or faults. */
  lemma {:induction false} ExactTranslation(s: Paging, m: map<nat, Word>, path: Path, depth: nat, r: Rights)
    requires Owned(s) && Exact(s, m) && Covers(s, m) && |path| == 4 && depth <= 3 && IsTable(s, path[..depth])
    requires r == Rights(true, depth == 0, true)
    ensures Translate(s.mem, Table(s, path[..depth]), path, depth, r)
         == if PageNumber(path) in m then KernelPage(m[PageNumber(path)]) else Fault
    decreases 4 - depth
  {
    hide TableEntry, LeafEntry, Bit, FrameOf, PageNumber, SoleOwner, Through;
    NoTableBelowAbsent(s, path);
    assert path[..depth + 1] == path[..depth] + [path[depth]] && path[..4] == path;
    var p := path[..depth];
    var f := Table(s, p);
    assert s.pool.Handed(f);
    assert s.mem[f][path[depth]] == WordAt(s, m, p, path[depth]);
    if depth == 3 {
      LastLevel(s, m, path, f, r);
    } else if IsTable(s, path[..depth + 1]) {
      var c := Table(s, path[..depth + 1]);
      assert s.pool.Handed(c);
      TableEntryLeads(c);
      ThroughTable(r, c);
      ExactTranslation(s, m, path, depth + 1, Rights(true, false, true));
    } else {
      assert At(s, path).None?;
    }
  }

  lemma LastLevel(s: Paging, m: map<nat, Word>, path: Path, f: nat, r: Rights)
    requires |path| == 4 && r == Rights(true, false, true) && f < |s.mem|
    requires s.mem[f][path[3]] == WordAt(s, m, path[..3], path[3])
    ensures Translate(s.mem, f, path, 3, r) == if PageNumber(path) in m then KernelPage(m[PageNumber(path)]) else Fault
  {
    hide TableEntry, LeafEntry, Bit, FrameOf, PageNumber, Through;
    assert path[..3] + [path[3]] == path;
    if PageNumber(path) in m {
      ThroughLeaf(r, m[PageNumber(path)]);
    }
  }

  /**
    After every run the pool can feed the processor translates each page as the first request for it says: writable,
    closed to user mode, executable unless the physical address had bit 63 set, and with the attribute bit.
   */
  lemma HardwareRefinesMap(s0: Paging, rs: seq<Request>, va: Word)
    requires Fresh(s0) && TablesNeeded(rs) + Grabs(rs) <= s0.pool.Free()
    ensures HardwareTranslation(Run(s0, rs).mem, Run(s0, rs).root, va)
         == if PageOf(va) in Mapping(rs) then KernelPage(Mapping(rs)[PageOf(va)]) else Fault
  {
    hide Run, TablesNeeded, Grabs, TableAt, Exact, Covers, Translate, PageNumber, Mapping;
    var t := Run(s0, rs);
    RunRefinesMap(s0, rs);
    RunWords(s0, rs);
    RootIsTable(t);
    assert PathOf(va)[..0] == [];
    NumberOfPath(va);
    ExactTranslation(t, Mapping(rs), PathOf(va), 0, Rights(true, true, true));
  }

  // ---------- init_paging ----------

  lemma {:induction false} SmallHasNoBit(w: nat, k: nat)
    requires w < Pow2(k)
    ensures !Bit(w, k)
    decreases k
  {
    if k > 0 {
      SmallHasNoBit(w / 2, k - 1);
    }
  }

  lemma NoHighBit(w: nat)
    requires w < 0x10_0000_0000_0000
    ensures !Bit(w, 63)
  {
    hide Pow2;
    Powers();
    assert Pow2(63) >= Pow2(52) by { PowersGrow(52, 63); }
    SmallHasNoBit(w, 63);
  }

  lemma {:induction false} PowersGrow(j: nat, k: nat)
    requires j <= k
    ensures Pow2(j) <= Pow2(k)
    decreases k
  {
    if j < k {
      PowersGrow(j, k - 1);
    }
  }

  /** After init_paging every page of the windows is a writable, executable page of the kernel, and no other is mapped. */
  lemma InitHardware(mem: Memory, pool: Pool, fb: Address32, va: Word)
    requires CanInit(mem, pool, fb)
    ensures var t := InitPaging(mem, pool, fb);
      HardwareTranslation(t.mem, t.root, va)
      == match Windows(fb, WINDOW, PageOf(va))
         case None => Fault
         case Some(f) => Small(f, Rights(true, false, true), true)
  {
    hide Run, TablesNeeded, Grabs, TableAt, Mapping, HardwareTranslation, Windows, WindowAddress, PageOf, Bit, FrameOf;
    var s0, rs, page := NewRoot(mem, pool), InitRequests(fb, WINDOW), PageOf(va);
    NewRootIsFresh(mem, pool);
    AtMost46Tables(fb, WINDOW);
    HardwareRefinesMap(s0, rs, va);
    RequestsAreWindows(fb, WINDOW, page);
    RequestsAreAddresses(fb, WINDOW, page);
    if page in Mapping(rs) {
      AddressIsLow(fb, page);
      NoHighBit(Mapping(rs)[page]);
    }
  }

  lemma AddressIsLow(fb: Address32, page: nat)
    requires WindowAddress(fb, WINDOW, page).Some?
    ensures WindowAddress(fb, WINDOW, page).value < 0x10_0000_0000_0000
  {
  }

  /** The leaf of a page of the windows, to the last bit. */
  lemma InitLeaf(mem: Memory, pool: Pool, fb: Address32, q: Path)
    requires CanInit(mem, pool, fb) && |q| == 4 && WindowAddress(fb, WINDOW, PageNumber(q)).Some?
    ensures var t := InitPaging(mem, pool, fb);
      && IsTable(t, q[..3]) && Table(t, q[..3]) < |t.mem|
      && t.mem[Table(t, q[..3])][q[3]] == LeafEntry(WindowAddress(fb, WINDOW, PageNumber(q)).value)
  {
    hide Run, TablesNeeded, Grabs, TableAt, Mapping, WindowAddress, LeafEntry, PageNumber;
    var s0, rs, page := NewRoot(mem, pool), InitRequests(fb, WINDOW), PageNumber(q);
    NewRootIsFresh(mem, pool);
    AtMost46Tables(fb, WINDOW);
    RunRefinesMap(s0, rs);
    RunWords(s0, rs);
    RequestsAreAddresses(fb, WINDOW, page);
    var t := Run(s0, rs);
    NoTableBelowAbsent(t, q);
    assert At(t, q).Some? && q[..4] == q && q[..3] + [q[3]] == q;
    assert t.pool.Handed(Table(t, q[..3]));
    assert t.mem[Table(t, q[..3])][q[3]] == WordAt(t, Mapping(rs), q[..3], q[3]);
  }
}
