/**
  The boot loader's page tables: seven static arrays that map two 2-MiB
  windows, the kernel's and the lowest, both onto physical memory from 0.
  The kernel replaces them by its own tables without changing any translation
  the boot loader had set up.
 */
module BootTables {
  import opened Bits
  import opened PageWords
  import opened PageTable
  import opened PagingRuns
  import opened KernelSpace
  import opened PoolFootprint
  import opened HardwareWalk

  /** The frames the seven page-aligned arrays occupy. */
  datatype Layout = Layout(pml4: nat, pud: nat, pmd: nat, pt: nat, pudlow: nat, pmdlow: nat, ptlow: nat)

  predicate Below(l: Layout, n: nat) {
    l.pml4 < n && l.pud < n && l.pmd < n && l.pt < n && l.pudlow < n && l.pmdlow < n && l.ptlow < n
  }

  function EntryFor(f: nat): Word {
    TableEntry(0x1000 * f)
  }

  /** A leaf of the two windows: page i, with the flag bits of a leaf. */
  function WindowLeaf(i: Index): Word {
    0x1000 * (i as nat) + 0x83
  }

  function IdentityFrame(): Frame {
    seq(512, i requires 0 <= i < 512 => WindowLeaf(i))
  }

  function Pml4Frame(l: Layout): Frame { ZeroFrame()[511 := EntryFor(l.pud)][0 := EntryFor(l.pudlow)] }

  /** Memory holds the tables map_kernel fills in. */
  ghost predicate Holds(mem: Memory, l: Layout) {
    && Below(l, |mem|) && |mem| <= FRAME_LIMIT
    && mem[l.pml4] == Pml4Frame(l)
    && mem[l.pud] == ZeroFrame()[510 := EntryFor(l.pmd)]
    && mem[l.pmd] == ZeroFrame()[0 := EntryFor(l.pt)]
    && mem[l.pudlow] == ZeroFrame()[0 := EntryFor(l.pmdlow)]
    && mem[l.pmdlow] == ZeroFrame()[0 := EntryFor(l.ptlow)]
    && mem[l.pt] == IdentityFrame() && mem[l.ptlow] == IdentityFrame()
  }

  /** The translation of the two windows. */
  function BootWindows(page: nat): Option<nat> {
    if KERNEL_PAGE <= page < KERNEL_PAGE + 512 then Some(page - KERNEL_PAGE)
    else if page < 512 then Some(page)
    else None
  }

  // ---------- map_kernel ----------

  class BootPaging {
    const pml4: array<Word>
    const pud: array<Word>
    const pmd: array<Word>
    const pt: array<Word>
    const pudlow: array<Word>
    const pmdlow: array<Word>
    const ptlow: array<Word>
    const at: Layout

    ghost predicate Valid() {
      && pml4.Length == pud.Length == pmd.Length == pt.Length == pudlow.Length == pmdlow.Length == ptlow.Length == 512
      && pml4 !in {pud, pmd, pt, pudlow, pmdlow, ptlow} && pud !in {pmd, pt, pudlow, pmdlow, ptlow}
      && pmd !in {pt, pudlow, pmdlow, ptlow} && pt !in {pudlow, pmdlow, ptlow}
      && pudlow !in {pmdlow, ptlow} && pmdlow != ptlow && Below(at, FRAME_LIMIT)
    }

    constructor (at: Layout)
      requires Below(at, FRAME_LIMIT)
      ensures Valid() && this.at == at
      ensures fresh(pml4) && fresh(pud) && fresh(pmd) && fresh(pt) && fresh(pudlow) && fresh(pmdlow) && fresh(ptlow)
    {
      pml4, pud, pmd, pt := new Word[512], new Word[512], new Word[512], new Word[512];
      pudlow, pmdlow, ptlow := new Word[512], new Word[512], new Word[512];
      this.at := at;
    }

    method MapKernel()
      requires Valid()
      modifies pml4, pud, pmd, pt, pudlow, pmdlow, ptlow
      ensures pml4[..] == Pml4Frame(at)
      ensures pud[..] == ZeroFrame()[510 := EntryFor(at.pmd)]
      ensures pmd[..] == ZeroFrame()[0 := EntryFor(at.pt)]
      ensures pudlow[..] == ZeroFrame()[0 := EntryFor(at.pmdlow)]
      ensures pmdlow[..] == ZeroFrame()[0 := EntryFor(at.ptlow)]
      ensures pt[..] == IdentityFrame() && ptlow[..] == IdentityFrame()
    {
      hide And, Or;
      var i := 0;
      while i < 512
        invariant 0 <= i <= 512
        invariant forall j | 0 <= j < i :: pml4[j] == pud[j] == pmd[j] == pt[j] == pudlow[j] == pmdlow[j] == ptlow[j] == 0
      {
        pml4[i], pud[i], pmd[i], pt[i] := 0, 0, 0, 0;
        pudlow[i], pmdlow[i], ptlow[i] := 0, 0, 0;
        i := i + 1;
      }
      EntryIsMaskedAddress(at.pud);
      EntryIsMaskedAddress(at.pudlow);
      EntryIsMaskedAddress(at.pmdlow);
      EntryIsMaskedAddress(at.pmd);
      EntryIsMaskedAddress(at.pt);
      EntryIsMaskedAddress(at.ptlow);
      pml4[511] := Or(And(0x1000 * at.pud, ADDRESS_MASK), 3);
      pml4[0] := Or(And(0x1000 * at.pudlow, ADDRESS_MASK), 3);
      pudlow[0] := Or(And(0x1000 * at.pmdlow, ADDRESS_MASK), 3);
      pud[510] := Or(And(0x1000 * at.pmd, ADDRESS_MASK), 3);
      pmd[0] := Or(And(0x1000 * at.pt, ADDRESS_MASK), 3);
      pmdlow[0] := Or(And(0x1000 * at.ptlow, ADDRESS_MASK), 3);
      assert pml4[..] == Pml4Frame(at) && pud[..] == ZeroFrame()[510 := EntryFor(at.pmd)];
      i := 0;
      while i < 512
        invariant 0 <= i <= 512
        invariant forall j | 0 <= j < i :: pt[j] == WindowLeaf(j) && ptlow[j] == WindowLeaf(j)
        modifies pt, ptlow
      {
        LeafIsFlaggedPage(i);
        pt[i] := Or(i * 0x1000, 0x83);
        ptlow[i] := Or(i * 0x1000, 0x83);
        i := i + 1;
      }
    }
  }

  lemma EntryIsMaskedAddress(f: nat)
    requires f < FRAME_LIMIT
    ensures Or(And(0x1000 * f, ADDRESS_MASK), 3) == EntryFor(f)
  {
    hide And, Or, Shl, Pow2;
    EntryNamesFrame(f);
    AddressBits(0x1000 * f);
    assert 0x1000 * f / 0x1000 == f;
    Powers();
    ShlTwelve(f);
    OrDisjoint(f, 3, 12);
  }

  lemma LeafIsFlaggedPage(i: Index)
    ensures Or((i as nat) * 0x1000, 0x83) == WindowLeaf(i)
  {
    hide Or, Shl, Pow2;
    Powers();
    ShlTwelve(i);
    OrDisjoint(i, 0x83, 12);
  }

  // ---------- What the tables translate ----------

  lemma OneEntryTable(mem: Memory, f: nat, k: Index, c: nat, i: Index)
    requires f < |mem| && c < FRAME_LIMIT && mem[f] == ZeroFrame()[k := EntryFor(c)]
    ensures Child(mem, f, i) == if i == k then Some(c) else None
  {
    EntryNamesFrame(c);
  }

  lemma IdentityTable(mem: Memory, f: nat, i: Index)
    requires f < |mem| && mem[f] == IdentityFrame()
    ensures Child(mem, f, i) == Some(i)
  {
    assert mem[f][i] == WindowLeaf(i);
    assert (0x1000 * (i as nat) + 0x83) / 0x1000 == i;
  }

  lemma TopTable(mem: Memory, l: Layout, i: Index)
    requires Holds(mem, l)
    ensures Child(mem, l.pml4, i) == if i == 511 then Some(l.pud) else if i == 0 then Some(l.pudlow) else None
  {
    EntryNamesFrame(l.pud);
    EntryNamesFrame(l.pudlow);
  }

  lemma Unroll(mem: Memory, root: nat, p: Path)
    requires |p| == 4
    ensures TableAt(mem, root, []) == Some(root)
    ensures TableAt(mem, root, p[..1]) == Child(mem, root, p[0])
    ensures TableAt(mem, root, p[..2]) == if TableAt(mem, root, p[..1]).None? then None else Child(mem, TableAt(mem, root, p[..1]).value, p[1])
    ensures TableAt(mem, root, p[..3]) == if TableAt(mem, root, p[..2]).None? then None else Child(mem, TableAt(mem, root, p[..2]).value, p[2])
    ensures TableAt(mem, root, p) == if TableAt(mem, root, p[..3]).None? then None else Child(mem, TableAt(mem, root, p[..3]).value, p[3])
  {
    hide Child;
    assert p[..1][..0] == [] && p[..2][..1] == p[..1] && p[..3][..2] == p[..2];
  }

  /** The four-level walk of the boot tables is exactly the two windows. */
  lemma BootTablesMapTwoWindows(mem: Memory, l: Layout, va: Word)
    requires Holds(mem, l)
    ensures TableAt(mem, l.pml4, PathOf(va)) == BootWindows(PageOf(va))
  {
    hide TableAt, Child, EntryFor, IdentityFrame;
    var p := PathOf(va);
    Recombine(PageOf(va));
    Unroll(mem, l.pml4, p);
    TopTable(mem, l, p[0]);
    OneEntryTable(mem, l.pud, 510, l.pmd, p[1]);
    OneEntryTable(mem, l.pmd, 0, l.pt, p[2]);
    OneEntryTable(mem, l.pudlow, 0, l.pmdlow, p[1]);
    OneEntryTable(mem, l.pmdlow, 0, l.ptlow, p[2]);
    IdentityTable(mem, l.pt, p[3]);
    IdentityTable(mem, l.ptlow, p[3]);
  }

  // ---------- What the processor makes of them ----------

  /** An entry for a frame has the bits of its address, and bits 0 and 1. */
  lemma BootEntryBits(f: nat, k: nat)
    requires f < FRAME_LIMIT
    ensures Bit(EntryFor(f), k) <==> (12 <= k < 52 && Bit(0x1000 * f, k)) || k in [0, 1]
  {
    hide Bit, TableEntry;
    TableBits(0x1000 * f, k);
  }

  /** The leaves are those map_page makes for the same addresses. */
  lemma BootLeaf(i: Index)
    ensures WindowLeaf(i) == LeafEntry(0x1000 * (i as nat))
  {
    hide LeafEntry;
    AlignedLeaf(i);
  }

  lemma AbsentFaults(mem: Memory, f: nat, path: Path, depth: nat, r: Rights)
    requires depth < |path| <= 4 && f < |mem| && mem[f][path[depth]] == 0
    ensures Translate(mem, f, path, depth, r) == Fault
  {
  }

  lemma EntryLeads(mem: Memory, f: nat, c: nat, path: Path, depth: nat, r: Rights)
    requires depth <= 2 && |path| == 4 && f < |mem| && c < FRAME_LIMIT && mem[f][path[depth]] == EntryFor(c)
    ensures Translate(mem, f, path, depth, r) == Translate(mem, c, path, depth + 1, Rights(r.writable, false, r.executable))
  {
    hide TableEntry, Bit, FrameOf, Present, Through;
    TableEntryLeads(c);
    ThroughTable(r, c);
  }

  lemma OneEntryWalk(mem: Memory, f: nat, k: Index, c: nat, path: Path, depth: nat, r: Rights)
    requires depth <= 2 && |path| == 4 && f < |mem| && c < FRAME_LIMIT && mem[f] == ZeroFrame()[k := EntryFor(c)]
    ensures Translate(mem, f, path, depth, r)
         == if path[depth] == k then Translate(mem, c, path, depth + 1, Rights(r.writable, false, r.executable)) else Fault
  {
    hide EntryFor, Translate;
    if path[depth] == k {
      EntryLeads(mem, f, c, path, depth, r);
    } else {
      AbsentFaults(mem, f, path, depth, r);
    }
  }

  lemma TopWalk(mem: Memory, l: Layout, path: Path, r: Rights)
    requires Holds(mem, l) && |path| == 4
    ensures Translate(mem, l.pml4, path, 0, r)
         == if path[0] == 511 then Translate(mem, l.pud, path, 1, Rights(r.writable, false, r.executable))
            else if path[0] == 0 then Translate(mem, l.pudlow, path, 1, Rights(r.writable, false, r.executable))
            else Fault
  {
    hide EntryFor, Translate;
    if path[0] == 511 {
      EntryLeads(mem, l.pml4, l.pud, path, 0, r);
    } else if path[0] == 0 {
      EntryLeads(mem, l.pml4, l.pudlow, path, 0, r);
    } else {
      AbsentFaults(mem, l.pml4, path, 0, r);
    }
  }

  lemma LeafWalk(mem: Memory, f: nat, path: Path)
    requires |path| == 4 && f < |mem| && mem[f] == IdentityFrame()
    ensures Translate(mem, f, path, 3, Rights(true, false, true)) == Small(path[3], Rights(true, false, true), true)
  {
    hide LeafEntry, Bit, Through;
    var i := path[3];
    assert mem[f][i] == WindowLeaf(i);
    BootLeaf(i);
    ThroughLeaf(Rights(true, false, true), 0x1000 * (i as nat));
    NoHighBit(0x1000 * (i as nat));
    assert FrameOf(0x1000 * (i as nat)) == i;
  }

  /** The processor sees the two windows as writable pages that only the kernel may use, and nothing else. */
  lemma BootHardware(mem: Memory, l: Layout, va: Word)
    requires Holds(mem, l)
    ensures HardwareTranslation(mem, l.pml4, va)
         == match BootWindows(PageOf(va))
            case None => Fault
            case Some(f) => Small(f, Rights(true, false, true), true)
  {
    hide Translate, EntryFor, IdentityFrame, Bit;
    var p, r := PathOf(va), Rights(true, false, true);
    Recombine(PageOf(va));
    TopWalk(mem, l, p, Rights(true, true, true));
    OneEntryWalk(mem, l.pud, 510, l.pmd, p, 1, r);
    OneEntryWalk(mem, l.pmd, 0, l.pt, p, 2, r);
    OneEntryWalk(mem, l.pudlow, 0, l.pmdlow, p, 1, r);
    OneEntryWalk(mem, l.pmdlow, 0, l.ptlow, p, 2, r);
    LeafWalk(mem, l.pt, p);
    LeafWalk(mem, l.ptlow, p);
  }

  /** Loading CR3 with the kernel's tables keeps every translation of the boot loader's, and so does every later run. */
  lemma HandoverKeepsTranslations(boot: Memory, l: Layout, mem: Memory, pool: Pool, fb: Address32, rs: seq<Request>, va: Word)
    requires Holds(boot, l) && CanRun(mem, pool, fb, rs)
    requires TableAt(boot, l.pml4, PathOf(va)).Some?
    ensures Walk(AfterInit(mem, pool, fb, rs), va) == TableAt(boot, l.pml4, PathOf(va))
  {
    hide TableAt, AfterInit, CanRun, Holds;
    BootTablesMapTwoWindows(boot, l, va);
    WindowsStay(mem, pool, fb, rs);
  }

  /** The same for the processor, rights and page attribute included. */
  lemma HandoverKeepsHardware(boot: Memory, l: Layout, mem: Memory, pool: Pool, fb: Address32, rs: seq<Request>, va: Word)
    requires Holds(boot, l) && CanRun(mem, pool, fb, rs)
    requires HardwareTranslation(boot, l.pml4, va) != Fault
    ensures var t := AfterInit(mem, pool, fb, rs);
      HardwareTranslation(t.mem, t.root, va) == HardwareTranslation(boot, l.pml4, va)
  {
    hide TableAt, Run, TablesNeeded, Grabs, Holds, HardwareTranslation, Mapping, Bit, FrameOf, PageOf, WindowAddress, Fresh;
    var rs0, page := InitRequests(fb, WINDOW), PageOf(va);
    BootHardware(boot, l, va);
    NewRootIsFresh(mem, pool);
    HardwareRefinesMap(NewRoot(mem, pool), rs0 + rs, va);
    RequestsAreWindows(fb, WINDOW, page);
    RequestsAreAddresses(fb, WINDOW, page);
    MappingKeeps(rs0, rs, page);
    AddressIsLow(fb, page);
    NoHighBit(Mapping(rs0)[page]);
  }

  // ---------- init_paging runs under the boot tables ----------

  ghost predicate Outside(l: Layout, pool: Pool) {
    forall f | f in [l.pml4, l.pud, l.pmd, l.pt, l.pudlow, l.pmdlow, l.ptlow] :: !(pool.base <= f < pool.base + pool.capacity)
  }

  /** The boot tables map a frame at its own address if and only if it lies below 2 MiB. */
  lemma FrameIsMappedIff(mem: Memory, l: Layout, f: nat)
    requires Holds(mem, l) && f < PAGE_LIMIT
    ensures TableAt(mem, l.pml4, PathOf(FrameAddress(f))) == Some(f) <==> f < 512
  {
    hide TableAt, PathOf;
    FrameAddressPage(f);
    BootTablesMapTwoWindows(mem, l, FrameAddress(f));
  }

  /**
    While the kernel builds its tables the boot tables stay intact and, with the pool below 2 MiB, map every frame
    that is handed out or written at its own address: the stores go where the flat model puts them.
   */
  lemma BootTablesServeInit(mem: Memory, l: Layout, pool: Pool, rs: seq<Request>)
    requires Holds(mem, l) && Outside(l, pool)
    requires 0 < pool.base && pool.base + pool.capacity <= |mem| <= FRAME_LIMIT && pool.base + pool.capacity <= 512
    requires 1 + TablesNeeded(rs) + Grabs(rs) <= pool.Free()
    ensures var t := Run(NewRoot(mem, pool), rs);
      && |t.mem| == |mem| && Holds(t.mem, l)
      && forall f: nat | f < |mem| && (t.pool.Handed(f) || t.mem[f] != mem[f]) ::
           TableAt(t.mem, l.pml4, PathOf(FrameAddress(f))) == Some(f)
  {
    hide TableAt, PathOf, Run, NewRoot, TablesNeeded, Grabs, Pml4Frame, IdentityFrame, EntryFor, FrameAddress;
    OnlyTablesAreWritten(mem, pool, rs);
    var t := Run(NewRoot(mem, pool), rs);
    KeepsTables(mem, t.mem, l, pool);
    forall f: nat | f < |mem| && (t.pool.Handed(f) || t.mem[f] != mem[f])
      ensures TableAt(t.mem, l.pml4, PathOf(FrameAddress(f))) == Some(f)
    {
      assert t.pool.Handed(f);
      FrameIsMappedIff(t.mem, l, f);
    }
  }

  lemma KeepsTables(mem: Memory, after: Memory, l: Layout, pool: Pool)
    requires Holds(mem, l) && Outside(l, pool) && |after| == |mem|
    requires forall f: nat | f < |mem| && !(pool.base <= f < pool.base + pool.capacity) :: after[f] == mem[f]
    ensures Holds(after, l)
  {
    hide Pml4Frame, IdentityFrame, EntryFor;
    var fs := [l.pml4, l.pud, l.pmd, l.pt, l.pudlow, l.pmdlow, l.ptlow];
    assert fs[0] in fs && fs[1] in fs && fs[2] in fs && fs[3] in fs && fs[4] in fs && fs[5] in fs && fs[6] in fs;
  }
}
