/**
  The virtual memory manager: physical memory as words written in place, the
  table pointer pml, and the frame pool.  Each method is proved to compute the
  function of the same name on the state's value.
 */
module VirtualMemory {
  import opened Bits
  import opened PageWords
  import opened PageTable
  import opened Exhaustion
  import PagingRuns
  import ER = ExhaustedRuns
  import opened KernelSpace
  import DataFrames
  import FA = FrameAllocator

  class Vmm {
    const mem: array2<Word>
    const pool: FA.Pool
    var pml: Word

    constructor (mem: array2<Word>, pool: FA.Pool)
      ensures this.mem == mem && this.pool == pool && pml == 0
    {
      this.mem, this.pool, pml := mem, pool, 0;
    }

    ghost function Memory(): Memory
      reads this, mem
      requires mem.Length1 == 512
    {
      seq(mem.Length0, f requires 0 <= f < mem.Length0 reads mem =>
        seq(512, i requires 0 <= i < 512 reads mem => mem[f, i]))
    }

    ghost function FramePool(): Pool
      reads this, pool
    {
      Pool(pool.base / 0x1000, pool.Capacity(), pool.used)
    }

    ghost function State(): Paging
      reads this, pool, mem
      requires mem.Length1 == 512
    {
      Paging(Memory(), pml / 0x1000, FramePool())
    }

    /** The pool is page-aligned, is not at 0, and lies in memory. */
    ghost predicate Valid()
      reads this, pool, pool.bitmap, mem
    {
      && pool.Valid() && mem.Length1 == 512 && 0 < pool.base && pool.base % 0x1000 == 0 && pml % 0x1000 == 0
      && pool.base / 0x1000 + pool.Capacity() <= mem.Length0 <= FRAME_LIMIT
    }

    /** The word a table pointer and an index name. */
    function Load(table: Word, i: Index): Word
      reads this, mem
      requires mem.Length1 == 512 && table / 0x1000 < mem.Length0
    {
      mem[table / 0x1000, i]
    }

    method Put(table: Word, i: Index, w: Word)
      requires Valid() && table / 0x1000 < mem.Length0
      modifies mem
      ensures Valid() && Memory() == Store(old(Memory()), table / 0x1000, i, w)
    {
      mem[table / 0x1000, i] := w;
      assert forall f | 0 <= f < mem.Length0 :: Memory()[f] == Store(old(Memory()), table / 0x1000, i, w)[f];
    }

    /** memset of one page of table words to zero. */
    method ZeroPage(table: Word)
      requires Valid() && table / 0x1000 < mem.Length0
      modifies mem
      ensures Valid() && Memory() == Clear(old(Memory()), table / 0x1000)
    {
      var f := table / 0x1000;
      var i := 0;
      while i < 512
        invariant 0 <= i <= 512
        invariant forall g, j | 0 <= g < mem.Length0 && 0 <= j < 512 ::
                    mem[g, j] == if g == f && j < i then 0 else old(mem[g, j])
      {
        mem[f, i] := 0;
        i := i + 1;
      }
      assert forall g | 0 <= g < mem.Length0 :: Memory()[g] == Clear(old(Memory()), f)[g];
    }

    /** A frame from the pool, or frame 0 when it is used up; memory stays as it is. */
    method TakeFrame() returns (address: Word)
      requires Valid() && pool.ScanEnds()
      modifies pool`used, pool.bitmap
      ensures Valid() && Memory() == old(Memory())
      ensures State() == PagingRuns.Step(old(State()), PagingRuns.Grab)
      ensures address == 0x1000 * Allocate(old(FramePool())).1 && address / 0x1000 < mem.Length0
    {
      address := pool.PmmAllocate();
    }

    /** One of the three identical blocks of map_page: the table below entry i of table, made if it is absent. */
    method NextLevel(table: Word, i: Index) returns (child: Word)
      requires Valid() && table % 0x1000 == 0 && table / 0x1000 < mem.Length0
      requires Present(Load(table, i)) || pool.ScanEnds()
      modifies mem, pool`used, pool.bitmap
      ensures Valid() && child % 0x1000 == 0
      ensures (State(), child / 0x1000) == NextTable(old(State()), table / 0x1000, i)
    {
      hide And, Or, FrameOf, TableEntry, Store, Clear;
      PresentBit(Load(table, i));
      if And(Load(table, i), PRESENT) == 0 {
        child := TakeFrame();
        ZeroPage(child);
        TableEntryBits(child);
        Put(table, i, Or(Or(And(child, ADDRESS_MASK), PRESENT), WRITABLE));
      } else {
        AddressBits(Load(table, i));
        child := And(Load(table, i), ADDRESS_MASK);
      }
    }

    /** Also when the pool is used up, as long as the scan for a frame ends. */
    method MapPage(va: Word, pa: Word)
      requires Valid() && StaysInMemory(State(), va)
      requires pool.pages <= FA.SLOTS || (Owned(State()) && Missing(State(), va) <= FramePool().Free())
      modifies mem, pool`used, pool.bitmap
      ensures Valid() && State() == PageTable.MapPage(old(State()), va, pa)
    {
      hide NextTable, TableAt, Owned, Grows, Missing, And, Shr, Or, PageOf, FrameOf, TableEntry, Child, Store;
      IndexMacros(va);
      if pool.pages > FA.SLOTS {
        ghost var s1, s2, s3, f1, f2, f3 := Descent(State(), va);
        LevelsReady(State(), s1, s2, s3, va);
      }
      var pud := NextLevel(pml, And(Shr(va, 39), 0x1ff));
      var pmd := NextLevel(pud, And(Shr(va, 30), 0x1ff));
      var pt := NextLevel(pmd, And(Shr(va, 21), 0x1ff));
      var ptidx := And(Shr(va, 12), 0x1ff);
      PresentBit(Load(pt, ptidx));
      if And(Load(pt, ptidx), PRESENT) == 0 {
        LeafEntryBound(pa);
        Put(pt, ptidx, Or(Or(Or(pa, PAT), PRESENT), WRITABLE));
      }
    }

    /**
      The root from the pool, and 6400 rounds of the three windows; also when the pool gives out on the way, as long as
      the calls stay in memory.
     */
    method InitPaging(framebuffer: Address32)
      requires Valid()
      requires
        || CanInit(Memory(), FramePool(), framebuffer)
        || (pool.pages <= FA.SLOTS
            && ER.RunStays(PagingRuns.NewRoot(Memory(), FramePool()), InitRequests(framebuffer, WINDOW)))
      modifies this`pml, mem, pool`used, pool.bitmap
      ensures Valid() && State() == KernelSpace.InitPaging(old(Memory()), old(FramePool()), framebuffer)
      ensures CanInit(old(Memory()), old(FramePool()), framebuffer) ==>
                && CanRun(old(Memory()), old(FramePool()), framebuffer, [])
                && State() == AfterInit(old(Memory()), old(FramePool()), framebuffer, [])
    {
      hide Owned, PagingRuns.TablesNeeded, PagingRuns.Run, PagingRuns.NewRoot, PagingRuns.Fresh, ER.RunStays,
        InitRequests, CanInit, CanRun, AfterInit;
      ghost var s0 := PagingRuns.NewRoot(Memory(), FramePool());
      if CanInit(Memory(), FramePool(), framebuffer) {
        InitFits(Memory(), FramePool(), framebuffer);
        InitIsFirst(Memory(), FramePool(), framebuffer);
      }
      TakeRoot();
      NoRequests(s0, framebuffer);
      var i := 0;
      while i < WINDOW
        invariant 0 <= i <= WINDOW && Valid()
        invariant State() == PagingRuns.Run(s0, InitRequests(framebuffer, i))
      {
        InitRound(framebuffer, i, s0);
        i := i + 1;
      }
    }

    /** The first frame of the pool becomes the root and is cleared. */
    method TakeRoot()
      requires Valid() && pool.ScanEnds()
      modifies this`pml, mem, pool`used, pool.bitmap
      ensures Valid() && State() == PagingRuns.NewRoot(old(Memory()), old(FramePool()))
    {
      pml := TakeFrame();
      ZeroPage(pml);
    }

    /** Iteration i of init_paging. */
    method InitRound(framebuffer: Address32, i: nat, ghost s0: Paging)
      requires Valid() && i < WINDOW && ER.RunStays(s0, InitRequests(framebuffer, WINDOW))
      requires
        || pool.pages <= FA.SLOTS
        || (PagingRuns.Fresh(s0) && PagingRuns.TablesNeeded(InitRequests(framebuffer, WINDOW)) <= s0.pool.Free())
      requires State() == PagingRuns.Run(s0, InitRequests(framebuffer, i))
      modifies mem, pool`used, pool.bitmap
      ensures Valid() && State() == PagingRuns.Run(s0, InitRequests(framebuffer, i + 1))
    {
      hide PageTable.MapPage, TableAt, Owned, Missing, PagingRuns.TablesNeeded, PagingRuns.Grabs, PagingRuns.Run,
        InitRequests, PagingRuns.Fresh, StaysInMemory, ER.RunStays;
      ghost var rs, w := InitRequests(framebuffer, i), Iteration(framebuffer, i);
      var v := (framebuffer + i * 0x1000) % LIMIT32;
      IterationStays(s0, framebuffer, i);
      if pool.pages > FA.SLOTS {
        IterationFits(s0, framebuffer, i);
        PagingRuns.NextCallFits(s0, rs, KERNEL_START + i * 0x1000, i * 0x1000);
        PagingRuns.NextCallFits(s0, rs + [w[0]], i * 0x1000, i * 0x1000);
        PagingRuns.NextCallFits(s0, rs + [w[0]] + [w[1]], v, v);
      }
      MapPage(KERNEL_START + i * 0x1000, i * 0x1000);
      MapPage(i * 0x1000, i * 0x1000);
      MapPage(v, v);
    }

    /** n frames, or one when n is 0, each mapped at its own address; the address of the first. */
    method Alloc(n: nat) returns (start: Word)
      requires Valid()
      requires
        || (Owned(State()) && DataFrames.Feeds(State(), if n == 0 then 1 else n))
        || (pool.pages <= FA.SLOTS && DataFrames.RoundsStay(State(), if n == 0 then 1 else n))
      modifies mem, pool`used, pool.bitmap
      ensures Valid()
      ensures var (s, frames) := DataFrames.Take(old(State()), if n == 0 then 1 else n);
        State() == s && start == 0x1000 * frames[0]
    {
      hide DataFrames.Feeds, DataFrames.Take, DataFrames.RoundsStay, Owned, TableAt;
      ghost var s, count := State(), if n == 0 then 1 else n;
      if Owned(s) && DataFrames.Feeds(s, count) {
        DataFrames.FedRoundsStay(s, count);
      }
      DataFrames.NoRounds(s);
      DataFrames.FirstFrame(s, count);
      start := Round(s, 0, count);
      var i := 1;
      while i < n
        invariant 1 <= i <= count && Valid()
        invariant State() == DataFrames.Take(s, i).0
      {
        var more := Round(s, i, count);
        i := i + 1;
      }
    }

    /** The two lines of alloc that stand before its loop and in it: a frame from the pool, mapped at its own address. */
    method Round(ghost s: Paging, ghost k: nat, ghost count: nat) returns (frame: Word)
      requires Valid() && k < count && DataFrames.RoundsStay(s, count) && State() == DataFrames.Take(s, k).0
      requires pool.pages <= FA.SLOTS || (Owned(s) && DataFrames.Feeds(s, count))
      modifies mem, pool`used, pool.bitmap
      ensures Valid() && State() == DataFrames.Take(s, k + 1).0 && frame == 0x1000 * Allocate(old(FramePool())).1
    {
      hide PageTable.MapPage, TableAt, Owned, Missing, DataFrames.Feeds, DataFrames.Take, DataFrames.RoundsStay, StaysInMemory;
      if pool.pages > FA.SLOTS {
        DataFrames.BeforeRound(s, k, count);
      }
      DataFrames.StaysFewer(s, k, count);
      FrameAddressPage(Allocate(FramePool()).1);
      frame := TakeFrame();
      MapPage(frame, frame);
    }
  }

  lemma NoRequests(s0: Paging, fb: Address32)
    ensures PagingRuns.Run(s0, InitRequests(fb, 0)) == s0
  {
  }

  /** What CanInit means for the run: it starts from an empty root, fits the pool and stays in memory. */
  lemma InitFits(mem: Memory, pool: Pool, fb: Address32)
    requires CanInit(mem, pool, fb)
    ensures var s0 := PagingRuns.NewRoot(mem, pool);
      && pool.Free() > 0 && PagingRuns.Fresh(s0) && PagingRuns.TablesNeeded(InitRequests(fb, WINDOW)) <= s0.pool.Free()
      && ER.RunStays(s0, InitRequests(fb, WINDOW))
  {
    hide PagingRuns.TablesNeeded, PagingRuns.Grabs, ER.RunStays;
    PagingRuns.NewRootIsFresh(mem, pool);
    AtMost46Tables(fb, WINDOW);
    ER.FedRunStays(PagingRuns.NewRoot(mem, pool), InitRequests(fb, WINDOW));
  }
}
