/**
  Where the heap lies in physical memory.  install_heap takes addresses right
  after the kernel in the kernel window, init_pmm starts the pool a megabyte
  higher; writes to the heap can therefore not reach a page table.
 */
module HeapPlacement {
  import opened Bits
  import opened PageWords
  import opened PageTable
  import opened PagingRuns
  import opened KernelSpace
  import HeapBlocks
  import FA = FrameAllocator

  /** heap_start, for a kernel of the given length. */
  function HeapStart(kernelLength: Word): nat {
    HeapBlocks.StartAfter(KERNEL_START + kernelLength)
  }

  predicate InHeap(kernelLength: Word, a: Word) {
    HeapStart(kernelLength) <= a < HeapStart(kernelLength) + 8 * HeapBlocks.HEAP_WORDS
  }

  /** Kernel and heap fit the 6400 pages that are mapped. */
  predicate FitsWindow(kernelLength: Word) {
    kernelLength + 0x1000 + 8 * HeapBlocks.HEAP_WORDS <= 0x1000 * WINDOW
  }

  lemma HeapPageIsLow(kernelLength: Word, a: Word)
    requires FitsWindow(kernelLength) && InHeap(kernelLength, a)
    ensures KERNEL_PAGE <= PageOf(a) < KERNEL_PAGE + WINDOW
    ensures 0x1000 * (PageOf(a) - KERNEL_PAGE + 1) <= FA.PastKernel(kernelLength)
  {
    var d := a - KERNEL_START;
    assert HeapStart(kernelLength) == KERNEL_START + (kernelLength + 0x1000) / 0x1000 * 0x1000;
    assert a / 0x1000 == 0xF_FFFF_FFF8_0000 + d / 0x1000;
    DivUnique(a / 0x1000, PAGE_LIMIT, 0xFFFF, KERNEL_PAGE + d / 0x1000);
  }

  /**
    With the pool placed by the kernel-region branch, every heap address translates to a frame below the pool, and
    so never to a frame that holds a page table; no later run changes that.
   */
  lemma HeapWritesMissTables(mem: Memory, pool: Pool, fb: Address32, rs: seq<Request>,
                             region: FA.Region, kernelLength: Word, a: Word)
    requires CanRun(mem, pool, fb, rs)
    requires FA.HoldsKernel(region, kernelLength) && pool.base == FA.PoolBase(region, kernelLength) / 0x1000
    requires FitsWindow(kernelLength) && InHeap(kernelLength, a)
    ensures var t := AfterInit(mem, pool, fb, rs);
      && Walk(t, a) == Some(PageOf(a) - KERNEL_PAGE) && Walk(t, a).value < pool.base
      && forall p: Path | IsTable(t, p) :: Table(t, p) != Walk(t, a).value
  {
    hide AfterInit, CanRun, TableAt, PathOf, InHeap, HeapStart, PageOf;
    WindowsStay(mem, pool, fb, rs);
    HeapPageIsLow(kernelLength, a);
    var t := AfterInit(mem, pool, fb, rs);
    assert Walk(t, a) == Windows(fb, WINDOW, PageOf(a));
    forall p: Path | IsTable(t, p)
      ensures Table(t, p) != Walk(t, a).value
    {
      assert t.pool.Handed(Table(t, p));
    }
  }
}
