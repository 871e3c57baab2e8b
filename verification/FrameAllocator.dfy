/**
  The physical memory manager: init_pmm picks a region for the pool from the
  firmware's memory map, pmm_allocate hands out the first free frame of a
  bitmap.  Nothing is ever freed, so the bitmap is a prefix of ones and
  allocating is counting; the class keeps both and proves them equal.
 */
module FrameAllocator {
  import opened Bits

  const PAGE_SIZE := 4096
  const SLOTS := 100
  const MAP_ENTRIES := 50
  const KERNEL_PHYSICAL := 0x10_0000

  /** One entry of the E820 map. */
  datatype Region = Region(base: Word, size: Word, kind: nat, acpi: nat)

  predicate EndMark(r: Region) {
    r.base == 0 && r.size == 0 && r.kind == 0 && r.acpi == 0
  }

  /** The map ends at its first all-zero entry, or after 50 entries. */
  predicate Terminated(rs: seq<Region>) {
    |rs| >= MAP_ENTRIES || exists k | 0 <= k < |rs| :: EndMark(rs[k])
  }

  /** Usable memory other than the region at address 0. */
  predicate Usable(r: Region) {
    r.kind == 1 && r.base != 0
  }

  predicate HoldsKernel(r: Region, kernelLength: Word) {
    KERNEL_PHYSICAL <= r.base <= KERNEL_PHYSICAL + kernelLength
  }

  /** The first page boundary at least a page past the end of the kernel. */
  function PastKernel(kernelLength: Word): nat {
    (KERNEL_PHYSICAL + kernelLength + 0x1FFF) / 0x1000 * 0x1000
  }

  function PoolBase(r: Region, kernelLength: Word): nat {
    if HoldsKernel(r, kernelLength) then PastKernel(kernelLength) else r.base
  }

  function PoolLength(r: Region, kernelLength: Word): Word {
    if HoldsKernel(r, kernelLength) then (r.size - kernelLength) % WORD_LIMIT else r.size
  }

  /** Entry k is the one the pool comes from: the first usable one before the end of the map. */
  ghost predicate IsChosen(rs: seq<Region>, k: nat) {
    && k < |rs| && k < MAP_ENTRIES && Usable(rs[k])
    && forall j | 0 <= j <= k :: !EndMark(rs[j]) && (j < k ==> !Usable(rs[j]))
  }

  /** The scan of the map stops after n entries: at the end mark, or at the fiftieth. */
  ghost predicate StopsAt(rs: seq<Region>, n: nat) {
    && n <= |rs| && n <= MAP_ENTRIES && (forall j | 0 <= j < n :: !EndMark(rs[j]))
    && (n == MAP_ENTRIES || (n < |rs| && EndMark(rs[n])))
  }

  /** The bytes of all usable regions among the first n entries, the one at address 0 included. */
  function UsableBytes(rs: seq<Region>, n: nat): nat
    requires n <= |rs|
  {
    if n == 0 then 0 else UsableBytes(rs, n - 1) + if rs[n - 1].kind == 1 then rs[n - 1].size else 0
  }

  class Pool {
    var base: Word
    var length: Word
    var pages: nat
    var totalMemory: Word
    const bitmap: array<nat>
    ghost var used: nat

    /** Slots that can ever be handed out. */
    ghost function Capacity(): nat
      reads this
    {
      Least(pages, SLOTS)
    }

    ghost predicate Valid()
      reads this, bitmap
    {
      && bitmap.Length == SLOTS && used <= Capacity()
      && base + pages * PAGE_SIZE < WORD_LIMIT
      && forall i | 0 <= i < SLOTS :: bitmap[i] == if i < used then 1 else 0
    }

    constructor ()
      ensures Valid() && used == 0 && fresh(bitmap) && bitmap.Length == 100
      ensures base == 0 && length == 0 && pages == 0 && totalMemory == 0
    {
      base, length, pages, totalMemory, used := 0, 0, 0, 0, 0;
      bitmap := new nat[SLOTS](_ => 0);
    }

    /** The loop over the memory map: total memory, and the pool's base and length. */
    method InitPmm(rs: seq<Region>, kernelLength: Word)
      requires Terminated(rs) && bitmap.Length == SLOTS && KERNEL_PHYSICAL + kernelLength + 0x1FFF < WORD_LIMIT
      modifies this, bitmap
      ensures forall k: nat | IsChosen(rs, k) ::
                base == PoolBase(rs[k], kernelLength) && length == PoolLength(rs[k], kernelLength)
      ensures (forall k: nat :: !IsChosen(rs, k)) ==> base == old(base) && length == old(length)
      ensures exists n: nat :: StopsAt(rs, n) && totalMemory == (old(totalMemory) + UsableBytes(rs, n)) % WORD_LIMIT
      ensures pages == length / 0x1000 && used == 0
      ensures base + pages * PAGE_SIZE < WORD_LIMIT ==> Valid()
    {
      hide And, UsableBytes;
      PastKernelIsMasked(kernelLength);
      NoBytes(rs);
      var found := 0;
      var i := 0;
      ghost var chosen: nat := 0;
      while i < MAP_ENTRIES && !EndMark(rs[i])
        invariant 0 <= i <= MAP_ENTRIES && (i < MAP_ENTRIES ==> i < |rs|)
        invariant forall j | 0 <= j < i :: j < |rs| && !EndMark(rs[j])
        invariant i <= |rs| && totalMemory == (old(totalMemory) + UsableBytes(rs, i)) % WORD_LIMIT
        invariant found == 0 ==> forall j | 0 <= j < i :: !Usable(rs[j])
        invariant found == 0 ==> base == old(base) && length == old(length)
        invariant found != 0 ==> IsChosen(rs, chosen) && chosen < i
        invariant found != 0 ==> base == PoolBase(rs[chosen], kernelLength) && length == PoolLength(rs[chosen], kernelLength)
      {
        var entry := rs[i];
        OneMoreRegion(old(totalMemory), rs, i);
        if entry.kind == 1 {
          totalMemory := (totalMemory + entry.size) % WORD_LIMIT;
          if entry.base >= KERNEL_PHYSICAL && entry.base <= KERNEL_PHYSICAL + kernelLength && found == 0 {
            base := And(KERNEL_PHYSICAL + kernelLength + 0x1000 + 0xFFF, 0xFFFF_FFFF_FFFF_F000);
            length := (entry.size - kernelLength) % WORD_LIMIT;
            found, chosen := found + 1, i;
          } else if found == 0 && entry.base != 0 {
            base := entry.base;
            length := entry.size;
            found, chosen := found + 1, i;
          }
        }
        i := i + 1;
      }
      assert found == 0 ==> forall k: nat :: !IsChosen(rs, k);
      assert StopsAt(rs, i);
      pages := length / 0x1000;
      used := 0;
      ClearBitmap();
    }

    method ClearBitmap()
      requires bitmap.Length == SLOTS
      modifies bitmap
      ensures forall j | 0 <= j < SLOTS :: bitmap[j] == 0
    {
      var i := 0;
      while i < SLOTS
        invariant 0 <= i <= SLOTS
        invariant forall j | 0 <= j < i :: bitmap[j] == 0
      {
        bitmap[i] := 0;
        i := i + 1;
      }
    }

    /** The loop bound is pages, so with more pages than slots a slot must be free. */
    ghost predicate ScanEnds()
      reads this
    {
      pages <= SLOTS || used < SLOTS
    }

    /** The first free frame, or 0. */
    method PmmAllocate() returns (address: Word)
      requires Valid() && ScanEnds()
      modifies this`used, bitmap
      ensures Valid()
      ensures old(used) < Capacity() ==> address == base + old(used) * PAGE_SIZE && used == old(used) + 1
      ensures old(used) == Capacity() ==> address == 0 && used == old(used)
    {
      var i := 0;
      while i < pages
        invariant 0 <= i <= used <= pages
      {
        if bitmap[i] == 0 {
          bitmap[i] := 1;
          used := used + 1;
          return base + i * PAGE_SIZE;
        }
        i := i + 1;
      }
      return 0;
    }
  }

  lemma PastKernelIsMasked(kernelLength: Word)
    requires KERNEL_PHYSICAL + kernelLength + 0x1FFF < WORD_LIMIT
    ensures And(KERNEL_PHYSICAL + kernelLength + 0x1000 + 0xFFF, 0xFFFF_FFFF_FFFF_F000) == PastKernel(kernelLength)
    ensures PastKernel(kernelLength) < WORD_LIMIT
  {
    hide And;
    RoundDown(KERNEL_PHYSICAL + kernelLength + 0x1000 + 0xFFF);
  }

  lemma NoBytes(rs: seq<Region>)
    ensures UsableBytes(rs, 0) == 0
  {
  }

  lemma OneMoreRegion(before: nat, rs: seq<Region>, i: nat)
    requires i < |rs|
    ensures UsableBytes(rs, i + 1) == UsableBytes(rs, i) + if rs[i].kind == 1 then rs[i].size else 0
    ensures ((before + UsableBytes(rs, i)) % WORD_LIMIT + rs[i].size) % WORD_LIMIT
         == (before + UsableBytes(rs, i) + rs[i].size) % WORD_LIMIT
  {
    WrapSum(before + UsableBytes(rs, i), rs[i].size);
  }

  lemma WrapSum(a: nat, b: nat)
    ensures (a % WORD_LIMIT + b) % WORD_LIMIT == (a + b) % WORD_LIMIT
  {
    var q, r := (a + b) / WORD_LIMIT, (a + b) % WORD_LIMIT;
    DivUnique(a % WORD_LIMIT + b, WORD_LIMIT, q - a / WORD_LIMIT, r);
  }

  // ---------- What the choice means ----------

  /**
    At most one entry is chosen, and one is exactly when memory of type 1 that does not begin at address 0 is among the
    first 50 entries, before any that is all zero.
   */
  lemma ChoiceIsUnique(rs: seq<Region>)
    ensures forall j: nat, k: nat | IsChosen(rs, j) && IsChosen(rs, k) :: j == k
    ensures (exists k: nat :: IsChosen(rs, k)) <==>
            (exists k: nat | k < |rs| && k < 50 ::
               rs[k].kind == 1 && rs[k].base > 0 && forall j | 0 <= j <= k :: rs[j] != Region(0, 0, 0, 0))
  {
    if k: nat :| k < |rs| && k < 50 && rs[k].kind == 1 && rs[k].base > 0 && forall j | 0 <= j <= k :: rs[j] != Region(0, 0, 0, 0) {
      var c := 0;
      while !Usable(rs[c])
        invariant 0 <= c <= k
        invariant forall j | 0 <= j < c :: !Usable(rs[j])
        decreases k - c
      {
        c := c + 1;
      }
      assert IsChosen(rs, c);
    }
    if k: nat :| IsChosen(rs, k) {
      assert rs[k].kind == 1;
    }
  }

  /** The chosen entry is the first of its kind. */
  lemma ChosenIsFirst(rs: seq<Region>, k: nat)
    requires IsChosen(rs, k)
    ensures k < |rs| && rs[k].kind == 1 && rs[k].base > 0
    ensures forall j | 0 <= j < k :: rs[j] != Region(0, 0, 0, 0) && (rs[j].kind == 1 ==> rs[j].base == 0)
  {
  }

  /** The bytes of the regions of all other types. */
  function OtherBytes(rs: seq<Region>, n: nat): nat
    requires n <= |rs|
  {
    if n == 0 then 0 else OtherBytes(rs, n - 1) + if rs[n - 1].kind != 1 then rs[n - 1].size else 0
  }

  function AllBytes(rs: seq<Region>, n: nat): nat
    requires n <= |rs|
  {
    if n == 0 then 0 else AllBytes(rs, n - 1) + rs[n - 1].size
  }

  /** Total memory is all the memory of the map less that of the other types. */
  lemma {:induction false} BytesArePartitioned(rs: seq<Region>, n: nat)
    requires n <= |rs|
    ensures UsableBytes(rs, n) + OtherBytes(rs, n) == AllBytes(rs, n)
  {
    if n > 0 {
      BytesArePartitioned(rs, n - 1);
    }
  }

  // ---------- Where the pool lies ----------

  /**
    A region that begins in the kernel gives a pool from the first page boundary a page or more past the kernel, and
    its length is shorter by the kernel's; any other region is the pool, but for a part of a page.
   */
  lemma PoolOfRegion(r: Region, kernelLength: Word)
    ensures var base, length := PoolBase(r, kernelLength), PoolLength(r, kernelLength);
      if 0x10_0000 <= r.base <= 0x10_0000 + kernelLength then
        && base % 0x1000 == 0 && 0x10_0000 + kernelLength + 0x1000 <= base < 0x10_0000 + kernelLength + 0x2000
        && (r.size >= kernelLength ==> length == r.size - kernelLength)
        && (r.size < kernelLength ==> length == r.size - kernelLength + WORD_LIMIT)
      else base == r.base && base + length == r.base + r.size
  {
    var x := 0x10_0000 + kernelLength + 0x1FFF;
    assert x / 0x1000 * 0x1000 == x - x % 0x1000;
  }

  /** By how much the pool's bytes pass the region's end, and the pages that makes. */
  lemma PoolOverrun(r: Region, kernelLength: Word)
    requires 0x10_0000 <= r.base <= 0x10_0000 + kernelLength && kernelLength <= r.size
    ensures var base, pages := PoolBase(r, kernelLength), PoolLength(r, kernelLength) / 0x1000;
      var overrun := base - (r.base + kernelLength);
      base + 0x1000 * pages <= r.base + r.size + overrun < base + 0x1000 * (pages + 1)
    ensures r.base == 0x10_0000 ==> 0x1000 <= PoolBase(r, kernelLength) - (r.base + kernelLength) < 0x2000
  {
    hide PoolBase, PoolLength;
    PoolOfRegion(r, kernelLength);
  }

  /** A region without the kernel is used up to its last whole page. */
  lemma OtherRegionIsFilled(r: Region, kernelLength: Word)
    requires !(0x10_0000 <= r.base <= 0x10_0000 + kernelLength)
    ensures var pages := PoolLength(r, kernelLength) / 0x1000;
      r.base + 0x1000 * pages <= r.base + r.size < r.base + 0x1000 * (pages + 1)
  {
    hide PoolBase, PoolLength;
    PoolOfRegion(r, kernelLength);
  }

  /** However large the region, at most a hundred frames of it are handed out. */
  lemma AtMostHundredFrames(r: Region, kernelLength: Word)
    ensures var pages := PoolLength(r, kernelLength) / 0x1000;
      Frames(r, kernelLength) == if pages < 100 then pages else 100
  {
  }

  /** The frame at an address shares no byte with the kernel. */
  predicate MissesKernel(kernelLength: Word, address: nat) {
    kernelLength == 0 || address + PAGE_SIZE <= 0x10_0000 || 0x10_0000 + kernelLength <= address
  }

  /** The pool keeps clear of the kernel unless its region begins below the kernel and its frames reach it. */
  lemma PoolMissesKernelIff(r: Region, kernelLength: Word)
    ensures (forall i: nat | i < Frames(r, kernelLength) :: MissesKernel(kernelLength, FrameAt(r, kernelLength, i))) <==>
              !(kernelLength > 0 && r.base < 0x10_0000 < r.base + PAGE_SIZE * Frames(r, kernelLength))
  {
    hide PoolBase, PoolLength, Least, Frames;
    PoolOfRegion(r, kernelLength);
    if kernelLength > 0 && r.base < 0x10_0000 < r.base + PAGE_SIZE * Frames(r, kernelLength) {
      var i: nat := (0x10_0000 - r.base) / PAGE_SIZE;
      assert i < Frames(r, kernelLength) && !MissesKernel(kernelLength, FrameAt(r, kernelLength, i));
    }
  }

  // ---------- Whether the pool lies in its region ----------

  /** The frames pmm_allocate can ever hand out of a pool taken from region r. */
  function Frames(r: Region, kernelLength: Word): nat {
    Least(PoolLength(r, kernelLength) / 0x1000, SLOTS)
  }

  function FrameAt(r: Region, kernelLength: Word, i: nat): nat {
    PoolBase(r, kernelLength) + i * PAGE_SIZE
  }

  predicate InRegion(r: Region, address: nat) {
    r.base <= address && address + PAGE_SIZE <= r.base + r.size
  }

  lemma PoolStartsInRegion(r: Region, kernelLength: Word)
    ensures r.base <= PoolBase(r, kernelLength)
  {
  }

  /** Every frame handed out lies in the region if and only if the end of the last one does. */
  lemma PoolInRegionIff(r: Region, kernelLength: Word)
    ensures (forall i: nat | i < Frames(r, kernelLength) :: InRegion(r, FrameAt(r, kernelLength, i))) <==>
              Frames(r, kernelLength) == 0
              || PoolBase(r, kernelLength) + PAGE_SIZE * Frames(r, kernelLength) <= r.base + r.size
  {
    hide PoolBase, PoolLength, Least;
    PoolStartsInRegion(r, kernelLength);
    var n := Frames(r, kernelLength);
    if n > 0 {
      assert InRegion(r, FrameAt(r, kernelLength, n - 1)) <==>
             PoolBase(r, kernelLength) + PAGE_SIZE * n <= r.base + r.size;
    }
  }

  /**
    A region that begins with the kernel and has up to 100 pages beyond it: the pool ends one page past the region, and
    its last frame lies outside.
   */
  lemma PoolEndsOnePageLate(r: Region, kernelLength: Word)
    requires r.base == KERNEL_PHYSICAL && r.size % 0x1000 == 0 && kernelLength % 0x1000 == 0
    requires kernelLength < r.size <= kernelLength + 0x1000 * 100
    ensures Frames(r, kernelLength) > 0
    ensures PoolBase(r, kernelLength) + PAGE_SIZE * Frames(r, kernelLength) == r.base + r.size + PAGE_SIZE
    ensures !InRegion(r, FrameAt(r, kernelLength, Frames(r, kernelLength) - 1))
  {
    var k, n := kernelLength / 0x1000, (r.size - kernelLength) / 0x1000;
    assert kernelLength == 0x1000 * k && r.size == 0x1000 * (k + n);
    assert PoolLength(r, kernelLength) == 0x1000 * n;
    assert PastKernel(kernelLength) == 0x1000 * (0x101 + k) by {
      DivUnique(KERNEL_PHYSICAL + kernelLength + 0x1FFF, 0x1000, 0x101 + k, 0xFFF);
    }
  }
}
