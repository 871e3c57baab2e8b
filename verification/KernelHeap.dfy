/**
  The kernel heap as the kernel writes it: block headers rewritten in place in
  an array of words, and a cached pointer to the last known free block.
 */
module KernelHeap {
  import opened Bits
  import opened HeapBlocks
  import opened HeapRuns

  class KernelHeap {
    const mem: array<Word>
    var heapStart: Word
    var heapSize: Word
    var freePtr: Word
    ghost var sizes: seq<nat>

    ghost function State(): Heap
      reads this, mem
    {
      Heap(heapStart, mem[..], freePtr)
    }

    ghost predicate Valid()
      reads this, mem
    {
      Tiled(State(), sizes)
    }

    constructor (mem: array<Word>)
      ensures this.mem == mem
    {
      this.mem, heapStart, heapSize, freePtr, sizes := mem, 0, 0, 0, [];
    }

    /** The memory from the first page boundary after the kernel's end, as one free block. */
    method InstallHeap(kernelEnd: Word)
      requires mem.Length >= HEAP_WORDS + HEADER
      requires kernelEnd + 0x1000 + 8 * (HEAP_WORDS + HEADER) < WORD_LIMIT
      modifies this, mem
      ensures Valid() && sizes == [0x2_0000] && heapSize == 0x2_0000
      ensures heapStart == StartAfter(kernelEnd)
      ensures mem[1] / 256 == old(mem[1]) / 256 && forall i | HEADER <= i < mem.Length :: mem[i] == old(mem[i])
      ensures InOrder(Machine(State(), []), HEAP_WORDS)
    {
      hide And, InOrder, Tiled, SetByte;
      HeapStartFacts(kernelEnd);
      heapStart := And(kernelEnd + 0x1000, 0xFFFF_FFFF_FFFF_F000);
      heapSize := 128 * 1024;
      freePtr := heapStart;
      mem[0] := heapSize;
      mem[2] := 0;
      SetByteKeepsRest(mem[1], FREE);
      mem[1] := SetByte(mem[1], FREE);
      sizes := [HEAP_WORDS];
      FreshHeapInOrder(State());
    }

    /** The block at ptr becomes a used block of n words, the rest of it a new free block. */
    method SplitBlock(ptr: Word, n: nat) returns (block: Word)
      requires Placed(State()) && ptr % 8 == 0 && heapStart <= ptr
      requires (ptr - heapStart) / 8 + n + HEADER <= mem.Length
      requires mem[(ptr - heapStart) / 8] >= n && ptr + 8 * n < WORD_LIMIT
      modifies this`freePtr, mem
      ensures block == ptr && State() == Split(old(State()), (ptr - heapStart) / 8, n)
    {
      hide SetByte;
      var off := (ptr - heapStart) / 8;
      var newFree := off + n;
      ghost var w := NewFreeBlock(off, newFree, n);
      mem[off] := n;
      assert mem[..] == w[off := n];
      w := w[off := n];
      mem[off + 1] := SetByte(mem[off + 1], USED);
      assert mem[..] == w[off + 1 := SetByte(w[off + 1], USED)];
      w := mem[..];
      mem[off + 2] := heapStart + 8 * newFree;
      assert mem[..] == w[off + 2 := heapStart + 8 * newFree];
      freePtr := heapStart + 8 * newFree;
      block := ptr;
    }

    /** The first three stores: the header of the rest. */
    method NewFreeBlock(off: nat, newFree: nat, n: nat) returns (ghost w: seq<Word>)
      requires off + HEADER <= mem.Length && newFree + HEADER <= mem.Length && mem[off] >= n
      modifies mem
      ensures w == mem[..]
      ensures var w0 := old(mem[..])[newFree := old(mem[off]) - n];
        var w1 := w0[newFree + 2 := w0[off + 2]];
        w == w1[newFree + 1 := SetByte(w1[newFree + 1], FREE)]
    {
      hide SetByte;
      mem[newFree] := mem[off] - n;
      ghost var w0 := old(mem[..])[newFree := old(mem[off]) - n];
      assert mem[..] == w0;
      mem[newFree + 2] := mem[off + 2];
      ghost var w1 := w0[newFree + 2 := w0[off + 2]];
      assert mem[..] == w1;
      mem[newFree + 1] := SetByte(mem[newFree + 1], FREE);
      w := mem[..];
    }

    /** The loop of kalloc: the first free block of the list that is larger than n, or 0. */
    method FindFree(n: int) returns (ptr: Word)
      requires Valid() && IsInt(n)
      ensures ptr == Scan(State(), heapStart, n, |sizes|)
    {
      hide Sum, HeaderOk;
      ghost var h := State();
      OffEnds(sizes);
      ptr := heapStart;
      ghost var k := 0;
      while ptr != 0
        invariant k <= |sizes| && ptr == if k < |sizes| then Address(h, Off(sizes, k)) else 0
        invariant Scan(h, heapStart, n, |sizes|) == Scan(h, ptr, n, |sizes| - k)
        decreases |sizes| - k
      {
        BlockFacts(h, sizes, k);
        var off := (ptr - heapStart) / 8;
        if mem[off + 1] % 256 == FREE && mem[off] > Unsigned(n) {
          return ptr;
        }
        ptr := mem[off + 2];
        k := k + 1;
      }
    }

    /** Any int is accepted; whether the heap is in order afterwards is decided by Safe. */
    method Kalloc(n: int) returns (p: Word)
      requires Valid() && IsInt(n)
      modifies this, mem
      ensures heapStart == old(heapStart) && heapSize == old(heapSize)
      ensures Ready(old(State())) && (State(), p) == HeapBlocks.Kalloc(old(State()), n)
      ensures p == 0 <==> old(Last(sizes)) <= Unsigned(n)
      ensures Safe(old(Last(sizes)), n) ==> Valid() && sizes == SizesAfter(old(sizes), n)
    {
      hide Split, Sum, HeaderOk, Scan, SetByte;
      ghost var h, before := State(), sizes;
      KallocFacts(h, before, n);
      if Safe(Last(before), n) {
        SafeKeepsTiling(h, before, n);
      }
      var off := (freePtr - heapStart) / 8;
      if mem[off + 1] % 256 == FREE && mem[off] > Unsigned(n) {
        var b := SplitBlock(freePtr, n);
        sizes := if Safe(Last(before), n) then SizesAfter(before, n) else before;
        return b + 8 * HEADER;
      }
      var ptr := FindFree(n);
      if ptr != 0 {
        assert false;  // the only free block of the list has just been looked at
      }
      return 0;
    }
  }

  lemma HeapStartFacts(kernelEnd: Word)
    requires kernelEnd + 0x1000 + 8 * (HEAP_WORDS + HEADER) < WORD_LIMIT
    ensures var h := And(kernelEnd + 0x1000, 0xFFFF_FFFF_FFFF_F000);
      && h == StartAfter(kernelEnd)
      && 0 < h && h % 8 == 0 && h + 8 * (HEAP_WORDS + HEADER) < WORD_LIMIT
  {
    hide And;
    var x: Word := kernelEnd + 0x1000;
    RoundDown(x);
    PageStart(x);
  }

  lemma PageStart(x: nat)
    ensures x / 0x1000 * 0x1000 % 8 == 0 && x / 0x1000 * 0x1000 <= x
    ensures x >= 0x1000 ==> x / 0x1000 * 0x1000 > 0
  {
    var q := x / 0x1000;
    assert q * 0x1000 == 8 * (q * 512);
  }

  /** What kalloc finds on a heap in order. */
  lemma KallocFacts(h: Heap, sizes: seq<nat>, n: int)
    requires Tiled(h, sizes) && IsInt(n)
    ensures Ready(h) && h.free % 8 == 0 && h.start <= h.free
    ensures var off := Offset(h, h.free);
      && Status(h, off) == FREE && Size(h, off) == Last(sizes)
      && (Last(sizes) > Unsigned(n) ==> 0 <= n && h.free + 8 * n < WORD_LIMIT && off + n + HEADER <= |h.words|)
    ensures Last(sizes) <= Unsigned(n) ==> Scan(h, h.start, n, |sizes|) == 0 && SizesAfter(sizes, n) == sizes
  {
    hide Split, Sum, HeaderOk, SetByte;
    TailFacts(h, sizes);
    CachedPointerIsFirstFit(h, sizes, n);
  }

  lemma BlockFacts(h: Heap, sizes: seq<nat>, k: nat)
    requires Tiled(h, sizes) && k < |sizes|
    ensures var off := Off(sizes, k);
      && off + HEADER <= HEAP_WORDS && Offset(h, Address(h, off)) == off
      && (Status(h, off) == FREE ==> k == |sizes| - 1 && Size(h, off) == Last(sizes))
      && Next(h, off) == if k == |sizes| - 1 then 0 else Address(h, Off(sizes, k + 1))
  {
    assert HeaderOk(h, sizes, k);
  }
}
