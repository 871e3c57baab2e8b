/**
  The kernel heap as words of raw memory: a block is a 24-byte header (size,
  status byte, next pointer) followed by its payload.  Sizes count 8-byte
  words, because split_block moves a word pointer by the number kalloc was
  asked for; callers mean bytes.  This module has the layout, the split, and
  exactly when a request leaves the heap in order.
 */
module HeapBlocks {
  import opened Bits

  const HEAP_WORDS := 128 * 1024
  const HEADER := 3
  const FREE := 0
  const USED := 1

  /** Words from heap_start on; memory goes on after the heap, so a header at its end can be written. */
  datatype Heap = Heap(start: Word, words: seq<Word>, free: Word)

  ghost predicate Placed(h: Heap) {
    && 0 < h.start && h.start % 8 == 0 && h.start + 8 * (HEAP_WORDS + HEADER) < WORD_LIMIT
    && |h.words| >= HEAP_WORDS + HEADER
  }

  // ---------- Headers ----------

  function Size(h: Heap, off: nat): Word
    requires off + HEADER <= |h.words|
  {
    h.words[off]
  }

  /** The status field is the low byte of the second word. */
  function Status(h: Heap, off: nat): nat
    requires off + HEADER <= |h.words|
  {
    h.words[off + 1] % 256
  }

  function Next(h: Heap, off: nat): Word
    requires off + HEADER <= |h.words|
  {
    h.words[off + 2]
  }

  function SetByte(w: Word, b: nat): Word
    requires b < 256
  {
    w - w % 256 + b
  }

  /** Word offset to byte address, and back. */
  function Address(h: Heap, off: nat): nat { h.start + 8 * off }

  function Offset(h: Heap, p: Word): int { (p - h.start) / 8 }

  /** Storing a byte leaves the other seven of the word. */
  lemma SetByteKeepsRest(w: Word, b: nat)
    requires b < 256
    ensures SetByte(w, b) % 256 == b && SetByte(w, b) / 256 == w / 256
  {
  }

  /** The heap starts at the first page boundary after the kernel's end. */
  function StartAfter(end: nat): nat {
    (end + 0x1000) / 0x1000 * 0x1000
  }

  lemma StartAfterIs(end: nat)
    ensures StartAfter(end) % 0x1000 == 0 && end < StartAfter(end) <= end + 0x1000
  {
    var q := (end + 0x1000) / 0x1000;
    assert q * 0x1000 % 0x1000 == 0;
  }

  // ---------- Block lists ----------

  function Sum(sizes: seq<nat>): nat {
    if sizes == [] then 0 else Sum(sizes[..|sizes| - 1]) + sizes[|sizes| - 1]
  }

  /** Where block k starts, in words. */
  function Off(sizes: seq<nat>, k: nat): nat
    requires k <= |sizes|
  {
    Sum(sizes[..k])
  }

  function Last(sizes: seq<nat>): nat
    requires sizes != []
  {
    sizes[|sizes| - 1]
  }

  /** The header of block k says what its place in the list says: all used but the last, linked in order. */
  ghost predicate HeaderOk(h: Heap, sizes: seq<nat>, k: nat)
    requires k < |sizes| && Off(sizes, k) + HEADER <= |h.words|
  {
    var off := Off(sizes, k);
    && Size(h, off) == sizes[k]
    && Status(h, off) == (if k == |sizes| - 1 then FREE else USED)
    && Next(h, off) == (if k == |sizes| - 1 then 0 else Address(h, Off(sizes, k + 1)))
  }

  /** The blocks tile the heap, one after the other; the last is the only free one and free points at it. */
  ghost predicate Tiled(h: Heap, sizes: seq<nat>) {
    && Placed(h) && sizes != [] && Sum(sizes) == HEAP_WORDS
    && (forall k | 0 <= k < |sizes| :: sizes[k] >= HEADER)
    && (forall k | 0 <= k < |sizes| :: Off(sizes, k) + HEADER <= HEAP_WORDS && HeaderOk(h, sizes, k))
    && h.free == Address(h, Off(sizes, |sizes| - 1))
  }

  lemma OffStep(sizes: seq<nat>, k: nat)
    requires k < |sizes|
    ensures Off(sizes, k + 1) == Off(sizes, k) + sizes[k]
  {
    assert sizes[..k + 1][..k] == sizes[..k];
  }

  lemma OffEnds(sizes: seq<nat>)
    ensures Off(sizes, 0) == 0 && Off(sizes, |sizes|) == Sum(sizes)
  {
    assert sizes[..|sizes|] == sizes;
  }

  lemma {:induction false} OffMonotone(sizes: seq<nat>, j: nat, k: nat)
    requires j <= k <= |sizes|
    ensures Off(sizes, j) <= Off(sizes, k)
    ensures j < k ==> Off(sizes, j) + sizes[j] <= Off(sizes, k)
    decreases k - j
  {
    if j < k {
      OffMonotone(sizes, j, k - 1);
      OffStep(sizes, k - 1);
      OffStep(sizes, j);
    }
  }

  lemma OffPrefix(sizes: seq<nat>, more: seq<nat>, k: nat)
    requires k <= |sizes|
    ensures Off(sizes + more, k) == Off(sizes, k)
  {
    assert (sizes + more)[..k] == sizes[..k];
  }

  // ---------- split_block ----------

  /** The six stores of split_block, in order; for n < 3 the two headers overlap. */
  function Split(h: Heap, off: nat, n: nat): Heap
    requires off + n + HEADER <= |h.words| && h.words[off] >= n && Address(h, off + n) < WORD_LIMIT
  {
    var at := off + n;
    var w0 := h.words[at := h.words[off] - n];
    var w1 := w0[at + 2 := w0[off + 2]];
    var w2 := w1[at + 1 := SetByte(w1[at + 1], FREE)];
    var w3 := w2[off := n];
    var w4 := w3[off + 1 := SetByte(w3[off + 1], USED)];
    var w5 := w4[off + 2 := Address(h, at)];
    Heap(h.start, w5, Address(h, at))
  }

  /** int to uint64_t, as in the comparison with size. */
  function Unsigned(n: int): int {
    if n < 0 then n + WORD_LIMIT else n
  }

  predicate IsInt(n: int) { -0x8000_0000 <= n < 0x8000_0000 }

  /** The free pointer names a block inside the heap. */
  ghost predicate Ready(h: Heap) {
    && Placed(h) && 0 <= Offset(h, h.free) && Offset(h, h.free) + HEADER <= HEAP_WORDS
    && Offset(h, h.free) + Size(h, Offset(h, h.free)) <= HEAP_WORDS
  }

  /** kalloc on a heap in order: the free block serves the request if it is larger, and nothing else can. */
  ghost function Kalloc(h: Heap, n: int): (Heap, Word)
    requires IsInt(n) && Ready(h)
  {
    var off := Offset(h, h.free);
    if Size(h, off) > Unsigned(n) then (Split(h, off, n), Address(h, off) + 8 * HEADER)
    else (h, 0)
  }

  lemma TailFacts(h: Heap, sizes: seq<nat>)
    requires Tiled(h, sizes)
    ensures Ready(h)
    ensures var k := |sizes| - 1;
      && Offset(h, h.free) == Off(sizes, k) && Off(sizes, k) + sizes[k] == HEAP_WORDS
      && Size(h, Off(sizes, k)) == sizes[k] && Next(h, Off(sizes, k)) == 0 && Status(h, Off(sizes, k)) == FREE
  {
    OffStep(sizes, |sizes| - 1);
    OffEnds(sizes);
  }

  /** A request is served by splitting, refused, or it breaks the list: this says which, before the call. */
  predicate Safe(tail: nat, n: int) {
    n < 0 || n >= tail || (n >= HEADER && tail - n >= HEADER)
  }

  function SizesAfter(sizes: seq<nat>, n: int): seq<nat>
    requires sizes != []
  {
    if 0 <= n < Last(sizes) then sizes[..|sizes| - 1] + [n, Last(sizes) - n] else sizes
  }

  lemma SplitWords(h: Heap, off: nat, n: nat, i: nat)
    requires off + n + HEADER <= |h.words| && h.words[off] >= n && Address(h, off + n) < WORD_LIMIT && i < |h.words|
    ensures var t := Split(h, off, n);
      && t.start == h.start && t.free == Address(h, off + n) && |t.words| == |h.words| && t.words[off] == n
      && (i < off ==> t.words[i] == h.words[i])
      && (n >= HEADER ==> t.words[off + n] == h.words[off] - n && Next(t, off + n) == Next(h, off))
      && (n >= HEADER ==> Status(t, off + n) == FREE && Status(t, off) == USED && Next(t, off) == Address(h, off + n))
  {
  }

  /** The header words a split leaves, from the block on, when they do not overlap: block, payload, rest. */
  lemma SplitExactly(h: Heap, off: nat, n: nat, i: nat)
    requires off + n + HEADER <= |h.words| && h.words[off] >= n && Address(h, off + n) < WORD_LIMIT && i < |h.words|
    requires n >= 3
    ensures Split(h, off, n).words[i] == (
              if i == off then n
              else if i == off + 1 then SetByte(h.words[i], 1)
              else if i == off + 2 then h.start + 8 * (off + n)
              else if i == off + n then h.words[off] - n
              else if i == off + n + 1 then SetByte(h.words[i], 0)
              else if i == off + n + 2 then h.words[off + 2]
              else h.words[i])
  {
  }

  /** The words a request of less than a header leaves: each store meets what the ones before it made. */
  lemma OverlappingSplit(h: Heap, off: nat, n: nat, i: nat)
    requires off + n + HEADER <= |h.words| && h.words[off] >= n && Address(h, off + n) < WORD_LIMIT && i < |h.words|
    requires n < 3
    ensures var s := h.words[off];
      Split(h, off, n).words[i] == (
        if i == off then n
        else if i == off + 1 then (if n == 1 then SetByte(s - 1, 1) else SetByte(h.words[i], 1))
        else if i == off + 2 then h.start + 8 * (off + n)
        else if n > 0 && i == off + 3 then (if n == 1 then h.words[off + 2] else SetByte(h.words[i], 0))
        else if n == 2 && i == off + 4 then s - 2
        else h.words[i])
  {
    hide SetByte;
    if n == 0 { SetTwice(h.words[off + 1]); }
  }

  lemma SetTwice(w: Word)
    ensures SetByte(SetByte(w, 0), 1) == SetByte(w, 1)
  {
    SetByteKeepsRest(w, 0);
  }

  lemma TailReplaced(sizes: seq<nat>, n: nat, k: nat)
    requires sizes != [] && n <= Last(sizes) && k < |sizes|
    ensures Off(sizes[..|sizes| - 1] + [n, Last(sizes) - n], k) == Off(sizes, k)
  {
    var m := |sizes| - 1;
    assert sizes == sizes[..m] + [Last(sizes)];
    OffPrefix(sizes[..m], [Last(sizes)], k);
    OffPrefix(sizes[..m], [n, Last(sizes) - n], k);
  }

  lemma HeaderUnmoved(h: Heap, off: nat, n: nat, i: nat)
    requires off + n + HEADER <= |h.words| && h.words[off] >= n && Address(h, off + n) < WORD_LIMIT && i + HEADER <= off
    ensures var t := Split(h, off, n);
      Size(t, i) == Size(h, i) && Status(t, i) == Status(h, i) && Next(t, i) == Next(h, i) && t.start == h.start
  {
  }

  lemma TiledSum(h: Heap, sizes: seq<nat>)
    requires Tiled(h, sizes)
    ensures sizes != [] && Sum(sizes) == HEAP_WORDS
  {
  }

  lemma BlockOk(h: Heap, sizes: seq<nat>, k: nat)
    requires Tiled(h, sizes) && k < |sizes|
    ensures sizes[k] >= HEADER && Off(sizes, k) + HEADER <= HEAP_WORDS <= |h.words| && HeaderOk(h, sizes, k)
  {
  }

  /** Splitting the tail leaves the headers before it alone. */
  lemma EarlierHeadersKept(h: Heap, sizes: seq<nat>, t: Heap, n: nat, k: nat)
    requires Tiled(h, sizes) && n <= Last(sizes) && k < |sizes| - 1 && Ready(h)
    requires t == Split(h, Off(sizes, |sizes| - 1), n)
    ensures var after := sizes[..|sizes| - 1] + [n, Last(sizes) - n];
      Off(after, k) == Off(sizes, k) && Off(sizes, k) + HEADER <= HEAP_WORDS && HeaderOk(t, after, k)
  {
    hide Split, Sum, Tiled, Off;
    var m := |sizes| - 1;
    TailReplaced(sizes, n, k);
    TailReplaced(sizes, n, k + 1);
    OffMonotone(sizes, k, m);
    TailFacts(h, sizes);
    BlockOk(h, sizes, k);
    HeaderUnmoved(h, Off(sizes, m), n, Off(sizes, k));
  }

  lemma NewHeadersOk(h: Heap, sizes: seq<nat>, t: Heap, n: nat)
    requires Tiled(h, sizes) && HEADER <= n && n + HEADER <= Last(sizes) && Ready(h)
    requires t == Split(h, Off(sizes, |sizes| - 1), n)
    ensures var m, after := |sizes| - 1, sizes[..|sizes| - 1] + [n, Last(sizes) - n];
      && Off(after, m + 1) + HEADER <= HEAP_WORDS && HeaderOk(t, after, m) && HeaderOk(t, after, m + 1)
      && t.free == Address(t, Off(after, m + 1)) && Placed(t)
  {
    hide Split;
    TailFacts(h, sizes);
    SplitSizes(sizes, n);
    SplitWords(h, Off(sizes, |sizes| - 1), n, 0);
  }

  lemma SplitTiles(h: Heap, sizes: seq<nat>, t: Heap, after: seq<nat>, n: nat)
    requires Tiled(h, sizes) && HEADER <= n && n + HEADER <= Last(sizes) && Ready(h)
    requires t == Split(h, Off(sizes, |sizes| - 1), n) && after == sizes[..|sizes| - 1] + [n, Last(sizes) - n]
    ensures Tiled(t, after)
  {
    hide HeaderOk, Split, Sum;
    var m := |sizes| - 1;
    TailFacts(h, sizes);
    SplitSizes(sizes, n);
    NewHeadersOk(h, sizes, t, n);
    forall k | 0 <= k < |after|
      ensures Off(after, k) + HEADER <= HEAP_WORDS && HeaderOk(t, after, k)
    {
      if k < m {
        EarlierHeadersKept(h, sizes, t, n, k);
      } else if k == m {
        OffStep(after, m);
      }
    }
  }

  lemma SafeKeepsTiling(h: Heap, sizes: seq<nat>, n: int)
    requires Tiled(h, sizes) && IsInt(n) && Safe(Last(sizes), n)
    ensures Ready(h) && Tiled(Kalloc(h, n).0, SizesAfter(sizes, n))
  {
    hide HeaderOk, Split, Sum;
    TailFacts(h, sizes);
    if 0 <= n < Last(sizes) {
      SplitTiles(h, sizes, Kalloc(h, n).0, SizesAfter(sizes, n), n);
    }
  }

  lemma SplitSizes(sizes: seq<nat>, n: nat)
    requires sizes != [] && n <= Last(sizes)
    ensures var m, after := |sizes| - 1, sizes[..|sizes| - 1] + [n, Last(sizes) - n];
      && Off(after, m) == Off(sizes, m) && Off(after, m + 1) == Off(sizes, m) + n
      && Sum(after) == Sum(sizes)
  {
    var m, after := |sizes| - 1, sizes[..|sizes| - 1] + [n, Last(sizes) - n];
    assert after[..m] == sizes[..m];
    OffStep(after, m);
    OffStep(after, m + 1);
    OffEnds(after);
  }

  // ---------- Exactly the safe requests ----------

  /** Two tilings of the same words agree from the start, as long as the words do. */
  lemma {:induction false} TilingIsDetermined(t: Heap, sizes: seq<nat>, other: seq<nat>, m: nat)
    requires Tiled(t, other) && m <= |sizes| && Off(sizes, m) < HEAP_WORDS
    requires forall k | 0 <= k < m :: Off(sizes, k) < |t.words| && t.words[Off(sizes, k)] == sizes[k]
    ensures m < |other| && Off(other, m) == Off(sizes, m)
    decreases m
  {
    hide Sum, Tiled, Off;
    OffEnds(other);
    OffEnds(sizes);
    TiledSum(t, other);
    if m > 0 {
      OffMonotone(sizes, m - 1, m);
      TilingIsDetermined(t, sizes, other, m - 1);
      BlockOk(t, other, m - 1);
      assert t.words[Off(sizes, m - 1)] == sizes[m - 1];
      OffStep(other, m - 1);
      OffStep(sizes, m - 1);
      if m == |other| {
        assert false;
      }
    }
  }

  lemma UnsafeBreaksTiling(h: Heap, sizes: seq<nat>, n: int, other: seq<nat>)
    requires Tiled(h, sizes) && IsInt(n) && !Safe(Last(sizes), n)
    ensures Ready(h) && !Tiled(Kalloc(h, n).0, other)
  {
    hide Split;
    TailFacts(h, sizes);
    var m := |sizes| - 1;
    var off, t, after := Off(sizes, m), Kalloc(h, n).0, SizesAfter(sizes, n);
    SplitSizes(sizes, n);
    if Tiled(t, other) {
      forall k | 0 <= k < m
        ensures Off(after, k) < |t.words| && t.words[Off(after, k)] == after[k]
      {
        EarlierHeadersKept(h, sizes, t, n, k);
      }
      SplitWords(h, off, n, 0);
      var j := if n < HEADER then m else m + 1;
      assert t.words[Off(after, j)] == after[j] < HEADER;
      TilingIsDetermined(t, after, other, j);
      assert false;
    }
  }

  /** kalloc leaves some tiling of the heap if and only if the request is safe. */
  lemma KeepsTilingIffSafe(h: Heap, sizes: seq<nat>, n: int)
    requires Tiled(h, sizes) && IsInt(n)
    ensures Ready(h)
    ensures (exists after :: Tiled(Kalloc(h, n).0, after)) <==> Safe(Last(sizes), n)
  {
    TailFacts(h, sizes);
    if Safe(Last(sizes), n) {
      SafeKeepsTiling(h, sizes, n);
    } else {
      forall other {
        UnsafeBreaksTiling(h, sizes, n, other);
      }
    }
  }

  /** A request of 0 makes the block its own successor, so the next list scan never ends. */
  lemma ZeroMakesSelfLoop(h: Heap, sizes: seq<nat>)
    requires Tiled(h, sizes)
    ensures var off := Off(sizes, |sizes| - 1);
      && Ready(h) && Next(Kalloc(h, 0).0, off) == Address(h, off) && Status(Kalloc(h, 0).0, off) == USED
  {
    hide Split, Sum, HeaderOk, Next, Status;
    TailFacts(h, sizes);
    SplitZero(h, Off(sizes, |sizes| - 1));
  }

  lemma SplitZero(h: Heap, off: nat)
    requires off + HEADER <= |h.words| && Address(h, off) < WORD_LIMIT
    ensures Next(Split(h, off, 0), off) == Address(h, off) && Status(Split(h, off, 0), off) == USED
  {
  }

  /** The n bytes handed out end at or before the next header exactly from n == 4 on. */
  lemma PayloadStaysInBlockIff(h: Heap, sizes: seq<nat>, n: nat)
    requires Tiled(h, sizes) && IsInt(n) && n < Last(sizes)
    ensures Ready(h) && Kalloc(h, n).1 != 0
    ensures Kalloc(h, n).1 + n <= Kalloc(h, n).0.free <==> n >= 4
  {
    hide Sum, HeaderOk;
    TailFacts(h, sizes);
    SplitWords(h, Off(sizes, |sizes| - 1), n, 0);
  }
}
