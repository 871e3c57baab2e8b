/**
  Runs of the kernel heap: requests interleaved with arbitrary writes to the
  payloads handed out.  A request is legal if it is safe and its payload fits
  its block; positive multiples of 4, like those the kernel asks for, always
  are.
 */
module HeapRuns {
  import opened Bits
  import opened HeapBlocks

  // ---------- First fit ----------

  /** The list scan of kalloc, from block pointer p, looking at no more than fuel blocks. */
  ghost function Scan(h: Heap, p: Word, n: int, fuel: nat): Word
    requires Placed(h)
    decreases fuel
  {
    if p == 0 || fuel == 0 || !(0 <= Offset(h, p) && Offset(h, p) + HEADER <= HEAP_WORDS) then 0
    else if Status(h, Offset(h, p)) == FREE && Size(h, Offset(h, p)) > Unsigned(n) then p
    else Scan(h, Next(h, Offset(h, p)), n, fuel - 1)
  }

  lemma {:induction false} ScanFindsTail(h: Heap, sizes: seq<nat>, k: nat, n: int, fuel: nat)
    requires Tiled(h, sizes) && IsInt(n) && k < |sizes| && fuel >= |sizes| - k
    ensures Scan(h, Address(h, Off(sizes, k)), n, fuel)
         == if Last(sizes) > Unsigned(n) then Address(h, Off(sizes, |sizes| - 1)) else 0
    decreases |sizes| - k
  {
    hide Sum;
    assert Off(sizes, k) + HEADER <= HEAP_WORDS && HeaderOk(h, sizes, k);
    if k < |sizes| - 1 {
      ScanFindsTail(h, sizes, k + 1, n, fuel - 1);
    } else {
      assert Scan(h, 0, n, fuel - 1) == 0;
    }
  }

  /** The cached pointer serves exactly the block that first fit from heap_start would choose. */
  lemma CachedPointerIsFirstFit(h: Heap, sizes: seq<nat>, n: int)
    requires Tiled(h, sizes) && IsInt(n)
    ensures Ready(h)
    ensures var p := Scan(h, h.start, n, |sizes|);
      Kalloc(h, n).1 == if p == 0 then 0 else p + 8 * HEADER
    ensures Kalloc(h, n).1 == 0 <==> Last(sizes) <= Unsigned(n)
  {
    TailFacts(h, sizes);
    OffEnds(sizes);
    ScanFindsTail(h, sizes, 0, n, |sizes|);
  }

  // ---------- Events ----------

  datatype Allocation = Allocation(address: nat, n: nat)

  /** The heap and what has been handed out, in order. */
  datatype Machine = Machine(h: Heap, live: seq<Allocation>)

  /** kalloc(n), or a write of one word that touches some payload. */
  datatype Event = Request(n: int) | Write(i: nat, w: Word)

  predicate Touches(h: Heap, a: Allocation, i: nat) {
    a.address < Address(h, i + 1) && Address(h, i) < a.address + a.n
  }

  /** The size of the block the free pointer names. */
  ghost function FreeSize(h: Heap): nat
    requires Ready(h)
  {
    Size(h, Offset(h, h.free))
  }

  ghost predicate Legal(m: Machine, e: Event)
    requires Ready(m.h)
  {
    match e
    case Request(n) => IsInt(n) && Safe(FreeSize(m.h), n) && (0 <= n < FreeSize(m.h) ==> n >= 4)
    case Write(i, _) => exists k | 0 <= k < |m.live| :: Touches(m.h, m.live[k], i)
  }

  ghost function Step(m: Machine, e: Event): Machine
    requires Ready(m.h) && Legal(m, e)
  {
    match e
    case Request(n) =>
      var (h, p) := Kalloc(m.h, n);
      Machine(h, if p == 0 then m.live else m.live + [Allocation(p, n)])
    case Write(i, w) =>
      if i < |m.h.words| then m.(h := m.h.(words := m.h.words[i := w])) else m
  }

  // ---------- The invariant ----------

  function Requested(live: seq<Allocation>): seq<nat> {
    seq(|live|, k requires 0 <= k < |live| => live[k].n)
  }

  /** The blocks handed out, then the rest of the heap as one free block. */
  ghost predicate InOrder(m: Machine, tail: nat) {
    && Tiled(m.h, Requested(m.live) + [tail])
    && forall k | 0 <= k < |m.live| ::
         m.live[k].n >= 4 && m.live[k].address == Address(m.h, Off(Requested(m.live), k)) + 8 * HEADER
  }

  lemma RequestedGrows(live: seq<Allocation>, a: Allocation, tail: nat)
    requires a.n <= tail
    ensures Requested(live + [a]) + [tail - a.n] == SizesAfter(Requested(live) + [tail], a.n) || a.n == tail
    ensures forall k | 0 <= k <= |live| ::
              Off(Requested(live + [a]), k) == Off(Requested(live) + [tail], k) == Off(Requested(live), k)
  {
    hide Sum;
    assert Requested(live + [a]) == Requested(live) + [a.n];
    forall k | 0 <= k <= |live|
      ensures Off(Requested(live + [a]), k) == Off(Requested(live) + [tail], k) == Off(Requested(live), k)
    {
      OffPrefix(Requested(live), [a.n], k);
      OffPrefix(Requested(live), [tail], k);
    }
  }

  lemma RequestKeepsOrder(m: Machine, tail: nat, n: int)
    requires InOrder(m, tail) && Ready(m.h) && Legal(m, Request(n))
    ensures InOrder(Step(m, Request(n)), if 0 <= n < tail then tail - n else tail)
  {
    hide Tiled, Off, Split, Sum, Ready;
    var sizes := Requested(m.live) + [tail];
    assert Last(sizes) == tail;
    TailOfTiling(m.h, sizes);
    SafeKeepsTiling(m.h, sizes, n);
    if 0 <= n < tail {
      var a := Allocation(Address(m.h, Off(sizes, |sizes| - 1)) + 8 * HEADER, n);
      RequestedGrows(m.live, a, tail);
      assert Step(m, Request(n)).live == m.live + [a];
    }
  }

  /** A positive multiple of 4 is always legal when the free block's size is one, and leaves such a size. */
  lemma MultiplesOfFourAreLegal(m: Machine, tail: nat, n: int)
    requires InOrder(m, tail) && tail % 4 == 0 && 0 < n < 0x8000_0000 && n % 4 == 0
    ensures Ready(m.h) && Legal(m, Request(n))
    ensures InOrder(Step(m, Request(n)), if n < tail then tail - n else tail)
    ensures (if n < tail then tail - n else tail) % 4 == 0
  {
    hide Tiled, Off, Split, Sum;
    var sizes := Requested(m.live) + [tail];
    assert Last(sizes) == tail;
    TailOfTiling(m.h, sizes);
    RequestKeepsOrder(m, tail, n);
  }

  lemma TailOfTiling(h: Heap, sizes: seq<nat>)
    requires Tiled(h, sizes)
    ensures sizes != [] && Ready(h) && FreeSize(h) == Last(sizes)
    ensures forall n | IsInt(n) :: Kalloc(h, n).0.start == h.start
    ensures forall n | IsInt(n) :: Kalloc(h, n) == (
              if 0 <= n < Last(sizes) then (Split(h, Off(sizes, |sizes| - 1), n), Address(h, Off(sizes, |sizes| - 1)) + 8 * HEADER)
              else (h, 0))
  {
    TailFacts(h, sizes);
  }

  /** A word that touches payload k lies after that block's header and before the next. */
  lemma TouchedWordIsPayload(m: Machine, tail: nat, k: nat, i: nat)
    requires InOrder(m, tail) && k < |m.live| && Touches(m.h, m.live[k], i)
    ensures var sizes := Requested(m.live) + [tail];
      Off(sizes, k) + HEADER <= i < Off(sizes, k + 1)
  {
    hide Tiled;
    var sizes := Requested(m.live) + [tail];
    OffPrefix(Requested(m.live), [tail], k);
    OffStep(sizes, k);
  }

  lemma HeaderUntouched(h: Heap, sizes: seq<nat>, k: nat, i: nat, w: Word, j: nat)
    requires Tiled(h, sizes) && k < |sizes| && j < |sizes|
    requires Off(sizes, k) + HEADER <= i < Off(sizes, k + 1) && i < |h.words|
    ensures Off(sizes, j) + HEADER <= HEAP_WORDS && HeaderOk(h.(words := h.words[i := w]), sizes, j)
  {
    hide Sum;
    assert HeaderOk(h, sizes, j) && sizes[j] >= HEADER;
    if j <= k {
      OffMonotone(sizes, j, k);
    } else {
      OffMonotone(sizes, k + 1, j);
    }
  }

  lemma WriteKeepsOrder(m: Machine, tail: nat, i: nat, w: Word)
    requires InOrder(m, tail) && Ready(m.h) && Legal(m, Write(i, w))
    ensures InOrder(Step(m, Write(i, w)), tail)
  {
    hide Sum, HeaderOk, Touches;
    var sizes := Requested(m.live) + [tail];
    var k :| 0 <= k < |m.live| && Touches(m.h, m.live[k], i);
    TouchedWordIsPayload(m, tail, k, i);
    OffMonotone(sizes, k + 1, |sizes|);
    OffEnds(sizes);
    var h := m.h.(words := m.h.words[i := w]);
    forall j | 0 <= j < |sizes|
      ensures Off(sizes, j) + HEADER <= HEAP_WORDS && HeaderOk(h, sizes, j)
    {
      HeaderUntouched(m.h, sizes, k, i, w, j);
    }
    assert Tiled(h, sizes);
    assert Step(m, Write(i, w)) == m.(h := h);
  }

  // ---------- Every run ----------

  /** Each event is legal in the state it meets. */
  ghost predicate LegalRun(m: Machine, es: seq<Event>)
    decreases |es|
  {
    es == [] || (Ready(m.h) && Legal(m, es[0]) && LegalRun(Step(m, es[0]), es[1..]))
  }

  ghost function After(m: Machine, es: seq<Event>): Machine
    requires LegalRun(m, es)
    decreases |es|
  {
    if es == [] then m else After(Step(m, es[0]), es[1..])
  }

  /** In every reachable state the blocks tile the heap, and what was handed out before is still where it was. */
  lemma {:induction false} RunKeepsOrder(m: Machine, tail: nat, es: seq<Event>) returns (rest: nat)
    requires InOrder(m, tail) && LegalRun(m, es)
    ensures InOrder(After(m, es), rest) && m.live <= After(m, es).live
    decreases |es|
  {
    hide InOrder, Legal;
    if es == [] {
      rest := tail;
    } else {
      var next := OneEvent(m, tail, es[0]);
      rest := RunKeepsOrder(Step(m, es[0]), next, es[1..]);
    }
  }

  lemma OneEvent(m: Machine, tail: nat, e: Event) returns (next: nat)
    requires InOrder(m, tail) && Ready(m.h) && Legal(m, e)
    ensures InOrder(Step(m, e), next) && m.live <= Step(m, e).live
  {
    match e
    case Request(n) =>
      RequestKeepsOrder(m, tail, n);
      next := if 0 <= n < tail then tail - n else tail;
    case Write(i, w) =>
      WriteKeepsOrder(m, tail, i, w);
      next := tail;
  }

  /** Payloads meet no header and no other payload, and stay inside the heap. */
  lemma PayloadsAreApart(m: Machine, tail: nat, j: nat, k: nat)
    requires InOrder(m, tail) && j < k < |m.live|
    ensures m.live[j].address + m.live[j].n <= m.live[k].address - 8 * HEADER
    ensures m.h.start + 8 * HEADER <= m.live[j].address
    ensures m.live[k].address + m.live[k].n <= Address(m.h, HEAP_WORDS) - 8 * HEADER
  {
    var sizes := Requested(m.live) + [tail];
    OffPrefix(Requested(m.live), [tail], j);
    OffPrefix(Requested(m.live), [tail], k);
    OffMonotone(sizes, j, k);
    OffMonotone(sizes, k, |sizes| - 1);
    OffStep(sizes, |sizes| - 1);
    OffEnds(sizes);
    assert sizes[|sizes| - 1] >= HEADER && sizes[k] == m.live[k].n && sizes[j] == m.live[j].n;
  }

  /** Word i lies in the payload of an allocation, whose block ends where the next begins. */
  ghost predicate InPayload(m: Machine, k: nat, i: nat) {
    k < |m.live| && Off(Requested(m.live), k) + HEADER <= i < Off(Requested(m.live), k) + m.live[k].n
  }

  /** A request changes no payload word: only kalloc's headers move. */
  lemma RequestKeepsPayloads(m: Machine, tail: nat, n: int, k: nat, i: nat)
    requires InOrder(m, tail) && Ready(m.h) && Legal(m, Request(n)) && InPayload(m, k, i)
    ensures i < |m.h.words| && Step(m, Request(n)).h.words[i] == m.h.words[i]
    ensures InPayload(Step(m, Request(n)), k, i)
  {
    hide Tiled, Off, Split, Sum;
    var sizes := Requested(m.live) + [tail];
    assert Last(sizes) == tail;
    TailOfTiling(m.h, sizes);
    TailFacts(m.h, sizes);
    PayloadBeforeTail(m, tail, k, i);
    if 0 <= n < tail {
      SplitWords(m.h, Off(sizes, |sizes| - 1), n, i);
      var a := Allocation(Address(m.h, Off(sizes, |sizes| - 1)) + 8 * HEADER, n);
      RequestedGrows(m.live, a, tail);
      assert Step(m, Request(n)).live == m.live + [a];
    }
  }

  lemma PayloadBeforeTail(m: Machine, tail: nat, k: nat, i: nat)
    requires InOrder(m, tail) && InPayload(m, k, i)
    ensures var sizes := Requested(m.live) + [tail]; i < Off(sizes, |sizes| - 1) <= |m.h.words|
  {
    hide Tiled, HeaderOk, Sum;
    var sizes := Requested(m.live) + [tail];
    OffPrefix(Requested(m.live), [tail], k);
    OffMonotone(sizes, k, |sizes| - 1);
    BlockOk(m.h, sizes, |sizes| - 1);
  }

  /** No event of the run writes word i. */
  predicate Untouched(es: seq<Event>, i: nat) {
    forall k | 0 <= k < |es| :: es[k].Write? ==> es[k].i != i
  }

  /** Over every legal run a payload word keeps its value until somebody writes it. */
  lemma {:induction false} RunKeepsPayloads(m: Machine, tail: nat, es: seq<Event>, k: nat, i: nat)
    requires InOrder(m, tail) && LegalRun(m, es) && InPayload(m, k, i) && Untouched(es, i)
    ensures i < |m.h.words| && i < |After(m, es).h.words| && After(m, es).h.words[i] == m.h.words[i]
    decreases |es|
  {
    hide InOrder, InPayload, Legal, Kalloc;
    PayloadInMemory(m, tail, k, i);
    if es != [] {
      var next := OneEvent(m, tail, es[0]);
      EventKeepsWord(m, tail, es[0], k, i);
      assert forall j | 0 <= j < |es| - 1 :: es[1..][j] == es[j + 1];
      RunKeepsPayloads(Step(m, es[0]), next, es[1..], k, i);
    }
  }

  lemma PayloadInMemory(m: Machine, tail: nat, k: nat, i: nat)
    requires InOrder(m, tail) && InPayload(m, k, i)
    ensures i < |m.h.words|
  {
    hide Tiled, Sum, Off;
    PayloadBeforeTail(m, tail, k, i);
  }

  lemma EventKeepsWord(m: Machine, tail: nat, e: Event, k: nat, i: nat)
    requires InOrder(m, tail) && Ready(m.h) && Legal(m, e) && InPayload(m, k, i) && (e.Write? ==> e.i != i)
    ensures i < |m.h.words| && i < |Step(m, e).h.words| && Step(m, e).h.words[i] == m.h.words[i]
    ensures InPayload(Step(m, e), k, i)
  {
    hide Tiled, Kalloc, Sum;
    PayloadInMemory(m, tail, k, i);
    match e
    case Request(n) =>
      SameLength(m, n);
      RequestKeepsPayloads(m, tail, n, k, i);
    case Write(j, w) =>
  }

  lemma SameLength(m: Machine, n: int)
    requires Ready(m.h) && Legal(m, Request(n))
    ensures |Step(m, Request(n)).h.words| == |m.h.words|
  {
  }

  // ---------- The fresh heap ----------

  lemma FreshHeapInOrder(h: Heap)
    requires Placed(h) && h.words[0] == HEAP_WORDS && h.words[1] % 256 == FREE && h.words[2] == 0 && h.free == h.start
    ensures InOrder(Machine(h, []), HEAP_WORDS) && Tiled(h, [HEAP_WORDS])
  {
    var sizes := Requested([]) + [HEAP_WORDS];
    assert sizes == [HEAP_WORDS];
    OffEnds(sizes);
  }
}
