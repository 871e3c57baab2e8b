/**
  The scheduler and the interrupt handler as the kernel writes them: four
  process slots and a counter, updated in place.
 */
module Scheduler {
  import opened Bits
  import opened Rotation
  import HB = HeapBlocks
  import KH = KernelHeap

  datatype Status = READY | RUNNING | DEAD

  const STACK_SIZE := 0x4000

  /** A slot's context as init_scheduler leaves it: seven fields set, the others as they were. */
  function Started(f: Frame, entry: Word, stackTop: Word): Frame {
    f.(rbp := 0, ss := 0x10, rsp := stackTop, flags := 0x202, cs := 0x8, rip := entry, rdi := 0)
  }

  /** Slot k holds the start of a process: its entry, a stack, interrupts enabled, the kernel's selectors. */
  ghost predicate Starts(s: Slots, k: nat, entry: Word, stackTop: Word)
    requires Rotation.Valid(s) && k < SLOTS
  {
    var f := s.contexts[k];
    && f.rip == entry && f.rsp == stackTop && f.rbp == 0 && f.rdi == 0
    && f.cs == 8 && f.ss == 16 && f.flags == 0x202
  }

  /** The fields of a started context, and that the other words stay. */
  lemma StartedIs(f: Frame, entry: Word, stackTop: Word)
    ensures var g := Started(f, entry, stackTop);
      && g.rip == entry && g.rsp == stackTop && g.rbp == 0 && g.rdi == 0 && g.cs == 8 && g.ss == 16 && g.flags == 0x202
      && g == f.(rip := g.rip, rsp := g.rsp, rbp := g.rbp, rdi := g.rdi, cs := g.cs, ss := g.ss, flags := g.flags)
  {
  }

  /** The first switch to slot 1, 2 or 3 enters that process on its own stack, whatever came before. */
  lemma FirstSwitchEnters(s: Slots, es: seq<Frame>, entry: Word, stackTop: Word)
    requires Rotation.Valid(s) && s.counter == 0 && 1 <= |es| <= 3 && es[|es| - 1].vector in [0x8, 0x20, 0x32]
    requires Starts(s, |es|, entry, stackTop)
    ensures var f := Resumed(s, es);
      f.rip == entry && f.rsp == stackTop && f.cs == 8 && f.flags == 0x202 && f == s.contexts[|es|]
  {
    hide Resumed, Rotation.Run;
    SwitchResumes(s, es);
  }

  /** What one more stack leaves of the last block, where the free pointer goes, and the top it gives. */
  function LeftAfter(last: nat): nat {
    if last > STACK_SIZE then last - STACK_SIZE else last
  }

  function FreeAfter(last: nat, free: nat): nat {
    if last > STACK_SIZE then free + 8 * STACK_SIZE else free
  }

  function TopFor(last: nat, free: nat): nat {
    (if last > STACK_SIZE then free + 8 * HB.HEADER else 0) + STACK_SIZE
  }

  /** The three tops are addresses. */
  predicate RspFits(last: nat, free: nat) {
    && TopFor(last, free) < WORD_LIMIT
    && TopFor(LeftAfter(last), FreeAfter(last, free)) < WORD_LIMIT
    && TopFor(LeftAfter(LeftAfter(last)), FreeAfter(LeftAfter(last), FreeAfter(last, free))) < WORD_LIMIT
  }

  /** None of the three requests breaks the heap; a free block of a multiple of 4 words always has this. */
  predicate StacksSafe(last: nat) {
    && HB.Safe(last, STACK_SIZE) && HB.Safe(LeftAfter(last), STACK_SIZE)
    && HB.Safe(LeftAfter(LeftAfter(last)), STACK_SIZE)
  }

  lemma MultiplesOfFourAreSafe(last: nat)
    requires last % 4 == 0
    ensures StacksSafe(last)
  {
  }

  class Scheduler {
    const contexts: array<Frame>
    const status: array<Status>
    var counter: nat
    var val: int

    ghost predicate Valid()
      reads `counter, contexts, status
    {
      contexts.Length == SLOTS && status.Length == SLOTS && counter < SLOTS
    }

    ghost function State(): Slots
      reads this, contexts
    {
      Slots(contexts[..], counter, val)
    }

    constructor ()
      ensures Valid() && fresh(contexts) && fresh(status)
      ensures State() == Slots([Rotation.ZeroFrame(), Rotation.ZeroFrame(), Rotation.ZeroFrame(), Rotation.ZeroFrame()], 0, 1)
    {
      contexts := new Frame[SLOTS](_ => Rotation.ZeroFrame());
      status := new Status[SLOTS](_ => READY);
      counter, val := 0, 1;
    }

    /**
      The top of a fresh stack: 0x4000 bytes above what kalloc returned, which is not checked.  Without room for it
      the stack top is 0x4000.
     */
    method AllocStack(heap: KH.KernelHeap) returns (top: Word)
      requires heap.Valid()
      modifies heap, heap.mem
      ensures heap.heapStart == old(heap.heapStart)
      ensures HB.Ready(old(heap.State())) && heap.State() == HB.Kalloc(old(heap.State()), STACK_SIZE).0
      ensures HB.Safe(old(HB.Last(heap.sizes)), STACK_SIZE) ==>
                heap.Valid() && heap.sizes == HB.SizesAfter(old(heap.sizes), STACK_SIZE)
      ensures old(HB.Last(heap.sizes)) >= STACK_SIZE + HB.HEADER ==>
                heap.Valid() && heap.sizes != [] && HB.Last(heap.sizes) == old(HB.Last(heap.sizes)) - STACK_SIZE
      ensures top == (if old(HB.Last(heap.sizes)) > 0x4000 then old(heap.freePtr) + 24 else 0) + 0x4000
      ensures old(HB.Last(heap.sizes)) > 0x4000 ==> heap.freePtr == old(heap.freePtr) + 8 * 0x4000
      ensures old(HB.Last(heap.sizes)) <= STACK_SIZE ==> heap.State() == old(heap.State())
    {
      hide HB.Split, HB.Tiled;
      FreePointer(heap);
      SplitMoves(heap, STACK_SIZE);
      var allocation := heap.Kalloc(STACK_SIZE);
      top := allocation + STACK_SIZE;
    }

    /** One of the three identical blocks: a slot gets a stack, an entry point and a flags word. */
    method StartProcess(slot: nat, heap: KH.KernelHeap, entry: Word)
      requires Valid() && slot < SLOTS && heap.Valid() && HB.Safe(HB.Last(heap.sizes), STACK_SIZE)
      requires contexts as object !in {heap, heap.mem} && status as object !in {heap, heap.mem}
      modifies contexts, status, heap, heap.mem
      ensures Valid() && heap.Valid() && heap.sizes != [] && heap.heapStart == old(heap.heapStart)
      ensures HB.Last(heap.sizes) == LeftAfter(old(HB.Last(heap.sizes)))
      ensures heap.freePtr == FreeAfter(old(HB.Last(heap.sizes)), old(heap.freePtr))
      ensures TopFor(old(HB.Last(heap.sizes)), old(heap.freePtr)) < WORD_LIMIT
      ensures contexts[..] == old(contexts[..])[slot :=
                Started(old(contexts[slot]), entry, TopFor(old(HB.Last(heap.sizes)), old(heap.freePtr)))]
      ensures status[..] == old(status[..])[slot := READY]
    {
      hide HB.Tiled, HB.Kalloc, HB.Ready, HB.Split, HB.Sum;
      FreePointer(heap);
      status[slot] := READY;
      var c := contexts[slot];
      var top := AllocStack(heap);
      FreePointer(heap);
      contexts[slot] := c.(rbp := 0, ss := 0x10, rsp := top, flags := 0x202, cs := 0x8, rip := entry, rdi := 0);
    }

    /**
      Slots 3, 1 and 2 are started in that order; slot 0 is the code that is running.  With room for three stacks they
      are disjoint and inside the heap; with room for none all three processes share the stack below 0x4000.
     */
    method InitScheduler(heap: KH.KernelHeap, processA: Word, processB: Word, processC: Word)
      requires Valid() && heap.Valid() && StacksSafe(HB.Last(heap.sizes))
      requires contexts as object !in {heap, heap.mem} && status as object !in {heap, heap.mem}
      modifies contexts, status, heap, heap.mem
      ensures Valid() && heap.Valid() && counter == old(counter) && val == old(val)
      ensures var l, p := old(HB.Last(heap.sizes)), old(heap.freePtr);
        && RspFits(l, p)
        && contexts[0] == old(contexts[0])
        && contexts[3] == Started(old(contexts[3]), processC, TopFor(l, p))
        && contexts[1] == Started(old(contexts[1]), processA, TopFor(LeftAfter(l), FreeAfter(l, p)))
        && contexts[2] == Started(old(contexts[2]), processB,
                                  TopFor(LeftAfter(LeftAfter(l)), FreeAfter(LeftAfter(l), FreeAfter(l, p))))
      ensures status[..] == old(status[..])[1 := READY][2 := READY][3 := READY]
      ensures var l, p := old(HB.Last(heap.sizes)), old(heap.freePtr);
        && Starts(State(), 3, processC, TopFor(l, p)) && Starts(State(), 1, processA, TopFor(LeftAfter(l), FreeAfter(l, p)))
        && Starts(State(), 2, processB, TopFor(LeftAfter(LeftAfter(l)), FreeAfter(LeftAfter(l), FreeAfter(l, p))))
      ensures old(HB.Last(heap.sizes)) > 3 * STACK_SIZE ==>
                && contexts[3].rsp - STACK_SIZE == old(heap.freePtr) + 8 * HB.HEADER
                && contexts[3].rsp + 8 * HB.HEADER <= contexts[1].rsp - STACK_SIZE
                && contexts[1].rsp + 8 * HB.HEADER <= contexts[2].rsp - STACK_SIZE
                && contexts[2].rsp + 8 * HB.HEADER <= HB.Address(heap.State(), HB.HEAP_WORDS)
      ensures old(HB.Last(heap.sizes)) <= STACK_SIZE ==> contexts[1].rsp == contexts[2].rsp == contexts[3].rsp == STACK_SIZE
    {
      hide HB.Tiled, HB.Safe, HB.Sum;
      StartProcess(3, heap, processC);
      StartProcess(1, heap, processA);
      StartProcess(2, heap, processB);
      FreePointer(heap);
    }

    method SaveContext(current: Frame)
      requires Valid()
      modifies `counter, contexts, status
      ensures Valid() && State() == Save(old(State()), current)
      ensures status[..] == old(status[..])[old(counter) := READY]
    {
      hide Rotation.Run;
      status[counter] := READY;
      var c := contexts[counter];
      contexts[counter] := c.(
        r15 := current.r15, r14 := current.r14, r13 := current.r13, r12 := current.r12,
        r11 := current.r11, r10 := current.r10, r9 := current.r9, r8 := current.r8,
        rbp := current.rbp, rdi := current.rdi, rsi := current.rsi, rdx := current.rdx, rcx := current.rcx, rax := current.rax,
        rip := current.rip, cs := current.cs, flags := current.flags, rsp := current.rsp, ss := current.ss);
      if counter == 3 {
        counter := 0;
      } else {
        counter := counter + 1;
      }
    }

    /** The context of the slot counter names; the frame it is given is not looked at. */
    method Schedule(current: Frame) returns (next: Frame)
      requires Valid()
      ensures next == State().contexts[State().counter]
    {
      next := contexts[counter];
    }

    /** Saves first, then looks at the vector; the result is the frame the stub pops. */
    method InterruptGeneralHandler(context: Frame) returns (resumed: Frame)
      requires Valid()
      modifies `counter, `val, contexts, status
      ensures Valid() && (State(), resumed) == Handle(old(State()), context)
      ensures context.vector !in [0x8, 0x20, 0x32] ==> resumed == context
      ensures status[..] == old(status[..])[old(counter) := READY]
    {
      SaveContext(context);
      if context.vector == 0x8 || context.vector == 0x20 || context.vector == 0x32 {
        val := val + 1;
        resumed := Schedule(context);
        return;
      }
      return context;
    }
  }

  /** The free pointer of a heap in order names the last block. */
  lemma FreePointer(heap: KH.KernelHeap)
    requires heap.Valid()
    ensures heap.sizes != []
    ensures heap.freePtr == HB.Address(heap.State(), HB.Off(heap.sizes, |heap.sizes| - 1))
    ensures HB.Off(heap.sizes, |heap.sizes| - 1) + HB.Last(heap.sizes) == HB.HEAP_WORDS
    ensures heap.freePtr + 8 * HB.Last(heap.sizes) < WORD_LIMIT
  {
    HB.TailFacts(heap.State(), heap.sizes);
  }

  /** A request the last block can serve moves the free pointer by the words asked for. */
  lemma SplitMoves(heap: KH.KernelHeap, n: nat)
    requires heap.Valid() && HB.IsInt(n)
    ensures var h := heap.State();
      && HB.Ready(h) && HB.Size(h, HB.Offset(h, h.free)) == HB.Last(heap.sizes)
      && HB.Address(h, HB.Offset(h, h.free)) == h.free
      && (HB.Last(heap.sizes) > n ==> HB.Kalloc(h, n).0.free == h.free + 8 * n)
  {
    FreePointer(heap);
    HB.TailFacts(heap.State(), heap.sizes);
  }
}
