/**
  Round-robin switching as a state machine.  An interrupt pushes the running
  process's registers as a frame; the handler saves the frame in slot counter,
  advances counter, and then either resumes the frame of the new slot or
  returns to the frame it was given.  Between interrupts the running process
  may do anything to its registers, so a run is an arbitrary sequence of
  frames.
 */
module Rotation {
  import opened Bits

  const SLOTS := 4

  /** The registers the stub pushes, the vector and error code, and the frame the processor pushes. */
  datatype Frame = Frame(
    r15: Word, r14: Word, r13: Word, r12: Word, r11: Word, r10: Word, r9: Word, r8: Word,
    rbp: Word, rdi: Word, rsi: Word, rdx: Word, rcx: Word, rbx: Word, rax: Word,
    vector: Word, error: Word,
    rip: Word, cs: Word, flags: Word, rsp: Word, ss: Word)

  /** All zero bits, as the slots are before anything is stored in them. */
  function ZeroFrame(): Frame {
    Frame(0, 0, 0, 0, 0, 0, 0, 0, 0, 0, 0, 0, 0, 0, 0, 0, 0, 0, 0, 0, 0, 0)
  }

  datatype Slots = Slots(contexts: seq<Frame>, counter: nat, ticks: int)

  predicate Valid(s: Slots) {
    |s.contexts| == SLOTS && s.counter < SLOTS
  }

  /** The vectors on which the handler switches. */
  predicate Switching(f: Frame) {
    f.vector == 0x8 || f.vector == 0x20 || f.vector == 0x32
  }

  /** save_context copies everything but rbx, the vector and the error code. */
  function Saved(slot: Frame, current: Frame): Frame {
    current.(rbx := slot.rbx, vector := slot.vector, error := slot.error)
  }

  /** Equal in the nineteen words save_context copies. */
  predicate SameContext(f: Frame, g: Frame) {
    && f.r15 == g.r15 && f.r14 == g.r14 && f.r13 == g.r13 && f.r12 == g.r12
    && f.r11 == g.r11 && f.r10 == g.r10 && f.r9 == g.r9 && f.r8 == g.r8
    && f.rbp == g.rbp && f.rdi == g.rdi && f.rsi == g.rsi && f.rdx == g.rdx && f.rcx == g.rcx && f.rax == g.rax
    && f.rip == g.rip && f.cs == g.cs && f.flags == g.flags && f.rsp == g.rsp && f.ss == g.ss
  }

  /** Equal in the three it does not. */
  predicate SameRest(f: Frame, g: Frame) {
    f.rbx == g.rbx && f.vector == g.vector && f.error == g.error
  }

  /** A saved slot has the context of the interrupted process and keeps the rest. */
  lemma SavedIs(slot: Frame, current: Frame)
    ensures SameContext(Saved(slot, current), current) && SameRest(Saved(slot, current), slot)
  {
  }

  function Save(s: Slots, current: Frame): Slots
    requires Valid(s)
  {
    s.(contexts := s.contexts[s.counter := Saved(s.contexts[s.counter], current)],
       counter := if s.counter == 3 then 0 else s.counter + 1)
  }

  /** The handler: the new state, and the frame execution goes on with. */
  function Handle(s: Slots, current: Frame): (Slots, Frame)
    requires Valid(s)
  {
    var t := Save(s, current);
    if Switching(current) then (t.(ticks := t.ticks + 1), t.contexts[t.counter]) else (t, current)
  }

  // ---------- Runs ----------

  function Run(s: Slots, es: seq<Frame>): (t: Slots)
    requires Valid(s)
    ensures Valid(t)
  {
    if es == [] then s else Handle(Run(s, es[..|es| - 1]), es[|es| - 1]).0
  }

  /** The frame execution goes on with after the last interrupt of a run. */
  function Resumed(s: Slots, es: seq<Frame>): Frame
    requires Valid(s) && es != []
  {
    Handle(Run(s, es[..|es| - 1]), es[|es| - 1]).1
  }

  /** The slot whose process is on the processor: the one counter named when the handler last switched. */
  function Running(s: Slots, es: seq<Frame>): nat
    requires Valid(s)
  {
    if es == [] || Switching(es[|es| - 1]) then Run(s, es).counter
    else Running(s, es[..|es| - 1])
  }

  /** Non-switching interrupts since the last switch. */
  function Drift(es: seq<Frame>): nat {
    if es == [] || Switching(es[|es| - 1]) then 0 else Drift(es[..|es| - 1]) + 1
  }

  // ---------- Every run ----------

  /** counter is the number of interrupts handled so far, modulo 4, whatever their vectors were. */
  lemma {:induction false} CounterCountsInterrupts(s: Slots, es: seq<Frame>)
    requires Valid(s) && s.counter == 0
    ensures Run(s, es).counter == |es| % SLOTS
  {
    if es != [] {
      CounterCountsInterrupts(s, es[..|es| - 1]);
    }
  }

  /** counter runs ahead of the running slot by the non-switching interrupts since the last switch. */
  lemma {:induction false} CounterDrifts(s: Slots, es: seq<Frame>)
    requires Valid(s) && s.counter == 0
    ensures Running(s, es) < SLOTS
    ensures (Run(s, es).counter - Running(s, es)) % SLOTS == Drift(es) % SLOTS
  {
    hide Run;
    CounterCountsInterrupts(s, es);
    if es != [] && !Switching(es[|es| - 1]) {
      CounterCountsInterrupts(s, es[..|es| - 1]);
      CounterDrifts(s, es[..|es| - 1]);
      OneFurther(|es| - 1, Running(s, es[..|es| - 1]), Drift(es[..|es| - 1]));
    }
  }

  lemma OneFurther(n: nat, r: nat, d: nat)
    requires (n % SLOTS - r) % SLOTS == d % SLOTS
    ensures ((n + 1) % SLOTS - r) % SLOTS == (d + 1) % SLOTS
  {
  }

  lemma NearbyDiffer(j: nat, n: nat)
    requires j < n < j + SLOTS
    ensures n % SLOTS != j % SLOTS
  {
  }

  lemma NoInterrupts(s: Slots)
    requires Valid(s)
    ensures Run(s, []) == s
  {
  }

  lemma RunLast(s: Slots, es: seq<Frame>)
    requires Valid(s) && es != []
    ensures var b := Run(s, es[..|es| - 1]);
      Run(s, es).contexts == b.contexts[b.counter := Saved(b.contexts[b.counter], es[|es| - 1])]
  {
  }

  lemma SavedOver(slot: Frame, other: Frame, current: Frame)
    requires slot.rbx == other.rbx && slot.vector == other.vector && slot.error == other.error
    ensures Saved(slot, current) == Saved(other, current)
    ensures Saved(slot, current).rbx == slot.rbx
    ensures Saved(slot, current).vector == slot.vector && Saved(slot, current).error == slot.error
  {
  }

  /** save_context never writes the rbx, vector and error words of a slot. */
  lemma {:induction false} UncopiedWordsStay(s: Slots, es: seq<Frame>, k: nat)
    requires Valid(s) && k < SLOTS
    ensures var c := Run(s, es).contexts[k];
      c.rbx == s.contexts[k].rbx && c.vector == s.contexts[k].vector && c.error == s.contexts[k].error
  {
    hide Run, Saved;
    if es != [] {
      var b := Run(s, es[..|es| - 1]);
      UncopiedWordsStay(s, es[..|es| - 1], k);
      RunLast(s, es);
      SavedOver(b.contexts[b.counter], b.contexts[b.counter], es[|es| - 1]);
    } else {
      NoInterrupts(s);
    }
  }

  /** After n + 1 interrupts slot n mod 4 has the last frame, and the other slots what they had. */
  lemma LastSaveContents(s: Slots, es: seq<Frame>, k: nat)
    requires Valid(s) && s.counter == 0 && k < SLOTS && es != []
    ensures var n := |es| - 1;
      Run(s, es).contexts[k] == if k == n % SLOTS then Saved(s.contexts[k], es[n]) else Run(s, es[..n]).contexts[k]
  {
    hide Run, Saved;
    var b := Run(s, es[..|es| - 1]);
    CounterCountsInterrupts(s, es[..|es| - 1]);
    UncopiedWordsStay(s, es[..|es| - 1], k);
    RunLast(s, es);
    SavedOver(b.contexts[k], s.contexts[k], es[|es| - 1]);
  }

  /** A slot holds the frame of the latest interrupt whose number is the slot's, modulo 4. */
  lemma {:induction false} SlotHoldsLatest(s: Slots, es: seq<Frame>, j: nat)
    requires Valid(s) && s.counter == 0 && j < |es| <= j + SLOTS
    ensures Run(s, es).contexts[j % SLOTS] == Saved(s.contexts[j % SLOTS], es[j])
    ensures var c := Run(s, es).contexts[j % SLOTS]; SameContext(c, es[j]) && SameRest(c, s.contexts[j % SLOTS])
    decreases |es|
  {
    hide Run, Saved, SameContext, SameRest;
    SavedIs(s.contexts[j % SLOTS], es[j]);
    LastSaveContents(s, es, j % SLOTS);
    if j < |es| - 1 {
      SlotHoldsLatest(s, es[..|es| - 1], j);
      NearbyDiffer(j, |es| - 1);
    }
  }

  /** A slot whose turn has not come holds what it started with. */
  lemma {:induction false} SlotHoldsInitial(s: Slots, es: seq<Frame>, k: nat)
    requires Valid(s) && s.counter == 0 && |es| <= k < SLOTS
    ensures Run(s, es).contexts[k] == s.contexts[k]
    decreases |es|
  {
    hide Run, Saved;
    if es != [] {
      LastSaveContents(s, es, k);
      SlotHoldsInitial(s, es[..|es| - 1], k);
    } else {
      NoInterrupts(s);
    }
  }

  lemma SwitchLoadsSlot(s: Slots, es: seq<Frame>)
    requires Valid(s) && es != [] && Switching(es[|es| - 1])
    ensures Resumed(s, es) == Run(s, es).contexts[Run(s, es).counter]
  {
  }

  /**
    A switch resumes the frame captured three interrupts earlier or, for the first three, the initial context of its
    slot; rbx is always the initial one.
   */
  lemma SwitchResumes(s: Slots, es: seq<Frame>)
    requires Valid(s) && s.counter == 0 && es != [] && Switching(es[|es| - 1])
    ensures var k := |es| % SLOTS;
      && (|es| >= SLOTS ==> SameContext(Resumed(s, es), es[|es| - SLOTS]) && SameRest(Resumed(s, es), s.contexts[k]))
      && (|es| < SLOTS ==> Resumed(s, es) == s.contexts[k])
      && Resumed(s, es).rbx == s.contexts[k].rbx
  {
    hide Run, Resumed, Saved;
    CounterCountsInterrupts(s, es);
    SwitchLoadsSlot(s, es);
    if |es| >= SLOTS {
      assert (|es| - SLOTS) % SLOTS == |es| % SLOTS;
      SlotHoldsLatest(s, es, |es| - SLOTS);
    } else {
      SlotHoldsInitial(s, es, |es| % SLOTS);
    }
  }

  /** A vector that does not switch returns to what it interrupted, to the last word. */
  lemma OthersReturn(s: Slots, es: seq<Frame>)
    requires Valid(s) && es != [] && es[|es| - 1].vector !in [0x8, 0x20, 0x32]
    ensures Resumed(s, es) == es[|es| - 1]
  {
    hide Run;
  }

  /**
    After any interrupt of any run, drift or not, execution goes on with the interrupted frame, and then the same
    process stays on the processor, or with the frame in the slot of the process that is on it from then on.
   */
  lemma ResumedIsRunning(s: Slots, es: seq<Frame>)
    requires Valid(s) && es != []
    ensures if es[|es| - 1].vector in [0x8, 0x20, 0x32] then
              Running(s, es) == Run(s, es).counter && Resumed(s, es) == Run(s, es).contexts[Running(s, es)]
            else Running(s, es) == Running(s, es[..|es| - 1]) && Resumed(s, es) == es[|es| - 1]
  {
    hide Run;
    if es[|es| - 1].vector in [0x8, 0x20, 0x32] {
      SwitchLoadsSlot(s, es);
    } else {
      OthersReturn(s, es);
    }
  }

  /** The interrupts of a run on which the handler switches. */
  function Switches(es: seq<Frame>): nat {
    if es == [] then 0
    else Switches(es[..|es| - 1]) + if es[|es| - 1].vector in [0x8, 0x20, 0x32] then 1 else 0
  }

  /** The tick count grows by one on each of them. */
  lemma {:induction false} TicksCountSwitches(s: Slots, es: seq<Frame>)
    requires Valid(s)
    ensures Run(s, es).ticks == s.ticks + Switches(es)
  {
    if es != [] {
      TicksCountSwitches(s, es[..|es| - 1]);
    }
  }

  // ---------- Runs of switching vectors ----------

  ghost predicate AllSwitching(es: seq<Frame>) {
    forall j | 0 <= j < |es| :: Switching(es[j])
  }

  /** The latest interrupt before the n-th that preempted process p. */
  ghost predicate LastPreemption(s: Slots, es: seq<Frame>, n: nat, p: nat, j: nat)
    requires Valid(s) && n <= |es|
  {
    j < n && Running(s, es[..j]) == p && forall i | j < i < n :: Running(s, es[..i]) != p
  }

  lemma SwitchingRuns(s: Slots, es: seq<Frame>, j: nat)
    requires Valid(s) && s.counter == 0 && AllSwitching(es) && j <= |es|
    ensures Running(s, es[..j]) == j % SLOTS
  {
    hide Run;
    CounterCountsInterrupts(s, es[..j]);
    if j > 0 {
      assert es[..j][j - 1] == es[j - 1];
    }
  }

  lemma PreemptionIsFourBack(s: Slots, es: seq<Frame>, j: nat)
    requires Valid(s) && s.counter == 0 && AllSwitching(es)
    ensures LastPreemption(s, es, |es|, |es| % SLOTS, j) <==> j + SLOTS == |es|
  {
    hide Running;
    var n := |es|;
    forall i | 0 <= i <= n
      ensures Running(s, es[..i]) == i % SLOTS
    {
      SwitchingRuns(s, es, i);
    }
    assert n >= SLOTS ==> Running(s, es[..n - SLOTS]) == n % SLOTS;
    assert forall i | 0 <= i < n && Running(s, es[..i]) == n % SLOTS :: i + SLOTS <= n;
  }

  /**
    Context preservation: when all vectors switch, process k mod 4 runs after interrupt k, and a process that was
    preempted before resumes with the context captured at its last preemption, all but rbx; one that was not resumes
    with its initial context.
   */
  lemma ContextsArePreserved(s: Slots, es: seq<Frame>)
    requires Valid(s) && s.counter == 0 && es != [] && AllSwitching(es)
    ensures Running(s, es) == |es| % SLOTS
    ensures forall j: nat | LastPreemption(s, es, |es|, Running(s, es), j) ::
              SameContext(Resumed(s, es), es[j]) && SameRest(Resumed(s, es), s.contexts[Running(s, es)])
    ensures (forall j: nat :: !LastPreemption(s, es, |es|, Running(s, es), j)) ==>
              Resumed(s, es) == s.contexts[Running(s, es)]
  {
    hide Resumed, LastPreemption, Running;
    SwitchingRuns(s, es, |es|);
    assert es[..|es|] == es;
    SwitchResumes(s, es);
    forall j: nat
      ensures LastPreemption(s, es, |es|, |es| % SLOTS, j) <==> j + SLOTS == |es|
    {
      PreemptionIsFourBack(s, es, j);
    }
    if |es| >= SLOTS {
      assert LastPreemption(s, es, |es|, |es| % SLOTS, |es| - SLOTS);
    }
  }

  /** Equal in every register the stub pops: all but the vector and the error code. */
  predicate SameRegisters(f: Frame, g: Frame) {
    f.(vector := g.vector, error := g.error) == g
  }

  /**
    A preempted process gets all its registers back if and only if rbx was, at its last preemption, what the slot
    started with.
   */
  lemma AllRegistersReturnIff(s: Slots, es: seq<Frame>, j: nat)
    requires Valid(s) && s.counter == 0 && es != [] && AllSwitching(es)
    requires LastPreemption(s, es, |es|, Running(s, es), j)
    ensures SameRegisters(Resumed(s, es), es[j]) <==> es[j].rbx == s.contexts[Running(s, es)].rbx
  {
    hide Resumed, LastPreemption, Running;
    ContextsArePreserved(s, es);
  }

  /** A full rotation of timer interrupts from zeroed slots: process 0 comes back with rbx 0 instead of 7. */
  lemma RbxIsLost(s: Slots, f: Frame)
    requires s == Slots([ZeroFrame(), ZeroFrame(), ZeroFrame(), ZeroFrame()], 0, 1)
    requires f == ZeroFrame().(vector := 0x20, rbx := 7)
    ensures LastPreemption(s, [f, f, f, f], 4, 0, 0) && Running(s, [f, f, f, f]) == 0
    ensures Resumed(s, [f, f, f, f]).rbx == 0 && !SameRegisters(Resumed(s, [f, f, f, f]), f)
  {
    hide Resumed, LastPreemption, Running;
    PreemptionIsFourBack(s, [f, f, f, f], 0);
    ContextsArePreserved(s, [f, f, f, f]);
  }

  // ---------- Exactly when frames go to their own slot ----------

  /** Interrupt j stores its frame in the slot of the process it interrupted. */
  predicate SavesOwnSlot(s: Slots, es: seq<Frame>, j: nat)
    requires Valid(s) && j < |es|
  {
    Running(s, es[..j]) == Run(s, es[..j]).counter
  }

  /** One interrupt saves to its own slot if and only if the drift it meets is a multiple of 4. */
  lemma OwnSlotIffNoDrift(s: Slots, es: seq<Frame>, j: nat)
    requires Valid(s) && s.counter == 0 && j < |es|
    ensures SavesOwnSlot(s, es, j) <==> Drift(es[..j]) % SLOTS == 0
  {
    hide Run, Running;
    CounterDrifts(s, es[..j]);
  }

  /** Every frame of a run goes to its own slot if and only if every interrupt but the last one switches. */
  lemma FramesStayHomeIffSwitching(s: Slots, es: seq<Frame>)
    requires Valid(s) && s.counter == 0
    ensures (forall j | 0 <= j < |es| :: SavesOwnSlot(s, es, j)) <==> (forall j | 0 <= j < |es| - 1 :: Switching(es[j]))
  {
    hide Run, Drift;
    forall j | 0 <= j < |es|
      ensures SavesOwnSlot(s, es, j) <==> Drift(es[..j]) % SLOTS == 0
    {
      OwnSlotIffNoDrift(s, es, j);
    }
    forall j | 0 < j < |es|
      ensures Drift(es[..j]) == if Switching(es[j - 1]) then 0 else Drift(es[..j - 1]) + 1
    {
      DriftStep(es, j);
    }
    assert Drift(es[..0]) == 0 by { DriftStep(es, 0); }
    if forall j | 0 <= j < |es| :: SavesOwnSlot(s, es, j) {
      forall j | 0 <= j < |es| - 1
        ensures Switching(es[j])
      {
        assert SavesOwnSlot(s, es, j) && SavesOwnSlot(s, es, j + 1);
      }
    }
  }

  lemma DriftStep(es: seq<Frame>, j: nat)
    requires j <= |es|
    ensures Drift(es[..j]) == if j == 0 || Switching(es[j - 1]) then 0 else Drift(es[..j - 1]) + 1
  {
    if j > 0 {
      assert es[..j][..j - 1] == es[..j - 1];
    }
  }

  /** After one non-switching interrupt the next frame of the same process overwrites another process's context. */
  lemma OneOtherVectorOverwritesNeighbour(s: Slots, es: seq<Frame>)
    requires Valid(s) && s.counter == 0 && |es| == 2 && !Switching(es[0])
    ensures Running(s, es[..1]) == 0 && Run(s, es).contexts[1] == Saved(s.contexts[1], es[1])
  {
    assert es[..1][..0] == [];
    SlotHoldsLatest(s, es, 1);
  }
}
