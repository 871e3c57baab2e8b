/**
  alloc(n) of the virtual memory manager: take frames one by one and map each
  at its own address.  Mapping a frame may itself take up to three tables from
  the same pool, so consecutive frames are one to four frames apart, and
  exactly adjacent when the pool is already mapped.  When the pool gives out,
  every further frame is number 0.
 */
module DataFrames {
  import opened Bits
  import opened PageWords
  import opened PageTable
  import opened Exhaustion
  import opened PagingRuns
  import opened KernelSpace

  /** One round of alloc: the new state and the frame taken. */
  function TakeAndMap(s: Paging): (Paging, nat) {
    var (pool, f) := Allocate(s.pool);
    (MapPage(s.(pool := pool), FrameAddress(f), FrameAddress(f)), f)
  }

  /** n rounds, and the frames taken, in order. */
  function Take(s: Paging, n: nat): (Paging, seq<nat>) {
    if n == 0 then (s, [])
    else
      var (t, fs) := Take(s, n - 1);
      var (u, f) := TakeAndMap(t);
      (u, fs + [f])
  }

  function AfterGrab(s: Paging): Paging {
    Step(s, Grab)
  }

  /** The pool lasts for n rounds. */
  ghost predicate Feeds(s: Paging, n: nat) {
    n == 0 || (Feeds(s, n - 1) && RoundFits(Take(s, n - 1).0))
  }

  ghost predicate RoundFits(s: Paging) {
    && s.pool.Free() > 0
    && Missing(AfterGrab(s), FrameAddress(s.pool.base + s.pool.used)) < s.pool.Free()
  }

  /** The first of the frames whose own address lies in the page. */
  function IdentityIn(fs: seq<nat>, page: nat): Option<nat> {
    if fs == [] then None
    else
      var before, f := IdentityIn(fs[..|fs| - 1], page), fs[|fs| - 1];
      if before.None? && page == f % PAGE_LIMIT then Some(f) else before
  }

  /** Of frames with 36-bit numbers that is the frame of the page's own number. */
  lemma {:induction false} IdentityOfPage(fs: seq<nat>, page: nat)
    requires forall k | 0 <= k < |fs| :: fs[k] < PAGE_LIMIT
    ensures IdentityIn(fs, page) == if page in fs then Some(page) else None
  {
    if fs != [] {
      var before, f := fs[..|fs| - 1], fs[|fs| - 1];
      assert fs == before + [f];
      IdentityOfPage(before, page);
    }
  }

  /** What was translated still is, and the frames are mapped at their own addresses where nothing was; no more. */
  ghost predicate AddsIdentity(s: Paging, t: Paging, fs: seq<nat>) {
    forall va: Word :: Walk(t, va) == if Walk(s, va).Some? then Walk(s, va) else IdentityIn(fs, PageOf(va))
  }

  /** One round: the next frame of the pool, and at most three tables after it. */
  ghost predicate RoundEffect(s: Paging, t: Paging, f: nat) {
    && Owned(t) && f == s.pool.base + s.pool.used
    && t.pool == s.pool.(used := t.pool.used) && s.pool.used + 1 <= t.pool.used <= s.pool.used + 4
    && AddsIdentity(s, t, [f])
  }

  lemma RoundStep(s: Paging)
    requires Owned(s) && RoundFits(s)
    ensures RoundEffect(s, TakeAndMap(s).0, TakeAndMap(s).1)
  {
    hide NextTable, TableAt, FrameAddress, MapPage, PathOf, PageOf, FrameOf;
    var f := s.pool.base + s.pool.used;
    var g := AfterGrab(s);
    GrabKeepsOwned(s);
    assert g == s.(pool := Allocate(s.pool).0);
    var t := MapPage(g, FrameAddress(f), FrameAddress(f));
    MapPageStep(g, FrameAddress(f), FrameAddress(f));
    FrameAddressPage(f);
    assert IdentityIn([f][..0], 0) == None;
    forall va: Word
      ensures Walk(t, va) == if Walk(s, va).Some? then Walk(s, va) else IdentityIn([f], PageOf(va))
    {
      PathsArePages(va, FrameAddress(f));
      assert Walk(g, va) == Walk(s, va) && [f][..0] == [];
    }
  }

  /**
    n rounds: consecutive frames are one to four frames apart, they are mapped at their own addresses, and no other
    translation changes.
   */
  ghost predicate TakeEffect(s: Paging, t: Paging, fs: seq<nat>) {
    && Owned(t) && t.pool == s.pool.(used := t.pool.used) && AddsIdentity(s, t, fs)
    && s.pool.used + |fs| <= t.pool.used <= s.pool.used + 4 * |fs|
    && (fs != [] ==> fs[0] == s.pool.base + s.pool.used)
    && (forall k | 0 < k < |fs| :: fs[k - 1] < fs[k] <= fs[k - 1] + 4)
    && (fs != [] ==> fs[|fs| - 1] < t.pool.base + t.pool.used <= fs[|fs| - 1] + 4)
  }

  lemma {:induction false} FramesAreCloseTogether(s: Paging, n: nat)
    requires Owned(s) && Feeds(s, n)
    ensures TakeEffect(s, Take(s, n).0, Take(s, n).1) && |Take(s, n).1| == n
  {
    hide MapPage;
    if n > 0 {
      FramesAreCloseTogether(s, n - 1);
      var t, fs := Take(s, n - 1).0, Take(s, n - 1).1;
      RoundStep(t);
      OneMoreRound(s, t, fs, TakeAndMap(t).0, TakeAndMap(t).1);
    }
  }

  lemma OneMoreRound(s: Paging, t: Paging, fs: seq<nat>, u: Paging, f: nat)
    requires TakeEffect(s, t, fs) && RoundEffect(t, u, f)
    ensures TakeEffect(s, u, fs + [f])
  {
    hide TableAt, PathOf, FrameAddress, Owned;
    assert (fs + [f])[..|fs|] == fs && [f][..0] == [];
    forall va: Word
      ensures Walk(u, va) == if Walk(s, va).Some? then Walk(s, va) else IdentityIn(fs + [f], PageOf(va))
    {
      assert Walk(t, va) == if Walk(s, va).Some? then Walk(s, va) else IdentityIn(fs, PageOf(va));
      assert Walk(u, va) == if Walk(t, va).Some? then Walk(t, va) else IdentityIn([f], PageOf(va));
    }
  }

  // ---------- The rounds as requests ----------

  /** For each frame, taking it and mapping it at its own address. */
  function TakeRequests(fs: seq<nat>): seq<Request> {
    if fs == [] then []
    else
      var f := fs[|fs| - 1];
      TakeRequests(fs[..|fs| - 1]) + [Grab] + [Map(FrameAddress(f), FrameAddress(f))]
  }

  /** n rounds are a run, so that everything proved about runs holds after them. */
  lemma {:induction false} TakeIsRun(s: Paging, n: nat)
    ensures Take(s, n).0 == Run(s, TakeRequests(Take(s, n).1))
  {
    hide MapPage, FrameAddress;
    if n > 0 {
      TakeIsRun(s, n - 1);
      var fs, f := Take(s, n - 1).1, TakeAndMap(Take(s, n - 1).0).1;
      assert (fs + [f])[..|fs|] == fs;
      RunTwoMore(s, TakeRequests(fs), Grab, Map(FrameAddress(f), FrameAddress(f)));
    }
  }

  lemma RunTwoMore(s: Paging, rs: seq<Request>, a: Request, b: Request)
    ensures Run(s, rs + [a] + [b]) == Step(Step(Run(s, rs), a), b)
  {
    assert (rs + [a] + [b])[..|rs| + 1] == rs + [a] && (rs + [a])[..|rs|] == rs;
  }

  /** Four frames for every round are enough. */
  lemma {:induction false} FourPerRoundSuffice(s: Paging, n: nat)
    requires Owned(s) && s.pool.Free() >= 4 * n
    ensures Feeds(s, n)
  {
    hide TakeAndMap, TableAt;
    if n > 0 {
      FourPerRoundSuffice(s, n - 1);
      FramesAreCloseTogether(s, n - 1);
    }
  }

  lemma {:induction false} FeedsFewer(s: Paging, k: nat, n: nat)
    requires Feeds(s, n) && k <= n
    ensures Feeds(s, k) && (k < n ==> RoundFits(Take(s, k).0))
    decreases n
  {
    hide TakeAndMap, RoundFits;
    if k < n {
      FeedsFewer(s, k, n - 1);
    }
  }

  lemma NoRounds(s: Paging)
    ensures Take(s, 0) == (s, [])
  {
  }

  /** Before round k the state is sound and the round fits. */
  lemma BeforeRound(s: Paging, k: nat, n: nat)
    requires Owned(s) && Feeds(s, n) && k < n
    ensures var t := Take(s, k).0;
      && Owned(t) && t.pool.Free() > 0 && Owned(AfterGrab(t))
      && Missing(AfterGrab(t), FrameAddress(t.pool.base + t.pool.used)) <= AfterGrab(t).pool.Free()
      && Take(s, k + 1).0 == MapPage(AfterGrab(t), FrameAddress(t.pool.base + t.pool.used), FrameAddress(t.pool.base + t.pool.used))
  {
    hide MapPage, TableAt, FrameAddress, Missing;
    FeedsFewer(s, k, n);
    FramesAreCloseTogether(s, k);
    GrabKeepsOwned(Take(s, k).0);
  }

  /** The next n frames of the pool are mapped at their own addresses. */
  ghost predicate Mapped(s: Paging, n: nat) {
    forall f: nat | s.pool.base + s.pool.used <= f < s.pool.base + s.pool.used + n :: Walk(s, FrameAddress(f)) == Some(f)
  }

  lemma MappedRound(s: Paging, t: Paging, f: nat)
    requires t.mem == s.mem && t.root == s.root && t.pool.Free() > 0 && f == t.pool.base + t.pool.used
    requires Walk(s, FrameAddress(f)).Some?
    ensures TakeAndMap(t) == (t.(pool := t.pool.(used := t.pool.used + 1)), f)
  {
    var g := t.(pool := t.pool.(used := t.pool.used + 1));
    assert At(g, PathOf(FrameAddress(f))) == At(s, PathOf(FrameAddress(f)));
    RemapIsNoOp(g, FrameAddress(f), FrameAddress(f));
  }

  /** The first free frames of the pool in order, and 0 for every further one asked for. */
  function Handout(first: nat, free: nat, n: nat): seq<nat> {
    seq(n, k requires 0 <= k < n => if k < free then first + k else 0)
  }

  /** With the pool used up a round asks to map page 0 at frame 0. */
  lemma EmptyRound(s: Paging, t: Paging)
    requires t.mem == s.mem && t.root == s.root && t.pool.Free() == 0 && Walk(s, 0).Some?
    ensures TakeAndMap(t) == (t, 0)
  {
    assert At(t, PathOf(0)) == At(s, PathOf(0));
    FrameAddressPage(0);
    RemapIsNoOp(t, 0, 0);
  }

  /** Inside the identity window alloc hands out adjacent frames, then 0 for ever, and leaves the tables as they are. */
  lemma {:induction false} FramesAreAdjacent(s: Paging, n: nat)
    requires s.pool.Free() >= 0 && Mapped(s, Least(n, s.pool.Free())) && (n > s.pool.Free() ==> Walk(s, 0).Some?)
    ensures Take(s, n) == (s.(pool := s.pool.(used := s.pool.used + Least(n, s.pool.Free()))),
                           Handout(s.pool.base + s.pool.used, s.pool.Free(), n))
  {
    hide MapPage, TableAt, FrameAddress, TakeAndMap;
    var first, free := s.pool.base + s.pool.used, s.pool.Free();
    if n > 0 {
      FramesAreAdjacent(s, n - 1);
      var t := s.(pool := s.pool.(used := s.pool.used + Least(n - 1, free)));
      if n <= free {
        assert Walk(s, FrameAddress(first + n - 1)).Some?;
        MappedRound(s, t, first + n - 1);
      } else {
        EmptyRound(s, t);
      }
      assert Handout(first, free, n) == Handout(first, free, n - 1) + [if n <= free then first + n - 1 else 0];
    } else {
      assert Handout(first, free, 0) == [];
    }
  }

  /** Where the frames are mapped already, one frame a round is enough. */
  lemma {:induction false} MappedFramesSuffice(s: Paging, n: nat)
    requires Mapped(s, n) && n <= s.pool.Free()
    ensures Feeds(s, n)
  {
    hide MapPage, TableAt, FrameAddress, TakeAndMap;
    if n > 0 {
      MappedFramesSuffice(s, n - 1);
      FramesAreAdjacent(s, n - 1);
      var f := s.pool.base + s.pool.used + n - 1;
      assert Walk(s, FrameAddress(f)).Some?;
      NothingMissing(s, AfterGrab(Take(s, n - 1).0), FrameAddress(f));
    }
  }

  lemma NothingMissing(s: Paging, g: Paging, va: Word)
    requires g.mem == s.mem && g.root == s.root && Walk(s, va).Some?
    ensures Missing(g, va) == 0
  {
    assert At(g, PathOf(va)) == At(s, PathOf(va));
    NoTableBelowAbsent(g, PathOf(va));
  }

  /** Every round's call stays in memory. */
  ghost predicate RoundsStay(s: Paging, n: nat) {
    n == 0 || (RoundsStay(s, n - 1) && RoundStays(Take(s, n - 1).0))
  }

  ghost predicate RoundStays(s: Paging) {
    StaysInMemory(AfterGrab(s), FrameAddress(Allocate(s.pool).1))
  }

  /** Each round on its own. */
  lemma {:induction false} StaysFewer(s: Paging, k: nat, n: nat)
    requires RoundsStay(s, n) && k < n
    ensures var t := Take(s, k).0;
      && RoundStays(t)
      && Take(s, k + 1).0 == MapPage(AfterGrab(t), FrameAddress(Allocate(t.pool).1), FrameAddress(Allocate(t.pool).1))
    decreases n
  {
    hide RoundStays, MapPage, FrameAddress;
    if k < n - 1 {
      StaysFewer(s, k, n - 1);
    }
  }

  lemma {:induction false} FirstFrame(s: Paging, n: nat)
    requires n > 0
    ensures Take(s, n).1 != [] && Take(s, n).1[0] == Allocate(s.pool).1
  {
    hide MapPage;
    if n > 1 {
      FirstFrame(s, n - 1);
    }
  }

  lemma {:induction false} FedRoundsStay(s: Paging, n: nat)
    requires Owned(s) && Feeds(s, n)
    ensures RoundsStay(s, n)
  {
    hide Take, RoundStays, RoundFits, Owned, AfterGrab, Missing, MapPage, FrameAddress;
    if n > 0 {
      FedRoundsStay(s, n - 1);
      BeforeRound(s, n - 1, n);
      OwnedRoundStays(Take(s, n - 1).0);
    }
  }

  lemma OwnedRoundStays(s: Paging)
    requires Owned(AfterGrab(s))
    ensures RoundStays(s)
  {
    hide Owned, AfterGrab, StaysInMemory, FrameAddress;
    OwnedStaysInMemory(AfterGrab(s), FrameAddress(Allocate(s.pool).1));
  }

  lemma AdvancedIsOwned(s: Paging, t: Paging)
    requires Owned(s) && t == s.(pool := s.pool.(used := t.pool.used)) && s.pool.used <= t.pool.used <= s.pool.capacity
    ensures Owned(t)
  {
    SamePaths(s, t);
    assert forall p: Path | IsTable(t, p) :: s.pool.Handed(Table(s, p));
    assert forall p: Path | IsTable(t, p) :: SoleOwner(s, p);
  }

  lemma {:induction false} MappedRoundsStay(s: Paging, n: nat)
    requires Owned(s) && Mapped(s, Least(n, s.pool.Free())) && (n > s.pool.Free() ==> Walk(s, 0).Some?)
    ensures RoundsStay(s, n)
  {
    hide MapPage, TableAt, FrameAddress, TakeAndMap, StaysInMemory, SoleOwner, TablesHanded, Take;
    if n > 0 {
      MappedRoundsStay(s, n - 1);
      FramesAreAdjacent(s, n - 1);
      var t := Take(s, n - 1).0;
      AdvancedIsOwned(s, AfterGrab(t));
      OwnedRoundStays(t);
    }
  }

  // ---------- After init_paging ----------

  lemma LowPoolIsMapped(mem: Memory, pool: Pool, fb: Address32, rs: seq<Request>, n: nat)
    requires CanRun(mem, pool, fb, rs) && pool.base + pool.capacity <= WINDOW
    ensures var s := AfterInit(mem, pool, fb, rs);
      Owned(s) && Walk(s, 0) == Some(0) && Mapped(s, Least(n, s.pool.Free()))
  {
    hide AfterInit, CanRun, TableAt, FrameAddress, PathOf;
    WindowsStay(mem, pool, fb, rs);
    var s := AfterInit(mem, pool, fb, rs);
    assert Walk(s, 0) == Windows(fb, WINDOW, PageOf(0));
    forall f: nat | s.pool.base + s.pool.used <= f < s.pool.base + s.pool.used + Least(n, s.pool.Free())
      ensures Walk(s, FrameAddress(f)) == Some(f)
    {
      FrameAddressPage(f);
    }
  }

  /**
    At any time after init_paging, with the pool below the low window: alloc(n) leaves the tables alone and, for every
    n, hands out adjacent frames as long as the pool has some and 0 after that.
   */
  lemma AllocAfterInitIsContiguous(mem: Memory, pool: Pool, fb: Address32, rs: seq<Request>, n: nat)
    requires CanRun(mem, pool, fb, rs) && pool.base + pool.capacity <= WINDOW
    ensures var s := AfterInit(mem, pool, fb, rs);
      && s.pool.Free() >= 0 && RoundsStay(s, n) && (n <= s.pool.Free() ==> Feeds(s, n))
      && Take(s, n) == (s.(pool := s.pool.(used := s.pool.used + Least(n, s.pool.Free()))),
                        Handout(s.pool.base + s.pool.used, s.pool.Free(), n))
  {
    hide AfterInit, CanRun, MapPage, TableAt, FrameAddress, Take, Feeds, RoundsStay, Handout;
    var s := AfterInit(mem, pool, fb, rs);
    LowPoolIsMapped(mem, pool, fb, rs, n);
    FramesAreAdjacent(s, n);
    MappedRoundsStay(s, n);
    if n <= s.pool.Free() {
      MappedFramesSuffice(s, n);
    }
  }
}
