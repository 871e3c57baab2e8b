/**
  The font file is read into one frame taken from the pool.  The frame holds
  eight sectors; what a longer chain brings goes into the next frame of the
  pool, which init_paging then takes for its root and clears.
 */
module FontPage {
  import opened Bytes
  import opened Disk
  import opened ClusterChain
  import opened Fat32
  import PT = PageTable
  import PR = PagingRuns

  const PAGE := 4096

  // ---------- What a read writes outside its frame ----------

  /** Nothing from an address on has changed. */
  ghost predicate SameFrom(before: seq<Byte>, after: seq<Byte>, address: nat) {
    |after| == |before| && forall a | address <= a < |before| :: after[a] == before[a]
  }

  /** Data stored at address leaves the memory after its frame alone, whatever that memory holds. */
  ghost predicate StaysInFrame(address: nat, data: seq<Byte>) {
    forall before: seq<Byte> | address + |data| <= |before| :: SameFrom(before, Into(before, address, data), address + PAGE)
  }

  /** A read along a chain stays in the frame it is given if and only if the chain has at most eight clusters. */
  lemma ReadStaysInFrameIff(disk: Disk, bpb: Bpb, chain: seq<nat>, address: nat)
    ensures StaysInFrame(address, ReadAlong(disk, bpb, chain)) <==> |chain| <= 8
  {
    hide ReadAlong, SameFrom;
    var data := ReadAlong(disk, bpb, chain);
    if |chain| <= 8 {
      forall before: seq<Byte> | address + |data| <= |before|
        ensures SameFrom(before, Into(before, address, data), address + PAGE)
      {
        ShortDataStays(before, address, data);
      }
    } else {
      var before := Opposite(address, data);
      OppositeDiffers(address, data);
      assert address + |data| <= |before|;
    }
  }

  /** A font of 4128 bytes takes nine one-sector clusters, and its last 32 bytes spill. */
  lemma NineClustersSpill(disk: Disk, bpb: Bpb, chain: seq<nat>, address: nat)
    requires bpb.sectorsPerCluster == 1 && TakesChain(bpb, chain, 4128)
    ensures |chain| == 9 && !StaysInFrame(address, ReadAlong(disk, bpb, chain))
  {
    ReadStaysInFrameIff(disk, bpb, chain, address);
  }

  lemma ShortDataStays(before: seq<Byte>, address: nat, data: seq<Byte>)
    requires address + |data| <= |before| && |data| <= PAGE
    ensures SameFrom(before, Into(before, address, data), address + PAGE)
  {
  }

  /** A memory that differs from the data at the first byte after the frame. */
  function Opposite(address: nat, data: seq<Byte>): (before: seq<Byte>)
    requires |data| > PAGE
    ensures |before| == address + |data|
  {
    seq(address + |data|, _ => if data[PAGE] == 0 then 1 else 0)
  }

  lemma OppositeDiffers(address: nat, data: seq<Byte>)
    requires |data| > PAGE
    ensures !SameFrom(Opposite(address, data), Into(Opposite(address, data), address, data), address + PAGE)
  {
    assert Into(Opposite(address, data), address, data)[address + PAGE] == data[PAGE];
  }

  // ---------- The same memory as frames of words ----------

  function PowerOf256(k: nat): (p: nat)
    ensures p >= 1
  {
    if k == 0 then 1 else 256 * PowerOf256(k - 1)
  }

  /** Byte k of a frame, low byte of each word first. */
  function ByteOf(f: PT.Frame, k: nat): Byte
    requires k < PAGE
  {
    f[k / 8] / PowerOf256(k % 8) % 256
  }

  lemma ZeroBytes(k: nat)
    requires k < PAGE
    ensures ByteOf(PT.ZeroFrame(), k) == 0
  {
    assert 0 / PowerOf256(k % 8) == 0;
  }

  /** The frames hold these bytes. */
  ghost predicate Represents(bytes: seq<Byte>, mem: PT.Memory) {
    && |bytes| == PAGE * |mem|
    && forall g: nat, k: nat | g < |mem| && k < PAGE :: bytes[PAGE * g + k] == ByteOf(mem[g], k)
  }

  /** Data that begins in frame f has, at its place a, this byte of memory. */
  ghost predicate HoldsAt(mem: PT.Memory, f: nat, a: nat, b: Byte) {
    f + a / PAGE < |mem| && ByteOf(mem[f + a / PAGE], a % PAGE) == b
  }

  /** The first n bytes of data are in memory from frame f on. */
  ghost predicate HoldsFile(mem: PT.Memory, f: nat, data: seq<Byte>, n: nat)
    requires n <= |data|
  {
    forall a: nat | a < n :: HoldsAt(mem, f, a, data[a])
  }

  lemma StoredBytes(before: seq<Byte>, after: seq<Byte>, mem: PT.Memory, f: nat, data: seq<Byte>, a: nat)
    requires PAGE * f + |data| <= |before| && after == Into(before, PAGE * f, data) && Represents(after, mem) && a < |data|
    ensures HoldsAt(mem, f, a, data[a])
  {
    var q, r := a / PAGE, a % PAGE;
    assert PAGE * f + a == PAGE * (f + q) + r;
    assert after[PAGE * f + a] == data[a];
  }

  /**
    The root is the frame after the font's.  Of a file of n bytes, read in at most sixteen sectors, exactly the bytes
    beyond the first frame are lost when the root is cleared: it is still whole if and only if those were zero.
   */
  lemma FontSurvivesRootIff(before: seq<Byte>, after: seq<Byte>, mem: PT.Memory, pool: PT.Pool, f: nat,
                            data: seq<Byte>, n: nat)
    requires n <= |data| <= 2 * PAGE && PAGE * f + |data| <= |before|
    requires after == Into(before, PAGE * f, data) && Represents(after, mem)
    requires pool.used < pool.capacity && pool.base + pool.used == f + 1 < |mem|
    ensures HoldsFile(mem, f, data, n)
    ensures HoldsFile(PR.NewRoot(mem, pool).mem, f, data, n) <==> forall a | PAGE <= a < n :: data[a] == 0
  {
    hide Represents, Into, PR.NewRoot, ByteOf;
    var t := PR.NewRoot(mem, pool).mem;
    RootFrame(mem, pool);
    forall a: nat | a < n
      ensures HoldsAt(mem, f, a, data[a])
      ensures HoldsAt(t, f, a, data[a]) <==> a < PAGE || data[a] == 0
    {
      StoredBytes(before, after, mem, f, data, a);
      ZeroBytes(a % PAGE);
      assert a / PAGE == 0 || a / PAGE == 1;
    }
  }

  lemma RootFrame(mem: PT.Memory, pool: PT.Pool)
    requires pool.used < pool.capacity && pool.base + pool.used < |mem|
    ensures PR.NewRoot(mem, pool).mem == mem[pool.base + pool.used := PT.ZeroFrame()]
  {
  }

  /** Whatever a read has spilled into the next frame, the root is as empty as without it. */
  lemma SpillLeavesNoTrace(mem: PT.Memory, spilled: PT.Memory, pool: PT.Pool)
    requires pool.used < pool.capacity && pool.base + pool.used < |mem| == |spilled|
    requires forall g: nat | g < |mem| && g != pool.base + pool.used :: spilled[g] == mem[g]
    ensures PR.NewRoot(spilled, pool) == PR.NewRoot(mem, pool)
  {
    assert PR.NewRoot(spilled, pool).mem == PR.NewRoot(mem, pool).mem;
  }
}
