/**
  Cluster chains in the first sector of the file allocation table (the FAT Data
  Structure section of Microsoft's fatgen103), and the bytes read along them.
 */
module ClusterChain {
  import opened Bits
  import opened Bytes
  import opened Disk

  const FAT_ENTRIES := 128
  const END_OF_CHAIN := 0x0FFF_FFFF
  const PARTITION_START := 0x800

  /** The fields of the BIOS parameter block the reader uses. */
  datatype Bpb = Bpb(sectorsPerCluster: Byte, reserved: nat, fats: Byte, sectorsPerFat: nat)

  type Fat = f: seq<nat> | |f| == FAT_ENTRIES witness seq(FAT_ENTRIES, _ => 0)

  function NextCluster(fat: Fat, cluster: nat): nat
    requires cluster < FAT_ENTRIES
  {
    var next := fat[cluster];
    if next == END_OF_CHAIN then 0 else next
  }

  /** The block address of a cluster's first sector, in 32-bit arithmetic; clusters 0 and 1 wrap around. */
  function Lba(bpb: Bpb, cluster: nat): nat {
    (PARTITION_START + bpb.reserved + bpb.fats * bpb.sectorsPerFat + (cluster - 2) * bpb.sectorsPerCluster) % LIMIT32
  }

  // ---------- Chains ----------

  ghost predicate Links(fat: Fat, chain: seq<nat>, j: nat)
    requires j + 1 < |chain| && chain[j] < FAT_ENTRIES
  {
    NextCluster(fat, chain[j]) == chain[j + 1] && chain[j + 1] != 0
  }

  /** The clusters the walk visits from c: each in the table, each naming the next, the last naming none. */
  ghost predicate IsChain(fat: Fat, c: nat, chain: seq<nat>) {
    && chain != [] && chain[0] == c
    && (forall j | 0 <= j < |chain| :: chain[j] < FAT_ENTRIES)
    && (forall j | 0 <= j < |chain| - 1 :: Links(fat, chain, j))
    && NextCluster(fat, chain[|chain| - 1]) == 0
  }

  /** The walk, giving up after fuel clusters or outside the table. */
  function Follow(fat: Fat, c: nat, fuel: nat): (r: seq<nat>)
    ensures |r| <= fuel
    decreases fuel
  {
    if c >= FAT_ENTRIES || fuel == 0 then []
    else
      var next := NextCluster(fat, c);
      if next == 0 then [c]
      else
        var rest := Follow(fat, next, fuel - 1);
        if rest == [] then [] else [c] + rest
  }

  lemma {:induction false} FollowIsChain(fat: Fat, c: nat, fuel: nat)
    requires Follow(fat, c, fuel) != []
    ensures IsChain(fat, c, Follow(fat, c, fuel))
    decreases fuel
  {
    var next := NextCluster(fat, c);
    if next != 0 {
      var rest := Follow(fat, next, fuel - 1);
      FollowIsChain(fat, next, fuel - 1);
      assert Links(fat, [c] + rest, 0);
      assert forall j | 1 <= j < |rest| :: Links(fat, rest, j - 1) && ([c] + rest)[j] == rest[j - 1];
      assert forall j | 1 <= j < |rest| :: Links(fat, [c] + rest, j);
    }
  }

  lemma {:induction false} ChainIsFollowed(fat: Fat, c: nat, chain: seq<nat>, fuel: nat)
    requires IsChain(fat, c, chain) && |chain| <= fuel
    ensures Follow(fat, c, fuel) == chain
    decreases |chain|
  {
    if |chain| > 1 {
      assert Links(fat, chain, 0);
      assert forall j | 0 <= j < |chain| - 2 :: Links(fat, chain, j + 1) && chain[1..][j] == chain[j + 1];
      assert forall j | 0 <= j < |chain| - 2 :: Links(fat, chain[1..], j);
      ChainIsFollowed(fat, chain[1], chain[1..], fuel - 1);
    } else {
      assert NextCluster(fat, chain[|chain| - 1]) == 0;
    }
  }

  /** A chain that ends cannot visit a cluster twice: from there it would go round for ever. */
  lemma {:induction false} ChainsAreAcyclic(fat: Fat, c: nat, chain: seq<nat>, i: nat, j: nat)
    requires IsChain(fat, c, chain) && i < j < |chain|
    ensures chain[i] != chain[j]
    decreases |chain| - j
  {
    assert Links(fat, chain, i);
    if j < |chain| - 1 {
      assert Links(fat, chain, j);
      ChainsAreAcyclic(fat, c, chain, i + 1, j + 1);
    }
  }

  /** A cluster that names itself starts no chain: the walk goes round for ever. */
  lemma SelfLoopHasNoChain(fat: Fat, c: nat, chain: seq<nat>)
    requires 0 < c < FAT_ENTRIES && fat[c] == c
    ensures !IsChain(fat, c, chain)
  {
    if IsChain(fat, c, chain) && |chain| > 1 {
      assert Links(fat, chain, 0);
      ChainsAreAcyclic(fat, c, chain, 0, 1);
    }
  }

  /** Hence no chain is longer than the table. */
  lemma ChainsAreShort(fat: Fat, c: nat, chain: seq<nat>)
    requires IsChain(fat, c, chain)
    ensures |chain| <= FAT_ENTRIES
  {
    forall i, j | 0 <= i < j < |chain|
      ensures chain[i] != chain[j]
    {
      ChainsAreAcyclic(fat, c, chain, i, j);
    }
    Pigeonhole(chain, FAT_ENTRIES);
  }

  lemma {:induction false} Pigeonhole(s: seq<nat>, n: nat)
    requires forall i, j | 0 <= i < j < |s| :: s[i] != s[j]
    requires forall i | 0 <= i < |s| :: 0 <= s[i] < n
    ensures |s| <= n
    decreases n
  {
    if |s| > 0 {
      assert 0 <= s[0] < n;
    }
    if n > 0 {
      if i :| 0 <= i < |s| && s[i] == n - 1 {
        var t := s[..i] + s[i + 1..];
        assert forall k | 0 <= k < |t| :: t[k] == s[if k < i then k else k + 1];
        Pigeonhole(t, n - 1);
      } else {
        Pigeonhole(s, n - 1);
      }
    }
  }

  /** The walk ends, inside the table, if and only if the walk cut off after 128 clusters does. */
  lemma ChainExistsIff(fat: Fat, c: nat)
    ensures (exists chain :: IsChain(fat, c, chain)) <==> Follow(fat, c, FAT_ENTRIES) != []
  {
    if chain :| IsChain(fat, c, chain) {
      ChainsAreShort(fat, c, chain);
      ChainIsFollowed(fat, c, chain, FAT_ENTRIES);
    }
    if Follow(fat, c, FAT_ENTRIES) != [] {
      FollowIsChain(fat, c, FAT_ENTRIES);
    }
  }

  lemma ChainIsUnique(fat: Fat, c: nat, a: seq<nat>, b: seq<nat>)
    requires IsChain(fat, c, a) && IsChain(fat, c, b)
    ensures a == b
  {
    ChainsAreShort(fat, c, a);
    ChainsAreShort(fat, c, b);
    ChainIsFollowed(fat, c, a, FAT_ENTRIES);
    ChainIsFollowed(fat, c, b, FAT_ENTRIES);
  }

  // ---------- Reading along a chain ----------

  /** The first sectors of the chain's clusters, one after the other. */
  function ReadAlong(disk: Disk, bpb: Bpb, chain: seq<nat>): (data: seq<Byte>)
    ensures |data| == SECTOR * |chain|
  {
    if chain == [] then []
    else ReadAlong(disk, bpb, chain[..|chain| - 1]) + SectorAt(disk, Lba(bpb, chain[|chain| - 1]))
  }

  // ---------- Files laid along a chain ----------

  /** A file's content, cluster by cluster, each cluster a list of sectors. */
  type Content = seq<seq<Sector>>

  function Join(sectors: seq<Sector>): (data: seq<Byte>)
    ensures |data| == SECTOR * |sectors|
  {
    if sectors == [] then [] else Join(sectors[..|sectors| - 1]) + sectors[|sectors| - 1]
  }

  /** The content as one byte string. */
  function FileBytes(content: Content): seq<Byte> {
    if content == [] then [] else FileBytes(content[..|content| - 1]) + Join(content[|content| - 1])
  }

  /** One list of sectors for each cluster of the chain, of the cluster size. */
  ghost predicate Fits(bpb: Bpb, chain: seq<nat>, content: Content) {
    && bpb.sectorsPerCluster > 0 && |content| == |chain|
    && forall i | 0 <= i < |content| :: |content[i]| == bpb.sectorsPerCluster
  }

  /** Where sector o of the i-th cluster of the chain lies. */
  function ContentLba(bpb: Bpb, chain: seq<nat>, i: nat, o: nat): nat
    requires i < |chain|
  {
    Lba(bpb, chain[i]) + o
  }

  /** The disk holds the content along the chain. */
  ghost predicate Laid(disk: Disk, bpb: Bpb, chain: seq<nat>, content: Content) {
    && Fits(bpb, chain, content)
    && forall i: nat, o: nat | i < |chain| && o < |content[i]| ::
         SectorAt(disk, ContentLba(bpb, chain, i, o)) == content[i][o]
  }

  /** The first sectors of the clusters: what is left of the content when only those are read. */
  function FirstSectors(content: Content): seq<Sector>
    requires forall i | 0 <= i < |content| :: content[i] != []
  {
    seq(|content|, i requires 0 <= i < |content| => content[i][0])
  }

  /** Reading along the chain gives exactly the first sector of each cluster. */
  lemma {:induction false} ReadFindsFirstSectors(disk: Disk, bpb: Bpb, chain: seq<nat>, content: Content, n: nat)
    requires Laid(disk, bpb, chain, content) && n <= |chain|
    ensures ReadAlong(disk, bpb, chain[..n]) == Join(FirstSectors(content)[..n])
  {
    hide Lba;
    if n > 0 {
      ReadFindsFirstSectors(disk, bpb, chain, content, n - 1);
      assert chain[..n][..n - 1] == chain[..n - 1];
      assert FirstSectors(content)[..n][..n - 1] == FirstSectors(content)[..n - 1];
      assert SectorAt(disk, ContentLba(bpb, chain, n - 1, 0)) == content[n - 1][0];
    }
  }

  lemma {:induction false} OneSectorClusters(content: Content)
    requires forall i | 0 <= i < |content| :: |content[i]| == 1
    ensures Join(FirstSectors(content)) == FileBytes(content)
  {
    if content != [] {
      var n := |content| - 1;
      OneSectorClusters(content[..n]);
      assert FirstSectors(content)[..n] == FirstSectors(content[..n]);
      var last := content[n];
      assert last[..0] == [] && Join([]) == [];
      assert Join(last) == last[0];
    }
  }

  lemma {:induction false} FileLength(content: Content, size: nat)
    requires forall i | 0 <= i < |content| :: |content[i]| == size
    ensures |FileBytes(content)| == SECTOR * (size * |content|)
  {
    if content != [] {
      var n := |content| - 1;
      FileLength(content[..n], size);
      assert |FileBytes(content)| == |FileBytes(content[..n])| + SECTOR * size;
      assert size * (n + 1) == size * n + size;
    }
  }

  lemma {:induction false} FirstOfJoin(sectors: seq<Sector>)
    requires sectors != []
    ensures Join(sectors)[..SECTOR] == sectors[0]
  {
    var n := |sectors| - 1;
    if n > 0 {
      FirstOfJoin(sectors[..n]);
    } else {
      assert Join(sectors[..n]) == [];
    }
  }

  lemma {:induction false} FirstOfFile(content: Content)
    requires content != [] && content[0] != []
    ensures |FileBytes(content)| >= SECTOR && FileBytes(content)[..SECTOR] == content[0][0]
  {
    var n := |content| - 1;
    if n > 0 {
      FirstOfFile(content[..n]);
    } else {
      assert FileBytes(content[..n]) == [];
      FirstOfJoin(content[0]);
    }
  }

  /** Both have n bytes, and the same ones. */
  predicate Agree(a: seq<Byte>, b: seq<Byte>, n: nat) {
    n <= |a| && n <= |b| && a[..n] == b[..n]
  }

  /** A file of n bytes takes the chain: more than all its clusters but the last hold, and no more than all hold. */
  predicate TakesChain(bpb: Bpb, chain: seq<nat>, n: nat) {
    SECTOR * (bpb.sectorsPerCluster * (|chain| - 1)) < n <= SECTOR * (bpb.sectorsPerCluster * |chain|)
  }

  lemma LargerClustersAreCut(bpb: Bpb, chain: seq<nat>, n: nat)
    requires chain != [] && TakesChain(bpb, chain, n) && bpb.sectorsPerCluster >= 2 && n > SECTOR
    ensures n > SECTOR * |chain|
  {
    var c: nat := |chain| - 1;
    var sectors := bpb.sectorsPerCluster * c;
    assert SECTOR * sectors < n;
    TwiceAsMany(bpb.sectorsPerCluster, c, sectors);
  }

  lemma TwiceAsMany(spc: nat, c: nat, sectors: nat)
    requires spc >= 2 && sectors == spc * c
    ensures sectors >= 2 * c
  {
    assert sectors == 2 * c + (spc - 2) * c;
  }

  /** What is read is the first sector of each cluster; the file's n bytes are among it exactly as this says. */
  lemma ReadsBackIff(disk: Disk, bpb: Bpb, fat: Fat, c: nat, chain: seq<nat>, content: Content, n: nat)
    requires IsChain(fat, c, chain) && Laid(disk, bpb, chain, content) && TakesChain(bpb, chain, n)
    ensures ReadAlong(disk, bpb, chain) == Join(FirstSectors(content))
    ensures |FileBytes(content)| == SECTOR * (bpb.sectorsPerCluster * |chain|)
    ensures Agree(ReadAlong(disk, bpb, chain), FileBytes(content), n) <==> bpb.sectorsPerCluster == 1 || n <= SECTOR
  {
    hide ReadAlong, FileBytes, Join, SectorAt, TakesChain;
    assert chain[..|chain|] == chain && FirstSectors(content)[..|chain|] == FirstSectors(content);
    ReadFindsFirstSectors(disk, bpb, chain, content, |chain|);
    FileLength(content, bpb.sectorsPerCluster);
    SizeFits(bpb, chain, n);
    if bpb.sectorsPerCluster == 1 {
      OneSectorClusters(content);
    } else if n <= SECTOR {
      FirstOfJoin(FirstSectors(content));
      FirstOfFile(content);
      FirstBytesAgree(ReadAlong(disk, bpb, chain), FileBytes(content), n);
    } else {
      LargerClustersAreCut(bpb, chain, n);
    }
  }

  lemma SizeFits(bpb: Bpb, chain: seq<nat>, n: nat)
    requires TakesChain(bpb, chain, n)
    ensures n <= SECTOR * (bpb.sectorsPerCluster * |chain|)
  {
  }

  lemma FirstBytesAgree(a: seq<Byte>, b: seq<Byte>, n: nat)
    requires |a| >= SECTOR && |b| >= SECTOR && a[..SECTOR] == b[..SECTOR] && n <= SECTOR
    ensures Agree(a, b, n)
  {
    assert a[..n] == a[..SECTOR][..n] && b[..n] == b[..SECTOR][..n];
  }

  /** A file of 1024 bytes in one two-sector cluster: half of it is read. */
  lemma TwoSectorClusterIsHalfRead(disk: Disk, bpb: Bpb, fat: Fat, content: Content)
    requires (forall a: nat :: disk(a) == Zeros(SECTOR)) && bpb == Bpb(2, 32, 2, 1)
    requires fat[2] == END_OF_CHAIN && content == [[Zeros(SECTOR), Zeros(SECTOR)]]
    ensures IsChain(fat, 2, [2]) && Laid(disk, bpb, [2], content) && TakesChain(bpb, [2], 1024)
    ensures |ReadAlong(disk, bpb, [2])| == 512 && |FileBytes(content)| == 1024
    ensures !Agree(ReadAlong(disk, bpb, [2]), FileBytes(content), 1024)
  {
    hide Lba;
    var s: Sector := Zeros(SECTOR);
    assert content[..0] == [] && content[0] == [s, s] && [s, s][..1] == [s] && [s][..0] == [];
    assert |Join([s, s])| == 1024;
    assert FileBytes(content) == FileBytes(content[..0]) + Join(content[0]);
  }

  // ---------- A writer ----------

  /** Sector o of the i-th cluster lies at block address a. */
  ghost predicate Occupies(bpb: Bpb, chain: seq<nat>, i: nat, o: nat, a: nat) {
    i < |chain| && o < bpb.sectorsPerCluster && ContentLba(bpb, chain, i, o) % LBA_LIMIT == a
  }

  ghost function SectorWritten(disk: Disk, bpb: Bpb, chain: seq<nat>, content: Content, a: nat): Sector
    requires Fits(bpb, chain, content)
  {
    if exists i: nat, o: nat :: Occupies(bpb, chain, i, o, a)
    then var i: nat, o: nat :| Occupies(bpb, chain, i, o, a); content[i][o]
    else disk(a)
  }

  /** The disk on which the content has been laid along the chain, everything else as it was. */
  ghost function Written(disk: Disk, bpb: Bpb, chain: seq<nat>, content: Content): Disk
    requires Fits(bpb, chain, content)
  {
    (a: nat) => SectorWritten(disk, bpb, chain, content, a)
  }

  lemma WrapThenAdd(x: int, o: nat)
    ensures (x % LIMIT32 + o) % LBA_LIMIT == (x + o) % LBA_LIMIT
  {
    var q, r := (x + o) / LBA_LIMIT, (x + o) % LBA_LIMIT;
    assert x % LIMIT32 + o == LBA_LIMIT * (q - 16 * (x / LIMIT32)) + r;
  }

  lemma NearbyResidues(base: int, a: nat, b: nat)
    requires a < LBA_LIMIT && b < LBA_LIMIT && (base + a) % LBA_LIMIT == (base + b) % LBA_LIMIT
    ensures a == b
  {
  }

  lemma ClusterOffset(cluster: nat, spc: Byte, o: nat)
    requires cluster < FAT_ENTRIES && o < spc
    ensures cluster * spc + o < LBA_LIMIT
    ensures (cluster * spc + o) / spc == cluster && (cluster * spc + o) % spc == o
  {
    assert cluster * spc <= FAT_ENTRIES * 256 by {
      assert cluster * 256 - cluster * spc == cluster * (256 - spc);
    }
    DivUnique(cluster * spc + o, spc, cluster, o);
  }

  lemma ClusterAddress(bpb: Bpb, cluster: nat, o: nat)
    ensures var spc: nat := bpb.sectorsPerCluster;
      (Lba(bpb, cluster) + o) % LBA_LIMIT
      == (PARTITION_START + bpb.reserved + bpb.fats * bpb.sectorsPerFat - 2 * spc + (cluster * spc + o)) % LBA_LIMIT
  {
    var spc: nat := bpb.sectorsPerCluster;
    assert (cluster - 2) * spc == cluster * spc - 2 * spc;
    WrapThenAdd(PARTITION_START + bpb.reserved + bpb.fats * bpb.sectorsPerFat + (cluster - 2) * spc, o);
  }

  /** Different clusters of the table never share a sector. */
  lemma ClustersAreApart(bpb: Bpb, c1: nat, o1: nat, c2: nat, o2: nat)
    requires c1 < FAT_ENTRIES && c2 < FAT_ENTRIES && o1 < bpb.sectorsPerCluster && o2 < bpb.sectorsPerCluster
    requires (Lba(bpb, c1) + o1) % LBA_LIMIT == (Lba(bpb, c2) + o2) % LBA_LIMIT
    ensures c1 == c2 && o1 == o2
  {
    hide Lba;
    var spc: nat := bpb.sectorsPerCluster;
    ClusterAddress(bpb, c1, o1);
    ClusterAddress(bpb, c2, o2);
    ClusterOffset(c1, spc, o1);
    ClusterOffset(c2, spc, o2);
    NearbyResidues(PARTITION_START + bpb.reserved + bpb.fats * bpb.sectorsPerFat - 2 * spc, c1 * spc + o1, c2 * spc + o2);
  }

  /** Different sectors of a file lie at different addresses, because the chain visits no cluster twice. */
  lemma SectorsAreApart(fat: Fat, c: nat, chain: seq<nat>, bpb: Bpb, i: nat, o: nat, j: nat, p: nat, a: nat)
    requires IsChain(fat, c, chain) && Occupies(bpb, chain, i, o, a) && Occupies(bpb, chain, j, p, a)
    ensures i == j && o == p
  {
    hide Lba;
    ClustersAreApart(bpb, chain[i], o, chain[j], p);
    if i < j {
      ChainsAreAcyclic(fat, c, chain, i, j);
    } else if j < i {
      ChainsAreAcyclic(fat, c, chain, j, i);
    }
  }

  /** The writer's disk holds the content, so the read-back theorem applies to it. */
  lemma WrittenIsLaid(disk: Disk, fat: Fat, c: nat, chain: seq<nat>, bpb: Bpb, content: Content)
    requires IsChain(fat, c, chain) && Fits(bpb, chain, content)
    ensures Laid(Written(disk, bpb, chain, content), bpb, chain, content)
  {
    hide ContentLba, IsChain;
    var written := Written(disk, bpb, chain, content);
    forall i: nat, o: nat | i < |chain| && o < |content[i]|
      ensures SectorAt(written, ContentLba(bpb, chain, i, o)) == content[i][o]
    {
      var a := ContentLba(bpb, chain, i, o) % LBA_LIMIT;
      assert Occupies(bpb, chain, i, o, a);
      forall j: nat, p: nat | Occupies(bpb, chain, j, p, a)
        ensures j == i && p == o
      {
        SectorsAreApart(fat, c, chain, bpb, i, o, j, p, a);
      }
      assert SectorWritten(disk, bpb, chain, content, a) == content[i][o];
    }
  }
}
