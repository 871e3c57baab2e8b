/**
  The FAT32 reader as the kernel writes it: a sector buffer, a table of five
  files filled by the directory scan, and a file read that walks the cluster
  chain block by block.
 */
module Fat32 {
  import opened Bits
  import opened Bytes
  import opened Disk
  import opened Directory
  import opened ClusterChain

  const FILES := 5
  const SHORT_NAME := 11

  datatype FileEntry = FileEntry(name: seq<Byte>, shortName: seq<Byte>, firstCluster: nat, size: seq<Byte>) {
    predicate Valid() { |name| == 56 && |shortName| == SHORT_NAME && |size| == 4 }
  }

  // ---------- Decoding sectors ----------

  function BpbOf(s: Sector): Bpb {
    Bpb(s[13], Word16(s, 14), s[16], Word32(s, 36))
  }

  function FatOf(s: Sector): Fat {
    seq(FAT_ENTRIES, i requires 0 <= i < FAT_ENTRIES => Word32(s, 4 * i))
  }

  function DirectoryLba(bpb: Bpb): nat {
    (PARTITION_START + bpb.reserved + bpb.sectorsPerFat * bpb.fats) % LIMIT32
  }

  function FatLba(bpb: Bpb): nat {
    (PARTITION_START + bpb.reserved) % LIMIT32
  }

  /** The three pieces of a long-name entry. */
  function LongNameOf(e: Entry): (name: seq<Byte>)
    ensures |name| == 26
  {
    e[1..11] + e[14..26] + e[28..32]
  }

  /** The cluster a directory entry stores, both halves. */
  function StoredCluster(e: Entry): nat {
    Word16(e, 26) + 0x1_0000 * Word16(e, 20)
  }

  /** The first cluster as the code computes it: & binds tighter than |, so only the low half survives. */
  function FirstCluster(e: Entry): nat {
    Or(Word16(e, 26), And(Word16(e, 20) * 0x1_0000, 0x00FF))
  }

  lemma HighBitsAreLost(e: Entry)
    ensures FirstCluster(e) == Word16(e, 26)
  {
    var high := Word16(e, 20);
    NoLowBits(high);
    assert FirstCluster(e) == Or(Word16(e, 26), 0);
  }

  /** The code finds the cluster the directory stores if and only if the stored high half is zero. */
  lemma FirstClusterIsStoredIff(e: Entry)
    ensures FirstCluster(e) == StoredCluster(e) <==> Word16(e, 20) == 0
  {
    HighBitsAreLost(e);
  }

  /** An entry for cluster 0x1_0003 is read as one for cluster 3. */
  lemma ClusterIsCut(e: Entry)
    requires e == Zeros(ENTRY)[20 := 1][26 := 3]
    ensures FirstCluster(e) == 3 && StoredCluster(e) == 0x1_0003
  {
    HighBitsAreLost(e);
  }

  lemma NoLowBits(high: nat)
    ensures And(high * 0x1_0000, 0x00FF) == 0
  {
    hide And;
    assert Pow2(8) == 0x100;
    AndLowMask(high * 0x1_0000, 8);
  }

  // ---------- The directory ----------

  function Filled(f: FileEntry, e: Entry): FileEntry {
    f.(shortName := e[..SHORT_NAME], firstCluster := FirstCluster(e), size := e[28..32])
  }

  function WithName(f: FileEntry, name: seq<Byte>): FileEntry
    requires |name| <= |f.name|
  {
    f.(name := name + f.name[|name|..])
  }

  /** Slot k after a scan: the k-th recorded entry and, in slot 0, the last long name of the directory. */
  function Slot(f: FileEntry, k: nat, es: seq<Entry>): (r: FileEntry)
    requires f.Valid()
    ensures r.Valid()
  {
    PickedInRange(es);
    var scan := Scanned(es);
    var g := if k < |scan.picked| then assert scan.picked[k] in scan.picked; Filled(f, es[scan.picked[k]]) else f;
    if k == 0 && scan.name != [] then assert scan.name[0] in scan.name; WithName(g, LongNameOf(es[scan.name[0]])) else g
  }

  /** The file table after a scan. */
  function Recorded(fs: seq<FileEntry>, es: seq<Entry>): (r: seq<FileEntry>)
    requires |fs| == FILES && forall k | 0 <= k < FILES :: fs[k].Valid()
  {
    seq(FILES, k requires 0 <= k < FILES => Slot(fs[k], k, es))
  }

  /** The file table before any scan: names all zero. */
  ghost predicate Unnamed(fs: seq<FileEntry>) {
    |fs| == FILES && forall k | 0 <= k < FILES :: fs[k].Valid() && fs[k].name == Zeros(56)
  }

  /** The long names of the directory are not zero and pairwise different. */
  ghost predicate NamesDiffer(es: seq<Entry>) {
    && (forall i | 0 <= i < |es| && LongName(es[i]) :: LongNameOf(es[i]) != Zeros(26))
    && forall i, j | 0 <= i < j < |es| && LongName(es[i]) && LongName(es[j]) :: LongNameOf(es[i]) != LongNameOf(es[j])
  }

  /** No long name comes after the first file recorded. */
  ghost predicate NoLaterName(es: seq<Entry>)
    requires Scanned(es).picked != []
  {
    forall i: nat | Scanned(es).picked[0] < i < |es| :: !LongName(es[i])
  }

  /** A file's slot holds its long name if and only if it is the first file and no long name follows it. */
  lemma NameIsRightIff(fs: seq<FileEntry>, es: seq<Entry>, k: nat, j: nat)
    requires Unnamed(fs) && NamesDiffer(es) && |Scanned(es).picked| <= FILES
    requires k < |Scanned(es).picked| && NameFor(es, Scanned(es).picked[k], j)
    ensures Recorded(fs, es)[k].name[..26] == LongNameOf(es[j]) <==> k == 0 && NoLaterName(es)
  {
    hide Scanned, LongNameOf, FirstCluster;
    if k > 0 {
      assert Recorded(fs, es)[k].name == fs[k].name && Zeros(56)[..26] == Zeros(26);
    } else {
      PickedHasName(es, Scanned(es).picked[0]);
      LastNameAfter(es, Scanned(es).picked[0], j);
      FirstSlotName(fs[0], es);
    }
  }

  lemma FirstSlotName(f: FileEntry, es: seq<Entry>)
    requires f.Valid() && Scanned(es).name != []
    ensures Scanned(es).name[0] < |es| && Slot(f, 0, es).name[..26] == LongNameOf(es[Scanned(es).name[0]])
  {
    hide Scanned, LongNameOf, FirstCluster;
    PickedInRange(es);
    assert Scanned(es).name[0] in Scanned(es).name;
  }

  /** Two long-name and file pairs: the first file gets the second one's name, the second file none. */
  lemma SecondNameOverwritesFirst(fs: seq<FileEntry>, es: seq<Entry>)
    requires Unnamed(fs) && es == TwoPairs()
    ensures Scanned(es).picked == [1, 3] && NameFor(es, 1, 0) && NameFor(es, 3, 2) && NamesDiffer(es)
    ensures Recorded(fs, es)[0].name[..26] == LongNameOf(es[2]) != LongNameOf(es[0])
    ensures Recorded(fs, es)[1].name[..26] == Zeros(26) != LongNameOf(es[2])
  {
    hide FirstCluster;
    TwoPairsAreScanned(es);
    assert LongNameOf(es[0])[0] == 0x61 && LongNameOf(es[2])[0] == 0x62 && Zeros(26)[0] == 0;
    assert Scanned(es).name == [2];
    FirstSlotName(fs[0], es);
    assert Recorded(fs, es)[1].name == fs[1].name && Zeros(56)[..26] == Zeros(26);
  }

  lemma {:induction false} FewerPickedBefore(es: seq<Entry>, n: nat)
    requires n <= |es|
    ensures |Scanned(es[..n]).picked| <= |Scanned(es).picked|
    decreases |es|
  {
    if n < |es| {
      var m := |es| - 1;
      FewerPickedBefore(es[..m], n);
      assert es[..m][..n] == es[..n];
    } else {
      assert es[..n] == es;
    }
  }

  /** The cluster of the last file of the table with the given short name; 0 if there is none. */
  function LastMatch(fs: seq<FileEntry>, path: seq<Byte>): nat
    requires |path| >= SHORT_NAME
  {
    if fs == [] then 0
    else if fs[|fs| - 1].shortName == path[..SHORT_NAME] then fs[|fs| - 1].firstCluster
    else LastMatch(fs[..|fs| - 1], path)
  }

  /** Lookup takes the last of several files with the same name. */
  lemma {:induction false} LookupIsLast(fs: seq<FileEntry>, path: seq<Byte>, k: nat)
    requires |path| >= SHORT_NAME && k < |fs| && fs[k].shortName == path[..SHORT_NAME]
    requires forall j | k < j < |fs| :: fs[j].shortName != path[..SHORT_NAME]
    ensures LastMatch(fs, path) == fs[k].firstCluster
  {
    if k < |fs| - 1 {
      LookupIsLast(fs[..|fs| - 1], path, k);
    }
  }

  lemma {:induction false} LookupFindsNothing(fs: seq<FileEntry>, path: seq<Byte>)
    requires |path| >= SHORT_NAME && forall j | 0 <= j < |fs| :: fs[j].shortName != path[..SHORT_NAME]
    ensures LastMatch(fs, path) == 0
  {
    if fs != [] {
      LookupFindsNothing(fs[..|fs| - 1], path);
    }
  }

  /** Memory with data stored at an address. */
  function Into(memory: seq<Byte>, address: nat, data: seq<Byte>): seq<Byte>
    requires address + |data| <= |memory|
  {
    memory[..address] + data + memory[address + |data|..]
  }

  /** Stored data is where it was stored, and everything else as it was. */
  lemma IntoSlices(before: seq<Byte>, address: nat, data: seq<Byte>, after: seq<Byte>)
    requires address + |data| <= |before| && after == Into(before, address, data)
    ensures |after| == |before| && after[address..address + |data|] == data
    ensures after[..address] == before[..address] && after[address + |data|..] == before[address + |data|..]
  {
  }

  lemma IntoNothing(memory: seq<Byte>, address: nat)
    requires address <= |memory|
    ensures Into(memory, address, []) == memory
  {
  }

  // ---------- A file on the disk ----------

  function BpbOn(disk: Disk): Bpb {
    BpbOf(SectorAt(disk, PARTITION_START))
  }

  function DirectoryOn(disk: Disk): seq<Entry> {
    UntilEnd(Entries(SectorAt(disk, DirectoryLba(BpbOn(disk)))))
  }

  /** The size in bytes a directory entry stores. */
  function StoredSize(e: Entry): nat {
    Word32(e, 28)
  }

  /** The k-th file of the directory has the name; no later file and no slot left over from fs has it. */
  ghost predicate NamesLast(fs: seq<FileEntry>, es: seq<Entry>, k: nat, path: seq<Byte>)
    requires |path| >= SHORT_NAME && |fs| == FILES
  {
    PickedInRange(es);
    var picked := Scanned(es).picked;
    && k < |picked| <= FILES && picked[k] in picked && es[picked[k]][..SHORT_NAME] == path[..SHORT_NAME]
    && (forall j | k < j < |picked| :: picked[j] in picked && es[picked[j]][..SHORT_NAME] != path[..SHORT_NAME])
    && forall j | |picked| <= j < FILES :: fs[j].shortName != path[..SHORT_NAME]
  }

  lemma NamedFileIsFound(fs: seq<FileEntry>, es: seq<Entry>, k: nat, path: seq<Byte>)
    requires |fs| == FILES && (forall j | 0 <= j < FILES :: fs[j].Valid()) && |path| >= SHORT_NAME
    requires NamesLast(fs, es, k, path)
    ensures k < |Scanned(es).picked| && Scanned(es).picked[k] < |es|
    ensures LastMatch(Recorded(fs, es), path) == FirstCluster(es[Scanned(es).picked[k]])
  {
    hide Scanned, FirstCluster, LastMatch;
    PickedInRange(es);
    LookupIsLast(Recorded(fs, es), path, k);
  }

  lemma OnlyFive(fs: seq<FileEntry>, es: seq<Entry>, k: nat, path: seq<Byte>)
    requires |path| >= SHORT_NAME && |fs| == FILES && NamesLast(fs, es, k, path)
    ensures |Scanned(es).picked| <= FILES
  {
  }

  /**
    The file of n bytes with the name is on the disk: its entry stores its size and the cluster its chain starts at,
    the chain has as many clusters as the size takes and holds the content.
   */
  ghost predicate Stored(disk: Disk, fs: seq<FileEntry>, path: seq<Byte>, n: nat,
                         k: nat, chain: seq<nat>, content: Content)
    requires |path| >= SHORT_NAME && |fs| == FILES
  {
    PickedInRange(DirectoryOn(disk));
    var es, bpb := DirectoryOn(disk), BpbOn(disk);
    && NamesLast(fs, es, k, path)
    && var e := es[Scanned(es).picked[k]];
       && StoredCluster(e) != 0 && StoredSize(e) == n && TakesChain(bpb, chain, n)
       && IsChain(FatOf(SectorAt(disk, FatLba(bpb))), StoredCluster(e), chain) && Laid(disk, bpb, chain, content)
  }

  /** Looking the name up and following the chain reads the file exactly when clusters are one sector or it fits one. */
  lemma StoredIsReadBack(disk: Disk, fs: seq<FileEntry>, path: seq<Byte>, n: nat,
                         k: nat, chain: seq<nat>, content: Content)
    requires |path| >= SHORT_NAME && |fs| == FILES && forall j | 0 <= j < FILES :: fs[j].Valid()
    requires Stored(disk, fs, path, n, k, chain, content)
    ensures var bpb, c := BpbOn(disk), LastMatch(Recorded(fs, DirectoryOn(disk)), path);
      && |Scanned(DirectoryOn(disk)).picked| <= FILES
      && c != 0 && Follow(FatOf(SectorAt(disk, FatLba(bpb))), c, FAT_ENTRIES) == chain != []
      && (Agree(ReadAlong(disk, bpb, chain), FileBytes(content), n) <==> bpb.sectorsPerCluster == 1 || n <= SECTOR)
  {
    hide Scanned, LastMatch, Recorded, FatOf, SectorAt, DirectoryOn, BpbOn, FatLba, FirstCluster, StoredCluster, Follow,
      ReadAlong, NamesLast, Laid, TakesChain, Agree;
    var es, bpb := DirectoryOn(disk), BpbOn(disk);
    assert |Scanned(es).picked| <= FILES by { OnlyFive(fs, es, k, path); }
    NamedFileIsFound(fs, es, k, path);
    var e, fat := es[Scanned(es).picked[k]], FatOf(SectorAt(disk, FatLba(bpb)));
    ChainsAreShort(fat, StoredCluster(e), chain);
    SmallClusterIsFound(e);
    ChainIsFollowed(fat, StoredCluster(e), chain, FAT_ENTRIES);
    ReadsBackIff(disk, bpb, fat, StoredCluster(e), chain, content, n);
  }

  lemma SmallClusterIsFound(e: Entry)
    requires StoredCluster(e) < FAT_ENTRIES
    ensures FirstCluster(e) == StoredCluster(e)
  {
    hide FirstCluster;
    FirstClusterIsStoredIff(e);
  }

  class Reader {
    const disk: Disk
    var bpb: Bpb
    const buffer: array<Byte>
    const files: array<FileEntry>

    ghost predicate Valid()
      reads this, files
    {
      && buffer.Length == SECTOR && files.Length == FILES
      && forall k | 0 <= k < FILES :: files[k].Valid()
    }

    constructor (disk: Disk)
      ensures Valid() && fresh(buffer) && fresh(files) && this.disk == disk
      ensures forall k | 0 <= k < FILES :: files[k].firstCluster == 0
    {
      this.disk := disk;
      bpb := Bpb(0, 0, 0, 0);
      buffer := new Byte[SECTOR](_ => 0);
      files := new FileEntry[FILES](_ => FileEntry(Zeros(56), Zeros(SHORT_NAME), 0, Zeros(4)));
    }

    /** Reads the parameter block and then the root directory. */
    method InitFat()
      requires Valid() && |Scanned(DirectoryOn(disk)).picked| <= FILES
      modifies `bpb, buffer, files
      ensures Valid() && bpb == BpbOn(disk) && files[..] == Recorded(old(files[..]), DirectoryOn(disk))
    {
      ReadSector(disk, PARTITION_START, buffer, 0);
      assert buffer[..] == SectorAt(disk, PARTITION_START);
      bpb := BpbOf(buffer[..]);
      ProcessDirectoryArea();
    }

    /** One sector of the root directory; more than five files would run past the table. */
    method ProcessDirectoryArea()
      requires Valid()
      requires |Scanned(UntilEnd(Entries(SectorAt(disk, DirectoryLba(bpb))))).picked| <= FILES
      modifies buffer, files
      ensures Valid() && files[..] == Recorded(old(files[..]), UntilEnd(Entries(SectorAt(disk, DirectoryLba(bpb)))))
    {
      hide BpbOf, Recorded, UntilEnd, Scanned, Entries, SectorAt, DirectoryLba;
      ghost var sector, fs := SectorAt(disk, DirectoryLba(bpb)), files[..];
      ghost var es := Entries(sector);
      ReadSector(disk, DirectoryLba(bpb), buffer, 0);
      assert buffer[..] == sector;
      RecordedNothing(fs);
      var fileIndex := 0;
      var i := 0;
      var foundfile := 0;
      ghost var n := 0;
      assert es[..0] == [];
      while i < SECTOR
        invariant n <= 16 && i == ENTRY * n && Valid()
        invariant forall k | 0 <= k < n :: !Ends(es[k])
        invariant fileIndex == |Scanned(es[..n]).picked| && (foundfile == 1 <==> Scanned(es[..n]).found)
        invariant files[..] == Recorded(fs, es[..n])
        modifies files
        decreases SECTOR - i
      {
        EntryAt(sector, n);
        if buffer[i] == 0 {
          UntilEndStops(es, n);
          return;
        }
        PicksFit(es, n);
        foundfile, fileIndex := ProcessEntry(buffer[i..i + ENTRY], foundfile, fileIndex, fs, es[..n + 1]);
        i := i + ENTRY;
        n := n + 1;
      }
      UntilEndStops(es, 16);
    }

    /** The body of the scan, for an entry that does not end it. */
    method ProcessEntry(e: Entry, foundfile: nat, fileIndex: nat, ghost fs: seq<FileEntry>, ghost es: seq<Entry>)
      returns (found: nat, index: nat)
      requires Valid() && es != [] && e == es[|es| - 1] && |Scanned(es).picked| <= FILES
      requires |fs| == FILES && forall k | 0 <= k < FILES :: fs[k].Valid()
      requires files[..] == Recorded(fs, es[..|es| - 1])
      requires fileIndex == |Scanned(es[..|es| - 1]).picked| && (foundfile == 1 <==> Scanned(es[..|es| - 1]).found)
      modifies files
      ensures Valid() && files[..] == Recorded(fs, es)
      ensures index == |Scanned(es).picked| && (found == 1 <==> Scanned(es).found)
    {
      hide Scanned, Recorded, Filled, WithName, LongNameOf;
      ScanStep(es);
      OneMoreEntry(fs, es);
      RecordedValid(fs, es);
      found, index := foundfile, fileIndex;
      if e[0] == ENTRY_UNUSED {
        return;
      }
      if e[11] == ENTRY_LFN {
        files[0] := WithName(files[0], LongNameOf(e));
        found := 1;
        return;
      }
      if e[11] == ENTRY_DIR {
        return;
      }
      if foundfile == 1 {
        files[fileIndex] := Filled(files[fileIndex], e);
        index := fileIndex + 1;
        found := 0;
      }
    }

    /** False when no file has the name; otherwise the first sector of every cluster of the chain, in order. */
    method ReadFile(path: seq<Byte>, memory: array<Byte>, address: nat) returns (found: bool)
      requires Valid() && |path| >= SHORT_NAME
      requires LastMatch(files[..], path) != 0 ==>
                 var chain := Follow(FatOf(SectorAt(disk, FatLba(bpb))), LastMatch(files[..], path), FAT_ENTRIES);
                 chain != [] && address + SECTOR * |chain| <= memory.Length
      modifies memory
      ensures found <==> old(LastMatch(files[..], path)) != 0
      ensures !found ==> memory[..] == old(memory[..])
      ensures found ==>
                var chain := Follow(FatOf(SectorAt(disk, FatLba(bpb))), old(LastMatch(files[..], path)), FAT_ENTRIES);
                && IsChain(FatOf(SectorAt(disk, FatLba(bpb))), old(LastMatch(files[..], path)), chain)
                && memory[..] == Into(old(memory[..]), address, ReadAlong(disk, bpb, chain))
    {
      hide BpbOf, Lba, Follow, FatOf, SectorAt, LastMatch, ReadAlong;
      var cluster := FindFile(path);
      if cluster == 0 {
        return false;
      }
      var fat := FatOf(SectorAt(disk, FatLba(bpb)));
      FollowIsChain(fat, cluster, FAT_ENTRIES);
      ReadChain(fat, cluster, memory, address, Follow(fat, cluster, FAT_ENTRIES));
      return true;
    }

    /**
      What the kernel does to load its font: afterwards the file's n bytes are in memory exactly when clusters are one
      sector or the file fits one, and nothing outside the sectors read has changed.
     */
    method LoadFile(path: seq<Byte>, memory: array<Byte>, address: nat,
                    ghost n: nat, ghost k: nat, ghost chain: seq<nat>, ghost content: Content) returns (found: bool)
      requires Valid() && |path| >= SHORT_NAME && memory != buffer
      requires Stored(disk, files[..], path, n, k, chain, content) && address + SECTOR * |chain| <= memory.Length
      modifies `bpb, buffer, files, memory
      ensures found && bpb == BpbOn(disk)
      ensures Agree(memory[address..address + SECTOR * |chain|], FileBytes(content), n) <==>
                bpb.sectorsPerCluster == 1 || n <= SECTOR
      ensures memory[..] == Into(old(memory[..]), address, ReadAlong(disk, bpb, chain))
      ensures memory[..address] == old(memory[..address])
      ensures memory[address + SECTOR * |chain|..] == old(memory[address + SECTOR * |chain|..])
    {
      hide Scanned, LastMatch, Recorded, FatOf, SectorAt, BpbOn, Follow, ReadAlong, IsChain, DirectoryOn, FatLba,
        Stored, Into, Agree;
      ghost var before := memory[..];
      StoredIsReadBack(disk, files[..], path, n, k, chain, content);
      InitFat();
      found := ReadFile(path, memory, address);
      IntoSlices(before, address, ReadAlong(disk, bpb, chain), memory[..]);
    }

    /** The walk along the chain; it ends because the chain does. */
    method ReadChain(fat: Fat, cluster: nat, memory: array<Byte>, address: nat, ghost chain: seq<nat>)
      requires IsChain(fat, cluster, chain) && address + SECTOR * |chain| <= memory.Length
      modifies memory
      ensures memory[..] == Into(old(memory[..]), address, ReadAlong(disk, bpb, chain))
    {
      hide Lba, SectorAt, NextCluster, ReadAlong, Into;
      ghost var before := memory[..];
      var next := cluster;
      var memIndex := 1;
      ReadOne(disk, bpb, chain, 0);
      IntoNothing(before, address);
      StoreSector(Lba(bpb, cluster), memory, address, address, before, []);
      while true
        invariant 1 <= memIndex <= |chain| && next == chain[memIndex - 1]
        invariant memory[..] == Into(before, address, ReadAlong(disk, bpb, chain[..memIndex]))
        decreases |chain| - memIndex
      {
        ChainStep(fat, cluster, chain, memIndex - 1);
        next := NextCluster(fat, next);
        if next == 0 {
          break;
        }
        ReadOne(disk, bpb, chain, memIndex);
        StoreSector(Lba(bpb, next), memory, address + memIndex * 0x200, address, before, ReadAlong(disk, bpb, chain[..memIndex]));
        memIndex := memIndex + 1;
      }
      assert chain[..memIndex] == chain;
    }

    /** One sector, right after the data already stored at address. */
    method StoreSector(lba: nat, memory: array<Byte>, dst: nat, ghost address: nat, ghost before: seq<Byte>, ghost data: seq<Byte>)
      requires address + |data| + SECTOR <= |before| == memory.Length && dst == address + |data|
      requires memory[..] == Into(before, address, data)
      modifies memory
      ensures memory[..] == Into(before, address, data + SectorAt(disk, lba))
    {
      hide SectorAt;
      ReadSector(disk, lba, memory, dst);
    }

    /** The loop over the file table. */
    method FindFile(path: seq<Byte>) returns (cluster: nat)
      requires Valid() && |path| >= SHORT_NAME
      ensures cluster == LastMatch(files[..], path)
    {
      cluster := 0;
      var i := 0;
      while i < FILES
        invariant 0 <= i <= FILES && cluster == LastMatch(files[..i], path)
      {
        var differs := Strcmp(files[i].shortName, path, SHORT_NAME);
        if differs == 0 {
          cluster := files[i].firstCluster;
        }
        i := i + 1;
        assert files[..i][..i - 1] == files[..i - 1];
      }
      assert files[..i] == files[..];
    }
  }

  // ---------- Steps of the two loops ----------

  lemma RecordedNothing(fs: seq<FileEntry>)
    requires |fs| == FILES && forall k | 0 <= k < FILES :: fs[k].Valid()
    ensures Recorded(fs, []) == fs && Scanned([]) == Scan(false, [], [])
  {
  }

  lemma RecordedValid(fs: seq<FileEntry>, es: seq<Entry>)
    requires |fs| == FILES && forall k | 0 <= k < FILES :: fs[k].Valid()
    ensures |Recorded(fs, es)| == FILES && forall k | 0 <= k < FILES :: Recorded(fs, es)[k].Valid()
  {
  }

  lemma EntryAt(s: Sector, n: nat)
    requires n < 16
    ensures Entries(s)[n] == s[ENTRY * n..ENTRY * n + ENTRY] && Entries(s)[n][0] == s[ENTRY * n]
    ensures Entries(s)[..n + 1][..n] == Entries(s)[..n] && Entries(s)[..n + 1][n] == Entries(s)[n]
  {
  }

  lemma PicksFit(es: seq<Entry>, n: nat)
    requires n < |es| && (forall k | 0 <= k <= n :: !Ends(es[k])) && |Scanned(UntilEnd(es)).picked| <= FILES
    ensures |Scanned(es[..n + 1]).picked| <= FILES
  {
    UntilEndBegins(es, n + 1);
    FewerPickedBefore(UntilEnd(es), n + 1);
  }

  lemma {:induction false} UntilEndBegins(es: seq<Entry>, n: nat)
    requires n <= |es| && forall k | 0 <= k < n :: !Ends(es[k])
    ensures n <= |UntilEnd(es)| && UntilEnd(es)[..n] == es[..n]
  {
    if n > 0 {
      UntilEndBegins(es[1..], n - 1);
      assert es[..n] == [es[0]] + es[1..][..n - 1];
      assert UntilEnd(es)[..n] == [es[0]] + UntilEnd(es[1..])[..n - 1];
    }
  }

  /** What one entry does to slot k, in the state the scan was in. */
  function Update(f: FileEntry, k: nat, s: Scan, e: Entry): (r: FileEntry)
    requires f.Valid()
    ensures r.Valid()
  {
    if LongName(e) && k == 0 then WithName(f, LongNameOf(e))
    else if Plain(e) && s.found && k == |s.picked| then Filled(f, e)
    else f
  }

  lemma SlotStep(f: FileEntry, k: nat, es: seq<Entry>)
    requires f.Valid() && es != []
    ensures var n := |es| - 1;
      Slot(f, k, es) == Update(Slot(f, k, es[..n]), k, Scanned(es[..n]), es[n])
  {
    hide Scanned, Plain, LongName, FirstCluster;
    PlainIsNotLong(es[|es| - 1]);
    ScanStep(es);
    PickedInRange(es[..|es| - 1]);
    PickedInRange(es);
    var s := Scanned(es[..|es| - 1]);
    assert forall i | 0 <= i < |s.picked| :: s.picked[i] in s.picked;
    assert forall i | 0 <= i < |s.name| :: s.name[i] in s.name;
  }

  lemma PlainIsNotLong(e: Entry)
    ensures !(Plain(e) && LongName(e))
  {
  }

  /** The table after one more entry. */
  lemma OneMoreEntry(fs: seq<FileEntry>, es: seq<Entry>)
    requires |fs| == FILES && (forall k | 0 <= k < FILES :: fs[k].Valid()) && es != []
    ensures var n := |es| - 1;
      var before := Recorded(fs, es[..n]);
      forall k | 0 <= k < FILES :: before[k].Valid() && Recorded(fs, es)[k] == Update(before[k], k, Scanned(es[..n]), es[n])
  {
    hide Scanned, Slot, Update;
    forall k | 0 <= k < FILES
      ensures Slot(fs[k], k, es) == Update(Slot(fs[k], k, es[..|es| - 1]), k, Scanned(es[..|es| - 1]), es[|es| - 1])
    {
      SlotStep(fs[k], k, es);
    }
  }

  lemma ReadOne(disk: Disk, bpb: Bpb, chain: seq<nat>, k: nat)
    requires k < |chain|
    ensures ReadAlong(disk, bpb, chain[..k + 1]) == ReadAlong(disk, bpb, chain[..k]) + SectorAt(disk, Lba(bpb, chain[k]))
    ensures chain[..0] == [] && ReadAlong(disk, bpb, []) == []
    ensures k == 0 ==> ReadAlong(disk, bpb, chain[..1]) == [] + SectorAt(disk, Lba(bpb, chain[0]))
  {
    assert chain[..k + 1][..k] == chain[..k];
  }

  lemma ChainStep(fat: Fat, c: nat, chain: seq<nat>, j: nat)
    requires IsChain(fat, c, chain) && j < |chain|
    ensures chain[j] < FAT_ENTRIES
    ensures NextCluster(fat, chain[j]) == if j == |chain| - 1 then 0 else chain[j + 1]
    ensures j < |chain| - 1 ==> chain[j + 1] != 0
  {
    if j < |chain| - 1 {
      assert Links(fat, chain, j);
    }
  }
}
