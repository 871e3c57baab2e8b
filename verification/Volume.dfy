/**
  A FAT32 volume as a formatter lays it out (Microsoft's fatgen103: the
  parameter block, the reserved sectors, the tables, then the clusters), and
  what the reader finds on it.  The byte offsets here are the format's own.
 */
module Volume {
  import opened Bits
  import opened Bytes
  import opened Disk
  import opened Directory
  import opened ClusterChain
  import opened Fat32

  // ---------- The parameter block ----------

  predicate Storable(bpb: Bpb) {
    bpb.reserved < 0x1_0000 && bpb.sectorsPerFat < 0x1_0000_0000
  }

  /** A boot sector with the four fields at their places; s has all other bytes. */
  function BootSector(s: Sector, bpb: Bpb): Sector
    requires Storable(bpb)
  {
    s[..13] + [bpb.sectorsPerCluster] + Encode16(bpb.reserved) + [bpb.fats] + s[17..36] + Encode32(bpb.sectorsPerFat) + s[40..]
  }

  lemma ParameterBlockIsRead(s: Sector, bpb: Bpb)
    requires Storable(bpb)
    ensures BpbOf(BootSector(s, bpb)) == bpb
  {
    hide Encode16, Encode32, Word16, Word32;
    var b := BootSector(s, bpb);
    assert b[14..16] == Encode16(bpb.reserved) && b[36..40] == Encode32(bpb.sectorsPerFat);
    Written16(b, 14, bpb.reserved);
    Written32(b, 36, bpb.sectorsPerFat);
  }

  // ---------- The table ----------

  predicate TableStorable(fat: Fat) {
    forall i | 0 <= i < FAT_ENTRIES :: fat[i] < 0x1_0000_0000
  }

  /** A table sector: 128 numbers of four bytes. */
  function TableSector(fat: Fat): Sector
    requires TableStorable(fat)
  {
    seq(SECTOR, k requires 0 <= k < SECTOR => Encode32(fat[k / 4])[k % 4])
  }

  lemma TableIsRead(fat: Fat)
    requires TableStorable(fat)
    ensures FatOf(TableSector(fat)) == fat
  {
    hide Encode32, Word32;
    var s := TableSector(fat);
    forall i | 0 <= i < FAT_ENTRIES
      ensures Word32(s, 4 * i) == fat[i]
    {
      assert s[4 * i..4 * i + 4] == Encode32(fat[i]);
      Written32(s, 4 * i, fat[i]);
    }
  }

  /** Each cluster of the chain names the next one, the last has the end mark the reader looks for. */
  ghost predicate Linked(fat: Fat, chain: seq<nat>) {
    && chain != [] && (forall j | 0 <= j < |chain| :: 0 < chain[j] < 128)
    && (forall j | 0 <= j < |chain| - 1 :: fat[chain[j]] == chain[j + 1])
    && fat[chain[|chain| - 1]] == 0x0FFF_FFFF
  }

  lemma LinkedIsChain(fat: Fat, chain: seq<nat>)
    requires Linked(fat, chain)
    ensures IsChain(fat, chain[0], chain)
  {
    forall j | 0 <= j < |chain| - 1
      ensures Links(fat, chain, j)
    {
      assert 0 < chain[j + 1] < 128;
    }
  }

  /** A chain the reader follows is linked like this, but for a 0 in place of the end mark. */
  lemma ChainIsLinked(fat: Fat, c: nat, chain: seq<nat>)
    requires IsChain(fat, c, chain)
    ensures fat[chain[|chain| - 1]] in [0, 0x0FFF_FFFF]
    ensures forall j | 0 <= j < |chain| - 1 :: fat[chain[j]] == chain[j + 1]
    ensures forall j | 0 < j < |chain| :: chain[j] != 0
    ensures fat[c] in [0, 0x0FFF_FFFF] || 0 < fat[c] < 128
  {
    forall j | 0 <= j < |chain| - 1
      ensures fat[chain[j]] == chain[j + 1]
    {
      assert Links(fat, chain, j);
    }
    forall j | 0 < j < |chain|
      ensures chain[j] != 0
    {
      assert Links(fat, chain, j - 1);
    }
    if |chain| > 1 {
      assert Links(fat, chain, 0);
    }
  }

  /** The format's other end marks are not known to the reader: it takes them for clusters outside the table. */
  lemma OtherEndMarksAreFollowed(fat: Fat, c: nat, chain: seq<nat>)
    requires c < 128 && 0x0FFF_FFF8 <= fat[c] < 0x0FFF_FFFF
    ensures !IsChain(fat, c, chain)
  {
    if IsChain(fat, c, chain) {
      ChainIsLinked(fat, c, chain);
    }
  }

  // ---------- The sectors of the volume ----------

  datatype Volume = Volume(boot: Sector, spare: seq<Sector>, tables: seq<seq<Sector>>, data: seq<Sector>)

  function AllTables(tables: seq<seq<Sector>>): seq<Sector> {
    if tables == [] then [] else tables[0] + AllTables(tables[1..])
  }

  /** The volume's sectors in order. */
  function Image(v: Volume): seq<Sector> {
    [v.boot] + v.spare + AllTables(v.tables) + v.data
  }

  /** The parameter block says how many reserved sectors, tables and sectors a table there are. */
  ghost predicate Formatted(v: Volume, bpb: Bpb) {
    && BpbOf(v.boot) == bpb && bpb.sectorsPerCluster > 0 && bpb.fats > 0 && bpb.sectorsPerFat > 0
    && bpb.reserved == 1 + |v.spare| && |v.tables| == bpb.fats
    && forall i | 0 <= i < |v.tables| :: |v.tables[i]| == bpb.sectorsPerFat
  }

  /** The disk holds the volume in the partition that begins at sector 2048. */
  ghost predicate Holds(disk: Disk, v: Volume) {
    && 2048 + |Image(v)| <= LBA_LIMIT
    && forall a: nat | a < |Image(v)| :: SectorAt(disk, 2048 + a) == Image(v)[a]
  }

  lemma {:induction false} TablesLength(tables: seq<seq<Sector>>, size: nat)
    requires forall i | 0 <= i < |tables| :: |tables[i]| == size
    ensures |AllTables(tables)| == |tables| * size
  {
    if tables != [] {
      TablesLength(tables[1..], size);
      assert (|tables| - 1) * size + size == |tables| * size;
    }
  }

  lemma InImage(disk: Disk, v: Volume, bpb: Bpb, a: nat)
    requires Formatted(v, bpb) && Holds(disk, v) && a < |v.data|
    ensures var first := bpb.reserved + bpb.fats * bpb.sectorsPerFat;
      && 2048 + first + a < LBA_LIMIT && SectorAt(disk, 2048 + first + a) == v.data[a]
  {
    hide SectorAt, AllTables;
    TablesLength(v.tables, bpb.sectorsPerFat);
    var first := bpb.reserved + bpb.fats * bpb.sectorsPerFat;
    assert Image(v)[first + a] == v.data[a];
  }

  /** The reader's three block addresses lead to the parameter block, the first table and the clusters. */
  lemma ParameterBlockIsFound(disk: Disk, v: Volume, bpb: Bpb)
    requires Formatted(v, bpb) && Holds(disk, v)
    ensures SectorAt(disk, PARTITION_START) == v.boot && BpbOn(disk) == bpb
  {
    hide SectorAt, AllTables, BpbOf;
    assert Image(v)[0] == v.boot && SectorAt(disk, 2048 + 0) == Image(v)[0];
  }

  lemma TableIsFound(disk: Disk, v: Volume, bpb: Bpb)
    requires Formatted(v, bpb) && Holds(disk, v)
    ensures SectorAt(disk, FatLba(bpb)) == v.tables[0][0]
  {
    hide SectorAt, BpbOf;
    TablesLength(v.tables, bpb.sectorsPerFat);
    var n := |v.spare| + 1;
    assert |v.tables[0]| == bpb.sectorsPerFat && AllTables(v.tables)[0] == v.tables[0][0];
    assert |AllTables(v.tables)| > 0 && n < |Image(v)|;
    assert Image(v)[n] == AllTables(v.tables)[0];
    assert SectorAt(disk, 2048 + n) == Image(v)[n];
  }

  /** Sector o of cluster c: d sectors into the data, where clusters are numbered from 2. */
  lemma ClusterIsFound(disk: Disk, v: Volume, bpb: Bpb, c: nat, o: nat, d: nat)
    requires Formatted(v, bpb) && Holds(disk, v)
    requires c >= 2 && d == (c - 2) * bpb.sectorsPerCluster && d + o < |v.data|
    ensures SectorAt(disk, Lba(bpb, c) + o) == v.data[d + o]
  {
    hide SectorAt, BpbOf, AllTables, Formatted, Holds;
    InImage(disk, v, bpb, d + o);
    InImage(disk, v, bpb, d);
  }

  function Product(a: nat, b: nat): (p: nat)
    ensures p == a * b
  {
    a * b
  }

  /** The directory is the first cluster, number 2, and lies as far behind the first table as all tables are long. */
  lemma DirectoryIsFirstCluster(bpb: Bpb)
    ensures DirectoryLba(bpb) == Lba(bpb, 2)
    ensures DirectoryLba(bpb) == (FatLba(bpb) + bpb.fats * bpb.sectorsPerFat) % LIMIT32
    ensures 0 < bpb.fats * bpb.sectorsPerFat < LIMIT32 ==> DirectoryLba(bpb) != FatLba(bpb)
  {
    var n: nat := Product(bpb.fats, bpb.sectorsPerFat);
    assert bpb.sectorsPerFat * bpb.fats == n;
    var p: nat := PARTITION_START + bpb.reserved;
    WrapSum(p, n);
    if 0 < n < LIMIT32 && (p + n) % LIMIT32 == p % LIMIT32 {
      NoShortWrap(p, n);
    }
  }

  lemma WrapSum(p: nat, n: nat)
    ensures (p % LIMIT32 + n) % LIMIT32 == (p + n) % LIMIT32
  {
    var q, r := (p + n) / LIMIT32, (p + n) % LIMIT32;
    DivUnique(p % LIMIT32 + n, LIMIT32, q - p / LIMIT32, r);
  }

  lemma NoShortWrap(p: nat, n: nat)
    requires 0 < n < LIMIT32
    ensures (p + n) % LIMIT32 != p % LIMIT32
  {
  }

  lemma DirectoryIsFound(disk: Disk, v: Volume, bpb: Bpb)
    requires Formatted(v, bpb) && Holds(disk, v) && v.data != []
    ensures SectorAt(disk, DirectoryLba(bpb)) == v.data[0]
    ensures DirectoryOn(disk) == UntilEnd(Entries(v.data[0]))
  {
    hide SectorAt, BpbOf, AllTables, DirectoryLba, Lba, Entries, UntilEnd, Holds, Formatted;
    DirectoryIsFirstCluster(bpb);
    ParameterBlockIsFound(disk, v, bpb);
    FirstCluster0(disk, v, bpb);
  }

  lemma FirstCluster0(disk: Disk, v: Volume, bpb: Bpb)
    requires Formatted(v, bpb) && Holds(disk, v) && v.data != []
    ensures SectorAt(disk, Lba(bpb, 2)) == v.data[0]
  {
    hide SectorAt, BpbOf, AllTables;
    ClusterIsFound(disk, v, bpb, 2, 0, 0);
  }

  // ---------- The directory ----------

  /** What a directory says about a file: a long name of 13 two-byte characters, the short name, cluster and size. */
  datatype Listing = Listing(longName: seq<Byte>, shortName: seq<Byte>, cluster: nat, size: nat)

  predicate ListingOk(f: Listing) {
    && |f.longName| == 26 && |f.shortName| == 11 && f.shortName[0] != 0 && f.shortName[0] != 0xe5
    && f.cluster < 0x1_0000_0000 && f.size < 0x1_0000_0000
  }

  /** The long-name entry: sequence number, three pieces of the name around the attribute, type, checksum and a zero. */
  function LongEntry(f: Listing): Entry
    requires ListingOk(f)
  {
    [0x41] + f.longName[..10] + [0x0f, 0, 0] + f.longName[10..22] + [0, 0] + f.longName[22..]
  }

  /** The short entry: name, attribute, times, and the cluster in two halves around the date. */
  function ShortEntry(f: Listing): Entry
    requires ListingOk(f)
  {
    f.shortName + [0x20] + Zeros(8) + Encode16(f.cluster / 0x1_0000) + Zeros(4) + Encode16(f.cluster % 0x1_0000) + Encode32(f.size)
  }

  /** Two entries for each file. */
  function Listed(files: seq<Listing>): (es: seq<Entry>)
    requires forall k | 0 <= k < |files| :: ListingOk(files[k])
    ensures |es| == 2 * |files|
  {
    if files == [] then []
    else Listed(files[..|files| - 1]) + [LongEntry(files[|files| - 1])] + [ShortEntry(files[|files| - 1])]
  }

  lemma EntriesAreRead(f: Listing)
    requires ListingOk(f)
    ensures var e := LongEntry(f); e[0] == 0x41 && e[11] == 0x0f && LongNameOf(e) == f.longName
    ensures var e := ShortEntry(f);
      && e[0] == f.shortName[0] && e[11] == 0x20 && e[..11] == f.shortName && e[28..32] == Encode32(f.size)
      && StoredCluster(e) == f.cluster && StoredSize(e) == f.size && FirstCluster(e) == f.cluster % 0x1_0000
  {
    hide Encode16, Encode32, Word16, Word32, FirstCluster;
    LongIsRead(f);
    ShortIsRead(f);
    HighBitsAreLost(ShortEntry(f));
  }

  lemma LongIsRead(f: Listing)
    requires ListingOk(f)
    ensures var e := LongEntry(f); e[0] == 0x41 && e[11] == 0x0f && LongNameOf(e) == f.longName
  {
    var e := LongEntry(f);
    assert e[1..11] == f.longName[..10] && e[14..26] == f.longName[10..22] && e[28..32] == f.longName[22..];
  }

  lemma ShortIsRead(f: Listing)
    requires ListingOk(f)
    ensures var e := ShortEntry(f);
      && e[0] == f.shortName[0] && e[11] == 0x20 && e[..11] == f.shortName && e[28..32] == Encode32(f.size)
      && Word16(e, 20) == f.cluster / 0x1_0000 && Word16(e, 26) == f.cluster % 0x1_0000 && Word32(e, 28) == f.size
  {
    hide Encode16, Encode32, Word16, Word32;
    var e := ShortEntry(f);
    assert e[20..22] == Encode16(f.cluster / 0x1_0000) && e[26..28] == Encode16(f.cluster % 0x1_0000);
    Written16(e, 20, f.cluster / 0x1_0000);
    Written16(e, 26, f.cluster % 0x1_0000);
    Written32(e, 28, f.size);
  }

  /** The scan finds the files one after the other. */
  lemma {:induction false} ListedIsScanned(files: seq<Listing>)
    requires forall k | 0 <= k < |files| :: ListingOk(files[k])
    ensures var s := Scanned(Listed(files));
      && !s.found && s.picked == seq(|files|, k requires 0 <= k < |files| => 2 * k + 1)
      && s.name == if files == [] then [] else [2 * |files| - 2]
  {
    hide LongEntry, ShortEntry, Scanned;
    if files == [] {
      NothingWaits();
    } else {
      var before, f := files[..|files| - 1], files[|files| - 1];
      ListedIsScanned(before);
      EntriesAreRead(f);
      EntryEffect(Listed(before), LongEntry(f));
      EntryEffect(Listed(before) + [LongEntry(f)], ShortEntry(f));
    }
  }

  lemma {:induction false} ListedAt(files: seq<Listing>, k: nat)
    requires forall j | 0 <= j < |files| :: ListingOk(files[j])
    requires k < |files|
    ensures Listed(files)[2 * k] == LongEntry(files[k]) && Listed(files)[2 * k + 1] == ShortEntry(files[k])
    decreases |files|
  {
    hide LongEntry, ShortEntry;
    if k < |files| - 1 {
      ListedAt(files[..|files| - 1], k);
    }
  }

  /** The k-th file recorded is the k-th listed. */
  lemma PickedIsListed(files: seq<Listing>, k: nat)
    requires (forall j | 0 <= j < |files| :: ListingOk(files[j])) && k < |files|
    ensures var es, s := Listed(files), Scanned(Listed(files));
      && |s.picked| == |files| && s.picked[k] == 2 * k + 1 && s.picked[k] in s.picked && s.name == [2 * |files| - 2]
      && es[2 * k] == LongEntry(files[k]) && es[2 * k + 1] == ShortEntry(files[k])
  {
    hide Scanned, Listed, LongEntry, ShortEntry, ListingOk;
    ListedIsScanned(files);
    ListedAt(files, k);
  }

  lemma SlotFrom(f: FileEntry, k: nat, es: seq<Entry>, i: nat, j: nat)
    requires f.Valid() && k < |Scanned(es).picked| && i == Scanned(es).picked[k] && Scanned(es).name == [j] && j < |es|
    ensures i < |es|
    ensures var r := Slot(f, k, es);
      && r.shortName == es[i][..11] && r.firstCluster == FirstCluster(es[i]) && r.size == es[i][28..32]
      && r.name == if k == 0 then LongNameOf(es[j]) + f.name[26..] else f.name
  {
    hide Scanned, FirstCluster, LongNameOf;
    PickedInRange(es);
    assert Scanned(es).picked[k] in Scanned(es).picked;
  }

  /** The file table after a directory of up to five files: all they say, but the high half of the cluster and the names. */
  lemma DirectoryIsRecorded(fs: seq<FileEntry>, files: seq<Listing>, k: nat)
    requires |fs| == 5 && forall j | 0 <= j < FILES :: fs[j].Valid()
    requires |files| <= FILES && (forall j | 0 <= j < |files| :: ListingOk(files[j])) && k < |files|
    ensures var r := Recorded(fs, Listed(files))[k];
      && r.shortName == files[k].shortName && r.firstCluster == files[k].cluster % 0x1_0000
      && r.size == Encode32(files[k].size)
      && r.name == if k == 0 then files[|files| - 1].longName + fs[0].name[26..] else fs[k].name
  {
    hide LongEntry, ShortEntry, Scanned, FirstCluster, LongNameOf, Listed, Slot, StoredCluster, StoredSize, Encode32;
    var n := |files| - 1;
    PickedIsListed(files, k);
    PickedIsListed(files, n);
    SlotFrom(fs[k], k, Listed(files), 2 * k + 1, 2 * n);
    EntriesAreRead(files[k]);
    EntriesAreRead(files[n]);
  }

  /** Slots past the last file stay as they are. */
  lemma OtherSlotsStay(fs: seq<FileEntry>, files: seq<Listing>, k: nat)
    requires |fs| == FILES && forall j | 0 <= j < FILES :: fs[j].Valid()
    requires files != [] && |files| <= k < FILES && forall j | 0 <= j < |files| :: ListingOk(files[j])
    ensures Recorded(fs, Listed(files))[k] == fs[k]
  {
    hide LongEntry, ShortEntry, Scanned, FirstCluster, LongNameOf;
    ListedIsScanned(files);
  }

  // ---------- A file on the volume ----------

  /** Where sector o of cluster c lies in the data. */
  function Place(bpb: Bpb, c: nat, o: nat): int {
    (c - 2) * bpb.sectorsPerCluster + o
  }

  /** The clusters of the chain hold the content. */
  ghost predicate InClusters(v: Volume, bpb: Bpb, chain: seq<nat>, content: Content) {
    && Fits(bpb, chain, content) && (forall i | 0 <= i < |chain| :: chain[i] >= 2)
    && forall i: nat, o: nat | i < |chain| && o < |content[i]| ::
         0 <= Place(bpb, chain[i], o) < |v.data| && v.data[Place(bpb, chain[i], o)] == content[i][o]
  }

  lemma ContentIsLaid(disk: Disk, v: Volume, bpb: Bpb, chain: seq<nat>, content: Content)
    requires Formatted(v, bpb) && Holds(disk, v) && InClusters(v, bpb, chain, content)
    ensures Laid(disk, bpb, chain, content)
  {
    hide SectorAt, BpbOf, AllTables, Lba, Formatted, Holds, Image;
    forall i: nat, o: nat | i < |chain| && o < |content[i]|
      ensures SectorAt(disk, ContentLba(bpb, chain, i, o)) == content[i][o]
    {
      assert 0 <= Place(bpb, chain[i], o) < |v.data| && v.data[Place(bpb, chain[i], o)] == content[i][o];
      FoundAt(disk, v, bpb, chain[i], o);
    }
  }

  lemma FoundAt(disk: Disk, v: Volume, bpb: Bpb, c: nat, o: nat)
    requires Formatted(v, bpb) && Holds(disk, v) && c >= 2 && 0 <= Place(bpb, c, o) < |v.data|
    ensures SectorAt(disk, Lba(bpb, c) + o) == v.data[Place(bpb, c, o)]
  {
    hide SectorAt, BpbOf, AllTables, Lba, Formatted, Holds, Image;
    ClusterIsFound(disk, v, bpb, c, o, Product(c - 2, bpb.sectorsPerCluster));
  }

  /** File k has the name, no later one has, and the name is not what an unused slot holds. */
  ghost predicate LastNamed(fs: seq<FileEntry>, files: seq<Listing>, k: nat, path: seq<Byte>)
    requires |path| >= SHORT_NAME && |fs| == FILES
  {
    && k < |files| <= FILES && files[k].shortName == path[..SHORT_NAME]
    && (forall j | k < j < |files| :: files[j].shortName != path[..SHORT_NAME])
    && forall j | |files| <= j < FILES :: fs[j].shortName != path[..SHORT_NAME]
  }

  lemma ListedNamesLast(fs: seq<FileEntry>, files: seq<Listing>, k: nat, path: seq<Byte>)
    requires |path| >= SHORT_NAME && |fs| == FILES && (forall j | 0 <= j < |files| :: ListingOk(files[j]))
    requires LastNamed(fs, files, k, path)
    ensures NamesLast(fs, Listed(files), k, path)
    ensures Scanned(Listed(files)).picked[k] == 2 * k + 1
  {
    hide Scanned, LongEntry, ShortEntry, Listed, ListingOk, NamedAs, NamesLast;
    forall j | 0 <= j < |files|
      ensures NamedAs(Listed(files), j, files[j].shortName)
    {
      ListedAs(files, j);
    }
    PickedIsListed(files, k);
    NamesLastFrom(fs, Listed(files), k, path, seq(|files|, j requires 0 <= j < |files| => files[j].shortName));
  }

  lemma NamesLastFrom(fs: seq<FileEntry>, es: seq<Entry>, k: nat, path: seq<Byte>, names: seq<seq<Byte>>)
    requires |path| >= SHORT_NAME && |fs| == FILES && |Scanned(es).picked| == |names| <= FILES && k < |names|
    requires forall j | 0 <= j < |names| :: NamedAs(es, j, names[j])
    requires names[k] == path[..SHORT_NAME] && forall j | k < j < |names| :: names[j] != path[..SHORT_NAME]
    requires forall j | |names| <= j < FILES :: fs[j].shortName != path[..SHORT_NAME]
    ensures NamesLast(fs, es, k, path)
  {
    hide Scanned;
    PickedInRange(es);
    var picked := Scanned(es).picked;
    assert NamedAs(es, k, names[k]);
    forall j | k < j < |picked|
      ensures picked[j] in picked && es[picked[j]][..SHORT_NAME] != path[..SHORT_NAME]
    {
      assert NamedAs(es, j, names[j]);
    }
  }

  /** The j-th file recorded has this short name. */
  ghost predicate NamedAs(es: seq<Entry>, j: nat, name: seq<Byte>) {
    && j < |Scanned(es).picked| && Scanned(es).picked[j] in Scanned(es).picked && Scanned(es).picked[j] < |es|
    && es[Scanned(es).picked[j]][..SHORT_NAME] == name
  }

  lemma ListedAs(files: seq<Listing>, j: nat)
    requires (forall i | 0 <= i < |files| :: ListingOk(files[i])) && j < |files|
    ensures NamedAs(Listed(files), j, files[j].shortName)
  {
    hide Scanned, LongEntry, ShortEntry, Listed, StoredCluster, StoredSize, FirstCluster, LongNameOf, Encode32;
    PickedIsListed(files, j);
    EntriesAreRead(files[j]);
  }

  /** What the formatter and whoever wrote the files have put on the volume. */
  ghost predicate Carries(v: Volume, bpb: Bpb, fat: Fat, files: seq<Listing>) {
    && Formatted(v, bpb) && v.data != [] && TableStorable(fat) && v.tables[0][0] == TableSector(fat)
    && (forall j | 0 <= j < |files| :: ListingOk(files[j])) && UntilEnd(Entries(v.data[0])) == Listed(files)
  }

  /**
    A file of a formatted volume, reached by its name through the directory, the table and the clusters: everything
    the reader needs of the disk.  Reader.LoadFile then says what is read.
   */
  lemma VolumeFileIsStored(disk: Disk, v: Volume, bpb: Bpb, fat: Fat, files: seq<Listing>, fs: seq<FileEntry>,
                           path: seq<Byte>, k: nat, chain: seq<nat>, content: Content)
    requires |path| >= SHORT_NAME && |fs| == FILES && Holds(disk, v) && Carries(v, bpb, fat, files)
    requires LastNamed(fs, files, k, path)
    requires Linked(fat, chain) && chain[0] == files[k].cluster && TakesChain(bpb, chain, files[k].size)
    requires InClusters(v, bpb, chain, content)
    ensures BpbOn(disk) == bpb && Stored(disk, fs, path, files[k].size, k, chain, content)
  {
    hide SectorAt, BpbOf, FatOf, TableSector, TableStorable, Scanned, Listed, Entries, UntilEnd, Linked, IsChain, Laid,
      TakesChain, NamesLast, LastNamed, InClusters, StoredCluster, StoredSize, FatLba, DirectoryOn, BpbOn, LongEntry,
      ShortEntry, Formatted, Holds, ListingOk;
    ParameterBlockIsFound(disk, v, bpb);
    FirstTable(disk, v, bpb, fat, files);
    DirectoryIsFound(disk, v, bpb);
    NamedIsListed(fs, files, k, path);
    ListedNamesLast(fs, files, k, path);
    PickedIsListed(files, k);
    EntriesAreRead(files[k]);
    LinkedIsChain(fat, chain);
    FirstIsPositive(fat, chain);
    ContentIsLaid(disk, v, bpb, chain, content);
  }

  lemma NamedIsListed(fs: seq<FileEntry>, files: seq<Listing>, k: nat, path: seq<Byte>)
    requires |path| >= SHORT_NAME && |fs| == FILES && LastNamed(fs, files, k, path)
    ensures k < |files| <= FILES
  {
  }

  lemma FirstIsPositive(fat: Fat, chain: seq<nat>)
    requires Linked(fat, chain)
    ensures chain != [] && chain[0] > 0
  {
  }

  lemma FirstTable(disk: Disk, v: Volume, bpb: Bpb, fat: Fat, files: seq<Listing>)
    requires Holds(disk, v) && Carries(v, bpb, fat, files)
    ensures FatOf(SectorAt(disk, FatLba(bpb))) == fat
  {
    hide SectorAt, BpbOf, FatOf, TableSector, FatLba, Entries, UntilEnd, Listed;
    TableIsFound(disk, v, bpb);
    TableIsRead(fat);
  }
}
