/** Disks as a formatting program writes them: the boot record, the file allocation table
    and its copies, and the clusters one after the other. What the driver reads from such a
    disk is what was written. */
module DiskImages {
  import opened Bytes
  import opened Chains
  import opened Chunks
  import opened FatFormat
  import opened LittleEndian

  /** Sectors before the table, table entries, number of tables, cluster contents. */
  datatype Disk = Disk(boot: seq<Sector>, fat: seq<nat>, copies: nat, perCluster: nat, clusters: seq<seq<Sector>>) {
    ghost predicate Good() {
      && 0 < perCluster < 256 && |fat| % 128 == 0 && 4 * |fat| < TWO_32 && 0 < copies
      && (forall i | 0 <= i < |fat| :: fat[i] < TWO_32)
      && Uniform(clusters, perCluster) && |clusters| + 2 <= |fat| && |Sectors()| <= TWO_32
    }

    ghost function Table(): (s: seq<Sector>)
      requires forall i | 0 <= i < |fat| :: fat[i] < TWO_32
      ensures |s| == |fat| / 128
    {
      seq(|fat| / 128, k requires 0 <= k < |fat| / 128 => TableSector(fat, k))
    }

    ghost function Sectors(): seq<Sector>
      requires forall i | 0 <= i < |fat| :: fat[i] < TWO_32
    {
      boot + Repeated(Table(), copies) + Flat(clusters)
    }

    /** The volume with its table behind the first sectors and its data behind the tables. */
    ghost function Mounted(): Volume
      requires forall i | 0 <= i < |fat| :: fat[i] < TWO_32
    {
      Volume(Sectors(), |boot|, |boot| + Full(copies, |fat| / 128), perCluster)
    }

    /** The bytes of the cluster numbered `c`: numbers begin with 2. */
    ghost function Bytes(c: nat): seq<Byte>
      requires 2 <= c < |clusters| + 2
    {
      Flat(clusters[c - 2])
    }
  }

  /** 128 entries to a sector, four bytes each, the lowest first. */
  ghost function TableSector(fat: seq<nat>, k: nat): Sector
    requires 128 * k + 128 <= |fat| && forall i | 0 <= i < |fat| :: fat[i] < TWO_32
  {
    seq(SECTOR, i requires 0 <= i < SECTOR => LE32(fat[128 * k + i / 4])[i % 4])
  }

  ghost function Repeated(s: seq<Sector>, n: nat): (r: seq<Sector>)
    ensures |r| == Full(n, |s|) && (n > 0 ==> s <= r)
  {
    if n == 0 then [] else s + Repeated(s, n - 1)
  }

  lemma TableReads(d: Disk, k: nat)
    requires d.Good() && k < |d.fat| / 128
    ensures |d.boot| + k < TWO_32 && d.Mounted().Read(|d.boot| + k) == TableSector(d.fat, k)
  {
    var table, copies := d.Table(), Repeated(d.Table(), d.copies);
    assert d.Sectors() == d.boot + (copies + Flat(d.clusters));
    assert (copies + Flat(d.clusters))[k] == copies[k] == table[k];
  }

  lemma EntryPlace(c: nat)
    requires 4 * c < TWO_32
    ensures Wrap(c * 4) == 4 * c && 4 * c / SECTOR == c / 128 && 4 * c % SECTOR == 4 * (c % 128)
    ensures 128 * (c / 128) + c % 128 == c
  {
  }

  lemma NextOf(v: Volume, c: nat, k: nat, j: nat, sector: Sector)
    requires Wrap(c * 4) / SECTOR == k && Wrap(c * 4) % SECTOR == 4 * j && j < 128
    requires v.fatStart + k < TWO_32 && v.Read(v.fatStart + k) == sector
    ensures v.Next(c) == Word32(sector, 4 * j) % 0x1000_0000
  {
    assert Wrap(v.fatStart + k) == v.fatStart + k;
  }

  lemma NextReadsAt(d: Disk, c: nat, k: nat, j: nat)
    requires d.Good() && c < |d.fat| && c == 128 * k + j && j < 128
    requires Wrap(c * 4) / SECTOR == k && Wrap(c * 4) % SECTOR == 4 * j
    ensures d.Mounted().Next(c) == d.fat[c] % 0x1000_0000
  {
    TableReads(d, k);
    NextOf(d.Mounted(), c, k, j, TableSector(d.fat, k));
    EntryAt(d.fat, k, j);
  }

  /** The entry of cluster `c`, as far as the driver looks at it. */
  lemma NextReads(d: Disk, c: nat)
    requires d.Good() && c < |d.fat|
    ensures d.Mounted().Next(c) == d.fat[c] % 0x1000_0000
  {
    EntryPlace(c);
    NextReadsAt(d, c, c / 128, c % 128);
  }

  lemma EntryAt(fat: seq<nat>, k: nat, j: nat)
    requires 128 * k + 128 <= |fat| && j < 128 && forall i | 0 <= i < |fat| :: fat[i] < TWO_32
    ensures Word32(TableSector(fat, k), 4 * j) == fat[128 * k + j]
  {
    var s := TableSector(fat, k);
    assert s[4 * j..4 * j + 4] == LE32(fat[128 * k + j]);
    Reads32(s, 4 * j, fat[128 * k + j]);
  }

  lemma {:induction false} FlatAt<T>(p: seq<seq<T>>, size: nat, i: nat, k: nat)
    requires Uniform(p, size) && i < |p| && k < size
    ensures Full(i, size) + k < |Flat(p)| && Flat(p)[Full(i, size) + k] == p[i][k]
    decreases i
  {
    if i > 0 {
      FlatAt(p[1..], size, i - 1, k);
    }
  }

  lemma DataReads(d: Disk, at: nat)
    requires d.Good() && at < |Flat(d.clusters)|
    ensures d.Mounted().dataStart + at < TWO_32
    ensures d.Mounted().Read(d.Mounted().dataStart + at) == Flat(d.clusters)[at]
  {
    var front := d.boot + Repeated(d.Table(), d.copies);
    assert |front| == d.Mounted().dataStart && d.Sectors() == front + Flat(d.clusters);
  }

  /** Cluster 2 begins where the data begins, and every cluster where the one before it ends. */
  lemma SectorReads(d: Disk, c: nat, s: nat)
    requires d.Good() && 2 <= c < |d.clusters| + 2 && s < d.perCluster
    ensures d.Mounted().Read(d.Mounted().SectorOf(c, s)) == d.clusters[c - 2][s]
  {
    var at := Full(c - 2, d.perCluster) + s;
    FullIs(c - 2, d.perCluster);
    FlatAt(d.clusters, d.perCluster, c - 2, s);
    DataReads(d, at);
    assert d.Mounted().SectorOf(c, s) == Wrap(d.Mounted().dataStart + at);
  }

  lemma {:induction false} SectorsRead(d: Disk, c: nat, n: nat)
    requires d.Good() && 2 <= c < |d.clusters| + 2 && n <= d.perCluster
    ensures d.Mounted().Sectors(c, n) == Flat(d.clusters[c - 2][..n])
    decreases n
  {
    if n > 0 {
      var image := d.clusters[c - 2];
      SectorsRead(d, c, n - 1);
      SectorReads(d, c, n - 1);
      assert image[..n] == image[..n - 1] + [image[n - 1]];
      FlatConcat(image[..n - 1], [image[n - 1]]);
      FlatCons(image[n - 1], []);
    }
  }

  lemma {:induction false} FlatConcat<T>(p: seq<seq<T>>, q: seq<seq<T>>)
    ensures Flat(p + q) == Flat(p) + Flat(q)
  {
    if p == [] {
      assert p + q == q;
    } else {
      assert (p + q)[1..] == p[1..] + q;
      FlatConcat(p[1..], q);
    }
  }

  lemma ClusterReads(d: Disk, c: nat)
    requires d.Good() && 2 <= c < |d.clusters| + 2
    ensures d.Mounted().Cluster(c) == d.Bytes(c)
  {
    SectorsRead(d, c, d.perCluster);
    assert d.clusters[c - 2][..d.perCluster] == d.clusters[c - 2];
  }

  /** The table links these clusters, in this order, and marks the last one. */
  ghost predicate Linked(d: Disk, chain: seq<nat>) {
    && d.Good() && chain != []
    && (forall k | 0 <= k < |chain| :: 2 <= chain[k] < |d.clusters| + 2)
    && (forall k | 0 <= k < |chain| - 1 :: d.fat[chain[k]] % 0x1000_0000 == chain[k + 1])
    && d.fat[chain[|chain| - 1]] % 0x1000_0000 >= 0x0FFF_FFF8
  }

  /** A chain of links from `chain[0]` that ends, on values. */
  ghost predicate Leads(next: nat -> nat, chain: seq<nat>) {
    && chain != [] && AllData(chain) && !IsData(next(chain[|chain| - 1]))
    && forall k | 0 <= k < |chain| - 1 :: next(chain[k]) == chain[k + 1]
  }

  lemma LeadsOn(next: nat -> nat, chain: seq<nat>)
    requires Leads(next, chain) && |chain| > 1
    ensures Leads(next, chain[1..]) && next(chain[0]) == chain[1..][0]
  {
    var rest := chain[1..];
    assert rest[|rest| - 1] == chain[|chain| - 1];
    forall k | 0 <= k < |rest| - 1 ensures next(rest[k]) == rest[k + 1] {
      assert next(chain[k + 1]) == chain[k + 2];
    }
  }

  lemma {:induction false} LinksReach(next: nat -> nat, chain: seq<nat>, n: nat)
    requires Leads(next, chain)
    ensures Reach(next, chain[0], n) == Take(chain, n)
    decreases n
  {
    if n > 0 {
      assert IsData(chain[0]);
      if |chain| > 1 {
        LeadsOn(next, chain);
        LinksReach(next, chain[1..], n - 1);
        TakeAfter([chain[0]], chain[1..], n, n - 1);
        assert chain == [chain[0]] + chain[1..];
      } else {
        assert chain == [chain[0]] && Reach(next, next(chain[0]), n - 1) == [];
      }
    }
  }

  lemma ChainReads(d: Disk, chain: seq<nat>, n: nat)
    requires Linked(d, chain) && |d.clusters| + 2 <= 0x0FFF_FFF8
    ensures Reach(d.Mounted().Links(), chain[0], n) == Take(chain, n)
  {
    var next := d.Mounted().Links();
    forall k | 0 <= k < |chain| ensures next(chain[k]) == d.fat[chain[k]] % 0x1000_0000 {
      NextReads(d, chain[k]);
    }
    assert Leads(next, chain);
    LinksReach(next, chain, n);
  }

  /** The contents of the clusters of a chain, one after the other. */
  ghost function Spelled(d: Disk, chain: seq<nat>): seq<Byte>
    requires forall k | 0 <= k < |chain| :: 2 <= chain[k] < |d.clusters| + 2
  {
    if chain == [] then [] else d.Bytes(chain[0]) + Spelled(d, chain[1..])
  }

  lemma {:induction false} SpelledReads(d: Disk, chain: seq<nat>)
    requires d.Good() && |d.clusters| + 2 <= 0x0FFF_FFF8
    requires forall k | 0 <= k < |chain| :: 2 <= chain[k] < |d.clusters| + 2
    ensures AllData(chain) && Flat(d.Mounted().Contents(chain)) == Spelled(d, chain)
  {
    if chain != [] {
      var v, rest := d.Mounted(), chain[1..];
      ClusterReads(d, chain[0]);
      SpelledReads(d, rest);
      assert v.Contents(chain) == [v.Cluster(chain[0])] + v.Contents(rest);
      FlatCons(v.Cluster(chain[0]), v.Contents(rest));
    }
  }

  lemma StoredOf(v: Volume, first: nat, chain: seq<nat>, size: nat, n: nat)
    requires v.Valid() && size <= n && AllData(chain) && Reach(v.Links(), first, n) == chain
    ensures v.FileBytes(first, size) == Take(Flat(v.Contents(chain)), size)
  {
    StoredStable(v, first, size, n, size);
  }

  /** A file written to a chain of clusters is what the driver takes it to be. */
  lemma FileComesBack(d: Disk, chain: seq<nat>, size: nat)
    requires Linked(d, chain) && |d.clusters| + 2 <= 0x0FFF_FFF8
    ensures d.Mounted().FileBytes(chain[0], size) == Take(Spelled(d, chain), size)
  {
    var n := if size < |chain| then |chain| else size;
    ChainReads(d, chain, n);
    SpelledReads(d, chain);
    StoredOf(d.Mounted(), chain[0], chain, size, n);
  }
}

/** Directories as a formatting program writes them. */
module DirectoryImages {
  import opened Bytes
  import opened Chains
  import opened Chunks
  import opened DirectoryFormat
  import opened DiskImages
  import opened FatFormat
  import opened FatNames
  import opened LittleEndian

  /** A 32-byte slot: the entry, with the times and dates the driver does not look at. */
  datatype Record = Record(entry: DirEntry, times: seq<Byte>, dates: seq<Byte>) {
    predicate Good() {
      |times| == 8 && |dates| == 4 && entry.firstCluster < TWO_32 && entry.size < TWO_32
    }

    /** Name, attributes, times, high half of the first cluster, dates, low half, size. */
    function Bytes(): (s: seq<Byte>)
      requires Good()
      ensures |s| == 32
    {
      entry.name + [entry.attr] + times + LE16(entry.firstCluster / 0x1_0000) + dates
        + LE16(entry.firstCluster % 0x1_0000) + LE32(entry.size)
    }
  }

  lemma RecordParts(r: Record)
    requires r.Good()
    ensures r.Bytes()[..11] == r.entry.name && r.Bytes()[11] == r.entry.attr
    ensures r.Bytes()[20..22] == LE16(r.entry.firstCluster / 0x1_0000)
    ensures r.Bytes()[26..28] == LE16(r.entry.firstCluster % 0x1_0000)
    ensures r.Bytes()[28..32] == LE32(r.entry.size)
  {
  }

  lemma RecordReads(sector: Sector, e: nat, r: Record)
    requires r.Good() && e < 16 && sector[32 * e..32 * e + 32] == r.Bytes()
    ensures Decode(sector, e) == r.entry
  {
    RecordParts(r);
    var s := sector[32 * e..32 * e + 32];
    Reads16(s, 20, r.entry.firstCluster / 0x1_0000);
    Reads16(s, 26, r.entry.firstCluster % 0x1_0000);
    Reads32(s, 28, r.entry.size);
  }

  /** Of the attributes, the driver takes bit 4 to tell directories from files. */
  lemma DirectoryBit(d: DirEntry, low: nat, directory: bool, high: nat)
    requires low < 16 && high < 8 && d.attr == low + (if directory then 16 else 0) + 32 * high
    ensures d.IsDirectory() <==> directory
  {
    assert d.attr / 16 == 2 * high + if directory then 1 else 0;
  }

  // ---- slots ---------------------------------------------------------------------

  /** Slots in use, free again, or part of a long name. */
  datatype Slot = Kept(entry: DirEntry) | Deleted(entry: DirEntry) | LongName(entry: DirEntry) {
    predicate Good() {
      match this
      case Kept(e) => e.name[0] != 0 && e.name[0] != 0xE5 && e.attr != 0x0F
      case Deleted(e) => e.name[0] == 0xE5
      case LongName(e) => e.name[0] != 0 && e.attr == 0x0F
    }
  }

  ghost predicate AllGood(slots: seq<Slot>) {
    forall i | 0 <= i < |slots| :: slots[i].Good()
  }

  ghost function Entries(slots: seq<Slot>): (s: seq<DirEntry>)
    ensures |s| == |slots| && forall i | 0 <= i < |s| :: s[i] == slots[i].entry
  {
    seq(|slots|, i requires 0 <= i < |slots| => slots[i].entry)
  }

  ghost function KeptOnes(slots: seq<Slot>): seq<DirEntry> {
    if slots == [] then [] else (if slots[0].Kept? then [slots[0].entry] else []) + KeptOnes(slots[1..])
  }

  /** Up to the end mark the driver lists the slots in use, in order; what is behind the
      mark does not matter. */
  lemma {:induction false} ListsKept(slots: seq<Slot>, end: DirEntry, behind: seq<DirEntry>)
    requires AllGood(slots) && end.name[0] == 0
    ensures Listing(Entries(slots) + [end] + behind) == KeptOnes(slots)
    ensures HasEnd(Entries(slots) + [end] + behind)
  {
    var all := Entries(slots) + [end] + behind;
    if slots != [] {
      ListsKept(slots[1..], end, behind);
      assert Entries(slots)[1..] == Entries(slots[1..]);
      assert all[1..] == Entries(slots[1..]) + [end] + behind;
      assert slots[0].Good() && all[0] == slots[0].entry;
    }
  }

  // ---- clusters --------------------------------------------------------------------

  /** The 16 slots of a sector. */
  ghost predicate SectorHolds(sector: Sector, records: seq<Record>) {
    && |records| == 16
    && forall e | 0 <= e < 16 :: records[e].Good() && sector[32 * e..32 * e + 32] == records[e].Bytes()
  }

  ghost function EntriesOf(records: seq<Record>): (s: seq<DirEntry>)
    ensures |s| == |records| && forall i | 0 <= i < |s| :: s[i] == records[i].entry
  {
    seq(|records|, i requires 0 <= i < |records| => records[i].entry)
  }

  /** One sector after the other. */
  ghost predicate SectorsHold(sectors: seq<Sector>, records: seq<seq<Record>>) {
    |records| == |sectors| && forall k | 0 <= k < |sectors| :: SectorHolds(sectors[k], records[k])
  }

  ghost function AllEntries(records: seq<seq<Record>>): seq<DirEntry> {
    if records == [] then [] else EntriesOf(records[0]) + AllEntries(records[1..])
  }

  lemma SectorSlotsAre(sector: Sector, records: seq<Record>)
    requires SectorHolds(sector, records)
    ensures SectorSlots(sector) == EntriesOf(records)
  {
    forall e | 0 <= e < 16 ensures SectorSlots(sector)[e] == EntriesOf(records)[e] {
      RecordReads(sector, e, records[e]);
    }
  }

  lemma {:induction false} ClusterSlotsAre(d: Disk, c: nat, k: nat, records: seq<seq<Record>>)
    requires d.Good() && 2 <= c < |d.clusters| + 2 && c < 0x0FFF_FFF8 && k <= d.perCluster
    requires SectorsHold(d.clusters[c - 2][k..], records)
    ensures ClusterSlots(d.Mounted(), c, k) == AllEntries(records)
    decreases d.perCluster - k
  {
    if k < d.perCluster {
      var sectors := d.clusters[c - 2];
      SectorReads(d, c, k);
      SectorSlotsAre(sectors[k], records[0]);
      assert sectors[k..][1..] == sectors[k + 1..];
      ClusterSlotsAre(d, c, k + 1, records[1..]);
    }
  }

  /** The clusters of a chain, `records[i]` being those of cluster `chain[i]`. */
  ghost predicate ChainHolds(d: Disk, chain: seq<nat>, records: seq<seq<seq<Record>>>) {
    && |records| == |chain|
    && forall i | 0 <= i < |chain| ::
         2 <= chain[i] < |d.clusters| + 2 && SectorsHold(d.clusters[chain[i] - 2], records[i])
  }

  ghost function ChainEntries(records: seq<seq<seq<Record>>>): seq<DirEntry> {
    if records == [] then [] else AllEntries(records[0]) + ChainEntries(records[1..])
  }

  lemma {:induction false} SlotsAre(d: Disk, chain: seq<nat>, records: seq<seq<seq<Record>>>)
    requires d.Good() && ChainHolds(d, chain, records) && |d.clusters| + 2 <= 0x0FFF_FFF8
    ensures AllData(chain) && SlotsOf(d.Mounted(), chain) == ChainEntries(records)
  {
    if chain != [] {
      var here := d.clusters[chain[0] - 2];
      assert here[0..] == here;
      ClusterSlotsAre(d, chain[0], 0, records[0]);
      SlotsAre(d, chain[1..], records[1..]);
    }
  }

  /** A directory written to a chain of clusters is listed as it was written. */
  lemma DirectoryComesBack(d: Disk, chain: seq<nat>, records: seq<seq<seq<Record>>>, slots: seq<Slot>,
                           end: DirEntry, behind: seq<DirEntry>)
    requires Linked(d, chain) && ChainHolds(d, chain, records) && |d.clusters| + 2 <= 0x0FFF_FFF8
    requires AllGood(slots) && end.name[0] == 0 && ChainEntries(records) == Entries(slots) + [end] + behind
    ensures Walkable(d.Mounted(), chain[0]) && Dir(d.Mounted(), chain[0]) == KeptOnes(slots)
  {
    ChainSlotsAre(d, chain, records);
    ListsKept(slots, end, behind);
    EndIsSeen(d.Mounted(), chain[0], |chain|, ChainEntries(records));
  }

  lemma ChainSlotsAre(d: Disk, chain: seq<nat>, records: seq<seq<seq<Record>>>)
    requires Linked(d, chain) && ChainHolds(d, chain, records) && |d.clusters| + 2 <= 0x0FFF_FFF8
    ensures ChainSlots(d.Mounted(), chain[0], |chain|) == ChainEntries(records)
  {
    ChainReads(d, chain, |chain|);
    assert Take(chain, |chain|) == chain;
    SlotsAre(d, chain, records);
    ChainSlotsOf(d.Mounted(), chain[0], |chain|, chain);
  }

  lemma ChainSlotsOf(v: Volume, c: nat, n: nat, chain: seq<nat>)
    requires AllData(chain) && Reach(v.Links(), c, n) == chain
    ensures ChainSlots(v, c, n) == SlotsOf(v, chain)
  {
  }

  lemma EndIsSeen(v: Volume, c: nat, n: nat, all: seq<DirEntry>)
    requires ChainSlots(v, c, n) == all && HasEnd(all)
    ensures Walkable(v, c) && Dir(v, c) == Listing(all)
  {
    assert Bounded(v, c, n);
    DirIs(v, c, n);
  }

  // ---- names -------------------------------------------------------------------------

  /** What a user calls a file: characters other than NUL, space, dot, slash and capitals. */
  ghost predicate Plain(s: seq<Byte>) {
    forall i | 0 <= i < |s| :: s[i] != 0 && s[i] != 32 && s[i] != 46 && s[i] != 47 && !(65 <= s[i] <= 90)
  }

  ghost function Capitals(s: seq<Byte>): (r: seq<Byte>)
    ensures |r| == |s| && forall i | 0 <= i < |s| :: r[i] == if 97 <= s[i] <= 122 then s[i] - 32 else s[i]
  {
    seq(|s|, i requires 0 <= i < |s| => if 97 <= s[i] <= 122 then s[i] - 32 else s[i])
  }

  ghost function Blanks(n: nat): (r: seq<Byte>)
    ensures |r| == n && forall i | 0 <= i < n :: r[i] == 32
  {
    seq(n, _ => 32)
  }

  /** The name as it is stored: eight and three characters, in capitals, filled up with spaces. */
  ghost function StoredName(base: seq<Byte>, ext: seq<Byte>): ShortName
    requires |base| <= 8 && |ext| <= 3
  {
    Capitals(base) + Blanks(8 - |base|) + Capitals(ext) + Blanks(3 - |ext|)
  }

  lemma PartComesBack(s: seq<Byte>, n: nat)
    requires Plain(s)
    ensures Padded(Capitals(s) + Blanks(n), |s|) && Compact(Capitals(s) + Blanks(n)) == s
  {
    var part := Capitals(s) + Blanks(n);
    CompactPadded(part, |s|);
    assert forall i | 0 <= i < |s| :: Compact(part)[i] == Lower(part[i]) == s[i];
  }

  lemma StoredParts(base: seq<Byte>, ext: seq<Byte>)
    requires |base| <= 8 && |ext| <= 3
    ensures StoredName(base, ext)[..BASE] == Capitals(base) + Blanks(8 - |base|)
    ensures StoredName(base, ext)[BASE..] == Capitals(ext) + Blanks(3 - |ext|)
  {
    var a, b := Capitals(base) + Blanks(8 - |base|), Capitals(ext) + Blanks(3 - |ext|);
    assert StoredName(base, ext) == a + b;
  }

  lemma RenderOf(m: ShortName, base: seq<Byte>, ext: seq<Byte>)
    requires Compact(m[..BASE]) == base && Compact(m[BASE..]) == ext
    ensures Render(m) == base + if ext == [] then [] else [46] + ext
  {
  }

  /** The name shown for it is the one the user gave, with a dot before the extension. */
  lemma NameComesBack(base: seq<Byte>, ext: seq<Byte>)
    requires |base| <= 8 && |ext| <= 3 && Plain(base) && Plain(ext)
    ensures Legal(StoredName(base, ext))
    ensures CString(Render(StoredName(base, ext))) == base + if ext == [] then [] else [46] + ext
  {
    var m := StoredName(base, ext);
    StoredParts(base, ext);
    PartComesBack(base, 8 - |base|);
    PartComesBack(ext, 3 - |ext|);
    RenderOf(m, base, ext);
    ListedWhole(m);
  }

  // ---- files by name -------------------------------------------------------------------

  /** A file of that name and content, written to a directory of the disk: looked up by the
      name the user gave it, the driver finds it and reads its content. */
  lemma FileComesBackByName(d: Disk, dir: seq<nat>, records: seq<seq<seq<Record>>>, slots: seq<Slot>, end: DirEntry,
                            behind: seq<DirEntry>, i: nat, base: seq<Byte>, ext: seq<Byte>, chain: seq<nat>,
                            content: seq<Byte>)
    requires Linked(d, dir) && ChainHolds(d, dir, records) && |d.clusters| + 2 <= 0x0FFF_FFF8
    requires AllGood(slots) && end.name[0] == 0 && ChainEntries(records) == Entries(slots) + [end] + behind
    requires AllListed(KeptOnes(slots)) && i < |KeptOnes(slots)|
    requires |base| <= 8 && |ext| <= 3 && Plain(base) && Plain(ext)
    requires KeptOnes(slots)[i].name == StoredName(base, ext)
    requires Linked(d, chain) && KeptOnes(slots)[i].firstCluster == chain[0]
    requires KeptOnes(slots)[i].size == |content| && content == Take(Spelled(d, chain), |content|)
    ensures var v, name := d.Mounted(), base + (if ext == [] then [] else [46] + ext);
            var list := Dir(v, dir[0]);
            && FirstNamed(list, name) == i < |list|
            && v.FileBytes(list[i].firstCluster, list[i].size) == content
  {
    DirectoryComesBack(d, dir, records, slots, end, behind);
    NameComesBack(base, ext);
    FindsItself(KeptOnes(slots), i);
    FileComesBack(d, chain, |content|);
  }
}

/** The boot record: what `fat32_init` takes from it. */
module BootRecords {
  import opened Bytes
  import opened Chunks
  import opened DirectoryFormat
  import opened DiskImages
  import opened FatFormat
  import opened LittleEndian

  const SIGNATURE: Byte := 0x29

  datatype Mounting = Mounting(volume: Volume, rootCluster: nat)

  /** Behind the reserved sectors and the tables, in 32-bit arithmetic. */
  function DataStart(reserved: nat, tables: nat, size: nat): nat {
    Wrap(reserved + Wrap(tables * size))
  }

  lemma DataStartIs(reserved: nat, tables: nat, size: nat, all: nat)
    requires tables * size == all && reserved + all < TWO_32
    ensures DataStart(reserved, tables, size) == reserved + all
  {
    assert Wrap(all) == all;
  }

  /** `fat32_init`: no volume without the signature. */
  function Mount(sectors: seq<Sector>): Option<Mounting>
    requires sectors != []
  {
    var s := sectors[0];
    if s[66] != SIGNATURE then None
    else
      var dataStart := DataStart(Word16(s, 14), s[16], Word32(s, 36));
      Some(Mounting(Volume(sectors, Word16(s, 14), dataStart, s[13]), Word32(s, 44)))
  }

  /** The fields of the record in their order; those that the driver does not use in bytes. */
  datatype Record = Record(start: seq<Byte>, perCluster: Byte, reserved: nat, tables: Byte, sizes: seq<Byte>,
                           tableSize: nat, versions: seq<Byte>, rootCluster: nat, rest: seq<Byte>,
                           signature: Byte, labels: seq<Byte>) {
    predicate Good() {
      && |start| == 13 && |sizes| == 19 && |versions| == 4 && |rest| == 18 && |labels| == 445
      && reserved < 0x1_0000 && tableSize < TWO_32 && rootCluster < TWO_32
    }

    /** Jump, name and sector size; then clusters, reserved sectors and tables; root entries,
        totals, geometry and old sizes; table size; flags and version; root cluster; the rest. */
    function Front(): (s: seq<Byte>)
      requires Good()
      ensures |s| == 36
    {
      start + [perCluster] + LE16(reserved) + [tables] + sizes
    }

    function Bytes(): (s: Sector)
      requires Good()
    {
      Front() + LE32(tableSize) + versions + LE32(rootCluster) + rest + [signature] + labels
    }
  }

  lemma RecordParts(b: Record)
    requires b.Good()
    ensures var s := b.Bytes();
            && s[13] == b.perCluster && s[14..16] == LE16(b.reserved) && s[16] == b.tables
            && s[36..40] == LE32(b.tableSize) && s[44..48] == LE32(b.rootCluster) && s[66] == b.signature
  {
    var f := b.Front();
    assert f[13] == b.perCluster && f[14..16] == LE16(b.reserved) && f[16] == b.tables;
    assert b.Bytes()[..36] == f;
  }

  lemma FieldsRead(b: Record)
    requires b.Good()
    ensures var s := b.Bytes();
            && Word16(s, 14) == b.reserved && Word32(s, 36) == b.tableSize && Word32(s, 44) == b.rootCluster
            && s[13] == b.perCluster && s[16] == b.tables && s[66] == b.signature
  {
    RecordParts(b);
    Reads16(b.Bytes(), 14, b.reserved);
    Reads32(b.Bytes(), 36, b.tableSize);
    Reads32(b.Bytes(), 44, b.rootCluster);
  }

  lemma DataInside(d: Disk, size: nat)
    requires d.Good() && d.clusters != [] && size == |d.fat| / 128
    ensures d.copies * size == Full(d.copies, size) && |d.boot| + Full(d.copies, size) < TWO_32
  {
    FullIs(d.copies, size);
    assert d.Sectors() == d.boot + Repeated(d.Table(), d.copies) + (d.clusters[0] + Flat(d.clusters[1..]));
  }

  /** A disk is mounted as it was written, and only with the signature. */
  lemma MountsWritten(d: Disk, b: Record)
    requires d.Good() && b.Good() && d.boot != [] && d.clusters != [] && d.boot[0] == b.Bytes()
    requires |d.boot| == b.reserved && d.copies == b.tables && |d.fat| / 128 == b.tableSize
    requires d.perCluster == b.perCluster
    ensures d.Sectors() != []
    ensures Mount(d.Sectors()) == if b.signature == 0x29 then Some(Mounting(d.Mounted(), b.rootCluster)) else None
  {
    assert d.Sectors()[0] == d.boot[0];
    FieldsRead(b);
    DataInside(d, b.tableSize);
    MountIs(d.Sectors(), b, Full(d.copies, b.tableSize));
  }

  lemma MountIs(sectors: seq<Sector>, b: Record, tables: nat)
    requires b.Good() && sectors != [] && sectors[0] == b.Bytes()
    requires b.tables * b.tableSize == tables && b.reserved + tables < TWO_32
    ensures Mount(sectors) == if b.signature != 0x29 then None
                              else Some(Mounting(Volume(sectors, b.reserved, b.reserved + tables, b.perCluster),
                                                 b.rootCluster))
  {
    FieldsRead(b);
    DataStartIs(b.reserved, b.tables, b.tableSize, tables);
  }
}

/** A file on a disk, from the path a user types to the bytes it is read as. */
module FilesOnDisk {
  import opened Bytes
  import opened Chunks
  import opened DirectoryFormat
  import opened DirectoryImages
  import opened DiskImages
  import opened FatFormat
  import opened FileContents
  import opened FilesByPath
  import opened Paths

  /** What was written: the clusters and records of the directory, and which of its slots
      is the file, with its name, its clusters and its content. */
  datatype Written = Written(dir: seq<nat>, records: seq<seq<seq<Record>>>, slots: seq<Slot>, end: DirEntry,
                             behind: seq<DirEntry>, i: nat, base: seq<Byte>, ext: seq<Byte>, chain: seq<nat>,
                             content: seq<Byte>) {
    ghost function Name(): seq<Byte> {
      base + if ext == [] then [] else [46] + ext
    }

    ghost function Entry(): DirEntry
      requires i < |KeptOnes(slots)|
    {
      KeptOnes(slots)[i]
    }

    /** The directory is on the disk, and lists the file under its stored name. */
    ghost predicate Listed(d: Disk) {
      && Linked(d, dir) && ChainHolds(d, dir, records) && |d.clusters| + 2 <= 0x0FFF_FFF8
      && AllGood(slots) && end.name[0] == 0 && ChainEntries(records) == DirectoryImages.Entries(slots) + [end] + behind
      && AllListed(KeptOnes(slots)) && i < |KeptOnes(slots)|
      && 0 < |base| <= 8 && |ext| <= 3 && Plain(base) && Plain(ext) && Entry().name == StoredName(base, ext)
    }

    /** Its clusters hold the content. */
    ghost predicate Holds(d: Disk)
      requires i < |KeptOnes(slots)|
    {
      && Linked(d, chain) && |d.clusters| + 2 <= 0x0FFF_FFF8
      && Entry().firstCluster == chain[0] && Entry().size == |content|
      && !Entry().IsDirectory() && content == Take(Spelled(d, chain), |content|)
    }
  }

  lemma ReadsAs(v: Volume, data: seq<seq<Byte>>, e: DirEntry)
    requires !e.IsDirectory()
    ensures !ItemOf(e).IsDirectory() && ItemSource(data, ItemOf(e)).Content(v) == v.FileBytes(e.firstCluster, e.size)
  {
  }

  lemma LooksUp(w: World, d: Disk, f: Written, dir: Item)
    requires f.Listed(d) && f.Holds(d) && w.volume == d.Mounted() && dir.what == FatDir(f.dir[0])
    ensures Lookup(w, dir, f.Name()) == Some(ItemOf(f.Entry()))
    ensures w.volume.FileBytes(f.Entry().firstCluster, f.Entry().size) == f.content
  {
    FileComesBackByName(d, f.dir, f.records, f.slots, f.end, f.behind, f.i, f.base, f.ext, f.chain, f.content);
    DirectoryComesBack(d, f.dir, f.records, f.slots, f.end, f.behind);
  }

  const DISK: seq<Byte> := [100, 105, 115, 107]

  /** A name below a mount point. */
  lemma Through(w: World, root: Item, mount: Item, name: seq<Byte>)
    requires w.Valid() && Lookup(w, root, DISK) == Some(mount) && name != [] && 47 !in name && |name| < 128
    ensures Walk(w, root, DISK + [47] + name) == Lookup(w, mount, name)
  {
    var names := [DISK, name];
    assert names[1..] == [name] && Joined([name]) == name;
    assert Joined(names) == DISK + [47] + name;
    WalkJoined(w, root, names);
    ResolveStep(w, root, DISK, [name]);
    ResolveStep(w, mount, name, []);
  }

  lemma NameFits(base: seq<Byte>, ext: seq<Byte>, name: seq<Byte>)
    requires 0 < |base| <= 8 && |ext| <= 3 && Plain(base) && Plain(ext)
    requires name == base + if ext == [] then [] else [46] + ext
    ensures name != [] && 47 !in name && |name| <= 12
  {
  }

  /** With the directory mounted as `disk`, the path `disk/name.ext` leads to the file, and
      what is read there is the content it was written with. */
  lemma PathToContent(w: World, d: Disk, f: Written, root: Item, mount: Item, data: seq<seq<Byte>>)
    requires w.Valid() && f.Listed(d) && f.Holds(d) && w.volume == d.Mounted()
    requires Lookup(w, root, DISK) == Some(mount) && mount.what == FatDir(f.dir[0])
    ensures var found := Walk(w, root, DISK + [47] + f.Name());
            found.Some? && !found.value.IsDirectory() && ItemSource(data, found.value).Content(w.volume) == f.content
  {
    NameFits(f.base, f.ext, f.Name());
    LooksUp(w, d, f, mount);
    ReadsAs(w.volume, data, f.Entry());
    Through(w, root, mount, f.Name());
  }
}
