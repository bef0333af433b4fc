/** FAT32 directories: the listing a cluster chain spells out, and its enumeration. */
module DirectoryFormat {
  import opened Bytes
  import opened Chains
  import opened Chunks
  import opened FatFormat
  import opened FatNames

  const NAME_BUFFER: nat := 128
  const PER_SECTOR: nat := 16
  const SLOT: nat := 32
  const LAST: Byte := 0
  const DELETED: Byte := 0xE5
  const LONG_NAME: Byte := 0x0F

  datatype Option<T> = None | Some(value: T)

  datatype DirEntry = DirEntry(name: ShortName, attr: Byte, firstCluster: nat, size: nat) {
    predicate IsDirectory() {
      attr / 16 % 2 == 1
    }

    predicate Live() {
      name[0] != DELETED && attr != LONG_NAME
    }

    /** The name a caller sees. */
    function Text(): seq<Byte> {
      CString(Render(name))
    }
  }

  /** The 32-byte entry `e` of a sector. */
  function Decode(sector: Sector, e: nat): (d: DirEntry)
    requires e < PER_SECTOR
    ensures d.firstCluster < TWO_32 && d.size < TWO_32
  {
    var s := sector[SLOT * e..SLOT * e + SLOT];
    DirEntry(s[..NAME], s[11], 0x1_0000 * Word16(s, 20) + Word16(s, 26), Word32(s, 28))
  }

  ghost function SectorSlots(sector: Sector): (s: seq<DirEntry>)
    ensures |s| == PER_SECTOR
  {
    seq(PER_SECTOR, e requires 0 <= e < PER_SECTOR => Decode(sector, e))
  }

  /** The slots of cluster `c` from its sector `k` on. */
  ghost function ClusterSlots(v: Volume, c: nat, k: nat): seq<DirEntry>
    requires IsData(c) && k <= v.perCluster
    decreases v.perCluster - k
  {
    if k == v.perCluster then []
    else SectorSlots(v.Read(v.SectorOf(c, k))) + ClusterSlots(v, c, k + 1)
  }

  /** The slots of a chain of clusters. */
  ghost function SlotsOf(v: Volume, chain: seq<nat>): seq<DirEntry>
    requires AllData(chain)
  {
    if chain == [] then [] else ClusterSlots(v, chain[0], 0) + SlotsOf(v, chain[1..])
  }

  /** The slots of up to `n` clusters of the chain from `c`. */
  ghost function ChainSlots(v: Volume, c: nat, n: nat): seq<DirEntry> {
    SlotsOf(v, Reach(v.Links(), c, n))
  }

  /** The live entries before the first end mark. */
  ghost function Listing(slots: seq<DirEntry>): seq<DirEntry> {
    if slots == [] || slots[0].name[0] == LAST then []
    else (if slots[0].Live() then [slots[0]] else []) + Listing(slots[1..])
  }

  ghost predicate HasEnd(slots: seq<DirEntry>) {
    slots != [] && (slots[0].name[0] == LAST || HasEnd(slots[1..]))
  }

  /** A walk over the directory stops within `n` clusters: at an end mark or at the end
      of the chain. The code has no other protection against a cyclic chain. */
  ghost predicate Bounded(v: Volume, c: nat, n: nat) {
    Ends(v.Links(), c, n) || HasEnd(ChainSlots(v, c, n))
  }

  ghost predicate Walkable(v: Volume, c: nat) {
    exists n: nat :: Bounded(v, c, n)
  }

  /** The listing of a directory. */
  ghost function Dir(v: Volume, c: nat): seq<DirEntry> {
    if Walkable(v, c) then
      var n: nat :| Bounded(v, c, n);
      Listing(ChainSlots(v, c, n))
    else []
  }

  lemma {:induction false} ListingConcat(s: seq<DirEntry>, t: seq<DirEntry>)
    ensures Listing(s + t) == if HasEnd(s) then Listing(s) else Listing(s) + Listing(t)
  {
    if s == [] {
      assert s + t == t;
    } else {
      assert (s + t)[1..] == s[1..] + t;
      ListingConcat(s[1..], t);
    }
  }

  lemma {:induction false} HasEndConcat(s: seq<DirEntry>, t: seq<DirEntry>)
    ensures HasEnd(s + t) <==> HasEnd(s) || HasEnd(t)
  {
    if s == [] {
      assert s + t == t;
    } else {
      assert (s + t)[1..] == s[1..] + t;
      HasEndConcat(s[1..], t);
    }
  }

  lemma {:induction false} SlotsConcat(v: Volume, s: seq<nat>, t: seq<nat>)
    requires AllData(s) && AllData(t)
    ensures AllData(s + t) && SlotsOf(v, s + t) == SlotsOf(v, s) + SlotsOf(v, t)
  {
    if s == [] {
      assert s + t == t;
    } else {
      var all := s + t;
      assert all != [] && all[0] == s[0] && all[1..] == s[1..] + t;
      SlotsConcat(v, s[1..], t);
    }
  }

  lemma ListingStable(v: Volume, c: nat, n: nat, m: nat)
    requires Bounded(v, c, n) && n <= m
    ensures Listing(ChainSlots(v, c, n)) == Listing(ChainSlots(v, c, m))
  {
    var s, t := Reach(v.Links(), c, n), Reach(v.Links(), c, m);
    if Ends(v.Links(), c, n) {
      ReachEnds(v.Links(), c, n, m);
    } else {
      ReachMore(v.Links(), c, n, m);
      var rest := t[|s|..];
      assert t == s + rest;
      SlotsConcat(v, s, rest);
      ListingConcat(SlotsOf(v, s), SlotsOf(v, rest));
    }
  }

  lemma DirIs(v: Volume, c: nat, n: nat)
    requires Bounded(v, c, n)
    ensures Walkable(v, c) && Dir(v, c) == Listing(ChainSlots(v, c, n))
  {
    var m: nat :| Bounded(v, c, m) && Dir(v, c) == Listing(ChainSlots(v, c, m));
    if m <= n {
      ListingStable(v, c, m, n);
    } else {
      ListingStable(v, c, n, m);
    }
  }

  // ---- the scan for one index --------------------------------------------------

  /** The state of the scan: still going with `seen` live entries passed, or decided. */
  datatype Scan = Going(seen: nat) | Hit(entry: DirEntry) | Ended

  function ScanSlot(d: DirEntry, seen: nat, index: nat): Scan {
    if d.name[0] == LAST then Ended
    else if !d.Live() then Going(seen)
    else if seen == index then Hit(d)
    else Going(seen + 1)
  }

  ghost function ScanAll(slots: seq<DirEntry>, seen: nat, index: nat): Scan {
    if slots == [] then Going(seen)
    else
      var s := ScanSlot(slots[0], seen, index);
      if s.Going? then ScanAll(slots[1..], s.seen, index) else s
  }

  lemma {:induction false} ScanConcat(s: seq<DirEntry>, t: seq<DirEntry>, seen: nat, index: nat)
    ensures var r := ScanAll(s, seen, index);
            ScanAll(s + t, seen, index) == if r.Going? then ScanAll(t, r.seen, index) else r
  {
    if s == [] {
      assert s + t == t;
    } else {
      assert (s + t)[1..] == s[1..] + t;
      var r := ScanSlot(s[0], seen, index);
      if r.Going? {
        ScanConcat(s[1..], t, r.seen, index);
      }
    }
  }

  lemma SlotStep(slots: seq<DirEntry>, e: nat, seen: nat, index: nat)
    requires e < |slots|
    ensures var r := ScanSlot(slots[e], seen, index);
            ScanAll(slots[e..], seen, index) == if r.Going? then ScanAll(slots[e + 1..], r.seen, index) else r
  {
    assert slots[e..][1..] == slots[e + 1..];
  }

  lemma ClusterStep(v: Volume, c: nat, k: nat, seen: nat, index: nat)
    requires IsData(c) && k < v.perCluster
    ensures var r := ScanAll(SectorSlots(v.Read(v.SectorOf(c, k))), seen, index);
            ScanAll(ClusterSlots(v, c, k), seen, index)
            == if r.Going? then ScanAll(ClusterSlots(v, c, k + 1), r.seen, index) else r
  {
    ScanConcat(SectorSlots(v.Read(v.SectorOf(c, k))), ClusterSlots(v, c, k + 1), seen, index);
  }

  lemma ChainUnfolds(v: Volume, c: nat, n: nat)
    requires IsData(c) && Bounded(v, c, n)
    ensures n > 0 && ChainSlots(v, c, n) == ClusterSlots(v, c, 0) + ChainSlots(v, v.Next(c), n - 1)
  {
    if n > 0 {
      var rest := Reach(v.Links(), v.Next(c), n - 1);
      assert Reach(v.Links(), c, n) == [c] + rest;
      assert ([c] + rest)[1..] == rest;
    }
  }

  lemma ChainStep(v: Volume, c: nat, n: nat, seen: nat, index: nat)
    requires IsData(c) && Bounded(v, c, n) && seen <= index
    ensures n > 0
    ensures var r := ScanAll(ClusterSlots(v, c, 0), seen, index);
            && ScanAll(ChainSlots(v, c, n), seen, index)
               == (if r.Going? then ScanAll(ChainSlots(v, v.Next(c), n - 1), r.seen, index) else r)
            && (r.Going? ==> r.seen <= index && Bounded(v, v.Next(c), n - 1))
  {
    ChainUnfolds(v, c, n);
    var here, behind := ClusterSlots(v, c, 0), ChainSlots(v, v.Next(c), n - 1);
    ScanConcat(here, behind, seen, index);
    ScanFinds(here, seen, index);
    HasEndConcat(here, behind);
  }

  /** A scan finds the entry of its index in the listing, or none. */
  lemma {:induction false} ScanFinds(s: seq<DirEntry>, seen: nat, index: nat)
    requires seen <= index
    ensures var r := ScanAll(s, seen, index);
            && (r.Hit? <==> index - seen < |Listing(s)|)
            && (r.Hit? ==> r.entry == Listing(s)[index - seen])
            && (r.Going? ==> r.seen == seen + |Listing(s)| <= index && !HasEnd(s))
  {
    if s != [] {
      var r := ScanSlot(s[0], seen, index);
      if r.Going? {
        ScanFinds(s[1..], r.seen, index);
      }
    }
  }

  // ---- lookup by name -----------------------------------------------------------

  /** The first place whose entry has this name; the length when there is none. */
  ghost function FirstNamed(list: seq<DirEntry>, name: seq<Byte>): (i: nat)
    ensures i <= |list|
    ensures forall j | 0 <= j < i :: list[j].Text() != name
    ensures i < |list| ==> list[i].Text() == name
  {
    if list == [] || list[0].Text() == name then 0 else 1 + FirstNamed(list[1..], name)
  }

  lemma FirstNamedIs(list: seq<DirEntry>, name: seq<Byte>, i: nat)
    requires i <= |list| && (forall j | 0 <= j < i :: list[j].Text() != name)
    requires i < |list| ==> list[i].Text() == name
    ensures FirstNamed(list, name) == i
  {
  }

  lemma FirstNamedStep(list: seq<DirEntry>, name: seq<Byte>, i: nat)
    requires i < |list| && i <= FirstNamed(list, name)
    ensures if list[i].Text() == name then FirstNamed(list, name) == i else i < FirstNamed(list, name)
  {
  }

  ghost predicate AllListed(list: seq<DirEntry>) {
    && (forall i | 0 <= i < |list| :: Listed(list[i].name))
    && (forall i, j | 0 <= i < j < |list| :: list[i].name != list[j].name)
  }

  /** In a directory of distinct names, each legal or a dot entry, looking up the displayed name of an entry
      finds that entry. */
  lemma FindsItself(list: seq<DirEntry>, i: nat)
    requires AllListed(list) && i < |list|
    ensures FirstNamed(list, list[i].Text()) == i
  {
    forall j | 0 <= j < i ensures list[j].Text() != list[i].Text() {
      ListedWhole(list[j].name);
      ListedWhole(list[i].name);
      assert list[j].name != list[i].name;
      if Render(list[j].name) == Render(list[i].name) {
        RenderInjective(list[j].name, list[i].name);
      }
    }
    FirstNamedIs(list, list[i].Text(), i);
  }
}

module FatDirectory {
  import opened Bytes
  import opened Chains
  import opened Chunks
  import opened DirectoryFormat
  import opened FatFormat
  import opened FatNames

  /** The 16 slots of one sector. */
  method ScanSector(sector: Sector, seen: nat, index: nat) returns (r: Scan)
    ensures r == ScanAll(SectorSlots(sector), seen, index)
  {
    var currentIdx := seen;
    ghost var slots := SectorSlots(sector);
    ghost var goal := ScanAll(slots, seen, index);
    assert slots[0..] == slots;
    for e := 0 to PER_SECTOR
      invariant goal == ScanAll(slots[e..], currentIdx, index)
    {
      var entry := Decode(sector, e);
      SlotStep(slots, e, currentIdx, index);
      if entry.name[0] == LAST {
        return Ended;
      }
      if entry.name[0] == DELETED {
        continue;
      }
      if entry.attr == LONG_NAME {
        continue;
      }
      if currentIdx == index {
        return Hit(entry);
      }
      currentIdx := currentIdx + 1;
    }
    return Going(currentIdx);
  }

  /** The sectors of one cluster. */
  method ScanCluster(v: Volume, cluster: nat, seen: nat, index: nat) returns (r: Scan)
    requires v.Valid() && IsData(cluster)
    ensures r == ScanAll(ClusterSlots(v, cluster, 0), seen, index)
  {
    r := Going(seen);
    ghost var goal := ScanAll(ClusterSlots(v, cluster, 0), seen, index);
    for s := 0 to v.perCluster
      invariant r.Going? && goal == ScanAll(ClusterSlots(v, cluster, s), r.seen, index)
    {
      var sector := v.Read(v.SectorOf(cluster, s));
      ClusterStep(v, cluster, s, r.seen, index);
      r := ScanSector(sector, r.seen, index);
      if !r.Going? {
        return;
      }
    }
  }

  /** `fat32_readdir`: the entry of a given index. */
  method ReadDir(v: Volume, dirCluster: nat, index: nat) returns (r: Scan)
    requires v.Valid() && Walkable(v, dirCluster)
    ensures !r.Hit? <==> index >= |Dir(v, dirCluster)|
    ensures r.Hit? ==> r.entry == Dir(v, dirCluster)[index]
  {
    ghost var n: nat :| Bounded(v, dirCluster, n);
    DirIs(v, dirCluster, n);
    ghost var goal := ScanAll(ChainSlots(v, dirCluster, n), 0, index);
    ScanFinds(ChainSlots(v, dirCluster, n), 0, index);
    var cluster: nat := dirCluster;
    r := Going(0);
    while FIRST_CLUSTER <= cluster < END_OF_CHAIN
      invariant r.Going? && r.seen <= index && Bounded(v, cluster, n)
      invariant goal == ScanAll(ChainSlots(v, cluster, n), r.seen, index)
      decreases n
    {
      ChainStep(v, cluster, n, r.seen, index);
      r := ScanCluster(v, cluster, r.seen, index);
      if !r.Going? {
        return;
      }
      cluster := v.Next(cluster);
      n := n - 1;
    }
  }

  /** `strcmp` used as a test for equality. */
  method StrEqual(a: seq<Byte>, b: seq<Byte>) returns (same: bool)
    requires 0 in a && 0 in b
    ensures same <==> CString(a) == CString(b)
  {
    var i := 0;
    EndOf(a);
    EndOf(b);
    while a[i] != 0 && a[i] == b[i]
      invariant i <= |CString(a)| && i <= |CString(b)| && a[..i] == b[..i]
      decreases |a| - i
    {
      assert i < |CString(a)| && i < |CString(b)|;
      i := i + 1;
    }
    same := a[i] == b[i];
    assert same ==> |CString(a)| == i == |CString(b)|;
    assert !same ==> CString(a)[..i] == CString(b)[..i];
  }

  /** The name buffer of an entry. */
  method TextOf(d: DirEntry) returns (text: seq<Byte>)
    ensures 0 in text && CString(text) == d.Text()
  {
    var buffer := new Byte[NAME_BUFFER];
    FatNameToString(d.name, buffer);
    CStringPrefix(Render(d.name), buffer[..]);
    text := buffer[..];
    assert text[|Render(d.name)|] == 0;
  }

  /** The search of `fat32_vfs_finddir`: the entries one by one until a name matches. */
  method FindEntry(v: Volume, cluster: nat, name: seq<Byte>) returns (found: Option<DirEntry>, text: seq<Byte>)
    requires v.Valid() && Walkable(v, cluster) && 0 in name
    ensures var list := Dir(v, cluster);
            var i := FirstNamed(list, CString(name));
            found == (if i < |list| then Some(list[i]) else None) && (found.Some? ==> text == found.value.Text())
  {
    ghost var list, sought := Dir(v, cluster), CString(name);
    text := [];
    var index: nat := 0;
    var r := ReadDir(v, cluster, index);
    while r.Hit?
      invariant r.Hit? <==> index < |list|
      invariant r.Hit? ==> r.entry == list[index]
      invariant index <= FirstNamed(list, sought)
      decreases |list| - index
    {
      var entryName := TextOf(r.entry);
      var same := StrEqual(entryName, name);
      FirstNamedStep(list, sought, index);
      if same {
        return Some(r.entry), CString(entryName);
      }
      index := index + 1;
      r := ReadDir(v, cluster, index);
    }
    found := None;
  }

  lemma EndOf(a: seq<Byte>)
    requires 0 in a
    ensures |CString(a)| < |a| && a[|CString(a)|] == 0
    ensures forall i | 0 <= i < |CString(a)| :: a[i] != 0 && a[i] == CString(a)[i]
  {
    var n := |CString(a)|;
    assert a[..n] == CString(a);
    assert a[..|a|] == a;
    forall i | 0 <= i < n ensures a[i] != 0 && a[i] == CString(a)[i] {
      assert CString(a)[i] in CString(a);
    }
  }
}
