/** Chains of clusters, over any function from a cluster to the next. */
module Chains {
  import opened Chunks

  const FIRST_CLUSTER: nat := 2
  const END_OF_CHAIN: nat := 0x0FFF_FFF8

  predicate IsData(cluster: nat) {
    FIRST_CLUSTER <= cluster < END_OF_CHAIN
  }

  ghost predicate AllData(chain: seq<nat>) {
    forall i | 0 <= i < |chain| :: IsData(chain[i])
  }

  /** Up to `n` clusters of the chain from `c`. */
  ghost function Reach(next: nat -> nat, c: nat, n: nat): (s: seq<nat>)
    ensures AllData(s)
    decreases n
  {
    if n == 0 || !IsData(c) then [] else [c] + Reach(next, next(c), n - 1)
  }

  /** The clusters left after following `skip` links. As the code does, this tests the
      clusters reached by a link but not `c` itself. */
  ghost function ReachAfter(next: nat -> nat, c: nat, skip: nat, n: nat): (s: seq<nat>)
    ensures AllData(s)
    decreases skip
  {
    if skip == 0 then Reach(next, c, n)
    else if !IsData(next(c)) then []
    else ReachAfter(next, next(c), skip - 1, n)
  }

  /** The chain from `c` has at most `n` clusters. */
  ghost predicate Ends(next: nat -> nat, c: nat, n: nat)
    decreases n
  {
    !IsData(c) || (n > 0 && Ends(next, next(c), n - 1))
  }

  lemma {:induction false} ReachMore(next: nat -> nat, c: nat, n: nat, m: nat)
    requires n <= m
    ensures Reach(next, c, n) <= Reach(next, c, m)
    ensures |Reach(next, c, n)| == n || Reach(next, c, n) == Reach(next, c, m)
    decreases n
  {
    if n > 0 && IsData(c) {
      ReachMore(next, next(c), n - 1, m - 1);
    }
  }

  lemma {:induction false} ReachEnds(next: nat -> nat, c: nat, n: nat, m: nat)
    requires Ends(next, c, n) && n <= m
    ensures Reach(next, c, n) == Reach(next, c, m)
    decreases n
  {
    if IsData(c) {
      ReachEnds(next, next(c), n - 1, m - 1);
    }
  }

  /** Following links drops the clusters at the start of the chain. */
  lemma {:induction false} AfterIsDrop(next: nat -> nat, c: nat, skip: nat, n: nat, m: nat)
    requires m == n + skip && (IsData(c) || skip == 0 || !IsData(next(c)))
    ensures ReachAfter(next, c, skip, n) == Drop(Reach(next, c, m), skip)
    decreases skip
  {
    if skip == 0 {
      assert Drop(Reach(next, c, n), 0) == Reach(next, c, n);
    } else if IsData(c) {
      DropAfter([c], Reach(next, next(c), m - 1), skip, skip - 1);
      if IsData(next(c)) {
        AfterIsDrop(next, next(c), skip - 1, n, m - 1);
      }
    }
  }
}

/** A FAT32 volume as an array of 512-byte sectors: cluster chains and file contents. */
module FatFormat {
  import opened Bytes
  import opened Chains
  import opened Chunks

  const SECTOR: nat := 512
  const CLUSTER_BITS: nat := 0x1000_0000

  type Sector = s: seq<Byte> | |s| == SECTOR witness seq(SECTOR, _ => 0)

  /** A FAT entry never crosses a sector boundary. */
  lemma Aligned(cluster: nat)
    ensures Wrap(cluster * 4) % SECTOR + 4 <= SECTOR
  {
    var q := cluster * 4 / TWO_32;
    var k := cluster - 0x4000_0000 * q;
    assert Wrap(cluster * 4) == 4 * k;
    assert 4 * k % SECTOR == 4 * (k - 128 * (4 * k / SECTOR));
  }

  /** The fields `fat32_init` takes from the boot sector, and the disk. */
  datatype Volume = Volume(sectors: seq<Sector>, fatStart: nat, dataStart: nat, perCluster: nat) {
    predicate Valid() {
      0 < perCluster < 256
    }

    /** `ata_read_sector`; what a drive delivers past its end is taken to be zeros. */
    function Read(lba: nat): Sector {
      if lba < |sectors| then sectors[lba] else seq(SECTOR, _ => 0)
    }

    function ClusterSize(): nat {
      perCluster * SECTOR
    }

    /** `fat32_get_next_cluster` */
    function Next(cluster: nat): (c: nat)
      ensures c < CLUSTER_BITS
    {
      var at := Wrap(cluster * 4);
      Aligned(cluster);
      Word32(Read(Wrap(fatStart + at / SECTOR)), at % SECTOR) % CLUSTER_BITS
    }

    /** Sector `s` of a cluster, in 32-bit arithmetic. */
    function SectorOf(cluster: nat, s: nat): nat
      requires cluster >= FIRST_CLUSTER
    {
      Wrap(dataStart + (cluster - FIRST_CLUSTER) * perCluster + s)
    }

    /** The first `n` sectors of a cluster, one after the other. */
    ghost function Sectors(cluster: nat, n: nat): (b: seq<Byte>)
      requires cluster >= FIRST_CLUSTER
      ensures |b| == n * SECTOR
    {
      if n == 0 then [] else Sectors(cluster, n - 1) + Read(SectorOf(cluster, n - 1))
    }

    ghost function Cluster(cluster: nat): (b: seq<Byte>)
      requires cluster >= FIRST_CLUSTER
      ensures |b| == ClusterSize()
    {
      Sectors(cluster, perCluster)
    }

    function Links(): nat -> nat {
      (c: nat) => Next(c)
    }

    ghost function Contents(chain: seq<nat>): (p: seq<seq<Byte>>)
      requires AllData(chain)
      ensures |p| == |chain| && Uniform(p, ClusterSize()) && forall i | 0 <= i < |p| :: p[i] == Cluster(chain[i])
    {
      seq(|chain|, i requires 0 <= i < |chain| => Cluster(chain[i]))
    }

    /** The contents of up to `n` clusters of the chain from `c`. */
    ghost function Clusters(c: nat, n: nat): (p: seq<seq<Byte>>)
      ensures Uniform(p, ClusterSize())
    {
      Contents(Reach(Links(), c, n))
    }

    ghost function Stored(c: nat, n: nat): seq<Byte> {
      Flat(Clusters(c, n))
    }

    /** The file whose directory entry gives `first` and `size`: what its chain holds of
        the recorded size, be the chain too short, long enough or cyclic. */
    ghost function FileBytes(first: nat, size: nat): seq<Byte> {
      Take(Stored(first, size), size)
    }

    /** The clusters left after following `skip` links. */
    ghost function Behind(c: nat, skip: nat, n: nat): (p: seq<seq<Byte>>)
      ensures Uniform(p, ClusterSize())
    {
      Contents(ReachAfter(Links(), c, skip, n))
    }
  }

  lemma ContentsDrop(v: Volume, chain: seq<nat>, k: nat)
    requires AllData(chain)
    ensures AllData(Drop(chain, k)) && v.Contents(Drop(chain, k)) == Drop(v.Contents(chain), k)
  {
  }

  lemma ContentsPrefix(v: Volume, s: seq<nat>, t: seq<nat>)
    requires AllData(t) && s <= t
    ensures AllData(s) && v.Contents(s) <= v.Contents(t)
  {
  }

  lemma ClustersMore(v: Volume, c: nat, n: nat, m: nat)
    requires n <= m
    ensures v.Clusters(c, n) <= v.Clusters(c, m)
    ensures |v.Clusters(c, n)| == n || v.Clusters(c, n) == v.Clusters(c, m)
  {
    ReachMore(v.Links(), c, n, m);
    ContentsPrefix(v, Reach(v.Links(), c, n), Reach(v.Links(), c, m));
  }

  lemma ClustersStep(v: Volume, c: nat, n: nat)
    ensures !IsData(c) || n == 0 ==> v.Clusters(c, n) == []
    ensures IsData(c) && n > 0 ==> v.Clusters(c, n) == [v.Cluster(c)] + v.Clusters(v.Next(c), n - 1)
  {
    if IsData(c) && n > 0 {
      var rest := Reach(v.Links(), v.Next(c), n - 1);
      assert Reach(v.Links(), c, n) == [c] + rest;
      assert v.Contents([c] + rest) == [v.Cluster(c)] + v.Contents(rest);
    }
  }

  lemma BehindStep(v: Volume, c: nat, skip: nat, n: nat)
    ensures skip == 0 ==> v.Behind(c, skip, n) == v.Clusters(c, n)
    ensures skip > 0 ==> v.Behind(c, skip, n) == if IsData(v.Next(c)) then v.Behind(v.Next(c), skip - 1, n) else []
  {
  }

  /** Following links drops whole clusters of content. */
  lemma BehindIsDrop(v: Volume, c: nat, skip: nat, n: nat, m: nat)
    requires m == n + skip && (IsData(c) || skip == 0 || !IsData(v.Next(c)))
    ensures v.Behind(c, skip, n) == Drop(v.Clusters(c, m), skip)
  {
    AfterIsDrop(v.Links(), c, skip, n, m);
    ContentsDrop(v, Reach(v.Links(), c, m), skip);
  }

  /** What is stored of the first `k` bytes does not depend on how many clusters are asked for. */
  lemma StoredStable(v: Volume, c: nat, n: nat, m: nat, k: nat)
    requires v.Valid() && k <= n <= m
    ensures Take(v.Stored(c, n), k) == Take(v.Stored(c, m), k)
  {
    ClustersMore(v, c, n, m);
    FullAdd(n, 0, v.ClusterSize());
    FlatPrefix(v.Clusters(c, n), v.Clusters(c, m), v.ClusterSize(), k);
  }

  // ---- clipping a request to the recorded size -------------------------------

  /** How many bytes the drivers set out to copy: `offset + size` is taken modulo 2^32. */
  function Clip(offset: nat, size: nat, recorded: nat): nat {
    if offset >= recorded then 0
    else if Wrap(offset + size) > recorded then recorded - offset
    else size
  }

  /** `count` bytes from `offset` on, found by following links to the right cluster. */
  ghost function StoredAt(v: Volume, first: nat, offset: nat, count: nat): seq<Byte>
    requires v.Valid()
  {
    Slice(Flat(v.Behind(first, Quotient(offset, v.ClusterSize()), count)), Remainder(offset, v.ClusterSize()), count)
  }

  /** The bytes a FAT32 read delivers when it has its cluster buffer. */
  ghost function Delivered(v: Volume, first: nat, recorded: nat, offset: nat, size: nat): seq<Byte>
    requires v.Valid()
  {
    if offset >= recorded then [] else StoredAt(v, first, offset, Clip(offset, size, recorded))
  }

  /** The request stays inside 32 bits, or is empty anyway. */
  predicate Unwrapped(offset: nat, size: nat, recorded: nat) {
    offset >= recorded || offset + size < TWO_32
  }

  lemma ClipIff(offset: nat, size: nat, recorded: nat)
    requires offset < TWO_32 && size < TWO_32 && recorded < TWO_32
    ensures Unwrapped(offset, size, recorded) <==>
            Clip(offset, size, recorded) == if offset >= recorded then 0
                                            else if size <= recorded - offset then size else recorded - offset
  {
    if offset + size >= TWO_32 {
      assert Wrap(offset + size) == offset + size - TWO_32;
    }
  }

  lemma ClipZero(offset: nat, size: nat, recorded: nat)
    requires offset < recorded
    ensures Clip(offset, size, recorded) == 0 <==> size == 0
  {
    if size == 0 && recorded < TWO_32 {
      assert Wrap(offset) == offset;
    }
  }

  /** A request that wraps is not clipped. */
  lemma ClipWraps(offset: nat, size: nat, recorded: nat)
    requires offset < TWO_32 && size < TWO_32 && recorded < TWO_32 && !Unwrapped(offset, size, recorded)
    ensures Clip(offset, size, recorded) == size && offset < recorded < offset + size
  {
    assert Wrap(offset + size) == offset + size - TWO_32;
  }

  /** The first cluster is a data cluster, or the walk ends there as well. */
  predicate Anchored(v: Volume, first: nat) {
    IsData(first) || !IsData(v.Next(first))
  }

  lemma DeliveredIsSlice(v: Volume, first: nat, recorded: nat, offset: nat, size: nat, n: nat)
    requires v.Valid() && (Anchored(v, first) || offset < v.ClusterSize()) && offset < recorded
    requires n >= offset + Clip(offset, size, recorded)
    ensures Delivered(v, first, recorded, offset, size)
            == Slice(v.Stored(first, n), offset, Clip(offset, size, recorded))
  {
    var cs, count := v.ClusterSize(), Clip(offset, size, recorded);
    DivMod(offset, cs);
    BehindSlice(v, first, Quotient(offset, cs), Remainder(offset, cs), offset, count, n);
  }

  lemma BehindSlice(v: Volume, c: nat, skip: nat, rem: nat, at: nat, count: nat, n: nat)
    requires v.Valid() && rem < v.ClusterSize() && at == Full(skip, v.ClusterSize()) + rem && n >= at + count
    requires Anchored(v, c) || at < v.ClusterSize()
    ensures Slice(Flat(v.Behind(c, skip, count)), rem, count) == Slice(v.Stored(c, n), at, count)
  {
    var size, m := v.ClusterSize(), count + skip;
    FullAdd(skip, 0, size);
    ClustersMore(v, c, m, n);
    BehindIsDrop(v, c, skip, count, m);
    RangeOfChunks(v.Clusters(c, m), v.Clusters(c, n), size, skip, rem, at, count);
  }

  /** The first cluster is none, but its FAT entry links on, and the request lies past the
      bytes of one cluster: the skip loop, which does not test the first cluster, follows
      the link. */
  predicate Strays(v: Volume, first: nat, recorded: nat, offset: nat) {
    !Anchored(v, first) && v.ClusterSize() <= offset < recorded
  }

  /** Any other read delivers the requested range of the file, over any cluster boundaries. */
  lemma DeliversFile(v: Volume, first: nat, recorded: nat, offset: nat, size: nat)
    requires v.Valid() && !Strays(v, first, recorded, offset)
    requires offset < TWO_32 && size < TWO_32 && recorded < TWO_32 && Unwrapped(offset, size, recorded)
    ensures Delivered(v, first, recorded, offset, size) == Slice(v.FileBytes(first, recorded), offset, size)
  {
    if offset < recorded {
      ClipIff(offset, size, recorded);
      DeliveredIsSlice(v, first, recorded, offset, size, recorded);
      var s, count := v.Stored(first, recorded), Clip(offset, size, recorded);
      assert Slice(Take(s, recorded), offset, size) == Slice(s, offset, count);
    }
  }

  /** Such a file has no content, and a read delivers the chain behind the link, taken to
      start one cluster into the file. */
  lemma OtherChain(v: Volume, first: nat, recorded: nat, offset: nat, size: nat, n: nat)
    requires v.Valid() && Strays(v, first, recorded, offset)
    requires n >= offset - v.ClusterSize() + Clip(offset, size, recorded)
    ensures v.FileBytes(first, recorded) == []
    ensures Delivered(v, first, recorded, offset, size)
            == Slice(v.Stored(v.Next(first), n), offset - v.ClusterSize(), Clip(offset, size, recorded))
  {
    var cs, count, at := v.ClusterSize(), Clip(offset, size, recorded), offset - v.ClusterSize();
    ClustersStep(v, first, recorded);
    OneLinkOn(v, first, Quotient(offset, cs), Remainder(offset, cs), offset, at, count, n);
  }

  lemma OneLinkOn(v: Volume, first: nat, skip: nat, rem: nat, offset: nat, at: nat, count: nat, n: nat)
    requires v.Valid() && IsData(v.Next(first)) && v.ClusterSize() <= offset && at == offset - v.ClusterSize()
    requires skip == Quotient(offset, v.ClusterSize()) && rem == Remainder(offset, v.ClusterSize()) && n >= at + count
    ensures Slice(Flat(v.Behind(first, skip, count)), rem, count) == Slice(v.Stored(v.Next(first), n), at, count)
  {
    DivMod(offset, v.ClusterSize());
    BehindStep(v, first, skip, count);
    BehindSlice(v, v.Next(first), skip - 1, rem, at, count, n);
  }

  /** Exactly when a read delivers the range asked for. A request that wraps is not clipped,
      and reads on past the recorded size when the chain holds anything there; a request
      that strays reads whatever the other chain holds. */
  lemma DeliversFileIff(v: Volume, first: nat, recorded: nat, offset: nat, size: nat, n: nat)
    requires v.Valid() && offset < TWO_32 && size < TWO_32 && recorded < TWO_32 && n >= TWO_32 + TWO_32
    ensures Delivered(v, first, recorded, offset, size) == Slice(v.FileBytes(first, recorded), offset, size)
            <==> if Strays(v, first, recorded, offset)
                 then size == 0 || |v.Stored(v.Next(first), n)| <= offset - v.ClusterSize()
                 else Unwrapped(offset, size, recorded) || |v.Stored(first, n)| <= recorded
  {
    if Strays(v, first, recorded, offset) {
      StrayIff(v, first, recorded, offset, size, n);
    } else if Anchored(v, first) || offset < v.ClusterSize() {
      DeliversAnchored(v, first, recorded, offset, size, n);
    } else {
      ClustersStep(v, first, recorded);
      assert v.FileBytes(first, recorded) == [] && Delivered(v, first, recorded, offset, size) == [];
    }
  }

  lemma StrayIff(v: Volume, first: nat, recorded: nat, offset: nat, size: nat, n: nat)
    requires v.Valid() && offset < TWO_32 && size < TWO_32 && recorded < TWO_32 && n >= TWO_32 + TWO_32
    requires Strays(v, first, recorded, offset)
    ensures Delivered(v, first, recorded, offset, size) == Slice(v.FileBytes(first, recorded), offset, size)
            <==> size == 0 || |v.Stored(v.Next(first), n)| <= offset - v.ClusterSize()
  {
    var count := Clip(offset, size, recorded);
    OtherChain(v, first, recorded, offset, size, n);
    ClipZero(offset, size, recorded);
    EmptySlice(v.Stored(v.Next(first), n), offset - v.ClusterSize(), count);
    assert Slice(v.FileBytes(first, recorded), offset, size) == [];
  }

  lemma EmptySlice<T>(s: seq<T>, at: nat, count: nat)
    ensures Slice(s, at, count) == [] <==> count == 0 || |s| <= at
  {
  }

  lemma DeliversAnchored(v: Volume, first: nat, recorded: nat, offset: nat, size: nat, n: nat)
    requires v.Valid() && (Anchored(v, first) || offset < v.ClusterSize())
    requires offset < TWO_32 && size < TWO_32 && recorded < TWO_32 && n >= TWO_32 + TWO_32
    ensures Delivered(v, first, recorded, offset, size) == Slice(v.FileBytes(first, recorded), offset, size)
            <==> Unwrapped(offset, size, recorded) || |v.Stored(first, n)| <= recorded
  {
    if Unwrapped(offset, size, recorded) {
      DeliversFile(v, first, recorded, offset, size);
    } else {
      ClipWraps(offset, size, recorded);
      DeliveredIsSlice(v, first, recorded, offset, size, n);
      StoredStable(v, first, recorded, n, recorded);
      BeyondTake(v.Stored(first, n), recorded, offset, size);
    }
  }

  /** A range that runs past the first `k` elements is cut by them unless there are no more. */
  lemma BeyondTake<T>(s: seq<T>, k: nat, offset: nat, size: nat)
    requires offset < k < offset + size
    ensures Slice(s, offset, size) == Slice(Take(s, k), offset, size) <==> |s| <= k
  {
    if |s| > k {
      assert |Slice(s, offset, size)| > k - offset == |Slice(Take(s, k), offset, size)|;
    }
  }

  /** The file is all there exactly when the chain is long enough for the recorded size. */
  lemma WholeFile(v: Volume, first: nat, recorded: nat, n: nat)
    requires v.Valid() && Ends(v.Links(), first, n)
    ensures v.FileBytes(first, recorded) == Take(v.Stored(first, n), recorded)
    ensures |v.FileBytes(first, recorded)| == recorded <==> recorded <= |v.Stored(first, n)|
  {
    if n <= recorded {
      ReachEnds(v.Links(), first, n, recorded);
    } else {
      StoredStable(v, first, recorded, n, recorded);
    }
  }

  // ---- a read, cluster by cluster ---------------------------------------------

  /** How much of `count` bytes a cluster of `size` bytes yields from `offset` on. */
  function CopyLength(size: nat, offset: nat, count: nat): (n: nat)
    requires offset < size
    ensures offset + n <= size && n <= count && (count > 0 ==> n > 0)
  {
    if size - offset > count then count else size - offset
  }

  /** After copying `done`, the `left` bytes still to come are in cluster `c` from `offset`
      on and in the clusters behind it, as far as the chain goes. */
  ghost predicate Remaining(v: Volume, goal: seq<Byte>, done: seq<Byte>, c: nat, offset: nat, size: nat, left: nat) {
    left <= size && goal == done + Slice(v.Stored(c, size), offset, left)
  }

  lemma AllRead(v: Volume, goal: seq<Byte>, done: seq<Byte>, c: nat, offset: nat, size: nat, left: nat)
    requires Remaining(v, goal, done, c, offset, size, left) && (left == 0 || !IsData(c))
    ensures goal == done
  {
    if left == 0 {
      assert Slice(v.Stored(c, size), offset, 0) == [];
    } else {
      ClustersStep(v, c, size);
    }
  }

  /** The copy out of the cluster at hand leaves what is in the clusters behind it. */
  lemma NextPart(v: Volume, goal: seq<Byte>, done: seq<Byte>, c: nat, offset: nat, size: nat, left: nat, n: nat,
                 rest: nat)
    requires v.Valid() && Remaining(v, goal, done, c, offset, size, left) && IsData(c)
    requires left > 0 && offset < v.ClusterSize() && n == CopyLength(v.ClusterSize(), offset, left) && left == n + rest
    ensures Remaining(v, goal, done + v.Cluster(c)[offset..offset + n], v.Next(c), 0, size, rest)
  {
    ClustersStep(v, c, size);
    CopyThenRest(v.Cluster(c), v.Clusters(v.Next(c), size - 1), offset, left, n, rest);
    RestStable(v, v.Next(c), size, rest);
  }

  lemma RestStable(v: Volume, c: nat, size: nat, count: nat)
    requires v.Valid() && count < size
    ensures Slice(v.Stored(c, size - 1), 0, count) == Slice(v.Stored(c, size), 0, count)
  {
    StoredStable(v, c, size - 1, size, count);
    SliceTake(v.Stored(c, size - 1), v.Stored(c, size), 0, count);
  }

  lemma CopyThenRest(here: seq<Byte>, behind: seq<seq<Byte>>, offset: nat, count: nat, n: nat, rest: nat)
    requires offset < |here| && n == CopyLength(|here|, offset, count) && count == n + rest
    ensures Slice(Flat([here] + behind), offset, count) == here[offset..offset + n] + Slice(Flat(behind), 0, rest)
  {
    FlatCons(here, behind);
    if |here| - offset <= count {
      SliceAcross(here, Flat(behind), offset, count, rest);
    } else {
      SliceWithin(here, Flat(behind), offset, count);
    }
  }
}
