/** Reading files of a FAT32 volume through a cluster buffer taken from the kernel heap. */
module FatReader {
  import opened BlockList
  import opened Buffers
  import opened Bytes
  import opened Chains
  import opened Chunks
  import opened FatFormat
  import opened HeapLinks
  import opened KernelHeap

  /** What a directory entry records of a file; a node's `fat32_vfs_info_t`. */
  datatype FileInfo = FileInfo(firstCluster: nat, size: nat) {
    predicate Valid() {
      firstCluster < Bytes.TWO_32 && size < Bytes.TWO_32
    }
  }

  /** The size of a cluster needs no rounding. */
  lemma WholeWords(perCluster: nat)
    requires 0 < perCluster < 256
    ensures 0 < perCluster * SECTOR < KernelHeap.TWO_32 && RoundUp4(perCluster * SECTOR) == perCluster * SECTOR
  {
    assert perCluster * SECTOR == 4 * (128 * perCluster);
  }

  class FatDriver {
    const volume: Volume
    const heap: Heap

    constructor (volume: Volume, heap: Heap)
      ensures this.volume == volume && this.heap == heap
    {
      this.volume, this.heap := volume, heap;
    }

    /** `ata_read_sector` into a buffer at an offset. */
    method ReadSector(lba: nat, buf: array<Byte>, at: nat)
      requires at + SECTOR <= buf.Length
      modifies buf
      ensures buf[..at] == old(buf[..at]) && buf[at..at + SECTOR] == volume.Read(lba)
    {
      var data := volume.Read(lba);
      for i := 0 to SECTOR
        invariant buf[..at] == old(buf[..at])
        invariant buf[at..at + i] == data[..i]
      {
        buf[at + i] := data[i];
      }
    }

    /** Read the sectors of one cluster. */
    method LoadCluster(cluster: nat, buf: array<Byte>)
      requires volume.Valid() && IsData(cluster) && buf.Length == volume.ClusterSize()
      modifies buf
      ensures buf[..] == volume.Cluster(cluster)
    {
      for s := 0 to volume.perCluster
        invariant buf[..s * SECTOR] == volume.Sectors(cluster, s)
      {
        ReadSector(volume.SectorOf(cluster, s), buf, s * SECTOR);
        assert buf[..(s + 1) * SECTOR] == buf[..s * SECTOR] + buf[s * SECTOR..s * SECTOR + SECTOR];
      }
      assert buf[..] == buf[..volume.perCluster * SECTOR];
    }

    /** Copy `len` bytes of the cluster buffer to the caller's. */
    method Copy(from: array<Byte>, at: nat, len: nat, buffer: array<Byte>, base: nat)
      requires at + len <= from.Length && base + len <= buffer.Length && from != buffer
      modifies buffer
      ensures Wrote(old(buffer[..]), base, from[at..at + len], buffer[..])
    {
      for i := 0 to len
        invariant buffer[..base] == old(buffer[..base])
        invariant buffer[base..base + i] == from[at..at + i]
        invariant buffer[base + i..] == old(buffer[base + i..])
      {
        buffer[base + i] := from[at + i];
      }
    }

    /** Follow `skip` links; false when the chain ends on the way. */
    method SkipClusters(first: nat, skip: nat, ghost n: nat) returns (ok: bool, cluster: nat)
      ensures !ok ==> volume.Behind(first, skip, n) == []
      ensures ok ==> volume.Behind(first, skip, n) == volume.Clusters(cluster, n)
    {
      cluster := first;
      for i := 0 to skip
        invariant volume.Behind(first, skip, n) == volume.Behind(cluster, skip - i, n)
      {
        BehindStep(volume, cluster, skip - i, n);
        cluster := volume.Next(cluster);
        if cluster < FIRST_CLUSTER || cluster >= END_OF_CHAIN {
          return false, cluster;
        }
      }
      BehindStep(volume, cluster, 0, n);
      ok := true;
    }

    /** One turn of the read loop: copy what the cluster has of the bytes still to come. */
    method CopyCluster(cluster: nat, offset: nat, size: nat, bytesRead: nat, clusterBuf: array<Byte>,
                       buffer: array<Byte>, base: nat, ghost goal: seq<Byte>, ghost done: seq<Byte>,
                       ghost start: seq<Byte>, ghost left: nat)
      returns (copyLen: nat, ghost more: seq<Byte>, ghost rest: nat)
      requires volume.Valid() && IsData(cluster) && clusterBuf.Length == volume.ClusterSize() && clusterBuf != buffer
      requires offset < volume.ClusterSize() && bytesRead == |done| < size && base + size <= buffer.Length
      requires Wrote(start, base, done, buffer[..])
               && Remaining(volume, goal, done, cluster, offset, size, left) && left == size - bytesRead
      modifies clusterBuf, buffer
      ensures 0 < copyLen <= left && |more| == bytesRead + copyLen && left == copyLen + rest
      ensures Wrote(start, base, more, buffer[..]) && Remaining(volume, goal, more, volume.Next(cluster), 0, size, rest)
    {
      ghost var before := buffer[..];
      LoadCluster(cluster, clusterBuf);
      copyLen := volume.ClusterSize() - offset;
      if copyLen > size - bytesRead {
        copyLen := size - bytesRead;
      }
      ghost var part := clusterBuf[offset..offset + copyLen];
      assert part == volume.Cluster(cluster)[offset..offset + copyLen];
      rest := left - copyLen;
      NextPart(volume, goal, done, cluster, offset, size, left, copyLen, rest);
      Copy(clusterBuf, offset, copyLen, buffer, base + bytesRead);
      WroteMore(start, base, done, before, base + bytesRead, part, buffer[..]);
      more := done + part;
    }

    /** The read loop: cluster by cluster until `size` bytes are copied or the chain ends. */
    method CopyChain(first: nat, offset: nat, size: nat, clusterBuf: array<Byte>, buffer: array<Byte>, base: nat)
      returns (bytesRead: nat)
      requires volume.Valid() && clusterBuf.Length == volume.ClusterSize() && offset < volume.ClusterSize()
      requires base + size <= buffer.Length && clusterBuf != buffer
      modifies clusterBuf, buffer
      ensures Wrote(old(buffer[..]), base, Slice(volume.Stored(first, size), offset, size), buffer[..])
      ensures bytesRead == |Slice(volume.Stored(first, size), offset, size)|
    {
      ghost var goal := Slice(volume.Stored(first, size), offset, size);
      ghost var done: seq<Byte>, start, left := [], buffer[..], size;
      bytesRead := 0;
      var currentCluster: nat, clusterOffset: nat := first, offset;
      while bytesRead < size && FIRST_CLUSTER <= currentCluster < END_OF_CHAIN
        invariant bytesRead == |done| <= size && clusterOffset < volume.ClusterSize()
        invariant Wrote(start, base, done, buffer[..])
        invariant Remaining(volume, goal, done, currentCluster, clusterOffset, size, left) && left == size - bytesRead
        decreases size - bytesRead
      {
        var copyLen;
        copyLen, done, left := CopyCluster(currentCluster, clusterOffset, size, bytesRead, clusterBuf, buffer, base,
                                           goal, done, start, left);
        bytesRead := bytesRead + copyLen;
        clusterOffset := 0;
        currentCluster := volume.Next(currentCluster);
      }
      AllRead(volume, goal, done, currentCluster, clusterOffset, size, left);
    }

    /** What a read of `s` to `buffer[base..]` leaves behind. */
    twostate predicate ReadDone(s: seq<Byte>, buffer: array<Byte>, base: nat, n: nat)
      requires old(heap.pmm.Shape()) && heap.pmm.Shape()
      reads this, buffer, heap, heap.pmm, heap.pmm.bitmap
    {
      && Grown(old(heap.View()), heap.View())
      && Arrived(s, old(buffer[..]), base, buffer[..], n, NoBuffer())
    }

    /** There is no memory for a cluster buffer. */
    ghost predicate NoBuffer()
      requires heap.pmm.Shape()
      reads this, heap, heap.pmm, heap.pmm.bitmap
    {
      heap.pmm.Exhausted() && NothingFits(heap.blocks, volume.ClusterSize())
    }

    /** A heap block for the cluster buffer; freeing it will leave the heap as it was but
        for growth. */
    method TakeBuffer() returns (p: nat)
      requires volume.Valid() && heap.Valid()
      modifies heap`mem, heap`blocks, heap`pages, heap.pmm`usedBlocks, heap.pmm.bitmap
      ensures heap.Valid()
      ensures p == 0 ==> Grown(old(heap.View()), heap.View()) && NoBuffer()
      ensures p != 0 ==> PayloadIn(heap.blocks, p) && Grown(old(heap.View()), Freed(heap.View(), p))
    {
      ghost var h := heap.View();
      WholeWords(volume.perCluster);
      var reach;
      p, reach := heap.Kmalloc(volume.ClusterSize());
      GrownByBuffer(h, heap.View(), volume.ClusterSize(), p);
    }

    method ReturnBuffer(p: nat, ghost h: HeapView)
      requires heap.Valid() && PayloadIn(heap.blocks, p) && Grown(h, Freed(heap.View(), p))
      modifies heap`mem, heap`blocks
      ensures heap.Valid() && Grown(h, heap.View())
    {
      ghost var after := Freed(heap.View(), p);
      heap.Kfree(p);
      assert heap.View() == after;
    }

    /** Read from `first` on through a buffer that lives as long as the call. */
    method ReadBuffered(first: nat, offset: nat, size: nat, buffer: array<Byte>, base: nat) returns (n: nat)
      requires volume.Valid() && heap.Valid() && offset < volume.ClusterSize() && base + size <= buffer.Length
      modifies buffer, heap`mem, heap`blocks, heap`pages, heap.pmm`usedBlocks, heap.pmm.bitmap
      ensures heap.Valid() && ReadDone(Slice(volume.Stored(first, size), offset, size), buffer, base, n)
    {
      var p := TakeBuffer();
      if p == 0 {
        return 0;
      }
      var clusterBuf := new Byte[volume.ClusterSize()];
      n := CopyChain(first, offset, size, clusterBuf, buffer, base);
      ReturnBuffer(p, old(heap.View()));
    }

    /** Skip to the cluster that holds `offset`, then read. */
    method ReadFrom(first: nat, offset: nat, count: nat, buffer: array<Byte>, base: nat) returns (n: nat)
      requires volume.Valid() && heap.Valid() && base + count <= buffer.Length
      modifies buffer, heap`mem, heap`blocks, heap`pages, heap.pmm`usedBlocks, heap.pmm.bitmap
      ensures heap.Valid() && ReadDone(StoredAt(volume, first, offset, count), buffer, base, n)
    {
      var clusterSize := volume.ClusterSize();
      var ok, from := SkipClusters(first, Quotient(offset, clusterSize), count);
      if !ok {
        GrownNot(heap.View());
        return 0;
      }
      n := ReadBuffered(from, Remainder(offset, clusterSize), count, buffer, base);
    }

    /** `fat32_vfs_read` */
    method Read(info: FileInfo, offset: nat, size: nat, buffer: array<Byte>, base: nat) returns (n: nat)
      requires volume.Valid() && heap.Valid() && info.Valid() && offset < Bytes.TWO_32 && size < Bytes.TWO_32
      requires base + Clip(offset, size, info.size) <= buffer.Length
      modifies buffer, heap`mem, heap`blocks, heap`pages, heap.pmm`usedBlocks, heap.pmm.bitmap
      ensures heap.Valid() && ReadDone(Delivered(volume, info.firstCluster, info.size, offset, size), buffer, base, n)
    {
      if offset >= info.size {
        GrownNot(heap.View());
        return 0;
      }
      var count := size;
      if Wrap(offset + size) > info.size {
        count := info.size - offset;
      }
      n := ReadFrom(info.firstCluster, offset, count, buffer, base);
    }
  }
}
