/** Reading files through the VFS: the dispatch of `vfs_read`, and the shell's read loop. */
module FileContents {
  import opened BlockList
  import opened Buffers
  import opened Bytes
  import opened Chains
  import opened Chunks
  import opened FatFormat
  import opened FatNames
  import opened FatReader
  import opened HeapLinks

  /** What a node's `read` pointer and `ptr` make of a read: nothing, a RAM file or a FAT32 file. */
  datatype Source = NoSource | RamSource(content: seq<Byte>) | FatSource(info: FileInfo) {
    /** The size the driver clips requests to. */
    function Recorded(): nat {
      match this
      case NoSource => 0
      case RamSource(content) => |content|
      case FatSource(info) => info.size
    }

    /** Sizes fit 32 bits. */
    predicate Sized() {
      match this
      case NoSource => true
      case RamSource(content) => |content| < TWO_32
      case FatSource(info) => info.Valid()
    }

    /** The bytes of the file. */
    ghost function Content(v: Volume): seq<Byte> {
      match this
      case NoSource => []
      case RamSource(content) => content
      case FatSource(info) => v.FileBytes(info.firstCluster, info.size)
    }

    /** The bytes a read of `size` bytes delivers, wrapped requests included. */
    ghost function Bytes(v: Volume, offset: nat, size: nat): seq<Byte>
      requires v.Valid()
    {
      match this
      case FatSource(info) => Delivered(v, info.firstCluster, info.size, offset, size)
      case _ => Slice(Content(v), offset, size)
    }
  }

  /** Either driver reads the requested range of the file, unless a FAT32 read strays. */
  lemma BytesAreContent(v: Volume, src: Source, offset: nat, size: nat)
    requires v.Valid() && src.Sized() && offset < TWO_32 && size < TWO_32
    requires Unwrapped(offset, size, src.Recorded()) || |src.Content(v)| <= offset
    requires src.FatSource? ==> !Strays(v, src.info.firstCluster, src.info.size, offset)
    ensures src.Bytes(v, offset, size) == Slice(src.Content(v), offset, size)
  {
    match src
    case FatSource(info) =>
      NoContent(v, info.firstCluster, info.size);
      if Unwrapped(offset, size, info.size) {
        DeliversFile(v, info.firstCluster, info.size, offset, size);
      } else {
        ShortFile(v, info.firstCluster, info.size, offset, size);
      }
    case _ =>
  }

  lemma NoContent(v: Volume, first: nat, size: nat)
    ensures !IsData(first) ==> v.FileBytes(first, size) == []
  {
    ClustersStep(v, first, size);
  }

  /** A file whose chain ended early has nothing stored behind its content. */
  lemma ShortFile(v: Volume, first: nat, recorded: nat, offset: nat, size: nat)
    requires v.Valid() && !Strays(v, first, recorded, offset)
    requires offset < TWO_32 && size < TWO_32 && recorded < TWO_32
    requires |v.FileBytes(first, recorded)| <= offset
    ensures Delivered(v, first, recorded, offset, size) == []
  {
    if offset < recorded {
      var n := TWO_32 + TWO_32;
      StoredStable(v, first, recorded, n, recorded);
      assert |v.Stored(first, n)| == |v.FileBytes(first, recorded)|;
      DeliversFileIff(v, first, recorded, offset, size, n);
      assert Delivered(v, first, recorded, offset, size) == Slice(v.FileBytes(first, recorded), offset, size);
    }
  }

  lemma ClipBound(offset: nat, size: nat, recorded: nat)
    requires offset < TWO_32 && size < TWO_32 && recorded < TWO_32
    ensures Clip(offset, size, recorded) <= size
  {
    if offset + size >= TWO_32 {
      assert Wrap(offset + size) == offset + size - TWO_32;
    }
  }

  // ---- the read loop ---------------------------------------------------------------

  const CHUNK: nat := 255

  /** 2^32 - 1 is a multiple of 255, so a loop over whole chunks never wraps. */
  lemma ChunksNeverWrap(k: nat, size: nat)
    requires CHUNK * k < size < TWO_32
    ensures CHUNK * k + CHUNK < TWO_32
  {
    assert TWO_32 == CHUNK * 16843009 + 1;
  }

  /** What one turn of the loop may ask for: a whole number of chunks into the file, or its end. */
  ghost predicate LoopOffset(content: seq<Byte>, offset: nat) {
    offset <= |content| && (offset == |content| || exists k: nat :: offset == CHUNK * k)
  }

  lemma LoopStarts(content: seq<Byte>)
    ensures LoopOffset(content, 0) && content[..0] == []
  {
    assert 0 == CHUNK * 0;
  }

  /** The requests of the loop are clipped correctly, whatever the size of the file. */
  lemma ChunkReads(v: Volume, src: Source, offset: nat)
    requires v.Valid() && src.Sized() && LoopOffset(src.Content(v), offset)
    ensures offset < TWO_32 && Clip(offset, CHUNK, src.Recorded()) <= CHUNK
    ensures src.RamSource? ==> Unwrapped(offset, CHUNK, src.Recorded())
    ensures src.Bytes(v, offset, CHUNK) == Slice(src.Content(v), offset, CHUNK)
  {
    assert |src.Content(v)| <= src.Recorded();
    ClipBound(offset, CHUNK, src.Recorded());
    if offset < |src.Content(v)| {
      var k: nat :| offset == CHUNK * k;
      ChunksNeverWrap(k, |src.Content(v)|);
    }
    BytesAreContent(v, src, offset, CHUNK);
  }

  /** The loop's bookkeeping after one piece: nothing is skipped or repeated. */
  lemma Appended(content: seq<Byte>, offset: nat, piece: seq<Byte>)
    requires LoopOffset(content, offset) && (piece == [] || piece == Slice(content, offset, CHUNK))
    ensures LoopOffset(content, offset + |piece|) && content[..offset] + piece == content[..offset + |piece|]
    ensures piece == [] && piece == Slice(content, offset, CHUNK) ==> offset == |content|
  {
    if piece != [] && offset < |content| {
      if |piece| == CHUNK {
        var k: nat :| offset == CHUNK * k;
        assert offset + |piece| == CHUNK * (k + 1);
      }
    } else if offset < |content| {
      assert Drop(content, offset)[0] == content[offset];
    }
  }

  lemma ShownWhole(fetched: seq<Byte>, shown: seq<Byte>, piece: seq<Byte>, text: seq<Byte>)
    requires text == CString(piece) && (0 !in fetched ==> shown == fetched)
    ensures 0 !in fetched + piece ==> shown + text == fetched + piece
  {
    if 0 !in fetched + piece {
      assert forall c | c in piece :: c in fetched + piece;
      assert forall c | c in fetched :: c in fetched + piece;
      NoNul(piece);
    }
  }

  /** Between two turns: the file up to `offset` has been fetched and, without NULs, shown. */
  ghost predicate Fetched(content: seq<Byte>, offset: nat, fetched: seq<Byte>, shown: seq<Byte>) {
    LoopOffset(content, offset) && fetched == content[..offset] && (0 !in fetched ==> shown == fetched)
  }

  lemma TurnDone(content: seq<Byte>, offset: nat, fetched: seq<Byte>, shown: seq<Byte>, piece: seq<Byte>,
                 text: seq<Byte>)
    requires Fetched(content, offset, fetched, shown) && text == CString(piece)
    requires piece == [] || piece == Slice(content, offset, CHUNK)
    ensures Fetched(content, offset + |piece|, fetched + piece, shown + text)
    ensures piece == [] && piece == Slice(content, offset, CHUNK) ==> offset == |content|
  {
    Appended(content, offset, piece);
    ShownWhole(fetched, shown, piece, text);
  }
}

module FileReads {
  import opened BlockList
  import opened Buffers
  import opened Bytes
  import opened Chains
  import opened Chunks
  import opened FatFormat
  import opened FatNames
  import opened FatReader
  import opened FileContents
  import opened HeapLinks

  /** `ramfs_read` */
  method RamRead(content: seq<Byte>, offset: nat, size: nat, buffer: array<Byte>, base: nat) returns (n: nat)
    requires |content| < TWO_32 && offset < TWO_32 && size < TWO_32 && Unwrapped(offset, size, |content|)
    requires base + Clip(offset, size, |content|) <= buffer.Length
    modifies buffer
    ensures n == |Slice(content, offset, size)|
    ensures Wrote(old(buffer[..]), base, Slice(content, offset, size), buffer[..])
  {
    if offset >= |content| {
      return 0;
    }
    ClipIff(offset, size, |content|);
    n := size;
    if Wrap(offset + size) > |content| {
      n := |content| - offset;
    }
    assert content[offset..offset + n] == Slice(content, offset, size);
    CopyBytes(content, offset, n, buffer, base);
  }

  method CopyBytes(content: seq<Byte>, offset: nat, n: nat, buffer: array<Byte>, base: nat)
    requires offset + n <= |content| && base + n <= buffer.Length
    modifies buffer
    ensures Wrote(old(buffer[..]), base, content[offset..offset + n], buffer[..])
  {
    for k := 0 to n
      invariant forall j | 0 <= j < buffer.Length ::
                  buffer[j] == if base <= j < base + k then content[offset + j - base] else old(buffer[j])
    {
      buffer[base + k] := content[offset + k];
    }
  }

  class FileReader {
    const fat: FatDriver

    constructor (fat: FatDriver)
      ensures this.fat == fat
    {
      this.fat := fat;
    }

    ghost predicate Valid()
      reads this, fat.heap, fat.heap.pmm, fat.heap.pmm.bitmap
    {
      fat.heap.Valid() && fat.volume.Valid()
    }

    /** A read of `src` has no memory for its cluster buffer; files in memory need none. */
    ghost predicate Starved(src: Source)
      requires fat.heap.pmm.Shape()
      reads this, fat, fat.heap, fat.heap.pmm, fat.heap.pmm.bitmap
    {
      src.FatSource? && fat.NoBuffer()
    }

    /** `vfs_read` */
    method Read(src: Source, offset: nat, size: nat, buffer: array<Byte>, base: nat) returns (n: nat)
      requires Valid() && src.Sized() && offset < TWO_32 && size < TWO_32
      requires base + Clip(offset, size, src.Recorded()) <= buffer.Length
      requires src.RamSource? ==> Unwrapped(offset, size, src.Recorded())
      modifies buffer, fat.heap`mem, fat.heap`blocks, fat.heap`pages, fat.heap.pmm`usedBlocks, fat.heap.pmm.bitmap
      ensures Valid() && fat.ReadDone(src.Bytes(fat.volume, offset, size), buffer, base, n)
      ensures !src.FatSource? ==>
                && n == |src.Bytes(fat.volume, offset, size)|
                && Wrote(old(buffer[..]), base, src.Bytes(fat.volume, offset, size), buffer[..])
    {
      GrownNot(fat.heap.View());
      match src
      case NoSource =>
        n := 0;
      case RamSource(content) =>
        n := RamRead(content, offset, size, buffer, base);
      case FatSource(info) =>
        n := fat.Read(info, offset, size, buffer, base);
    }

    /** One turn of the loop: a piece of the file, with a NUL behind it. `h` is the heap
        when the loop began. */
    method NextPiece(src: Source, offset: nat, buf: array<Byte>, ghost h: HeapView) returns (sz: nat, text: seq<Byte>)
      requires Valid() && src.Sized() && LoopOffset(src.Content(fat.volume), offset) && buf.Length == CHUNK + 1
      requires Grown(h, fat.heap.View())
      modifies buf, fat.heap`mem, fat.heap`blocks, fat.heap`pages, fat.heap.pmm`usedBlocks, fat.heap.pmm.bitmap
      ensures Valid() && Grown(h, fat.heap.View())
      ensures sz <= CHUNK && text == CString(buf[..sz])
      ensures buf[..sz] == Slice(src.Content(fat.volume), offset, CHUNK) || (sz == 0 && Starved(src))
    {
      ChunkReads(fat.volume, src, offset);
      sz := ReadChunk(src, offset, buf, h, Slice(src.Content(fat.volume), offset, CHUNK));
      buf[sz] := 0;
      text := CString(buf[..]);
      assert buf[..][..sz] == buf[..sz];
      CStringPrefix(buf[..sz], buf[..]);
    }

    /** The read of one turn: the heap's side. */
    method ReadChunk(src: Source, offset: nat, buf: array<Byte>, ghost h: HeapView, ghost piece: seq<Byte>)
        returns (sz: nat)
      requires Valid() && src.Sized() && offset < TWO_32 && buf.Length == CHUNK + 1 && Grown(h, fat.heap.View())
      requires Clip(offset, CHUNK, src.Recorded()) <= CHUNK
               && (src.RamSource? ==> Unwrapped(offset, CHUNK, src.Recorded()))
      requires src.Bytes(fat.volume, offset, CHUNK) == piece && |piece| <= CHUNK
      modifies buf, fat.heap`mem, fat.heap`blocks, fat.heap`pages, fat.heap.pmm`usedBlocks, fat.heap.pmm.bitmap
      ensures Valid() && Grown(h, fat.heap.View())
      ensures sz <= CHUNK && (buf[..sz] == piece || (sz == 0 && Starved(src)))
    {
      ghost var before := fat.heap.View();
      sz := Read(src, offset, CHUNK, buf, 0);
      GrownTwice(h, before, fat.heap.View());
    }

    /** The shell's `cat`: read 255 bytes at a time until nothing comes. Each piece is
        shown as a C string; `fetched` is what was read, `shown` what was printed. */
    method Cat(src: Source) returns (fetched: seq<Byte>, shown: seq<Byte>)
      requires Valid() && src.Sized()
      modifies fat.heap`mem, fat.heap`blocks, fat.heap`pages, fat.heap.pmm`usedBlocks, fat.heap.pmm.bitmap
      ensures Valid() && Grown(old(fat.heap.View()), fat.heap.View())
      ensures fetched == src.Content(fat.volume) || (fetched <= src.Content(fat.volume) && Starved(src))
      ensures 0 !in fetched ==> shown == fetched
    {
      var buf := new Byte[CHUNK + 1];
      fetched, shown := [], [];
      var offset: nat := 0;
      ghost var content, h := src.Content(fat.volume), fat.heap.View();
      GrownNot(h);
      LoopStarts(content);
      var sz: nat := CHUNK;
      while sz > 0
        invariant Valid() && Grown(h, fat.heap.View())
        invariant Fetched(content, offset, fetched, shown)
        invariant sz == 0 ==> offset == |content| || Starved(src)
        decreases |content| - offset, sz
      {
        sz, offset, fetched, shown := Turn(src, offset, buf, fetched, shown, h, content);
      }
    }

    /** One turn, with what it adds to the output. */
    method Turn(src: Source, offset: nat, buf: array<Byte>, fetched: seq<Byte>, shown: seq<Byte>,
                ghost h: HeapView, ghost content: seq<Byte>)
      returns (sz: nat, offset': nat, fetched': seq<Byte>, shown': seq<Byte>)
      requires Valid() && src.Sized() && content == src.Content(fat.volume) && buf.Length == CHUNK + 1
      requires Grown(h, fat.heap.View()) && Fetched(content, offset, fetched, shown)
      modifies buf, fat.heap`mem, fat.heap`blocks, fat.heap`pages, fat.heap.pmm`usedBlocks, fat.heap.pmm.bitmap
      ensures Valid() && Grown(h, fat.heap.View())
      ensures offset' == offset + sz && Fetched(content, offset', fetched', shown')
      ensures sz == 0 ==> offset' == |content| || Starved(src)
    {
      var text;
      sz, text := NextPiece(src, offset, buf, h);
      ghost var piece := buf[..sz];
      TurnDone(content, offset, fetched, shown, piece, text);
      fetched', shown' := fetched + buf[..sz], shown + text;
      offset' := offset + |buf[..sz]|;
    }
  }
}

/** Ranges that lie in a file are read whole, while there is memory for the driver's buffer. */
module FileRanges {
  import opened BlockList
  import opened Buffers
  import opened Bytes
  import opened Chunks
  import opened FatFormat
  import opened FatReader
  import opened FileContents
  import opened FileReads

  /** Reads of the file deliver: when it is on the volume, the kernel heap has a free block
      for the cluster buffer. */
  ghost predicate CanRead(r: FileReader, src: Source)
    reads r, r.fat.heap, r.fat.heap.pmm, r.fat.heap.pmm.bitmap
  {
    && r.Valid() && src.Sized()
    && (src.FatSource? ==> !NothingFits(r.fat.heap.blocks, r.fat.volume.ClusterSize()))
  }

  /** A request the drivers answer from the file: one to a RAM file must not wrap. */
  predicate Askable(src: Source, offset: nat, size: nat) {
    offset < TWO_32 && size < TWO_32 && (src.RamSource? ==> Unwrapped(offset, size, |src.content|))
  }

  /** A range that lies in the file is delivered as it is. */
  lemma RangeReads(v: Volume, src: Source, offset: nat, size: nat)
    requires v.Valid() && src.Sized() && offset + size <= |src.Content(v)| < TWO_32
    ensures Askable(src, offset, size) && src.Bytes(v, offset, size) == src.Content(v)[offset..offset + size]
  {
    BytesAreContent(v, src, offset, size);
  }

  /** So is the start of a file of any length, as far as that goes. */
  lemma StartReads(v: Volume, src: Source, size: nat)
    requires v.Valid() && src.Sized() && size < TWO_32
    ensures Askable(src, 0, size) && src.Bytes(v, 0, size) == Take(src.Content(v), size)
  {
    BytesAreContent(v, src, 0, size);
    assert Drop(src.Content(v), 0) == src.Content(v);
  }

  lemma AtMostAsked(v: Volume, src: Source, offset: nat, size: nat)
    requires v.Valid() && src.Sized() && Askable(src, offset, size)
    ensures |src.Bytes(v, offset, size)| <= size && Clip(offset, size, src.Recorded()) <= size
  {
    ClipBound(offset, size, src.Recorded());
  }

  lemma {:induction false} StillFits(s: seq<Block>, frames: seq<nat>, n: nat)
    requires !NothingFits(s, n)
    ensures !NothingFits(GrowAll(s, frames), n)
    decreases |frames|
  {
    if frames != [] {
      FitsAfterPage(s, frames[0], n);
      StillFits(Grow(s, frames[0]), frames[1..], n);
    }
  }

  lemma FitsAfterPage(s: seq<Block>, frame: nat, n: nat)
    requires !NothingFits(s, n)
    ensures !NothingFits(Grow(s, frame), n)
  {
    var b :| b in s && Fits(b, n);
    var i :| 0 <= i < |s| && s[i] == b;
    assert i < |Grow(s, frame)| && Fits(Grow(s, frame)[i], n);
    assert Grow(s, frame)[i] in Grow(s, frame);
  }

  /** Read what the file has of a range; the rest of the buffer stays. */
  method ReadAsked(r: FileReader, src: Source, offset: nat, size: nat, buffer: array<Byte>, base: nat)
    requires CanRead(r, src) && Askable(src, offset, size) && base + size <= buffer.Length
    modifies buffer, r.fat.heap`mem, r.fat.heap`blocks, r.fat.heap`pages, r.fat.heap.pmm`usedBlocks,
             r.fat.heap.pmm.bitmap
    ensures CanRead(r, src)
    ensures Wrote(old(buffer[..]), base, src.Bytes(r.fat.volume, offset, size), buffer[..])
  {
    AtMostAsked(r.fat.volume, src, offset, size);
    ghost var h := r.fat.heap.View();
    var n := r.Read(src, offset, size, buffer, base);
    if src.FatSource? {
      StillFits(h.blocks, r.fat.heap.pages[|h.pages|..], r.fat.volume.ClusterSize());
    }
  }
}

module FilesByPath {
  import opened Buffers
  import opened Bytes
  import opened Chains
  import opened FatFormat
  import opened FatReader
  import opened FileContents
  import opened FileReads
  import opened NodePool
  import opened Paths
  import opened Vfs

  /** What reading through a node comes to. */
  function SourceOf(t: Tables, data: seq<seq<Byte>>, p: NodePtr): Source
    requires InTables(t, p)
  {
    var n := Deref(t, p);
    match n.read
    case NoDriver => NoSource
    case RamDriver => if n.link.ToFile? && n.link.index < |data| then RamSource(data[n.link.index]) else NoSource
    case FatDriver => var i := InfoOf(t, n.link); FatSource(FileInfo(i.firstCluster, i.size))
  }

  /** The source an item stands for. */
  function ItemSource(data: seq<seq<Byte>>, item: Item): Source {
    match item.what
    case RamData(i) => if i < |data| then RamSource(data[i]) else NoSource
    case FatData(c, size) => FatSource(FileInfo(c, size))
    case _ => NoSource
  }

  /** A node reads as the item it shows. */
  lemma NodeReadsItem(t: Tables, history: seq<Item>, data: seq<seq<Byte>>, p: NodePtr)
    requires TablesOk(t, history) && Usable(t, history, p)
    ensures SourceOf(t, data, p) == ItemSource(data, View(t, Deref(t, p)))
  {
    LiveFile(t, history, p);
  }

  /** `vfs_finddir` from the root, and the file found there. */
  method Open(fs: FileSystem, path: seq<Byte>) returns (p: NodePtr, src: Source)
    requires fs.Valid() && 0 !in path
    modifies fs`nextNode, fs`history, fs.nodes, fs.infos
    ensures fs.Valid() && fs.World() == old(fs.World())
    ensures var o := Walk(fs.World(), old(fs.Shown(Root)), path);
            fs.Outcome(p, o) && src == if o.None? then NoSource else ItemSource(fs.data[..], o.value)
  {
    p := fs.FindDir(Root, path);
    src := NoSource;
    if p != Null {
      NodeReadsItem(fs.State(), fs.history, fs.data[..], p);
      src := SourceOf(fs.State(), fs.data[..], p);
    }
  }

  datatype CatResult = NotFound | NotAFile | Printed(text: seq<Byte>)

  /** A file without NULs is printed whole, or up to where there was no memory for the
      cluster buffer of a file on the volume. */
  ghost predicate Shown(content: seq<Byte>, text: seq<Byte>, starved: bool) {
    0 !in content ==> text <= content && (text == content || starved)
  }

  /** The text of one file. */
  method CatText(reader: FileReader, src: Source) returns (text: seq<Byte>)
    requires reader.Valid() && src.Sized()
    modifies reader.fat.heap`mem, reader.fat.heap`blocks, reader.fat.heap`pages
    modifies reader.fat.heap.pmm`usedBlocks, reader.fat.heap.pmm.bitmap
    ensures reader.Valid() && Shown(src.Content(reader.fat.volume), text, reader.Starved(src))
  {
    var fetched;
    fetched, text := reader.Cat(src);
    ghost var content := src.Content(reader.fat.volume);
    assert 0 !in content ==> 0 !in fetched by {
      assert forall c | c in fetched :: c in content;
    }
  }

  /** The shell's `cat` of a path: a file without NULs is printed whole and once. */
  method CatFile(fs: FileSystem, reader: FileReader, path: seq<Byte>) returns (r: CatResult)
    requires fs.Valid() && reader.Valid() && reader.fat.volume == fs.volume && 0 !in path
    requires var o := Walk(fs.World(), fs.Shown(Root), path); o.Some? ==> ItemSource(fs.data[..], o.value).Sized()
    modifies fs`nextNode, fs`history, fs.nodes, fs.infos
    modifies reader.fat.heap`mem, reader.fat.heap`blocks, reader.fat.heap`pages
    modifies reader.fat.heap.pmm`usedBlocks, reader.fat.heap.pmm.bitmap
    ensures fs.Valid() && reader.Valid() && fs.World() == old(fs.World())
    ensures var o := Walk(fs.World(), old(fs.Shown(Root)), path);
            && (r == NotFound <==> o.None?)
            && (r == NotAFile <==> o.Some? && o.value.IsDirectory())
            && (r.Printed? ==>
              Shown(ItemSource(fs.data[..], o.value).Content(fs.volume), r.text,
                                      reader.Starved(ItemSource(fs.data[..], o.value))))
  {
    var p, src := Open(fs, path);
    if p == Null {
      return NotFound;
    }
    LiveNode(fs.State(), fs.history, p);
    if Deref(fs.State(), p).directory {
      return NotAFile;
    }
    var text := CatText(reader, src);
    return Printed(text);
  }
}
