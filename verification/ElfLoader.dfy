/** Loading an ELF file: the image its headers describe, and the loader's copy loop. */
module ElfFormat {
  import opened Buffers
  import opened Bytes
  import opened Chains
  import opened Chunks
  import opened FatFormat
  import opened FileContents
  import opened FileRanges

  const HEADER_SIZE: nat := 52
  const PROGRAM_HEADER: nat := 32
  const MAGIC: nat := 0x464C_457F
  const PT_LOAD: nat := 1

  datatype ElfHeader = ElfHeader(magic: nat, entry: nat, phoff: nat, phentsize: nat, phnum: nat)

  datatype Segment = Segment(kind: nat, offset: nat, vaddr: nat, filesz: nat, memsz: nat) {
    predicate Loads() {
      kind == PT_LOAD
    }

    /** All fields are 32-bit words. */
    predicate Fits() {
      kind < TWO_32 && offset < TWO_32 && vaddr < TWO_32 && filesz < TWO_32 && memsz < TWO_32
    }

    /** The bytes of memory the segment takes. */
    function Span(): nat {
      if memsz > filesz then memsz else filesz
    }
  }

  function DecodeHeader(s: seq<Byte>): ElfHeader
    requires |s| == HEADER_SIZE
  {
    ElfHeader(Word32(s, 0), Word32(s, 24), Word32(s, 28), Word16(s, 42), Word16(s, 44))
  }

  function DecodeSegment(s: seq<Byte>): Segment
    requires |s| == PROGRAM_HEADER
  {
    Segment(Word32(s, 0), Word32(s, 4), Word32(s, 8), Word32(s, 16), Word32(s, 20))
  }

  ghost function Zeros(n: nat): (s: seq<Byte>)
    ensures |s| == n && forall i | 0 <= i < n :: s[i] == 0
  {
    seq(n, _ => 0)
  }

  /** Where program header `i` lies, in 32-bit arithmetic. */
  function HeaderAt(h: ElfHeader, i: nat): nat {
    Wrap(h.phoff + i * h.phentsize)
  }

  /** `s` read over a variable that held `stale`: what a short read leaves is as it was. */
  function Over(s: seq<Byte>, stale: seq<Byte>): (r: seq<Byte>)
    ensures |r| == |stale| && forall i | 0 <= i < |r| :: r[i] == if i < |s| then s[i] else stale[i]
  {
    Take(s + Drop(stale, |s|), |stale|)
  }

  /** The file header, read into a variable that held `stale`. */
  ghost function HeaderOf(v: Volume, src: Source, stale: seq<Byte>): ElfHeader
    requires v.Valid() && |stale| == HEADER_SIZE
  {
    DecodeHeader(Over(src.Bytes(v, 0, HEADER_SIZE), stale))
  }

  /** The program header at `at` reads as `s`, into a variable that held `stale`. */
  ghost predicate Holds(v: Volume, src: Source, at: nat, stale: seq<Byte>, s: Segment)
    requires v.Valid()
  {
    && Askable(src, at, PROGRAM_HEADER) && |stale| == PROGRAM_HEADER
    && s == DecodeSegment(Over(src.Bytes(v, at, PROGRAM_HEADER), stale))
  }

  /** The program headers read as `table`; `stales` is what their variable held in each turn. */
  ghost predicate HoldsTable(v: Volume, src: Source, h: ElfHeader, stales: seq<seq<Byte>>, table: seq<Segment>)
    requires v.Valid()
  {
    |table| == |stales| == h.phnum && forall i | 0 <= i < |table| :: Holds(v, src, HeaderAt(h, i), stales[i], table[i])
  }

  /** What a segment takes lies in memory, and its request does not wrap in a RAM file. */
  predicate SegmentOk(src: Source, s: Segment, top: nat) {
    s.Loads() ==> Askable(src, s.offset, s.filesz) && s.vaddr + s.Span() <= top
  }

  ghost predicate TableOk(src: Source, table: seq<Segment>, top: nat) {
    forall i | 0 <= i < |table| :: SegmentOk(src, table[i], top)
  }

  /** What is on the stack when the headers are read. */
  datatype Stack = Stack(header: seq<Byte>, turns: seq<seq<Byte>>)

  /** A file the loader can load, or one without the magic number. */
  ghost predicate FileOk(v: Volume, src: Source, stack: Stack, table: seq<Segment>, top: nat) {
    && v.Valid() && |stack.header| == HEADER_SIZE && top <= TWO_32
    && var h := HeaderOf(v, src, stack.header);
       h.magic == MAGIC ==> HoldsTable(v, src, h, stack.turns, table) && TableOk(src, table, top)
  }

  // ---- the load image -----------------------------------------------------------------

  /** Bytes that go to one place in memory. */
  datatype Piece = Piece(at: nat, bytes: seq<Byte>) {
    predicate Covers(a: nat) {
      at <= a < at + |bytes|
    }
  }

  /** The bytes the file has for a segment; nothing for segments not to be loaded. */
  ghost function FilePiece(v: Volume, src: Source, s: Segment): Piece
    requires v.Valid()
  {
    if s.Loads() then Piece(s.vaddr, src.Bytes(v, s.offset, s.filesz)) else Piece(0, [])
  }

  /** Zeros from the end of its file bytes, whether the file has them all or not, up to its
      size in memory. */
  ghost function ZeroPiece(s: Segment): Piece {
    if s.Loads() then Piece(s.vaddr + s.filesz, Zeros(s.Span() - s.filesz)) else Piece(0, [])
  }

  /** A segment that lies in the file is in memory as it is there. */
  lemma PieceInFile(v: Volume, src: Source, s: Segment)
    requires v.Valid() && src.Sized() && s.Loads() && s.offset + s.filesz <= |src.Content(v)| < TWO_32
    ensures FilePiece(v, src, s) == Piece(s.vaddr, src.Content(v)[s.offset..s.offset + s.filesz])
  {
    RangeReads(v, src, s.offset, s.filesz);
  }

  ghost predicate Fit(pieces: seq<Piece>, top: nat) {
    forall i | 0 <= i < |pieces| :: pieces[i].at + |pieces[i].bytes| <= top
  }

  ghost function Patch(mem: seq<Byte>, p: Piece): (r: seq<Byte>)
    requires p.at + |p.bytes| <= |mem|
    ensures |r| == |mem|
  {
    mem[..p.at] + p.bytes + mem[p.at + |p.bytes|..]
  }

  /** Memory after all pieces were put in place, one after the other. */
  ghost function PatchAll(mem: seq<Byte>, pieces: seq<Piece>): (r: seq<Byte>)
    requires Fit(pieces, |mem|)
    ensures |r| == |mem|
    decreases |pieces|
  {
    if pieces == [] then mem else PatchAll(Patch(mem, pieces[0]), pieces[1..])
  }

  lemma PatchAt(mem: seq<Byte>, p: Piece, a: nat)
    requires p.at + |p.bytes| <= |mem| && a < |mem|
    ensures Patch(mem, p)[a] == if p.Covers(a) then p.bytes[a - p.at] else mem[a]
  {
  }

  lemma PatchNothing(mem: seq<Byte>)
    ensures Patch(mem, Piece(0, [])) == mem
  {
    assert mem[..0] + [] + mem[0..] == mem;
  }

  lemma {:induction false} PatchUntouched(mem: seq<Byte>, pieces: seq<Piece>, a: nat)
    requires Fit(pieces, |mem|) && a < |mem| && forall i | 0 <= i < |pieces| :: !pieces[i].Covers(a)
    ensures PatchAll(mem, pieces)[a] == mem[a]
    decreases |pieces|
  {
    if pieces != [] {
      PatchUntouched(Patch(mem, pieces[0]), pieces[1..], a);
      PatchAt(mem, pieces[0], a);
    }
  }

  /** An address holds what the last piece that covers it put there. */
  lemma {:induction false} PatchLast(mem: seq<Byte>, pieces: seq<Piece>, a: nat, k: nat)
    requires Fit(pieces, |mem|) && a < |mem| && k < |pieces| && pieces[k].Covers(a)
    requires forall i | k < i < |pieces| :: !pieces[i].Covers(a)
    ensures PatchAll(mem, pieces)[a] == pieces[k].bytes[a - pieces[k].at]
    decreases |pieces|
  {
    if k > 0 {
      PatchLast(Patch(mem, pieces[0]), pieces[1..], a, k - 1);
    } else {
      PatchUntouched(Patch(mem, pieces[0]), pieces[1..], a);
      PatchAt(mem, pieces[0], a);
    }
  }

  lemma {:induction false} PatchMore(mem: seq<Byte>, pieces: seq<Piece>, p: Piece)
    requires Fit(pieces + [p], |mem|)
    ensures Fit(pieces, |mem|) && p.at + |p.bytes| <= |mem|
    ensures PatchAll(mem, pieces + [p]) == Patch(PatchAll(mem, pieces), p)
    decreases |pieces|
  {
    var all := pieces + [p];
    assert all[|pieces|] == p && forall i | 0 <= i < |pieces| :: all[i] == pieces[i];
    if pieces != [] {
      assert all[1..] == pieces[1..] + [p];
      PatchMore(Patch(mem, pieces[0]), pieces[1..], p);
    } else {
      assert all[1..] == [];
    }
  }

  ghost predicate Disjoint(pieces: seq<Piece>) {
    forall i, j, a: nat | 0 <= i < j < |pieces| && pieces[i].Covers(a) :: !pieces[j].Covers(a)
  }

  /** With disjoint segments every one is in memory, and all other memory is as before. */
  lemma LoadImage(mem: seq<Byte>, pieces: seq<Piece>)
    requires Fit(pieces, |mem|) && Disjoint(pieces)
    ensures forall k | 0 <= k < |pieces| ::
              PatchAll(mem, pieces)[pieces[k].at..pieces[k].at + |pieces[k].bytes|] == pieces[k].bytes
    ensures forall a: nat | a < |mem| && (forall k | 0 <= k < |pieces| :: !pieces[k].Covers(a)) ::
              PatchAll(mem, pieces)[a] == mem[a]
  {
    var r := PatchAll(mem, pieces);
    forall k | 0 <= k < |pieces| ensures r[pieces[k].at..pieces[k].at + |pieces[k].bytes|] == pieces[k].bytes {
      forall a | pieces[k].at <= a < pieces[k].at + |pieces[k].bytes|
        ensures r[a] == pieces[k].bytes[a - pieces[k].at]
      {
        assert pieces[k].Covers(a);
        PatchLast(mem, pieces, a, k);
      }
    }
    forall a: nat | a < |mem| && (forall k | 0 <= k < |pieces| :: !pieces[k].Covers(a)) ensures r[a] == mem[a] {
      PatchUntouched(mem, pieces, a);
    }
  }

  /** The pieces of a table of segments, two for each. */
  ghost function PiecesOf(v: Volume, src: Source, table: seq<Segment>): seq<Piece>
    requires v.Valid()
  {
    if table == [] then []
    else
      var s := table[|table| - 1];
      PiecesOf(v, src, table[..|table| - 1]) + [FilePiece(v, src, s), ZeroPiece(s)]
  }

  lemma PatchTwo(mem: seq<Byte>, done: seq<Piece>, p: Piece, z: Piece)
    requires Fit(done, |mem|) && p.at + |p.bytes| <= |mem| && z.at + |z.bytes| <= |mem|
    ensures Fit(done + [p, z], |mem|)
    ensures PatchAll(mem, done + [p, z]) == Patch(Patch(PatchAll(mem, done), p), z)
  {
    assert done + [p, z] == done + [p] + [z];
    PatchMore(mem, done, p);
    PatchMore(mem, done + [p], z);
  }

  /** Both pieces of a segment fit. */
  ghost predicate BothFit(v: Volume, src: Source, s: Segment, top: nat)
    requires v.Valid()
  {
    && FilePiece(v, src, s).at + |FilePiece(v, src, s).bytes| <= top
    && ZeroPiece(s).at + |ZeroPiece(s).bytes| <= top
  }

  /** One segment more: its file bytes go to memory first, then the zeros. */
  lemma PiecesMore(v: Volume, src: Source, table: seq<Segment>, i: nat, mem: seq<Byte>)
    requires v.Valid() && i < |table| && Fit(PiecesOf(v, src, table[..i]), |mem|) && BothFit(v, src, table[i], |mem|)
    ensures var s, done, more := table[i], PiecesOf(v, src, table[..i]), PiecesOf(v, src, table[..i + 1]);
            && Fit(more, |mem|)
            && PatchAll(mem, more) == Patch(Patch(PatchAll(mem, done), FilePiece(v, src, s)), ZeroPiece(s))
  {
    assert table[..i + 1][..i] == table[..i];
    PatchTwo(mem, PiecesOf(v, src, table[..i]), FilePiece(v, src, table[i]), ZeroPiece(table[i]));
  }

  lemma SegmentFits(v: Volume, src: Source, s: Segment, top: nat)
    requires v.Valid() && src.Sized() && SegmentOk(src, s, top)
    ensures BothFit(v, src, s, top)
  {
    if s.Loads() {
      AtMostAsked(v, src, s.offset, s.filesz);
    }
  }
}

/** ELF files as a linker writes them. */
module ElfImages {
  import opened Bytes
  import opened Chunks
  import opened ElfFormat
  import opened FatFormat
  import opened FileContents
  import opened FileRanges
  import opened LittleEndian

  /** The fields of a file header in their order; those that the loader does not use in bytes. */
  datatype FileHeader = FileHeader(ident: seq<Byte>, kinds: seq<Byte>, entry: nat, phoff: nat, shoff: seq<Byte>,
                                   phentsize: nat, phnum: nat, sections: seq<Byte>) {
    predicate Good() {
      && |ident| == 12 && |kinds| == 8 && |shoff| == 10 && |sections| == 6
      && entry < TWO_32 && phoff < TWO_32 && phentsize < 0x1_0000 && phnum < 0x1_0000
    }

    /** Magic number and identification; type, machine and version; entry; program headers;
        section headers, flags and header size; entry size and number; sections. */
    function Bytes(): (s: seq<Byte>)
      requires Good()
      ensures |s| == 52
    {
      [0x7F, 0x45, 0x4C, 0x46] + ident + kinds + LE32(entry) + LE32(phoff) + shoff + LE16(phentsize) + LE16(phnum)
        + sections
    }
  }

  /** A program header: type, offset, virtual and physical address, sizes in file and
      memory, flags and alignment. */
  ghost function HeaderBytes(s: Segment, paddr: nat, rest: seq<Byte>): (b: seq<Byte>)
    requires s.Fits() && paddr < TWO_32 && |rest| == 8
    ensures |b| == 32
  {
    LE32(s.kind) + LE32(s.offset) + LE32(s.vaddr) + LE32(paddr) + LE32(s.filesz) + LE32(s.memsz) + rest
  }

  lemma FileHeaderParts(h: FileHeader)
    requires h.Good()
    ensures var b := h.Bytes();
            && b[0..4] == [0x7F, 0x45, 0x4C, 0x46] && b[24..28] == LE32(h.entry) && b[28..32] == LE32(h.phoff)
            && b[42..44] == LE16(h.phentsize) && b[44..46] == LE16(h.phnum)
  {
    var front := [0x7F, 0x45, 0x4C, 0x46] + h.ident + h.kinds;
    var middle := front + LE32(h.entry) + LE32(h.phoff) + h.shoff;
    assert front[0..4] == [0x7F, 0x45, 0x4C, 0x46] && |front| == 24 && |middle| == 42;
    assert middle[..24] == front && middle[24..28] == LE32(h.entry) && middle[28..32] == LE32(h.phoff);
    assert h.Bytes()[..42] == middle;
  }

  /** The loader reads a file header as it was written. */
  lemma FileHeaderReads(h: FileHeader)
    requires h.Good()
    ensures DecodeHeader(h.Bytes()) == ElfHeader(MAGIC, h.entry, h.phoff, h.phentsize, h.phnum)
  {
    FileHeaderParts(h);
    var b := h.Bytes();
    assert LE32(0x464C_457F) == [0x7F, 0x45, 0x4C, 0x46];
    Reads32(b, 0, 0x464C_457F);
    Reads32(b, 24, h.entry);
    Reads32(b, 28, h.phoff);
    Reads16(b, 42, h.phentsize);
    Reads16(b, 44, h.phnum);
  }

  /** And a program header. */
  lemma ProgramHeaderReads(s: Segment, paddr: nat, rest: seq<Byte>)
    requires s.Fits() && paddr < TWO_32 && |rest| == 8
    ensures DecodeSegment(HeaderBytes(s, paddr, rest)) == s
  {
    var b := HeaderBytes(s, paddr, rest);
    assert b[0..4] == LE32(s.kind) && b[4..8] == LE32(s.offset) && b[8..12] == LE32(s.vaddr);
    assert b[16..20] == LE32(s.filesz) && b[20..24] == LE32(s.memsz);
    Reads32(b, 0, s.kind);
    Reads32(b, 4, s.offset);
    Reads32(b, 8, s.vaddr);
    Reads32(b, 16, s.filesz);
    Reads32(b, 20, s.memsz);
  }

  // ---- whole files ------------------------------------------------------------------

  /** The program header of a segment is at this place in the file. */
  ghost predicate HeaderInFile(file: seq<Byte>, at: nat, s: Segment) {
    && at + 32 <= |file| && s.Fits()
    && exists paddr: nat, rest: seq<Byte> ::
         paddr < TWO_32 && |rest| == 8 && file[at..at + 32] == HeaderBytes(s, paddr, rest)
  }

  /** A segment's bytes are in the file, and there is memory for it below `top`. */
  predicate SegmentInFile(s: Segment, length: nat, top: nat) {
    s.kind == 1 ==> s.offset + s.filesz <= length && s.vaddr + s.Span() <= top
  }

  function PlaceOf(h: FileHeader, i: nat): nat {
    h.phoff + i * h.phentsize
  }

  ghost predicate Linked(file: seq<Byte>, h: FileHeader, table: seq<Segment>, top: nat) {
    && h.Good() && 52 <= |file| < TWO_32 && file[..52] == h.Bytes() && |table| == h.phnum && top <= TWO_32
    && forall i | 0 <= i < |table| ::
      HeaderInFile(file, PlaceOf(h, i), table[i]) && SegmentInFile(table[i], |file|, top)
  }

  lemma LinkedHeader(v: Volume, src: Source, h: FileHeader, table: seq<Segment>, stale: seq<Byte>, top: nat)
    requires v.Valid() && src.Sized() && Linked(src.Content(v), h, table, top) && |stale| == HEADER_SIZE
    ensures HeaderOf(v, src, stale) == ElfHeader(MAGIC, h.entry, h.phoff, h.phentsize, h.phnum)
  {
    StartReads(v, src, HEADER_SIZE);
    FileHeaderReads(h);
    OverWhole(h.Bytes(), stale);
  }

  lemma PlaceIs(h: FileHeader, e: ElfHeader, i: nat)
    requires PlaceOf(h, i) < TWO_32 && e.phoff == h.phoff && e.phentsize == h.phentsize
    ensures HeaderAt(e, i) == PlaceOf(h, i)
  {
    assert Wrap(PlaceOf(h, i)) == PlaceOf(h, i);
  }

  lemma LinkedSegment(v: Volume, src: Source, h: FileHeader, table: seq<Segment>, i: nat, stale: seq<Byte>, top: nat)
    requires v.Valid() && src.Sized() && Linked(src.Content(v), h, table, top)
    requires i < |table| && |stale| == PROGRAM_HEADER
    ensures Holds(v, src, HeaderAt(ElfHeader(MAGIC, h.entry, h.phoff, h.phentsize, h.phnum), i), stale, table[i])
    ensures SegmentOk(src, table[i], top)
  {
    assert HeaderInFile(src.Content(v), PlaceOf(h, i), table[i]) && SegmentInFile(table[i], |src.Content(v)|, top);
    PlaceIs(h, ElfHeader(MAGIC, h.entry, h.phoff, h.phentsize, h.phnum), i);
    HeldAt(v, src, PlaceOf(h, i), table[i], stale);
    if table[i].Loads() {
      RangeReads(v, src, table[i].offset, table[i].filesz);
    }
  }

  lemma OverWhole(s: seq<Byte>, stale: seq<Byte>)
    requires |s| == |stale|
    ensures Over(s, stale) == s
  {
  }

  lemma HeldAt(v: Volume, src: Source, at: nat, s: Segment, stale: seq<Byte>)
    requires v.Valid() && src.Sized() && HeaderInFile(src.Content(v), at, s) && |src.Content(v)| < TWO_32
    requires |stale| == PROGRAM_HEADER
    ensures Holds(v, src, at, stale, s)
  {
    var b := src.Content(v)[at..at + 32];
    DecodedAt(src.Content(v), at, s);
    RangeReads(v, src, at, PROGRAM_HEADER);
    OverWhole(b, stale);
  }

  lemma DecodedAt(file: seq<Byte>, at: nat, s: Segment)
    requires HeaderInFile(file, at, s)
    ensures DecodeSegment(file[at..at + 32]) == s
  {
    var paddr: nat, rest: seq<Byte> :| paddr < TWO_32 && |rest| == 8
                                       && file[at..at + 32] == HeaderBytes(s, paddr, rest);
    ProgramHeaderReads(s, paddr, rest);
  }

  /** Such a file can be loaded, whatever was on the stack. */
  lemma LinkedLoads(v: Volume, src: Source, h: FileHeader, table: seq<Segment>, stack: Stack, top: nat)
    requires v.Valid() && src.Sized() && Linked(src.Content(v), h, table, top)
    requires |stack.header| == HEADER_SIZE && |stack.turns| == h.phnum
    requires forall i | 0 <= i < |stack.turns| :: |stack.turns[i]| == PROGRAM_HEADER
    ensures FileOk(v, src, stack, table, top)
    ensures HeaderOf(v, src, stack.header) == ElfHeader(MAGIC, h.entry, h.phoff, h.phentsize, h.phnum)
  {
    LinkedHeader(v, src, h, table, stack.header, top);
    var e := ElfHeader(MAGIC, h.entry, h.phoff, h.phentsize, h.phnum);
    forall i | 0 <= i < |table|
      ensures Holds(v, src, HeaderAt(e, i), stack.turns[i], table[i]) && SegmentOk(src, table[i], top)
    {
      LinkedSegment(v, src, h, table, i, stack.turns[i], top);
    }
  }

  // ---- where the bytes go ------------------------------------------------------------

  /** Address `a` belongs to the segment. */
  predicate Spans(s: Segment, a: nat) {
    s.kind == 1 && s.vaddr <= a < s.vaddr + (if s.memsz > s.filesz then s.memsz else s.filesz)
  }

  /** What is to be there: the byte of the file, or zero behind them. */
  function ByteAt(file: seq<Byte>, s: Segment, a: nat): Byte
    requires Spans(s, a)
  {
    if a < s.vaddr + s.filesz && s.offset + (a - s.vaddr) < |file| then file[s.offset + (a - s.vaddr)] else 0
  }

  lemma OneSegment(v: Volume, src: Source, s: Segment, mem: seq<Byte>, a: nat)
    requires v.Valid() && src.Sized() && SegmentInFile(s, |src.Content(v)|, |mem|) && |src.Content(v)| < TWO_32
    requires a < |mem| && BothFit(v, src, s, |mem|)
    ensures Patch(Patch(mem, FilePiece(v, src, s)), ZeroPiece(s))[a]
            == if Spans(s, a) then ByteAt(src.Content(v), s, a) else mem[a]
  {
    var p, z := FilePiece(v, src, s), ZeroPiece(s);
    if s.Loads() {
      PieceInFile(v, src, s);
    }
    PatchAt(mem, p, a);
    PatchAt(Patch(mem, p), z, a);
  }

  /** Every address has the byte of the last segment it belongs to, or what was there. */
  ghost predicate InMemory(file: seq<Byte>, table: seq<Segment>, before: seq<Byte>, after: seq<Byte>) {
    && |after| == |before|
    && (forall k, a | 0 <= k < |table| && 0 <= a < |after| && Spans(table[k], a) && LastOf(table, k, a) ::
          after[a] == ByteAt(file, table[k], a))
    && forall a | 0 <= a < |after| && Unspanned(table, a) :: after[a] == before[a]
  }

  ghost predicate LastOf(table: seq<Segment>, k: nat, a: nat) {
    forall j | k < j < |table| :: !Spans(table[j], a)
  }

  ghost predicate Unspanned(table: seq<Segment>, a: nat) {
    forall j | 0 <= j < |table| :: !Spans(table[j], a)
  }

  /** The byte at `a` after the first `n` segments. */
  function ImageByte(file: seq<Byte>, table: seq<Segment>, n: nat, before: Byte, a: nat): Byte
    requires n <= |table|
  {
    if n == 0 then before
    else if Spans(table[n - 1], a) then ByteAt(file, table[n - 1], a)
    else ImageByte(file, table, n - 1, before, a)
  }

  lemma {:induction false} ImageByteLast(file: seq<Byte>, table: seq<Segment>, n: nat, before: Byte, a: nat, k: nat)
    requires n <= |table| && forall j | k < j < n :: !Spans(table[j], a)
    ensures k < n && Spans(table[k], a) ==> ImageByte(file, table, n, before, a) == ByteAt(file, table[k], a)
    ensures Unspanned(table, a) ==> ImageByte(file, table, n, before, a) == before
    decreases n
  {
    if n > 0 && !Spans(table[n - 1], a) {
      ImageByteLast(file, table, n - 1, before, a, k);
    }
  }

  lemma {:induction false} ImageAt(v: Volume, src: Source, table: seq<Segment>, n: nat, mem: seq<Byte>, a: nat)
    requires v.Valid() && src.Sized() && n <= |table| && a < |mem| && |src.Content(v)| < TWO_32
    requires forall i | 0 <= i < |table| ::
               SegmentInFile(table[i], |src.Content(v)|, |mem|) && BothFit(v, src, table[i], |mem|)
    ensures Fit(PiecesOf(v, src, table[..n]), |mem|)
    ensures PatchAll(mem, PiecesOf(v, src, table[..n]))[a] == ImageByte(src.Content(v), table, n, mem[a], a)
    decreases n
  {
    if n > 0 {
      var i := n - 1;
      ImageAt(v, src, table, i, mem, a);
      PiecesMore(v, src, table, i, mem);
      OneSegment(v, src, table[i], PatchAll(mem, PiecesOf(v, src, table[..i])), a);
    }
  }

  lemma LinkedFits(v: Volume, src: Source, h: FileHeader, table: seq<Segment>, top: nat)
    requires v.Valid() && src.Sized() && Linked(src.Content(v), h, table, top)
    ensures forall i | 0 <= i < |table| ::
            SegmentInFile(table[i], |src.Content(v)|, top) && BothFit(v, src, table[i], top)
  {
    forall i | 0 <= i < |table|
      ensures SegmentInFile(table[i], |src.Content(v)|, top) && BothFit(v, src, table[i], top)
    {
      if table[i].Loads() {
        RangeReads(v, src, table[i].offset, table[i].filesz);
      }
      SegmentFits(v, src, table[i], top);
    }
  }

  /** After loading a file that a linker wrote, its image is in memory, and nothing else changed. */
  lemma LoadedInMemory(v: Volume, src: Source, h: FileHeader, table: seq<Segment>, before: seq<Byte>)
    requires v.Valid() && src.Sized() && Linked(src.Content(v), h, table, |before|)
    requires Fit(PiecesOf(v, src, table), |before|)
    ensures InMemory(src.Content(v), table, before, PatchAll(before, PiecesOf(v, src, table)))
  {
    var file, after := src.Content(v), PatchAll(before, PiecesOf(v, src, table));
    LinkedFits(v, src, h, table, |before|);
    assert table[..|table|] == table;
    forall a: nat | a < |before| ensures after[a] == ImageByte(file, table, |table|, before[a], a) {
      ImageAt(v, src, table, |table|, before, a);
    }
    forall k: nat, a: nat | k < |table| && a < |before| && Spans(table[k], a) && LastOf(table, k, a)
      ensures after[a] == ByteAt(file, table[k], a)
    {
      ImageByteLast(file, table, |table|, before[a], a, k);
    }
    forall a: nat | a < |before| && Unspanned(table, a) ensures after[a] == before[a] {
      ImageByteLast(file, table, |table|, before[a], a, |table|);
    }
  }
}

module ElfLoader {
  import opened BlockList
  import opened Buffers
  import opened Bytes
  import opened Chains
  import opened Chunks
  import opened ElfFormat
  import opened ElfImages
  import opened FatFormat
  import opened FatReader
  import opened FileContents
  import opened FileRanges
  import opened FileReads
  import opened FilesByPath
  import opened NodePool
  import opened Paths
  import opened Vfs

  /** Copy what the file has of a segment to memory and zero the rest of it. */
  method LoadSegment(r: FileReader, src: Source, ph: Segment, memory: array<Byte>)
    requires CanRead(r, src) && ph.Loads() && SegmentOk(src, ph, memory.Length)
    requires BothFit(r.fat.volume, src, ph, memory.Length)
    modifies memory, r.fat.heap`mem, r.fat.heap`blocks, r.fat.heap`pages, r.fat.heap.pmm`usedBlocks,
             r.fat.heap.pmm.bitmap
    ensures CanRead(r, src)
    ensures memory[..] == Patch(Patch(old(memory[..]), FilePiece(r.fat.volume, src, ph)), ZeroPiece(ph))
  {
    ghost var start, piece := memory[..], FilePiece(r.fat.volume, src, ph);
    ReadAsked(r, src, ph.offset, ph.filesz, memory, ph.vaddr);
    PatchIs(start, piece, memory[..]);
    ZeroRest(ph, memory);
  }

  /** Zero what a segment has in memory beyond its file bytes. */
  method ZeroRest(ph: Segment, memory: array<Byte>)
    requires ph.Loads() && ph.vaddr + ph.Span() <= memory.Length
    modifies memory
    ensures memory[..] == Patch(old(memory[..]), ZeroPiece(ph))
  {
    ghost var start := memory[..];
    var bss := ph.vaddr + ph.filesz;
    if ph.memsz > ph.filesz {
      ZeroFill(memory, bss, ph.memsz - ph.filesz);
    }
    assert Wrote(start, bss, Zeros(ph.Span() - ph.filesz), memory[..]);
    PatchIs(start, ZeroPiece(ph), memory[..]);
  }

  method ZeroFill(memory: array<Byte>, at: nat, n: nat)
    requires at + n <= memory.Length
    modifies memory
    ensures Wrote(old(memory[..]), at, Zeros(n), memory[..])
  {
    for j := 0 to n
      invariant forall k | 0 <= k < memory.Length ::
                  memory[k] == if at <= k < at + j then 0 else old(memory[k])
    {
      memory[at + j] := 0;
    }
  }

  lemma PatchIs(before: seq<Byte>, p: Piece, after: seq<Byte>)
    requires Wrote(before, p.at, p.bytes, after)
    ensures after == Patch(before, p)
  {
    assert after == after[..p.at] + after[p.at..p.at + |p.bytes|] + after[p.at + |p.bytes|..];
  }

  /** Read the program header at `at` over what its variable held. */
  method ReadHeader(r: FileReader, src: Source, at: nat, stale: seq<Byte>) returns (ph: Segment)
    requires CanRead(r, src) && Askable(src, at, PROGRAM_HEADER) && |stale| == PROGRAM_HEADER
    modifies r.fat.heap`mem, r.fat.heap`blocks, r.fat.heap`pages, r.fat.heap.pmm`usedBlocks, r.fat.heap.pmm.bitmap
    ensures CanRead(r, src) && Holds(r.fat.volume, src, at, stale, ph)
  {
    var raw := new Byte[PROGRAM_HEADER](i requires 0 <= i < PROGRAM_HEADER => stale[i]);
    assert raw[..] == stale;
    ReadAsked(r, src, at, PROGRAM_HEADER, raw, 0);
    assert raw[..] == Over(src.Bytes(r.fat.volume, at, PROGRAM_HEADER), stale);
    ph := DecodeSegment(raw[..]);
  }

  /** One turn of the loop: read a program header and load what it describes. */
  method LoadOne(r: FileReader, src: Source, at: nat, stale: seq<Byte>, ghost s: Segment, memory: array<Byte>)
    requires CanRead(r, src) && Holds(r.fat.volume, src, at, stale, s) && SegmentOk(src, s, memory.Length)
    requires BothFit(r.fat.volume, src, s, memory.Length)
    modifies memory, r.fat.heap`mem, r.fat.heap`blocks, r.fat.heap`pages, r.fat.heap.pmm`usedBlocks,
             r.fat.heap.pmm.bitmap
    ensures CanRead(r, src)
    ensures memory[..] == Patch(Patch(old(memory[..]), FilePiece(r.fat.volume, src, s)), ZeroPiece(s))
  {
    ghost var before := memory[..];
    var ph := ReadHeader(r, src, at, stale);
    if ph.kind == PT_LOAD {
      LoadSegment(r, src, ph, memory);
    } else {
      PatchNothing(before);
    }
  }

  /** The loop over the program headers. */
  method LoadSegments(r: FileReader, src: Source, header: ElfHeader, stales: seq<seq<Byte>>, ghost table: seq<Segment>,
                      memory: array<Byte>)
    requires CanRead(r, src) && HoldsTable(r.fat.volume, src, header, stales, table)
    requires TableOk(src, table, memory.Length)
    modifies memory, r.fat.heap`mem, r.fat.heap`blocks, r.fat.heap`pages, r.fat.heap.pmm`usedBlocks,
             r.fat.heap.pmm.bitmap
    ensures CanRead(r, src) && Fit(PiecesOf(r.fat.volume, src, table), memory.Length)
    ensures memory[..] == PatchAll(old(memory[..]), PiecesOf(r.fat.volume, src, table))
  {
    ghost var start, v := memory[..], r.fat.volume;
    for i := 0 to header.phnum
      invariant CanRead(r, src) && Fit(PiecesOf(v, src, table[..i]), |start|)
      invariant memory[..] == PatchAll(start, PiecesOf(v, src, table[..i]))
    {
      assert Holds(v, src, HeaderAt(header, i), stales[i], table[i]) && SegmentOk(src, table[i], memory.Length);
      SegmentFits(v, src, table[i], memory.Length);
      LoadOne(r, src, HeaderAt(header, i), stales[i], table[i], memory);
      PiecesMore(v, src, table, i, start);
    }
    assert table[..|table|] == table;
  }

  /** Read the header over what its variable held. */
  method ReadElfHeader(r: FileReader, src: Source, stale: seq<Byte>) returns (header: ElfHeader)
    requires CanRead(r, src) && |stale| == HEADER_SIZE
    modifies r.fat.heap`mem, r.fat.heap`blocks, r.fat.heap`pages, r.fat.heap.pmm`usedBlocks, r.fat.heap.pmm.bitmap
    ensures CanRead(r, src) && header == HeaderOf(r.fat.volume, src, stale)
  {
    var buffer := new Byte[HEADER_SIZE](i requires 0 <= i < HEADER_SIZE => stale[i]);
    assert buffer[..] == stale;
    StartReads(r.fat.volume, src, HEADER_SIZE);
    ReadAsked(r, src, 0, HEADER_SIZE, buffer, 0);
    assert buffer[..] == Over(src.Bytes(r.fat.volume, 0, HEADER_SIZE), stale);
    header := DecodeHeader(buffer[..]);
  }

  /** What `elf_load_file` makes of a file: the entry point and the image, or 0 and nothing
      for a file without the magic number. */
  ghost predicate Loaded(v: Volume, src: Source, stack: Stack, table: seq<Segment>, before: seq<Byte>,
                         entry: nat, after: seq<Byte>)
    requires FileOk(v, src, stack, table, |before|)
  {
    var h := HeaderOf(v, src, stack.header);
    if h.magic == MAGIC then
      && entry == h.entry && Fit(PiecesOf(v, src, table), |before|)
      && after == PatchAll(before, PiecesOf(v, src, table))
    else entry == 0 && after == before
  }

  /** `elf_load_file` once the file is found. */
  method Load(r: FileReader, src: Source, stack: Stack, ghost table: seq<Segment>, memory: array<Byte>)
    returns (entry: nat)
    requires CanRead(r, src) && FileOk(r.fat.volume, src, stack, table, memory.Length)
    modifies memory, r.fat.heap`mem, r.fat.heap`blocks, r.fat.heap`pages, r.fat.heap.pmm`usedBlocks,
             r.fat.heap.pmm.bitmap
    ensures CanRead(r, src) && Loaded(r.fat.volume, src, stack, table, old(memory[..]), entry, memory[..])
  {
    var header := ReadElfHeader(r, src, stack.header);
    if header.magic != MAGIC {
      return 0;
    }
    LoadSegments(r, src, header, stack.turns, table, memory);
    return header.entry;
  }

  /** A file that a linker wrote: every segment ends up at its address, zeros behind its
      bytes, and the rest of memory stays; the entry point comes back. */
  method LoadLinked(r: FileReader, src: Source, stack: Stack, ghost h: FileHeader, ghost table: seq<Segment>,
                    memory: array<Byte>)
    returns (entry: nat)
    requires CanRead(r, src) && ElfImages.Linked(src.Content(r.fat.volume), h, table, memory.Length)
    requires |stack.header| == HEADER_SIZE && |stack.turns| == h.phnum
    requires forall i | 0 <= i < |stack.turns| :: |stack.turns[i]| == PROGRAM_HEADER
    modifies memory, r.fat.heap`mem, r.fat.heap`blocks, r.fat.heap`pages, r.fat.heap.pmm`usedBlocks,
             r.fat.heap.pmm.bitmap
    ensures CanRead(r, src) && entry == h.entry
    ensures InMemory(src.Content(r.fat.volume), table, old(memory[..]), memory[..])
  {
    LinkedLoads(r.fat.volume, src, h, table, stack, memory.Length);
    ghost var before := memory[..];
    entry := Load(r, src, stack, table, memory);
    LoadedInMemory(r.fat.volume, src, h, table, before);
  }

  /** `elf_load_file`: 0 for a path that names nothing, else what loading that item gives;
      a directory reads as an empty file. */
  method LoadFile(fs: FileSystem, r: FileReader, path: seq<Byte>, stack: Stack, ghost table: seq<Segment>,
                  memory: array<Byte>)
    returns (entry: nat)
    requires fs.Valid() && 0 !in path && r.fat.volume == fs.volume
    requires var o := Walk(fs.World(), fs.Shown(Root), path);
             o.Some? ==> var src := ItemSource(fs.data[..], o.value);
                         CanRead(r, src) && FileOk(fs.volume, src, stack, table, memory.Length)
    modifies fs`nextNode, fs`history, fs.nodes, fs.infos, memory
    modifies r.fat.heap`mem, r.fat.heap`blocks, r.fat.heap`pages, r.fat.heap.pmm`usedBlocks, r.fat.heap.pmm.bitmap
    ensures fs.Valid() && fs.World() == old(fs.World())
    ensures var o := Walk(fs.World(), old(fs.Shown(Root)), path);
            if o.None? then entry == 0 && memory[..] == old(memory[..])
            else Loaded(fs.volume, ItemSource(fs.data[..], o.value), stack, table, old(memory[..]), entry, memory[..])
  {
    var p, src := Open(fs, path);
    if p == Null {
      return 0;
    }
    entry := Load(r, src, stack, table, memory);
  }
}
