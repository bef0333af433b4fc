/** The kernel's own stores to the one memory: header words of the heap, entries of page
    tables, and stacks. */
module KernelStores {
  import opened Frames
  import opened BlockList
  import opened HeapLinks
  import opened KernelHeap
  import opened PagingFormat
  import opened UserHeapView
  import opened RoundRobin
  import opened Contexts
  import opened FramePartition
  import opened SharedMemory

  // ---- headers ---------------------------------------------------------------

  function PutHeader(words: seq<nat>, a: nat, h: Header): seq<nat> {
    if a / WORD + 2 >= |words| then words
    else words[a / WORD := h.size][a / WORD + 1 := if h.isFree then 1 else 0][a / WORD + 2 := h.next]
  }

  /** Read as headers, the words at the blocks of `t` are those of `mem`. */
  ghost predicate Agree(words: seq<nat>, mem: Memory, t: seq<Block>) {
    forall k | 0 <= k < |t| && t[k].addr in mem :: AgreeAt(words, mem, t[k].addr)
  }

  ghost predicate AgreeAt(words: seq<nat>, mem: Memory, a: nat)
    requires a in mem
  {
    a in Headers(words) && Headers(words)[a] == mem[a]
  }

  lemma PutAgrees(words: seq<nat>, mem: Memory, t: seq<Block>, j: nat, h: Header)
    requires Agree(words, mem, t) && Apart(t) && AllAligned(t) && j < |t| && t[j].addr / WORD + 2 < |words|
    ensures Agree(PutHeader(words, t[j].addr, h), mem[t[j].addr := h], t)
  {
    var w', mem' := PutHeader(words, t[j].addr, h), mem[t[j].addr := h];
    assert Aligned(t[j]);
    forall k | 0 <= k < |t| && t[k].addr in mem' ensures AgreeAt(w', mem', t[k].addr) {
      if k != j {
        assert ApartPair(t, k, j) && Aligned(t[k]) && AgreeAt(words, mem, t[k].addr);
      }
    }
  }

  lemma AgreedLists(words: seq<nat>, mem: Memory, first: nat, t: seq<Block>, pages: seq<nat>)
    requires Agree(words, mem, t) && Lists(mem, first, t, pages)
    ensures Lists(Headers(words), first, t, pages)
  {
    forall k | 0 <= k < |t| ensures NodeAt(Headers(words), t, k) {
      assert NodeAt(mem, t, k) && AgreeAt(words, mem, t[k].addr);
    }
  }

  /** The header of a block lies in the heap's pages, and in memory. */
  lemma HeaderFits(words: seq<nat>, t: seq<Block>, pages: seq<nat>, j: nat)
    requires Tiles(t, pages) && j < |t| && |words| == MAX_BLOCKS * FRAME_WORDS && AllNear(Elements(pages))
    ensures t[j].addr / WORD + 2 < |words|
    ensures forall h: Header :: OnlyIn(words, PutHeader(words, t[j].addr, h), Elements(pages))
  {
    forall w: nat | InHeader(t[j], w) ensures w / FRAME_WORDS in Elements(pages) {
      HeaderFrame(t, pages, j, w);
    }
    assert InHeader(t[j], t[j].addr / WORD + 2);
  }

  /** Only words in these frames differ. */
  ghost predicate OnlyIn(words: seq<nat>, words': seq<nat>, frames: set<nat>) {
    |words| == |words'| && forall w | 0 <= w < |words| && w / FRAME_WORDS !in frames :: words'[w] == words[w]
  }

  /** `kmalloc` takes block `i`, split or whole. */
  function CarvedWords(words: seq<nat>, s: seq<Block>, i: nat, n: nat): seq<nat>
    requires i < |s| && Fits(s[i], n)
  {
    var b, p := s[i], s[i].addr + HEADER + n;
    if b.size >= n + MIN_SPLIT then
      PutHeader(PutHeader(words, p, Header(b.size - n - HEADER, true, AddrAt(s, i + 1))), b.addr, Header(n, false, p))
    else
      PutHeader(words, b.addr, Header(b.size, false, AddrAt(s, i + 1)))
  }

  /** `kheap_expand` adds page `frame`. */
  function GrownWords(words: seq<nat>, s: seq<Block>, frame: nat): seq<nat>
    requires s != []
  {
    var last := s[|s| - 1];
    if Extends(s, frame) then
      PutHeader(words, last.addr, Header(last.size + PAGE, last.free, 0))
    else
      PutHeader(PutHeader(words, PAGE * frame, Header(PAGE - HEADER, true, 0)),
                last.addr, Header(last.size, last.free, PAGE * frame))
  }

  /** `kfree` marks block `i`, and lets block `i` absorb the next. */
  function FreedWords(words: seq<nat>, s: seq<Block>, i: nat): seq<nat>
    requires i < |s|
  {
    PutHeader(words, s[i].addr, Header(s[i].size, true, AddrAt(s, i + 1)))
  }

  function MergedWords(words: seq<nat>, s: seq<Block>, i: nat): seq<nat>
    requires i + 1 < |s|
  {
    PutHeader(words, s[i].addr, Header(s[i].size + HEADER + s[i + 1].size, s[i].free, AddrAt(s, i + 2)))
  }

  /** The words spell out the blocks `s` over `pages`. */
  ghost predicate Spells(words: seq<nat>, first: nat, s: seq<Block>, pages: seq<nat>) {
    && |words| == MAX_BLOCKS * FRAME_WORDS && AllNear(Elements(pages))
    && Lists(Headers(words), first, s, pages)
  }

  /** One header written, that of block `j` of `t`. */
  lemma PutOne(words: seq<nat>, mem: Memory, t: seq<Block>, pages: seq<nat>, j: nat, h: Header)
    requires Tiles(t, pages) && AllNear(Elements(pages)) && |words| == MAX_BLOCKS * FRAME_WORDS
    requires Agree(words, mem, t) && j < |t|
    ensures var w' := PutHeader(words, t[j].addr, h);
            Agree(w', mem[t[j].addr := h], t) && OnlyIn(words, w', Elements(pages))
  {
    TilesApart(t, pages);
    HeaderFits(words, t, pages, j);
    PutAgrees(words, mem, t, j, h);
  }

  /** Two headers written, that of block `j` last. */
  lemma PutTwo(words: seq<nat>, mem: Memory, t: seq<Block>, pages: seq<nat>, j: nat, a: nat, c: nat, g: Header,
               h: Header)
    requires Tiles(t, pages) && AllNear(Elements(pages)) && |words| == MAX_BLOCKS * FRAME_WORDS
    requires Agree(words, mem, t) && j + 1 < |t| && t[j].addr == a && t[j + 1].addr == c
    ensures var w' := PutHeader(PutHeader(words, c, g), a, h);
            Agree(w', mem[c := g][a := h], t) && OnlyIn(words, w', Elements(pages))
  {
    PutOne(words, mem, t, pages, j + 1, g);
    PutOne(PutHeader(words, c, g), mem[c := g], t, pages, j, h);
  }

  lemma SplitAgrees(words: seq<nat>, mem: Memory, s: seq<Block>, pages: seq<nat>, i: nat, n: nat)
    requires |words| == MAX_BLOCKS * FRAME_WORDS && AllNear(Elements(pages)) && i < |s| && Fits(s[i], n)
    requires Agree(words, mem, Carve(s, i, n)) && Tiles(Carve(s, i, n), pages) && s[i].size >= n + MIN_SPLIT
    ensures Agree(CarvedWords(words, s, i, n), CarvedMemory(mem, s, i, n), Carve(s, i, n))
    ensures OnlyIn(words, CarvedWords(words, s, i, n), Elements(pages))
  {
    var t, b, p := Carve(s, i, n), s[i], s[i].addr + HEADER + n;
    var pieces := Pieces(b, n);
    assert t[i] == pieces[0] && t[i + 1] == pieces[1];
    var rest := Header(b.size - n - HEADER, true, AddrAt(s, i + 1));
    assert CarvedMemory(mem, s, i, n) == mem[p := rest][b.addr := Header(n, false, p)];
    assert CarvedWords(words, s, i, n) == PutHeader(PutHeader(words, p, rest), b.addr, Header(n, false, p));
    PutTwo(words, mem, t, pages, i, b.addr, p, rest, Header(n, false, p));
  }

  lemma WholeAgrees(words: seq<nat>, mem: Memory, s: seq<Block>, pages: seq<nat>, i: nat, n: nat)
    requires |words| == MAX_BLOCKS * FRAME_WORDS && AllNear(Elements(pages)) && i < |s| && Fits(s[i], n)
    requires Agree(words, mem, Carve(s, i, n)) && Tiles(Carve(s, i, n), pages) && s[i].size < n + MIN_SPLIT
    ensures Agree(CarvedWords(words, s, i, n), CarvedMemory(mem, s, i, n), Carve(s, i, n))
    ensures OnlyIn(words, CarvedWords(words, s, i, n), Elements(pages))
  {
    var t, pieces := Carve(s, i, n), Pieces(s[i], n);
    assert t[i] == pieces[0];
    PutOne(words, mem, t, pages, i, Header(s[i].size, false, AddrAt(s, i + 1)));
  }

  lemma CarveWrites(words: seq<nat>, first: nat, s: seq<Block>, pages: seq<nat>, i: nat, n: nat)
    requires Spells(words, first, s, pages) && i < |s| && Fits(s[i], n) && n % 4 == 0
    ensures Spells(CarvedWords(words, s, i, n), first, Carve(s, i, n), pages)
    ensures OnlyIn(words, CarvedWords(words, s, i, n), Elements(pages))
  {
    var mem, t := Headers(words), Carve(s, i, n);
    CarvedLists(mem, first, s, pages, i, n);
    assert Agree(words, mem, t);
    if s[i].size >= n + MIN_SPLIT {
      SplitAgrees(words, mem, s, pages, i, n);
    } else {
      WholeAgrees(words, mem, s, pages, i, n);
    }
    AgreedLists(CarvedWords(words, s, i, n), CarvedMemory(mem, s, i, n), first, t, pages);
  }

  lemma CarvedLists(mem: Memory, first: nat, s: seq<Block>, pages: seq<nat>, i: nat, n: nat)
    requires Lists(mem, first, s, pages) && i < |s| && Fits(s[i], n) && n % 4 == 0
    ensures Lists(CarvedMemory(mem, s, i, n), first, Carve(s, i, n), pages)
  {
    TilesApart(s, pages);
    LinkedCarve(mem, first, s, i, n);
    TilesCarve(s, pages, i, n);
  }

  lemma GrownLists(mem: Memory, first: nat, s: seq<Block>, pages: seq<nat>, frame: nat)
    requires Lists(mem, first, s, pages) && RESERVED <= frame && frame !in pages
    ensures s[|s| - 1].addr in mem && mem[s[|s| - 1].addr] == Header(s[|s| - 1].size, s[|s| - 1].free, 0)
    ensures Lists(GrownMemory(mem, s, frame), first, Grow(s, frame), pages + [frame])
    ensures s[|s| - 1].addr / PAGE != frame
  {
    TilesApart(s, pages);
    assert NodeAt(mem, s, |s| - 1);
    LinkedGrow(mem, first, s, frame);
    TilesGrow(s, pages, frame);
  }

  lemma ExtendAgrees(words: seq<nat>, mem: Memory, s: seq<Block>, pages: seq<nat>, frame: nat, last: Block)
    requires |words| == MAX_BLOCKS * FRAME_WORDS && AllNear(Elements(pages)) && s != [] && last == s[|s| - 1]
    requires last.addr in mem && mem[last.addr] == Header(last.size, last.free, 0) && Extends(s, frame)
    requires Tiles(Grow(s, frame), pages) && Agree(words, mem, Grow(s, frame))
    ensures Agree(GrownWords(words, s, frame), GrownMemory(mem, s, frame), Grow(s, frame))
    ensures OnlyIn(words, GrownWords(words, s, frame), Elements(pages))
  {
    var h, a := Header(last.size + PAGE, last.free, 0), last.addr;
    assert GrownMemory(mem, s, frame) == mem[a := h];
    assert GrownWords(words, s, frame) == PutHeader(words, a, h);
    PutOne(words, mem, Grow(s, frame), pages, |s| - 1, h);
  }

  lemma AppendAgrees(words: seq<nat>, mem: Memory, s: seq<Block>, pages: seq<nat>, frame: nat, last: Block, page: nat)
    requires |words| == MAX_BLOCKS * FRAME_WORDS && AllNear(Elements(pages)) && s != [] && last == s[|s| - 1]
    requires last.addr in mem && mem[last.addr] == Header(last.size, last.free, 0) && !Extends(s, frame)
    requires Tiles(Grow(s, frame), pages) && Agree(words, mem, Grow(s, frame))
    requires page == PAGE * frame && last.addr / PAGE != frame
    ensures Agree(GrownWords(words, s, frame), GrownMemory(mem, s, frame), Grow(s, frame))
    ensures OnlyIn(words, GrownWords(words, s, frame), Elements(pages))
  {
    var h, g, a := Header(PAGE - HEADER, true, 0), Header(last.size, last.free, page), last.addr;
    assert last.addr != page;
    assert GrownMemory(mem, s, frame) == mem[page := h][a := g];
    assert GrownWords(words, s, frame) == PutHeader(PutHeader(words, page, h), a, g);
    PutTwo(words, mem, Grow(s, frame), pages, |s| - 1, a, page, h, g);
  }

  lemma GrowWrites(words: seq<nat>, first: nat, s: seq<Block>, pages: seq<nat>, frame: nat)
    requires Spells(words, first, s, pages) && RESERVED <= frame < WINDOW && frame !in pages
    ensures Spells(GrownWords(words, s, frame), first, Grow(s, frame), pages + [frame])
    ensures OnlyIn(words, GrownWords(words, s, frame), Elements(pages + [frame]))
  {
    var mem, t, more, last := Headers(words), Grow(s, frame), pages + [frame], s[|s| - 1];
    assert Elements(more) == Elements(pages) + {frame};
    GrownLists(mem, first, s, pages, frame);
    assert Agree(words, mem, t);
    if Extends(s, frame) {
      ExtendAgrees(words, mem, s, more, frame, last);
    } else {
      AppendAgrees(words, mem, s, more, frame, last, PAGE * frame);
    }
    AgreedLists(GrownWords(words, s, frame), GrownMemory(mem, s, frame), first, t, more);
  }

  lemma FreeWrites(words: seq<nat>, first: nat, s: seq<Block>, pages: seq<nat>, i: nat)
    requires Spells(words, first, s, pages) && i < |s|
    ensures Spells(FreedWords(words, s, i), first, Release(s, s[i].addr), pages)
    ensures OnlyIn(words, FreedWords(words, s, i), Elements(pages))
  {
    var mem, t := Headers(words), Release(s, s[i].addr);
    assert NodeAt(mem, s, i);
    ReleaseStep(mem, first, s, pages, i);
    PutOne(words, mem, t, pages, i, Header(s[i].size, true, AddrAt(s, i + 1)));
    AgreedLists(FreedWords(words, s, i), mem[s[i].addr := mem[s[i].addr].(isFree := true)], first, t, pages);
  }

  lemma MergeWrites(words: seq<nat>, first: nat, s: seq<Block>, pages: seq<nat>, i: nat)
    requires Spells(words, first, s, pages) && i + 1 < |s| && Mergeable(s[i], s[i + 1])
    ensures Spells(MergedWords(words, s, i), first, MergeAt(s, i), pages)
    ensures OnlyIn(words, MergedWords(words, s, i), Elements(pages))
  {
    var mem, t := Headers(words), MergeAt(s, i);
    var h := Header(s[i].size + HEADER + s[i + 1].size, s[i].free, AddrAt(s, i + 2));
    MergeStep(mem, first, s, pages, i);
    PutOne(words, mem, t, pages, i, h);
    AgreedLists(MergedWords(words, s, i), mem[s[i].addr := h], first, t, pages);
  }

  // ---- what the others keep --------------------------------------------------

  lemma MapsApart(words: seq<nat>, words': seq<nat>, frames: set<nat>, l: Layout)
    requires l.Maps(words) && OnlyIn(words, words', frames) && frames !! TablesOf(l.directory)
    ensures l.Maps(words')
  {
    forall q: nat | q < VIRTUAL_PAGES ensures l.view.At(q) == WalkIn(l.directory, words', q) {
      SlotPresent(l.directory, q / ENTRIES);
      assert EntryWord(l.directory, q) / FRAME_WORDS == l.directory[q / ENTRIES] / PAGE_SIZE;
    }
  }

  lemma ThreadsApart(k: Kernel, words': seq<nat>, frames: set<nat>)
    requires Ok(k) && OnlyIn(k.mem, words', frames) && frames !! StackFramesOf(k.threads)
    ensures Ok(k.(mem := words'))
  {
    forall j | 0 <= j < MAX_THREADS && k.threads[j].state == Ready
      ensures SameFrame(k.mem, words', k.threads[j].Frame())
    {
      assert k.threads[j].Frame() in StackFramesOf(k.threads);
    }
    ExecuteOk(k, words', k.esp);
  }

  lemma HeapApart(words: seq<nat>, words': seq<nat>, frames: set<nat>, first: nat, s: seq<Block>, pages: seq<nat>)
    requires Lists(Headers(words), first, s, pages) && OnlyIn(words, words', frames) && frames !! Elements(pages)
    ensures Lists(Headers(words'), first, s, pages)
  {
    forall i | 0 <= i < |s| ensures NodeAt(Headers(words'), s, i) {
      assert NodeAt(Headers(words), s, i);
      forall w: nat | InHeader(s[i], w) ensures w / FRAME_WORDS !in frames {
        HeaderFrame(s, pages, i, w);
      }
      assert InHeader(s[i], s[i].addr / WORD) && InHeader(s[i], s[i].addr / WORD + 1)
             && InHeader(s[i], s[i].addr / WORD + 2);
    }
  }

  // ---- page tables ------------------------------------------------------------

  /** Frame `f` as a table with the one entry `x`, at place `j`. */
  function TableFilled(words: seq<nat>, f: nat, j: nat, x: nat): (r: seq<nat>)
    ensures |r| == |words|
  {
    seq(|words|, w requires 0 <= w < |words| =>
      if w / FRAME_WORDS != f then words[w] else if w % FRAME_WORDS == j then x else 0)
  }

  /** The stores of `page_map` for a page of a slot that has a table. */
  lemma EntryMaps(words: seq<nat>, l: Layout, q: nat, d: nat)
    requires l.Maps(words) && q < VIRTUAL_PAGES && l.directory[q / ENTRIES] != 0
    requires |words| == MAX_BLOCKS * FRAME_WORDS
    ensures var words' := Stored(words, EntryWord(l.directory, q), d * PAGE_SIZE + USER_RW);
            && l.(view := l.view.Remap(q, Entry(d, USER_RW))).Maps(words')
            && OnlyIn(words, words', TablesOf(l.directory))
  {
    var dir, w, view := l.directory, EntryWord(l.directory, q), l.view.Remap(q, Entry(d, USER_RW));
    var words' := Stored(words, w, d * PAGE_SIZE + USER_RW);
    SlotPresent(dir, q / ENTRIES);
    EntryParts(d, USER_RW);
    assert w / FRAME_WORDS == dir[q / ENTRIES] / PAGE_SIZE;
    forall r: nat | r < VIRTUAL_PAGES ensures view.At(r) == WalkIn(dir, words', r) {
      SlotPresent(dir, r / ENTRIES);
      assert EntryWord(dir, r) / FRAME_WORDS == dir[r / ENTRIES] / PAGE_SIZE;
      assert EntryWord(dir, r) % FRAME_WORDS == r % ENTRIES && w % FRAME_WORDS == q % ENTRIES;
      if r != q && dir[r / ENTRIES] != 0 {
        if r / ENTRIES != q / ENTRIES {
          TablesDiffer(dir, r / ENTRIES, q / ENTRIES);
        }
        assert EntryWord(dir, r) != w;
      }
      assert r != q ==> view.At(r) == l.view.At(r);
    }
  }

  /** And for one of an empty slot, the new table in frame `f` of the window. */
  lemma TableMaps(words: seq<nat>, l: Layout, q: nat, d: nat, f: nat)
    requires l.Maps(words) && q < VIRTUAL_PAGES && l.directory[q / ENTRIES] == 0 && f < WINDOW
             && f !in TablesOf(l.directory)
    requires |words| == MAX_BLOCKS * FRAME_WORDS
    ensures var slots := l.directory[q / ENTRIES := f * PAGE_SIZE + USER_RW];
            && l.(directory := slots, view := l.view.Remap(q, Entry(d, USER_RW)))
                .Maps(TableFilled(words, f, q % ENTRIES, d * PAGE_SIZE + USER_RW))
            && TablesOf(slots) == TablesOf(l.directory) + {f}
  {
    var dir, x := l.directory, d * PAGE_SIZE + USER_RW;
    var slots, words' := dir[q / ENTRIES := f * PAGE_SIZE + USER_RW], TableFilled(words, f, q % ENTRIES, x);
    Hang(dir, q / ENTRIES, f);
    EntryParts(d, USER_RW);
    forall r: nat | r < VIRTUAL_PAGES
      ensures WalkIn(slots, words', r) == if r == q then Entry(d, USER_RW) else WalkIn(dir, words, r)
    {
      SlotPresent(dir, r / ENTRIES);
      SlotPresent(slots, r / ENTRIES);
      assert EntryWord(slots, r) / FRAME_WORDS == slots[r / ENTRIES] / PAGE_SIZE;
      assert EntryWord(slots, r) % FRAME_WORDS == r % ENTRIES;
    }
  }

  // ---- what the kernel does ----------------------------------------------------

  /** A store of somebody else, or what the kernel does to headers, tables and stacks. */
  datatype Act =
    | Outside(store: Store)
    | TakeBlock(i: nat, n: nat)
    | AddPage(frame: nat)
    | FreeBlock(i: nat)
    | MergeNext(i: nat)
    | MapPage(q: nat, d: nat)
    | MapTable(q: nat, d: nat, f: nat)
    | CreateThread(page: nat, entry: nat)
    | SwitchTo(context: Context, out: nat)
    | FirstDispatch

  /** Nobody has the frame yet. */
  ghost predicate New(k: Kernel, f: nat) {
    RESERVED <= f < MAX_BLOCKS && f !in k.used
  }

  ghost predicate Unmapped(l: Layout, q: nat) {
    FIRST_PAGE <= q < LAST_PAGE && |l.directory| == ENTRIES && l.view.At(q) == Absent
  }

  /** What each act does to memory, threads, frames in use and layout. */
  ghost predicate Acts(k: Kernel, l: Layout, a: Act, k': Kernel, l': Layout) {
    match a
    case Outside(s) => Allowed(k, l, s) && k' == AfterStore(k, l, s) && l' == l
    case TakeBlock(i, n) =>
      && i < |l.blocks| && Fits(l.blocks[i], n) && n % 4 == 0
      && k' == k.(mem := CarvedWords(k.mem, l.blocks, i, n)) && l' == l.(blocks := Carve(l.blocks, i, n))
    case AddPage(f) =>
      && l.blocks != [] && New(k, f) && f < WINDOW
      && k' == k.(mem := GrownWords(k.mem, l.blocks, f), used := k.used + {f})
      && l' == l.(blocks := Grow(l.blocks, f), pages := l.pages + [f])
    case FreeBlock(i) =>
      && i < |l.blocks| && k' == k.(mem := FreedWords(k.mem, l.blocks, i))
      && l' == l.(blocks := Release(l.blocks, l.blocks[i].addr))
    case MergeNext(i) =>
      && i + 1 < |l.blocks| && Mergeable(l.blocks[i], l.blocks[i + 1])
      && k' == k.(mem := MergedWords(k.mem, l.blocks, i)) && l' == l.(blocks := MergeAt(l.blocks, i))
    case MapPage(q, d) =>
      && Unmapped(l, q) && New(k, d) && l.directory[q / ENTRIES] != 0
      && k' == k.(mem := Stored(k.mem, EntryWord(l.directory, q), d * PAGE_SIZE + USER_RW), used := k.used + {d})
      && l' == l.(view := l.view.Remap(q, Entry(d, USER_RW)))
    case MapTable(q, d, f) =>
      && Unmapped(l, q) && New(k, d) && New(k, f) && d != f && f < WINDOW && l.directory[q / ENTRIES] == 0
      && k' == k.(mem := TableFilled(k.mem, f, q % ENTRIES, d * PAGE_SIZE + USER_RW), used := k.used + {d} + {f})
      && l' == l.(view := l.view.Remap(q, Entry(d, USER_RW)),
                  directory := l.directory[q / ENTRIES := f * PAGE_SIZE + USER_RW])
    case CreateThread(page, entry) =>
      var i := FirstOf(StatesOf(k.threads), ThreadState.Free);
      && i < |k.threads| && page / PAGE_SIZE < WINDOW
      && (if page == 0 then !FrameZeroTaken(k.threads) else New(k, page / PAGE_SIZE))
      && PageTaken(k.used, page, k'.used) && FrameBuilt(k.mem, page, entry, k'.mem)
      && k' == AfterCreated(k, i, page, entry, k'.mem, k'.used) && l' == l
    case SwitchTo(c, out) =>
      && |k.threads| == MAX_THREADS && k.current < MAX_THREADS && Runnable(k.threads[k.current].state)
      && var n := NextSlot(StatesOf(k.threads), k.current);
      && n != k.current && OnlyFrame(k.mem, k'.mem, k.threads[k.current].Frame())
      && Holds(k'.mem, k.threads[k.current].Frame(), out, c) && k' == Switched(k, n, c, out, k'.mem) && l' == l
    case FirstDispatch =>
      var n := FirstOf(StatesOf(k.threads), Ready);
      k.current == MAX_THREADS && n < |k.threads| && k' == Dispatched(k, n) && l' == l
  }

  // ---- the heap ----------------------------------------------------------------

  lemma HeapAct(k: Kernel, l: Layout, words: seq<nat>, t: seq<Block>, pages: seq<nat>, used: set<nat>)
    requires Intact(k, l) && Spells(words, l.first, t, pages) && OnlyIn(k.mem, words, Elements(pages))
    requires k.used <= used && (forall f | f in used :: f < MAX_BLOCKS)
    requires Partition(used, Elements(pages), StackFramesOf(k.threads), TablesOf(l.directory), Owned(l.view).Values)
    ensures Intact(k.(mem := words, used := used), l.(blocks := t, pages := pages))
  {
    MapsApart(k.mem, words, Elements(pages), l);
    ThreadsApart(k, words, Elements(pages));
    MoreFrames(k.(mem := words), used);
  }

  lemma PageAct(k: Kernel, l: Layout, f: nat, k': Kernel, l': Layout)
    requires Intact(k, l) && Acts(k, l, AddPage(f), k', l')
    ensures Intact(k', l')
  {
    assert f in Elements(l.pages) <==> f in l.pages;
    GrowWrites(k.mem, l.first, l.blocks, l.pages, f);
    HeapGrows(k.used, Elements(l.pages), StackFramesOf(k.threads), TablesOf(l.directory), Owned(l.view).Values, {f});
    assert Elements(l.pages + [f]) == Elements(l.pages) + {f};
    HeapAct(k, l, k'.mem, l'.blocks, l'.pages, k'.used);
  }

  lemma BlockAct(k: Kernel, l: Layout, a: Act, k': Kernel, l': Layout)
    requires Intact(k, l) && Acts(k, l, a, k', l') && (a.TakeBlock? || a.FreeBlock? || a.MergeNext?)
    ensures Intact(k', l')
  {
    match a {
      case TakeBlock(i, n) => CarveWrites(k.mem, l.first, l.blocks, l.pages, i, n);
      case FreeBlock(i) => FreeWrites(k.mem, l.first, l.blocks, l.pages, i);
      case MergeNext(i) => MergeWrites(k.mem, l.first, l.blocks, l.pages, i);
    }
    HeapAct(k, l, k'.mem, l'.blocks, l.pages, k.used);
  }

  // ---- pages ---------------------------------------------------------------------

  lemma MapParts(k: Kernel, l: Layout, l': Layout, q: nat, d: nat, t: set<nat>)
    requires Intact(k, l) && Unmapped(l, q) && New(k, d) && (forall f | f in t :: New(k, f) && f != d)
    requires l'.pages == l.pages && l'.view == l.view.Remap(q, Entry(d, USER_RW))
    requires TablesOf(l'.directory) == TablesOf(l.directory) + t
    ensures l'.Parts(k.used + {d} + t, StackFramesOf(k.threads))
  {
    OwnedValues(l.view, q, d);
    UserGrows(k.used, Elements(l.pages), StackFramesOf(k.threads), TablesOf(l.directory), Owned(l.view).Values, d, t);
  }

  lemma MapAct(k: Kernel, l: Layout, k': Kernel, l': Layout, q: nat, d: nat, t: set<nat>, frames: set<nat>)
    requires Intact(k, l) && Unmapped(l, q) && New(k, d) && (forall f | f in t :: New(k, f) && f != d)
    requires l' == l.(view := l.view.Remap(q, Entry(d, USER_RW)), directory := l'.directory)
    requires k' == k.(mem := k'.mem, used := k.used + {d} + t) && l'.Maps(k'.mem) && OnlyIn(k.mem, k'.mem, frames)
    requires TablesOf(l'.directory) == TablesOf(l.directory) + t && frames <= TablesOf(l'.directory)
    ensures Intact(k', l')
  {
    MapParts(k, l, l', q, d, t);
    HeapApart(k.mem, k'.mem, frames, l.first, l.blocks, l.pages);
    ThreadsApart(k, k'.mem, frames);
    MoreFrames(k.(mem := k'.mem), k'.used);
  }

  lemma EntryAct(k: Kernel, l: Layout, q: nat, d: nat, k': Kernel, l': Layout)
    requires Intact(k, l) && Acts(k, l, MapPage(q, d), k', l')
    ensures Intact(k', l')
  {
    EntryMaps(k.mem, l, q, d);
    assert k.used + {d} + {} == k.used + {d} && TablesOf(l.directory) + {} == TablesOf(l.directory);
    MapAct(k, l, k', l', q, d, {}, TablesOf(l.directory));
  }

  lemma TableAct(k: Kernel, l: Layout, q: nat, d: nat, f: nat, k': Kernel, l': Layout)
    requires Intact(k, l) && Acts(k, l, MapTable(q, d, f), k', l')
    ensures Intact(k', l')
  {
    TableMaps(k.mem, l, q, d, f);
    MapAct(k, l, k', l', q, d, {f}, {f});
  }

  // ---- threads -------------------------------------------------------------------

  lemma ThreadAct(k: Kernel, l: Layout, k': Kernel, f: nat)
    requires Intact(k, l) && Ok(k') && OnlyFrame(k.mem, k'.mem, f) && f in StackFramesOf(k'.threads)
    requires k.used <= k'.used && (forall g | g in k'.used :: g < MAX_BLOCKS)
    requires l.Parts(k'.used, StackFramesOf(k'.threads)) && AllNear(StackFramesOf(k'.threads))
    ensures Intact(k', l)
  {
    forall w | 0 <= w < |k.mem| && w / FRAME_WORDS != f ensures k'.mem[w] == k.mem[w] {
      assert SameFrame(k.mem, k'.mem, w / FRAME_WORDS);
    }
    assert OnlyIn(k.mem, k'.mem, {f});
    MapsApart(k.mem, k'.mem, {f}, l);
    HeapApart(k.mem, k'.mem, {f}, l.first, l.blocks, l.pages);
  }

  lemma CreateAct(k: Kernel, l: Layout, page: nat, entry: nat, k': Kernel)
    requires Intact(k, l) && Acts(k, l, CreateThread(page, entry), k', l)
    ensures Intact(k', l)
  {
    var i, f := FirstOf(StatesOf(k.threads), ThreadState.Free), page / PAGE_SIZE;
    CreateEnds(k, i, page, entry, k'.mem, k'.used);
    assert k.threads[i].state == StatesOf(k.threads)[i];
    StackFramesAfter(k.threads, i, k'.threads[i]);
    StacksGrow(k.used, Elements(l.pages), StackFramesOf(k.threads), TablesOf(l.directory), Owned(l.view).Values, f);
    assert k'.used == k.used + {f};
    ThreadAct(k, l, k', f);
  }

  lemma SwitchAct(k: Kernel, l: Layout, c: Context, out: nat, k': Kernel)
    requires Intact(k, l) && Acts(k, l, SwitchTo(c, out), k', l)
    ensures Intact(k', l)
  {
    var n, f := NextSlot(StatesOf(k.threads), k.current), k.threads[k.current].Frame();
    SwitchDone(k, n, c, out, k');
    CurrentRuns(k);
    assert f in StackFramesOf(k.threads);
    ThreadAct(k, l, k', f);
  }

  lemma DispatchAct(k: Kernel, l: Layout, k': Kernel)
    requires Intact(k, l) && Acts(k, l, FirstDispatch, k', l)
    ensures Intact(k', l)
  {
    DispatchOk(k, FirstOf(StatesOf(k.threads), Ready));
  }

  // ---- everybody together ----------------------------------------------------------

  lemma ActKeeps(k: Kernel, l: Layout, a: Act, k': Kernel, l': Layout)
    requires Intact(k, l) && Acts(k, l, a, k', l')
    ensures Intact(k', l')
  {
    match a
    case Outside(s) => StoreKeeps(k, l, s);
    case TakeBlock(_, _) => BlockAct(k, l, a, k', l');
    case AddPage(f) => PageAct(k, l, f, k', l');
    case FreeBlock(_) => BlockAct(k, l, a, k', l');
    case MergeNext(_) => BlockAct(k, l, a, k', l');
    case MapPage(q, d) => EntryAct(k, l, q, d, k', l');
    case MapTable(q, d, f) => TableAct(k, l, q, d, f, k', l');
    case CreateThread(page, entry) => CreateAct(k, l, page, entry, k');
    case SwitchTo(c, out) => SwitchAct(k, l, c, out, k');
    case FirstDispatch => DispatchAct(k, l, k');
  }

  /** A run: each act takes one state to the next. */
  ghost predicate RunOf(acts: seq<Act>, kernels: seq<Kernel>, layouts: seq<Layout>) {
    && |kernels| == |layouts| == |acts| + 1
    && forall i | 0 <= i < |acts| :: Acts(kernels[i], layouts[i], acts[i], kernels[i + 1], layouts[i + 1])
  }

  /** Whatever users, threads, kmalloc clients and the kernel itself write, in whatever
      order: every heap header, table entry and parked context is there when it is needed. */
  lemma {:induction false} ActsKeep(acts: seq<Act>, kernels: seq<Kernel>, layouts: seq<Layout>, i: nat)
    requires RunOf(acts, kernels, layouts) && Intact(kernels[0], layouts[0]) && i <= |acts|
    ensures Intact(kernels[i], layouts[i])
    decreases i
  {
    if i > 0 {
      ActsKeep(acts, kernels, layouts, i - 1);
      ActKeeps(kernels[i - 1], layouts[i - 1], acts[i - 1], kernels[i], layouts[i]);
    }
  }

  // ---- the boot state ----------------------------------------------------------------

  /** Which of the four static tables lies in frame `f`; 4 when none does. */
  function TableIndex(t: seq<nat>, f: nat): (i: nat)
    requires |t| == 4
    ensures i <= 4 && (i < 4 ==> t[i] == f)
  {
    if f == t[0] then 0 else if f == t[1] then 1 else if f == t[2] then 2 else if f == t[3] then 3 else 4
  }

  /** After `paging_init` and `kheap_init`, over whatever memory held before. */
  function BootWords(t: seq<nat>, rest: seq<nat>): (words: seq<nat>)
    requires |t| == 4
    ensures |words| == |rest|
  {
    var first := FRAME_WORDS * RESERVED;
    seq(|rest|, w requires 0 <= w < |rest| =>
      var i := TableIndex(t, w / FRAME_WORDS);
      if i < 4 then (i * ENTRIES + w % FRAME_WORDS) * PAGE_SIZE + USER_RW
      else if w == first then INITIAL_PAGES * PAGE - HEADER
      else if w == first + 1 then 1
      else if w == first + 2 then 0
      else rest[w])
  }

  function BootSlots(t: seq<nat>): (d: seq<nat>)
    requires |t| == 4
    ensures |d| == ENTRIES
  {
    seq(ENTRIES, k requires 0 <= k < ENTRIES => if k < 4 then t[k] * PAGE_SIZE + USER_RW else 0)
  }

  ghost function BootKernel(t: seq<nat>, rest: seq<nat>, esp: nat): Kernel
    requires |t| == 4
  {
    Kernel(seq(MAX_THREADS, _ => Thread(0, 0, ThreadState.Free, 0, 0)), MAX_THREADS, 1, BootWords(t, rest), esp, [],
           Elements(Run(0, RESERVED + INITIAL_PAGES)))
  }

  ghost function BootLayout(t: seq<nat>): Layout
    requires |t| == 4
  {
    Layout(PAGE * RESERVED, BootBlocks(),
           Run(RESERVED, INITIAL_PAGES), BootSlots(t), BootView())
  }

  lemma BootMaps(t: seq<nat>, rest: seq<nat>)
    requires |t| == 4 && |rest| == MAX_BLOCKS * FRAME_WORDS && forall i | 0 <= i < 4 :: 0 < t[i] < RESERVED
    requires forall i, j | 0 <= i < j < 4 :: t[i] != t[j]
    ensures BootLayout(t).Maps(BootWords(t, rest)) && TablesOf(BootSlots(t)) == set i | 0 <= i < 4 :: t[i]
  {
    var d, words := BootSlots(t), BootWords(t, rest);
    BootDirectory(d, t);
    forall q: nat | q < VIRTUAL_PAGES ensures BootView().At(q) == WalkIn(d, words, q) {
      SlotPresent(d, q / ENTRIES);
      if q / ENTRIES < 4 {
        var w := EntryWord(d, q);
        assert w / FRAME_WORDS == t[q / ENTRIES] && w % FRAME_WORDS == q % ENTRIES;
        assert words[w] == q * PAGE_SIZE + USER_RW;
        EntryParts(q, USER_RW);
      }
    }
  }

  lemma BootHeap(t: seq<nat>, rest: seq<nat>)
    requires |t| == 4 && |rest| == MAX_BLOCKS * FRAME_WORDS && forall i | 0 <= i < 4 :: 0 < t[i] < RESERVED
    ensures var l := BootLayout(t); Lists(Headers(BootWords(t, rest)), l.first, l.blocks, l.pages)
  {
    var words, first := BootWords(t, rest), FRAME_WORDS * RESERVED;
    assert words[first] == INITIAL_PAGES * PAGE - HEADER && words[first + 1] == 1 && words[first + 2] == 0;
    FirstBlock(Headers(words), PAGE * RESERVED);
  }

  /** The state the kernel boots into, the static tables in frames `t`. */
  lemma BootIntact(t: seq<nat>, rest: seq<nat>, esp: nat)
    requires |t| == 4 && |rest| == MAX_BLOCKS * FRAME_WORDS && forall i | 0 <= i < 4 :: 0 < t[i] < RESERVED
    requires forall i, j | 0 <= i < j < 4 :: t[i] != t[j]
    ensures Intact(BootKernel(t, rest, esp), BootLayout(t))
  {
    var k, l := BootKernel(t, rest, esp), BootLayout(t);
    BootMaps(t, rest);
    BootHeap(t, rest);
    var tables := TablesOf(l.directory);
    assert StackFramesOf(k.threads) == {} && Owned(l.view) == map[];
    forall f: nat ensures f in k.used <==> f < RESERVED + INITIAL_PAGES {
      assert f < RESERVED + INITIAL_PAGES ==> Run(0, RESERVED + INITIAL_PAGES)[f] == f;
    }
    BootPartition(k.used, INITIAL_PAGES, l.pages, tables, tables, k.used);
  }
}
