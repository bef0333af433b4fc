/** One memory for everybody: heap headers, page tables and thread stacks read from the
    same words. What the frames' partition is good for: a store by one owner to what it
    owns changes nothing that the others rely on. */
module SharedMemory {
  import opened Frames
  import opened BlockList
  import opened HeapLinks
  import opened PagingFormat
  import opened UserHeapView
  import opened Contexts
  import opened RoundRobin
  import opened FramePartition

  const WORD: nat := 4

  /** The words at byte address `a`, read as a header. */
  function HeaderAt(words: seq<nat>, a: nat): Header
    requires a / WORD + 2 < |words|
  {
    Header(words[a / WORD], words[a / WORD + 1] != 0, words[a / WORD + 2])
  }

  ghost function Headers(words: seq<nat>): Memory {
    map a: nat | a < WORD * |words| && a / WORD + 2 < |words| :: HeaderAt(words, a)
  }

  /** The word that holds the entry of page `q`. */
  function EntryWord(d: seq<nat>, q: nat): nat
    requires |d| == ENTRIES && q < VIRTUAL_PAGES
  {
    FRAME_WORDS * (d[q / ENTRIES] / PAGE_SIZE) + q % ENTRIES
  }

  /** The processor's walk through directory `d`. */
  function WalkIn(d: seq<nat>, words: seq<nat>, q: nat): Translation
    requires |d| == ENTRIES && q < VIRTUAL_PAGES
  {
    if !Present(d[q / ENTRIES]) || EntryWord(d, q) >= |words| then Absent else Decode(words[EntryWord(d, q)])
  }

  /** What the words are to spell out, beside the contexts of the threads. */
  datatype Layout = Layout(first: nat, blocks: seq<Block>, pages: seq<nat>, directory: seq<nat>, view: Flat) {
    ghost predicate Maps(words: seq<nat>) {
      && Wired(directory) && view.Full()
      && forall q: nat | q < VIRTUAL_PAGES :: view.At(q) == WalkIn(directory, words, q)
    }

    ghost predicate Parts(used: set<nat>, stacks: set<nat>) {
      Partition(used, Elements(pages), stacks, TablesOf(directory), Owned(view).Values)
    }
  }

  /** Everybody finds in memory what it put there, and the frames are partitioned. The
      kernel reaches its own: they lie in the window, which maps to itself. */
  ghost predicate Intact(k: Kernel, l: Layout) {
    && Ok(k) && Lists(Headers(k.mem), l.first, l.blocks, l.pages) && l.Maps(k.mem)
    && l.Parts(k.used, StackFramesOf(k.threads)) && (forall f | f in k.used :: f < MAX_BLOCKS)
    && IdentityKept(l.view) && AllNear(Elements(l.pages)) && AllNear(StackFramesOf(k.threads))
  }

  /** So every word the kernel keeps is at its own address. */
  lemma Reaches(k: Kernel, l: Layout, f: nat)
    requires Intact(k, l) && f in Elements(l.pages) + TablesOf(l.directory) + StackFramesOf(k.threads)
    ensures l.view.At(f) == Entry(f, USER_RW)
  {
    if f in TablesOf(l.directory) {
      var i :| 0 <= i < |l.directory| && l.directory[i] != 0 && l.directory[i] / PAGE_SIZE == f;
      SlotPresent(l.directory, i);
    }
  }

  /** A user program stores through its mapping, the running thread to its stack page, or
      a kmalloc client to the payload of its block. */
  datatype Store = User(addr: nat, x: nat) | Stack(word: nat, x: nat) | Payload(block: Block, addr: nat, x: nat)

  ghost predicate Allowed(k: Kernel, l: Layout, s: Store) {
    match s
    case User(addr, _) => addr / PAGE_SIZE in Owned(l.view)
    case Stack(word, _) => k.current < |k.threads| && word / FRAME_WORDS == k.threads[k.current].Frame()
    case Payload(b, addr, _) =>
      b in Live(l.blocks) && b.addr + HEADER <= addr && addr + WORD <= b.End() && addr % WORD == 0
  }

  /** The word a store goes to. */
  ghost function Target(k: Kernel, l: Layout, s: Store): nat
    requires Allowed(k, l, s)
  {
    match s
    case User(addr, _) => FRAME_WORDS * Owned(l.view)[addr / PAGE_SIZE] + addr % PAGE_SIZE / WORD
    case Stack(word, _) => word
    case Payload(_, addr, _) => addr / WORD
  }

  ghost function Stored(words: seq<nat>, w: nat, x: nat): seq<nat> {
    if w < |words| then words[w := x] else words
  }

  ghost function AfterStore(k: Kernel, l: Layout, s: Store): Kernel
    requires Allowed(k, l, s)
  {
    k.(mem := Stored(k.mem, Target(k, l, s), s.x))
  }

  // ---- where the words of the others are ------------------------------------

  /** Word `w` belongs to the header of `b`. */
  predicate InHeader(b: Block, w: nat) {
    b.addr / WORD <= w < b.addr / WORD + 3
  }

  /** A header lies in pages of the heap. */
  lemma HeaderFrame(s: seq<Block>, pages: seq<nat>, i: nat, w: nat)
    requires Tiles(s, pages) && i < |s| && InHeader(s[i], w)
    ensures w / FRAME_WORDS in pages
  {
    assert Aligned(s[i]);
    BlockAt(s, i, WORD * w - s[i].addr);
    PagesDistinct(pages);
    assert (WORD * w) / PAGE == w / FRAME_WORDS;
  }

  /** A payload holds no word of a header. */
  lemma NoHeaderWord(s: seq<Block>, pages: seq<nat>, b: Block, addr: nat, i: nat)
    requires Tiles(s, pages) && i < |s| && b in s
    requires b.addr + HEADER <= addr && addr + WORD <= b.End() && addr % WORD == 0
    ensures !InHeader(s[i], addr / WORD)
  {
    TilesApart(s, pages);
    assert Aligned(s[i]);
    if s[i] != b {
      PayloadsApart(s, s[i], b);
    }
  }

  lemma PayloadFrame(s: seq<Block>, pages: seq<nat>, b: Block, addr: nat)
    requires Tiles(s, pages) && b in s && b.addr <= addr < b.End()
    ensures addr / WORD / FRAME_WORDS in pages
  {
    var i :| 0 <= i < |s| && s[i] == b;
    BlockAt(s, i, addr - b.addr);
    PagesDistinct(pages);
  }

  // ---- what a store leaves alone --------------------------------------------

  lemma HeaderKept(words: seq<nat>, w: nat, x: nat, a: nat)
    requires a in Headers(words) && !(a / WORD <= w < a / WORD + 3)
    ensures a in Headers(Stored(words, w, x)) && Headers(Stored(words, w, x))[a] == Headers(words)[a]
  {
  }

  lemma HeadersKept(words: seq<nat>, w: nat, x: nat, first: nat, s: seq<Block>, pages: seq<nat>)
    requires Lists(Headers(words), first, s, pages)
    requires forall i | 0 <= i < |s| :: !InHeader(s[i], w)
    ensures Lists(Headers(Stored(words, w, x)), first, s, pages)
  {
    forall i | 0 <= i < |s| ensures NodeAt(Headers(Stored(words, w, x)), s, i) {
      assert NodeAt(Headers(words), s, i) && !InHeader(s[i], w);
      HeaderKept(words, w, x, s[i].addr);
    }
  }

  lemma MapsKept(words: seq<nat>, w: nat, x: nat, l: Layout)
    requires l.Maps(words) && w / FRAME_WORDS !in TablesOf(l.directory)
    ensures l.Maps(Stored(words, w, x))
  {
    forall q: nat | q < VIRTUAL_PAGES ensures l.view.At(q) == WalkIn(l.directory, Stored(words, w, x), q) {
      SlotPresent(l.directory, q / ENTRIES);
      assert EntryWord(l.directory, q) / FRAME_WORDS == l.directory[q / ENTRIES] / PAGE_SIZE;
    }
  }

  lemma ThreadsKept(k: Kernel, w: nat, x: nat)
    requires Ok(k)
    requires forall j | 0 <= j < MAX_THREADS && k.threads[j].state == Ready :: k.threads[j].Frame() != w / FRAME_WORDS
    ensures Ok(k.(mem := Stored(k.mem, w, x)))
  {
    ExecuteOk(k, Stored(k.mem, w, x), k.esp);
  }

  /** The frame a store goes to, and who else is there: nobody. */
  lemma TargetFrame(k: Kernel, l: Layout, s: Store)
    requires Intact(k, l) && Allowed(k, l, s)
    ensures var f := Target(k, l, s) / FRAME_WORDS;
            && f !in TablesOf(l.directory) && (f in l.pages ==> s.Payload?)
            && forall j | 0 <= j < MAX_THREADS && k.threads[j].state == Ready :: k.threads[j].Frame() != f
  {
    var f := Target(k, l, s) / FRAME_WORDS;
    assert forall j | 0 <= j < MAX_THREADS && k.threads[j].state != Free ::
        k.threads[j].Frame() in StackFramesOf(k.threads);
    match s
    case User(addr, _) =>
      assert f == Owned(l.view)[addr / PAGE_SIZE];
      assert f in Owned(l.view).Values;
      assert f in l.pages ==> f in Elements(l.pages);
    case Stack(_, _) =>
      CurrentRuns(k);
      assert f in l.pages ==> f in Elements(l.pages);
      forall j | 0 <= j < MAX_THREADS && k.threads[j].state == Ready ensures k.threads[j].Frame() != f {
        assert StacksApart(k.threads, j, k.current);
      }
    case Payload(b, addr, _) =>
      PayloadFrame(l.blocks, l.pages, b, addr);
      assert f in Elements(l.pages);
  }

  /** No store by an owner disturbs another. */
  lemma StoreKeeps(k: Kernel, l: Layout, s: Store)
    requires Intact(k, l) && Allowed(k, l, s)
    ensures Intact(AfterStore(k, l, s), l)
  {
    var w := Target(k, l, s);
    TargetFrame(k, l, s);
    forall i | 0 <= i < |l.blocks| ensures !InHeader(l.blocks[i], w) {
      if InHeader(l.blocks[i], w) {
        HeaderFrame(l.blocks, l.pages, i, w);
        NoHeaderWord(l.blocks, l.pages, s.block, s.addr, i);
      }
    }
    HeadersKept(k.mem, w, s.x, l.first, l.blocks, l.pages);
    MapsKept(k.mem, w, s.x, l);
    ThreadsKept(k, w, s.x);
  }

  ghost predicate AllAllowed(k: Kernel, l: Layout, stores: seq<Store>) {
    forall i | 0 <= i < |stores| :: Allowed(k, l, stores[i])
  }

  lemma RestAllowed(k: Kernel, l: Layout, stores: seq<Store>)
    requires stores != [] && AllAllowed(k, l, stores)
    ensures AllAllowed(AfterStore(k, l, stores[0]), l, stores[1..])
  {
    forall i | 0 <= i < |stores[1..]| ensures Allowed(AfterStore(k, l, stores[0]), l, stores[1..][i]) {
      assert Allowed(k, l, stores[i + 1]);
    }
  }

  ghost function AfterStores(k: Kernel, l: Layout, stores: seq<Store>): Kernel
    requires AllAllowed(k, l, stores)
    decreases |stores|
  {
    if stores == [] then k
    else
      RestAllowed(k, l, stores);
      AfterStores(AfterStore(k, l, stores[0]), l, stores[1..])
  }

  /** Nor does any run of stores, whoever makes them, in whatever order. */
  lemma {:induction false} StoresKeep(k: Kernel, l: Layout, stores: seq<Store>)
    requires Intact(k, l) && AllAllowed(k, l, stores)
    ensures Intact(AfterStores(k, l, stores), l)
    decreases |stores|
  {
    if stores != [] {
      RestAllowed(k, l, stores);
      StoreKeeps(k, l, stores[0]);
      StoresKeep(AfterStore(k, l, stores[0]), l, stores[1..]);
    }
  }

  /** Without the partition it would: a user page on a waiting thread's stack frame lets
      one store destroy the context parked there. */
  lemma SharedFrameBreaks(k: Kernel, l: Layout, q: nat, j: nat) returns (s: Store)
    requires Ok(k) && q in Owned(l.view) && j < MAX_THREADS && k.threads[j].state == Ready
    requires Owned(l.view)[q] == k.threads[j].Frame()
    ensures Allowed(k, l, s) && !Ok(AfterStore(k, l, s))
  {
    var f, esp, c := k.threads[j].Frame(), k.threads[j].esp, LastSaved(k.log, j);
    assert Parked(k, j);
    HeldWords(k.mem, f, esp, c);
    s := User(PAGE_SIZE * q + WORD * (esp - FRAME_WORDS * f), c.ebx + 1);
    assert s.addr / PAGE_SIZE == q && s.addr % PAGE_SIZE / WORD == esp - FRAME_WORDS * f;
    var k' := AfterStore(k, l, s);
    if Parked(k', j) {
      HeldWords(k'.mem, f, esp, c);
    }
  }
}
