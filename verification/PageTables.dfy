/** The 32-bit paging format of section 4.3 of the Intel SDM Volume 3A: words, directory
    slots and what the directory as a whole must satisfy. */
module PagingFormat {
  import opened Frames

  const TWO_32: nat := 0x1_0000_0000
  const ENTRIES: nat := 1024
  const VIRTUAL_PAGES: nat := 0x10_0000
  /** `PAGE_PRESENT | PAGE_RW | PAGE_USER` */
  const USER_RW: nat := 7

  /** What the hardware walk yields: a frame and the low twelve bits of the entry. */
  datatype Translation = Absent | Entry(frame: nat, flags: nat)

  /** How `page_map` ends: `MappedPage`; `NoFrame` for a new table; `Faulting` when the page
      through which it would write the table is absent; `Astray` when that page shows
      another frame, so that the table's words land there. */
  datatype MapOutcome = MappedPage | NoFrame | Faulting | Astray

  predicate Present(word: nat) {
    word % 2 == 1
  }

  function Decode(word: nat): Translation {
    if Present(word) then Entry(word / PAGE_SIZE, word % PAGE_SIZE) else Absent
  }

  /** `a | b` */
  function Or(a: nat, b: nat): nat
    decreases a
  {
    if a == 0 then b else 2 * Or(a / 2, b / 2) + (if a % 2 == 1 || b % 2 == 1 then 1 else 0)
  }

  lemma {:induction false} OrZero(a: nat)
    ensures Or(a, 0) == a
  {
    if a > 0 {
      OrZero(a / 2);
    }
  }

  /** `a` without its low `n` bits, and those bits. */
  function High(a: nat, n: nat): nat {
    if n == 0 then a else High(a / 2, n - 1)
  }

  function Low(a: nat, n: nat): nat {
    if n == 0 then 0 else 2 * Low(a / 2, n - 1) + a % 2
  }

  /** The low bits and the others do not mix. */
  lemma {:induction false} OrSplits(a: nat, b: nat, n: nat)
    ensures High(Or(a, b), n) == Or(High(a, n), High(b, n)) && Low(Or(a, b), n) == Or(Low(a, n), Low(b, n))
  {
    if n > 0 {
      OrSplits(a / 2, b / 2, n - 1);
      assert Or(a, b) / 2 == Or(a / 2, b / 2);
    }
  }

  /** A bit of `a | b` is set exactly when it is set in one of them. */
  lemma OrBits(a: nat, b: nat, n: nat)
    ensures High(Or(a, b), n) % 2 == 1 <==> High(a, n) % 2 == 1 || High(b, n) % 2 == 1
  {
    OrSplits(a, b, n);
    assert Or(High(a, n), High(b, n)) % 2 == 1 <==> High(a, n) % 2 == 1 || High(b, n) % 2 == 1;
  }

  lemma ThreeBits(a: nat, n: nat)
    requires n >= 3
    ensures High(a, n) == High(a / 8, n - 3) && Low(a, n) == 8 * Low(a / 8, n - 3) + a % 8
  {
    assert High(a, n) == High(a / 2, n - 1) == High(a / 2 / 2, n - 2) == High(a / 2 / 2 / 2, n - 3);
    assert Low(a / 2 / 2, n - 2) == 2 * Low(a / 2 / 2 / 2, n - 3) + a / 2 / 2 % 2;
    assert Low(a / 2, n - 1) == 2 * Low(a / 2 / 2, n - 2) + a / 2 % 2;
    assert a / 2 / 2 / 2 == a / 8;
  }

  lemma TwelveBits(a: nat)
    ensures High(a, 12) == a / PAGE_SIZE && Low(a, 12) == a % PAGE_SIZE
  {
    ThreeBits(a, 12);
    ThreeBits(a / 8, 9);
    ThreeBits(a / 8 / 8, 6);
    ThreeBits(a / 8 / 8 / 8, 3);
    assert Low(a / 8 / 8 / 8 / 8, 0) == 0;
  }

  lemma OrPage(a: nat, b: nat, n: nat)
    requires n == 12
    ensures Or(a, b) / PAGE_SIZE == Or(a / PAGE_SIZE, b / PAGE_SIZE)
    ensures Or(a, b) % PAGE_SIZE == Or(a % PAGE_SIZE, b % PAGE_SIZE)
  {
    OrSplits(a, b, n);
    TwelveBits(a);
    TwelveBits(b);
    TwelveBits(Or(a, b));
  }

  /** What a page translates to once `frame` and `flags` are written to its entry: bits of
      `flags` beyond the low twelve end up in the frame. */
  function NewEntry(frame: nat, flags: nat): Translation {
    if flags % 2 == 1 then Entry(Or(frame, flags / PAGE_SIZE), flags % PAGE_SIZE) else Absent
  }

  /** The entry written by `page_map` reads back as that. */
  lemma EntryReads(frame: nat, flags: nat)
    ensures Decode(Or(frame * PAGE_SIZE, flags)) == NewEntry(frame, flags)
  {
    var base := frame * PAGE_SIZE;
    assert base / PAGE_SIZE == frame && base % PAGE_SIZE == 0;
    OrPage(base, flags, 12);
    LowBit(Or(base, flags));
    LowBit(flags);
  }

  lemma LowBit(a: nat)
    ensures a % PAGE_SIZE % 2 == a % 2
  {
  }

  lemma UserEntry(frame: nat)
    ensures NewEntry(frame, USER_RW) == Entry(frame, USER_RW)
  {
    OrZero(frame);
  }

  lemma EntryParts(frame: nat, flags: nat)
    requires flags < PAGE_SIZE
    ensures (frame * PAGE_SIZE + flags) / PAGE_SIZE == frame
    ensures (frame * PAGE_SIZE + flags) % PAGE_SIZE == flags
    ensures Present(frame * PAGE_SIZE + flags) <==> flags % 2 == 1
  {
    assert (frame * PAGE_SIZE + flags) % 2 == (2 * (2048 * frame) + flags) % 2;
  }

  /** A directory slot is empty or points, with all rights, at a table in the window. */
  predicate SlotOk(word: nat) {
    word == 0 || (word % PAGE_SIZE == USER_RW && word / PAGE_SIZE < WINDOW)
  }

  /** Every slot is sound and no table serves two slots. */
  ghost predicate Wired(d: seq<nat>) {
    && |d| == ENTRIES
    && (forall i | 0 <= i < ENTRIES :: SlotOk(d[i]))
    && forall i, j | 0 <= i < j < ENTRIES && d[i] != 0 :: d[i] != d[j]
  }

  /** Frames that hold page tables. */
  ghost function TablesOf(d: seq<nat>): set<nat> {
    set i | 0 <= i < |d| && d[i] != 0 :: d[i] / PAGE_SIZE
  }

  lemma SlotPresent(d: seq<nat>, i: nat)
    requires Wired(d) && i < ENTRIES
    ensures Present(d[i]) <==> d[i] != 0
    ensures d[i] / PAGE_SIZE < WINDOW
    ensures d[i] != 0 ==> d[i] / PAGE_SIZE in TablesOf(d)
  {
    assert SlotOk(d[i]);
    if d[i] != 0 {
      EntryParts(d[i] / PAGE_SIZE, USER_RW);
    }
  }

  lemma TablesDiffer(d: seq<nat>, i: nat, j: nat)
    requires Wired(d) && i < ENTRIES && j < ENTRIES && i != j && d[i] != 0 && d[j] != 0
    ensures d[i] / PAGE_SIZE != d[j] / PAGE_SIZE
  {
    assert SlotOk(d[i]) && SlotOk(d[j]);
    var lo, hi := if i < j then i else j, if i < j then j else i;
    assert d[lo] != d[hi];
    assert d[i] == d[i] / PAGE_SIZE * PAGE_SIZE + USER_RW && d[j] == d[j] / PAGE_SIZE * PAGE_SIZE + USER_RW;
  }

  /** Hanging a table that is not in use yet in an empty slot. */
  lemma Hang(d: seq<nat>, i: nat, t: nat)
    requires Wired(d) && i < ENTRIES && d[i] == 0 && t < WINDOW && t !in TablesOf(d)
    ensures var e := d[i := t * PAGE_SIZE + USER_RW];
            Wired(e) && TablesOf(e) == TablesOf(d) + {t} && e[i] / PAGE_SIZE == t && Present(e[i])
  {
    var e := d[i := t * PAGE_SIZE + USER_RW];
    EntryParts(t, USER_RW);
    forall k | 0 <= k < ENTRIES ensures SlotOk(e[k]) && (k != i && d[k] != 0 ==> d[k] / PAGE_SIZE != t) {
      SlotPresent(d, k);
    }
    forall f ensures f in TablesOf(e) <==> f in TablesOf(d) || f == t {
      if f in TablesOf(d) {
        var k :| 0 <= k < |d| && d[k] != 0 && d[k] / PAGE_SIZE == f;
        assert e[k] / PAGE_SIZE == f;
      }
      assert e[i] / PAGE_SIZE == t;
    }
  }

  /** What the tables refine: a flat map from virtual page to translation. */
  datatype Flat = Flat(pages: seq<Translation>) {
    ghost predicate Full() {
      |pages| == VIRTUAL_PAGES
    }
    ghost function At(q: nat): Translation {
      if q < |pages| then pages[q] else Absent
    }
    ghost function Remap(q: nat, e: Translation): Flat {
      if q < |pages| then Flat(pages[q := e]) else this
    }
  }

  lemma SameFlat(f: Flat, g: Flat)
    requires |f.pages| == |g.pages| && forall q: nat | q < |f.pages| :: f.At(q) == g.At(q)
    ensures f == g
  {
    assert forall q | 0 <= q < |f.pages| :: f.pages[q] == f.At(q) && g.pages[q] == g.At(q);
    assert f.pages == g.pages;
  }

  /** After `paging_init`: 0-16 MB to itself, nothing else. */
  ghost function BootView(): Flat {
    Flat(seq(VIRTUAL_PAGES, q requires 0 <= q => if q < WINDOW then Entry(q, USER_RW) else Absent))
  }

  ghost predicate IdentityKept(v: Flat) {
    forall q: nat | q < WINDOW :: v.At(q) == Entry(q, USER_RW)
  }

  /** The paging state as a value: flat map, frames in use, directory, and the frames that
      the next allocations will yield. */
  datatype Paging = Paging(view: Flat, used: set<nat>, slots: seq<nat>, supply: seq<nat>) {
    ghost function Tables(): set<nat> {
      TablesOf(slots)
    }

    ghost predicate Empty(q: nat) {
      q / ENTRIES < |slots| && slots[q / ENTRIES] == 0
    }

    /** After `n` allocations. */
    ghost function Took(n: nat): Paging {
      if n <= |supply| then this.(used := used + Elements(supply[..n]), supply := supply[n..]) else this
    }

    /** Frame `f` hung as the table of page `q`. */
    ghost function Hung(q: nat, f: nat): Paging {
      if q / ENTRIES < |slots| then this.(slots := slots[q / ENTRIES := f * PAGE_SIZE + USER_RW]) else this
    }

    ghost function Remap(q: nat, e: Translation): Paging {
      this.(view := view.Remap(q, e))
    }

    /** The kernel's view of memory: the window maps to itself, and no page of RAM beyond it
        shows a table or a frame that is not in use. */
    ghost predicate Reachable() {
      IdentityKept(view) && forall q: nat | WINDOW <= q < MAX_BLOCKS :: ShowsData(view.At(q))
    }

    ghost predicate ShowsData(e: Translation) {
      e != Absent ==> e.frame in used && e.frame !in Tables()
    }
  }

  /** One allocation takes the first frame of the supply. */
  lemma FirstTaken(p: Paging, f: nat, p': Paging)
    requires p.supply == [f] + p'.supply && p'.used == p.used + {f} && p'.view == p.view && p'.slots == p.slots
    requires p.Reachable() && f !in p.used && p.Tables() <= p.used
    ensures p' == p.Took(1) && p'.Reachable() && f !in p.Tables()
    ensures WINDOW <= f < MAX_BLOCKS && p'.view.At(f) != Absent ==> p'.view.At(f).frame != f
  {
    assert p.supply[..1] == [f] && p.supply[1..] == p'.supply;
    assert Elements([f]) == {f};
    forall q: nat | WINDOW <= q < MAX_BLOCKS ensures p'.ShowsData(p'.view.At(q)) {
      assert p.ShowsData(p.view.At(q));
    }
  }

  /** What `page_map` does for page `q`, decided by the state before. A new table lies in
      frame `supply[0]`, and the kernel writes it through the page of that number. */
  ghost function MapOutcomeFor(p: Paging, q: nat): MapOutcome {
    if !p.Empty(q) then MappedPage
    else if p.supply == [] then NoFrame
    else if p.supply[0] < WINDOW then MappedPage
    else if p.view.At(p.supply[0]) == Absent then Faulting
    else Astray
  }

  /** The state after page `q` was mapped, with a new table when its slot was empty. */
  ghost function MappedTo(p: Paging, q: nat, e: Translation): Paging {
    if !p.Empty(q) || p.supply == [] then p.Remap(q, e) else p.Took(1).Hung(q, p.supply[0]).Remap(q, e)
  }

  /** Frame `f` was hung as the table of page `q` while its words went elsewhere: the pages
      of that slot translate by whatever the frame holds. */
  ghost predicate StrayedFrom(p: Paging, q: nat, f: nat, p': Paging) {
    && p.Empty(q) && WINDOW <= f < MAX_BLOCKS && f in p.used && f !in p.Tables() && p.view.At(f) != Absent
    && p'.slots == p.Hung(q, f).slots && p'.used == p.used && p'.supply == p.supply
    && forall r: nat | r / ENTRIES != q / ENTRIES :: p'.view.At(r) == p.view.At(r)
  }

  /** Such a directory is sound no more. */
  lemma StrayedUnsound(p: Paging, q: nat, f: nat, p': Paging)
    requires |p.slots| == ENTRIES && q < VIRTUAL_PAGES && StrayedFrom(p, q, f, p')
    ensures !Wired(p'.slots)
  {
    EntryParts(f, USER_RW);
    assert !SlotOk(p'.slots[q / ENTRIES]);
  }

  /** A directory with the four boot tables. */
  lemma BootDirectory(d: seq<nat>, t: seq<nat>)
    requires |d| == ENTRIES && |t| == 4 && forall i | 0 <= i < 4 :: t[i] < RESERVED
    requires forall i, j | 0 <= i < j < 4 :: t[i] != t[j]
    requires forall k | 0 <= k < ENTRIES :: d[k] == if k < 4 then t[k] * PAGE_SIZE + USER_RW else 0
    ensures Wired(d) && TablesOf(d) == set i | 0 <= i < 4 :: t[i]
    ensures forall i | 0 <= i < 4 :: d[i] / PAGE_SIZE == t[i] && Present(d[i])
  {
    forall i | 0 <= i < 4
      ensures d[i] / PAGE_SIZE == t[i] && d[i] % PAGE_SIZE == USER_RW && Present(d[i]) && t[i] in TablesOf(d)
    {
      EntryParts(t[i], USER_RW);
      assert d[i] / PAGE_SIZE == t[i];
    }
  }
}

/** `paging_init` and `page_map` over physical memory. */
module PageTables {
  import opened Frames
  import opened PagingFormat

  /** What is to be written to the entry of a page. */
  datatype Mapping = Mapping(page: nat, frame: nat, flags: nat) {
    function Word(): nat {
      Or(frame * PAGE_SIZE, flags)
    }
  }

  /** A mapping whose new table went to frame `frame`. */
  datatype Stray = Stray(mapping: Mapping, frame: nat)

  class Tables {
    const pmm: FrameAllocator
    const directory: array<nat>
    /** Physical memory as frames of 1024 words; its first contents are arbitrary. */
    const ram: array2<nat>

    ghost predicate Shape()
      reads this
    {
      directory.Length == ENTRIES && ram.Length0 == MAX_BLOCKS && ram.Length1 == ENTRIES
    }

    ghost predicate Sound()
      reads this, directory
    {
      Shape() && Wired(directory[..])
    }

    /** Frames that hold page tables. */
    ghost function TableFrames(): set<nat>
      reads this, directory
    {
      TablesOf(directory[..])
    }

    ghost predicate Valid()
      reads this, directory, pmm, pmm.bitmap
    {
      Sound() && pmm.Ready() && TableFrames() <= pmm.Used()
    }

    /** The two-level walk for virtual page `vp`. */
    ghost function Translate(vp: nat): Translation
      reads this, directory, ram
      requires Shape() && vp < VIRTUAL_PAGES
    {
      var pde := directory[vp / ENTRIES];
      if !Present(pde) || pde / PAGE_SIZE >= MAX_BLOCKS then Absent
      else Decode(ram[pde / PAGE_SIZE, vp % ENTRIES])
    }

    /** The same by the bits of an address: bits 22 and up select the directory slot, bits
        12 to 21 the entry. */
    lemma AddressWalks(addr: nat)
      requires Shape() && addr < 0x1_0000_0000
      ensures addr / 0x1000 < VIRTUAL_PAGES && addr / 0x40_0000 < directory.Length
              && addr / 0x1000 % 0x400 < ram.Length1
      ensures var pde := directory[addr / 0x40_0000];
              Translate(addr / 0x1000)
              == if pde % 2 == 0 || pde / 0x1000 >= 32768 then Absent
                 else
                   var pte := ram[pde / 0x1000, addr / 0x1000 % 0x400];
                   if pte % 2 == 0 then Absent else Entry(pte / 0x1000, pte % 0x1000)
    {
      assert addr / 0x1000 / 0x400 == addr / 0x40_0000;
    }

    /** The flat map the tables stand for. */
    ghost function View(): (v: Flat)
      reads this, directory, ram
      requires Shape()
      ensures v.Full() && forall q: nat | q < VIRTUAL_PAGES :: v.At(q) == Translate(q)
    {
      Flat(seq(VIRTUAL_PAGES, q requires 0 <= q < VIRTUAL_PAGES reads this, directory, ram => Translate(q)))
    }

    ghost function State(): Paging
      reads this, directory, ram, pmm, pmm.bitmap
      requires Shape() && pmm.Shape()
    {
      Paging(View(), pmm.Used(), directory[..], pmm.Supply())
    }

    constructor (pmm: FrameAllocator)
      ensures Shape() && this.pmm == pmm && fresh(directory) && fresh(ram)
    {
      this.pmm := pmm;
      directory := new nat[ENTRIES];
      ram := new nat[MAX_BLOCKS, ENTRIES];
    }

    /** The processor's own walk. */
    method Walk(vp: nat) returns (t: Translation)
      requires Shape() && vp < VIRTUAL_PAGES
      ensures t == Translate(vp)
    {
      var pde := directory[vp / ENTRIES];
      if !Present(pde) || pde / PAGE_SIZE >= MAX_BLOCKS {
        return Absent;
      }
      return Decode(ram[pde / PAGE_SIZE, vp % ENTRIES]);
    }

    ghost predicate IdentityTable(t: nat, base: nat)
      reads this, ram
      requires Shape() && t < MAX_BLOCKS
    {
      forall k: nat | k < ENTRIES :: ram[t, k] == (base + k) * PAGE_SIZE + USER_RW
    }

    /** Frame `t` maps one table's worth of pages to themselves, from page `base` on. */
    method FillIdentity(t: nat, base: nat)
      requires Shape() && t < MAX_BLOCKS
      modifies ram
      ensures IdentityTable(t, base)
      ensures forall u: nat, b: nat | u < MAX_BLOCKS && u != t && old(IdentityTable(u, b)) :: IdentityTable(u, b)
    {
      for i := 0 to ENTRIES
        invariant forall k: nat | k < i :: ram[t, k] == (base + k) * PAGE_SIZE + USER_RW
        invariant forall f: nat, k: nat | f < MAX_BLOCKS && k < ENTRIES && f != t :: ram[f, k] == old(ram[f, k])
      {
        ram[t, i] := (base + i) * PAGE_SIZE + USER_RW;
      }
    }

    /** `paging_init` up to loading CR3. The static tables sit in four distinct frames
        of the kernel image, all below the frames the allocator hands out. */
    method Init(t: seq<nat>)
      requires Shape() && |t| == 4 && forall i | 0 <= i < 4 :: t[i] < RESERVED
      requires forall i, j | 0 <= i < j < 4 :: t[i] != t[j]
      modifies directory, ram
      ensures Sound() && TableFrames() == set i | 0 <= i < 4 :: t[i]
      ensures View() == BootView() && forall k | 4 <= k < ENTRIES :: directory[k] == 0
    {
      for i := 0 to ENTRIES
        invariant forall k | 0 <= k < i :: directory[k] == 0
      {
        directory[i] := 0;
      }
      for i := 0 to 4
        invariant forall k: nat | k < i :: IdentityTable(t[k], k * ENTRIES)
        invariant forall k | 0 <= k < ENTRIES :: directory[k] == if k < i then t[k] * PAGE_SIZE + USER_RW else 0
      {
        FillIdentity(t[i], i * ENTRIES);
        directory[i] := t[i] * PAGE_SIZE + USER_RW;
      }
      BootDirectory(directory[..], t);
      forall vp: nat | vp < VIRTUAL_PAGES
        ensures Translate(vp) == if vp < WINDOW then Entry(vp, USER_RW) else Absent
      {
        var i := vp / ENTRIES;
        EntryParts(vp, USER_RW);
        assert i * ENTRIES + vp % ENTRIES == vp;
        if i < 4 {
          assert directory[..][i] == directory[i];
          assert IdentityTable(t[i], i * ENTRIES);
        }
      }
      SameFlat(View(), BootView());
    }

    // ---- writing a table --------------------------------------------------

    /** Word `k` of frame `g`, if there is such a frame, is now `w`, and no other word differs. */
    twostate predicate OnlyWord(g: nat, k: nat, w: nat)
      reads this, ram
      requires old(Shape()) && Shape()
    {
      forall x: nat, j: nat | x < MAX_BLOCKS && j < ENTRIES ::
        ram[x, j] == if x == g && j == k then w else old(ram[x, j])
    }

    /** A store to word `k` of virtual page `f`. */
    method Poke(f: nat, k: nat, w: nat)
      requires Shape() && f < VIRTUAL_PAGES && k < ENTRIES && Translate(f) != Absent
      modifies ram
      ensures OnlyWord(old(Translate(f)).frame, k, w)
    {
      var t := Walk(f);
      if t.frame < MAX_BLOCKS {
        ram[t.frame, k] := w;
      }
    }

    /** Only the words of frame `g` differ, and that is no table: no page translates differently. */
    twostate lemma DataOnly(g: nat)
      requires old(Sound()) && unchanged(directory) && g !in TableFrames()
      requires forall x: nat, k: nat | x < MAX_BLOCKS && k < ENTRIES && x != g :: ram[x, k] == old(ram[x, k])
      ensures forall q: nat | q < VIRTUAL_PAGES :: Translate(q) == old(Translate(q))
    {
      forall q: nat | q < VIRTUAL_PAGES ensures Translate(q) == old(Translate(q)) {
        SlotPresent(directory[..], q / ENTRIES);
      }
    }

    /** Zero what virtual page `f` shows, which is frame `g`. */
    method ZeroPage(f: nat, ghost g: nat)
      requires Sound() && f < VIRTUAL_PAGES && Translate(f) != Absent && Translate(f).frame == g && g !in TableFrames()
      modifies ram
      ensures forall x: nat, k: nat | x < MAX_BLOCKS && k < ENTRIES ::
                ram[x, k] == if x == g then 0 else old(ram[x, k])
      ensures forall q: nat | q < VIRTUAL_PAGES :: Translate(q) == old(Translate(q))
    {
      for i := 0 to ENTRIES
        invariant forall x: nat, k: nat | x < MAX_BLOCKS && k < ENTRIES ::
                    ram[x, k] == if x == g && k < i then 0 else old(ram[x, k])
      {
        DataOnly(g);
        Poke(f, i, 0);
      }
      DataOnly(g);
    }

    /** Zero the new table in frame `f` through the page of that number, which shows frame
        `g`, and hang it in the empty slot `i`. When the page shows `f` itself no page
        translates differently; else `f` is a table with the words it had. */
    method InstallTable(i: nat, f: nat, ghost g: nat)
      requires Sound() && i < ENTRIES && directory[i] == 0 && f < MAX_BLOCKS && f !in TableFrames()
      requires Translate(f) != Absent && Translate(f).frame == g && g !in TableFrames() && (g == f <==> f < WINDOW)
      modifies directory, ram
      ensures directory[..] == old(directory[..])[i := f * PAGE_SIZE + USER_RW]
      ensures forall x: nat, k: nat | x < MAX_BLOCKS && k < ENTRIES ::
                ram[x, k] == if x == g then 0 else old(ram[x, k])
      ensures f < WINDOW ==> Sound() && TableFrames() == old(TableFrames()) + {f}
      ensures f < WINDOW ==> forall q: nat | q < VIRTUAL_PAGES :: Translate(q) == old(Translate(q))
      ensures f >= WINDOW ==> forall q: nat | q < VIRTUAL_PAGES :: Translate(q) == old(StrayedEntry(q, i, f))
    {
      ghost var d := directory[..];
      EntryParts(f, USER_RW);
      if f < WINDOW {
        Hang(d, i, f);
      }
      ZeroPage(f, g);
      directory[i] := f * PAGE_SIZE + USER_RW;
      assert directory[..] == d[i := f * PAGE_SIZE + USER_RW];
      forall q: nat | q < VIRTUAL_PAGES && q / ENTRIES != i ensures Translate(q) == old(Translate(q)) {
        SlotPresent(d, q / ENTRIES);
        assert d[q / ENTRIES] == old(directory[q / ENTRIES]);
      }
    }

    /** What page `q` translates to once frame `f` is hung in slot `i` as it is. */
    ghost function StrayedEntry(q: nat, i: nat, f: nat): Translation
      reads this, directory, ram
      requires Shape() && q < VIRTUAL_PAGES && f < MAX_BLOCKS
    {
      if q / ENTRIES == i then Decode(ram[f, q % ENTRIES]) else Translate(q)
    }

    /** Only page `vp` translates differently, to `e`. */
    twostate predicate OnlyPage(vp: nat, e: Translation)
      reads this, directory, ram
      requires old(Shape()) && Shape() && vp < VIRTUAL_PAGES
    {
      Translate(vp) == e && forall q: nat | q < VIRTUAL_PAGES && q != vp :: Translate(q) == old(Translate(q))
    }

    /** The frame that the directory gives as the table of page `vp`. */
    ghost function TableOf(vp: nat): nat
      reads this, directory
      requires Shape() && vp < VIRTUAL_PAGES
    {
      directory[vp / ENTRIES] / PAGE_SIZE
    }

    /** There is a table for page `vp`, and the kernel reaches it. */
    ghost predicate TableAt(vp: nat)
      reads this, directory, ram
      requires Shape() && vp < VIRTUAL_PAGES
    {
      && Sound() && directory[vp / ENTRIES] != 0 && TableOf(vp) < VIRTUAL_PAGES
      && Translate(TableOf(vp)) == Entry(TableOf(vp), USER_RW)
    }

    /** One word of a table decides one page. */
    twostate lemma EntryWritten(m: Mapping)
      requires old(Shape()) && m.page < VIRTUAL_PAGES && old(TableAt(m.page)) && unchanged(directory)
      requires OnlyWord(TableOf(m.page), m.page % ENTRIES, m.Word())
      ensures OnlyPage(m.page, NewEntry(m.frame, m.flags))
    {
      var d, vp := directory[..], m.page;
      SlotPresent(d, vp / ENTRIES);
      EntryReads(m.frame, m.flags);
      forall q: nat | q < VIRTUAL_PAGES && q != vp ensures Translate(q) == old(Translate(q)) {
        SlotPresent(d, q / ENTRIES);
        if q / ENTRIES == vp / ENTRIES {
          assert q % ENTRIES != vp % ENTRIES by { assert q == q / ENTRIES * ENTRIES + q % ENTRIES; }
        } else if directory[q / ENTRIES] != 0 {
          TablesDiffer(d, q / ENTRIES, vp / ENTRIES);
        }
      }
    }

    /** Write an entry through the page of its table's frame. When that page shows the
        table, one page translates differently. */
    method WriteEntry(m: Mapping)
      requires Shape() && m.page < VIRTUAL_PAGES && TableOf(m.page) < VIRTUAL_PAGES
      requires Translate(TableOf(m.page)) != Absent
      modifies ram
      ensures OnlyWord(old(Translate(TableOf(m.page))).frame, m.page % ENTRIES, m.Word())
      ensures old(TableAt(m.page)) ==> OnlyPage(m.page, NewEntry(m.frame, m.flags))
    {
      ghost var sound := TableAt(m.page);
      Poke(directory[m.page / ENTRIES] / PAGE_SIZE, m.page % ENTRIES, m.Word());
      if sound {
        EntryWritten(m);
      }
    }

    /** Frame `f` may become the table of page `vp`: it is in use and serves nothing, the
        slot is empty, and the page of `f` is there. */
    ghost predicate NewTable(vp: nat, f: nat)
      reads this, directory, ram, pmm, pmm.bitmap
      requires Shape() && vp < VIRTUAL_PAGES
    {
      && f < MAX_BLOCKS && f in pmm.Used() && f !in TableFrames() && directory[vp / ENTRIES] == 0
      && Translate(f) != Absent && (WINDOW <= f ==> Translate(f).frame != f)
    }

    /** The frame that page `f` shows. */
    ghost function FrameShown(f: nat): nat
      reads this, directory, ram
      requires Shape() && f < VIRTUAL_PAGES
    {
      match Translate(f)
      case Absent => MAX_BLOCKS
      case Entry(frame, _) => frame
    }

    /** What a table hung in frame `f` comes to when the page of `f` shows another frame: its
        zeros and the new entry go there, and `f` is a table with the words it had. */
    twostate predicate Strayed(m: Mapping, f: nat)
      reads this, directory, ram
      requires old(Shape()) && Shape() && m.page < VIRTUAL_PAGES && f < MAX_BLOCKS
    {
      && directory[..] == old(directory[..])[m.page / ENTRIES := f * PAGE_SIZE + USER_RW]
      && forall x: nat, k: nat | x < MAX_BLOCKS && k < ENTRIES ::
           ram[x, k] == if x != old(FrameShown(f)) then old(ram[x, k])
                        else if k == m.page % ENTRIES then m.Word() else 0
    }

    /** Then the pages of that slot translate by the words frame `f` had, the others as before. */
    twostate lemma StrayedPages(s: Stray)
      requires old(Sound()) && Shape() && s.mapping.page < VIRTUAL_PAGES && WINDOW <= s.frame < MAX_BLOCKS
      requires old(directory[s.mapping.page / ENTRIES] == 0 && s.frame !in TableFrames())
      requires old(FrameShown(s.frame)) !in old(TableFrames()) && old(FrameShown(s.frame)) != s.frame
      requires Strayed(s.mapping, s.frame)
      ensures forall q: nat | q < VIRTUAL_PAGES ::
                Translate(q) == old(StrayedEntry(q, s.mapping.page / ENTRIES, s.frame))
      ensures !Sound()
    {
      var d := old(directory[..]);
      EntryParts(s.frame, USER_RW);
      forall q: nat | q < VIRTUAL_PAGES
        ensures Translate(q) == old(StrayedEntry(q, s.mapping.page / ENTRIES, s.frame))
      {
        SlotPresent(d, q / ENTRIES);
        assert directory[..][q / ENTRIES] == directory[q / ENTRIES];
      }
      assert !SlotOk(directory[..][s.mapping.page / ENTRIES]);
    }

    /** The stores of `page_map` for a new table in frame `f`, whose page shows frame `g`. */
    method FillWords(f: nat, m: Mapping, ghost g: nat)
      requires Sound() && m.page < VIRTUAL_PAGES && directory[m.page / ENTRIES] == 0
      requires f < MAX_BLOCKS && f !in TableFrames() && Translate(f) != Absent && Translate(f).frame == g
      requires g !in TableFrames() && (g == f <==> f < WINDOW) && (f < WINDOW ==> Translate(f) == Entry(f, USER_RW))
      modifies directory, ram
      ensures f < WINDOW ==> Sound() && TableFrames() == old(TableFrames()) + {f}
      ensures f < WINDOW ==> directory[..] == old(directory[..])[m.page / ENTRIES := f * PAGE_SIZE + USER_RW]
      ensures f < WINDOW ==> OnlyPage(m.page, NewEntry(m.frame, m.flags))
      ensures f >= WINDOW ==> Strayed(m, f)
      ensures f >= WINDOW ==>
                forall q: nat | q < VIRTUAL_PAGES :: Translate(q) == old(StrayedEntry(q, m.page / ENTRIES, f))
    {
      ghost var d := directory[..];
      EntryParts(f, USER_RW);
      SlotPresent(d, f / ENTRIES);
      InstallTable(m.page / ENTRIES, f, g);
      WriteEntry(m);
      if f >= WINDOW {
        StrayedPages(Stray(m, f));
      }
    }

    /** The rest of `page_map` once the page of the new table's frame `f` is there. */
    method FillTable(f: nat, m: Mapping) returns (r: MapOutcome)
      requires Valid() && State().Reachable() && m.page < VIRTUAL_PAGES && NewTable(m.page, f)
      modifies directory, ram
      ensures r == if f < WINDOW then MappedPage else Astray
      ensures r == MappedPage ==>
                Valid() && State() == old(State()).Hung(m.page, f).Remap(m.page, NewEntry(m.frame, m.flags))
      ensures r == Astray ==> Strayed(m, f) && StrayedFrom(old(State()), m.page, f, State())
    {
      ghost var p, g := State(), Translate(f).frame;
      r := if f < WINDOW then MappedPage else Astray;
      assert p.view.At(f) == Translate(f);
      assert WINDOW <= f ==> p.ShowsData(p.view.At(f));
      FillWords(f, m, g);
      if f < WINDOW {
        SameFlat(View(), p.view.Remap(m.page, NewEntry(m.frame, m.flags)));
      }
    }

    /** A frame for a new table, unless there is none. Its page faults at the first store
        when it is absent. */
    method TakeTable(ghost q: nat) returns (r: MapOutcome, f: nat)
      requires Valid() && State().Reachable() && q < VIRTUAL_PAGES && directory[q / ENTRIES] == 0
      modifies pmm`usedBlocks, pmm.bitmap
      ensures Valid() && (old(pmm.Packed()) ==> pmm.Packed())
      ensures r == NoFrame <==> old(State()).supply == []
      ensures r == NoFrame ==> State() == old(State())
      ensures r != NoFrame ==>
                && f == old(State()).supply[0] < MAX_BLOCKS && State() == old(State()).Took(1) && State().Reachable()
                && r == if Translate(f) == Absent then Faulting else MappedPage
      ensures r == MappedPage ==> NewTable(q, f)
    {
      ghost var p := State();
      pmm.SupplyIs();
      var t := pmm.AllocPage();
      if t == 0 {
        return NoFrame, 0;
      }
      f := t / PAGE_SIZE;
      FirstTaken(p, f, State());
      var shown := Walk(f);
      r := if shown == Absent then Faulting else MappedPage;
    }

    /** How `page_map` ends. With a table in the slot, or a new one in a frame of the window,
        it refines updating a flat map from virtual pages at one page. Beyond the window the
        first store faults, or the table's words go to the frame its page shows. */
    twostate predicate MapEnds(m: Mapping, r: MapOutcome)
      reads this, directory, ram, pmm, pmm.bitmap
      requires m.page < VIRTUAL_PAGES
    {
      && old(Shape() && pmm.Shape()) && Shape() && pmm.Ready() && (old(pmm.Packed()) ==> pmm.Packed())
      && r == MapOutcomeFor(old(State()), m.page)
      && match r
         case MappedPage => Valid() && State() == MappedTo(old(State()), m.page, NewEntry(m.frame, m.flags))
         case NoFrame => Valid() && State() == old(State()) && unchanged(directory) && unchanged(ram)
         case Faulting => Valid() && State() == old(State()).Took(1) && unchanged(directory) && unchanged(ram)
         case Astray =>
           var f := old(pmm.NextFrame());
           f < MAX_BLOCKS && Strayed(m, f) && StrayedFrom(old(State()).Took(1), m.page, f, State())
    }

    /** `page_map`, up to a fault of its own: `f` is then the page that is absent. */
    method PageMap(v: nat, p: nat, flags: nat) returns (r: MapOutcome, f: nat)
      requires Valid() && State().Reachable() && v < TWO_32 && p < TWO_32 && flags < TWO_32
      modifies directory, ram, pmm`usedBlocks, pmm.bitmap
      ensures MapEnds(Mapping(v / PAGE_SIZE, p / PAGE_SIZE, flags), r) && (r == Faulting ==> f == old(pmm.NextFrame()))
    {
      r, f := MapPage(Mapping(v / PAGE_SIZE, p / PAGE_SIZE, flags));
    }

    method MapPage(m: Mapping) returns (r: MapOutcome, f: nat)
      requires Valid() && State().Reachable() && m.page < VIRTUAL_PAGES
      modifies directory, ram, pmm`usedBlocks, pmm.bitmap
      ensures MapEnds(m, r) && (r == Faulting ==> f == old(pmm.NextFrame()))
    {
      SlotPresent(directory[..], m.page / ENTRIES);
      if !Present(directory[m.page / ENTRIES]) {
        r, f := MapFresh(m);
      } else {
        MapExisting(m);
        r, f := MappedPage, 0;
      }
    }

    /** The slot is empty. */
    method MapFresh(m: Mapping) returns (r: MapOutcome, f: nat)
      requires Valid() && State().Reachable() && m.page < VIRTUAL_PAGES && directory[m.page / ENTRIES] == 0
      modifies directory, ram, pmm`usedBlocks, pmm.bitmap
      ensures MapEnds(m, r) && (r == Faulting ==> f == old(pmm.NextFrame()))
    {
      pmm.SupplyIs();
      r, f := TakeTable(m.page);
      if r == MappedPage {
        r := FillTable(f, m);
      }
    }

    /** The slot has a table. */
    method MapExisting(m: Mapping)
      requires Valid() && State().Reachable() && m.page < VIRTUAL_PAGES && directory[m.page / ENTRIES] != 0
      modifies ram
      ensures State() == old(State()).Remap(m.page, NewEntry(m.frame, m.flags))
    {
      ghost var p := State();
      SlotPresent(directory[..], m.page / ENTRIES);
      assert p.view.At(TableOf(m.page)) == Translate(TableOf(m.page));
      WriteEntry(m);
      SameFlat(View(), p.view.Remap(m.page, NewEntry(m.frame, m.flags)));
    }
  }
}
