/** How the block list is laid out in memory: headers at addresses, linked through
    `next`, over pages taken from the frame allocator. */
module HeapLinks {
  import opened BlockList
  import opened Frames

  /** `block_header_t`, as stored at its address; a null `next` is 0. */
  datatype Header = Header(size: nat, isFree: bool, next: nat)

  type Memory = map<nat, Header>

  /** Address of the `i`-th header, null past the end. */
  function AddrAt(s: seq<Block>, i: nat): nat {
    if i < |s| then s[i].addr else 0
  }

  ghost predicate NodeAt(mem: Memory, s: seq<Block>, i: nat)
    requires i < |s|
  {
    s[i].addr in mem && mem[s[i].addr] == Header(s[i].size, s[i].free, AddrAt(s, i + 1))
  }

  /** Following `next` from `first` visits exactly the blocks of `s`. */
  ghost predicate Linked(mem: Memory, first: nat, s: seq<Block>) {
    && first == AddrAt(s, 0)
    && forall i | 0 <= i < |s| :: NodeAt(mem, s, i)
  }

  ghost predicate ApartPair(s: seq<Block>, i: nat, j: nat)
    requires i < |s| && j < |s|
  {
    s[i].End() <= s[j].addr || s[j].End() <= s[i].addr
  }

  /** Blocks are disjoint intervals. */
  ghost predicate Apart(s: seq<Block>) {
    forall i, j | 0 <= i < |s| && 0 <= j < |s| && i != j :: ApartPair(s, i, j)
  }

  predicate Aligned(b: Block) {
    b.size % 4 == 0 && b.addr % 4 == 0
  }

  ghost predicate AllAligned(s: seq<Block>) {
    forall i | 0 <= i < |s| :: Aligned(s[i])
  }

  /** The blocks tile the pages, every block starts at a multiple of 4. */
  ghost predicate Tiles(s: seq<Block>, pages: seq<nat>) {
    && Extent(s) == PageBytes(pages)
    && (forall i, j | 0 <= i < j < |pages| :: pages[i] != pages[j])
    && (forall f | f in pages :: RESERVED <= f)
    && AllAligned(s)
  }

  lemma TilesApart(s: seq<Block>, pages: seq<nat>)
    requires Tiles(s, pages)
    ensures Distinct(Extent(s)) && |Extent(s)| == PAGE * |pages| && Apart(s)
    ensures forall i | 0 <= i < |s| :: s[i].addr / PAGE in pages && s[i].addr >= PAGE * RESERVED
  {
    PagesDistinct(pages);
    forall i | 0 <= i < |s| ensures s[i].addr / PAGE in pages && s[i].addr >= PAGE * RESERVED {
      BlockAt(s, i, 0);
    }
    forall i, j | 0 <= i < |s| && 0 <= j < |s| && i != j ensures ApartPair(s, i, j) {
      Separate(s, i, j);
    }
  }

  lemma {:induction false} RunBytes(f: nat, n: nat)
    ensures PageBytes(Run(f, n)) == Range(PAGE * f, PAGE * n)
    decreases n
  {
    if n > 0 {
      RunBytes(f + 1, n - 1);
      assert Run(f, n)[1..] == Run(f + 1, n - 1);
      RangeSplit(PAGE * f, PAGE, PAGE * (n - 1));
    }
  }

  // ---- how header writes change the linked list -----------------------------

  ghost function CarvedMemory(mem: Memory, s: seq<Block>, i: nat, n: nat): Memory
    requires i < |s| && Fits(s[i], n)
  {
    var b, p := s[i], s[i].addr + HEADER + n;
    if b.size >= n + MIN_SPLIT then
      mem[p := Header(b.size - n - HEADER, true, AddrAt(s, i + 1))][b.addr := Header(n, false, p)]
    else
      mem[b.addr := Header(b.size, false, AddrAt(s, i + 1))]
  }

  lemma LinkedCarve(mem: Memory, first: nat, s: seq<Block>, i: nat, n: nat)
    requires Linked(mem, first, s) && i < |s| && Fits(s[i], n) && Apart(s)
    ensures Linked(CarvedMemory(mem, s, i, n), first, Carve(s, i, n))
  {
    var t, m, w := Carve(s, i, n), CarvedMemory(mem, s, i, n), |Pieces(s[i], n)|;
    forall k | 0 <= k < |t| ensures NodeAt(m, t, k) {
      if k < i {
        assert NodeAt(mem, s, k) && ApartPair(s, k, i);
      } else if k >= i + w {
        assert NodeAt(mem, s, k - w + 1) && ApartPair(s, k - w + 1, i);
      }
    }
  }

  function MergeAt(s: seq<Block>, i: nat): seq<Block>
    requires i + 1 < |s|
  {
    s[..i] + [Merge(s[i], s[i + 1])] + s[i + 2..]
  }

  lemma LinkedMerge(mem: Memory, first: nat, s: seq<Block>, i: nat)
    requires Linked(mem, first, s) && i + 1 < |s| && Apart(s)
    ensures Linked(mem[s[i].addr := Header(Merge(s[i], s[i + 1]).size, s[i].free, AddrAt(s, i + 2))],
                   first, MergeAt(s, i))
  {
    var t := MergeAt(s, i);
    var m := mem[s[i].addr := Header(Merge(s[i], s[i + 1]).size, s[i].free, AddrAt(s, i + 2))];
    forall k | 0 <= k < |t| ensures NodeAt(m, t, k) {
      if k < i {
        assert NodeAt(mem, s, k) && ApartPair(s, k, i);
      } else if k > i {
        assert NodeAt(mem, s, k + 1) && ApartPair(s, k + 1, i);
      }
    }
  }

  lemma LinkedRelease(mem: Memory, first: nat, s: seq<Block>, i: nat)
    requires Linked(mem, first, s) && i < |s| && Apart(s) && NodeAt(mem, s, i)
    ensures Linked(mem[s[i].addr := mem[s[i].addr].(isFree := true)], first, Release(s, s[i].addr))
  {
    var t, m := Release(s, s[i].addr), mem[s[i].addr := mem[s[i].addr].(isFree := true)];
    forall k | 0 <= k < |t| ensures NodeAt(m, t, k) {
      assert NodeAt(mem, s, k);
      if k != i {
        assert ApartPair(s, k, i);
      }
    }
  }

  ghost function GrownMemory(mem: Memory, s: seq<Block>, frame: nat): Memory
    requires s != [] && s[|s| - 1].addr in mem
  {
    var last := s[|s| - 1].addr;
    if Extends(s, frame) then
      mem[last := mem[last].(size := s[|s| - 1].size + PAGE)]
    else
      mem[PAGE * frame := Header(PAGE - HEADER, true, 0)][last := mem[last].(next := PAGE * frame)]
  }

  lemma LinkedGrow(mem: Memory, first: nat, s: seq<Block>, frame: nat)
    requires s != [] && Linked(mem, first, s) && NodeAt(mem, s, |s| - 1) && Apart(s)
    requires forall i | 0 <= i < |s| :: s[i].addr / PAGE != frame
    ensures Linked(GrownMemory(mem, s, frame), first, Grow(s, frame))
  {
    var t, m, z := Grow(s, frame), GrownMemory(mem, s, frame), |s| - 1;
    assert s[z].addr / PAGE != frame;
    forall k | 0 <= k < |t| ensures NodeAt(m, t, k) {
      if k < z {
        assert NodeAt(mem, s, k) && ApartPair(s, k, z) && s[k].addr / PAGE != frame;
      }
    }
  }

  // ---- how tiling survives --------------------------------------------------

  lemma CarveAligned(s: seq<Block>, i: nat, n: nat)
    requires i < |s| && Fits(s[i], n) && n % 4 == 0 && AllAligned(s)
    ensures AllAligned(Carve(s, i, n))
  {
    var t, pieces := Carve(s, i, n), Pieces(s[i], n);
    assert Aligned(s[i]);
    assert forall k | 0 <= k < |pieces| :: Aligned(pieces[k]);
    forall k | 0 <= k < |t| ensures Aligned(t[k]) {
      if k < i {
        assert t[k] == s[k];
      } else if k < i + |pieces| {
        assert t[k] == pieces[k - i];
      } else {
        assert t[k] == s[k - |pieces| + 1];
      }
    }
  }

  lemma TilesCarve(s: seq<Block>, pages: seq<nat>, i: nat, n: nat)
    requires Tiles(s, pages) && i < |s| && Fits(s[i], n) && n % 4 == 0
    ensures Tiles(Carve(s, i, n), pages)
  {
    CarveExtent(s, i, n);
    CarveAligned(s, i, n);
  }

  lemma AlignedPage(b: Block, frame: nat)
    ensures Aligned(Block(PAGE * frame, PAGE - HEADER, true))
    ensures Aligned(b) ==> Aligned(b.(size := b.size + PAGE))
  {
    assert PAGE * frame == 4 * (1024 * frame);
  }

  lemma GrowAligned(s: seq<Block>, frame: nat)
    requires AllAligned(s)
    ensures AllAligned(Grow(s, frame))
  {
    var t := Grow(s, frame);
    forall k | 0 <= k < |t| ensures Aligned(t[k]) {
      if k < |s| {
        assert Aligned(s[k]);
        AlignedPage(s[k], frame);
      } else {
        AlignedPage(t[k], frame);
      }
    }
  }

  lemma TilesGrow(s: seq<Block>, pages: seq<nat>, frame: nat)
    requires Tiles(s, pages) && RESERVED <= frame && frame !in pages
    ensures Tiles(Grow(s, frame), pages + [frame])
  {
    GrowExtent(s, frame);
    GrowAligned(s, frame);
    PageBytesConcat(pages, [frame]);
    assert [frame][1..] == [];
    assert PageBytes([frame]) == Range(PAGE * frame, PAGE);
  }

  lemma TilesRelease(s: seq<Block>, pages: seq<nat>, addr: nat)
    requires Tiles(s, pages)
    ensures Tiles(Release(s, addr), pages)
  {
    ReleaseFacts(s, addr);
    var t := Release(s, addr);
    forall k | 0 <= k < |t| ensures Aligned(t[k]) {
      assert Aligned(s[k]);
    }
  }

  lemma MergedExtent(s: seq<Block>, i: nat)
    requires i + 1 < |s| && Mergeable(s[i], s[i + 1])
    ensures Extent(MergeAt(s, i)) == Extent(s)
  {
    SplitTwo(s, i);
    MergeExtent(s[i], s[i + 1]);
    ExtentReplace(s[..i], [Merge(s[i], s[i + 1])], [s[i], s[i + 1]], s[i + 2..]);
  }

  lemma TilesMerge(s: seq<Block>, pages: seq<nat>, i: nat)
    requires Tiles(s, pages) && i + 1 < |s| && Mergeable(s[i], s[i + 1])
    ensures Tiles(MergeAt(s, i), pages)
  {
    MergedExtent(s, i);
    assert Aligned(s[i]) && Aligned(s[i + 1]);
    var t := MergeAt(s, i);
    forall k | 0 <= k < |t| ensures Aligned(t[k]) {
      assert k < i ==> t[k] == s[k];
      assert k > i ==> t[k] == s[k + 1];
    }
  }

  /** One turn of the coalescing loop leaves the outcome of the pass unchanged. */
  lemma CoalesceMergeStep(s: seq<Block>, i: nat)
    requires i + 1 < |s| && Mergeable(s[i], s[i + 1])
    ensures MergeAt(s, i)[..i] + Coalesce(MergeAt(s, i)[i..]) == s[..i] + Coalesce(s[i..])
  {
    var back, t := s[i..], MergeAt(s, i);
    assert back[0] == s[i] && back[1] == s[i + 1] && back[2..] == s[i + 2..];
    assert t[..i] == s[..i] && t[i..] == [Merge(back[0], back[1])] + back[2..];
  }

  lemma CoalesceSkipStep(s: seq<Block>, i: nat)
    requires i < |s| && !(i + 1 < |s| && Mergeable(s[i], s[i + 1]))
    ensures s[..i + 1] + Coalesce(s[i + 1..]) == s[..i] + Coalesce(s[i..])
  {
    var back := s[i..];
    assert back[1..] == s[i + 1..] && s[..i + 1] == s[..i] + [s[i]];
    if i + 1 < |s| {
      assert back[0] == s[i] && back[1] == s[i + 1];
      assert s[..i] + ([s[i]] + Coalesce(back[1..])) == s[..i] + [s[i]] + Coalesce(back[1..]);
    } else {
      assert back == [s[i]] && back[1..] == [];
    }
  }

  // ---- the steps, on memory and list together -------------------------------

  /** Memory spells out a block list that tiles the pages. */
  ghost predicate Lists(mem: Memory, first: nat, s: seq<Block>, pages: seq<nat>) {
    s != [] && Linked(mem, first, s) && Tiles(s, pages)
  }

  ghost predicate Settled(mem: Memory, first: nat, s: seq<Block>, pages: seq<nat>) {
    Lists(mem, first, s, pages) && Canonical(s)
  }

  lemma NodeOf(mem: Memory, first: nat, s: seq<Block>, pages: seq<nat>, i: nat)
    requires Lists(mem, first, s, pages) && i < |s|
    ensures s[i].addr != 0 && s[i].addr in mem
    ensures mem[s[i].addr] == Header(s[i].size, s[i].free, AddrAt(s, i + 1))
  {
    TilesApart(s, pages);
    assert NodeAt(mem, s, i);
  }

  lemma CarveStep(mem: Memory, first: nat, s: seq<Block>, pages: seq<nat>, i: nat, n: nat)
    requires Settled(mem, first, s, pages) && i < |s| && Fits(s[i], n) && n % 4 == 0
    ensures Settled(CarvedMemory(mem, s, i, n), first, Carve(s, i, n), pages)
  {
    TilesApart(s, pages);
    LinkedCarve(mem, first, s, i, n);
    TilesCarve(s, pages, i, n);
    CarveFacts(s, i, n);
  }

  lemma GrowStep(mem: Memory, first: nat, s: seq<Block>, pages: seq<nat>, frame: nat)
    requires Settled(mem, first, s, pages) && RESERVED <= frame && frame !in pages && s[|s| - 1].addr in mem
    ensures Settled(GrownMemory(mem, s, frame), first, Grow(s, frame), pages + [frame])
  {
    TilesApart(s, pages);
    assert NodeAt(mem, s, |s| - 1);
    LinkedGrow(mem, first, s, frame);
    TilesGrow(s, pages, frame);
    GrowFacts(s, frame);
  }

  lemma ReleaseStep(mem: Memory, first: nat, s: seq<Block>, pages: seq<nat>, i: nat)
    requires Lists(mem, first, s, pages) && i < |s| && s[i].addr in mem
    ensures Lists(mem[s[i].addr := mem[s[i].addr].(isFree := true)], first, Release(s, s[i].addr), pages)
  {
    TilesApart(s, pages);
    assert NodeAt(mem, s, i);
    LinkedRelease(mem, first, s, i);
    TilesRelease(s, pages, s[i].addr);
  }

  lemma MergeStep(mem: Memory, first: nat, s: seq<Block>, pages: seq<nat>, i: nat)
    requires Lists(mem, first, s, pages) && i + 1 < |s| && Mergeable(s[i], s[i + 1])
    ensures Lists(mem[s[i].addr := Header(s[i].size + HEADER + s[i + 1].size, s[i].free, AddrAt(s, i + 2))],
                  first, MergeAt(s, i), pages)
  {
    TilesApart(s, pages);
    LinkedMerge(mem, first, s, i);
    TilesMerge(s, pages, i);
  }

  // ---- frames obtained ------------------------------------------------------

  /** `frames` were free before and are, with nothing else, newly in use after. */
  ghost predicate Obtained(before: set<nat>, frames: seq<nat>, after: set<nat>) {
    after == before + Elements(frames) && before !! Elements(frames)
  }

  lemma ObtainedMore(before: set<nat>, frame: nat, more: seq<nat>, after: set<nat>)
    requires frame !in before && Obtained(before + {frame}, more, after)
    ensures Obtained(before, [frame] + more, after)
  {
    assert Elements([frame] + more) == {frame} + Elements(more);
  }

  /** The outcome of one allocation that started from blocks `s`, pages `p` and used frames `u`. */
  ghost predicate Allocated(s: seq<Block>, p: seq<nat>, u: set<nat>, n: nat, s': seq<Block>, p': seq<nat>,
                            u': set<nat>, ptr: nat)
  {
    p <= p' && Allocates(s, p'[|p|..], n, s', ptr) && Obtained(u, p'[|p|..], u')
  }

  lemma AllocatedAtOnce(s: seq<Block>, p: seq<nat>, u: set<nat>, n: nat)
    requires !NothingFits(s, n)
    ensures FirstFit(s, n) < |s|
    ensures var i := FirstFit(s, n);
            Allocated(s, p, u, n, Carve(s, i, n), p, u, s[i].addr + HEADER)
  {
    AllocatesAtOnce(s, n);
    assert p[|p|..] == [];
  }

  lemma AllocatedNothing(s: seq<Block>, p: seq<nat>, u: set<nat>, n: nat)
    requires NothingFits(s, n)
    ensures Allocated(s, p, u, n, s, p, u, 0)
  {
    AllocatesNot(s, n);
    assert p[|p|..] == [];
  }

  lemma AllocatedAfterGrowth(s: seq<Block>, p: seq<nat>, u: set<nat>, n: nat, frame: nat,
                             s': seq<Block>, p': seq<nat>, u': set<nat>, ptr: nat)
    requires NothingFits(s, n) && frame !in u
    requires Allocated(Grow(s, frame), p + [frame], u + {frame}, n, s', p', u', ptr)
    ensures Allocated(s, p, u, n, s', p', u', ptr)
  {
    var more := p'[|p| + 1..];
    assert p'[|p + [frame]|..] == more && p'[|p|] == (p + [frame])[|p|];
    assert p'[|p|..] == [frame] + more;
    AllocatesAfterGrowth(s, frame, more, n, s', ptr);
    ObtainedMore(u, frame, more, u');
  }

  /** A page more leaves some block free. */
  lemma GrownFits(s: seq<Block>, frame: nat)
    ensures !NothingFits(Grow(s, frame), 0)
  {
    var g := Grow(s, frame);
    assert g[|g| - 1] in g && Fits(g[|g| - 1], 0);
  }

  // ---- the heap over several calls ------------------------------------------

  /** What the heap is made of, and the frames in use. */
  datatype HeapView = HeapView(blocks: seq<Block>, pages: seq<nat>, used: set<nat>)

  function Freed(h: HeapView, p: nat): HeapView
    requires p >= HEADER
  {
    h.(blocks := BlockList.Kfree(h.blocks, p - HEADER))
  }

  ghost predicate PayloadIn(s: seq<Block>, p: nat) {
    p >= HEADER && exists b :: b in s && b.addr + HEADER == p
  }

  /** The heap at most grew, by frames newly taken. */
  ghost predicate Grown(h: HeapView, h': HeapView) {
    && h.pages <= h'.pages && h'.blocks == GrowAll(h.blocks, h'.pages[|h.pages|..])
    && Obtained(h.used, h'.pages[|h.pages|..], h'.used)
  }

  lemma GrownNot(h: HeapView)
    ensures Grown(h, h)
  {
    assert h.pages[|h.pages|..] == [];
  }

  lemma {:induction false} GrowAllConcat(s: seq<Block>, f: seq<nat>, g: seq<nat>)
    ensures GrowAll(GrowAll(s, f), g) == GrowAll(s, f + g)
    decreases |f|
  {
    if f == [] {
      assert f + g == g;
    } else {
      var both, rest := f + g, f[1..] + g;
      assert both != [] && both[0] == f[0] && both[1..] == rest;
      GrowAllConcat(Grow(s, f[0]), f[1..], g);
    }
  }

  lemma GrownTwice(h: HeapView, h': HeapView, h'': HeapView)
    requires Grown(h, h') && Grown(h', h'')
    ensures Grown(h, h'')
  {
    var f, g := h'.pages[|h.pages|..], h''.pages[|h'.pages|..];
    assert h''.pages[|h.pages|..] == f + g;
    GrowAllConcat(h.blocks, f, g);
    assert Elements(f + g) == Elements(f) + Elements(g);
  }

  /** Growth changes neither what is allocated nor the count `kheap_used` reports. */
  lemma GrownNeutral(h: HeapView, h': HeapView)
    requires Grown(h, h')
    ensures UsedBytes(h'.blocks) == UsedBytes(h.blocks) && Live(h'.blocks) == Live(h.blocks)
  {
    GrowAllFacts(h.blocks, h'.pages[|h.pages|..]);
  }

  /** A buffer allocated and freed again leaves the heap as it was but for growth. */
  lemma GrownByBuffer(h: HeapView, h': HeapView, n: nat, ptr: nat)
    requires Canonical(h.blocks) && Tiles(h.blocks, h.pages) && Tiles(h'.blocks, h'.pages)
    requires Allocated(h.blocks, h.pages, h.used, n, h'.blocks, h'.pages, h'.used, ptr)
    ensures ptr == 0 ==> Grown(h, h') && NothingFits(h'.blocks, n)
    ensures ptr != 0 ==> PayloadIn(h'.blocks, ptr) && Grown(h, Freed(h', ptr))
  {
    var frames := h'.pages[|h.pages|..];
    assert Distinct(Extent(h.blocks) + PageBytes(frames)) by {
      PagesDistinct(h'.pages);
      PageBytesConcat(h.pages, frames);
      assert h.pages + frames == h'.pages;
    }
    if ptr != 0 {
      AllocatedBlock(h.blocks, frames, n, h'.blocks, ptr);
    }
  }

  // ---- kmalloc as a whole ------------------------------------------------------

  /** The heap before a call, and the allocator's next answer. */
  datatype HeapState = HeapState(view: HeapView, exhausted: bool, frame: nat)

  /** A request that rounds to 0 with every block in use grows the heap and is then lost. */
  ghost predicate Loses(h: HeapState, n: nat) {
    n == 0 && NothingFits(h.view.blocks, 0) && !h.exhausted
  }

  /** The outcome of one `kmalloc` of a positive size that rounds to `n`. */
  ghost predicate Kmalloced(h: HeapState, n: nat, h': HeapView, ptr: nat) {
    if Loses(h, n) then
      && ptr == 0 && h'.blocks == Grow(h.view.blocks, h.frame) && h'.pages == h.view.pages + [h.frame]
      && Obtained(h.view.used, [h.frame], h'.used)
    else Allocated(h.view.blocks, h.view.pages, h.view.used, n, h'.blocks, h'.pages, h'.used, ptr)
  }

  /** The retry after a page was added. */
  lemma KmallocedAfterGrowth(h: HeapState, n: nat, h': HeapView, ptr: nat)
    requires NothingFits(h.view.blocks, n) && !h.exhausted && h.frame !in h.view.used
    requires n == 0 ==>
               && ptr == 0 && h'.blocks == Grow(h.view.blocks, h.frame) && h'.pages == h.view.pages + [h.frame]
               && h'.used == h.view.used + {h.frame}
    requires n > 0 ==> Allocated(Grow(h.view.blocks, h.frame), h.view.pages + [h.frame], h.view.used + {h.frame}, n,
                                 h'.blocks, h'.pages, h'.used, ptr)
    ensures Kmalloced(h, n, h', ptr)
  {
    if n == 0 {
      assert Elements([h.frame]) == {h.frame};
    } else {
      AllocatedAfterGrowth(h.view.blocks, h.view.pages, h.view.used, n, h.frame, h'.blocks, h'.pages, h'.used, ptr);
    }
  }

  /** What a client held stays good, whether the request was served, refused or lost. */
  lemma HoldingAfter(h: HeapState, n: nat, h': HeapView, ptr: nat, held: set<nat>)
    requires Canonical(h.view.blocks) && Extent(h.view.blocks) == PageBytes(h.view.pages)
    requires Holding(h.view.blocks, held) && Kmalloced(h, n, h', ptr) && Distinct(PageBytes(h'.pages))
    ensures Holding(h'.blocks, if ptr == 0 then held else held + {ptr})
    ensures ptr != 0 ==> ptr !in held
    ensures h.view.pages <= h'.pages && Obtained(h.view.used, h'.pages[|h.view.pages|..], h'.used)
  {
    var frames := h'.pages[|h.view.pages|..];
    assert h'.pages == h.view.pages + frames;
    if Loses(h, n) {
      GrowFacts(h.view.blocks, h.frame);
      HoldingLive(h.view.blocks, h'.blocks, held);
      assert frames == [h.frame];
    } else {
      PageBytesConcat(h.view.pages, frames);
      HoldingMore(h.view.blocks, frames, n, h'.blocks, ptr, held);
    }
  }
}
