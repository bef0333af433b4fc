/** The kernel heap: `kmalloc`, `kfree` and `kheap_used` over linked headers. */
module KernelHeap {
  import opened BlockList
  import opened Frames
  import opened HeapLinks

  const TWO_32: nat := 0x1_0000_0000
  const INITIAL_PAGES: nat := 1500

  /** The size rounded to a multiple of 4 in 32-bit arithmetic. */
  function RoundUp4(size: nat): nat {
    if size % 4 != 0 then (size + (4 - size % 4)) % TWO_32 else size
  }

  /** Rounding loses the request exactly when it runs past the last multiple of 4. */
  lemma RoundUp4Iff(size: nat)
    requires size < TWO_32
    ensures RoundUp4(size) % 4 == 0
    ensures size <= RoundUp4(size) <==> size <= TWO_32 - 4
    ensures size <= TWO_32 - 4 ==> RoundUp4(size) < size + 4
    ensures size > TWO_32 - 4 ==> RoundUp4(size) == 0
  {
    if size % 4 != 0 && size <= TWO_32 - 4 {
      var k := size / 4;
      assert size + (4 - size % 4) == 4 * (k + 1);
    }
  }

  lemma FirstBlock(mem: Memory, p: nat)
    requires p == PAGE * RESERVED && p in mem && mem[p] == Header(INITIAL_PAGES * PAGE - HEADER, true, 0)
    ensures Settled(mem, p, [Block(p, INITIAL_PAGES * PAGE - HEADER, true)], Run(RESERVED, INITIAL_PAGES))
  {
    RunBytes(RESERVED, INITIAL_PAGES);
    SingleExtent(Block(p, INITIAL_PAGES * PAGE - HEADER, true));
    assert NodeAt(mem, [Block(p, INITIAL_PAGES * PAGE - HEADER, true)], 0);
  }

  /** Null comes back only with nothing fitting and no frame left, exactly when the rounding
      did not wrap, or some block was free, or there was no frame in the first place. */
  lemma NullIff(h: HeapState, size: nat, h': HeapView, ptr: nat, exhausted: bool)
    requires 0 < size < TWO_32 && Kmalloced(h, RoundUp4(size), h', ptr)
    requires ptr == 0 ==> exhausted || Loses(h, RoundUp4(size))
    ensures (ptr == 0 ==> NothingFits(h'.blocks, RoundUp4(size)) && exhausted)
            <==> size <= TWO_32 - 4 || !NothingFits(h.view.blocks, 0) || h.exhausted
  {
    RoundUp4Iff(size);
    GrownFits(h.view.blocks, h.frame);
  }

  ghost predicate InWindow(frames: seq<nat>) {
    forall i | 0 <= i < |frames| :: frames[i] < WINDOW
  }

  /** The heap's new pages are the next frames of the supply, in that order; `reach` tells
      whether they lie in the window. */
  ghost predicate Taken(pages: seq<nat>, supply: seq<nat>, pages': seq<nat>, supply': seq<nat>, reach: bool) {
    pages <= pages' && supply == pages'[|pages|..] + supply' && (reach <==> InWindow(pages'[|pages|..]))
  }

  lemma TakenNothing(pages: seq<nat>, supply: seq<nat>)
    ensures Taken(pages, supply, pages, supply, true)
  {
    assert pages[|pages|..] + supply == supply;
  }

  lemma TakenMore(pages: seq<nat>, supply: seq<nat>, frame: nat, mid: seq<nat>, pages': seq<nat>, supply': seq<nat>,
                  reach: bool)
    requires supply == [frame] + mid && Taken(pages + [frame], mid, pages', supply', reach)
    ensures Taken(pages, supply, pages', supply', frame < WINDOW && reach)
  {
    var all, rest := pages'[|pages|..], pages'[|pages + [frame]|..];
    assert pages'[|pages|] == frame && all == [frame] + rest;
    assert forall i | 0 <= i < |rest| :: rest[i] == all[i + 1];
    assert [frame] + mid == [frame] + rest + supply' == all + supply';
    if InWindow(all) {
      assert all[0] < WINDOW;
    }
  }

  /** A request for exactly the first block takes it whole. */
  lemma WholeBlock(h: HeapView, s: seq<Block>, p: seq<nat>, u: set<nat>, ptr: nat)
    requires h.blocks == BootBlocks()
    requires Allocated(h.blocks, h.pages, h.used, INITIAL_PAGES * PAGE - HEADER, s, p, u, ptr)
    ensures s == [h.blocks[0].(free := false)] && p == h.pages && u == h.used && ptr == PAGE * RESERVED + HEADER
  {
    var frames, n := p[|h.pages|..], INITIAL_PAGES * PAGE - HEADER;
    assert Fits(h.blocks[0], n) && h.blocks[0] in h.blocks;
    assert frames != [] ==> frames[..0] == [] && NothingFits(GrowAll(h.blocks, frames[..0]), n);
    assert h.blocks[..0] + [h.blocks[0].(free := false)] + h.blocks[1..] == [h.blocks[0].(free := false)];
    assert p == h.pages + frames && Elements([]) == {};
  }

  /** `n` bytes were cut from the start of the last block. */
  ghost predicate Cut(s: seq<Block>, n: nat, t: seq<Block>, p: nat)
    requires s != [] && s[|s| - 1].size >= n + 16
  {
    var last := s[|s| - 1];
    && p == last.addr + 12
    && t == s[..|s| - 1] + [Block(last.addr, n, false), Block(last.addr + 12 + n, last.size - n - 12, true)]
  }

  /** With a large free block last and none before it, a request is cut from its start. */
  lemma CutFromLast(h: HeapView, n: nat, s: seq<Block>, p: seq<nat>, u: set<nat>, ptr: nat)
    requires h.blocks != [] && forall i | 0 <= i < |h.blocks| - 1 :: !h.blocks[i].free
    requires Fits(h.blocks[|h.blocks| - 1], n + 16) && Allocated(h.blocks, h.pages, h.used, n, s, p, u, ptr)
    ensures Cut(h.blocks, n, s, ptr) && p == h.pages && u == h.used
  {
    var frames, z := p[|h.pages|..], |h.blocks| - 1;
    assert Fits(h.blocks[z], n) && h.blocks[z] in h.blocks;
    assert frames != [] ==> frames[..0] == [] && NothingFits(GrowAll(h.blocks, frames[..0]), n);
    FirstFitIs(h.blocks, n, z);
    CarveSplits(h.blocks, z, n);
    assert h.blocks[z + 1..] == [];
    assert p == h.pages + frames && Elements([]) == {};
  }

  /** The heap after `kheap_init`, and between the requests of the boot check and their release. */
  function BootBlocks(): seq<Block> {
    [Block(PAGE * RESERVED, INITIAL_PAGES * PAGE - HEADER, true)]
  }

  function CheckBlocks(): seq<Block> {
    [Block(0x400000, 100, false), Block(0x400070, 200, false), Block(0x400144, 0x5DC000 - 336, true)]
  }

  /** Its bytes in use, and what freeing the two blocks leaves. */
  lemma CheckFreed()
    ensures UsedBytes(BootBlocks()) == 0 && UsedBytes(CheckBlocks()) == 324
    ensures Kfree(Kfree(CheckBlocks(), 0x400000), 0x400070) == BootBlocks()
  {
    var s := CheckBlocks();
    var t := Release(s, 0x400000);
    var u := [Block(0x400000, 100, true), Block(0x400070, 200, true), Block(0x400144, 0x5DC000 - 336, true)];
    var b, c := u[0], Block(0x400070, 0x5DC000 - 124, true);
    assert UsedBytes(s) == 112 + UsedBytes(s[1..]) && s[1..][1..][1..] == [];
    assert Coalesce(t) == t by {
      assert t[1..] == [s[1], s[2]] && Coalesce(t[1..]) == [s[1]] + Coalesce([s[2]]);
    }
    assert Release(t, 0x400070) == u;
    var v := [Merge(u[0], u[1])] + u[2..];
    assert Coalesce(u) == Coalesce(v) == Coalesce([Merge(v[0], v[1])] + v[2..]);
  }

  // ---- the heap -------------------------------------------------------------

  class Heap {
    const pmm: FrameAllocator
    var mem: Memory
    var heapFirst: nat
    ghost var blocks: seq<Block>
    /** Frames the heap owns, in the order it obtained them. */
    ghost var pages: seq<nat>

    ghost predicate Structure()
      reads this
    {
      Settled(mem, heapFirst, blocks, pages)
    }

    ghost predicate Valid()
      reads this, pmm, pmm.bitmap
    {
      Structure() && pmm.Ready() && forall f | f in pages :: f in pmm.Used()
    }

    /** Before `kheap_init`: a null list. */
    constructor (pmm: FrameAllocator)
      ensures this.pmm == pmm && heapFirst == 0 && blocks == [] && pages == []
    {
      this.pmm := pmm;
      mem, heapFirst := map[], 0;
      blocks, pages := [], [];
    }

    /** The frames below `n` and no others are in use. */
    ghost predicate UsedBelow(n: nat)
      reads pmm, pmm.bitmap
    {
      forall f: nat :: f in pmm.Used() <==> f < n
    }

    method TakePage(ghost i: nat) returns (p: nat)
      requires pmm.Ready() && i < INITIAL_PAGES && pmm.Scanned() >= RESERVED + INITIAL_PAGES
      requires UsedBelow(RESERVED + i)
      modifies pmm`usedBlocks, pmm.bitmap
      ensures pmm.Ready() && p == PAGE * (RESERVED + i)
      ensures UsedBelow(RESERVED + i + 1)
    {
      NextFree(i);
      p := pmm.AllocPage();
    }

    /** Take the first `INITIAL_PAGES` frames as one free block. The code relies on them
        being consecutive, which holds because only the reserved frames are in use. */
    method KheapInit()
      requires pmm.Ready() && pmm.Scanned() >= RESERVED + INITIAL_PAGES
      requires UsedBelow(RESERVED)
      modifies this, pmm`usedBlocks, pmm.bitmap
      ensures Valid()
      ensures blocks == BootBlocks()
      ensures pages == Run(RESERVED, INITIAL_PAGES)
      ensures UsedBelow(RESERVED + INITIAL_PAGES) && pmm.usedBlocks == RESERVED + INITIAL_PAGES && pmm.Packed()
    {
      var p := TakePage(0);
      for i := 1 to INITIAL_PAGES
        invariant pmm.Ready() && UsedBelow(RESERVED + i)
      {
        var _ := TakePage(i);
      }
      heapFirst := p;
      mem := mem[p := Header(INITIAL_PAGES * PAGE - HEADER, true, 0)];
      blocks := [Block(p, INITIAL_PAGES * PAGE - HEADER, true)];
      pages := Run(RESERVED, INITIAL_PAGES);
      FirstBlock(mem, p);
      FullBelow(RESERVED + INITIAL_PAGES, pmm.Used());
    }

    lemma NextFree(i: nat)
      requires pmm.Ready() && i < INITIAL_PAGES && pmm.Scanned() >= RESERVED + INITIAL_PAGES
      requires UsedBelow(RESERVED + i)
      ensures pmm.NextFrame() == RESERVED + i && !pmm.Exhausted()
    {
      pmm.NextIs(RESERVED + i);
      FullBelow(RESERVED + i, pmm.Used());
    }

    /** Record the split (or not) of block `i`, whose header is at `curr`. */
    method TakeBlock(ghost i: nat, curr: nat, n: nat)
      requires Structure() && i < |blocks| && curr == blocks[i].addr && Fits(blocks[i], n) && n % 4 == 0
      modifies this`mem, this`blocks
      ensures Structure() && blocks == Carve(old(blocks), i, n)
    {
      CarveStep(mem, heapFirst, blocks, pages, i, n);
      NodeOf(mem, heapFirst, blocks, pages, i);
      ghost var goal := CarvedMemory(mem, blocks, i, n);
      if mem[curr].size >= n + HEADER + 4 {
        var newBlock := curr + HEADER + n;
        mem := mem[newBlock := Header(mem[curr].size - n - HEADER, true, mem[curr].next)];
        mem := mem[curr := Header(n, mem[curr].isFree, newBlock)];
      }
      mem := mem[curr := mem[curr].(isFree := false)];
      assert mem == goal;
      blocks := Carve(blocks, i, n);
    }

    /** Append the page to the last block, or link it as a block of its own. */
    method AddPage(newPage: nat)
      requires Structure() && newPage % PAGE == 0
      requires RESERVED <= newPage / PAGE && newPage / PAGE !in pages
      modifies this`mem, this`blocks, this`pages
      ensures Structure()
      ensures blocks == Grow(old(blocks), newPage / PAGE) && pages == old(pages) + [newPage / PAGE]
    {
      ghost var frame, i := newPage / PAGE, 0;
      var last := heapFirst;
      NodeOf(mem, heapFirst, blocks, pages, 0);
      while mem[last].next != 0
        invariant unchanged(this)
        invariant i < |blocks| && last == blocks[i].addr && last in mem
        invariant mem[last] == Header(blocks[i].size, blocks[i].free, AddrAt(blocks, i + 1))
        decreases |blocks| - i
      {
        last := mem[last].next;
        i := i + 1;
        NodeOf(mem, heapFirst, blocks, pages, i);
      }
      if i + 1 < |blocks| {
        NodeOf(mem, heapFirst, blocks, pages, i + 1);
      }
      GrowStep(mem, heapFirst, blocks, pages, frame);
      ghost var goal := GrownMemory(mem, blocks, frame);
      var lastEnd := last + HEADER + mem[last].size;
      if mem[last].isFree && lastEnd == newPage {
        mem := mem[last := mem[last].(size := mem[last].size + PAGE)];
      } else {
        assert last != newPage by { TilesApart(blocks, pages); }
        mem := mem[newPage := Header(PAGE - HEADER, true, 0)];
        mem := mem[last := mem[last].(next := newPage)];
      }
      assert mem == goal;
      blocks, pages := Grow(blocks, frame), pages + [frame];
    }

    /** The search loop: the first list block that is free and fits, else null. */
    method FindFit(n: nat) returns (curr: nat)
      requires Structure()
      ensures curr == AddrAt(blocks, FirstFit(blocks, n))
      ensures curr == 0 <==> NothingFits(blocks, n)
    {
      curr := heapFirst;
      ghost var i := 0;
      while curr != 0
        invariant i <= |blocks| && curr == AddrAt(blocks, i)
        invariant forall j | 0 <= j < i :: !Fits(blocks[j], n)
        decreases |blocks| - i
      {
        NodeOf(mem, heapFirst, blocks, pages, i);
        if mem[curr].isFree && mem[curr].size >= n {
          FirstFitIs(blocks, n, i);
          return;
        }
        curr := mem[curr].next;
        i := i + 1;
      }
      if i < |blocks| {
        NodeOf(mem, heapFirst, blocks, pages, i);
      }
    }

    /** Obtain one page from the frame allocator, if it has one. The kernel reaches its
        header when it lies in the window. */
    method GrowByPage() returns (ok: bool, reach: bool)
      requires Valid()
      modifies this`mem, this`blocks, this`pages, pmm`usedBlocks, pmm.bitmap
      ensures Valid() && old(pages) <= pages
      ensures ok <==> !old(pmm.Exhausted())
      ensures !ok ==> blocks == old(blocks) && pages == old(pages) && pmm.Used() == old(pmm.Used()) && pmm.Exhausted()
      ensures !ok ==> pmm.Supply() == old(pmm.Supply())
      ensures ok ==> var frame := old(pmm.NextFrame());
                     && frame !in old(pmm.Used()) && pmm.Used() == old(pmm.Used()) + {frame}
                     && blocks == Grow(old(blocks), frame) && pages == old(pages) + [frame]
                     && pmm.Headroom() < old(pmm.Headroom())
                     && old(pmm.Supply()) == [frame] + pmm.Supply() && (reach <==> frame < WINDOW)
      ensures old(pmm.Packed()) ==> pmm.Packed()
    {
      var newPage := pmm.AllocPage();
      if newPage == 0 {
        return false, true;
      }
      AddPage(newPage);
      return true, newPage / PAGE < WINDOW;
    }

    ghost function View(): HeapView
      reads this, pmm, pmm.bitmap
    {
      HeapView(blocks, pages, pmm.Used())
    }

    ghost function Before(): HeapState
      requires pmm.Shape()
      reads this, pmm, pmm.bitmap
    {
      HeapState(View(), pmm.Exhausted(), pmm.NextFrame())
    }

    /** A block was found. */
    method TakeFit(curr: nat, n: nat) returns (p: nat)
      requires Valid() && n % 4 == 0 && !NothingFits(blocks, n) && curr == AddrAt(blocks, FirstFit(blocks, n))
      modifies this`mem, this`blocks
      ensures Valid() && p != 0 && Kmalloced(old(Before()), n, View(), p)
    {
      AllocatedAtOnce(blocks, pages, pmm.Used(), n);
      TakeBlock(FirstFit(blocks, n), curr, n);
      return curr + HEADER;
    }

    /** First fit; while nothing fits, grow by a page and call `kmalloc` again with the
        rounded size. A request that rounded to 0 is lost in that second call. `reach` tells
        whether all pages it took lie in the window, where their headers can be written. */
    method Kmalloc(size: nat) returns (p: nat, reach: bool)
      requires Valid() && size < TWO_32
      modifies this`mem, this`blocks, this`pages, pmm`usedBlocks, pmm.bitmap
      ensures Valid()
      ensures size == 0 ==> p == 0 && unchanged(this) && pmm.Used() == old(pmm.Used())
      ensures size > 0 ==> Kmalloced(old(Before()), RoundUp4(size), View(), p)
      ensures size > 0 && p == 0 ==> pmm.Exhausted() || Loses(old(Before()), RoundUp4(size))
      ensures old(pmm.Packed()) ==> pmm.Packed()
      ensures Taken(old(pages), old(pmm.Supply()), pages, pmm.Supply(), reach)
      decreases pmm.Headroom()
    {
      TakenNothing(pages, pmm.Supply());
      reach := true;
      if size == 0 {
        return 0, true;
      }
      var n := size;
      if n % 4 != 0 {
        n := (n + (4 - n % 4)) % TWO_32;
      }
      RoundUp4Iff(size);
      var curr := FindFit(n);
      if curr != 0 {
        p := TakeFit(curr, n);
        return;
      }
      ghost var before, supply := Before(), pmm.Supply();
      var ok, near := GrowByPage();
      ghost var mid := pmm.Supply();
      if !ok {
        AllocatedNothing(blocks, pages, pmm.Used(), n);
        return 0, true;
      }
      p, reach := Kmalloc(n);
      TakenMore(before.view.pages, supply, before.frame, mid, pages, pmm.Supply(), reach);
      reach := near && reach;
      KmallocedAfterGrowth(before, n, View(), p);
    }

    /** The lost request: with every block in use and frames left, the heap gets a page
        longer, which is then free, and the result is null all the same. */
    method LoseRequest(size: nat) returns (p: nat)
      requires Valid() && TWO_32 - 4 < size < TWO_32 && NothingFits(blocks, 0) && !pmm.Exhausted()
      modifies this`mem, this`blocks, this`pages, pmm`usedBlocks, pmm.bitmap
      ensures Valid() && p == 0 && !NothingFits(blocks, 0)
      ensures blocks == Grow(old(blocks), old(pmm.NextFrame())) && pages == old(pages) + [old(pmm.NextFrame())]
    {
      RoundUp4Iff(size);
      GrownFits(blocks, pmm.NextFrame());
      var reach;
      p, reach := Kmalloc(size);
    }

    /** Such a state is one call away from `kheap_init`. */
    method TakeFirstBlock() returns (p: nat)
      requires Valid() && blocks == BootBlocks() && !pmm.Exhausted()
      modifies this`mem, this`blocks, this`pages, pmm`usedBlocks, pmm.bitmap
      ensures Valid() && p == PAGE * RESERVED + HEADER && NothingFits(blocks, 0) && !pmm.Exhausted()
    {
      ghost var h := Before();
      var reach;
      p, reach := Kmalloc(INITIAL_PAGES * PAGE - HEADER);
      WholeBlock(h.view, blocks, pages, pmm.Used(), p);
      pmm.NextIs(h.frame);
    }

    /** A request served from the end of the heap, all before being in use. */
    method TakeNext(n: nat) returns (p: nat)
      requires Valid() && 0 < n < TWO_32 && n % 4 == 0
      requires blocks != [] && Fits(blocks[|blocks| - 1], n + 16)
      requires forall i | 0 <= i < |blocks| - 1 :: !blocks[i].free
      modifies this`mem, this`blocks, this`pages, pmm`usedBlocks, pmm.bitmap
      ensures Valid() && Cut(old(blocks), n, blocks, p)
    {
      ghost var h, reach := View(), true;
      p, reach := Kmalloc(n);
      CutFromLast(h, n, blocks, pages, pmm.Used(), p);
    }

    /** The two requests of the boot check. */
    method TakeTwo() returns (k1: nat, k2: nat)
      requires Valid() && blocks == BootBlocks()
      modifies this`mem, this`blocks, this`pages, pmm`usedBlocks, pmm.bitmap
      ensures Valid() && k1 == 0x40000C && k2 == 0x40007C && blocks == CheckBlocks()
    {
      k1 := TakeNext(100);
      assert blocks == [Block(0x400000, 100, false), Block(0x400070, 0x5DC000 - 124, true)];
      k2 := TakeNext(200);
    }

    /** What the kernel prints when it has set up its heap: nothing in use, 100 bytes and 200
        bytes one after the other behind their headers, and nothing in use again. */
    method BootCheck() returns (before: nat, k1: nat, k2: nat, between: nat, after: nat)
      requires Valid() && blocks == BootBlocks()
      modifies this`mem, this`blocks, this`pages, pmm`usedBlocks, pmm.bitmap
      ensures Valid() && blocks == old(blocks)
      ensures k1 == 0x40000C && k2 == 0x40007C && before == 0 && between == 324 && after == 0
    {
      before := KheapUsed();
      k1, k2 := TakeTwo();
      between := KheapUsed();
      CheckFreed();
      Kfree(k1);
      Kfree(k2);
      after := KheapUsed();
    }

    /** The block at `curr` absorbs its list successor. */
    method Absorb(ghost i: nat, curr: nat)
      requires Lists(mem, heapFirst, blocks, pages) && i + 1 < |blocks| && curr == blocks[i].addr
      requires Mergeable(blocks[i], blocks[i + 1])
      modifies this`mem, this`blocks
      ensures Lists(mem, heapFirst, blocks, pages) && blocks == MergeAt(old(blocks), i)
    {
      MergeStep(mem, heapFirst, blocks, pages, i);
      NodeOf(mem, heapFirst, blocks, pages, i);
      NodeOf(mem, heapFirst, blocks, pages, i + 1);
      var next := mem[curr].next;
      mem := mem[curr := mem[curr].(size := mem[curr].size + HEADER + mem[next].size, next := mem[next].next)];
      blocks := MergeAt(blocks, i);
    }

    /** The pass over the whole list; it stays on a block after a merge, and ends
        because each turn shortens the part of the list still ahead. */
    method CoalescePass()
      requires Lists(mem, heapFirst, blocks, pages)
      modifies this`mem, this`blocks
      ensures Structure() && blocks == Coalesce(old(blocks))
    {
      ghost var goal, i := Coalesce(blocks), 0;
      var curr := heapFirst;
      assert blocks[0..] == blocks;
      while curr != 0
        invariant Lists(mem, heapFirst, blocks, pages)
        invariant i <= |blocks| && curr == AddrAt(blocks, i)
        invariant blocks[..i] + Coalesce(blocks[i..]) == goal
        decreases |blocks| - i
      {
        NodeOf(mem, heapFirst, blocks, pages, i);
        var next := mem[curr].next;
        if i + 1 < |blocks| {
          NodeOf(mem, heapFirst, blocks, pages, i + 1);
        }
        if mem[curr].isFree && next != 0 && mem[next].isFree && curr + HEADER + mem[curr].size == next {
          CoalesceMergeStep(blocks, i);
          Absorb(i, curr);
          continue;
        }
        CoalesceSkipStep(blocks, i);
        curr := next;
        i := i + 1;
      }
      if i < |blocks| {
        NodeOf(mem, heapFirst, blocks, pages, i);
      }
      assert blocks[..i] == blocks && blocks[i..] == [] && blocks[..i] + [] == blocks;
      CoalesceCanonical(old(blocks));
    }

    /** Free the payload at `p`. */
    method Kfree(p: nat)
      requires Structure()
      requires p == 0 || exists b :: b in blocks && b.addr + HEADER == p
      modifies this`mem, this`blocks
      ensures Structure()
      ensures p == 0 ==> blocks == old(blocks) && mem == old(mem)
      ensures p != 0 ==> blocks == BlockList.Kfree(old(blocks), p - HEADER)
    {
      if p == 0 {
        return;
      }
      var header := p - HEADER;
      ghost var at :| 0 <= at < |blocks| && blocks[at].addr == header;
      NodeOf(mem, heapFirst, blocks, pages, at);
      ReleaseStep(mem, heapFirst, blocks, pages, at);
      mem := mem[header := mem[header].(isFree := true)];
      blocks := Release(blocks, header);
      CoalescePass();
    }

    method KheapUsed() returns (used: nat)
      requires Structure()
      ensures used == UsedBytes(blocks)
      ensures used <= PAGE * |pages|
    {
      used := 0;
      var curr := heapFirst;
      ghost var i := 0;
      assert blocks[0..] == blocks;
      while curr != 0
        invariant i <= |blocks| && curr == AddrAt(blocks, i)
        invariant used + UsedBytes(blocks[i..]) == UsedBytes(blocks)
        decreases |blocks| - i
      {
        NodeOf(mem, heapFirst, blocks, pages, i);
        assert blocks[i..][1..] == blocks[i + 1..];
        if !mem[curr].isFree {
          used := used + (mem[curr].size + HEADER);
        }
        curr := mem[curr].next;
        i := i + 1;
      }
      if i < |blocks| {
        NodeOf(mem, heapFirst, blocks, pages, i);
      }
      TilesApart(blocks, pages);
      UsedBound(blocks);
    }
  }
}
