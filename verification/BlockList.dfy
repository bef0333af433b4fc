/** The kernel heap as a value: the list of blocks that the headers spell out.
    Everything the allocator promises is proved here about the list operations. */
module BlockList {
  const HEADER: nat := 12
  const PAGE: nat := 4096
  /** A block is split only when the remainder holds a header and one word. */
  const MIN_SPLIT: nat := HEADER + 4

  datatype Block = Block(addr: nat, size: nat, free: bool) {
    function End(): nat {
      addr + HEADER + size
    }
    ghost function Bytes(): seq<nat> {
      Range(addr, HEADER + size)
    }
  }

  // ---- addresses covered ----------------------------------------------------

  /** The addresses from `lo` up to, not including, `hi`. */
  ghost function Span(lo: nat, hi: nat): (r: seq<nat>)
    requires lo <= hi
    ensures |r| == hi - lo
    decreases hi - lo
  {
    if lo == hi then [] else [lo] + Span(lo + 1, hi)
  }

  ghost function Range(a: nat, n: nat): (r: seq<nat>)
    ensures |r| == n
  {
    Span(a, a + n)
  }

  lemma Assoc(a: seq<nat>, b: seq<nat>, c: seq<nat>)
    ensures a + b + c == a + (b + c)
  {
  }

  lemma {:induction false} SpanAt(lo: nat, hi: nat, i: nat)
    requires lo + i < hi
    ensures Span(lo, hi)[i] == lo + i
    decreases hi - lo
  {
    if i > 0 {
      SpanAt(lo + 1, hi, i - 1);
    }
  }

  lemma {:induction false} SpanSplit(lo: nat, mid: nat, hi: nat)
    requires lo <= mid <= hi
    ensures Span(lo, hi) == Span(lo, mid) + Span(mid, hi)
    decreases mid - lo
  {
    if lo < mid {
      SpanSplit(lo + 1, mid, hi);
      Assoc([lo], Span(lo + 1, mid), Span(mid, hi));
    }
  }

  lemma RangeAt(a: nat, n: nat, i: nat)
    requires i < n
    ensures Range(a, n)[i] == a + i
  {
    SpanAt(a, a + n, i);
  }

  lemma RangeSplit(a: nat, m: nat, n: nat)
    ensures Range(a, m + n) == Range(a, m) + Range(a + m, n)
  {
    SpanSplit(a, a + m, a + m + n);
  }

  /** The addresses of header and payload of every block, in list order. */
  ghost function Extent(s: seq<Block>): seq<nat> {
    if s == [] then [] else s[0].Bytes() + Extent(s[1..])
  }

  /** The addresses of a sequence of pages, in the order the heap obtained them. */
  ghost function PageBytes(pages: seq<nat>): seq<nat> {
    if pages == [] then [] else Range(PAGE * pages[0], PAGE) + PageBytes(pages[1..])
  }

  ghost predicate Distinct(e: seq<nat>) {
    forall i, j | 0 <= i < j < |e| :: e[i] != e[j]
  }

  lemma {:induction false} ExtentConcat(s: seq<Block>, t: seq<Block>)
    ensures Extent(s + t) == Extent(s) + Extent(t)
  {
    if s == [] {
      assert s + t == t;
    } else {
      ExtentConcat(s[1..], t);
      assert (s + t)[0] == s[0] && (s + t)[1..] == s[1..] + t;
      Assoc(s[0].Bytes(), Extent(s[1..]), Extent(t));
    }
  }

  lemma ExtentSplit(s: seq<Block>, i: nat)
    requires i < |s|
    ensures Extent(s) == Extent(s[..i]) + s[i].Bytes() + Extent(s[i + 1..])
  {
    var front, back := s[..i], s[i..];
    assert s == front + back;
    ExtentConcat(front, back);
    assert back[0] == s[i] && back[1..] == s[i + 1..];
    Assoc(Extent(front), s[i].Bytes(), Extent(s[i + 1..]));
  }

  lemma SplitOne<T>(s: seq<T>, i: nat)
    requires i < |s|
    ensures s == s[..i] + [s[i]] + s[i + 1..]
  {
  }

  lemma SplitTwo<T>(s: seq<T>, i: nat)
    requires i + 1 < |s|
    ensures s == s[..i] + [s[i], s[i + 1]] + s[i + 2..]
  {
  }

  /** Re-cutting a stretch of the list that covers the same addresses. */
  lemma ExtentReplace(front: seq<Block>, a: seq<Block>, b: seq<Block>, rest: seq<Block>)
    requires Extent(a) == Extent(b)
    ensures Extent(front + a + rest) == Extent(front + b + rest)
  {
    ExtentConcat(front, a);
    ExtentConcat(front, b);
    ExtentConcat(front + a, rest);
    ExtentConcat(front + b, rest);
  }

  lemma SingleExtent(b: Block)
    ensures Extent([b]) == b.Bytes()
  {
    assert [b][1..] == [];
  }

  lemma PairExtent(b: Block, c: Block)
    ensures Extent([b, c]) == b.Bytes() + c.Bytes()
  {
    assert [b, c][1..] == [c];
    SingleExtent(c);
  }

  lemma {:induction false} PageBytesConcat(p: seq<nat>, q: seq<nat>)
    ensures PageBytes(p + q) == PageBytes(p) + PageBytes(q)
  {
    if p == [] {
      assert p + q == q;
    } else {
      PageBytesConcat(p[1..], q);
      assert (p + q)[0] == p[0] && (p + q)[1..] == p[1..] + q;
      Assoc(Range(PAGE * p[0], PAGE), PageBytes(p[1..]), PageBytes(q));
    }
  }

  /** Where a block's addresses sit in the extent. */
  lemma BlockAt(s: seq<Block>, i: nat, k: nat)
    requires i < |s| && k < HEADER + s[i].size
    ensures |Extent(s[..i])| + k < |Extent(s)|
    ensures Extent(s)[|Extent(s[..i])| + k] == s[i].addr + k
  {
    RangeAt(s[i].addr, HEADER + s[i].size, k);
    ExtentSplit(s, i);
  }

  lemma OffsetsAscend(s: seq<Block>, i: nat, j: nat)
    requires i < j < |s|
    ensures |Extent(s[..i])| + HEADER + s[i].size <= |Extent(s[..j])|
  {
    ExtentSplit(s[..j], i);
    assert s[..j][..i] == s[..i];
  }

  lemma NoSharedAddress(s: seq<Block>, i: nat, j: nat, k: nat, m: nat)
    requires Distinct(Extent(s)) && i < j < |s| && k < HEADER + s[i].size && m < HEADER + s[j].size
    ensures s[i].addr + k != s[j].addr + m
  {
    OffsetsAscend(s, i, j);
    BlockAt(s, i, k);
    BlockAt(s, j, m);
  }

  /** Blocks are disjoint intervals. */
  lemma Separate(s: seq<Block>, i: nat, j: nat)
    requires Distinct(Extent(s)) && i < |s| && j < |s| && i != j
    ensures s[i].End() <= s[j].addr || s[j].End() <= s[i].addr
  {
    var lo, hi := if i < j then i else j, if i < j then j else i;
    if s[hi].addr <= s[lo].addr < s[hi].End() {
      NoSharedAddress(s, lo, hi, 0, s[lo].addr - s[hi].addr);
    }
    if s[lo].addr <= s[hi].addr < s[lo].End() {
      NoSharedAddress(s, lo, hi, s[hi].addr - s[lo].addr, 0);
    }
  }

  /** Pages taken from distinct frames share no address, and every address lies in
      the frame it was taken from. */
  lemma {:induction false} PagesDistinct(pages: seq<nat>)
    requires forall i, j | 0 <= i < j < |pages| :: pages[i] != pages[j]
    ensures |PageBytes(pages)| == PAGE * |pages|
    ensures Distinct(PageBytes(pages))
    ensures forall k | 0 <= k < |PageBytes(pages)| :: PageBytes(pages)[k] / PAGE in pages
  {
    if pages != [] {
      PagesDistinct(pages[1..]);
      var head, tail := Range(PAGE * pages[0], PAGE), PageBytes(pages[1..]);
      forall k | 0 <= k < PAGE ensures head[k] == PAGE * pages[0] + k && head[k] / PAGE == pages[0] {
        RangeAt(PAGE * pages[0], PAGE, k);
      }
      forall k | 0 <= k < |tail| ensures tail[k] / PAGE in pages && tail[k] / PAGE != pages[0] {
        var m :| 0 <= m < |pages[1..]| && pages[1..][m] == tail[k] / PAGE;
        assert pages[m + 1] == tail[k] / PAGE;
      }
    }
  }

  // ---- live blocks, canonical form ------------------------------------------

  ghost function Live(s: seq<Block>): set<Block> {
    set b | b in s && !b.free
  }

  function UsedBytes(s: seq<Block>): nat {
    if s == [] then 0 else (if s[0].free then 0 else s[0].size + HEADER) + UsedBytes(s[1..])
  }

  predicate Mergeable(b: Block, c: Block) {
    b.free && c.free && b.End() == c.addr
  }

  /** No two list neighbours are free and contiguous. */
  ghost predicate Canonical(s: seq<Block>) {
    forall i | 0 <= i < |s| - 1 :: !Mergeable(s[i], s[i + 1])
  }

  lemma LiveConcat(s: seq<Block>, t: seq<Block>)
    ensures Live(s + t) == Live(s) + Live(t)
  {
  }

  /** A block with the same address as the `i`-th is the `i`-th. */
  lemma SameAddress(s: seq<Block>, i: nat, b: Block)
    requires Distinct(Extent(s)) && i < |s| && b in s && b.addr == s[i].addr
    ensures b == s[i]
  {
    var j :| 0 <= j < |s| && s[j] == b;
    if i != j {
      Separate(s, i, j);
    }
  }

  lemma DistinctTail(s: seq<Block>)
    requires s != [] && Distinct(Extent(s))
    ensures Distinct(Extent(s[1..]))
  {
    var e, n := Extent(s), HEADER + s[0].size;
    assert Extent(s[1..]) == e[n..];
  }

  lemma LiveTail(s: seq<Block>)
    requires s != [] && Distinct(Extent(s))
    ensures Live(s[1..]) == Live(s) - {s[0]}
  {
    if s[0] in s[1..] {
      var j :| 0 <= j < |s[1..]| && s[1..][j] == s[0];
      Separate(s, 0, j + 1);
      assert false;
    }
    assert s == [s[0]] + s[1..];
  }

  /** Equal extents and live sets force equal first blocks. */
  lemma FirstBlockUnique(s: seq<Block>, t: seq<Block>)
    requires Extent(s) == Extent(t) && Distinct(Extent(s)) && Canonical(s) && Live(s) == Live(t)
    requires s != [] && t != [] && s[0].size <= t[0].size
    ensures s[0] == t[0]
  {
    var e, n := Extent(s), HEADER + s[0].size;
    assert s[0].addr == e[0] == t[0].addr;
    if !s[0].free {
      assert s[0] in Live(t);
      SameAddress(t, 0, s[0]);
    } else if !t[0].free {
      assert t[0] in Live(s);
      SameAddress(s, 0, t[0]);
    } else if s[0].size < t[0].size {
      // the second block of `s` starts inside the first block of `t`
      RangeAt(t[0].addr, HEADER + t[0].size, n);
      assert |s| > 1 && s[1].addr == e[n] by {
        assert e == s[0].Bytes() + Extent(s[1..]);
        if |s| > 1 {
          assert Extent(s[1..])[0] == s[1].addr;
        }
      }
      assert !Mergeable(s[0], s[1]);
      assert s[1] in Live(t);
      var j :| 0 <= j < |t| && t[j] == s[1];
      Separate(t, 0, j);
      assert false;
    }
  }

  /** The block list is determined by the addresses the heap owns and the live blocks. */
  lemma {:induction false} CanonicalUnique(s: seq<Block>, t: seq<Block>)
    requires Extent(s) == Extent(t) && Distinct(Extent(s))
    requires Canonical(s) && Canonical(t) && Live(s) == Live(t)
    ensures s == t
  {
    if s != [] && t != [] {
      if s[0].size <= t[0].size {
        FirstBlockUnique(s, t);
      } else {
        FirstBlockUnique(t, s);
      }
      assert Extent(s[1..]) == Extent(s)[HEADER + s[0].size..] == Extent(t[1..]);
      DistinctTail(s);
      LiveTail(s);
      LiveTail(t);
      CanonicalUnique(s[1..], t[1..]);
      assert s == [s[0]] + s[1..] && t == [t[0]] + t[1..];
    }
  }

  // ---- kmalloc --------------------------------------------------------------

  predicate Fits(b: Block, n: nat) {
    b.free && b.size >= n
  }

  /** The first list block that is free and large enough, or `|s|`. */
  function FirstFit(s: seq<Block>, n: nat): (i: nat)
    ensures i <= |s|
    ensures i < |s| ==> Fits(s[i], n)
    ensures forall j | 0 <= j < i :: !Fits(s[j], n)
  {
    if s == [] || Fits(s[0], n) then 0 else 1 + FirstFit(s[1..], n)
  }

  lemma {:induction false} FirstFitIs(s: seq<Block>, n: nat, i: nat)
    requires i < |s| && Fits(s[i], n) && forall j | 0 <= j < i :: !Fits(s[j], n)
    ensures FirstFit(s, n) == i
  {
    if i > 0 {
      FirstFitIs(s[1..], n, i - 1);
    }
  }

  /** Take `n` bytes from the block `b`, splitting it when the rest can stand alone. */
  function Pieces(b: Block, n: nat): seq<Block>
    requires b.size >= n
  {
    if b.size >= n + MIN_SPLIT then
      [Block(b.addr, n, false), Block(b.addr + HEADER + n, b.size - n - HEADER, true)]
    else
      [b.(free := false)]
  }

  function Carve(s: seq<Block>, i: nat, n: nat): seq<Block>
    requires i < |s| && s[i].size >= n
  {
    s[..i] + Pieces(s[i], n) + s[i + 1..]
  }

  predicate Extends(s: seq<Block>, frame: nat) {
    s != [] && s[|s| - 1].free && s[|s| - 1].End() == PAGE * frame
  }

  /** Add a page: to the last block when that is free and ends where the page starts. */
  function Grow(s: seq<Block>, frame: nat): seq<Block> {
    var last := |s| - 1;
    if Extends(s, frame) then
      s[last := s[last].(size := s[last].size + PAGE)]
    else
      s + [Block(PAGE * frame, PAGE - HEADER, true)]
  }

  function GrowAll(s: seq<Block>, frames: seq<nat>): seq<Block>
    decreases |frames|
  {
    if frames == [] then s else GrowAll(Grow(s, frames[0]), frames[1..])
  }

  lemma PiecesExtent(b: Block, n: nat)
    requires b.size >= n
    ensures Extent(Pieces(b, n)) == Extent([b])
  {
    SingleExtent(b);
    if b.size >= n + MIN_SPLIT {
      PairExtent(Pieces(b, n)[0], Pieces(b, n)[1]);
      RangeSplit(b.addr, HEADER + n, b.size - n);
    } else {
      SingleExtent(b.(free := false));
    }
  }

  lemma CarveExtent(s: seq<Block>, i: nat, n: nat)
    requires i < |s| && s[i].size >= n
    ensures Extent(Carve(s, i, n)) == Extent(s)
  {
    SplitOne(s, i);
    PiecesExtent(s[i], n);
    ExtentReplace(s[..i], Pieces(s[i], n), [s[i]], s[i + 1..]);
  }

  lemma CarveCanonical(s: seq<Block>, i: nat, n: nat)
    requires i < |s| && Fits(s[i], n) && Canonical(s)
    ensures Canonical(Carve(s, i, n))
  {
    var after, extra := Carve(s, i, n), |Pieces(s[i], n)| - 1;
    forall k | 0 <= k < |after| - 1 ensures !Mergeable(after[k], after[k + 1]) {
      if k < i {
        assert !Mergeable(s[k], s[k + 1]);
      } else if k >= i + extra {
        assert !Mergeable(s[k - extra], s[k - extra + 1]);
      }
    }
  }

  lemma CarveLive(s: seq<Block>, i: nat, n: nat)
    requires i < |s| && Fits(s[i], n)
    ensures |Carve(s, i, n)| > i
    ensures Live(Carve(s, i, n)) == Live(s) + {Carve(s, i, n)[i]}
    ensures Carve(s, i, n)[i].addr == s[i].addr && Carve(s, i, n)[i].size >= n && !Carve(s, i, n)[i].free
  {
    var after := Carve(s, i, n);
    assert s == s[..i] + [s[i]] + s[i + 1..];
  }

  /** How much of the block found is taken: less than 16 bytes more than asked for. From 16
      bytes on, a header and one word, the rest is a free block behind the one taken. */
  lemma CarveSplits(s: seq<Block>, i: nat, n: nat)
    requires i < |s| && Fits(s[i], n)
    ensures |Carve(s, i, n)| > i
    ensures n <= Carve(s, i, n)[i].size < n + 16
    ensures s[i].size >= n + 16 ==>
              && Carve(s, i, n)[i].size == n && |Carve(s, i, n)| == |s| + 1
              && Carve(s, i, n)[i + 1] == Block(Carve(s, i, n)[i].End(), s[i].size - n - 12, true)
    ensures s[i].size < n + 16 ==> Carve(s, i, n)[i].size == s[i].size && |Carve(s, i, n)| == |s|
  {
    var pieces := Pieces(s[i], n);
    assert Carve(s, i, n)[i] == pieces[0];
    assert |pieces| == 2 ==> Carve(s, i, n)[i + 1] == pieces[1];
  }

  /** Only a block in use counts: its payload and the 12 bytes of its header. */
  lemma CarveUsed(s: seq<Block>, i: nat, n: nat)
    requires i < |s| && Fits(s[i], n)
    ensures |Carve(s, i, n)| > i
    ensures UsedBytes(Carve(s, i, n)) == UsedBytes(s) + Carve(s, i, n)[i].size + 12
  {
    var pieces := Pieces(s[i], n);
    UsedConcat(s[..i] + pieces, s[i + 1..]);
    UsedConcat(s[..i], pieces);
    SplitOne(s, i);
    UsedConcat(s[..i] + [s[i]], s[i + 1..]);
    UsedConcat(s[..i], [s[i]]);
    assert Carve(s, i, n)[i] == pieces[0];
    assert |pieces| == 2 ==> pieces[1..][0] == pieces[1] && pieces[1..][1..] == [];
  }

  /** Splitting re-cuts the chosen block: same bytes, still canonical, one block more in use. */
  lemma CarveFacts(s: seq<Block>, i: nat, n: nat)
    requires i < |s| && Fits(s[i], n)
    ensures Extent(Carve(s, i, n)) == Extent(s)
    ensures Canonical(s) ==> Canonical(Carve(s, i, n))
    ensures |Carve(s, i, n)| > i
    ensures Live(Carve(s, i, n)) == Live(s) + {Carve(s, i, n)[i]}
    ensures Carve(s, i, n)[i].addr == s[i].addr && !Carve(s, i, n)[i].free
    ensures n <= Carve(s, i, n)[i].size < n + 16
  {
    CarveExtent(s, i, n);
    CarveLive(s, i, n);
    CarveSplits(s, i, n);
    if Canonical(s) {
      CarveCanonical(s, i, n);
    }
  }

  lemma WiderExtent(b: Block)
    ensures Extent([b.(size := b.size + PAGE)]) == Extent([b]) + Range(b.End(), PAGE)
  {
    SingleExtent(b);
    SingleExtent(b.(size := b.size + PAGE));
    RangeSplit(b.addr, HEADER + b.size, PAGE);
  }

  lemma GrowExtent(s: seq<Block>, frame: nat)
    ensures Extent(Grow(s, frame)) == Extent(s) + Range(PAGE * frame, PAGE)
  {
    if Extends(s, frame) {
      var front, b := s[..|s| - 1], s[|s| - 1];
      var wider := b.(size := b.size + PAGE);
      assert s == front + [b] && Grow(s, frame) == front + [wider];
      ExtentConcat(front, [b]);
      ExtentConcat(front, [wider]);
      WiderExtent(b);
      Assoc(Extent(front), Extent([b]), Range(PAGE * frame, PAGE));
    } else {
      var c := Block(PAGE * frame, PAGE - HEADER, true);
      ExtentConcat(s, [c]);
      SingleExtent(c);
    }
  }

  lemma GrowUsed(s: seq<Block>, frame: nat)
    ensures UsedBytes(Grow(s, frame)) == UsedBytes(s)
  {
    if Extends(s, frame) {
      var front, b := s[..|s| - 1], s[|s| - 1];
      var c := b.(size := b.size + PAGE);
      assert s == front + [b] && Grow(s, frame) == front + [c];
      UsedConcat(front, [b]);
      UsedConcat(front, [c]);
    } else {
      UsedConcat(s, [Block(PAGE * frame, PAGE - HEADER, true)]);
    }
  }

  lemma GrowLive(s: seq<Block>, frame: nat)
    ensures Live(Grow(s, frame)) == Live(s)
  {
    if Extends(s, frame) {
      var front, b := s[..|s| - 1], s[|s| - 1];
      assert s == front + [b] && Grow(s, frame) == front + [b.(size := b.size + PAGE)];
    }
  }

  lemma GrowCanonical(s: seq<Block>, frame: nat)
    requires Canonical(s)
    ensures Canonical(Grow(s, frame))
  {
    var after := Grow(s, frame);
    forall k | 0 <= k < |after| - 1 ensures !Mergeable(after[k], after[k + 1]) {
      if k < |s| - 1 {
        assert !Mergeable(s[k], s[k + 1]);
      }
    }
  }

  /** Growing appends the page's addresses and leaves the live blocks alone. */
  lemma GrowFacts(s: seq<Block>, frame: nat)
    ensures Extent(Grow(s, frame)) == Extent(s) + Range(PAGE * frame, PAGE)
    ensures Canonical(s) ==> Canonical(Grow(s, frame))
    ensures Live(Grow(s, frame)) == Live(s)
    ensures UsedBytes(Grow(s, frame)) == UsedBytes(s)
  {
    GrowExtent(s, frame);
    GrowUsed(s, frame);
    GrowLive(s, frame);
    if Canonical(s) {
      GrowCanonical(s, frame);
    }
  }

  lemma {:induction false} GrowAllFacts(s: seq<Block>, frames: seq<nat>)
    ensures Extent(GrowAll(s, frames)) == Extent(s) + PageBytes(frames)
    ensures Canonical(s) ==> Canonical(GrowAll(s, frames))
    ensures Live(GrowAll(s, frames)) == Live(s)
    ensures UsedBytes(GrowAll(s, frames)) == UsedBytes(s)
    decreases |frames|
  {
    if frames != [] {
      GrowFacts(s, frames[0]);
      GrowAllFacts(Grow(s, frames[0]), frames[1..]);
      Assoc(Extent(s), Range(PAGE * frames[0], PAGE), PageBytes(frames[1..]));
    }
  }

  lemma {:induction false} UsedConcat(s: seq<Block>, t: seq<Block>)
    ensures UsedBytes(s + t) == UsedBytes(s) + UsedBytes(t)
  {
    if s == [] {
      assert s + t == t;
    } else {
      UsedConcat(s[1..], t);
      assert (s + t)[1..] == s[1..] + t;
    }
  }

  /** Used bytes never exceed what the heap owns. */
  lemma {:induction false} UsedBound(s: seq<Block>)
    ensures UsedBytes(s) <= |Extent(s)|
  {
    if s != [] {
      UsedBound(s[1..]);
    }
  }

  // ---- kfree ----------------------------------------------------------------

  function Release(s: seq<Block>, addr: nat): (r: seq<Block>)
    ensures |r| == |s|
    ensures forall i | 0 <= i < |s| :: r[i] == if s[i].addr == addr then s[i].(free := true) else s[i]
  {
    seq(|s|, i requires 0 <= i < |s| => if s[i].addr == addr then s[i].(free := true) else s[i])
  }

  function Merge(b: Block, c: Block): Block {
    b.(size := b.size + HEADER + c.size)
  }

  /** The coalescing pass: stay on a block while it can absorb its successor. */
  function Coalesce(s: seq<Block>): seq<Block>
    decreases |s|
  {
    if |s| < 2 then s
    else if Mergeable(s[0], s[1]) then Coalesce([Merge(s[0], s[1])] + s[2..])
    else [s[0]] + Coalesce(s[1..])
  }

  function Kfree(s: seq<Block>, addr: nat): seq<Block> {
    Coalesce(Release(s, addr))
  }

  lemma {:induction false} ReleaseFacts(s: seq<Block>, addr: nat)
    ensures Extent(Release(s, addr)) == Extent(s)
    ensures Live(Release(s, addr)) == set b | b in Live(s) && b.addr != addr
  {
    var r := Release(s, addr);
    if s != [] {
      ReleaseFacts(s[1..], addr);
      assert Release(s[1..], addr) == r[1..];
    }
    forall b ensures b in Live(r) <==> b in Live(s) && b.addr != addr {
      if b in Live(r) {
        var i :| 0 <= i < |r| && r[i] == b;
        assert s[i] == b;
      }
      if b in Live(s) && b.addr != addr {
        var i :| 0 <= i < |s| && s[i] == b;
        assert r[i] == b;
      }
    }
  }

  lemma MergeExtent(b: Block, c: Block)
    requires Mergeable(b, c)
    ensures Extent([Merge(b, c)]) == Extent([b, c])
  {
    PairExtent(b, c);
    SingleExtent(Merge(b, c));
    RangeSplit(b.addr, HEADER + b.size, HEADER + c.size);
  }

  lemma {:induction false} CoalesceExtent(s: seq<Block>)
    ensures Extent(Coalesce(s)) == Extent(s)
    decreases |s|
  {
    if |s| >= 2 {
      if Mergeable(s[0], s[1]) {
        CoalesceExtent([Merge(s[0], s[1])] + s[2..]);
        MergeExtent(s[0], s[1]);
        ExtentReplace([], [Merge(s[0], s[1])], [s[0], s[1]], s[2..]);
        assert [] + [Merge(s[0], s[1])] == [Merge(s[0], s[1])] && s == [] + [s[0], s[1]] + s[2..];
      } else {
        CoalesceExtent(s[1..]);
        assert Coalesce(s)[1..] == Coalesce(s[1..]);
      }
    }
  }

  /** One pass reaches canonical form from any list, whatever it merges on the way. */
  lemma {:induction false} CoalesceCanonical(s: seq<Block>)
    ensures Canonical(Coalesce(s))
    ensures s != [] ==> Coalesce(s) != [] && Coalesce(s)[0].addr == s[0].addr && Coalesce(s)[0].free == s[0].free
    ensures s != [] && !s[0].free ==> Coalesce(s)[0] == s[0]
    decreases |s|
  {
    if |s| >= 2 {
      if Mergeable(s[0], s[1]) {
        CoalesceCanonical([Merge(s[0], s[1])] + s[2..]);
      } else {
        CoalesceCanonical(s[1..]);
        var t := Coalesce(s[1..]);
        forall k | 0 <= k < |t| ensures !Mergeable(([s[0]] + t)[k], ([s[0]] + t)[k + 1]) {
          if k > 0 {
            assert !Mergeable(t[k - 1], t[k]);
          }
        }
      }
    }
  }

  lemma {:induction false} CoalesceLive(s: seq<Block>)
    ensures Live(Coalesce(s)) == Live(s)
    ensures UsedBytes(Coalesce(s)) == UsedBytes(s)
    decreases |s|
  {
    if |s| >= 2 {
      assert s == [s[0], s[1]] + s[2..] && s[1..][1..] == s[2..];
      if Mergeable(s[0], s[1]) {
        var t := [Merge(s[0], s[1])] + s[2..];
        CoalesceLive(t);
        assert t[1..] == s[2..];
      } else {
        CoalesceLive(s[1..]);
        LiveConcat([s[0]], s[1..]);
        LiveConcat([s[0]], Coalesce(s[1..]));
        assert s == [s[0]] + s[1..] && Coalesce(s)[1..] == Coalesce(s[1..]);
      }
    }
  }

  lemma CoalesceFacts(s: seq<Block>)
    ensures Extent(Coalesce(s)) == Extent(s)
    ensures Canonical(Coalesce(s))
    ensures Live(Coalesce(s)) == Live(s)
    ensures UsedBytes(Coalesce(s)) == UsedBytes(s)
  {
    CoalesceExtent(s);
    CoalesceCanonical(s);
    CoalesceLive(s);
  }

  // ---- theorems -------------------------------------------------------------

  /** Freeing what was just allocated restores the list, extended by the grown pages. */
  lemma RoundTrip(s: seq<Block>, frames: seq<nat>, n: nat)
    requires Canonical(s) && Distinct(Extent(s) + PageBytes(frames))
    requires FirstFit(GrowAll(s, frames), n) < |GrowAll(s, frames)|
    ensures var big := GrowAll(s, frames);
            var i := FirstFit(big, n);
            Kfree(Carve(big, i, n), big[i].addr) == big
  {
    GrowAllFacts(s, frames);
    var big := GrowAll(s, frames);
    var i := FirstFit(big, n);
    var after := Carve(big, i, n);
    CarveFacts(big, i, n);
    ReleaseFacts(after, big[i].addr);
    CoalesceFacts(Release(after, big[i].addr));
    forall b | b in Live(big) ensures b.addr != big[i].addr {
      if b.addr == big[i].addr {
        SameAddress(big, i, b);
      }
    }
    CanonicalUnique(Kfree(after, big[i].addr), big);
  }

  function FreeAll(s: seq<Block>, order: seq<nat>): seq<Block>
    decreases |order|
  {
    if order == [] then s else FreeAll(Kfree(s, order[0]), order[1..])
  }

  lemma {:induction false} FreeAllFacts(s: seq<Block>, order: seq<nat>)
    requires Canonical(s)
    ensures Extent(FreeAll(s, order)) == Extent(s)
    ensures Canonical(FreeAll(s, order))
    ensures Live(FreeAll(s, order)) == set b | b in Live(s) && b.addr !in order
    decreases |order|
  {
    if order != [] {
      ReleaseFacts(s, order[0]);
      CoalesceFacts(Release(s, order[0]));
      FreeAllFacts(Kfree(s, order[0]), order[1..]);
      assert forall a :: a in order <==> a == order[0] || a in order[1..];
    }
  }

  /** The order in which blocks are freed does not show in the result. */
  lemma FreeOrderIrrelevant(s: seq<Block>, one: seq<nat>, two: seq<nat>)
    requires Canonical(s) && Distinct(Extent(s))
    requires forall a :: a in one <==> a in two
    ensures FreeAll(s, one) == FreeAll(s, two)
  {
    FreeAllFacts(s, one);
    FreeAllFacts(s, two);
    CanonicalUnique(FreeAll(s, one), FreeAll(s, two));
  }

  // ---- what one kmalloc does ------------------------------------------------

  /** `p` is what kmalloc of `n` bytes returns when it obtained `frames`, in that order:
      it grew only while nothing fitted, and took the first block that did. */
  ghost predicate Allocates(s: seq<Block>, frames: seq<nat>, n: nat, after: seq<Block>, p: nat) {
    var big := GrowAll(s, frames);
    var i := FirstFit(big, n);
    && (forall k | 0 <= k < |frames| :: NothingFits(GrowAll(s, frames[..k]), n))
    && if p == 0 then NothingFits(big, n) && after == big
       else i < |big| && after == Carve(big, i, n) && p == big[i].addr + HEADER
  }

  ghost predicate NothingFits(s: seq<Block>, n: nat) {
    forall b | b in s :: !Fits(b, n)
  }

  lemma AllocatesAtOnce(s: seq<Block>, n: nat)
    requires !NothingFits(s, n)
    ensures FirstFit(s, n) < |s|
    ensures var i := FirstFit(s, n);
            s[i].addr + HEADER > 0 && Allocates(s, [], n, Carve(s, i, n), s[i].addr + HEADER)
  {
    var b :| b in s && Fits(b, n);
    var j :| 0 <= j < |s| && s[j] == b;
  }

  lemma AllocatesNot(s: seq<Block>, n: nat)
    requires NothingFits(s, n)
    ensures Allocates(s, [], n, s, 0)
  {
  }

  lemma AllocatesAfterGrowth(s: seq<Block>, frame: nat, more: seq<nat>, n: nat, after: seq<Block>, p: nat)
    requires NothingFits(s, n) && Allocates(Grow(s, frame), more, n, after, p)
    ensures Allocates(s, [frame] + more, n, after, p)
  {
    var frames := [frame] + more;
    assert frames[1..] == more;
    forall k | 0 <= k < |frames| ensures NothingFits(GrowAll(s, frames[..k]), n) {
      if k > 0 {
        assert frames[..k][1..] == more[..k - 1];
        assert NothingFits(GrowAll(Grow(s, frame), more[..k - 1]), n);
      }
    }
  }

  /** The returned payload is a block of its own, new to the live set and large enough;
      nothing else changes hands. */
  lemma AllocatedBlock(s: seq<Block>, frames: seq<nat>, n: nat, after: seq<Block>, p: nat)
    requires Canonical(s) && Distinct(Extent(s) + PageBytes(frames))
    requires Allocates(s, frames, n, after, p) && p != 0
    ensures exists b ::
            && b in after && b !in Live(s) && b.addr + HEADER == p && n <= b.size < n + 16
            && Live(after) == Live(s) + {b} && UsedBytes(after) == UsedBytes(s) + b.size + 12
    ensures Extent(after) == Extent(s) + PageBytes(frames) && Canonical(after)
    ensures Kfree(after, p - HEADER) == GrowAll(s, frames)
  {
    GrowAllFacts(s, frames);
    var big := GrowAll(s, frames);
    var i := FirstFit(big, n);
    CarveFacts(big, i, n);
    CarveUsed(big, i, n);
    RoundTrip(s, frames, n);
    var b := after[i];
    if b in Live(s) {
      SameAddress(big, i, b);
    }
  }

  /** Whatever was allocated on the way from `s` to `after`, freeing it in any order
      brings back `s`, extended by the pages grown, and its byte count. */
  lemma FreeingUndoes(s: seq<Block>, frames: seq<nat>, after: seq<Block>, order: seq<nat>)
    requires Canonical(s) && Canonical(after) && Distinct(Extent(after))
    requires Extent(after) == Extent(s) + PageBytes(frames) && Live(s) <= Live(after)
    requires forall b | b in Live(after) :: b in Live(s) <==> b.addr !in order
    ensures FreeAll(after, order) == GrowAll(s, frames)
    ensures UsedBytes(FreeAll(after, order)) == UsedBytes(s)
  {
    GrowAllFacts(s, frames);
    FreeAllFacts(after, order);
    CanonicalUnique(FreeAll(after, order), GrowAll(s, frames));
  }

  /** Pointers a client holds: payloads of blocks in use. */
  ghost predicate Holding(s: seq<Block>, pointers: set<nat>) {
    forall p | p in pointers :: PayloadOf(s, p)
  }

  ghost predicate PayloadOf(s: seq<Block>, p: nat) {
    exists b :: b in Live(s) && b.addr + HEADER == p
  }

  lemma HoldingLive(s: seq<Block>, after: seq<Block>, pointers: set<nat>)
    requires Holding(s, pointers) && Live(s) <= Live(after)
    ensures Holding(after, pointers)
  {
    forall q | q in pointers ensures PayloadOf(after, q) {
      assert PayloadOf(s, q);
    }
  }

  /** An allocation adds its pointer, new to the client, to those held. */
  lemma HoldingMore(s: seq<Block>, frames: seq<nat>, n: nat, after: seq<Block>, p: nat, pointers: set<nat>)
    requires Canonical(s) && Distinct(Extent(s) + PageBytes(frames)) && Holding(s, pointers)
    requires Allocates(s, frames, n, after, p)
    ensures Holding(after, if p == 0 then pointers else pointers + {p})
    ensures p != 0 ==> p !in pointers
  {
    if p != 0 {
      AllocatedBlock(s, frames, n, after, p);
      var b :| b in after && b !in Live(s) && b.addr + HEADER == p && Live(after) == Live(s) + {b};
      HoldingNew(s, after, b, p, pointers);
    } else {
      GrowAllFacts(s, frames);
      HoldingLive(s, after, pointers);
    }
  }

  lemma HoldingNew(s: seq<Block>, after: seq<Block>, b: Block, p: nat, pointers: set<nat>)
    requires Distinct(Extent(after)) && Holding(s, pointers) && b.addr + HEADER == p
    requires b in after && b !in Live(s) && Live(after) == Live(s) + {b}
    ensures Holding(after, pointers + {p}) && p !in pointers
  {
    HoldingLive(s, after, pointers);
    assert PayloadOf(after, p) by { assert b in Live(after); }
    if p in pointers {
      assert PayloadOf(s, p);
      var c :| c in Live(s) && c.addr + HEADER == p;
      assert c in Live(after);
      var i :| 0 <= i < |after| && after[i] == b;
      SameAddress(after, i, c);
    }
  }

  /** Freeing one pointer leaves the others good. */
  lemma HoldingLess(s: seq<Block>, p: nat, pointers: set<nat>)
    requires Holding(s, pointers) && p >= HEADER
    ensures Holding(Kfree(s, p - HEADER), pointers - {p})
  {
    ReleaseFacts(s, p - HEADER);
    CoalesceFacts(Release(s, p - HEADER));
    forall q | q in pointers - {p} ensures PayloadOf(Kfree(s, p - HEADER), q) {
      assert PayloadOf(s, q);
    }
  }

  /** Payloads of different pointers never overlap. */
  lemma PayloadsApart(s: seq<Block>, b: Block, c: Block)
    requires Distinct(Extent(s)) && b in s && c in s && b != c
    ensures b.End() <= c.addr || c.End() <= b.addr
  {
    var i :| 0 <= i < |s| && s[i] == b;
    var j :| 0 <= j < |s| && s[j] == c;
    Separate(s, i, j);
  }
}
