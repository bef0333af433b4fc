/** The physical frame allocator: a bitmap of 32-bit words, one bit per 4 KB frame. */
module Frames {
  const PAGE_SIZE: nat := 4096
  const MAX_BLOCKS: nat := 32768
  const RESERVED: nat := 1024
  /** Pages 0-16 MB: the window through which the kernel reaches physical frames. */
  const WINDOW: nat := 4096

  /** A bitmap word, bit 0 first. */
  type Word = w: seq<bool> | |w| == 32 witness seq(32, _ => false)

  /** `w == 0xFFFFFFFF` */
  predicate Full(w: Word) {
    forall j | 0 <= j < 32 :: w[j]
  }

  predicate Bit(words: seq<Word>, f: nat)
    requires f < 32 * |words|
  {
    words[f / 32][f % 32]
  }

  function Marked(words: seq<Word>): set<nat> {
    set f: nat | f < 32 * |words| && Bit(words, f)
  }

  /** Writing one bit of one word changes the mark of one frame. */
  lemma MarkOne(words: seq<Word>, f: nat, b: bool)
    requires f < 32 * |words|
    ensures Marked(words[f / 32 := words[f / 32][f % 32 := b]])
            == if b then Marked(words) + {f} else Marked(words) - {f}
  {
    var after := words[f / 32 := words[f / 32][f % 32 := b]];
    forall g: nat | g < 32 * |words| ensures Bit(after, g) <==> if g == f then b else Bit(words, g) {
    }
  }

  /** The lowest unmarked frame in `[from, limit)`, or `limit` when there is none. */
  function LowestFree(words: seq<Word>, from: nat, limit: nat): (f: nat)
    requires from <= limit <= 32 * |words|
    ensures from <= f <= limit
    ensures forall g: nat | from <= g < f :: Bit(words, g)
    ensures f < limit ==> !Bit(words, f)
    decreases limit - from
  {
    if from == limit || !Bit(words, from) then from else LowestFree(words, from + 1, limit)
  }

  lemma {:induction false} LowestFreeIs(words: seq<Word>, from: nat, limit: nat, f: nat)
    requires from <= f <= limit <= 32 * |words|
    requires (f < limit ==> !Bit(words, f)) && forall g: nat | from <= g < f :: Bit(words, g)
    ensures LowestFree(words, from, limit) == f
    decreases limit - from
  {
    if from < f {
      LowestFreeIs(words, from + 1, limit, f);
    }
  }

  /** The unmarked frames in `[from, limit)`, lowest first. */
  ghost function FreeFrom(words: seq<Word>, from: nat, limit: nat): (s: seq<nat>)
    requires from <= limit <= 32 * |words|
    decreases limit - from
  {
    if from == limit then []
    else if Bit(words, from) then FreeFrom(words, from + 1, limit)
    else [from] + FreeFrom(words, from + 1, limit)
  }

  lemma {:induction false} FreeHead(words: seq<Word>, from: nat, limit: nat)
    requires from <= limit <= 32 * |words|
    ensures FreeFrom(words, from, limit) == [] <==> LowestFree(words, from, limit) == limit
    ensures FreeFrom(words, from, limit) != [] ==> FreeFrom(words, from, limit)[0] == LowestFree(words, from, limit)
    decreases limit - from
  {
    if from < limit {
      FreeHead(words, from + 1, limit);
    }
  }

  ghost predicate FreeOne(words: seq<Word>, from: nat, limit: nat, f: nat) {
    from <= f < limit <= 32 * |words| && !Bit(words, f)
  }

  ghost predicate Ascending(s: seq<nat>) {
    forall i, j | 0 <= i < j < |s| :: s[i] < s[j]
  }

  lemma {:induction false} FreeAscend(words: seq<Word>, from: nat, limit: nat)
    requires from <= limit <= 32 * |words|
    ensures var s := FreeFrom(words, from, limit);
            Ascending(s) && forall i | 0 <= i < |s| :: FreeOne(words, from, limit, s[i])
    decreases limit - from
  {
    if from < limit {
      FreeAscend(words, from + 1, limit);
      var rest := FreeFrom(words, from + 1, limit);
      assert forall i | 0 <= i < |rest| ::
          FreeOne(words, from + 1, limit, rest[i]) ==> FreeOne(words, from, limit, rest[i]);
    }
  }

  ghost predicate SameBits(words: seq<Word>, after: seq<Word>, from: nat) {
    |after| == |words| && forall g: nat | from <= g < 32 * |words| :: Bit(after, g) <==> Bit(words, g)
  }

  lemma {:induction false} FreeSame(words: seq<Word>, after: seq<Word>, low: nat, from: nat, limit: nat)
    requires low <= from <= limit <= 32 * |words| && SameBits(words, after, low)
    ensures FreeFrom(after, from, limit) == FreeFrom(words, from, limit)
    decreases limit - from
  {
    if from < limit {
      assert Bit(after, from) <==> Bit(words, from);
      FreeSame(words, after, low, from + 1, limit);
    }
  }

  lemma BitsAfter(words: seq<Word>, after: seq<Word>, f: nat)
    requires |after| == |words| && Marked(after) == Marked(words) + {f}
    ensures forall g: nat | g < 32 * |words| :: Bit(after, g) <==> g == f || Bit(words, g)
  {
    forall g: nat | g < 32 * |words| ensures Bit(after, g) <==> g == f || Bit(words, g) {
      assert Bit(after, g) <==> g in Marked(after);
      assert Bit(words, g) <==> g in Marked(words);
    }
  }

  /** Marking the lowest free frame leaves the others, in the same order. */
  lemma {:induction false} FreeAfter(words: seq<Word>, after: seq<Word>, from: nat, limit: nat, f: nat)
    requires |after| == |words| && from <= limit <= 32 * |words| && f == LowestFree(words, from, limit) < limit
    requires forall g: nat | g < 32 * |words| :: Bit(after, g) <==> g == f || Bit(words, g)
    ensures FreeFrom(words, from, limit) == [f] + FreeFrom(after, from, limit)
    decreases limit - from
  {
    if from == f {
      assert SameBits(words, after, f + 1);
      FreeSame(words, after, f + 1, f + 1, limit);
    } else {
      FreeAfter(words, after, from + 1, limit, f);
    }
  }

  /** Exactly the frames below `n` are marked. */
  ghost predicate MarkedBelow(words: seq<Word>, n: nat) {
    forall f: nat :: f in Marked(words) <==> f < n
  }

  /** Then frame `n` is the lowest free one. */
  lemma LowestIsCount(words: seq<Word>, limit: nat, n: nat)
    requires MarkedBelow(words, n) && limit <= 32 * |words|
    ensures LowestFree(words, 0, limit) == if n < limit then n else limit
  {
    var f := if n < limit then n else limit;
    forall g: nat | g < f ensures Bit(words, g) {
      assert g in Marked(words);
    }
    assert n !in Marked(words);
    LowestFreeIs(words, 0, limit, f);
  }

  /** Marking it keeps the marked frames the lowest ones. */
  lemma NextMarked(words: seq<Word>, after: seq<Word>, limit: nat, n: nat)
    requires MarkedBelow(words, n) && limit <= 32 * |words| && LowestFree(words, 0, limit) < limit
    requires Marked(after) == Marked(words) + {LowestFree(words, 0, limit)}
    ensures MarkedBelow(after, n + 1)
  {
    LowestIsCount(words, limit, n);
  }

  ghost function Elements(s: seq<nat>): set<nat> {
    set f | f in s
  }

  /** Consecutive frames from `f` on. */
  ghost function Run(f: nat, n: nat): seq<nat> {
    seq(n, i => f + i)
  }

  /** Frames `n` and up are free. */
  lemma {:induction false} FreeRun(words: seq<Word>, from: nat, limit: nat, n: nat)
    requires MarkedBelow(words, n) && n <= from <= limit <= 32 * |words|
    ensures FreeFrom(words, from, limit) == Run(from, limit - from)
    decreases limit - from
  {
    if from < limit {
      assert from !in Marked(words);
      FreeRun(words, from + 1, limit, n);
      assert [from] + Run(from + 1, limit - from - 1) == Run(from, limit - from);
    } else {
      assert Run(from, 0) == [];
    }
  }

  // ---- what future allocations yield ----------------------------------------

  /** The frames that calls of the allocator will hand out, in that order, when it may hand
      out `room` more and scans up to `limit`. */
  ghost function SupplyOf(words: seq<Word>, limit: nat, room: nat): (s: seq<nat>)
    requires limit <= 32 * |words|
    ensures forall i | 0 <= i < |s| :: s[i] < limit && s[i] !in Marked(words)
    ensures Ascending(s)
  {
    FreeAscend(words, 0, limit);
    var free := FreeFrom(words, 0, limit);
    assert forall i | 0 <= i < |free| :: FreeOne(words, 0, limit, free[i]);
    if |free| <= room then free else free[..room]
  }

  lemma SupplyHead(words: seq<Word>, limit: nat, room: nat)
    requires limit <= 32 * |words|
    ensures SupplyOf(words, limit, room) == [] <==> room == 0 || LowestFree(words, 0, limit) == limit
    ensures SupplyOf(words, limit, room) != [] ==> SupplyOf(words, limit, room)[0] == LowestFree(words, 0, limit)
  {
    FreeHead(words, 0, limit);
  }

  /** An allocation takes the first frame of the supply and leaves the rest. */
  lemma SupplyAfter(words: seq<Word>, after: seq<Word>, limit: nat, room: nat)
    requires |after| == |words| && limit <= 32 * |words| && LowestFree(words, 0, limit) < limit && room > 0
    requires Marked(after) == Marked(words) + {LowestFree(words, 0, limit)}
    ensures SupplyOf(words, limit, room) == [LowestFree(words, 0, limit)] + SupplyOf(after, limit, room - 1)
  {
    BitsAfter(words, after, LowestFree(words, 0, limit));
    FreeAfter(words, after, 0, limit, LowestFree(words, 0, limit));
  }

  lemma {:induction false} FreeSkip(words: seq<Word>, from: nat, limit: nat, n: nat)
    requires from <= n <= limit <= 32 * |words| && n == LowestFree(words, from, limit)
    ensures FreeFrom(words, from, limit) == FreeFrom(words, n, limit)
    decreases n - from
  {
    if from < n {
      FreeSkip(words, from + 1, limit, n);
    }
  }

  lemma SupplyRun(words: seq<Word>, limit: nat, room: nat, n: nat)
    requires MarkedBelow(words, n) && limit <= 32 * |words| && (n < limit ==> limit - n <= room)
    ensures SupplyOf(words, limit, room) == if n < limit then Run(n, limit - n) else []
  {
    LowestIsCount(words, limit, n);
    FreeHead(words, 0, limit);
    if n < limit {
      FreeRun(words, n, limit, n);
      FreeSkip(words, 0, limit, n);
    }
  }

  /** What the scan has found: full words, then a word whose first clear bit is `j`. */
  lemma ScanFound(words: seq<Word>, i: nat, j: nat, limit: nat)
    requires i < |words| && j < 32 && 32 * i + j < limit <= 32 * |words|
    requires forall k | 0 <= k < i :: Full(words[k])
    requires forall k: nat | k < j :: words[i][k]
    requires !words[i][j]
    ensures LowestFree(words, 0, limit) == 32 * i + j
  {
    forall g: nat | g < 32 * i + j ensures Bit(words, g) {
      if g < 32 * i {
        assert Full(words[g / 32]);
      } else {
        assert g / 32 == i && words[i][g - 32 * i];
      }
    }
    assert !Bit(words, 32 * i + j);
    LowestFreeIs(words, 0, limit, 32 * i + j);
  }

  /** Numbers below `n`, as a set with its size. */
  lemma {:induction false} FullBelow(n: nat, s: set<nat>)
    requires forall f | f in s :: f < n
    ensures |s| <= n
    ensures |s| == n <==> forall f: nat | f < n :: f in s
  {
    if n > 0 {
      var t := s - {n - 1};
      FullBelow(n - 1, t);
      assert forall f: nat | f < n - 1 :: f in t <==> f in s;
      if n - 1 in s {
        assert |t| == |s| - 1;
      } else {
        assert t == s;
      }
    } else {
      assert s == {};
    }
  }

  // ---- the allocator --------------------------------------------------------

  class FrameAllocator {
    const bitmap: array<Word>
    var totalBlocks: nat
    var usedBlocks: nat

    ghost predicate Shape()
      reads this
    {
      bitmap.Length == MAX_BLOCKS / 32 && totalBlocks <= MAX_BLOCKS
    }

    ghost predicate Valid()
      reads this, bitmap
    {
      Shape() && usedBlocks == |Used()|
    }

    /** `Valid`, after `Init`: the reserved low frames stay marked. */
    ghost predicate Ready()
      reads this, bitmap
    {
      Valid() && forall f: nat | f < RESERVED :: f in Used()
    }

    ghost function Used(): set<nat>
      reads this, bitmap
    {
      Marked(bitmap[..])
    }

    /** Number of frames the allocator can still hand out, at most. */
    ghost function Headroom(): nat
      reads this
    {
      if usedBlocks < totalBlocks then totalBlocks - usedBlocks else 0
    }

    /** The part of the bitmap the scan looks at: whole words only. */
    ghost function Scanned(): (n: nat)
      reads this, bitmap
      requires Shape()
      ensures n <= 32 * |bitmap[..]| && n <= totalBlocks
    {
      totalBlocks / 32 * 32
    }

    ghost function NextFrame(): nat
      reads this, bitmap
      requires Shape()
    {
      LowestFree(bitmap[..], 0, Scanned())
    }

    ghost predicate Exhausted()
      reads this, bitmap
      requires Shape()
    {
      usedBlocks >= totalBlocks || NextFrame() == Scanned()
    }

    /** The frames that calls of `AllocPage` will hand out, in that order. */
    ghost function Supply(): seq<nat>
      reads this, bitmap
      requires Shape()
    {
      SupplyOf(bitmap[..], Scanned(), Headroom())
    }

    /** No frame was ever given back: those in use are the lowest ones. */
    ghost predicate Packed()
      reads this, bitmap
    {
      MarkedBelow(bitmap[..], usedBlocks)
    }

    /** Static storage before boot. */
    constructor ()
      ensures Valid() && Used() == {} && usedBlocks == 0 && totalBlocks == 0
      ensures fresh(bitmap)
    {
      bitmap := new Word[MAX_BLOCKS / 32](_ => seq(32, _ => false));
      totalBlocks, usedBlocks := 0, 0;
      new;
      assert Used() == {};
    }

    method WriteBit(f: nat, b: bool)
      requires Shape() && f < MAX_BLOCKS
      modifies bitmap
      ensures Used() == if b then old(Used()) + {f} else old(Used()) - {f}
    {
      ghost var before := bitmap[..];
      bitmap[f / 32] := bitmap[f / 32][f % 32 := b];
      MarkOne(before, f, b);
      assert bitmap[..] == before[f / 32 := before[f / 32][f % 32 := b]];
    }

    /** The counter is not reset, so the allocator is consistent afterwards
        exactly when it had counted nothing before. */
    method Init(memSize: nat)
      requires Shape()
      modifies this, bitmap
      ensures Shape() && totalBlocks == (if memSize / 4096 > 32768 then 32768 else memSize / 4096)
      ensures forall f: nat :: f in Used() <==> f < 1024
      ensures usedBlocks == old(usedBlocks) + 1024
      ensures Ready() <==> old(usedBlocks) == 0
    {
      totalBlocks := memSize / PAGE_SIZE;
      if totalBlocks > MAX_BLOCKS {
        totalBlocks := MAX_BLOCKS;
      }
      label Sized:
      for i := 0 to MAX_BLOCKS / 32
        invariant forall k | 0 <= k < i :: bitmap[k] == seq(32, _ => false)
        invariant Shape() && totalBlocks == old@Sized(totalBlocks)
        invariant usedBlocks == old(usedBlocks)
      {
        bitmap[i] := seq(32, _ => false);
      }
      assert Used() == {};
      for i := 0 to RESERVED
        invariant Shape() && totalBlocks == old@Sized(totalBlocks)
        invariant forall f: nat :: f in Used() <==> f < i
        invariant usedBlocks == old(usedBlocks) + i
      {
        WriteBit(i, true);
        usedBlocks := usedBlocks + 1;
      }
      FullBelow(RESERVED, Used());
    }

    /** The scan of `pmm_alloc_page`: skip full words, then test bit by bit. */
    method Scan() returns (found: bool, bit: nat)
      requires Shape()
      ensures found <==> NextFrame() < Scanned()
      ensures found ==> bit == NextFrame()
    {
      for i := 0 to totalBlocks / 32
        invariant forall k | 0 <= k < i :: Full(bitmap[k])
      {
        if !Full(bitmap[i]) {
          for j := 0 to 32
            invariant forall k: nat | k < j :: bitmap[i][k]
          {
            bit := i * 32 + j;
            if !bitmap[bit / 32][bit % 32] {
              ScanFound(bitmap[..], i, j, Scanned());
              return true, bit;
            }
          }
          assert false;
        }
      }
      forall g: nat | g < Scanned() ensures Bit(bitmap[..], g) {
        assert Full(bitmap[g / 32]);
      }
      return false, 0;
    }

    /** First fit: the frame handed out is the lowest free one. */
    method AllocPage() returns (p: nat)
      requires Valid()
      modifies this`usedBlocks, bitmap
      ensures Valid()
      ensures old(Exhausted()) ==> p == 0 && unchanged(this) && unchanged(bitmap)
      ensures !old(Exhausted()) ==>
                && p == PAGE_SIZE * old(NextFrame()) && p / PAGE_SIZE == old(NextFrame())
                && old(NextFrame()) !in old(Used())
                && old(NextFrame()) < totalBlocks
                && Used() == old(Used()) + {old(NextFrame())}
                && usedBlocks == old(usedBlocks) + 1
                && old(Supply()) == [old(NextFrame())] + Supply()
      ensures old(Packed()) ==> Packed()
    {
      if usedBlocks >= totalBlocks {
        return 0;
      }
      var found, bit := Scan();
      if !found {
        return 0;
      }
      ghost var words := bitmap[..];
      WriteBit(bit, true);
      usedBlocks := usedBlocks + 1;
      SupplyAfter(words, bitmap[..], Scanned(), totalBlocks - usedBlocks + 1);
      if MarkedBelow(words, usedBlocks - 1) {
        NextMarked(words, bitmap[..], Scanned(), usedBlocks - 1);
      }
      return bit * PAGE_SIZE;
    }

    method FreePage(p: nat)
      requires Valid() && p / PAGE_SIZE < MAX_BLOCKS
      modifies this`usedBlocks, bitmap
      ensures Valid()
      ensures Used() == old(Used()) - {p / PAGE_SIZE}
    {
      var bit := p / PAGE_SIZE;
      if bitmap[bit / 32][bit % 32] {
        assert bit in Used() by { assert Bit(bitmap[..], bit); }
        WriteBit(bit, false);
        usedBlocks := usedBlocks - 1;
      } else {
        assert bit !in Used() by { assert !Bit(bitmap[..], bit); }
      }
    }

    /** How the next frame shows in the set of used ones. */
    lemma NextIs(f: nat)
      requires Shape() && f < Scanned() && f !in Used() && forall g: nat | g < f :: g in Used()
      ensures NextFrame() == f
    {
      forall g: nat | g < f ensures Bit(bitmap[..], g) {
        assert g in Used();
      }
      assert !Bit(bitmap[..], f);
      LowestFreeIs(bitmap[..], 0, Scanned(), f);
    }

    /** The supply ends when the allocator is exhausted, starts with the next frame, and
        holds frames that are not in use, each once. */
    lemma SupplyIs()
      requires Shape()
      ensures Exhausted() <==> Supply() == []
      ensures Supply() != [] ==> Supply()[0] == NextFrame()
      ensures forall i | 0 <= i < |Supply()| :: Supply()[i] < Scanned() && Supply()[i] !in Used()
      ensures Ascending(Supply())
    {
      SupplyHead(bitmap[..], Scanned(), Headroom());
    }

    /** While nothing is given back, frames are handed out in order: the next one is the
        count of those in use, and so on to the end of the scanned words. */
    lemma PackedNext()
      requires Valid() && Packed()
      ensures Exhausted() <==> usedBlocks >= Scanned()
      ensures !Exhausted() ==> NextFrame() == usedBlocks
      ensures Supply() == if usedBlocks < Scanned() then Run(usedBlocks, Scanned() - usedBlocks) else []
      ensures forall f | f in Used() :: f < usedBlocks
    {
      SupplyRun(bitmap[..], Scanned(), Headroom(), usedBlocks);
      SupplyIs();
    }

    /** The scan looks at whole words only: when every marked frame is a managed one,
        allocation fails exactly when every frame of those words is marked. */
    lemma ExhaustedIff()
      requires Valid()
      requires forall f | f in Used() :: f < totalBlocks
      ensures Exhausted() <==> forall f: nat | f < totalBlocks / 32 * 32 :: f in Used()
    {
      FullBelow(totalBlocks, Used());
      if forall f: nat | f < totalBlocks / 32 * 32 :: f in Used() {
        forall g: nat | g < Scanned() ensures Bit(bitmap[..], g) {
          assert g in Used();
        }
      } else {
        var f: nat :| f < totalBlocks / 32 * 32 && f !in Used();
        assert !Bit(bitmap[..], f);
      }
    }
  }
}
