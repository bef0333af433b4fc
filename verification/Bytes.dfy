/** Bytes and little-endian words in 32-bit arithmetic. */
module Bytes {
  const TWO_32: nat := 0x1_0000_0000

  type Byte = b: int | 0 <= b < 256

  function Wrap(n: nat): nat {
    n % TWO_32
  }

  function Word16(s: seq<Byte>, at: nat): (w: nat)
    requires at + 2 <= |s|
    ensures w < 0x1_0000
  {
    (s[at] as int) + 256 * (s[at + 1] as int)
  }

  function Word32(s: seq<Byte>, at: nat): (w: nat)
    requires at + 4 <= |s|
    ensures w < TWO_32
  {
    Word16(s, at) + 0x1_0000 * Word16(s, at + 2)
  }
}

/** Words as they are written: the lowest byte first. */
module LittleEndian {
  import opened Bytes

  function LE16(n: nat): (s: seq<Byte>)
    requires n < 0x1_0000
    ensures |s| == 2
  {
    [n % 256, n / 256]
  }

  function LE32(n: nat): (s: seq<Byte>)
    requires n < TWO_32
    ensures |s| == 4
  {
    LE16(n % 0x1_0000) + LE16(n / 0x1_0000)
  }

  lemma Reads16(s: seq<Byte>, at: nat, n: nat)
    requires n < 0x1_0000 && at + 2 <= |s| && s[at..at + 2] == LE16(n)
    ensures Word16(s, at) == n
  {
    assert s[at] == s[at..at + 2][0] && s[at + 1] == s[at..at + 2][1];
  }

  lemma Reads32(s: seq<Byte>, at: nat, n: nat)
    requires n < TWO_32 && at + 4 <= |s| && s[at..at + 4] == LE32(n)
    ensures Word32(s, at) == n
  {
    assert s[at..at + 2] == LE32(n)[..2] && s[at + 2..at + 4] == LE32(n)[2..];
    Reads16(s, at, n % 0x1_0000);
    Reads16(s, at + 2, n / 0x1_0000);
  }
}

/** Ranges of sequences, and sequences cut into chunks of equal length. */
module Chunks {
  function Take<T>(s: seq<T>, k: nat): seq<T> {
    if k <= |s| then s[..k] else s
  }

  function Drop<T>(s: seq<T>, k: nat): seq<T> {
    if k <= |s| then s[k..] else []
  }

  /** Elements [offset, offset + count) of `s`, as far as `s` has them. */
  function Slice<T>(s: seq<T>, offset: nat, count: nat): seq<T> {
    Take(Drop(s, offset), count)
  }

  lemma TakeAfter<T>(a: seq<T>, b: seq<T>, k: nat, j: nat)
    requires k == |a| + j
    ensures Take(a + b, k) == a + Take(b, j)
  {
  }

  lemma DropAfter<T>(a: seq<T>, b: seq<T>, k: nat, j: nat)
    requires k == |a| + j
    ensures Drop(a + b, k) == Drop(b, j)
  {
  }

  lemma SliceTake<T>(s: seq<T>, t: seq<T>, offset: nat, count: nat)
    requires Take(s, offset + count) == Take(t, offset + count)
    ensures Slice(s, offset, count) == Slice(t, offset, count)
  {
    var k := offset + count;
    assert Slice(s, offset, count) == Drop(Take(s, k), offset);
    assert Slice(t, offset, count) == Drop(Take(t, k), offset);
  }

  lemma SliceAcross<T>(a: seq<T>, b: seq<T>, offset: nat, count: nat, rest: nat)
    requires offset <= |a| && offset + count == |a| + rest
    ensures Slice(a + b, offset, count) == a[offset..] + Slice(b, 0, rest)
  {
    assert Drop(a + b, offset) == a[offset..] + b;
    TakeAfter(a[offset..], b, count, rest);
  }

  lemma SliceWithin<T>(a: seq<T>, b: seq<T>, offset: nat, count: nat)
    requires offset + count <= |a|
    ensures Slice(a + b, offset, count) == a[offset..offset + count] && Slice(b, 0, 0) == []
  {
  }

  ghost function Flat<T>(p: seq<seq<T>>): seq<T> {
    if p == [] then [] else p[0] + Flat(p[1..])
  }

  lemma FlatCons<T>(a: seq<T>, p: seq<seq<T>>)
    ensures Flat([a] + p) == a + Flat(p)
  {
    assert ([a] + p)[1..] == p;
  }

  ghost predicate Uniform<T>(p: seq<seq<T>>, size: nat) {
    forall i | 0 <= i < |p| :: |p[i]| == size
  }

  /** The length of `k` chunks. */
  ghost function Full(k: nat, size: nat): nat {
    if k == 0 then 0 else size + Full(k - 1, size)
  }

  lemma {:induction false} FullIs(k: nat, size: nat)
    ensures Full(k, size) == size * k
  {
    if k > 0 {
      FullIs(k - 1, size);
      assert size * k == size * (k - 1) + size;
    }
  }

  lemma {:induction false} FullAdd(j: nat, k: nat, size: nat)
    requires size > 0
    ensures Full(j + k, size) == Full(j, size) + Full(k, size)
    ensures Full(j, size) >= j && (j > 0 ==> Full(j, size) >= j - 1 + size)
  {
    if j > 0 {
      FullAdd(j - 1, k, size);
    }
  }

  function Quotient(offset: nat, size: nat): nat
    requires size > 0
  {
    offset / size
  }

  function Remainder(offset: nat, size: nat): (r: nat)
    requires size > 0
    ensures r < size
  {
    offset % size
  }

  lemma DivMod(offset: nat, size: nat)
    requires size > 0
    ensures Full(Quotient(offset, size), size) + Remainder(offset, size) == offset
  {
    FullIs(offset / size, size);
  }

  lemma {:induction false} FlatLength<T>(p: seq<seq<T>>, size: nat)
    requires Uniform(p, size)
    ensures |Flat(p)| == Full(|p|, size)
  {
    if p != [] {
      FlatLength(p[1..], size);
    }
  }

  /** Dropping whole chunks and a remainder. */
  lemma {:induction false} FlatDrop<T>(p: seq<seq<T>>, size: nat, k: nat, rem: nat, at: nat)
    requires Uniform(p, size) && at == Full(k, size) + rem
    ensures Drop(Flat(p), at) == Drop(Flat(Drop(p, k)), rem)
    decreases k
  {
    if k == 0 {
      assert Drop(p, 0) == p;
    } else if p != [] {
      var rest := p[1..];
      FlatDrop(rest, size, k - 1, rem, at - size);
      DropAfter(p[0], Flat(rest), at, at - size);
      assert Drop(p, k) == Drop(rest, k - 1);
    }
  }

  /** The first chunks determine the elements up to their length. */
  lemma {:induction false} FlatPrefix<T>(p: seq<seq<T>>, q: seq<seq<T>>, size: nat, k: nat)
    requires Uniform(q, size) && p <= q && (p == q || k <= Full(|p|, size))
    ensures Take(Flat(p), k) == Take(Flat(q), k)
  {
    if p != [] {
      if k > size {
        FlatPrefix(p[1..], q[1..], size, k - size);
        TakeAfter(p[0], Flat(p[1..]), k, k - size);
        TakeAfter(p[0], Flat(q[1..]), k, k - size);
      }
    }
  }

  /** A range of `count` elements past `k` chunks and a remainder needs at most `count` more chunks. */
  lemma RangeOfChunks<T>(p: seq<seq<T>>, q: seq<seq<T>>, size: nat, k: nat, rem: nat, at: nat, count: nat)
    requires Uniform(q, size) && p <= q && (p == q || |p| == k + count) && rem < size && at == Full(k, size) + rem
    ensures Slice(Flat(Drop(p, k)), rem, count) == Slice(Flat(q), at, count)
  {
    FlatDrop(p, size, k, rem, at);
    RangeFits(p, q, size, k, rem, count);
    SameRange(p, q, size, at, count);
  }

  lemma SameRange<T>(p: seq<seq<T>>, q: seq<seq<T>>, size: nat, at: nat, count: nat)
    requires Uniform(q, size) && p <= q && (p == q || count == 0 || at + count <= Full(|p|, size))
    ensures Slice(Flat(p), at, count) == Slice(Flat(q), at, count)
  {
    if count > 0 {
      FlatPrefix(p, q, size, at + count);
      SliceTake(Flat(p), Flat(q), at, count);
    }
  }

  lemma RangeFits<T>(p: seq<seq<T>>, q: seq<seq<T>>, size: nat, k: nat, rem: nat, count: nat)
    requires rem < size && (p == q || |p| == k + count)
    ensures p == q || count == 0 || Full(k, size) + rem + count <= Full(|p|, size)
  {
    FullAdd(k, count, size);
    FullAdd(count, 0, size);
  }
}

/** Writing a sequence into a buffer. */
module Buffers {
  /** `after` is `before` with `s` at `base`; when `s` does not reach, the rest is kept. */
  ghost predicate Wrote<T>(before: seq<T>, base: nat, s: seq<T>, after: seq<T>) {
    && base + |s| <= |before| == |after|
    && after[..base] == before[..base] && after[base..base + |s|] == s
    && after[base + |s|..] == before[base + |s|..]
  }

  lemma WroteMore<T>(a: seq<T>, base: nat, s: seq<T>, b: seq<T>, at: nat, t: seq<T>, c: seq<T>)
    requires Wrote(a, base, s, b) && at == base + |s| && Wrote(b, at, t, c)
    ensures Wrote(a, base, s + t, c)
  {
    assert c[..base] == c[..base + |s|][..base] == b[..base];
    assert c[base..base + |s|] == c[..base + |s|][base..] == b[base..base + |s|];
    assert c[base..base + |s + t|] == c[base..base + |s|] + c[base + |s|..base + |s| + |t|];
    assert b[base + |s|..][|t|..] == a[base + |s|..][|t|..];
    assert b[base + |s| + |t|..] == b[base + |s|..][|t|..] && a[base + |s + t|..] == a[base + |s|..][|t|..];
  }

  /** All of `s` arrived, or nothing was written for want of memory. */
  ghost predicate Arrived<T>(s: seq<T>, before: seq<T>, base: nat, after: seq<T>, n: nat, noMemory: bool) {
    (n == |s| && Wrote(before, base, s, after)) || (n == 0 && after == before && noMemory)
  }
}
