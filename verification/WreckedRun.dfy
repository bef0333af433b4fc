/** A program that makes the kernel lose its page tables: it opens seven slots of its heap
    while table frames still lie in the window, fills them, and touches the eighth. */
module WreckedRun {
  import opened Frames
  import opened PagingFormat
  import opened UserHeapView
  import opened UserRuns

  /** The address of page `k` of the heap. */
  function PageAddr(k: nat): nat {
    PAGE_SIZE * (FIRST_PAGE + k)
  }

  /** One page of each of the first `j` slots. */
  function OpenSlots(j: nat): seq<Step> {
    if j == 0 then [] else OpenSlots(j - 1) + [Touch(PageAddr(ENTRIES * (j - 1)))]
  }

  /** The first `k` pages. */
  function FillPages(k: nat): seq<Step> {
    if k == 0 then [] else FillPages(k - 1) + [Touch(PageAddr(k - 1))]
  }

  /** The frames from `n` on are free. */
  ghost predicate FreeFromOn(p: Paging, n: nat) {
    n < MAX_BLOCKS && p.supply == Run(n, MAX_BLOCKS - n)
  }

  /** No page of the heap is mapped, and it has no tables. */
  ghost predicate Unused(u: UserView, n: nat) {
    && u.Good() && FreeFromOn(u.paging, n)
    && forall q: nat | FIRST_PAGE <= q < LAST_PAGE :: u.paging.view.At(q) == Absent && u.paging.Empty(q)
  }

  /** Page `q` is one of the first `k`, or the first of one of the first `j` slots. */
  predicate Touched(q: nat, j: nat, k: nat) {
    q < FIRST_PAGE + k || (q < FIRST_PAGE + ENTRIES * j && q % ENTRIES == 0)
  }

  /** The first `j` slots have tables, the pages touched are mapped, and frames from `n` on are free. */
  ghost predicate Grown(u: UserView, j: nat, k: nat, n: nat) {
    && u.brk == BRK_LIMIT && u.paging.view.Full() && |u.paging.slots| == ENTRIES && FreeFromOn(u.paging, n)
    && forall q: nat | FIRST_PAGE <= q < LAST_PAGE ::
         (u.paging.view.At(q) != Absent <==> Touched(q, j, k)) && (u.paging.Empty(q) <==> q >= FIRST_PAGE + ENTRIES * j)
  }

  lemma RunTail(n: nat, l: nat)
    requires l > 0
    ensures Run(n, l)[0] == n && Run(n, l)[1..] == Run(n + 1, l - 1)
  {
  }

  lemma TakeNext(p: Paging, n: nat)
    requires FreeFromOn(p, n) && n + 1 < MAX_BLOCKS
    ensures p.supply != [] && p.supply[0] == n && FreeFromOn(p.Took(1), n + 1)
    ensures p.Took(1).view == p.view && p.Took(1).slots == p.slots
  {
    RunTail(n, MAX_BLOCKS - n);
  }

  /** Touching the first page of the next slot, its table in the window. */
  lemma Open(u: UserView, j: nat, n: nat, q: nat)
    requires Grown(u, j, 0, n) && j < LAST_SLOT - FIRST_SLOT && n + 1 < WINDOW && q == FIRST_PAGE + ENTRIES * j
    ensures StepFate(u, Touch(PAGE_SIZE * q)) == Resumed && Grown(StepTo(u, Touch(PAGE_SIZE * q)), j + 1, 0, n + 2)
  {
    var p := u.paging;
    assert PAGE_SIZE * q / PAGE_SIZE == q && p.Empty(q) && !Touched(q, j, 0);
    TakeNext(p, n);
    TakeNext(p.Took(1), n + 1);
    ResumedIff(p, u.brk, q);
    assert u.InHeap(PAGE_SIZE * q) && p.supply[1] == p.Took(1).supply[0];
    var p' := Served(p, q);
    EntryParts(n + 1, USER_RW);
    assert p'.slots == p.slots[q / ENTRIES := (n + 1) * PAGE_SIZE + USER_RW];
    forall r: nat | FIRST_PAGE <= r < LAST_PAGE
      ensures p'.view.At(r) != Absent <==> Touched(r, j + 1, 0)
      ensures p'.Empty(r) <==> r >= FIRST_PAGE + ENTRIES * (j + 1)
    {
      assert p'.view.At(r) == if r == q then Entry(n, USER_RW) else p.view.At(r);
      assert r / ENTRIES == q / ENTRIES <==> q <= r < q + ENTRIES;
    }
  }

  /** Touching a page of a slot that has a table. */
  lemma Fill(u: UserView, j: nat, k: nat, n: nat, q: nat)
    requires Grown(u, j, k, n) && k < ENTRIES * j && j <= LAST_SLOT - FIRST_SLOT && q == FIRST_PAGE + k
    requires n + 1 < MAX_BLOCKS
    ensures StepFate(u, Touch(PAGE_SIZE * q)) == Resumed
    ensures Grown(StepTo(u, Touch(PAGE_SIZE * q)), j, k + 1, if k % ENTRIES == 0 then n else n + 1)
  {
    var p := u.paging;
    assert PAGE_SIZE * q / PAGE_SIZE == q && !p.Empty(q);
    assert q % ENTRIES == k % ENTRIES && u.InHeap(PAGE_SIZE * q);
    TakeNext(p, n);
    ResumedIff(p, u.brk, q);
    var v := StepTo(u, Touch(PAGE_SIZE * q)).paging.view;
    assert Touched(q, j, k) <==> k % ENTRIES == 0;
    assert !p.Took(1).Empty(q);
    forall r: nat | FIRST_PAGE <= r < LAST_PAGE ensures v.At(r) != Absent <==> Touched(r, j, k + 1) {
      assert r != q ==> v.At(r) == p.view.At(r);
      assert r != q ==> (Touched(r, j, k) <==> Touched(r, j, k + 1));
    }
    var u' := StepTo(u, Touch(PAGE_SIZE * q));
    assert forall r: nat | FIRST_PAGE <= r < LAST_PAGE :: u'.paging.Empty(r) <==> p.Empty(r);
  }

  lemma AfterOneMore(u: UserView, steps: seq<Step>, s: Step)
    ensures AfterSteps(u, steps + [s]) == StepTo(AfterSteps(u, steps), s)
    ensures AllServed(u, steps + [s]) <==> AllServed(u, steps) && StepFate(AfterSteps(u, steps), s) == Resumed
  {
    assert (steps + [s])[..|steps|] == steps;
  }

  lemma {:induction false} AfterConcat(u: UserView, a: seq<Step>, b: seq<Step>)
    ensures AfterSteps(u, a + b) == AfterSteps(AfterSteps(u, a), b)
    ensures AllServed(u, a + b) <==> AllServed(u, a) && AllServed(AfterSteps(u, a), b)
    decreases |b|
  {
    if b == [] {
      assert a + b == a;
    } else {
      var front, last := b[..|b| - 1], b[|b| - 1];
      AfterConcat(u, a, front);
      AfterOneMore(u, a + front, last);
      assert a + b == a + front + [last];
    }
  }

  lemma OpenMore(u: UserView, before: seq<Step>, i: nat, a: nat, j: nat, m: nat)
    requires AllServed(u, before) && Grown(AfterSteps(u, before), i, 0, a) && j == i + 1 && m == a + 2
    requires i < LAST_SLOT - FIRST_SLOT && a + 1 < WINDOW
    ensures AllServed(u, before + [Touch(PageAddr(ENTRIES * i))])
    ensures Grown(AfterSteps(u, before + [Touch(PageAddr(ENTRIES * i))]), j, 0, m)
  {
    Open(AfterSteps(u, before), i, a, FIRST_PAGE + ENTRIES * i);
    AfterOneMore(u, before, Touch(PageAddr(ENTRIES * i)));
  }

  lemma {:induction false} Opening(u: UserView, j: nat, n: nat, m: nat)
    requires Grown(u, 0, 0, n) && j <= LAST_SLOT - FIRST_SLOT && m == n + 2 * j < WINDOW
    ensures AllServed(u, OpenSlots(j)) && Grown(AfterSteps(u, OpenSlots(j)), j, 0, m)
    decreases j
  {
    if j > 0 {
      var i, a := j - 1, m - 2;
      Opening(u, i, n, a);
      OpenMore(u, OpenSlots(i), i, a, j, m);
      assert OpenSlots(j) == OpenSlots(i) + [Touch(PageAddr(ENTRIES * i))];
    } else {
      assert OpenSlots(j) == [] && AfterSteps(u, []) == u;
    }
  }

  /** How many of the first `k` pages are not the first of their slot. */
  function Others(k: nat): nat {
    k - (k + ENTRIES - 1) / ENTRIES
  }

  lemma OthersNext(k: nat)
    ensures Others(k + 1) == if k % ENTRIES == 0 then Others(k) else Others(k) + 1
    ensures Others(k) <= k
  {
  }

  lemma FillMore(u: UserView, before: seq<Step>, j: nat, i: nat, a: nat, b: nat)
    requires AllServed(u, before) && Grown(AfterSteps(u, before), j, i, a)
    requires i < ENTRIES * j && j <= LAST_SLOT - FIRST_SLOT && a + 1 < MAX_BLOCKS
    requires b == if i % ENTRIES == 0 then a else a + 1
    ensures AllServed(u, before + [Touch(PageAddr(i))])
    ensures Grown(AfterSteps(u, before + [Touch(PageAddr(i))]), j, i + 1, b)
  {
    Fill(AfterSteps(u, before), j, i, a, FIRST_PAGE + i);
    AfterOneMore(u, before, Touch(PageAddr(i)));
  }

  lemma {:induction false} Filling(u: UserView, j: nat, k: nat, n: nat, m: nat)
    requires Grown(u, j, 0, n) && k <= ENTRIES * j && j <= LAST_SLOT - FIRST_SLOT && n + k < MAX_BLOCKS
    requires m == n + Others(k)
    ensures AllServed(u, FillPages(k)) && Grown(AfterSteps(u, FillPages(k)), j, k, m)
    decreases k
  {
    if k > 0 {
      var i := k - 1;
      var a := n + Others(i);
      OthersNext(i);
      Filling(u, j, i, n, a);
      FillMore(u, FillPages(i), j, i, a, m);
    }
  }

  /** The last access finds no table in its slot, and the next table frame is a page of the
      heap that is mapped. */
  lemma LastTouch(u: UserView, j: nat, n: nat, q: nat)
    requires j < LAST_SLOT - FIRST_SLOT && q == FIRST_PAGE + ENTRIES * j && Grown(u, j, ENTRIES * j, n)
    requires FIRST_PAGE <= n + 1 < q
    ensures StepFate(u, Touch(PAGE_SIZE * q)) == Wrecked
  {
    var p := u.paging;
    assert PAGE_SIZE * q / PAGE_SIZE == q && p.Empty(q) && !Touched(q, j, ENTRIES * j);
    assert u.InHeap(PAGE_SIZE * q);
    TakeNext(p, n);
    TakeNext(p.Took(1), n + 1);
    assert Touched(n + 1, j, ENTRIES * j);
    assert p.Took(1).view.At(n + 1) != Absent && p.Took(1).Empty(q);
    assert Fate(p, u.brk, q) == MapFate(p.Took(1), u.brk, q) == Wrecked;
  }

  lemma Starts(u: UserView, n: nat)
    requires Unused(u, n)
    ensures AllServed(u, [Brk(BRK_LIMIT)]) && Grown(AfterSteps(u, [Brk(BRK_LIMIT)]), 0, 0, n)
  {
    var brk: seq<Step> := [Brk(BRK_LIMIT)];
    assert brk[..0] == [];
    assert AfterSteps(u, brk) == StepTo(u, Brk(BRK_LIMIT));
  }

  /** All of the program but its last access. */
  function Preparation(j: nat): seq<Step> {
    [Brk(BRK_LIMIT)] + OpenSlots(j) + FillPages(ENTRIES * j)
  }

  lemma Prepared(u: UserView, n: nat, j: nat, k: nat, m: nat)
    requires Unused(u, n) && j <= LAST_SLOT - FIRST_SLOT && n + 2 * j < WINDOW && k == ENTRIES * j
             && m == n + 2 * j + Others(k)
    ensures AllServed(u, Preparation(j)) && Grown(AfterSteps(u, Preparation(j)), j, k, m)
  {
    var first, slots := [Brk(BRK_LIMIT)], OpenSlots(j);
    Starts(u, n);
    Opening(AfterSteps(u, first), j, n, n + 2 * j);
    AfterConcat(u, first, slots);
    Filling(AfterSteps(u, first + slots), j, k, n + 2 * j, m);
    AfterConcat(u, first + slots, FillPages(k));
  }

  /** The failing input, with 128 MB and up to 4081 frames in use: every access of the
      program but the last is served, and the last wrecks the tables. */
  lemma Wrecks(u: UserView, n: nat, j: nat)
    requires Unused(u, n) && RESERVED <= n && j == 7 && n + 2 * j < WINDOW
    ensures AllServed(u, Preparation(j))
    ensures StepFate(AfterSteps(u, Preparation(j)), Touch(PageAddr(ENTRIES * j))) == Wrecked
  {
    var k := ENTRIES * j;
    Prepared(u, n, j, k, n + 2 * j + Others(k));
    LastTouch(AfterSteps(u, Preparation(j)), j, n + 2 * j + Others(k), FIRST_PAGE + k);
  }

  /** Any run of the whole program ends with its last access. */
  lemma EndsWrecked(u: UserView, n: nat, j: nat, done: nat, r: FaultOutcome)
    requires Unused(u, n) && RESERVED <= n && j == 7 && n + 2 * j < WINDOW
    requires RunEnds(u, Preparation(j) + [Touch(PageAddr(ENTRIES * j))], done, r)
    ensures done == |Preparation(j)| && r == Wrecked
  {
    var before, last := Preparation(j), Touch(PageAddr(ENTRIES * j));
    var all, d := before + [last], if done <= |before| then done else |before|;
    assert all[..|before|] == before && all[..|all|] == all;
    assert all[..d] == before[..d] && (d < |before| ==> all[d] == before[d]);
    Wrecks(u, n, j);
    AfterOneMore(u, before, last);
    ServedPrefix(u, before, d);
  }

  lemma {:induction false} Addresses(j: nat, k: nat)
    requires j <= LAST_SLOT - FIRST_SLOT && k <= ENTRIES * j
    ensures forall s | s in OpenSlots(j) || s in FillPages(k) :: s.Touch? && s.addr < TWO_32
    decreases j + k
  {
    if k > 0 {
      Addresses(j, k - 1);
    } else if j > 0 {
      Addresses(j - 1, 0);
    }
  }
}
