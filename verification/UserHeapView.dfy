/** What demand paging keeps, stated on the flat map, the frames in use and the directory. */
module UserHeapView {
  import opened Frames
  import opened PagingFormat

  const FIRST_PAGE: nat := 8192
  const LAST_PAGE: nat := 16384
  const BRK_START: nat := 0x200_0000
  const BRK_LIMIT: nat := 0x400_0000
  const FIRST_SLOT: nat := 8
  const LAST_SLOT: nat := 16

  /** The frame behind each mapped page of the user heap. */
  ghost function Owned(v: Flat): map<nat, nat> {
    map q: nat | FIRST_PAGE <= q < LAST_PAGE && v.At(q) != Absent :: v.At(q).frame
  }

  ghost predicate PageOk(e: Translation, p: Paging) {
    e != Absent ==> e.flags == USER_RW && e.frame >= RESERVED && e.frame in p.used && e.frame !in p.Tables()
  }

  /** A page of RAM outside the window and the user heap. */
  predicate Outside(q: nat) {
    WINDOW <= q < MAX_BLOCKS && !(FIRST_PAGE <= q < LAST_PAGE)
  }

  /** Mapped pages have pairwise different frames, each taken from the allocator and
      none of them a page table; 0-16 MB is mapped to itself, and of the rest of RAM
      only the user heap is mapped at all. */
  ghost predicate Sane(p: Paging) {
    && p.view.Full() && Wired(p.slots) && p.Tables() <= p.used
    && IdentityKept(p.view)
    && (forall q: nat | Outside(q) :: p.view.At(q) == Absent)
    && (forall q: nat | FIRST_PAGE <= q < LAST_PAGE :: PageOk(p.view.At(q), p))
    && (forall q: nat, r: nat | FIRST_PAGE <= q < r < LAST_PAGE && p.view.At(q) != Absent && p.view.At(r) != Absent ::
          p.view.At(q).frame != p.view.At(r).frame)
  }

  lemma SaneReachable(p: Paging)
    requires Sane(p)
    ensures p.Reachable()
  {
    forall q: nat | WINDOW <= q < MAX_BLOCKS ensures p.ShowsData(p.view.At(q)) {
      if FIRST_PAGE <= q < LAST_PAGE {
        assert PageOk(p.view.At(q), p);
      } else {
        assert Outside(q);
      }
    }
  }

  /** `d` has been taken from the allocator and serves nothing yet. */
  ghost predicate Idle(p: Paging, d: nat) {
    d >= RESERVED && d in p.used && d !in p.Tables() && d !in Owned(p.view).Values
  }

  /** The directory is written only where the user heap lives, and only in empty slots. */
  ghost predicate SameElsewhere(d: seq<nat>, e: seq<nat>) {
    |d| == |e| && forall i | 0 <= i < |d| && (!(FIRST_SLOT <= i < LAST_SLOT) || d[i] != 0) :: d[i] == e[i]
  }

  /** One page more, mapped to a frame nobody used, with the tables that took. */
  ghost predicate Mapped(p: Paging, q: nat, d: nat, p': Paging) {
    && p'.view == p.view.Remap(q, Entry(d, USER_RW))
    && d !in p.used && d !in p'.Tables() && (p'.Tables() - p.Tables()) !! p.used
    && SameElsewhere(p.slots, p'.slots) && p'.used == p.used + {d} + p'.Tables()
  }

  /** The next `n` frames of the supply can be had, and are new to everybody. */
  ghost predicate Stocked(p: Paging) {
    && (forall i | 0 <= i < |p.supply| :: RESERVED <= p.supply[i] < MAX_BLOCKS && p.supply[i] !in p.used)
    && Ascending(p.supply)
  }

  lemma TookOne(p: Paging)
    requires Sane(p) && Stocked(p) && p.supply != []
    ensures p.Took(1).used == p.used + {p.supply[0]} && p.Took(1).supply == p.supply[1..]
    ensures Sane(p.Took(1)) && Stocked(p.Took(1)) && Idle(p.Took(1), p.supply[0])
  {
    var d := p.supply[0];
    assert p.supply[..1] == [d];
    assert Elements([d]) == {d};
    TakeMore(p, {d});
    assert p.Took(1) == p.(used := p.used + {d}, supply := p.supply[1..]);
    SaneSupply(p.(used := p.used + {d}), p.supply[1..]);
    forall q | q in Owned(p.view) ensures Owned(p.view)[q] != d {
      assert PageOk(p.view.At(q), p);
    }
  }

  /** What the allocator has left does not matter to the tables. */
  lemma SaneSupply(p: Paging, supply: seq<nat>)
    requires Sane(p)
    ensures Sane(p.(supply := supply))
  {
    var p' := p.(supply := supply);
    forall r: nat | FIRST_PAGE <= r < LAST_PAGE ensures PageOk(p.view.At(r), p') {
      assert PageOk(p.view.At(r), p);
    }
  }

  lemma TakeMore(p: Paging, t: set<nat>)
    requires Sane(p)
    ensures Sane(p.(used := p.used + t))
  {
    forall r: nat | FIRST_PAGE <= r < LAST_PAGE ensures PageOk(p.view.At(r), p.(used := p.used + t)) {
      assert PageOk(p.view.At(r), p);
    }
  }

  lemma OwnedUpdate(v: Flat, q: nat, d: nat)
    requires v.Full() && FIRST_PAGE <= q < LAST_PAGE
    ensures Owned(v.Remap(q, Entry(d, USER_RW))) == Owned(v)[q := d]
  {
    var w := v.Remap(q, Entry(d, USER_RW));
    assert forall r: nat | r != q :: w.At(r) == v.At(r);
    assert Owned(w).Keys == Owned(v)[q := d].Keys;
  }

  lemma OwnedValues(v: Flat, q: nat, d: nat)
    requires v.Full() && FIRST_PAGE <= q < LAST_PAGE && v.At(q) == Absent
    ensures Owned(v.Remap(q, Entry(d, USER_RW))).Values == Owned(v).Values + {d}
  {
    OwnedUpdate(v, q, d);
    var m, n := Owned(v), Owned(v)[q := d];
    forall x | x in m.Values ensures x in n.Values {
      var k :| k in m && m[k] == x;
      assert n[k] == x;
    }
    assert n[q] == d;
  }

  lemma SlotsGrow(d: seq<nat>, e: seq<nat>)
    requires SameElsewhere(d, e)
    ensures TablesOf(d) <= TablesOf(e)
  {
    forall f | f in TablesOf(d) ensures f in TablesOf(e) {
      var i :| 0 <= i < |d| && d[i] != 0 && d[i] / PAGE_SIZE == f;
      assert e[i] == d[i];
    }
  }

  /** Mapping one more page to an idle frame, perhaps through a new table. */
  lemma MapIdle(p: Paging, q: nat, d: nat, slots: seq<nat>)
    requires FIRST_PAGE <= q < LAST_PAGE && Sane(p) && Idle(p, d)
    requires Wired(slots) && SameElsewhere(p.slots, slots) && (TablesOf(slots) - p.Tables()) !! p.used
    ensures var p' := Paging(p.view.Remap(q, Entry(d, USER_RW)), p.used + TablesOf(slots), slots, p.supply);
            Sane(p') && Mapped(p.(used := p.used - {d}), q, d, p')
  {
    var v, w := p.view, p.view.Remap(q, Entry(d, USER_RW));
    var p' := Paging(w, p.used + TablesOf(slots), slots, p.supply);
    SlotsGrow(p.slots, slots);
    assert forall r: nat | r != q :: w.At(r) == v.At(r);
    forall r: nat | FIRST_PAGE <= r < LAST_PAGE ensures PageOk(w.At(r), p') {
      assert PageOk(v.At(r), p);
    }
    forall r: nat | FIRST_PAGE <= r < LAST_PAGE && v.At(r) != Absent ensures v.At(r).frame != d {
      assert Owned(v)[r] == v.At(r).frame;
    }
    assert p'.used == p.used - {d} + {d} + p'.Tables();
  }

  /** `page_map` of a page of the user heap to the idle frame `d`, when it maps the page. */
  lemma MappedSane(p: Paging, q: nat, d: nat)
    requires FIRST_PAGE <= q < LAST_PAGE && Sane(p) && Stocked(p) && Idle(p, d)
    requires p.Empty(q) ==> p.supply != [] && p.supply[0] < WINDOW
    ensures var p' := MappedTo(p, q, Entry(d, USER_RW));
            Sane(p') && Stocked(p') && Mapped(p.(used := p.used - {d}), q, d, p')
  {
    if p.Empty(q) {
      var f := p.supply[0];
      TookOne(p);
      assert f !in p.used && f !in p.Tables() && f != d;
      Hang(p.slots, q / ENTRIES, f);
      var slots := p.Hung(q, f).slots;
      assert SameElsewhere(p.slots, slots);
      MapIdle(p, q, d, slots);
      assert p.used + TablesOf(slots) == p.used + {f};
      SaneSupply(Paging(p.view.Remap(q, Entry(d, USER_RW)), p.used + TablesOf(slots), slots, p.supply), p.supply[1..]);
    } else {
      MapIdle(p, q, d, p.slots);
      assert p.used + TablesOf(p.slots) == p.used;
    }
  }

  // ---- how a fault ends -------------------------------------------------------

  /** How the handler ends: `Resumed` with the page mapped; `Retried` without it, to
      fault again; `Halted`, for want of a frame or outside the heap; `Stuck`, halted by a
      fault of the kernel itself outside the heap; or `Wrecked`, with a table in a frame
      that the kernel did not write. */
  datatype FaultOutcome = Resumed | Retried | Halted | Stuck | Wrecked

  /** The first address of page `f` is in the user heap. */
  predicate InBreak(f: nat, brk: nat) {
    BRK_START <= PAGE_SIZE * f < brk
  }

  /** A fault in the heap on page `q`, decided by the state before. */
  ghost function Fate(p: Paging, brk: nat, q: nat): FaultOutcome
    decreases |p.supply|
  {
    if p.supply == [] then Halted else MapFate(p.Took(1), brk, q)
  }

  /** The call of `page_map` in it. A table frame beyond the window is written through the
      page of that number: if it is absent, the kernel faults in turn. */
  ghost function MapFate(p: Paging, brk: nat, q: nat): FaultOutcome
    decreases |p.supply|
  {
    if !p.Empty(q) then Resumed
    else if p.supply == [] then Retried
    else if p.supply[0] < WINDOW then Resumed
    else if p.view.At(p.supply[0]) != Absent then Wrecked
    else if !InBreak(p.supply[0], brk) then Stuck
    else
      match Fate(p.Took(1), brk, p.supply[0])
      case Resumed => Wrecked
      case Retried => Halted
      case end => end
  }

  /** The state with the frames taken that such a fault takes, and nothing mapped. */
  ghost function Spent(p: Paging, brk: nat, q: nat): Paging
    decreases |p.supply|
  {
    if p.supply == [] then p else MapSpent(p.Took(1), brk, q)
  }

  ghost function MapSpent(p: Paging, brk: nat, q: nat): Paging
    decreases |p.supply|
  {
    if !p.Empty(q) || p.supply == [] then p
    else if p.supply[0] < WINDOW || p.view.At(p.supply[0]) != Absent || !InBreak(p.supply[0], brk) then p.Took(1)
    else Spent(p.Took(1), brk, p.supply[0])
  }

  /** The state after a fault that mapped its page. */
  ghost function Served(p: Paging, q: nat): Paging {
    if p.supply == [] then p else MappedTo(p.Took(1), q, Entry(p.supply[0], USER_RW))
  }

  /** Some table is in a frame the kernel did not write: the state came from a sane one by
      a mapping whose table's words went elsewhere. */
  ghost predicate Broken(p: Paging) {
    exists before: Paging, q: nat, f: nat :: Sane(before) && q < VIRTUAL_PAGES && StrayedFrom(before, q, f, p)
  }

  lemma BrokenUnsound(p: Paging)
    requires Broken(p)
    ensures !Wired(p.slots)
  {
    var before, q: nat, f: nat :| Sane(before) && q < VIRTUAL_PAGES && StrayedFrom(before, q, f, p);
    StrayedUnsound(before, q, f, p);
  }

  lemma {:induction false} SpentSane(p: Paging, brk: nat, q: nat)
    requires Sane(p) && Stocked(p)
    ensures Sane(Spent(p, brk, q)) && p.used <= Spent(p, brk, q).used
    ensures Spent(p, brk, q).view == p.view && Spent(p, brk, q).slots == p.slots
    decreases |p.supply|
  {
    if p.supply != [] {
      TookOne(p);
      var p1 := p.Took(1);
      if p1.supply != [] {
        TookOne(p1);
        SpentSane(p1.Took(1), brk, p1.supply[0]);
      }
    }
  }

  /** The kernel's own fault was served: the page of the new table's frame `f` shows a user
      frame now, and the slot of `q` is still empty. */
  lemma ServedInTurn(p: Paging, brk: nat, q: nat, f: nat)
    requires Sane(p) && Stocked(p) && p.supply != [] && f == p.supply[0] && WINDOW <= f && p.view.At(f) == Absent
    requires p.Empty(q) && InBreak(f, brk) && brk <= BRK_LIMIT && Fate(p.Took(1), brk, f) == Resumed
    ensures var p' := Served(p.Took(1), f);
            && MapFate(p, brk, q) == Wrecked && p'.Empty(q) && f in p'.used && f !in p'.Tables()
            && p'.view.At(f) != Absent && p'.view.At(f).frame != f
            && p'.used == MapSpent(p, brk, q).used && p'.supply == MapSpent(p, brk, q).supply
  {
    TookOne(p);
    var p1 := p.Took(1);
    TookOne(p1);
    ResumedIff(p1, brk, f);
    assert !p1.Empty(f);
    assert Spent(p1, brk, f) == MapSpent(p1.Took(1), brk, f) == p1.Took(1);
  }

  /** The handler maps the page if and only if there is a frame for it, and a table or a
      second frame in the window. */
  lemma ResumedIff(p: Paging, brk: nat, q: nat)
    ensures Fate(p, brk, q) == Resumed <==>
            p.supply != [] && (p.Empty(q) ==> |p.supply| > 1 && p.supply[1] < WINDOW)
    ensures Fate(p, brk, q) == Retried <==> |p.supply| == 1 && p.Empty(q)
  {
  }

  /** The kernel faults on page `f` in turn, and that needs a table as well. */
  ghost predicate Nests(p: Paging, brk: nat, f: nat) {
    p.view.At(f) == Absent && InBreak(f, brk) && p.Empty(f)
  }

  /** Page `f` of a new table's frame is mapped, or gets mapped by the fault on it when
      there is a frame left (`more`). */
  ghost predicate Catches(p: Paging, brk: nat, f: nat, more: bool) {
    p.view.At(f) != Absent || (InBreak(f, brk) && !p.Empty(f) && more)
  }

  /** The tables are lost exactly when the slot is empty and the table frame beyond the
      window; the kernel, faulting on that page, perhaps needs a further table, and so on;
      and the page of one of these table frames is mapped or gets mapped. The frames
      concerned are every other one of the supply. */
  lemma {:induction false} WreckedIff(p: Paging, brk: nat, q: nat)
    requires Ascending(p.supply)
    ensures Fate(p, brk, q) == Wrecked <==>
            && p.Empty(q) && |p.supply| > 1 && WINDOW <= p.supply[1]
            && exists k: nat :: WrecksAt(p, brk, k)
    decreases |p.supply|
  {
    if p.Empty(q) && |p.supply| > 1 && WINDOW <= p.supply[1] {
      var f, p2 := p.supply[1], p.Took(1).Took(1);
      assert p2.supply == p.supply[2..] && p.Took(1).supply[0] == f;
      assert Fate(p2, brk, f) == if p2.supply == [] then Halted else MapFate(p2.Took(1), brk, f);
      if Nests(p, brk, f) {
        WreckedIff(p2, brk, f);
        WrecksLater(p, p2, brk);
        assert |p2.supply| > 1 ==> WINDOW <= p2.supply[1];
      } else {
        WrecksHere(p, brk);
      }
    }
  }

  /** The chain of faults reaches the `k`-th table frame, whose page catches the stores. */
  ghost predicate WrecksAt(p: Paging, brk: nat, k: nat) {
    && 2 * k + 1 < |p.supply|
    && (forall j: nat | j < k :: Nests(p, brk, p.supply[2 * j + 1]))
    && Catches(p, brk, p.supply[2 * k + 1], 2 * k + 2 < |p.supply|)
  }

  /** The chain of faults reaches the `k`-th table frame, whose page is absent and outside the
      heap. */
  ghost predicate SticksAt(p: Paging, brk: nat, k: nat) {
    && 2 * k + 1 < |p.supply|
    && (forall j: nat | j < k :: Nests(p, brk, p.supply[2 * j + 1]))
    && p.view.At(p.supply[2 * k + 1]) == Absent && !InBreak(p.supply[2 * k + 1], brk)
  }

  /** The machine is stuck in the kernel exactly when such a page comes up. */
  lemma {:induction false} StuckIff(p: Paging, brk: nat, q: nat)
    requires Ascending(p.supply)
    ensures Fate(p, brk, q) == Stuck <==>
            && p.Empty(q) && |p.supply| > 1 && WINDOW <= p.supply[1]
            && exists k: nat :: SticksAt(p, brk, k)
    decreases |p.supply|
  {
    if p.Empty(q) && |p.supply| > 1 && WINDOW <= p.supply[1] {
      var f, p2 := p.supply[1], p.Took(1).Took(1);
      assert p2.supply == p.supply[2..] && p.Took(1).supply[0] == f;
      assert Fate(p2, brk, f) == if p2.supply == [] then Halted else MapFate(p2.Took(1), brk, f);
      if Nests(p, brk, f) {
        StuckIff(p2, brk, f);
        SticksLater(p, p2, brk);
        assert |p2.supply| > 1 ==> WINDOW <= p2.supply[1];
      } else {
        SticksHere(p, brk);
      }
    }
  }

  lemma SticksHere(p: Paging, brk: nat)
    requires |p.supply| > 1 && !Nests(p, brk, p.supply[1])
    ensures (exists k: nat :: SticksAt(p, brk, k)) <==>
            p.view.At(p.supply[1]) == Absent && !InBreak(p.supply[1], brk)
  {
    assert !Nests(p, brk, p.supply[2 * 0 + 1]);
    if k: nat :| SticksAt(p, brk, k) {
      assert k == 0;
    }
    if p.view.At(p.supply[1]) == Absent && !InBreak(p.supply[1], brk) {
      assert SticksAt(p, brk, 0);
    }
  }

  lemma SticksLater(p: Paging, p2: Paging, brk: nat)
    requires |p.supply| > 1 && Nests(p, brk, p.supply[1])
    requires p2.supply == p.supply[2..] && p2.view == p.view && p2.slots == p.slots
    ensures (exists k: nat :: SticksAt(p, brk, k)) <==> |p2.supply| > 1 && exists k: nat :: SticksAt(p2, brk, k)
  {
    if k: nat :| SticksAt(p, brk, k) {
      if k > 0 {
        forall j: nat | j < k - 1 ensures Nests(p2, brk, p2.supply[2 * j + 1]) {
          assert Nests(p, brk, p.supply[2 * (j + 1) + 1]);
        }
        assert SticksAt(p2, brk, k - 1);
      }
    }
    if k: nat :| SticksAt(p2, brk, k) {
      forall j: nat | j < k + 1 ensures Nests(p, brk, p.supply[2 * j + 1]) {
        if j > 0 {
          assert Nests(p2, brk, p2.supply[2 * (j - 1) + 1]);
        }
      }
      assert SticksAt(p, brk, k + 1);
    }
  }

  lemma WrecksHere(p: Paging, brk: nat)
    requires |p.supply| > 1 && !Nests(p, brk, p.supply[1])
    ensures (exists k: nat :: WrecksAt(p, brk, k)) <==> Catches(p, brk, p.supply[1], 2 < |p.supply|)
  {
    assert !Nests(p, brk, p.supply[2 * 0 + 1]);
    if k: nat :| WrecksAt(p, brk, k) {
      assert k == 0;
    }
    if Catches(p, brk, p.supply[1], 2 < |p.supply|) {
      assert WrecksAt(p, brk, 0);
    }
  }

  lemma WrecksLater(p: Paging, p2: Paging, brk: nat)
    requires |p.supply| > 1 && Nests(p, brk, p.supply[1])
    requires p2.supply == p.supply[2..] && p2.view == p.view && p2.slots == p.slots
    ensures (exists k: nat :: WrecksAt(p, brk, k)) <==> |p2.supply| > 1 && exists k: nat :: WrecksAt(p2, brk, k)
  {
    if k: nat :| WrecksAt(p, brk, k) {
      if k > 0 {
        forall j: nat | j < k - 1 ensures Nests(p2, brk, p2.supply[2 * j + 1]) {
          assert Nests(p, brk, p.supply[2 * (j + 1) + 1]);
        }
        assert WrecksAt(p2, brk, k - 1);
      }
    }
    if k: nat :| WrecksAt(p2, brk, k) {
      forall j: nat | j < k + 1 ensures Nests(p, brk, p.supply[2 * j + 1]) {
        if j > 0 {
          assert Nests(p2, brk, p2.supply[2 * (j - 1) + 1]);
        }
      }
      assert WrecksAt(p, brk, k + 1);
    }
  }

  // ---- how much a run can take ----------------------------------------------

  /** Tables that serve the user heap. */
  ghost function HeapTables(d: seq<nat>): set<nat> {
    if |d| == ENTRIES then TablesOf(d[FIRST_SLOT..LAST_SLOT]) else {}
  }

  lemma TablesGrowInHeap(d: seq<nat>, e: seq<nat>)
    requires |d| == ENTRIES && SameElsewhere(d, e)
    ensures TablesOf(e) <= TablesOf(d) + HeapTables(e)
    ensures HeapTables(d) <= HeapTables(e)
  {
    forall f | f in HeapTables(d) ensures f in HeapTables(e) {
      var i :| 0 <= i < LAST_SLOT - FIRST_SLOT && d[FIRST_SLOT..LAST_SLOT][i] != 0
          && d[FIRST_SLOT..LAST_SLOT][i] / PAGE_SIZE == f;
      assert e[FIRST_SLOT..LAST_SLOT][i] == d[FIRST_SLOT + i];
    }
    forall f | f in TablesOf(e) ensures f in TablesOf(d) + HeapTables(e) {
      var i :| 0 <= i < |e| && e[i] != 0 && e[i] / PAGE_SIZE == f;
      if FIRST_SLOT <= i < LAST_SLOT {
        assert e[FIRST_SLOT..LAST_SLOT][i - FIRST_SLOT] == e[i];
      } else {
        assert d[i] == e[i];
      }
    }
  }

  lemma SubsetBound(s: set<nat>, t: set<nat>)
    requires s <= t
    ensures |s| <= |t|
  {
    assert t == s + (t - s);
  }

  /** A map takes no more values than keys. */
  lemma {:induction false} ValuesBound(m: map<nat, nat>)
    ensures |m.Values| <= |m.Keys|
    decreases |m|
  {
    if m.Keys == {} {
      assert m.Values == {};
    } else {
      var k :| k in m;
      var rest := m - {k};
      ValuesBound(rest);
      assert m.Keys == rest.Keys + {k};
      assert m.Values <= rest.Values + {m[k]};
      SubsetBound(m.Values, rest.Values + {m[k]});
    }
  }

  lemma {:induction false} TablesBound(d: seq<nat>)
    ensures |TablesOf(d)| <= |d|
  {
    if d != [] {
      var front, last := d[..|d| - 1], d[|d| - 1];
      TablesBound(front);
      forall f | f in TablesOf(d) ensures f in TablesOf(front) + {last / PAGE_SIZE} {
        var i :| 0 <= i < |d| && d[i] != 0 && d[i] / PAGE_SIZE == f;
        assert i < |front| ==> front[i] == d[i];
      }
      SubsetBound(TablesOf(d), TablesOf(front) + {last / PAGE_SIZE});
    }
  }

  lemma {:induction false} IntervalBound(lo: nat, hi: nat, s: set<nat>)
    requires lo <= hi && forall q | q in s :: lo <= q < hi
    ensures |s| <= hi - lo
    decreases hi - lo
  {
    if lo < hi {
      IntervalBound(lo + 1, hi, s - {lo});
      SubsetBound(s, (s - {lo}) + {lo});
    } else {
      assert s == {};
    }
  }

  /** Everything in use was in use before, backs a user page, or is a user-heap table. */
  ghost predicate Accounted(base: set<nat>, p: Paging) {
    p.used <= base + Owned(p.view).Values + HeapTables(p.slots)
  }

  lemma AccountedStep(base: set<nat>, p: Paging, q: nat, f: nat, p': Paging)
    requires Sane(p) && Accounted(base, p) && Mapped(p, q, f, p')
    requires FIRST_PAGE <= q < LAST_PAGE && p.view.At(q) == Absent
    ensures Accounted(base, p')
  {
    OwnedValues(p.view, q, f);
    TablesGrowInHeap(p.slots, p'.slots);
  }

  /** At most one frame a page and one table a slot. */
  lemma AccountedSize(base: set<nat>, p: Paging)
    requires Sane(p) && Accounted(base, p)
    ensures |Owned(p.view).Values| <= LAST_PAGE - FIRST_PAGE && |HeapTables(p.slots)| <= LAST_SLOT - FIRST_SLOT
    ensures |p.used| <= |base| + (LAST_PAGE - FIRST_PAGE) + (LAST_SLOT - FIRST_SLOT)
  {
    ValuesBound(Owned(p.view));
    IntervalBound(FIRST_PAGE, LAST_PAGE, Owned(p.view).Keys);
    TablesBound(p.slots[FIRST_SLOT..LAST_SLOT]);
    SubsetBound(p.used, base + Owned(p.view).Values + HeapTables(p.slots));
  }
}
