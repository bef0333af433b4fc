/** The part of `vbe_init` that extends the page tables: the framebuffer, mapped to itself. */
module Framebuffer {
  import opened Frames
  import opened PagingFormat
  import opened PageTables
  import opened UserHeapView

  /** `v` with the `k` pages from `base` on mapped to themselves. */
  ghost function Identity(v: Flat, base: nat, k: nat): Flat {
    Flat(seq(|v.pages|, q requires 0 <= q < |v.pages| =>
      if base <= q < base + k then Entry(q, USER_RW) else v.pages[q]))
  }

  lemma IdentityStep(v: Flat, base: nat, k: nat, q: nat)
    requires v.Full() && q == base + k && q < VIRTUAL_PAGES
    ensures Identity(v, base, k).Remap(q, Entry(q, USER_RW)) == Identity(v, base, k + 1)
  {
    SameFlat(Identity(v, base, k).Remap(q, Entry(q, USER_RW)), Identity(v, base, k + 1));
  }

  ghost function EmptySlots(d: seq<nat>): set<nat> {
    set i | 0 <= i < |d| && d[i] == 0
  }

  /** Filling an empty slot leaves one fewer. */
  lemma SlotFilled(d: seq<nat>, e: seq<nat>, i: nat)
    requires |d| == |e| && i < |d| && d[i] == 0 && e[i] != 0
    requires forall k | 0 <= k < |d| && k != i :: e[k] == d[k]
    ensures |EmptySlots(e)| == |EmptySlots(d)| - 1
  {
    assert EmptySlots(e) == EmptySlots(d) - {i};
  }

  /** Mapping a page beyond RAM, perhaps through a new table in the window. */
  lemma MappedAbove(p: Paging, q: nat)
    requires Sane(p) && Stocked(p) && MAX_BLOCKS <= q < VIRTUAL_PAGES
    requires p.Empty(q) ==> p.supply != [] && p.supply[0] < WINDOW
    ensures var p' := MappedTo(p, q, Entry(q, USER_RW));
            && Sane(p') && Owned(p'.view) == Owned(p.view) && p'.view == p.view.Remap(q, Entry(q, USER_RW))
            && p.used <= p'.used && p.Tables() <= p'.Tables() && (p'.Tables() - p.Tables()) !! p.used
            && forall r: nat | r < MAX_BLOCKS :: p'.Empty(r) <==> p.Empty(r)
  {
    var p' := MappedTo(p, q, Entry(q, USER_RW));
    assert forall r: nat | r != q :: p'.view.At(r) == p.view.At(r);
    if p.Empty(q) {
      TookOne(p);
      Hang(p.slots, q / ENTRIES, p.supply[0]);
    }
    forall r: nat | FIRST_PAGE <= r < LAST_PAGE ensures PageOk(p'.view.At(r), p') {
      assert PageOk(p.view.At(r), p);
    }
  }

  /** Every table frame still to be taken is in the window. */
  ghost predicate Roomy(tables: Tables)
    reads tables, tables.directory, tables.pmm, tables.pmm.bitmap
    requires tables.pmm.Shape()
  {
    tables.pmm.usedBlocks + |EmptySlots(tables.directory[..])| <= WINDOW <= tables.pmm.Scanned()
  }

  lemma RoomyMaps(tables: Tables, q: nat)
    requires tables.Valid() && tables.pmm.Packed() && Roomy(tables) && q < VIRTUAL_PAGES
    ensures MapOutcomeFor(tables.State(), q) == MappedPage
    ensures tables.State().Empty(q) ==> tables.State().supply != [] && tables.State().supply[0] < WINDOW
  {
    if tables.State().Empty(q) {
      assert q / ENTRIES in EmptySlots(tables.directory[..]);
      tables.pmm.PackedNext();
    }
  }

  /** An entry for a table costs a frame and fills a slot. */
  lemma RoomLeft(p: Paging, q: nat)
    requires Sane(p) && Stocked(p) && MAX_BLOCKS <= q < VIRTUAL_PAGES
    requires p.Empty(q) ==> p.supply != [] && p.supply[0] < WINDOW
    ensures var p' := MappedTo(p, q, Entry(q, USER_RW));
            |p'.used| + |EmptySlots(p'.slots)| == |p.used| + |EmptySlots(p.slots)|
  {
    if p.Empty(q) {
      TookOne(p);
      EntryParts(p.supply[0], USER_RW);
      SlotFilled(p.slots, p.Hung(q, p.supply[0]).slots, q / ENTRIES);
    }
  }

  /** One turn of the loop. */
  method MapOne(tables: Tables, v: nat, ghost q: nat)
    requires tables.Valid() && tables.pmm.Packed() && Roomy(tables) && Sane(tables.State())
    requires MAX_BLOCKS <= q < VIRTUAL_PAGES && v < TWO_32 && q == v / PAGE_SIZE
    modifies tables.directory, tables.ram, tables.pmm`usedBlocks, tables.pmm.bitmap
    ensures tables.Valid() && tables.pmm.Packed() && Roomy(tables)
    ensures tables.State() == MappedTo(old(tables.State()), q, Entry(q, USER_RW))
    ensures Stocked(old(tables.State()))
    ensures old(tables.State()).Empty(q) ==> old(tables.State()).supply != [] && old(tables.State()).supply[0] < WINDOW
  {
    ghost var p := tables.State();
    tables.pmm.SupplyIs();
    RoomyMaps(tables, q);
    SaneReachable(p);
    UserEntry(q);
    RoomLeft(p, q);
    var _, _ := tables.PageMap(v, v, USER_RW);
  }

  /** `k` pages from `base` on are mapped, through tables in frames nobody had. */
  ghost predicate Identical(p: Paging, base: nat, k: nat, p': Paging) {
    && Sane(p') && p'.view == Identity(p.view, base, k) && Owned(p'.view) == Owned(p.view)
    && p.used <= p'.used && p.Tables() <= p'.Tables() && (p'.Tables() - p.Tables()) !! p.used
    && (forall q: nat | q < MAX_BLOCKS :: p'.Empty(q) <==> p.Empty(q))
    && |p'.used| + |EmptySlots(p'.slots)| == |p.used| + |EmptySlots(p.slots)|
  }

  lemma IdenticalStep(p: Paging, base: nat, k: nat, q: nat, p': Paging)
    requires p.view.Full() && Identical(p, base, k, p') && Stocked(p')
    requires p'.Empty(q) ==> p'.supply != [] && p'.supply[0] < WINDOW
    requires MAX_BLOCKS <= q < VIRTUAL_PAGES && q == base + k
    ensures Identical(p, base, k + 1, MappedTo(p', q, Entry(q, USER_RW)))
  {
    MappedAbove(p', q);
    RoomLeft(p', q);
    IdentityStep(p.view, base, k, q);
  }

  /** The pages the loop visits cover the framebuffer, unless it is so badly aligned that it
      ends on a page further on: the loop counts whole pages from its first byte. */
  lemma CoveredIff(fb: nat, size: nat, n: nat)
    requires n == (size + PAGE_SIZE - 1) / PAGE_SIZE
    ensures (forall a | fb <= a < fb + size :: fb / PAGE_SIZE <= a / PAGE_SIZE < fb / PAGE_SIZE + n)
            <==> size == 0 || fb % PAGE_SIZE + size <= PAGE_SIZE * n
  {
    if size > 0 {
      var last := fb + size - 1;
      assert last / PAGE_SIZE < fb / PAGE_SIZE + n <==> fb % PAGE_SIZE + size <= PAGE_SIZE * n;
    }
  }

  /** The physical address behind a virtual one. */
  ghost function Physical(v: Flat, a: nat): int {
    match v.At(a / 4096)
    case Absent => -1
    case Entry(frame, _) => 4096 * frame + a % 4096
  }

  /** After boot the first 16 MB and the framebuffer are at their own addresses, present,
      writable and open to user programs; nothing else is mapped. */
  lemma OwnAddresses(fb: nat, size: nat, a: nat)
    requires 0x800_0000 <= fb && fb + size <= TWO_32 && a < TWO_32
    requires size == 0 || fb % 4096 + size <= 4096 * ((size + 4095) / 4096)
    ensures var v := Identity(BootView(), fb / PAGE_SIZE, (size + PAGE_SIZE - 1) / PAGE_SIZE);
            && (a < 0x100_0000 || fb <= a < fb + size ==> Physical(v, a) == a && v.At(a / 4096).flags == 7)
            && (0x100_0000 <= a && !(fb / 4096 <= a / 4096 < fb / 4096 + (size + 4095) / 4096) ==>
                  v.At(a / 4096) == Absent)
  {
  }

  /** The loop of `vbe_init` over `size` bytes at `fb`, beyond the memory the allocator
      manages. With a frame in the window for every empty slot, each page of it ends up
      mapped to itself and nothing else translates differently. */
  method MapFramebuffer(tables: Tables, fb: nat, size: nat)
    requires tables.Valid() && tables.pmm.Packed() && Sane(tables.State()) && Roomy(tables)
    requires MAX_BLOCKS * PAGE_SIZE <= fb && fb + size <= TWO_32
    modifies tables.directory, tables.ram, tables.pmm`usedBlocks, tables.pmm.bitmap
    ensures tables.Valid() && tables.pmm.Packed() && Roomy(tables)
    ensures Identical(old(tables.State()), fb / PAGE_SIZE, (size + PAGE_SIZE - 1) / PAGE_SIZE, tables.State())
  {
    ghost var p, base, k := tables.State(), fb / PAGE_SIZE, 0;
    SameFlat(p.view, Identity(p.view, base, 0));
    var offset := 0;
    while offset < size
      invariant offset == PAGE_SIZE * k && offset < size + PAGE_SIZE
      invariant tables.Valid() && tables.pmm.Packed() && Roomy(tables)
      invariant Identical(p, base, k, tables.State())
    {
      ghost var before, q := tables.State(), base + k;
      MapOne(tables, fb + offset, q);
      IdenticalStep(p, base, k, q, before);
      offset := offset + PAGE_SIZE;
      k := k + 1;
    }
  }
}
