/** The order of `kernel_main`, up to the first use of the heap. */
module KernelMain {
  import opened Frames
  import opened BlockList
  import opened HeapLinks
  import opened KernelHeap
  import opened PagingFormat
  import opened PageTables
  import opened UserHeapView
  import opened UserRuns
  import opened WreckedRun
  import opened DemandPaging
  import opened Framebuffer
  import opened Contexts
  import opened Threads
  import opened FramePartition
  import opened SystemSteps
  import opened Ownership

  /** Frames in use after boot, at most: kernel, heap and a table for every slot. */
  const BOOT_FRAMES: nat := RESERVED + INITIAL_PAGES + ENTRIES

  /** The boot state of the tables is sane. */
  lemma BootSane(p: Paging)
    requires p.view == BootView() && Wired(p.slots) && p.Tables() <= p.used
    ensures Sane(p) && Owned(p.view) == map[]
  {
  }

  lemma EmptyBound(d: seq<nat>)
    ensures |EmptySlots(d)| <= |d|
  {
    FullBelow(|d|, EmptySlots(d));
  }

  /** Paging, frame allocator and heap. */
  method BootMemory(t: seq<nat>) returns (pmm: FrameAllocator, heap: Heap, tables: Tables)
    requires |t| == 4 && forall i | 0 <= i < 4 :: 0 < t[i] < RESERVED
    requires forall i, j | 0 <= i < j < 4 :: t[i] != t[j]
    ensures fresh(tables.directory) && fresh(tables.ram) && fresh(pmm.bitmap) && tables.pmm == pmm == heap.pmm
    ensures tables.directory as object != pmm.bitmap && tables.ram as object != pmm.bitmap
    ensures heap.Valid() && tables.Valid() && tables.View() == BootView()
    ensures heap.blocks == BootBlocks()
    ensures heap.pages == Frames.Run(RESERVED, INITIAL_PAGES)
    ensures tables.TableFrames() == set i | 0 <= i < 4 :: t[i]
    ensures forall f | f in tables.TableFrames() :: 0 < f < RESERVED
    ensures heap.UsedBelow(RESERVED + INITIAL_PAGES) && pmm.Packed() && Roomy(tables)
    ensures pmm.usedBlocks == RESERVED + INITIAL_PAGES && pmm.totalBlocks == MAX_BLOCKS
    ensures forall k | 4 <= k < ENTRIES :: tables.directory[k] == 0
  {
    pmm := new FrameAllocator();
    tables := new Tables(pmm);
    tables.Init(t);
    pmm.Init(128 * 1024 * 1024);
    heap := new Heap(pmm);
    heap.KheapInit();
    EmptyBound(tables.directory[..]);
  }

  /** Those with the framebuffer mapped. */
  method BootVideo(t: seq<nat>, fb: nat, size: nat) returns (pmm: FrameAllocator, heap: Heap, tables: Tables)
    requires |t| == 4 && forall i | 0 <= i < 4 :: 0 < t[i] < RESERVED
    requires forall i, j | 0 <= i < j < 4 :: t[i] != t[j]
    requires MAX_BLOCKS * PAGE_SIZE <= fb && fb + size <= PagingFormat.TWO_32
    ensures fresh(tables.directory) && fresh(tables.ram) && fresh(pmm.bitmap) && tables.pmm == pmm == heap.pmm
    ensures tables.directory as object != pmm.bitmap && tables.ram as object != pmm.bitmap
    ensures heap.Valid() && tables.Valid() && Sane(tables.State())
    ensures heap.blocks == BootBlocks()
    ensures tables.View() == Identity(BootView(), fb / PAGE_SIZE, (size + PAGE_SIZE - 1) / PAGE_SIZE)
    ensures Partition(pmm.Used(), Elements(heap.pages), {}, tables.TableFrames(), Owned(tables.View()).Values)
    ensures Placed(tables.TableFrames(), set i | 0 <= i < 4 :: t[i])
    ensures forall f | f in heap.pages :: f < WINDOW
    ensures pmm.Packed() && pmm.usedBlocks <= BOOT_FRAMES && pmm.totalBlocks == MAX_BLOCKS
    ensures forall q: nat | FIRST_PAGE <= q < LAST_PAGE :: tables.State().Empty(q)
  {
    pmm, heap, tables := BootMemory(t);
    ghost var p, boot := tables.State(), tables.TableFrames();
    BootSane(p);
    EmptyBound(p.slots);
    MapFramebuffer(tables, fb, size);
    BootPartition(p.used, INITIAL_PAGES, heap.pages, boot, tables.TableFrames(), pmm.Used());
  }

  /** No threads, and an empty user heap. */
  method BootClients(pmm: FrameAllocator, tables: Tables) returns (machine: Machine, user: UserSpace)
    requires tables.Valid() && Sane(tables.State()) && tables.pmm == pmm
    ensures machine.Valid() && machine.pmm == pmm && StackFramesOf(machine.threads[..]) == {}
    ensures user.Valid() && user.tables == tables
    ensures fresh(machine) && fresh(machine.threads) && fresh(machine.mem) && fresh(user)
  {
    machine := new Machine(pmm);
    user := new UserSpace(tables);
  }

  /** Heap and stacks are near. */
  lemma StartsNear(s: System)
    requires s.Valid() && s.StackFrames() == {} && forall f | f in s.heap.pages :: f < WINDOW
    ensures Near(s.Snap({}))
  {
    assert StackFramesOf(s.Snap({}).kernel.threads) == s.StackFrames();
  }

  /** Nothing of the user heap is mapped, and the frames from the counter on are free. */
  lemma StartsUnused(user: UserSpace)
    requires user.Valid() && user.tables.pmm.Packed() && user.tables.pmm.totalBlocks == MAX_BLOCKS
    requires user.tables.pmm.usedBlocks < MAX_BLOCKS
    requires forall q: nat | FIRST_PAGE <= q < LAST_PAGE :: user.tables.State().Empty(q)
    requires forall q: nat | FIRST_PAGE <= q < LAST_PAGE :: user.tables.State().view.At(q) == Absent
    ensures Unused(user.View(), user.tables.pmm.usedBlocks) && RESERVED <= user.tables.pmm.usedBlocks
  {
    user.Stock();
    user.tables.pmm.PackedNext();
    assert user.View().paging.supply[0] == user.tables.pmm.usedBlocks;
  }

  /** The objects, and the order of `kernel_main` over them. */
  method BootSystem(t: seq<nat>, fb: nat, size: nat) returns (s: System)
    requires |t| == 4 && forall i | 0 <= i < 4 :: 0 < t[i] < RESERVED
    requires forall i, j | 0 <= i < j < 4 :: t[i] != t[j]
    requires MAX_BLOCKS * PAGE_SIZE <= fb && fb + size <= PagingFormat.TWO_32
    ensures fresh(s.user) && fresh(s.user.tables.directory) && fresh(s.user.tables.ram) && fresh(s.pmm)
            && fresh(s.pmm.bitmap)
    ensures s.Valid() && s.boot == (set i | 0 <= i < 4 :: t[i]) && s.StackFrames() == {}
    ensures s.heap.blocks == BootBlocks()
    ensures s.user.tables.View() == Identity(BootView(), fb / PAGE_SIZE, (size + PAGE_SIZE - 1) / PAGE_SIZE)
    ensures s.pmm.Packed() && s.pmm.usedBlocks <= BOOT_FRAMES && s.pmm.totalBlocks == MAX_BLOCKS
    ensures forall f | f in s.heap.pages :: f < WINDOW
    ensures forall q: nat | FIRST_PAGE <= q < LAST_PAGE :: s.user.tables.State().Empty(q)
  {
    var pmm, heap, tables := BootVideo(t, fb, size);
    var machine, user := BootClients(pmm, tables);
    s := new System(pmm, heap, user, machine, set i | 0 <= i < 4 :: t[i]);
  }

  /** The order of `kernel_main`, with 128 MB, the static tables in frames `t` and a
      framebuffer of `size` bytes at `fb` (none when `size` is 0). */
  method Boot(t: seq<nat>, fb: nat, size: nat) returns (s: System)
    requires |t| == 4 && forall i | 0 <= i < 4 :: 0 < t[i] < RESERVED
    requires forall i, j | 0 <= i < j < 4 :: t[i] != t[j]
    requires MAX_BLOCKS * PAGE_SIZE <= fb && fb + size <= PagingFormat.TWO_32
    ensures fresh(s.user) && fresh(s.user.tables.directory) && fresh(s.user.tables.ram) && fresh(s.pmm)
            && fresh(s.pmm.bitmap)
    ensures s.Valid() && s.boot == (set i | 0 <= i < 4 :: t[i]) && Near(s.Snap({}))
    ensures s.heap.blocks == BootBlocks()
    ensures s.user.tables.View() == Identity(BootView(), fb / PAGE_SIZE, (size + PAGE_SIZE - 1) / PAGE_SIZE)
    ensures s.pmm.Packed() && RESERVED <= s.pmm.usedBlocks <= BOOT_FRAMES && Unused(s.user.View(), s.pmm.usedBlocks)
  {
    s := BootSystem(t, fb, size);
    StartsNear(s);
    StartsUnused(s.user);
  }

  /** The failing input on an unused heap: see `WreckedRun`. */
  method RunWrecked(user: UserSpace, ghost n: nat) returns (done: nat, r: FaultOutcome)
    requires user.Valid() && Unused(user.View(), n) && RESERVED <= n <= BOOT_FRAMES
    modifies user`brkCurrent, user.tables.directory, user.tables.ram, user.tables.pmm`usedBlocks, user.tables.pmm.bitmap
    ensures r == Wrecked && user.tables.Shape() && user.tables.pmm.Shape() && Broken(user.tables.State())
  {
    var slots := 7;
    var program := Preparation(slots) + [Touch(PageAddr(ENTRIES * slots))];
    Addresses(slots, ENTRIES * slots);
    ghost var u := user.View();
    done, r := user.Run(program);
    EndsWrecked(u, n, slots, done, r);
  }

  /** From boot, that program makes the kernel lose its page tables. */
  method LoseTables(t: seq<nat>, fb: nat, size: nat) returns (s: System, done: nat, r: FaultOutcome)
    requires |t| == 4 && forall i | 0 <= i < 4 :: 0 < t[i] < RESERVED
    requires forall i, j | 0 <= i < j < 4 :: t[i] != t[j]
    requires MAX_BLOCKS * PAGE_SIZE <= fb && fb + size <= PagingFormat.TWO_32
    ensures r == Wrecked && s.user.tables.Shape() && s.user.tables.pmm.Shape() && Broken(s.user.tables.State())
  {
    s := Boot(t, fb, size);
    done, r := RunWrecked(s.user, s.pmm.usedBlocks);
  }
}
