/** Who owns which physical frame. */
module FramePartition {
  import opened Frames

  /** The four kinds of owner have no frame in common, and own only frames in use.
      Whatever came from the allocator lies above the reserved frames; page tables may
      also be the static ones of the kernel image, and a stack may be in frame 0. */
  ghost predicate Partition(used: set<nat>, heap: set<nat>, stacks: set<nat>, tables: set<nat>, user: set<nat>) {
    && heap <= used && stacks <= used && tables <= used && user <= used
    && heap !! stacks && heap !! tables && heap !! user && stacks !! tables && stacks !! user && tables !! user
    && (forall f | f in heap :: RESERVED <= f) && (forall f | f in user :: RESERVED <= f)
    && (forall f | f in stacks :: f == 0 || RESERVED <= f)
    && 0 !in tables
  }

  /** Page tables are the boot ones, or came from the allocator. */
  ghost predicate Placed(tables: set<nat>, boot: set<nat>) {
    forall f | f in tables :: f in boot || RESERVED <= f
  }

  /** The kernel reaches them. */
  ghost predicate AllNear(frames: set<nat>) {
    forall f | f in frames :: f < WINDOW
  }

  lemma StillPlaced(used: set<nat>, tables: set<nat>, more: set<nat>, boot: set<nat>)
    requires Placed(tables, boot) && (more - tables) !! used && forall f: nat | f < RESERVED :: f in used
    ensures Placed(more, boot)
  {
    forall f | f in more ensures f in boot || RESERVED <= f {
      assert f in tables || f in more - tables;
    }
  }

  /** The frames of the heap and the tables are apart after boot. */
  lemma BootPartition(used: set<nat>, n: nat, heap: seq<nat>, boot: set<nat>, tables: set<nat>, used': set<nat>)
    requires forall f | f in boot :: 0 < f < RESERVED
    requires forall f: nat :: f in used <==> f < RESERVED + n
    requires used <= used' && boot <= tables <= used' && (tables - boot) !! used
    requires heap == Run(RESERVED, n)
    ensures Partition(used', Elements(heap), {}, tables, {}) && Placed(tables, boot)
  {
    assert forall f | f in heap :: RESERVED <= f < RESERVED + n;
    forall f | f in tables ensures (f in boot || f !in used) && 0 < f && f !in heap {
      assert f in boot || f in tables - boot;
    }
  }

  lemma HeapGrows(used: set<nat>, heap: set<nat>, stacks: set<nat>, tables: set<nat>, user: set<nat>, more: set<nat>)
    requires Partition(used, heap, stacks, tables, user) && used !! more && forall f | f in more :: RESERVED <= f
    ensures Partition(used + more, heap + more, stacks, tables, user)
  {
  }

  lemma StacksGrow(used: set<nat>, heap: set<nat>, stacks: set<nat>, tables: set<nat>, user: set<nat>, f: nat)
    requires Partition(used, heap, stacks, tables, user)
    requires if f == 0 then 0 in used else f !in used && RESERVED <= f
    ensures Partition(used + {f}, heap, stacks + {f}, tables, user)
  {
    assert f == 0 ==> f !in heap && f !in tables && f !in user;
  }

  lemma UserGrows(used: set<nat>, heap: set<nat>, stacks: set<nat>, tables: set<nat>, user: set<nat>, d: nat,
                  t: set<nat>)
    requires Partition(used, heap, stacks, tables, user)
    requires d !in used && RESERVED <= d && used + {d} !! t && 0 in used
    ensures Partition(used + {d} + t, heap, stacks, tables + t, user + {d})
  {
  }

  lemma Leaks(used: set<nat>, heap: set<nat>, stacks: set<nat>, tables: set<nat>, user: set<nat>, more: set<nat>)
    requires Partition(used, heap, stacks, tables, user)
    ensures Partition(used + more, heap, stacks, tables, user)
  {
  }
}

/** The steps of the allocator's clients, on values. */
module SystemSteps {
  import opened Frames
  import opened BlockList
  import opened HeapLinks
  import opened KernelHeap
  import opened PagingFormat
  import opened UserHeapView
  import opened UserRuns
  import opened Contexts
  import opened ThreadSteps
  import opened FramePartition

  datatype SystemStep =
    | Allocate(size: nat)
    | Release(p: nat)
    | SetBreak(newBrk: nat)
    | Access(addr: nat)
    | Threading(step: ThreadSteps.Step)

  /** Heap, pointers held, user memory and threads; all know the frames in use. */
  datatype Snapshot = Snapshot(heap: HeapView, pointers: set<nat>, user: UserView, kernel: Kernel) {
    ghost function Supply(): seq<nat> {
      user.paging.supply
    }

    /** What kmalloc finds. */
    ghost function HeapBefore(): HeapState {
      HeapState(heap, Supply() == [], if Supply() == [] then 0 else Supply()[0])
    }

    /** With other frames in use and left. */
    ghost function With(used: set<nat>, supply: seq<nat>): Snapshot {
      Snapshot(heap.(used := used), pointers, user.(paging := user.paging.(used := used, supply := supply)),
               kernel.(used := used))
    }
  }

  /** `kmalloc` returned `p`. */
  ghost predicate Mallocs(s: Snapshot, size: nat, p: nat, s': Snapshot) {
    && s' == s.(heap := s'.heap, pointers := if p == 0 then s.pointers else s.pointers + {p})
              .With(s'.heap.used, s'.Supply())
    && (exists reach :: Taken(s.heap.pages, s.Supply(), s'.heap.pages, s'.Supply(), reach))
    && if size == 0 then p == 0 && s'.heap == s.heap else Kmalloced(s.HeapBefore(), RoundUp4(size), s'.heap, p)
  }

  lemma MallocsIs(s: Snapshot, size: nat, p: nat, s': Snapshot, reach: bool)
    requires s'.user == s.user.(paging := s.user.paging.(used := s'.heap.used, supply := s'.Supply()))
    requires s'.kernel == s.kernel.(used := s'.heap.used)
    requires s'.pointers == if p == 0 then s.pointers else s.pointers + {p}
    requires Taken(s.heap.pages, s.Supply(), s'.heap.pages, s'.Supply(), reach)
    requires if size == 0 then p == 0 && s'.heap == s.heap else Kmalloced(s.HeapBefore(), RoundUp4(size), s'.heap, p)
    ensures Mallocs(s, size, p, s')
  {
  }

  /** At most one frame was taken, the next of the supply. */
  ghost predicate FramesGone(used: set<nat>, supply: seq<nat>, used': set<nat>, supply': seq<nat>) {
    exists taken: seq<nat> :: |taken| <= 1 && supply == taken + supply' && used' == used + Elements(taken)
  }

  /** One step takes `s` to `s'`; what the source rules out is passed over. */
  ghost predicate StepOk(s: Snapshot, step: SystemStep, s': Snapshot) {
    match step
    case Allocate(size) =>
      if size < KernelHeap.TWO_32 then exists p :: Mallocs(s, size, p, s') else s' == s
    case Release(p) =>
      if p in s.pointers && p >= HEADER
      then s' == s.(heap := s.heap.(blocks := Kfree(s.heap.blocks, p - HEADER)), pointers := s.pointers - {p})
      else s' == s
    case SetBreak(newBrk) =>
      if newBrk < PagingFormat.TWO_32 then s' == s.(user := StepTo(s.user, Brk(newBrk))) else s' == s
    case Access(addr) =>
      if addr < PagingFormat.TWO_32 then
        var u := StepTo(s.user, Touch(addr));
        s' == s.(user := u).With(u.paging.used, u.paging.supply)
      else s' == s
    case Threading(t) =>
      if LegalIn(s.kernel, t) then
        && Moves(s.kernel, t, s'.kernel) && s' == s.(kernel := s'.kernel).With(s'.kernel.used, s'.Supply())
        && FramesGone(s.kernel.used, s.Supply(), s'.kernel.used, s'.Supply())
      else s' == s
  }

  /** The machine halts, or its tables are lost. */
  ghost predicate Ends(s: Snapshot, step: SystemStep) {
    step.Access? && step.addr < PagingFormat.TWO_32 && StepFate(s.user, Touch(step.addr)) in {Halted, Stuck, Wrecked}
  }

  /** The kernel reaches the heap and all stacks. */
  ghost predicate Near(s: Snapshot) {
    (forall f | f in s.heap.pages :: f < WINDOW) && AllNear(StackFramesOf(s.kernel.threads))
  }

  /** Why a run stops: the step ends the machine, or puts heap or stack beyond the window. */
  ghost predicate Stops(s: Snapshot, step: SystemStep) {
    Ends(s, step) || exists s' :: StepOk(s, step, s') && !Near(s')
  }

  /** Who owns what is settled. */
  ghost predicate Settles(s: Snapshot, boot: set<nat>) {
    && Partition(s.heap.used, Elements(s.heap.pages), StackFramesOf(s.kernel.threads), s.user.paging.Tables(),
                 Owned(s.user.paging.view).Values)
    && Placed(s.user.paging.Tables(), boot)
    && Canonical(s.heap.blocks) && Extent(s.heap.blocks) == PageBytes(s.heap.pages)
    && Apart(s.heap.blocks) && Holding(s.heap.blocks, s.pointers) && Sane(s.user.paging) && Ok(s.kernel)
  }

  /** A run of `done` steps through the states of `trace`, every one of them settled and
      within the kernel's reach. */
  ghost predicate Traced(steps: seq<SystemStep>, done: nat, trace: seq<Snapshot>, boot: set<nat>) {
    && done <= |steps| && |trace| == done + 1
    && (forall i | 0 <= i < |trace| :: Settles(trace[i], boot) && Near(trace[i]))
    && forall i | 0 <= i < done :: !Ends(trace[i], steps[i]) && StepOk(trace[i], steps[i], trace[i + 1])
  }

  lemma TraceMore(steps: seq<SystemStep>, done: nat, trace: seq<Snapshot>, s: Snapshot, boot: set<nat>)
    requires Traced(steps, done, trace, boot) && done < |steps|
    requires !Ends(trace[done], steps[done]) && StepOk(trace[done], steps[done], s) && Settles(s, boot) && Near(s)
    ensures Traced(steps, done + 1, trace + [s], boot)
  {
    var more := trace + [s];
    forall i | 0 <= i < |more| ensures Settles(more[i], boot) && Near(more[i]) {
      assert i <= done ==> more[i] == trace[i];
    }
    forall i | 0 <= i < done + 1 ensures !Ends(more[i], steps[i]) && StepOk(more[i], steps[i], more[i + 1]) {
      assert more[i] == trace[i];
      assert i < done ==> more[i + 1] == trace[i + 1];
    }
  }
}

/** The allocator's clients together: heap, threads, page tables and the user heap. */
module Ownership {
  import opened Frames
  import opened BlockList
  import opened HeapLinks
  import opened KernelHeap
  import opened PagingFormat
  import opened PageTables
  import opened UserHeapView
  import opened UserRuns
  import opened DemandPaging
  import opened RoundRobin
  import opened Contexts
  import opened ThreadSteps
  import opened Threads
  import opened FramePartition
  import opened SystemSteps

  class System {
    const pmm: FrameAllocator
    const heap: Heap
    const user: UserSpace
    const machine: Machine
    /** The static tables of the kernel image. */
    ghost const boot: set<nat>

    ghost predicate Wired()
      reads user, machine
    {
      && heap.pmm == pmm && user.tables.pmm == pmm && machine.pmm == pmm
      && user.tables.directory as object != machine.mem && user.tables.directory as object != machine.threads
      && user.tables.directory as object != pmm.bitmap && user.tables.ram as object != pmm.bitmap
      && machine.threads as object != pmm.bitmap && machine.mem as object != pmm.bitmap
    }

    ghost function HeapFrames(): set<nat>
      reads heap
    {
      Elements(heap.pages)
    }

    ghost function StackFrames(): set<nat>
      reads machine, machine.threads
    {
      StackFramesOf(machine.threads[..])
    }

    ghost function UserFrames(): set<nat>
      reads user, user.tables, user.tables.directory, user.tables.ram
      requires user.tables.Shape()
    {
      Owned(user.tables.View()).Values
    }

    ghost predicate Valid()
      reads pmm, pmm.bitmap, heap, user, user.tables, user.tables.directory, user.tables.ram,
            machine, machine.threads, machine.mem
    {
      && Wired() && heap.Valid() && user.Valid() && machine.Valid()
      && Partition(pmm.Used(), HeapFrames(), StackFrames(), user.tables.TableFrames(), UserFrames())
      && Placed(user.tables.TableFrames(), boot)
    }

    constructor (pmm: FrameAllocator, heap: Heap, user: UserSpace, machine: Machine, ghost boot: set<nat>)
      requires heap.pmm == pmm && user.tables.pmm == pmm && machine.pmm == pmm
      requires user.tables.directory as object != machine.mem && user.tables.directory as object != machine.threads
      requires user.tables.directory as object != pmm.bitmap && user.tables.ram as object != pmm.bitmap
      requires machine.threads as object != pmm.bitmap && machine.mem as object != pmm.bitmap
      requires heap.Valid() && user.Valid() && machine.Valid()
      requires Partition(pmm.Used(), Elements(heap.pages), StackFramesOf(machine.threads[..]),
                         user.tables.TableFrames(), Owned(user.tables.View()).Values)
      requires Placed(user.tables.TableFrames(), boot)
      ensures Valid() && this.pmm == pmm && this.heap == heap && this.user == user && this.machine == machine
      ensures this.boot == boot
    {
      this.pmm, this.heap, this.user, this.machine := pmm, heap, user, machine;
      this.boot := boot;
    }

    // ---- one client allocates, the others keep what they have ----------------

    twostate lemma MachineKept()
      requires old(Valid()) && Wired() && pmm.Ready() && old(pmm.Used()) <= pmm.Used()
      requires unchanged(machine) && unchanged(machine.threads) && unchanged(machine.mem)
      ensures machine.Valid() && StackFrames() == old(StackFrames())
      ensures machine.State() == old(machine.State()).(used := pmm.Used())
    {
      MoreFrames(old(machine.State()), pmm.Used());
      assert machine.State() == old(machine.State()).(used := pmm.Used());
    }

    twostate lemma UserKept()
      requires old(Valid()) && Wired() && pmm.Ready() && old(pmm.Used()) <= pmm.Used()
      requires unchanged(user) && unchanged(user.tables.directory) && unchanged(user.tables.ram)
      ensures user.Valid() && UserFrames() == old(UserFrames())
              && user.tables.TableFrames() == old(user.tables.TableFrames())
      ensures user.View()
              == old(user.View()).(paging := old(user.View()).paging.(used := pmm.Used(), supply := pmm.Supply()))
    {
      TakeMore(old(user.tables.State()), pmm.Used());
      assert old(pmm.Used()) + pmm.Used() == pmm.Used();
      SaneSupply(old(user.tables.State()).(used := pmm.Used()), pmm.Supply());
      assert user.tables.State() == old(user.tables.State()).(used := pmm.Used(), supply := pmm.Supply());
    }

    twostate lemma HeapKept()
      requires old(Valid()) && Wired() && pmm.Ready() && old(pmm.Used()) <= pmm.Used()
      requires unchanged(heap)
      ensures heap.Valid() && HeapFrames() == old(HeapFrames())
    {
    }

    /** `pointers` are those from kmalloc that have not been freed. */
    ghost function Snap(pointers: set<nat>): Snapshot
      reads pmm, pmm.bitmap, heap, user, user.tables, user.tables.directory, user.tables.ram,
            machine, machine.threads, machine.mem
      requires user.tables.Shape() && pmm.Shape() && Wired()
    {
      Snapshot(HeapView(heap.blocks, heap.pages, pmm.Used()), pointers, user.View(), machine.State())
    }

    // ---- what each client does ----------------------------------------------

    /** The heap's side of an allocation. */
    method HeapMalloc(size: nat, ghost held: set<nat>) returns (p: nat, reach: bool)
      requires Valid() && size < KernelHeap.TWO_32 && Holding(heap.blocks, held)
      modifies heap, pmm`usedBlocks, pmm.bitmap
      ensures heap.Valid() && old(pmm.Used()) <= pmm.Used()
      ensures Partition(pmm.Used(), HeapFrames(), old(StackFrames()), old(user.tables.TableFrames()), old(UserFrames()))
      ensures Holding(heap.blocks, if p == 0 then held else held + {p}) && (p != 0 ==> p !in held)
      ensures old(pmm.Packed()) ==> pmm.Packed()
      ensures Taken(old(heap.pages), old(pmm.Supply()), heap.pages, pmm.Supply(), reach)
      ensures if size == 0 then p == 0 && heap.View() == old(heap.View())
              else Kmalloced(old(Snap(held)).HeapBefore(), RoundUp4(size), heap.View(), p)
    {
      ghost var h := heap.Before();
      pmm.SupplyIs();
      p, reach := heap.Kmalloc(size);
      if size > 0 {
        PagesDistinct(heap.pages);
        HoldingAfter(h, RoundUp4(size), heap.View(), p, held);
      }
      HeapGain(h.view.used, h.view.pages, heap.pages, pmm.Used(), old(StackFrames()), old(user.tables.TableFrames()),
               old(UserFrames()));
    }

    /** A client of kmalloc, holding the pointers `held`. */
    method Malloc(size: nat, held: set<nat>) returns (p: nat, reach: bool, held': set<nat>)
      requires Valid() && size < KernelHeap.TWO_32 && Holding(heap.blocks, held)
      modifies heap, pmm`usedBlocks, pmm.bitmap
      ensures Valid() && Holding(heap.blocks, held') && (old(pmm.Packed()) ==> pmm.Packed())
      ensures held' == (if p == 0 then held else held + {p}) && (p != 0 ==> p !in held)
      ensures Mallocs(old(Snap(held)), size, p, Snap(held'))
      ensures Taken(old(heap.pages), old(pmm.Supply()), heap.pages, pmm.Supply(), reach)
    {
      ghost var s := Snap(held);
      p, reach := HeapMalloc(size, held);
      MachineKept();
      UserKept();
      held' := if p == 0 then held else held + {p};
      MallocsIs(s, size, p, Snap(held'), reach);
    }

    /** The frames a kmalloc obtained are new to everybody. */
    lemma HeapGain(used: set<nat>, before: seq<nat>, after: seq<nat>, used': set<nat>, s: set<nat>, t: set<nat>,
                   u: set<nat>)
      requires Partition(used, Elements(before), s, t, u)
      requires (before == after && used == used') || (before <= after && Obtained(used, after[|before|..], used'))
      requires forall f | f in after :: RESERVED <= f
      ensures used <= used' && Partition(used', Elements(after), s, t, u)
    {
      if before <= after {
        var more := after[|before|..];
        assert after == before + more;
        if Obtained(used, more, used') {
          assert forall f | f in Elements(more) :: f in after;
          HeapGrows(used, Elements(before), s, t, u, Elements(more));
          assert Elements(after) == Elements(before) + Elements(more);
        }
      }
    }

    method Free(p: nat, held: set<nat>) returns (held': set<nat>)
      requires Valid() && Holding(heap.blocks, held) && p in held
      modifies heap
      ensures Valid() && Holding(heap.blocks, held') && held' == held - {p} && p >= HEADER
      ensures Snap(held') == old(Snap(held)).(heap := old(heap.View()).(blocks := Kfree(old(heap.blocks), p - HEADER)),
                                              pointers := held')
    {
      assert PayloadOf(heap.blocks, p);
      HoldingLess(heap.blocks, p, held);
      heap.Kfree(p);
      held' := held - {p};
    }

    method SysBrk(newBrk: nat, ghost held: set<nat>)
      requires Valid() && newBrk < PagingFormat.TWO_32
      modifies user
      ensures Valid() && Snap(held) == old(Snap(held)).(user := StepTo(old(user.View()), Brk(newBrk)))
    {
      var _ := user.SysBrk(newBrk);
    }

    /** A fault either maps a new page or at most loses frames to nobody. */
    lemma FaultGain(p: Paging, q: nat, d: nat, p': Paging, h: set<nat>, s: set<nat>)
      requires Sane(p) && Mapped(p, q, d, p') && d >= RESERVED && FIRST_PAGE <= q < LAST_PAGE && p.view.At(q) == Absent
      requires 0 in p.used && Partition(p.used, h, s, p.Tables(), Owned(p.view).Values)
      ensures Partition(p'.used, h, s, p'.Tables(), Owned(p'.view).Values)
    {
      OwnedValues(p.view, q, d);
      SlotsGrow(p.slots, p'.slots);
      var t := p'.Tables() - p.Tables();
      UserGrows(p.used, h, s, p.Tables(), Owned(p.view).Values, d, t);
      assert p.used + {d} + t == p'.used && p.Tables() + t == p'.Tables();
    }

    /** However an access ends short of wrecking the tables, the frames stay partitioned. */
    lemma AccessEnds(u: UserView, addr: nat, h: set<nat>, s: set<nat>)
      requires u.Good() && (forall f: nat | f < RESERVED :: f in u.paging.used)
      requires Partition(u.paging.used, h, s, u.paging.Tables(), Owned(u.paging.view).Values)
      requires Placed(u.paging.Tables(), boot)
      ensures var p := StepTo(u, Touch(addr)).paging;
              && Partition(p.used, h, s, p.Tables(), Owned(p.view).Values) && Placed(p.Tables(), boot)
              && u.paging.used <= p.used
    {
      var p, q := u.paging, addr / PAGE_SIZE;
      if !u.Present(addr) && u.InHeap(addr) {
        if StepFate(u, Touch(addr)) == Resumed {
          ServedMaps(p, u.brk, q);
          FaultGain(p, q, p.supply[0], Served(p, q), h, s);
          StillPlaced(p.used, p.Tables(), Served(p, q).Tables(), boot);
        } else {
          SpentSane(p, u.brk, q);
          Leaks(p.used, h, s, p.Tables(), Owned(p.view).Values, Spent(p, u.brk, q).used);
          assert p.used + Spent(p, u.brk, q).used == Spent(p, u.brk, q).used;
        }
      }
    }

    /** A memory access of the user program. A frame lost to a failed mapping belongs to nobody. */
    method Access(addr: nat, ghost held: set<nat>) returns (r: FaultOutcome)
      requires Valid() && addr < PagingFormat.TWO_32
      modifies user.tables.directory, user.tables.ram, pmm`usedBlocks, pmm.bitmap
      ensures r == StepFate(old(user.View()), Touch(addr)) && (old(pmm.Packed()) ==> pmm.Packed())
      ensures r == Wrecked ==> user.tables.Shape() && Broken(user.tables.State())
      ensures r != Wrecked ==>
                var u := StepTo(old(user.View()), Touch(addr));
                Valid() && Snap(held) == old(Snap(held)).(user := u).With(u.paging.used, u.paging.supply)
    {
      ghost var u, h, s := user.View(), HeapFrames(), StackFrames();
      user.Stock();
      AccessEnds(u, addr, h, s);
      r := user.Access(addr);
      if r != Wrecked {
        MachineKept();
        HeapKept();
      }
    }

    /** A thread is created while memory lasts, or with the one stack in frame 0. */
    method CreateThread(entry: nat) returns (slot: nat)
      requires Valid() && machine.Legal(Spawn(entry))
      modifies machine, machine.threads, machine.mem, pmm`usedBlocks, pmm.bitmap
      ensures Valid() && (old(pmm.Packed()) ==> pmm.Packed())
      ensures Moves(old(machine.State()), Spawn(entry), machine.State())
      ensures FramesGone(old(pmm.Used()), old(pmm.Supply()), pmm.Used(), pmm.Supply())
      ensures user.View()
              == old(user.View()).(paging := old(user.View()).paging.(used := pmm.Used(), supply := pmm.Supply()))
      ensures slot == FirstOf(StatesOf(old(machine.threads[..])), ThreadState.Free)
    {
      ghost var k, h, t, u := machine.State(), HeapFrames(), user.tables.TableFrames(), UserFrames();
      ghost var supply := pmm.Supply();
      ghost var page;
      slot, page := machine.Create(entry);
      assert k.used <= pmm.Used();
      HeapKept();
      UserKept();
      TakenByThread(k.used, page, pmm.Used(), supply, pmm.Supply());
      if slot < MAX_THREADS {
        StackGain(k, slot, page, entry, machine.State(), h, t, u);
      }
    }

    method Create(entry: nat, ghost held: set<nat>) returns (near: bool)
      requires Valid() && machine.Legal(Spawn(entry))
      modifies machine, machine.threads, machine.mem, pmm`usedBlocks, pmm.bitmap
      ensures Valid() && (old(pmm.Packed()) ==> pmm.Packed())
      ensures StepOk(old(Snap(held)), Threading(Spawn(entry)), Snap(held))
      ensures Near(old(Snap(held))) ==> (near <==> Near(Snap(held)))
    {
      ghost var k := machine.State();
      var slot := CreateThread(entry);
      near := slot == MAX_THREADS || machine.threads[slot].stackBase / PAGE_SIZE < WINDOW;
      SpawnNear(k, entry, machine.State(), slot);
    }

    lemma SpawnNear(k: Kernel, entry: nat, k': Kernel, slot: nat)
      requires |k.threads| == MAX_THREADS && Moves(k, Spawn(entry), k')
      requires slot == FirstOf(StatesOf(k.threads), ThreadState.Free)
      ensures |k'.threads| == MAX_THREADS
      ensures AllNear(StackFramesOf(k'.threads)) <==>
              AllNear(StackFramesOf(k.threads))
                  && (slot == MAX_THREADS || k'.threads[slot].stackBase / PAGE_SIZE < WINDOW)
    {
      if slot < MAX_THREADS {
        StackFramesAfter(k.threads, slot, k'.threads[slot]);
        assert k'.threads[slot].Frame() in StackFramesOf(k'.threads);
      }
    }

    lemma TakenByThread(used: set<nat>, page: nat, used': set<nat>, supply: seq<nat>, supply': seq<nat>)
      requires PageTaken(used, page, used') && supply == (if page == 0 then [] else [page / PAGE_SIZE]) + supply'
      ensures FramesGone(used, supply, used', supply')
    {
      var taken := if page == 0 then [] else [page / PAGE_SIZE];
      assert Elements(taken) == if page == 0 then {} else {page / PAGE_SIZE};
      assert used' == used + Elements(taken);
    }

    lemma StackGain(k: Kernel, slot: nat, page: nat, entry: nat, k': Kernel, h: set<nat>, t: set<nat>, u: set<nat>)
      requires Ok(k) && slot < MAX_THREADS && k.threads[slot].state == ThreadState.Free
               && PageTaken(k.used, page, k'.used)
      requires k' == AfterCreated(k, slot, page, entry, k'.mem, k'.used)
      requires page == 0 || page / PAGE_SIZE >= RESERVED
      requires Partition(k.used, h, StackFramesOf(k.threads), t, u)
      ensures Partition(k'.used, h, StackFramesOf(k'.threads), t, u)
    {
      StackFramesAfter(k.threads, slot, k'.threads[slot]);
      StacksGrow(k.used, h, StackFramesOf(k.threads), t, u, page / PAGE_SIZE);
      assert k'.used == k.used + {page / PAGE_SIZE};
    }

    /** A thread computes: no frame changes hands. */
    method ComputeThread(r: Registers, writes: map<nat, nat>)
      requires Valid() && machine.Legal(Run(r, writes))
      modifies machine, machine.mem
      ensures Valid() && Moves(old(machine.State()), Run(r, writes), machine.State()) && user.View() == old(user.View())
    {
      machine.Compute(r, writes);
      HeapKept();
      UserKept();
    }

    method Compute(r: Registers, writes: map<nat, nat>, ghost held: set<nat>)
      requires Valid() && machine.Legal(Run(r, writes))
      modifies machine, machine.mem
      ensures Valid() && StepOk(old(Snap(held)), Threading(Run(r, writes)), Snap(held))
    {
      ComputeThread(r, writes);
      TakenByThread(pmm.Used(), 0, pmm.Used(), pmm.Supply(), pmm.Supply());
    }

    /** A thread calls `schedule`: nor here. */
    method ScheduleThread(ret: nat)
      requires Valid() && machine.Legal(Yield(ret))
      modifies machine, machine.threads, machine.mem
      ensures Valid() && Moves(old(machine.State()), Yield(ret), machine.State()) && user.View() == old(user.View())
    {
      machine.Reschedule(ret);
      HeapKept();
      UserKept();
    }

    method Schedule(ret: nat, ghost held: set<nat>)
      requires Valid() && machine.Legal(Yield(ret))
      modifies machine, machine.threads, machine.mem
      ensures Valid() && StepOk(old(Snap(held)), Threading(Yield(ret)), Snap(held))
    {
      ScheduleThread(ret);
      TakenByThread(pmm.Used(), 0, pmm.Used(), pmm.Supply(), pmm.Supply());
    }

    /** The kernel reaches memory through its identity map of the frames below `WINDOW`.
        As long as nothing is given back, everything is in there exactly until `WINDOW`
        frames are in use. */
    lemma InWindow()
      requires Valid() && pmm.Packed()
      ensures (forall f | f in pmm.Used() :: f < WINDOW) <==> pmm.usedBlocks <= WINDOW
      ensures pmm.usedBlocks <= WINDOW ==> forall f | f in HeapFrames() + StackFrames() :: f < WINDOW
      ensures !pmm.Exhausted() ==> (pmm.NextFrame() < WINDOW <==> pmm.usedBlocks < WINDOW)
    {
      pmm.PackedNext();
      assert pmm.usedBlocks > WINDOW ==> WINDOW in pmm.Used();
    }

    // ---- runs ---------------------------------------------------------------

    lemma SnapSettles(held: set<nat>)
      requires Valid() && Holding(heap.blocks, held)
      ensures Settles(Snap(held), boot)
    {
      TilesApart(heap.blocks, heap.pages);
    }

    /** The heap took pages; `reach` tells whether they lie in the window. */
    lemma NearAfter(s: Snapshot, s': Snapshot, reach: bool)
      requires Near(s) && s'.kernel.threads == s.kernel.threads
      requires Taken(s.heap.pages, s.Supply(), s'.heap.pages, s'.Supply(), reach)
      ensures Near(s') <==> reach
    {
      var n := |s.heap.pages|;
      assert s'.heap.pages == s.heap.pages + s'.heap.pages[n..];
      if Near(s') {
        assert forall i | 0 <= i < |s'.heap.pages[n..]| :: s'.heap.pages[n..][i] in s'.heap.pages;
      }
    }

    /** The state before was `s`. A step fails when it ends the machine or puts heap or stack
        where the kernel does not reach. */
    ghost predicate Stepped(s: Snapshot, step: SystemStep, held: set<nat>, ok: bool)
      reads pmm, pmm.bitmap, heap, user, user.tables, user.tables.directory, user.tables.ram,
            machine, machine.threads, machine.mem
    {
      if ok then
        && Valid() && Holding(heap.blocks, held) && Near(Snap(held))
        && !Ends(s, step) && StepOk(s, step, Snap(held))
      else Stops(s, step)
    }

    method DoAllocate(size: nat, held: set<nat>) returns (ok: bool, held': set<nat>)
      requires Valid() && Holding(heap.blocks, held) && Near(Snap(held))
      modifies heap, pmm`usedBlocks, pmm.bitmap
      ensures Stepped(old(Snap(held)), Allocate(size), held', ok) && (old(pmm.Packed()) ==> pmm.Packed())
    {
      ok, held' := true, held;
      if size < KernelHeap.TWO_32 {
        ghost var s := Snap(held);
        var p;
        p, ok, held' := Malloc(size, held);
        NearAfter(s, Snap(held'), ok);
        assert StepOk(s, Allocate(size), Snap(held'));
      }
    }

    method DoRelease(p: nat, held: set<nat>) returns (held': set<nat>)
      requires Valid() && Holding(heap.blocks, held) && Near(Snap(held))
      modifies heap
      ensures Stepped(old(Snap(held)), Release(p), held', true)
    {
      held' := held;
      if p in held {
        held' := Free(p, held);
      }
    }

    method DoAccess(addr: nat, ghost held: set<nat>) returns (ok: bool)
      requires Valid() && Holding(heap.blocks, held) && Near(Snap(held))
      modifies user.tables.directory, user.tables.ram, pmm`usedBlocks, pmm.bitmap
      ensures Stepped(old(Snap(held)), SystemStep.Access(addr), held, ok) && (old(pmm.Packed()) ==> pmm.Packed())
    {
      ok := true;
      if addr < PagingFormat.TWO_32 {
        var r := Access(addr, held);
        ok := r == Resumed || r == Retried;
      }
    }

    method DoThread(t: ThreadSteps.Step, ghost held: set<nat>) returns (ok: bool)
      requires Valid() && Holding(heap.blocks, held) && Near(Snap(held))
      modifies machine, machine.threads, machine.mem, pmm`usedBlocks, pmm.bitmap
      ensures Stepped(old(Snap(held)), Threading(t), held, ok) && (old(pmm.Packed()) ==> pmm.Packed())
    {
      ok := true;
      if machine.Legal(t) {
        match t {
          case Run(r, writes) => Compute(r, writes, held);
          case Yield(ret) => Schedule(ret, held);
          case Spawn(entry) => ok := Create(entry, held);
        }
      }
    }

    method Perform(step: SystemStep, held: set<nat>) returns (ok: bool, held': set<nat>)
      requires Valid() && Holding(heap.blocks, held) && Near(Snap(held))
      modifies heap, user, user.tables.directory, user.tables.ram, machine, machine.threads, machine.mem,
               pmm`usedBlocks, pmm.bitmap
      ensures Stepped(old(Snap(held)), step, held', ok) && (old(pmm.Packed()) ==> pmm.Packed())
    {
      ok, held' := true, held;
      match step {
        case Allocate(size) => ok, held' := DoAllocate(size, held);
        case Release(p) => held' := DoRelease(p, held);
        case SetBreak(newBrk) =>
          if newBrk < PagingFormat.TWO_32 {
            SysBrk(newBrk, held);
          }
        case Access(addr) => ok := DoAccess(addr, held);
        case Threading(t) => ok := DoThread(t, held);
      }
    }

    /** Over every run from a settled state, up to a step that ends the machine or puts heap
        or stack beyond the window: heap pages, thread stacks, page tables and user pages
        stay on different frames, and live kmalloc pointers on disjoint blocks. */
    method RunAll(steps: seq<SystemStep>, held: set<nat>)
        returns (done: nat, held': set<nat>, ghost trace: seq<Snapshot>)
      requires Valid() && Holding(heap.blocks, held) && Near(Snap(held))
      modifies heap, user, user.tables.directory, user.tables.ram, machine, machine.threads, machine.mem,
               pmm`usedBlocks, pmm.bitmap
      ensures Traced(steps, done, trace, boot) && trace[0] == old(Snap(held))
      ensures done == |steps| ==> Valid() && Holding(heap.blocks, held') && trace[done] == Snap(held')
      ensures done < |steps| ==> Stops(trace[done], steps[done])
      ensures old(pmm.Packed()) ==> pmm.Packed()
    {
      done, held', trace := 0, held, [Snap(held)];
      SnapSettles(held);
      while done < |steps|
        invariant Valid() && Holding(heap.blocks, held') && Near(Snap(held'))
        invariant Traced(steps, done, trace, boot) && trace[0] == old(Snap(held)) && trace[done] == Snap(held')
        invariant old(pmm.Packed()) ==> pmm.Packed()
      {
        var ok;
        ok, held' := Perform(steps[done], held');
        if !ok {
          return;
        }
        SnapSettles(held');
        TraceMore(steps, done, trace, Snap(held'), boot);
        trace := trace + [Snap(held')];
        done := done + 1;
      }
    }
  }
}
