/** The user heap: `sys_brk` and the demand-paging branch of the page-fault handler. */
module DemandPaging {
  import opened Frames
  import opened PagingFormat
  import opened PageTables
  import opened UserHeapView
  import opened UserRuns

  class UserSpace {
    const tables: Tables
    var brkCurrent: nat

    ghost predicate Valid()
      reads this, tables, tables.directory, tables.ram, tables.pmm, tables.pmm.bitmap
    {
      tables.Valid() && BRK_START <= brkCurrent <= BRK_LIMIT && Sane(tables.State())
    }

    constructor (tables: Tables)
      requires tables.Valid() && Sane(tables.State())
      ensures this.tables == tables && Valid() && brkCurrent == BRK_START
    {
      this.tables := tables;
      brkCurrent := BRK_START;
    }

    method SysBrk(newBrk: nat) returns (r: nat)
      requires Valid() && newBrk < TWO_32
      modifies this`brkCurrent
      ensures Valid() && r == brkCurrent
      ensures brkCurrent == if 0x200_0000 <= newBrk <= 0x400_0000 then newBrk else old(brkCurrent)
    {
      if newBrk == 0 {
        return brkCurrent;
      }
      if newBrk < BRK_START {
        return brkCurrent;
      }
      if newBrk > BRK_LIMIT {
        return brkCurrent;
      }
      brkCurrent := newBrk;
      return brkCurrent;
    }

    ghost predicate InHeap(addr: nat)
      reads this
    {
      BRK_START <= addr < brkCurrent
    }

    lemma Stock()
      requires tables.Valid()
      ensures Stocked(tables.State())
    {
      tables.pmm.SupplyIs();
    }

    /** A frame for the page, if there is one. */
    method TakePage() returns (page: nat)
      requires Valid()
      modifies tables.pmm`usedBlocks, tables.pmm.bitmap
      ensures Valid() && page < TWO_32 && (page == 0 <==> old(tables.State()).supply == [])
      ensures page == 0 ==> tables.State() == old(tables.State())
      ensures page != 0 ==>
                && page / PAGE_SIZE == old(tables.State()).supply[0] && tables.State() == old(tables.State()).Took(1)
                && Idle(tables.State(), page / PAGE_SIZE)
      ensures old(tables.pmm.Packed()) ==> tables.pmm.Packed()
    {
      ghost var p := tables.State();
      Stock();
      tables.pmm.SupplyIs();
      page := tables.pmm.AllocPage();
      if page != 0 {
        SaneReachable(p);
        FirstTaken(p, page / PAGE_SIZE, tables.State());
        TookOne(p);
      }
    }

    // ---- the handler ------------------------------------------------------

    /** The state `p` before and the present one, for a fault on page `q` that ended with `r`. */
    ghost predicate FaultEnds(p: Paging, q: nat, r: FaultOutcome)
      reads this, tables, tables.directory, tables.ram, tables.pmm, tables.pmm.bitmap
    {
      && tables.Shape() && tables.pmm.Ready() && r == Fate(p, brkCurrent, q)
      && match r
         case Resumed => Valid() && tables.State() == Served(p, q)
         case Wrecked => Lost(Spent(p, brkCurrent, q))
         case _ => Valid() && tables.State() == Spent(p, brkCurrent, q)
    }

    /** The same for its call of `page_map`. */
    ghost predicate MapEnds(p: Paging, q: nat, d: nat, r: FaultOutcome)
      reads this, tables, tables.directory, tables.ram, tables.pmm, tables.pmm.bitmap
    {
      && tables.Shape() && tables.pmm.Ready() && r == MapFate(p, brkCurrent, q)
      && match r
         case Resumed => Valid() && tables.State() == MappedTo(p, q, Entry(d, USER_RW))
         case Wrecked => Lost(MapSpent(p, brkCurrent, q))
         case _ => Valid() && tables.State() == MapSpent(p, brkCurrent, q)
    }

    /** The tables are lost, with the frames taken that `p` has taken. */
    ghost predicate Lost(p: Paging)
      reads this, tables, tables.directory, tables.ram, tables.pmm, tables.pmm.bitmap
      requires tables.Shape() && tables.pmm.Shape()
    {
      Broken(tables.State()) && tables.State().used == p.used && tables.State().supply == p.supply
    }

    /** The handler for an address in the heap, on page `q`. */
    method Serve(addr: nat, ghost q: nat) returns (r: FaultOutcome)
      requires Valid() && InHeap(addr) && q == addr / PAGE_SIZE
      modifies tables.directory, tables.ram, tables.pmm`usedBlocks, tables.pmm.bitmap
      ensures FaultEnds(old(tables.State()), q, r)
      ensures r == Retried || r == Halted || r == Stuck ==> unchanged(tables.directory) && unchanged(tables.ram)
      ensures old(tables.pmm.Packed()) ==> tables.pmm.Packed()
      decreases |tables.pmm.Supply()|, 1
    {
      var page := TakePage();
      if page == 0 {
        return Halted;
      }
      r := MapUser(addr, page, Mapping(addr / PAGE_SIZE, page / PAGE_SIZE, USER_RW));
    }

    /** `page_map` with the faults it takes itself. */
    method MapUser(addr: nat, page: nat, ghost m: Mapping) returns (r: FaultOutcome)
      requires Valid() && BRK_START <= addr < BRK_LIMIT && page < TWO_32
      requires m == Mapping(addr / PAGE_SIZE, page / PAGE_SIZE, USER_RW) && Idle(tables.State(), m.frame)
      modifies tables.directory, tables.ram, tables.pmm`usedBlocks, tables.pmm.bitmap
      ensures MapEnds(old(tables.State()), m.page, m.frame, r)
      ensures r == Retried || r == Halted || r == Stuck ==> unchanged(tables.directory) && unchanged(tables.ram)
      ensures old(tables.pmm.Packed()) ==> tables.pmm.Packed()
      decreases |tables.pmm.Supply()|, 3
    {
      ghost var p, q := tables.State(), m.page;
      var o, f := PageMap(addr, page, m);
      match o {
        case MappedPage => r := Resumed;
        case NoFrame => r := Retried;
        case Astray => r := Wrecked;
        case Faulting =>
          r := Nested(f, addr, page, m, p);
      }
    }

    /** The call itself, up to a fault of its own. */
    method PageMap(addr: nat, page: nat, ghost m: Mapping) returns (o: MapOutcome, f: nat)
      requires Valid() && BRK_START <= addr < BRK_LIMIT && page < TWO_32
      requires m == Mapping(addr / PAGE_SIZE, page / PAGE_SIZE, USER_RW) && Idle(tables.State(), m.frame)
      modifies tables.directory, tables.ram, tables.pmm`usedBlocks, tables.pmm.bitmap
      ensures o == MapOutcomeFor(old(tables.State()), m.page) && (old(tables.pmm.Packed()) ==> tables.pmm.Packed())
      ensures o == Faulting ==>
                && Valid() && tables.State() == old(tables.State()).Took(1) && f == old(tables.State()).supply[0]
                && Stocked(old(tables.State()))
      ensures o != Faulting ==> MapEnds(old(tables.State()), m.page, m.frame,
                                        match o case MappedPage => Resumed case NoFrame => Retried case _ => Wrecked)
      ensures o == NoFrame || o == Faulting ==> unchanged(tables.directory) && unchanged(tables.ram)
    {
      ghost var p := tables.State();
      Stock();
      SaneReachable(p);
      UserEntry(m.frame);
      tables.pmm.SupplyIs();
      o, f := tables.PageMap(addr, page, USER_RW);
      if o == MappedPage {
        MappedSane(p, m.page, m.frame);
      } else if o != NoFrame {
        TookOne(p);
      }
    }

    /** The page of the new table's frame `f` is absent: the kernel faults there. */
    method Nested(f: nat, addr: nat, page: nat, ghost m: Mapping, ghost p: Paging) returns (r: FaultOutcome)
      requires Sane(p) && Stocked(p) && MapOutcomeFor(p, m.page) == Faulting && f == p.supply[0]
      requires Valid() && tables.State() == p.Took(1) && addr < TWO_32 && page < TWO_32
      requires m == Mapping(addr / PAGE_SIZE, page / PAGE_SIZE, USER_RW)
      modifies tables.directory, tables.ram, tables.pmm`usedBlocks, tables.pmm.bitmap
      ensures MapEnds(p, m.page, m.frame, r)
      ensures r == Retried || r == Halted || r == Stuck ==> unchanged(tables.directory) && unchanged(tables.ram)
      ensures old(tables.pmm.Packed()) ==> tables.pmm.Packed()
      decreases |tables.pmm.Supply()|, 4
    {
      assert tables.State().view.At(f) == tables.Translate(f);
      r := Reach(f);
      if r == Resumed {
        r := Finish(f, Mapping(addr / PAGE_SIZE, page / PAGE_SIZE, USER_RW), p);
      } else if r == Halted && !(BRK_START <= PAGE_SIZE * f < brkCurrent) {
        r := Stuck;
      }
    }

    /** The stores of `page_map` to page `f`, once a fault has mapped it. */
    method Finish(f: nat, m: Mapping, ghost p: Paging) returns (r: FaultOutcome)
      requires Sane(p) && Stocked(p) && p.supply != [] && f == p.supply[0] && WINDOW <= f && p.view.At(f) == Absent
      requires p.Empty(m.page) && m.page < VIRTUAL_PAGES && InBreak(f, brkCurrent)
               && Fate(p.Took(1), brkCurrent, f) == Resumed
      requires Valid() && tables.State() == Served(p.Took(1), f)
      modifies tables.directory, tables.ram
      ensures r == Wrecked && MapEnds(p, m.page, m.frame, r)
    {
      ghost var before := tables.State();
      ServedInTurn(p, brkCurrent, m.page, f);
      SaneReachable(before);
      assert before.view.At(f) == tables.Translate(f);
      var _ := tables.FillTable(f, m);
      return Wrecked;
    }

    /** A store of the kernel to page `f`: it is tried again after every fault that the
        handler returns from. */
    method Reach(f: nat) returns (r: FaultOutcome)
      requires Valid() && WINDOW <= f < MAX_BLOCKS && tables.Translate(f) == Absent
      modifies tables.directory, tables.ram, tables.pmm`usedBlocks, tables.pmm.bitmap
      ensures r == Retried || r == Halted || r == Stuck ==> unchanged(tables.directory) && unchanged(tables.ram)
      ensures old(tables.pmm.Packed()) ==> tables.pmm.Packed()
      ensures var p := old(tables.State());
              if !InBreak(f, brkCurrent) then r == Halted && Valid() && tables.State() == p
              else if Fate(p, brkCurrent, f) == Retried then
                r == Halted && Valid() && tables.State() == Spent(p, brkCurrent, f)
              else FaultEnds(p, f, r)
      decreases |tables.pmm.Supply()|, 3
    {
      ghost var p, brk := tables.State(), brkCurrent;
      assert PAGE_SIZE * f / PAGE_SIZE == f;
      Stock();
      ResumedIff(p, brk, f);
      r := Fault(PAGE_SIZE * f);
      while r == Retried
        invariant brkCurrent == brk && (old(tables.pmm.Packed()) ==> tables.pmm.Packed())
        invariant r == Retried || r == Halted || r == Stuck ==> unchanged(tables.directory) && unchanged(tables.ram)
        invariant r == Retried ==>
                    && Valid() && InBreak(f, brk) && Fate(p, brk, f) == Retried
                    && tables.State() == Spent(p, brk, f) && tables.State().supply == []
        invariant r != Retried ==>
                    if !InBreak(f, brk) then r == Halted && Valid() && tables.State() == p
                    else if Fate(p, brk, f) == Retried then r == Halted && Valid() && tables.State() == Spent(p, brk, f)
                    else FaultEnds(p, f, r)
        decreases r == Retried
      {
        r := Fault(PAGE_SIZE * f);
      }
    }

    /** The processor faults on pages that do not translate: every entry the kernel
        writes carries all rights. */
    method Fault(addr: nat) returns (r: FaultOutcome)
      requires Valid() && addr < TWO_32 && tables.Translate(addr / PAGE_SIZE) == Absent
      modifies tables.directory, tables.ram, tables.pmm`usedBlocks, tables.pmm.bitmap
      ensures InHeap(addr) ==> FaultEnds(old(tables.State()), addr / PAGE_SIZE, r)
      ensures !InHeap(addr) ==> r == Halted && Valid() && tables.State() == old(tables.State())
      ensures r == Retried || r == Halted || r == Stuck ==> unchanged(tables.directory) && unchanged(tables.ram)
      ensures old(tables.pmm.Packed()) ==> tables.pmm.Packed()
      decreases |tables.pmm.Supply()|, 2
    {
      if BRK_START <= addr && addr < brkCurrent {
        r := Serve(addr, addr / PAGE_SIZE);
      } else {
        r := Halted;
      }
    }

    // ---- runs -------------------------------------------------------------

    ghost function View(): UserView
      reads this, tables, tables.directory, tables.ram, tables.pmm, tables.pmm.bitmap
      requires tables.Shape() && tables.pmm.Shape()
    {
      UserView(tables.State(), brkCurrent)
    }

    /** The state before was `u`, and a step of the program ended with `r`. */
    ghost predicate StepEnds(u: UserView, s: Step, r: FaultOutcome)
      reads this, tables, tables.directory, tables.ram, tables.pmm, tables.pmm.bitmap
    {
      && tables.Shape() && tables.pmm.Ready() && r == StepFate(u, s)
      && if r == Wrecked then Broken(tables.State()) else Valid() && View() == StepTo(u, s)
    }

    /** One memory access: the processor walks the tables and faults on an absent page. */
    method Access(addr: nat) returns (r: FaultOutcome)
      requires Valid() && addr < TWO_32
      modifies tables.directory, tables.ram, tables.pmm`usedBlocks, tables.pmm.bitmap
      ensures StepEnds(old(View()), Touch(addr), r)
      ensures old(tables.pmm.Packed()) ==> tables.pmm.Packed()
    {
      ghost var u := View();
      var t := tables.Walk(addr / PAGE_SIZE);
      assert u.Present(addr) <==> t != Absent;
      if t != Absent {
        return Resumed;
      }
      r := Fault(addr);
    }

    method Perform(s: Step) returns (r: FaultOutcome)
      requires Valid() && (if s.Brk? then s.newBrk else s.addr) < TWO_32
      modifies this`brkCurrent, tables.directory, tables.ram, tables.pmm`usedBlocks, tables.pmm.bitmap
      ensures StepEnds(old(View()), s, r)
      ensures old(tables.pmm.Packed()) ==> tables.pmm.Packed()
    {
      match s {
        case Brk(newBrk) =>
          var _ := SysBrk(newBrk);
          r := Resumed;
        case Touch(addr) =>
          r := Access(addr);
      }
    }

    /** Any run of break calls and memory accesses, up to the first fault the handler does
        not resume, with the way that one ended. Without one, no frame goes missing, and
        the run has taken at most 8192 data frames and 8 tables. */
    method Run(steps: seq<Step>) returns (done: nat, r: FaultOutcome)
      requires Valid() && forall s | s in steps :: (if s.Brk? then s.newBrk else s.addr) < TWO_32
      modifies this`brkCurrent, tables.directory, tables.ram, tables.pmm`usedBlocks, tables.pmm.bitmap
      ensures RunEnds(old(View()), steps, done, r)
      ensures r == Wrecked ==> Broken(tables.State())
      ensures r != Wrecked ==> Valid() && View() == RunState(old(View()), steps, done)
      ensures done == |steps| ==> Accounted(old(tables.pmm.Used()), tables.State())
      ensures done == |steps| ==> tables.pmm.usedBlocks <= old(tables.pmm.usedBlocks) + 8192 + 8
    {
      ghost var u := View();
      Stock();
      done, r := 0, Resumed;
      while done < |steps|
        invariant Valid() && done <= |steps| && r == Resumed
        invariant View() == AfterSteps(u, steps[..done]) && AllServed(u, steps[..done])
      {
        r := Perform(steps[done]);
        if r != Resumed {
          return;
        }
        OneStepMore(u, steps, done);
        done := done + 1;
      }
      WholeRun(u.paging.used, u, steps);
    }
  }
}
