/** Runs of break calls and memory accesses, on values. */
module UserRuns {
  import opened Frames
  import opened PagingFormat
  import opened UserHeapView

  datatype Step = Brk(newBrk: nat) | Touch(addr: nat)

  /** What a user program's memory depends on. */
  datatype UserView = UserView(paging: Paging, brk: nat) {
    ghost predicate Good() {
      Sane(paging) && Stocked(paging) && BRK_START <= brk <= BRK_LIMIT
    }

    ghost predicate InHeap(addr: nat) {
      BRK_START <= addr < brk
    }

    ghost predicate Present(addr: nat) {
      paging.view.At(addr / PAGE_SIZE) != Absent
    }
  }

  function NewBreak(brk: nat, newBrk: nat): nat {
    if BRK_START <= newBrk <= BRK_LIMIT then newBrk else brk
  }

  /** How a step ends: an access to an absent page is up to the handler. */
  ghost function StepFate(u: UserView, s: Step): FaultOutcome {
    match s
    case Brk(_) => Resumed
    case Touch(addr) =>
      if u.Present(addr) then Resumed
      else if !u.InHeap(addr) then Halted
      else Fate(u.paging, u.brk, addr / PAGE_SIZE)
  }

  /** The state after a step, unless that wrecked the tables. */
  ghost function StepTo(u: UserView, s: Step): UserView {
    match s
    case Brk(newBrk) => u.(brk := NewBreak(u.brk, newBrk))
    case Touch(addr) =>
      if u.Present(addr) || !u.InHeap(addr) then u
      else if StepFate(u, s) == Resumed then u.(paging := Served(u.paging, addr / PAGE_SIZE))
      else u.(paging := Spent(u.paging, u.brk, addr / PAGE_SIZE))
  }

  ghost function AfterSteps(u: UserView, steps: seq<Step>): UserView {
    if steps == [] then u else StepTo(AfterSteps(u, steps[..|steps| - 1]), steps[|steps| - 1])
  }

  /** Every fault of the run is resumed. */
  ghost predicate AllServed(u: UserView, steps: seq<Step>) {
    steps == []
    || (AllServed(u, steps[..|steps| - 1])
        && StepFate(AfterSteps(u, steps[..|steps| - 1]), steps[|steps| - 1]) == Resumed)
  }

  lemma {:induction false} ServedPrefix(u: UserView, steps: seq<Step>, k: nat)
    requires AllServed(u, steps) && k <= |steps|
    ensures AllServed(u, steps[..k])
    ensures k < |steps| ==> StepFate(AfterSteps(u, steps[..k]), steps[k]) == Resumed
    decreases |steps|
  {
    if k == |steps| {
      assert steps[..k] == steps;
    } else if k < |steps| - 1 {
      var front := steps[..|steps| - 1];
      ServedPrefix(u, front, k);
      assert front[..k] == steps[..k] && front[k] == steps[k];
    }
  }

  /** The first `done` steps are served, and that is all, or the next one ends with `r`. */
  ghost predicate RunEnds(u: UserView, steps: seq<Step>, done: nat, r: FaultOutcome) {
    && done <= |steps| && AllServed(u, steps[..done])
    && if done == |steps| then r == Resumed
       else r != Resumed && r == StepFate(AfterSteps(u, steps[..done]), steps[done])
  }

  /** The state a run leaves, with the frames that its last step took for nothing. */
  ghost function RunState(u: UserView, steps: seq<Step>, done: nat): UserView
    requires done <= |steps|
  {
    var v := AfterSteps(u, steps[..done]);
    if done == |steps| then v else StepTo(v, steps[done])
  }

  lemma WholeRun(base: set<nat>, u: UserView, steps: seq<Step>)
    requires u.Good() && base == u.paging.used && AllServed(u, steps[..|steps|])
    ensures RunState(u, steps, |steps|) == AfterSteps(u, steps) && AllServed(u, steps)
    ensures Accounted(base, AfterSteps(u, steps).paging)
    ensures |AfterSteps(u, steps).paging.used| <= |base| + (LAST_PAGE - FIRST_PAGE) + (LAST_SLOT - FIRST_SLOT)
  {
    assert steps[..|steps|] == steps;
    RunGood(base, u, steps);
  }

  lemma OneStepMore(u: UserView, steps: seq<Step>, k: nat)
    requires k < |steps| && AllServed(u, steps[..k])
    ensures AfterSteps(u, steps[..k + 1]) == StepTo(AfterSteps(u, steps[..k]), steps[k])
    ensures StepFate(AfterSteps(u, steps[..k]), steps[k]) == Resumed ==> AllServed(u, steps[..k + 1])
  {
    assert steps[..k + 1][..k] == steps[..k];
  }

  lemma ServedMaps(p: Paging, brk: nat, q: nat)
    requires Sane(p) && Stocked(p) && FIRST_PAGE <= q < LAST_PAGE && Fate(p, brk, q) == Resumed
    ensures p.supply != [] && Sane(Served(p, q)) && Stocked(Served(p, q)) && Mapped(p, q, p.supply[0], Served(p, q))
  {
    ResumedIff(p, brk, q);
    TookOne(p);
    MappedSane(p.Took(1), q, p.supply[0]);
    assert p.Took(1).used - {p.supply[0]} == p.used;
    MappedFrom(p, q, p.supply[0], Served(p, q));
  }

  /** What is mapped does not depend on the supply. */
  lemma MappedFrom(p: Paging, q: nat, d: nat, p': Paging)
    requires p.supply != [] && Mapped(p.Took(1).(used := p.used), q, d, p')
    ensures Mapped(p, q, d, p')
  {
  }

  /** A step that is served keeps the state good and every frame accounted for. */
  lemma StepGood(base: set<nat>, u: UserView, s: Step)
    requires u.Good() && StepFate(u, s) == Resumed && Accounted(base, u.paging)
    ensures StepTo(u, s).Good() && Accounted(base, StepTo(u, s).paging)
  {
    if s.Touch? && !u.Present(s.addr) {
      var q := s.addr / PAGE_SIZE;
      ServedMaps(u.paging, u.brk, q);
      AccountedStep(base, u.paging, q, u.paging.supply[0], Served(u.paging, q));
    }
  }

  /** Over any run whose faults are all resumed, the state stays good and at most 8192 data
      frames and 8 tables are taken. */
  lemma {:induction false} RunGood(base: set<nat>, u: UserView, steps: seq<Step>)
    requires u.Good() && Accounted(base, u.paging) && AllServed(u, steps)
    ensures AfterSteps(u, steps).Good() && Accounted(base, AfterSteps(u, steps).paging)
    ensures |AfterSteps(u, steps).paging.used| <= |base| + (LAST_PAGE - FIRST_PAGE) + (LAST_SLOT - FIRST_SLOT)
    decreases |steps|
  {
    if steps != [] {
      var front := steps[..|steps| - 1];
      RunGood(base, u, front);
      StepGood(base, AfterSteps(u, front), steps[|steps| - 1]);
    }
    AccountedSize(base, AfterSteps(u, steps).paging);
  }

  // ---- what is mapped ---------------------------------------------------------

  /** The break: the last address asked for from 32 MB to 64 MB, or where it was. */
  function BreakAfter(brk: nat, steps: seq<Step>): nat {
    if steps == [] then brk
    else
      match steps[|steps| - 1]
      case Brk(newBrk) =>
        if 0x200_0000 <= newBrk <= 0x400_0000 then newBrk else BreakAfter(brk, steps[..|steps| - 1])
      case Touch(_) => BreakAfter(brk, steps[..|steps| - 1])
  }

  lemma {:induction false} BreakIs(u: UserView, steps: seq<Step>)
    ensures AfterSteps(u, steps).brk == BreakAfter(u.brk, steps)
    decreases |steps|
  {
    if steps != [] {
      BreakIs(u, steps[..|steps| - 1]);
    }
  }

  /** Some access went to page `q`. */
  ghost predicate Visited(steps: seq<Step>, q: nat) {
    exists k :: 0 <= k < |steps| && steps[k].Touch? && steps[k].addr / 4096 == q
  }

  lemma VisitedMore(steps: seq<Step>, s: Step, q: nat)
    ensures Visited(steps + [s], q) <==> Visited(steps, q) || (s.Touch? && s.addr / 4096 == q)
  {
    var all := steps + [s];
    if k :| 0 <= k < |steps| && steps[k].Touch? && steps[k].addr / 4096 == q {
      assert all[k] == steps[k];
    }
    if s.Touch? && s.addr / 4096 == q {
      assert all[|steps|] == s;
    }
  }

  /** A step that is served maps the page it touches, and no other. */
  lemma StepMaps(u: UserView, s: Step, q: nat)
    requires u.Good() && StepFate(u, s) == Resumed
    ensures StepTo(u, s).paging.view.At(q) != Absent
            <==> u.paging.view.At(q) != Absent || (s.Touch? && s.addr / 4096 == q)
  {
    if s.Touch? && !u.Present(s.addr) {
      var p := s.addr / PAGE_SIZE;
      ServedMaps(u.paging, u.brk, p);
      assert p < VIRTUAL_PAGES;
      assert q != p ==> Served(u.paging, p).view.At(q) == u.paging.view.At(q);
    }
  }

  /** Over a run whose faults are all resumed exactly the pages touched get mapped. */
  lemma {:induction false} MappedIffVisited(u: UserView, steps: seq<Step>, q: nat)
    requires u.Good() && AllServed(u, steps)
    ensures AfterSteps(u, steps).paging.view.At(q) != Absent
            <==> u.paging.view.At(q) != Absent || Visited(steps, q)
    decreases |steps|
  {
    if steps != [] {
      var front, last := steps[..|steps| - 1], steps[|steps| - 1];
      MappedIffVisited(u, front, q);
      RunGood(u.paging.used, u, front);
      StepMaps(AfterSteps(u, front), last, q);
      VisitedMore(front, last, q);
      assert steps == front + [last];
    }
  }

  /** An access to a page that is not mapped halts the machine outside the break, and is
      served inside it only when there is a frame. */
  lemma OnlyInsideBreak(u: UserView, steps: seq<Step>, addr: nat)
    requires u.Good() && AllServed(u, steps)
    requires u.paging.view.At(addr / 4096) == Absent && !Visited(steps, addr / 4096)
    ensures var v := AfterSteps(u, steps);
            && (!(0x200_0000 <= addr < BreakAfter(u.brk, steps)) ==> StepFate(v, Touch(addr)) == Halted)
            && (StepFate(v, Touch(addr)) == Resumed ==> v.paging.supply != [])
  {
    BreakIs(u, steps);
    MappedIffVisited(u, steps, addr / 4096);
  }
}
