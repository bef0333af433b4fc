/** The scheduler's choices, on thread states alone. */
module RoundRobin {
  const MAX_THREADS: nat := 16

  datatype ThreadState = Free | Ready | Running | Blocked

  predicate Runnable(s: ThreadState) {
    s == Ready || s == Running
  }

  /** Slot `cur + k`, around the table. */
  function Around(cur: nat, k: nat): nat {
    (cur + k) % MAX_THREADS
  }

  /** The scan of `schedule`: the least `k >= from` whose slot is runnable, else 17. */
  function Scan(states: seq<ThreadState>, cur: nat, from: nat): (k: nat)
    requires |states| == MAX_THREADS && 1 <= from <= MAX_THREADS + 1
    ensures from <= k <= MAX_THREADS + 1
    ensures k <= MAX_THREADS ==> Runnable(states[Around(cur, k)])
    ensures forall j | from <= j < k :: !Runnable(states[Around(cur, j)])
    decreases MAX_THREADS + 1 - from
  {
    if from > MAX_THREADS || Runnable(states[Around(cur, from)]) then from else Scan(states, cur, from + 1)
  }

  lemma {:induction false} ScanIs(states: seq<ThreadState>, cur: nat, from: nat, k: nat)
    requires |states| == MAX_THREADS && 1 <= from <= k <= MAX_THREADS && Runnable(states[Around(cur, k)])
    requires forall j | from <= j < k :: !Runnable(states[Around(cur, j)])
    ensures Scan(states, cur, from) == k
    decreases k - from
  {
    if from < k {
      ScanIs(states, cur, from + 1, k);
    }
  }

  /** The slot `schedule` moves to; a running thread is always found again after a full turn. */
  function NextSlot(states: seq<ThreadState>, cur: nat): (n: nat)
    requires |states| == MAX_THREADS && cur < MAX_THREADS && Runnable(states[cur])
    ensures n < MAX_THREADS && Runnable(states[n])
  {
    var k := Scan(states, cur, 1);
    assert Around(cur, MAX_THREADS) == cur;
    Around(cur, k)
  }

  /** How many steps around the table from `cur` to `j`: 1 to 16. */
  function Distance(cur: nat, j: nat): (d: nat)
    requires cur < MAX_THREADS && j < MAX_THREADS
    ensures 1 <= d <= MAX_THREADS && Around(cur, d) == j
    ensures cur != j ==> d < MAX_THREADS
  {
    if j > cur then j - cur else MAX_THREADS + j - cur
  }

  lemma AroundBack(cur: nat, k: nat)
    requires cur < MAX_THREADS && 1 <= k <= MAX_THREADS
    ensures Around(cur, k) == if cur + k < 16 then cur + k else cur + k - 16
    ensures Distance(cur, Around(cur, k)) == k
  {
  }

  /** That is the next ready slot upwards, slot 0 coming behind slot 15: no slot `j` that it
      passes is ready, and when it comes back to the same thread no other one is. */
  lemma NextSlotMeans(states: seq<ThreadState>, cur: nat, j: nat)
    requires |states| == MAX_THREADS && cur < MAX_THREADS && states[cur] == Running && j < 16
    requires forall i | 0 <= i < MAX_THREADS && i != cur :: states[i] != Running
    ensures var n := NextSlot(states, cur);
            && (n != cur ==> states[n] == Ready)
            && (n == cur || (cur < j < n) || (n < cur && (j < n || cur < j)) ==> states[j] != Ready)
  {
    var k, n := Scan(states, cur, 1), NextSlot(states, cur);
    AroundBack(cur, MAX_THREADS);
    AroundBack(cur, k);
    assert n == if cur + k < 16 then cur + k else cur + k - 16;
    if j != cur && Distance(cur, j) < k {
      assert !Runnable(states[Around(cur, Distance(cur, j))]);
    }
  }

  lemma Shorter(cur: nat, j: nat, k: nat)
    requires cur < MAX_THREADS && j < MAX_THREADS && 1 <= k < Distance(cur, j)
    ensures Distance(Around(cur, k), j) == Distance(cur, j) - k
  {
    assert Around(cur, k) == if cur + k < MAX_THREADS then cur + k else cur + k - MAX_THREADS;
  }

  /** Each dispatch of another thread brings a waiting one strictly nearer. */
  lemma Nearer(states: seq<ThreadState>, cur: nat, j: nat)
    requires |states| == MAX_THREADS && cur < MAX_THREADS && j < MAX_THREADS
    requires Runnable(states[cur]) && states[j] == Ready && j != cur
    ensures var n := NextSlot(states, cur);
            n == j || Distance(n, j) < Distance(cur, j)
  {
    var k, d := Scan(states, cur, 1), Distance(cur, j);
    assert k <= d;
    if k < d {
      Shorter(cur, j, k);
    }
  }

  // ---- whole runs -----------------------------------------------------------

  /** `current` is a slot, or `MAX_THREADS` for the null pointer before the first dispatch. */
  datatype Sched = Sched(states: seq<ThreadState>, current: nat) {
    ghost predicate SlotOk(i: nat)
      requires i < |states|
    {
      states[i] != Blocked && (states[i] == Running <==> i == current)
    }

    /** One thread runs, and it is the current one. */
    ghost predicate Valid() {
      && |states| == MAX_THREADS && current <= MAX_THREADS
      && (forall i | 0 <= i < MAX_THREADS :: SlotOk(i))
      && (current < MAX_THREADS ==> states[current] == Running)
    }
  }

  datatype Event = Create | Schedule

  function FirstOf(states: seq<ThreadState>, s: ThreadState): (i: nat)
    ensures i <= |states|
    ensures i < |states| ==> states[i] == s
    ensures forall j | 0 <= j < i :: states[j] != s
  {
    if states == [] || states[0] == s then 0 else 1 + FirstOf(states[1..], s)
  }

  lemma {:induction false} FirstOfIs(states: seq<ThreadState>, s: ThreadState, i: nat)
    requires i <= |states| && (i < |states| ==> states[i] == s) && forall j | 0 <= j < i :: states[j] != s
    ensures FirstOf(states, s) == i
  {
    if i > 0 {
      FirstOfIs(states[1..], s, i - 1);
    }
  }

  function AfterCreate(s: Sched): (s': Sched)
    requires s.Valid()
    ensures s'.Valid()
  {
    var i := FirstOf(s.states, Free);
    var s' := if i < |s.states| then s.(states := s.states[i := Ready]) else s;
    assert forall k | 0 <= k < MAX_THREADS :: s.SlotOk(k) ==> s'.SlotOk(k);
    s'
  }

  function AfterSchedule(s: Sched): (s': Sched)
    requires s.Valid()
    ensures s'.Valid()
  {
    if s.current == MAX_THREADS then
      var i := FirstOf(s.states, Ready);
      var s' := if i < MAX_THREADS then Sched(s.states[i := Running], i) else s;
      assert forall k | 0 <= k < MAX_THREADS :: s.SlotOk(k) ==> s'.SlotOk(k);
      s'
    else
      var n := NextSlot(s.states, s.current);
      var s' := if n == s.current then s else Sched(s.states[s.current := Ready][n := Running], n);
      assert forall k | 0 <= k < MAX_THREADS :: s.SlotOk(k) ==> s'.SlotOk(k);
      s'
  }

  function After(s: Sched, e: Event): (s': Sched)
    requires s.Valid()
    ensures s'.Valid()
  {
    match e
    case Create => AfterCreate(s)
    case Schedule => AfterSchedule(s)
  }

  /** A call of `schedule` makes the current thread ready and the next one running, and
      leaves all others as they are; a creation makes the first free slot ready. */
  lemma AfterMeans(s: Sched, e: Event, i: nat)
    requires s.Valid() && i < MAX_THREADS
    ensures var s' := After(s, e);
            match e
            case Schedule =>
              if s'.current == s.current then s' == s
              else s'.states[i] == if i == s'.current then Running else if i == s.current then Ready else s.states[i]
            case Create =>
              && s'.current == s.current
              && s'.states[i] == if s.states[i] == Free && Free !in s.states[..i] then Ready else s.states[i]
  {
    if e == Create {
      var f := FirstOf(s.states, Free);
      assert f < i ==> s.states[..i][f] == Free;
    }
  }

  ghost function AfterAll(s: Sched, events: seq<Event>): (s': Sched)
    requires s.Valid()
    ensures s'.Valid()
    decreases |events|
  {
    if events == [] then s else AfterAll(After(s, events[0]), events[1..])
  }

  function Schedules(events: seq<Event>): nat {
    if events == [] then 0 else (if events[0] == Schedule then 1 else 0) + Schedules(events[1..])
  }

  /** A run goes on. */
  lemma {:induction false} RunOn(s: Sched, events: seq<Event>, more: seq<Event>)
    requires s.Valid()
    ensures AfterAll(s, events + more) == AfterAll(AfterAll(s, events), more)
    ensures Schedules(events + more) == Schedules(events) + Schedules(more)
    decreases |events|
  {
    if events == [] {
      assert events + more == more;
    } else {
      assert (events + more)[1..] == events[1..] + more;
      RunOn(After(s, events[0]), events[1..], more);
    }
  }

  lemma AfterOne(s: Sched, e: Event)
    requires s.Valid()
    ensures AfterAll(s, [e]) == After(s, e) && Schedules([e]) == if e == Schedule then 1 else 0
  {
    assert [e][1..] == [];
  }

  lemma AfterPrefix(s: Sched, events: seq<Event>, k: nat)
    requires s.Valid() && 0 < k <= |events|
    ensures AfterAll(s, events[..k]) == AfterAll(After(s, events[0]), events[1..][..k - 1])
  {
    assert events[..k][1..] == events[1..][..k - 1];
  }

  /** One event either dispatches the waiting thread or leaves it waiting, and nearer
      when the event was a schedule call. */
  lemma WaitStep(s: Sched, e: Event, j: nat)
    requires s.Valid() && s.current < MAX_THREADS && j < MAX_THREADS && s.states[j] == Ready
    ensures var s1 := After(s, e);
            && s1.current < MAX_THREADS
            && ((s1.current == j && e == Schedule)
                || (s1.states[j] == Ready
                    && Distance(s1.current, j) <= Distance(s.current, j) - (if e == Schedule then 1 else 0)))
  {
    if e == Schedule {
      Nearer(s.states, s.current, j);
    }
  }

  /** A waiting thread is dispatched within its distance in schedule calls, whatever
      threads are created in between; the distance is at most 15. */
  lemma {:induction false} Fairness(s: Sched, events: seq<Event>, j: nat)
    requires s.Valid() && s.current < MAX_THREADS && j < MAX_THREADS && s.states[j] == Ready
    requires Schedules(events) >= Distance(s.current, j)
    ensures Distance(s.current, j) <= MAX_THREADS - 1
    ensures exists k :: 0 < k <= |events| && AfterAll(s, events[..k]).current == j
    decreases |events|
  {
    var s1, rest := After(s, events[0]), events[1..];
    WaitStep(s, events[0], j);
    if s1.current == j {
      AfterPrefix(s, events, 1);
      assert AfterAll(s, events[..1]).current == j;
    } else {
      Fairness(s1, rest, j);
      var k :| 0 < k <= |rest| && AfterAll(s1, rest[..k]).current == j;
      AfterPrefix(s, events, k + 1);
    }
  }

  /** The first dispatch picks the lowest ready slot. */
  lemma FirstDispatch(s: Sched)
    requires s.Valid() && s.current == MAX_THREADS && exists i :: 0 <= i < MAX_THREADS && s.states[i] == Ready
    ensures var c := After(s, Schedule).current;
            c < MAX_THREADS && s.states[c] == Ready && forall i | 0 <= i < c :: s.states[i] != Ready
  {
  }
}
