/** Contexts of threads that are not running, and the history of switches. */
module Contexts {
  import opened Frames
  import opened RoundRobin

  /** Words in a frame; stack addresses are word addresses. */
  const FRAME_WORDS: nat := 1024

  /** What a thread has when it is not running: the callee-saved registers, where it
      continues, and its stack from that point up. */
  datatype Context = Context(ebx: nat, esi: nat, edi: nat, ebp: nat, eip: nat, stack: seq<nat>) {
    /** The words that `switch_to_thread` pops, followed by the stack. */
    ghost function Image(): seq<nat> {
      [ebx, esi, edi, ebp, eip] + stack
    }
  }

  /** What a new thread is to start with: its entry point and an empty stack. */
  function FreshContext(entry: nat): Context {
    Context(0, 0, 0, 0, entry, [])
  }

  /** The stack page at `frame` holds `c`, to be popped from `esp`. */
  ghost predicate Holds(mem: seq<nat>, frame: nat, esp: nat, c: Context) {
    && FRAME_WORDS * frame <= esp && FRAME_WORDS * (frame + 1) <= |mem|
    && esp + |c.Image()| == FRAME_WORDS * (frame + 1)
    && mem[esp..FRAME_WORDS * (frame + 1)] == c.Image()
  }

  lemma HeldWords(mem: seq<nat>, frame: nat, esp: nat, c: Context)
    requires Holds(mem, frame, esp, c)
    ensures mem[esp] == c.ebx && mem[esp + 1] == c.esi && mem[esp + 2] == c.edi && mem[esp + 3] == c.ebp
            && mem[esp + 4] == c.eip
    ensures mem[esp + 5..FRAME_WORDS * (frame + 1)] == c.stack
  {
    var page := mem[esp..FRAME_WORDS * (frame + 1)];
    assert page[0] == c.ebx && page[1] == c.esi && page[2] == c.edi && page[3] == c.ebp && page[4] == c.eip;
    assert page[5..] == c.stack;
  }

  /** Memory agrees on a frame. */
  ghost predicate SameFrame(mem: seq<nat>, mem': seq<nat>, frame: nat) {
    |mem| == |mem'| && forall a | FRAME_WORDS * frame <= a < FRAME_WORDS * (frame + 1) && a < |mem| :: mem[a] == mem'[a]
  }

  lemma HoldsKept(mem: seq<nat>, mem': seq<nat>, frame: nat, esp: nat, c: Context)
    requires Holds(mem, frame, esp, c) && SameFrame(mem, mem', frame)
    ensures Holds(mem', frame, esp, c)
  {
  }

  /** Only the frame `f` may differ. */
  ghost predicate OnlyFrame(mem: seq<nat>, mem': seq<nat>, f: nat) {
    |mem| == |mem'| && forall g: nat | g != f :: SameFrame(mem, mem', g)
  }

  /** Memory after pushing the seven words `w`, in that order, from `esp` down. */
  ghost function SevenPushed(mem: seq<nat>, esp: nat, w: seq<nat>): seq<nat>
    requires 7 <= esp <= |mem| && |w| == 7
  {
    var m := mem[esp - 1 := w[0]][esp - 2 := w[1]][esp - 3 := w[2]];
    m[esp - 4 := w[3]][esp - 5 := w[4]][esp - 6 := w[5]][esp - 7 := w[6]]
  }

  lemma SevenPushes(mem: seq<nat>, esp: nat, w: seq<nat>, f: nat)
    requires |w| == 7 && FRAME_WORDS * f + 7 <= esp <= FRAME_WORDS * (f + 1) <= |mem|
    ensures var m := SevenPushed(mem, esp, w);
            && OnlyFrame(mem, m, f) && m[esp - 2] == w[1] && m[esp - 1] == w[0]
            && Holds(m, f, esp - 7,
                     Context(w[6], w[5], w[4], w[3], w[2], [w[1], w[0]] + mem[esp..FRAME_WORDS * (f + 1)]))
  {
    var m, top := SevenPushed(mem, esp, w), FRAME_WORDS * (f + 1);
    assert m[esp - 7..top] == [w[6], w[5], w[4], w[3], w[2], w[1], w[0]] + mem[esp..top];
    assert [w[6], w[5], w[4], w[3], w[2], w[1], w[0]] + mem[esp..top]
        == [w[6], w[5], w[4], w[3], w[2]] + ([w[1], w[0]] + mem[esp..top]);
  }

  // ---- history --------------------------------------------------------------

  datatype Event = Created(who: nat, entry: nat) | Out(who: nat, context: Context) | In(who: nat, context: Context)

  /** The context `i` was last switched out (or created) with. */
  ghost function LastSaved(log: seq<Event>, i: nat): Context
    decreases |log|
  {
    if log == [] then FreshContext(0)
    else
      match log[|log| - 1]
      case Created(who, entry) => if who == i then FreshContext(entry) else LastSaved(log[..|log| - 1], i)
      case Out(who, c) => if who == i then c else LastSaved(log[..|log| - 1], i)
      case In(_, _) => LastSaved(log[..|log| - 1], i)
  }

  /** Whoever was switched in got exactly the context it was last switched out with: an
      `In` event records what the processor then held. */
  ghost predicate Faithful(log: seq<Event>) {
    forall k | 0 <= k < |log| && log[k].In? :: log[k].context == LastSaved(log[..k], log[k].who)
  }

  /** Between `j` and `k` nobody created `who` or switched it out. */
  ghost predicate Untouched(log: seq<Event>, who: nat, j: nat, k: nat) {
    forall m | j < m < k && m < |log| :: log[m].In? || log[m].who != who
  }

  lemma {:induction false} SavedAt(log: seq<Event>, who: nat, j: nat)
    requires j < |log| && !log[j].In? && log[j].who == who && Untouched(log, who, j, |log|)
    ensures LastSaved(log, who) == if log[j].Out? then log[j].context else FreshContext(log[j].entry)
    decreases |log|
  {
    if j < |log| - 1 {
      var front := log[..|log| - 1];
      assert forall m | j < m < |front| :: front[m] == log[m];
      SavedAt(front, who, j);
    }
  }

  /** The switch to a thread at `k` after event `j` was the last to set its context: a new
      thread starts at its entry point with nothing in its registers and on its stack, any
      other goes on with the registers, return address and stack it was switched out with. */
  ghost predicate GoesOn(log: seq<Event>, j: nat, k: nat)
    requires j < k < |log| && log[k].In?
  {
    var c := log[k].context;
    match log[j]
    case Created(_, entry) => c.eip == entry && c.ebx == c.esi == c.edi == c.ebp == 0 && c.stack == []
    case Out(_, saved) => c == saved
    case In(_, _) => true
  }

  lemma FaithfulAt(log: seq<Event>, j: nat, k: nat)
    requires Faithful(log) && j < k < |log| && log[k].In? && !log[j].In?
    requires log[j].who == log[k].who && Untouched(log, log[k].who, j, k)
    ensures GoesOn(log, j, k)
  {
    SavedAt(log[..k], log[k].who, j);
  }

  /** So it is throughout the history. */
  ghost predicate AllGoOn(log: seq<Event>) {
    forall j, k | 0 <= j < k < |log| && log[k].In? && !log[j].In? && log[j].who == log[k].who ::
      Untouched(log, log[k].who, j, k) ==> GoesOn(log, j, k)
  }

  lemma FaithfulMeans(log: seq<Event>)
    requires Faithful(log)
    ensures AllGoOn(log)
  {
    forall j, k | 0 <= j < k < |log| && log[k].In? && !log[j].In? && log[j].who == log[k].who
                  && Untouched(log, log[k].who, j, k)
      ensures GoesOn(log, j, k)
    {
      FaithfulAt(log, j, k);
    }
  }

  lemma LogAppend(log: seq<Event>, e: Event)
    requires Faithful(log)
    requires e.In? ==> e.context == LastSaved(log, e.who)
    ensures Faithful(log + [e])
    ensures forall i: nat :: LastSaved(log + [e], i) ==
              match e
              case Created(who, entry) => if who == i then FreshContext(entry) else LastSaved(log, i)
              case Out(who, c) => if who == i then c else LastSaved(log, i)
              case In(_, _) => LastSaved(log, i)
  {
    var all := log + [e];
    assert all[..|log|] == log;
    forall k | 0 <= k < |all| && all[k].In? ensures all[k].context == LastSaved(all[..k], all[k].who) {
      if k < |log| {
        assert all[..k] == log[..k];
      }
    }
  }

  // ---- all threads ----------------------------------------------------------

  datatype Thread = Thread(esp: nat, id: nat, state: ThreadState, stackBase: nat, entry: nat) {
    function Frame(): nat {
      stackBase / PAGE_SIZE
    }
  }

  /** The scheduler's variables, memory, the running stack pointer, the history so far
      and the frames in use. `current` is `MAX_THREADS` before the first dispatch. */
  datatype Kernel = Kernel(threads: seq<Thread>, current: nat, nextId: nat, mem: seq<nat>, esp: nat,
                           log: seq<Event>, used: set<nat>) {
    ghost function Abstract(): Sched {
      Sched(StatesOf(threads), current)
    }
  }

  ghost function StatesOf(threads: seq<Thread>): (s: seq<ThreadState>)
    ensures |s| == |threads| && forall i | 0 <= i < |s| :: s[i] == threads[i].state
  {
    seq(|threads|, i requires 0 <= i < |threads| => threads[i].state)
  }

  /** Slots fill in order and never empty: slot `i` holds the thread with id `i + 1`. */
  ghost predicate Numbered(threads: seq<Thread>, nextId: nat) {
    && 1 <= nextId <= MAX_THREADS + 1
    && forall i | 0 <= i < |threads| :: NumberedAt(threads[i], i, nextId)
  }

  predicate NumberedAt(t: Thread, i: nat, nextId: nat) {
    (t.state != Free <==> i + 1 < nextId) && (i + 1 < nextId ==> t.id == i + 1)
  }

  ghost predicate StackUsed(t: Thread, used: set<nat>) {
    t.state != Free ==> t.Frame() < MAX_BLOCKS && t.Frame() in used
  }

  predicate StacksApart(threads: seq<Thread>, i: nat, j: nat)
    requires i < |threads| && j < |threads|
  {
    threads[i].state != Free && threads[j].state != Free ==> threads[i].Frame() != threads[j].Frame()
  }

  /** No two threads share a stack frame, and every stack frame is in use. */
  ghost predicate OwnStacks(threads: seq<Thread>, used: set<nat>) {
    && (forall i | 0 <= i < |threads| :: StackUsed(threads[i], used))
    && forall i, j | 0 <= i < |threads| && 0 <= j < |threads| && i != j :: StacksApart(threads, i, j)
  }

  /** Stacks stay separate when nobody moves. */
  lemma SameStacks(threads: seq<Thread>, threads': seq<Thread>, used: set<nat>)
    requires OwnStacks(threads, used) && |threads'| == |threads|
    requires forall i | 0 <= i < |threads| ::
               threads'[i].Frame() == threads[i].Frame() && (threads'[i].state == Free <==> threads[i].state == Free)
    ensures OwnStacks(threads', used)
  {
    forall i | 0 <= i < |threads| ensures StackUsed(threads'[i], used) {
      assert StackUsed(threads[i], used);
    }
    forall i, j | 0 <= i < |threads| && 0 <= j < |threads| && i != j ensures StacksApart(threads', i, j) {
      assert StacksApart(threads, i, j);
    }
  }

  lemma AddStack(threads: seq<Thread>, i: nat, t: Thread, used: set<nat>, used': set<nat>)
    requires OwnStacks(threads, used) && i < |threads| && used <= used' && t.Frame() < MAX_BLOCKS && t.Frame() in used'
    requires forall j | 0 <= j < |threads| && threads[j].state != Free :: threads[j].Frame() != t.Frame()
    ensures OwnStacks(threads[i := t], used')
  {
    var after := threads[i := t];
    forall j | 0 <= j < |threads| ensures StackUsed(after[j], used') {
      assert StackUsed(threads[j], used);
    }
    forall j, k | 0 <= j < |threads| && 0 <= k < |threads| && j != k ensures StacksApart(after, j, k) {
      assert StacksApart(threads, j, k);
    }
  }

  /** A waiting thread's stack page holds the context it was last switched out with. */
  ghost predicate Parked(k: Kernel, i: nat)
    requires i < |k.threads|
  {
    k.threads[i].state == Ready ==> Holds(k.mem, k.threads[i].Frame(), k.threads[i].esp, LastSaved(k.log, i))
  }

  ghost predicate OnOwnStack(k: Kernel) {
    k.current < |k.threads| ==>
      var f := k.threads[k.current].Frame();
      FRAME_WORDS * f <= k.esp <= FRAME_WORDS * (f + 1)
  }

  ghost predicate Ok(k: Kernel) {
    && |k.threads| == MAX_THREADS && |k.mem| == MAX_BLOCKS * FRAME_WORDS && 0 in k.used
    && k.Abstract().Valid() && Numbered(k.threads, k.nextId) && OwnStacks(k.threads, k.used) && OnOwnStack(k)
    && Faithful(k.log) && forall i | 0 <= i < MAX_THREADS :: Parked(k, i)
  }

  /** The kernel after `thread_create` filled slot `i` using the stack page at `page`. */
  ghost function AfterCreated(k: Kernel, i: nat, page: nat, entry: nat, mem': seq<nat>, used': set<nat>): Kernel
    requires i < |k.threads|
  {
    k.(threads := k.threads[i := Thread(FRAME_WORDS * (page / PAGE_SIZE + 1) - 5, k.nextId, Ready, page, entry)],
       nextId := k.nextId + 1, mem := mem', log := k.log + [Created(i, entry)], used := used')
  }

  ghost function StackFramesOf(threads: seq<Thread>): set<nat> {
    set i | 0 <= i < |threads| && threads[i].state != Free :: threads[i].Frame()
  }

  lemma StackFramesAfter(threads: seq<Thread>, i: nat, t: Thread)
    requires i < |threads| && threads[i].state == Free && t.state != Free
    ensures StackFramesOf(threads[i := t]) == StackFramesOf(threads) + {t.Frame()}
  {
    var after := threads[i := t];
    forall f ensures f in StackFramesOf(after) <==> f in StackFramesOf(threads) + {t.Frame()} {
      if f in StackFramesOf(threads) {
        var j :| 0 <= j < |threads| && threads[j].state != Free && threads[j].Frame() == f;
        assert after[j].Frame() == f;
      }
      assert after[i].Frame() == t.Frame();
    }
  }

  /** Everything but a creation leaves the stacks where they are. */
  lemma StackFramesSame(threads: seq<Thread>, threads': seq<Thread>)
    requires |threads| == |threads'|
    requires forall i | 0 <= i < |threads| ::
               threads'[i].Frame() == threads[i].Frame() && (threads'[i].state == Free <==> threads[i].state == Free)
    ensures StackFramesOf(threads') == StackFramesOf(threads)
  {
    forall f ensures f in StackFramesOf(threads') <==> f in StackFramesOf(threads) {
      if f in StackFramesOf(threads) {
        var j :| 0 <= j < |threads| && threads[j].state != Free && threads[j].Frame() == f;
        assert threads'[j].Frame() == f;
      }
    }
  }

  lemma NextIdIs(k: Kernel, i: nat)
    requires Ok(k) && i == FirstOf(StatesOf(k.threads), Free) && i < MAX_THREADS
    ensures k.nextId == i + 1
  {
    assert NumberedAt(k.threads[i], i, k.nextId);
    assert k.nextId - 1 <= i;
    assert NumberedAt(k.threads[k.nextId - 1], k.nextId - 1, k.nextId);
    assert StatesOf(k.threads)[k.nextId - 1] == Free;
  }

  lemma CreateOk(k: Kernel, i: nat, page: nat, entry: nat, mem': seq<nat>, used': set<nat>)
    requires Ok(k) && i == FirstOf(StatesOf(k.threads), Free) && i < MAX_THREADS
    requires page / PAGE_SIZE < MAX_BLOCKS && page / PAGE_SIZE in used' && k.used <= used'
    requires forall j | 0 <= j < MAX_THREADS && k.threads[j].state != Free :: k.threads[j].Frame() != page / PAGE_SIZE
    requires OnlyFrame(k.mem, mem', page / PAGE_SIZE)
    requires Holds(mem', page / PAGE_SIZE, FRAME_WORDS * (page / PAGE_SIZE + 1) - 5, FreshContext(entry))
    ensures Ok(AfterCreated(k, i, page, entry, mem', used'))
    ensures AfterCreated(k, i, page, entry, mem', used').Abstract() == After(k.Abstract(), RoundRobin.Create)
  {
    var k' := AfterCreated(k, i, page, entry, mem', used');
    LogAppend(k.log, Created(i, entry));
    assert StatesOf(k'.threads) == StatesOf(k.threads)[i := Ready];
    assert k'.Abstract() == After(k.Abstract(), RoundRobin.Create);
    NextIdIs(k, i);
    AddStack(k.threads, i, k'.threads[i], k.used, used');
    forall j | 0 <= j < MAX_THREADS ensures NumberedAt(k'.threads[j], j, k'.nextId) {
      assert NumberedAt(k.threads[j], j, k.nextId);
    }
    forall j | 0 <= j < MAX_THREADS ensures Parked(k', j) {
      assert Parked(k, j);
      if j != i && k.threads[j].state == Ready {
        HoldsKept(k.mem, mem', k.threads[j].Frame(), k.threads[j].esp, LastSaved(k.log, j));
      }
    }
  }

  /** Some thread's stack is in frame 0, where a failed allocation puts it. */
  ghost predicate FrameZeroTaken(threads: seq<Thread>) {
    exists j :: 0 <= j < |threads| && threads[j].state != Free && threads[j].Frame() == 0
  }

  /** A stack frame handed out twice is the end of the separation. */
  lemma CreateCollides(k: Kernel, i: nat, page: nat, entry: nat, mem': seq<nat>, used': set<nat>)
    requires Ok(k) && i < MAX_THREADS && k.threads[i].state == Free
    requires exists j :: 0 <= j < MAX_THREADS && k.threads[j].state != Free && k.threads[j].Frame() == page / PAGE_SIZE
    ensures !Ok(AfterCreated(k, i, page, entry, mem', used'))
  {
    var j :| 0 <= j < MAX_THREADS && k.threads[j].state != Free && k.threads[j].Frame() == page / PAGE_SIZE;
    var after := AfterCreated(k, i, page, entry, mem', used').threads;
    assert after[i].Frame() == after[j].Frame();
    assert !StacksApart(after, i, j);
  }

  /** `page` is 0 after a failed allocation, a frame nobody used otherwise. */
  ghost predicate PageTaken(used: set<nat>, page: nat, used': set<nat>) {
    if page == 0 then used' == used
    else page / PAGE_SIZE < MAX_BLOCKS && page / PAGE_SIZE !in used && used' == used + {page / PAGE_SIZE}
  }

  /** `mem'` is `mem` with a fresh thread's frame built on `page`. */
  ghost predicate FrameBuilt(mem: seq<nat>, page: nat, entry: nat, mem': seq<nat>) {
    && OnlyFrame(mem, mem', page / PAGE_SIZE)
    && Holds(mem', page / PAGE_SIZE, FRAME_WORDS * (page / PAGE_SIZE + 1) - 5, FreshContext(entry))
  }

  lemma CreateEnds(k: Kernel, i: nat, page: nat, entry: nat, mem': seq<nat>, used': set<nat>)
    requires Ok(k) && i == FirstOf(StatesOf(k.threads), Free) && i < MAX_THREADS
    requires PageTaken(k.used, page, used') && FrameBuilt(k.mem, page, entry, mem')
    ensures Ok(AfterCreated(k, i, page, entry, mem', used')) <==> !(page == 0 && FrameZeroTaken(k.threads))
  {
    if page == 0 && FrameZeroTaken(k.threads) {
      CreateCollides(k, i, page, entry, mem', used');
    } else {
      CreateOk(k, i, page, entry, mem', used');
    }
  }

  lemma CurrentRuns(k: Kernel)
    requires Ok(k) && k.current < MAX_THREADS
    ensures k.threads[k.current].state == Running
  {
    assert StatesOf(k.threads)[k.current] == Running;
  }

  /** The slot moved to holds a waiting thread, whose context is on its own stack page. */
  lemma NextIsReady(k: Kernel, n: nat)
    requires Ok(k) && k.current < MAX_THREADS && n != k.current && n == NextSlot(StatesOf(k.threads), k.current)
    ensures k.threads[n].state == Ready && k.threads[k.current].state == Running
    ensures k.threads[n].Frame() != k.threads[k.current].Frame()
    ensures k.threads[k.current].Frame() < MAX_BLOCKS
    ensures Holds(k.mem, k.threads[n].Frame(), k.threads[n].esp, LastSaved(k.log, n))
  {
    CurrentRuns(k);
    assert k.Abstract().SlotOk(n) && k.Abstract().SlotOk(k.current);
    assert StacksApart(k.threads, n, k.current);
    assert Parked(k, n) && StackUsed(k.threads[k.current], k.used);
  }

  /** What `schedule` writes before the switch. */
  function Handover(threads: seq<Thread>, prev: nat, next: nat): (t: seq<Thread>)
    requires prev < |threads| && next < |threads|
    ensures |t| == |threads|
  {
    var t := threads[prev := threads[prev].(state := Ready)];
    t[next := t[next].(state := Running)]
  }

  /** What `switch_to_thread` writes to the thread table. */
  function SetEsp(threads: seq<Thread>, i: nat, esp: nat): (t: seq<Thread>)
    requires i < |threads|
    ensures |t| == |threads|
  {
    threads[i := threads[i].(esp := esp)]
  }

  lemma HandoverEsp(threads: seq<Thread>, prev: nat, next: nat, out: nat)
    requires prev < |threads| && next < |threads| && prev != next
    ensures SetEsp(Handover(threads, prev, next), prev, out)[next].esp == threads[next].esp
    ensures Handover(threads, prev, next)[next].esp == threads[next].esp
  {
  }

  /** The kernel after the current thread was switched out with context `c` at `out` and
      thread `n` was switched in. */
  ghost function Switched(k: Kernel, n: nat, c: Context, out: nat, mem': seq<nat>): Kernel
    requires k.current < |k.threads| && n < |k.threads|
  {
    k.(threads := SetEsp(Handover(k.threads, k.current, n), k.current, out),
       current := n, mem := mem', esp := k.threads[n].esp + 5,
       log := k.log + [Out(k.current, c)] + [In(n, LastSaved(k.log, n))])
  }

  lemma SwitchParked(k: Kernel, n: nat, c: Context, out: nat, mem': seq<nat>)
    requires Ok(k) && k.current < MAX_THREADS && n != k.current && n < MAX_THREADS && k.threads[n].state == Ready
    requires OnlyFrame(k.mem, mem', k.threads[k.current].Frame())
    requires Holds(mem', k.threads[k.current].Frame(), out, c)
    ensures Faithful(Switched(k, n, c, out, mem').log)
    ensures forall j | 0 <= j < MAX_THREADS :: Parked(Switched(k, n, c, out, mem'), j)
    ensures Holds(mem', k.threads[n].Frame(), k.threads[n].esp, LastSaved(k.log, n))
  {
    var k' := Switched(k, n, c, out, mem');
    LogAppend(k.log, Out(k.current, c));
    LogAppend(k.log + [Out(k.current, c)], In(n, LastSaved(k.log, n)));
    forall j | 0 <= j < MAX_THREADS && k.threads[j].state == Ready
      ensures Holds(mem', k.threads[j].Frame(), k.threads[j].esp, LastSaved(k.log, j))
    {
      assert Parked(k, j);
      CurrentRuns(k);
      assert StacksApart(k.threads, j, k.current);
      HoldsKept(k.mem, mem', k.threads[j].Frame(), k.threads[j].esp, LastSaved(k.log, j));
    }
    forall j | 0 <= j < MAX_THREADS ensures Parked(k', j) {
    }
  }

  lemma SwitchOk(k: Kernel, n: nat, c: Context, out: nat, mem': seq<nat>)
    requires Ok(k) && k.current < MAX_THREADS && n != k.current && n == NextSlot(StatesOf(k.threads), k.current)
    requires OnlyFrame(k.mem, mem', k.threads[k.current].Frame())
    requires Holds(mem', k.threads[k.current].Frame(), out, c)
    ensures Ok(Switched(k, n, c, out, mem'))
    ensures Switched(k, n, c, out, mem').Abstract() == After(k.Abstract(), Schedule)
    ensures Holds(mem', k.threads[n].Frame(), k.threads[n].esp, LastSaved(k.log, n))
  {
    var k' := Switched(k, n, c, out, mem');
    NextIsReady(k, n);
    SwitchParked(k, n, c, out, mem');
    assert StatesOf(k'.threads) == StatesOf(k.threads)[k.current := Ready][n := Running];
    assert k'.Abstract() == After(k.Abstract(), Schedule);
    SameStacks(k.threads, k'.threads, k.used);
    forall j | 0 <= j < MAX_THREADS ensures NumberedAt(k'.threads[j], j, k'.nextId) {
      assert NumberedAt(k.threads[j], j, k.nextId);
    }
  }

  lemma SwitchDone(k: Kernel, n: nat, c: Context, out: nat, k': Kernel)
    requires Ok(k) && k.current < MAX_THREADS && n != k.current && n == NextSlot(StatesOf(k.threads), k.current)
    requires k' == Switched(k, n, c, out, k'.mem)
    requires OnlyFrame(k.mem, k'.mem, k.threads[k.current].Frame())
    requires Holds(k'.mem, k.threads[k.current].Frame(), out, c)
    ensures Ok(k') && k'.Abstract() == After(k.Abstract(), Schedule)
    ensures StackFramesOf(k'.threads) == StackFramesOf(k.threads)
  {
    NextIsReady(k, n);
    SwitchOk(k, n, c, out, k'.mem);
    StackFramesSame(k.threads, k'.threads);
  }

  /** The kernel after the first dispatch, of thread `n`. */
  ghost function Dispatched(k: Kernel, n: nat): Kernel
    requires n < |k.threads|
  {
    k.(threads := k.threads[n := k.threads[n].(state := Running)], current := n, esp := k.threads[n].esp + 5,
       log := k.log + [In(n, LastSaved(k.log, n))])
  }

  lemma DispatchOk(k: Kernel, n: nat)
    requires Ok(k) && k.current == MAX_THREADS && n == FirstOf(StatesOf(k.threads), Ready) && n < MAX_THREADS
    ensures Ok(Dispatched(k, n))
    ensures Dispatched(k, n).Abstract() == After(k.Abstract(), Schedule)
    ensures StackFramesOf(Dispatched(k, n).threads) == StackFramesOf(k.threads)
    ensures Holds(k.mem, k.threads[n].Frame(), k.threads[n].esp, LastSaved(k.log, n))
  {
    var k' := Dispatched(k, n);
    LogAppend(k.log, In(n, LastSaved(k.log, n)));
    assert StatesOf(k'.threads) == StatesOf(k.threads)[n := Running];
    StackFramesSame(k.threads, k'.threads);
    assert k'.Abstract() == After(k.Abstract(), Schedule);
    assert Parked(k, n);
    SameStacks(k.threads, k'.threads, k.used);
    forall j | 0 <= j < MAX_THREADS ensures NumberedAt(k'.threads[j], j, k'.nextId) {
      assert NumberedAt(k.threads[j], j, k.nextId);
    }
    forall j | 0 <= j < MAX_THREADS ensures Parked(k', j) {
      assert Parked(k, j);
    }
  }

  /** `j` was switched in since the log had length `from`. */
  ghost predicate SwitchedIn(log: seq<Event>, from: nat, j: nat) {
    exists k :: from <= k < |log| && log[k].In? && log[k].who == j
  }

  /** The thread in slot `j`, waiting in `s0`, was switched in or is still waiting, one
      place nearer for each of the `n` schedule calls made since. */
  ghost predicate InTurn(s0: Sched, s: Sched, n: nat, log: seq<Event>, from: nat, j: nat) {
    s0.Valid() && s.Valid() && s0.current < MAX_THREADS && j < MAX_THREADS && s0.states[j] == Ready ==>
      || SwitchedIn(log, from, j)
      || (s.current < MAX_THREADS && s.states[j] == Ready && Distance(s.current, j) + n <= Distance(s0.current, j))
  }

  /** `log` records who is switched in whenever the current thread changes. */
  ghost predicate Logged(before: nat, log: seq<Event>, current: nat, log': seq<Event>) {
    log <= log' && (before != current ==> |log| < |log'| && log'[|log'| - 1].In? && log'[|log'| - 1].who == current)
  }

  lemma TurnStep(s0: Sched, s: Sched, n: nat, e: RoundRobin.Event, log: seq<Event>, log': seq<Event>, from: nat, j: nat)
    requires s.Valid() && InTurn(s0, s, n, log, from, j) && from <= |log|
    requires Logged(s.current, log, After(s, e).current, log')
    ensures InTurn(s0, After(s, e), n + (if e == Schedule then 1 else 0), log', from, j)
  {
    if s0.Valid() && s0.current < MAX_THREADS && j < MAX_THREADS && s0.states[j] == Ready {
      if SwitchedIn(log, from, j) {
        StillIn(log, log', from, j);
      } else {
        assert s.SlotOk(j);
        WaitStep(s, e, j);
        if After(s, e).current == j {
          assert log'[|log'| - 1].who == j;
        }
      }
    }
  }

  lemma StillIn(log: seq<Event>, log': seq<Event>, from: nat, j: nat)
    requires SwitchedIn(log, from, j) && log <= log'
    ensures SwitchedIn(log', from, j)
  {
    var k :| from <= k < |log| && log[k].In? && log[k].who == j;
    assert log'[k] == log[k];
  }

  /** `InTurn` for every slot. */
  ghost predicate Turns(s0: Sched, s: Sched, n: nat, log: seq<Event>, from: nat) {
    forall j: nat | j < MAX_THREADS :: InTurn(s0, s, n, log, from, j)
  }

  /** At most one event more: every waiting thread keeps its turn. */
  lemma TurnsKept(s0: Sched, s: Sched, n: nat, more: seq<RoundRobin.Event>, n': nat, log: seq<Event>, log': seq<Event>,
                  from: nat)
    requires s.Valid() && |more| <= 1 && from <= |log| && n' == n + Schedules(more)
    requires Logged(s.current, log, AfterAll(s, more).current, log') && Turns(s0, s, n, log, from)
    ensures Turns(s0, AfterAll(s, more), n', log', from)
  {
    forall j: nat | j < MAX_THREADS ensures InTurn(s0, AfterAll(s, more), n', log', from, j) {
      assert InTurn(s0, s, n, log, from, j);
      if more == [] {
        if SwitchedIn(log, from, j) {
          StillIn(log, log', from, j);
        }
      } else {
        assert more == [more[0]];
        AfterOne(s, more[0]);
        TurnStep(s0, s, n, more[0], log, log', from, j);
      }
    }
  }

  /** Whoever waited at the start has had its turn by then. */
  lemma TurnsDone(s0: Sched, s: Sched, n: nat, log: seq<Event>, from: nat)
    requires Turns(s0, s, n, log, from) && s0.Valid() && s.Valid()
    ensures s0.current < MAX_THREADS ==> forall j | 0 <= j < MAX_THREADS && s0.states[j] == Ready ::
              n >= Distance(s0.current, j) ==> SwitchedIn(log, from, j)
  {
    forall j | 0 <= j < MAX_THREADS && s0.current < MAX_THREADS && s0.states[j] == Ready && n >= Distance(s0.current, j)
      ensures SwitchedIn(log, from, j)
    {
      assert InTurn(s0, s, n, log, from, j);
    }
  }

  lemma MoreFrames(k: Kernel, used': set<nat>)
    requires Ok(k) && k.used <= used'
    ensures Ok(k.(used := used'))
  {
    var k' := k.(used := used');
    forall i | 0 <= i < MAX_THREADS ensures StackUsed(k.threads[i], used') && Parked(k', i) {
      assert StackUsed(k.threads[i], k.used) && Parked(k, i);
    }
  }

  /** The running thread computes: it may write anything but the stacks of the others. */
  lemma ExecuteOk(k: Kernel, mem': seq<nat>, esp': nat)
    requires Ok(k) && |mem'| == |k.mem|
    requires forall j | 0 <= j < MAX_THREADS && k.threads[j].state == Ready ::
             SameFrame(k.mem, mem', k.threads[j].Frame())
    requires OnOwnStack(k.(esp := esp'))
    ensures Ok(k.(mem := mem', esp := esp'))
  {
    var k' := k.(mem := mem', esp := esp');
    forall j | 0 <= j < MAX_THREADS ensures Parked(k', j) {
      assert Parked(k, j);
      if k.threads[j].state == Ready {
        HoldsKept(k.mem, mem', k.threads[j].Frame(), k.threads[j].esp, LastSaved(k.log, j));
      }
    }
  }
}

/** What threads do, as steps on values. */
module ThreadSteps {
  import opened Frames
  import opened RoundRobin
  import opened Contexts

  const TWO_32: nat := 0x1_0000_0000
  /** `call switch_to_thread` pushes two arguments and a return address, the callee four registers. */
  const SWITCH_WORDS: nat := 7

  /** Counting up in 32 bits. */
  function NextCount(n: nat): nat {
    (n + 1) % TWO_32
  }

  datatype Registers = Registers(ebx: nat, esi: nat, edi: nat, ebp: nat, esp: nat, eip: nat)

  /** What can happen next: the running thread computes, or calls `schedule` (itself or
      through the timer), or a thread is created. */
  datatype Step = Run(registers: Registers, writes: map<nat, nat>) | Yield(ret: nat) | Spawn(entry: nat)

  /** What a step is to the scheduler. */
  function EventsOf(s: Step): (events: seq<RoundRobin.Event>)
    ensures |events| <= 1
  {
    match s
    case Run(_, _) => []
    case Yield(_) => [RoundRobin.Schedule]
    case Spawn(_) => [RoundRobin.Create]
  }

  function AllEvents(steps: seq<Step>): seq<RoundRobin.Event> {
    if steps == [] then [] else AllEvents(steps[..|steps| - 1]) + EventsOf(steps[|steps| - 1])
  }

  lemma NextEvents(steps: seq<Step>, k: nat)
    requires k < |steps|
    ensures AllEvents(steps[..k + 1]) == AllEvents(steps[..k]) + EventsOf(steps[k])
  {
    assert steps[..k + 1][..k] == steps[..k];
  }

  /** Words the running thread of `k` may write: anything but the stacks of waiting threads. */
  ghost predicate Writable(k: Kernel, a: nat) {
    && a < |k.mem|
    && forall j | 0 <= j < |k.threads| :: k.threads[j].state == Ready ==> a / FRAME_WORDS != k.threads[j].Frame()
  }

  /** The assumptions on a step: threads stay on their own stacks, with room for a switch
      when they call `schedule`, and no second stack is put in frame 0. */
  ghost predicate LegalIn(k: Kernel, s: Step) {
    match s
    case Run(r, writes) =>
      && k.current < |k.threads| && (forall a | a in writes :: Writable(k, a))
      && FRAME_WORDS * k.threads[k.current].Frame() <= r.esp <= FRAME_WORDS * (k.threads[k.current].Frame() + 1)
    case Yield(_) =>
      k.current < |k.threads| ==> FRAME_WORDS * k.threads[k.current].Frame() + SWITCH_WORDS <= k.esp
    case Spawn(_) =>
      forall j | 0 <= j < |k.threads| :: k.threads[j].state != Free ==> k.threads[j].Frame() != 0
  }

  /** Such writes touch no waiting thread's stack. */
  lemma WritesKeep(k: Kernel, writes: map<nat, nat>, mem': seq<nat>, j: nat)
    requires (forall a | a in writes :: Writable(k, a)) && |mem'| == |k.mem|
    requires forall a: nat | a < |k.mem| :: mem'[a] == if a in writes then writes[a] else k.mem[a]
    requires j < |k.threads| && k.threads[j].state == Ready
    ensures SameFrame(k.mem, mem', k.threads[j].Frame())
  {
    forall a | FRAME_WORDS * k.threads[j].Frame() <= a < FRAME_WORDS * (k.threads[j].Frame() + 1) && a < |k.mem|
      ensures k.mem[a] == mem'[a]
    {
      assert a / FRAME_WORDS == k.threads[j].Frame();
    }
  }

  /** One step takes `k` to `k'`. */
  ghost predicate Moves(k: Kernel, s: Step, k': Kernel) {
    match s
    case Run(r, writes) =>
      && k' == k.(mem := k'.mem, esp := r.esp) && |k'.mem| == |k.mem|
      && forall a: nat | a < |k.mem| :: k'.mem[a] == if a in writes then writes[a] else k.mem[a]
    case Yield(_) => Scheduled(k, k')
    case Spawn(entry) =>
      var i := FirstOf(StatesOf(k.threads), Free);
      if i >= |k.threads| then k' == k else exists page :: Spawned(k, i, page, entry, k')
  }

  lemma RanOk(k: Kernel, r: Registers, writes: map<nat, nat>, k': Kernel)
    requires Ok(k) && LegalIn(k, Run(r, writes)) && Moves(k, Run(r, writes), k')
    ensures Ok(k')
  {
    forall j | 0 <= j < MAX_THREADS && k.threads[j].state == Ready
      ensures SameFrame(k.mem, k'.mem, k.threads[j].Frame())
    {
      WritesKeep(k, writes, k'.mem, j);
    }
    ExecuteOk(k, k'.mem, r.esp);
  }

  ghost predicate Scheduled(k: Kernel, k': Kernel) {
    && k.Abstract().Valid() && k'.Abstract() == After(k.Abstract(), RoundRobin.Schedule)
    && k'.used == k.used && k'.nextId == k.nextId && StackFramesOf(k'.threads) == StackFramesOf(k.threads)
    && if k'.current == k.current then k' == k
       else
         && k'.current < |k.threads| && k.log < k'.log
         && k'.log[|k'.log| - 1] == In(k'.current, LastSaved(k.log, k'.current))
         && if k.current < |k.threads| then exists c :: SwitchedOut(k, k'.current, c, k')
           else k' == Dispatched(k, k'.current)
  }

  /** The current thread was switched out with context `c`, its stack under the arguments
      of the call, in favour of thread `n`. */
  ghost predicate SwitchedOut(k: Kernel, n: nat, c: Context, k': Kernel)
    requires k.current < |k.threads| && n < |k.threads|
  {
    var f := k.threads[k.current].Frame();
    && FRAME_WORDS * f + SWITCH_WORDS <= k.esp <= FRAME_WORDS * (f + 1) <= |k.mem|
    && c.stack == [k.current, n] + k.mem[k.esp..FRAME_WORDS * (f + 1)]
    && OnlyFrame(k.mem, k'.mem, f) && Holds(k'.mem, f, k.esp - SWITCH_WORDS, c)
    && k' == Switched(k, n, c, k.esp - SWITCH_WORDS, k'.mem)
  }

  lemma SwitchedOutIs(k: Kernel, n: nat, c: Context, f: nat, k': Kernel)
    requires k.current < |k.threads| && n < |k.threads| && f == k.threads[k.current].Frame()
    requires FRAME_WORDS * f + SWITCH_WORDS <= k.esp <= FRAME_WORDS * (f + 1) <= |k.mem|
    requires c.stack == [k.current, n] + k.mem[k.esp..FRAME_WORDS * (f + 1)]
    requires OnlyFrame(k.mem, k'.mem, f) && Holds(k'.mem, f, k.esp - SWITCH_WORDS, c)
    requires k' == Switched(k, n, c, k.esp - SWITCH_WORDS, k'.mem)
    ensures SwitchedOut(k, n, c, k')
  {
  }

  lemma SwitchScheduled(k: Kernel, n: nat, c: Context, k': Kernel)
    requires Ok(k) && k.current < MAX_THREADS && n != k.current && n == NextSlot(StatesOf(k.threads), k.current)
    requires SwitchedOut(k, n, c, k')
    ensures Ok(k') && Scheduled(k, k') && k'.current == n && n < |k'.threads|
    ensures k'.log == k.log + [Out(k.current, c)] + [In(n, LastSaved(k.log, n))]
    ensures k'.threads[n].Frame() == k.threads[n].Frame()
  {
    SwitchDone(k, n, c, k.esp - SWITCH_WORDS, k');
    assert k'.log[|k'.log| - 1] == In(n, LastSaved(k.log, n));
  }

  ghost predicate Spawned(k: Kernel, i: nat, page: nat, entry: nat, k': Kernel)
    requires i < |k.threads|
  {
    && PageTaken(k.used, page, k'.used) && FrameBuilt(k.mem, page, entry, k'.mem)
    && k' == AfterCreated(k, i, page, entry, k'.mem, k'.used)
  }
}

/** `thread_create`, `schedule` and `switch_to_thread` over word-addressed memory. */
module Threads {
  import opened Frames
  import opened RoundRobin
  import opened Contexts
  import opened ThreadSteps

  class Machine {
    const pmm: FrameAllocator
    const threads: array<Thread>
    /** Physical memory as words. */
    const mem: array<nat>
    /** Index of the current thread, or `MAX_THREADS` before the first dispatch. */
    var current: nat
    var nextThreadId: nat
    var switchCount: nat
    var ebx: nat
    var esi: nat
    var edi: nat
    var ebp: nat
    var esp: nat
    var eip: nat
    /** Every creation and every switch so far. */
    ghost var log: seq<Contexts.Event>

    ghost function State(): Kernel
      reads this, threads, mem, pmm, pmm.bitmap
    {
      Kernel(threads[..], current, nextThreadId, mem[..], esp, log, pmm.Used())
    }

    ghost function Abstract(): Sched
      reads this, threads
    {
      Sched(StatesOf(threads[..]), current)
    }

    ghost predicate Valid()
      reads this, threads, mem, pmm, pmm.bitmap
    {
      Distinct() && pmm.Ready() && Ok(State())
    }

    ghost predicate Distinct()
      reads this, pmm
    {
      && threads as object != mem as object && threads as object != pmm.bitmap as object
      && mem as object != pmm.bitmap as object
    }

    /** `scheduler_init` on static storage. */
    constructor (pmm: FrameAllocator)
      requires pmm.Ready()
      ensures Valid() && this.pmm == pmm && current == MAX_THREADS && nextThreadId == 1 && log == [] && switchCount == 0
      ensures fresh(threads) && fresh(mem)
    {
      this.pmm := pmm;
      threads := new Thread[MAX_THREADS](_ => Thread(0, 0, Free, 0, 0));
      mem := new nat[MAX_BLOCKS * FRAME_WORDS](_ => 0);
      current, nextThreadId, switchCount, log := MAX_THREADS, 1, 0, [];
      ebx, esi, edi, ebp, esp, eip := 0, 0, 0, 0, 0, 0;
    }

    /** The count that `get_thread_count` recomputes is the one the ids imply. */
    method GetThreadCount() returns (count: nat)
      requires Valid()
      ensures count == nextThreadId - 1
    {
      count := 0;
      for i := 0 to MAX_THREADS
        invariant count == if i + 1 < nextThreadId then i else nextThreadId - 1
      {
        assert State().threads[i] == threads[i];
        if threads[i].state != Free {
          count := count + 1;
        }
      }
    }

    /** The scans of `thread_create` and of the first dispatch. */
    method FirstSlot(state: ThreadState) returns (i: nat)
      requires threads.Length == MAX_THREADS
      ensures i == FirstOf(StatesOf(threads[..]), state)
    {
      i := 0;
      while i < MAX_THREADS && threads[i].state != state
        invariant i <= MAX_THREADS && forall j | 0 <= j < i :: threads[j].state != state
      {
        i := i + 1;
      }
      FirstOfIs(StatesOf(threads[..]), state, i);
    }

    /** Five words at the top of the page: the entry point and four zero registers. */
    method BuildFrame(page: nat, entry: nat) returns (stack: nat)
      requires mem.Length == MAX_BLOCKS * FRAME_WORDS && page / PAGE_SIZE < MAX_BLOCKS
      modifies mem
      ensures stack == FRAME_WORDS * (page / PAGE_SIZE + 1) - 5
      ensures FrameBuilt(old(mem[..]), page, entry, mem[..])
    {
      stack := FRAME_WORDS * (page / PAGE_SIZE) + FRAME_WORDS;
      stack := stack - 1;
      mem[stack] := entry;
      stack := stack - 1;
      mem[stack] := 0;
      stack := stack - 1;
      mem[stack] := 0;
      stack := stack - 1;
      mem[stack] := 0;
      stack := stack - 1;
      mem[stack] := 0;
      assert mem[stack..stack + 5] == FreshContext(entry).Image();
    }

    /** A page for the stack, used unchecked, with the first frame on it. */
    method NewStack(entry: nat) returns (page: nat, stack: nat)
      requires pmm.Ready() && mem.Length == MAX_BLOCKS * FRAME_WORDS
      modifies mem, pmm`usedBlocks, pmm.bitmap
      ensures pmm.Ready() && PageTaken(old(pmm.Used()), page, pmm.Used()) && (page == 0 <==> old(pmm.Exhausted()))
      ensures stack == FRAME_WORDS * (page / PAGE_SIZE + 1) - 5 && FrameBuilt(old(mem[..]), page, entry, mem[..])
      ensures old(pmm.Packed()) ==> pmm.Packed()
      ensures old(pmm.Supply()) == (if page == 0 then [] else [page / PAGE_SIZE]) + pmm.Supply()
    {
      page := pmm.AllocPage();
      stack := BuildFrame(page, entry);
    }

    /** `thread_create`. The page is used unchecked: when the frame allocator has none,
        the stack is put in frame 0. Stacks stay apart exactly when no earlier thread
        was created that way. */
    method Create(entry: nat) returns (slot: nat, ghost page: nat)
      requires Valid()
      modifies this`nextThreadId, this`log, threads, mem, pmm`usedBlocks, pmm.bitmap
      ensures slot == FirstOf(StatesOf(old(threads[..])), Free)
      ensures slot == MAX_THREADS ==> Valid() && State() == old(State()) && page == 0
      ensures slot < MAX_THREADS ==>
                && PageTaken(old(pmm.Used()), page, pmm.Used()) && (page == 0 <==> old(pmm.Exhausted()))
                && FrameBuilt(old(mem[..]), page, entry, mem[..])
                && State() == AfterCreated(old(State()), slot, page, entry, mem[..], pmm.Used())
                && (Valid() <==> !(page == 0 && FrameZeroTaken(old(threads[..]))))
      ensures Valid() ==> Abstract() == After(old(Abstract()), RoundRobin.Create)
      ensures old(pmm.Packed()) ==> pmm.Packed()
      ensures old(pmm.Supply()) == (if page == 0 then [] else [page / PAGE_SIZE]) + pmm.Supply()
      ensures Moves(old(State()), Spawn(entry), State())
    {
      page := 0;
      slot := FirstSlot(Free);
      if slot == MAX_THREADS {
        return;
      }
      ghost var k := State();
      var stackBase, stack := NewStack(entry);
      page := stackBase;
      threads[slot] := Thread(stack, nextThreadId, Ready, stackBase, entry);
      nextThreadId := nextThreadId + 1;
      log := log + [Created(slot, entry)];
      assert threads[..] == k.threads[slot := Thread(stack, k.nextId, Ready, page, entry)];
      CreateEnds(k, slot, page, entry, mem[..], pmm.Used());
      assert Spawned(k, slot, page, entry, State());
    }

    // ---- the context switch -----------------------------------------------

    method Push(v: nat)
      requires 0 < esp <= mem.Length
      modifies this`esp, mem
      ensures esp == old(esp) - 1 && mem[..] == old(mem[..])[esp := v]
    {
      esp := esp - 1;
      mem[esp] := v;
    }

    method Pop() returns (v: nat)
      requires esp < mem.Length
      modifies this`esp
      ensures esp == old(esp) + 1 && v == mem[old(esp)]
    {
      v := mem[esp];
      esp := esp + 1;
    }

    /** The pushes of the call, then those of `switch_to_thread`. */
    method SaveContext(prev: nat, next: nat, ret: nat, ghost f: nat)
      requires FRAME_WORDS * f + SWITCH_WORDS <= esp <= FRAME_WORDS * (f + 1) <= mem.Length
      modifies this`esp, mem
      ensures esp == old(esp) - SWITCH_WORDS
      ensures mem[esp + 5] == prev && mem[esp + 6] == next
      ensures OnlyFrame(old(mem[..]), mem[..], f)
      ensures Holds(mem[..], f, esp,
                    Context(ebx, esi, edi, ebp, ret, [prev, next] + old(mem[esp..FRAME_WORDS * (f + 1)])))
    {
      ghost var m, at, w := mem[..], esp, [next, prev, ret, ebp, edi, esi, ebx];
      Push(next);
      Push(prev);
      Push(ret);
      Push(ebp);
      Push(edi);
      Push(esi);
      Push(ebx);
      assert mem[..] == SevenPushed(m, at, w);
      SevenPushes(m, at, w, f);
      assert mem[esp + 5] == mem[..][at - 2] && mem[esp + 6] == mem[..][at - 1];
    }

    /** What the processor holds and the stack under it, on the stack page at frame `f`. */
    ghost function Here(f: nat): Context
      reads this, mem
      requires esp <= FRAME_WORDS * (f + 1) <= mem.Length
    {
      Context(ebx, esi, edi, ebp, eip, mem[esp..FRAME_WORDS * (f + 1)])
    }

    /** The processor is where `c` left off, on the stack page at frame `f`. */
    ghost predicate Resumed(c: Context, f: nat)
      reads this, mem
    {
      esp <= FRAME_WORDS * (f + 1) <= mem.Length && Here(f) == c
    }

    /** The last switch in the log is the one to the current thread, and the log has what
        the processor holds after it. */
    ghost predicate JustIn()
      reads this, threads, mem
      requires threads.Length == MAX_THREADS
    {
      && log != [] && current < MAX_THREADS && log[|log| - 1].In? && log[|log| - 1].who == current
      && Resumed(log[|log| - 1].context, threads[current].Frame())
    }

    /** Take over a saved stack pointer, pop four registers and return. */
    method LoadContext(sp: nat, ghost f: nat, ghost c: Context)
      requires Holds(mem[..], f, sp, c)
      modifies this`ebx, this`esi, this`edi, this`ebp, this`esp, this`eip
      ensures esp == sp + 5 && Resumed(c, f)
    {
      HeldWords(mem[..], f, sp, c);
      esp := sp;
      ebx := Pop();
      esi := Pop();
      edi := Pop();
      ebp := Pop();
      eip := Pop();
      assert mem[esp..FRAME_WORDS * (f + 1)] == mem[..][sp + 5..FRAME_WORDS * (f + 1)];
    }

    /** `switch_to_thread(prev, next)` with its call: thread pointers are slot numbers.
        `f` and `g` are the stack frames of the two, `c` what `next` was switched out with. */
    method SwitchToThread(prev: nat, next: nat, ret: nat, ghost f: nat, ghost g: nat, ghost c: Context)
      requires threads.Length == MAX_THREADS && prev < MAX_THREADS && next < MAX_THREADS && prev != next
      requires FRAME_WORDS * f + SWITCH_WORDS <= esp <= FRAME_WORDS * (f + 1) <= mem.Length
      requires f != g && Holds(mem[..], g, threads[next].esp, c)
      modifies this`ebx, this`esi, this`edi, this`ebp, this`esp, this`eip, threads, mem
      ensures OnlyFrame(old(mem[..]), mem[..], f)
      ensures Holds(mem[..], f, old(esp) - SWITCH_WORDS,
                    Context(old(ebx), old(esi), old(edi), old(ebp), ret,
                        [prev, next] + old(mem[esp..FRAME_WORDS * (f + 1)])))
      ensures threads[..] == SetEsp(old(threads[..]), prev, old(esp) - SWITCH_WORDS)
      ensures esp == threads[next].esp + 5 && Resumed(c, g)
    {
      ghost var before := mem[..];
      SaveContext(prev, next, ret, f);
      HoldsKept(before, mem[..], g, threads[next].esp, c);
      var eax := mem[esp + 5];
      threads[eax] := threads[eax].(esp := esp);
      eax := mem[esp + 6];
      LoadContext(threads[eax].esp, g, c);
    }

    /** The scan of `schedule` around the table, starting after the current slot. */
    method FindNext() returns (idx: nat)
      requires threads.Length == MAX_THREADS && current < MAX_THREADS && threads[current].state == Running
      ensures idx == NextSlot(StatesOf(threads[..]), current)
    {
      ghost var states := StatesOf(threads[..]);
      assert Around(current, MAX_THREADS) == current;
      var i := 1;
      idx := Around(current, 1);
      while !Runnable(threads[idx].state)
        invariant 1 <= i <= MAX_THREADS && idx == Around(current, i)
        invariant forall k | 1 <= k < i :: !Runnable(states[Around(current, k)])
        decreases MAX_THREADS - i
      {
        assert i != MAX_THREADS;
        i := i + 1;
        idx := Around(current, i);
      }
      ScanIs(states, current, 1, i);
    }

    /** The first dispatch: the boot context is abandoned, the thread's frame popped. */
    method Dispatch(n: nat)
      requires threads.Length == MAX_THREADS && n < MAX_THREADS
      requires Holds(mem[..], threads[n].Frame(), threads[n].esp, LastSaved(log, n))
      modifies this`current, this`log, this`ebx, this`esi, this`edi, this`ebp, this`esp, this`eip, threads
      ensures State() == Dispatched(old(State()), n)
      ensures Resumed(LastSaved(old(log), n), old(threads[n]).Frame())
    {
      ghost var before, c, g := threads[..], LastSaved(log, n), threads[n].Frame();
      current := n;
      threads[n] := threads[n].(state := Running);
      assert threads[..] == before[n := before[n].(state := Running)];
      LoadContext(threads[n].esp, g, c);
      log := log + [In(n, Here(g))];
    }

    /** Dispatch the first waiting thread, in slot `n`. */
    method DispatchTo(n: nat)
      requires Valid() && current == MAX_THREADS && n < MAX_THREADS && n == FirstOf(StatesOf(threads[..]), Ready)
      modifies this`current, this`log, this`ebx, this`esi, this`edi, this`ebp, this`esp, this`eip, threads
      ensures Valid()
      ensures State().Abstract() == After(old(State()).Abstract(), RoundRobin.Schedule)
      ensures log == old(log) + [In(n, LastSaved(old(log), n))]
      ensures current == n && JustIn()
      ensures StackFramesOf(threads[..]) == StackFramesOf(old(threads[..]))
      ensures Scheduled(old(State()), State())
    {
      ghost var k := State();
      DispatchOk(k, n);
      Dispatch(n);
      assert State() == Dispatched(k, n);
      assert threads[n].Frame() == k.threads[n].Frame();
    }

    /** What the current thread is switched out with: its registers, the address to
        return to, and its stack under the two arguments of the call. */
    ghost function Outgoing(next: nat, ret: nat): Context
      reads this, threads, mem
      requires threads.Length == MAX_THREADS && current < MAX_THREADS
      requires esp <= FRAME_WORDS * (threads[current].Frame() + 1) <= mem.Length
    {
      Context(ebx, esi, edi, ebp, ret, [current, next] + mem[esp..FRAME_WORDS * (threads[current].Frame() + 1)])
    }

    lemma OutgoingStack(next: nat, ret: nat)
      requires threads.Length == MAX_THREADS && current < MAX_THREADS
      requires esp <= FRAME_WORDS * (threads[current].Frame() + 1) <= mem.Length
      ensures Outgoing(next, ret).stack
              == [current, next] + State().mem[esp..FRAME_WORDS * (State().threads[current].Frame() + 1)]
    {
    }

    method BeginSwitch(n: nat)
      requires threads.Length == MAX_THREADS && current < MAX_THREADS && n < MAX_THREADS
      modifies this`current, this`switchCount, threads
      ensures current == n && threads[..] == Handover(old(threads[..]), old(current), n)
      ensures switchCount == NextCount(old(switchCount))
    {
      threads[current] := threads[current].(state := Ready);
      threads[n] := threads[n].(state := Running);
      current := n;
      switchCount := NextCount(switchCount);
    }

    /** The switch itself, between two threads on different stack pages. */
    method PerformSwitch(n: nat, ret: nat)
      requires Distinct()
      requires threads.Length == MAX_THREADS && current < MAX_THREADS && n < MAX_THREADS && n != current
      requires var f := threads[current].Frame();
               FRAME_WORDS * f + SWITCH_WORDS <= esp <= FRAME_WORDS * (f + 1) <= mem.Length && f != threads[n].Frame()
      requires Holds(mem[..], threads[n].Frame(), threads[n].esp, LastSaved(log, n))
      modifies this`current, this`log, this`switchCount, this`ebx, this`esi, this`edi, this`ebp, this`esp, this`eip,
               threads, mem
      ensures State() == Switched(old(State()), n, old(Outgoing(n, ret)), old(esp) - SWITCH_WORDS, mem[..])
      ensures Resumed(LastSaved(old(log), n), old(threads[n]).Frame())
      ensures switchCount == NextCount(old(switchCount))
      ensures OnlyFrame(old(mem[..]), mem[..], old(threads[current]).Frame())
      ensures Holds(mem[..], old(threads[current]).Frame(), old(esp) - SWITCH_WORDS, old(Outgoing(n, ret)))
    {
      ghost var k, c := State(), Outgoing(n, ret);
      var prev := current;
      HandoverEsp(k.threads, prev, n, esp - SWITCH_WORDS);
      BeginSwitch(n);
      SwitchToThread(prev, n, ret, k.threads[prev].Frame(), k.threads[n].Frame(), LastSaved(log, n));
      log := log + [Out(prev, c)] + [In(n, Here(k.threads[n].Frame()))];
    }

    /** The switch as a step of the whole kernel. */
    method SwitchOver(n: nat, ret: nat)
      requires Distinct()
      requires threads.Length == MAX_THREADS && current < MAX_THREADS && n < MAX_THREADS && n != current
      requires var f := threads[current].Frame();
               FRAME_WORDS * f + SWITCH_WORDS <= esp <= FRAME_WORDS * (f + 1) <= mem.Length && f != threads[n].Frame()
      requires Holds(mem[..], threads[n].Frame(), threads[n].esp, LastSaved(log, n))
      modifies this`current, this`log, this`switchCount, this`ebx, this`esi, this`edi, this`ebp, this`esp, this`eip,
               threads, mem
      ensures SwitchedOut(old(State()), n, old(Outgoing(n, ret)), State())
      ensures Resumed(LastSaved(old(log), n), old(threads[n]).Frame())
      ensures switchCount == NextCount(old(switchCount))
    {
      ghost var k, c := State(), Outgoing(n, ret);
      OutgoingStack(n, ret);
      PerformSwitch(n, ret);
      SwitchedOutIs(k, n, c, k.threads[k.current].Frame(), State());
    }

    /** The slot found holds a waiting thread, so that it can be switched to. */
    method SwitchReady(n: nat, ret: nat)
      requires Valid() && current < MAX_THREADS && n != current && n == NextSlot(StatesOf(threads[..]), current)
      requires FRAME_WORDS * threads[current].Frame() + SWITCH_WORDS <= esp
      modifies this`current, this`log, this`switchCount, this`ebx, this`esi, this`edi, this`ebp, this`esp, this`eip,
               threads, mem
      ensures SwitchedOut(old(State()), n, old(Outgoing(n, ret)), State())
      ensures Resumed(LastSaved(old(log), n), old(threads[n]).Frame())
      ensures switchCount == NextCount(old(switchCount))
    {
      NextIsReady(State(), n);
      SwitchOver(n, ret);
    }

    /** Switch to the waiting thread in slot `n`. */
    method SwitchTo(n: nat, ret: nat)
      requires Valid() && current < MAX_THREADS && n != current && n == NextSlot(StatesOf(threads[..]), current)
      requires FRAME_WORDS * threads[current].Frame() + SWITCH_WORDS <= esp
      modifies this`current, this`log, this`switchCount, this`ebx, this`esi, this`edi, this`ebp, this`esp, this`eip,
               threads, mem
      ensures Valid() && Scheduled(old(State()), State())
      ensures State().Abstract() == After(old(State()).Abstract(), RoundRobin.Schedule)
      ensures log == old(log) + [Out(old(current), old(Outgoing(n, ret)))] + [In(n, LastSaved(old(log), n))]
      ensures current == n && JustIn()
      ensures OnlyFrame(old(mem[..]), mem[..], old(threads[current]).Frame())
      ensures switchCount == NextCount(old(switchCount))
      ensures StackFramesOf(threads[..]) == StackFramesOf(old(threads[..]))
    {
      ghost var k, c := State(), Outgoing(n, ret);
      SwitchReady(n, ret);
      SwitchScheduled(k, n, c, State());
    }

    /** The processor's registers and stack are those of `c`. */
    ghost predicate Has(c: Context)
      reads this, threads, mem
    {
      && threads.Length == MAX_THREADS && current < MAX_THREADS
      && esp <= FRAME_WORDS * (threads[current].Frame() + 1) <= mem.Length
      && ebx == c.ebx && esi == c.esi && edi == c.edi && ebp == c.ebp && eip == c.eip
      && mem[esp..FRAME_WORDS * (threads[current].Frame() + 1)] == c.stack
    }

    lemma JustInHas()
      requires threads.Length == MAX_THREADS && JustIn()
      ensures Has(log[|log| - 1].context)
    {
    }

    /** `schedule` before the first dispatch. */
    method ScheduleFirst()
      requires Valid() && current == MAX_THREADS
      modifies this`current, this`log, this`ebx, this`esi, this`edi, this`ebp, this`esp, this`eip, threads
      ensures Valid() && Scheduled(old(State()), State())
      ensures current != old(current) ==> log == old(log) + [In(current, LastSaved(old(log), current))] && JustIn()
      ensures current == old(current) ==> unchanged(this) && unchanged(threads)
    {
      var n := FirstSlot(Ready);
      if n < MAX_THREADS {
        DispatchTo(n);
      }
    }

    /** `schedule` from a running thread. */
    method ScheduleNext(ret: nat)
      requires Valid() && current < MAX_THREADS && FRAME_WORDS * threads[current].Frame() + SWITCH_WORDS <= esp
      modifies this`current, this`log, this`switchCount, this`ebx, this`esi, this`edi, this`ebp, this`esp, this`eip,
               threads, mem
      ensures Valid() && Scheduled(old(State()), State())
      ensures current != old(current) ==>
                && log == old(log)
                          + [Out(old(current), old(Outgoing(NextSlot(StatesOf(threads[..]), current), ret)))]
                          + [In(current, LastSaved(old(log), current))]
                && JustIn() && switchCount == NextCount(old(switchCount))
                && current == NextSlot(StatesOf(old(threads[..])), old(current))
      ensures current == old(current) ==> unchanged(this) && unchanged(threads) && unchanged(mem)
    {
      CurrentRuns(State());
      var n := FindNext();
      if n != current {
        SwitchTo(n, ret);
      }
    }

    /** `schedule`, as one atomic step; `ret` is where its call of `switch_to_thread` returns to. */
    method Schedule(ret: nat)
      requires Valid()
      requires current < MAX_THREADS ==> FRAME_WORDS * threads[current].Frame() + SWITCH_WORDS <= esp
      modifies this`current, this`log, this`switchCount, this`ebx, this`esi, this`edi, this`ebp, this`esp, this`eip,
               threads, mem
      ensures Valid()
      ensures State().Abstract() == After(old(State()).Abstract(), RoundRobin.Schedule)
      ensures current != old(current) ==>
                log == old(log)
                       + (if old(current) == MAX_THREADS then []
                          else
                            [Out(old(current), Context(old(ebx), old(esi), old(edi), old(ebp), ret,
                             [old(current), current] + old(mem[esp..FRAME_WORDS * (threads[current].Frame() + 1)])))])
                       + [In(current, LastSaved(old(log), current))]
      ensures current != old(current) ==> JustIn() && Has(log[|log| - 1].context)
      ensures current == old(current) ==> unchanged(this) && unchanged(threads) && unchanged(mem)
      ensures switchCount == if current == old(current) || old(current) == MAX_THREADS then old(switchCount)
                             else (old(switchCount) + 1) % 0x1_0000_0000
      ensures StackFramesOf(threads[..]) == StackFramesOf(old(threads[..]))
      ensures Moves(old(State()), Yield(ret), State())
    {
      if current == MAX_THREADS {
        assert log + [] == log;
        ScheduleFirst();
      } else {
        ScheduleNext(ret);
      }
      if current != old(current) {
        JustInHas();
      }
    }

    /** What `schedule` is to the other users of the frame allocator. */
    method Reschedule(ret: nat)
      requires Valid()
      requires current < MAX_THREADS ==> FRAME_WORDS * threads[current].Frame() + SWITCH_WORDS <= esp
      modifies this`current, this`log, this`switchCount, this`ebx, this`esi, this`edi, this`ebp, this`esp, this`eip,
               threads, mem
      ensures Valid() && Moves(old(State()), Yield(ret), State())
      ensures StackFramesOf(threads[..]) == StackFramesOf(old(threads[..]))
    {
      Schedule(ret);
    }

    // ---- whole runs -------------------------------------------------------

    /** Words the running thread may write: anything but the stacks of waiting threads. */
    predicate MayWrite(a: nat)
      reads this, threads, mem, pmm, pmm.bitmap
      requires threads.Length == MAX_THREADS
      ensures MayWrite(a) <==> Writable(State(), a)
    {
      a < mem.Length && forall j | 0 <= j < MAX_THREADS ::
        threads[j].state == Ready ==> a / FRAME_WORDS != threads[j].Frame()
    }

    method Write(writes: map<nat, nat>)
      modifies mem
      ensures forall a: nat | a < mem.Length :: mem[a] == if a in writes then writes[a] else old(mem[a])
    {
      forall a | 0 <= a < mem.Length && a in writes {
        mem[a] := writes[a];
      }
    }

    /** The running thread computes for a while. */
    method Compute(r: Registers, writes: map<nat, nat>)
      requires Valid() && current < MAX_THREADS && forall a | a in writes :: MayWrite(a)
      requires FRAME_WORDS * threads[current].Frame() <= r.esp <= FRAME_WORDS * (threads[current].Frame() + 1)
      modifies this`ebx, this`esi, this`edi, this`ebp, this`esp, this`eip, mem
      ensures Valid() && State() == old(State()).(mem := mem[..], esp := r.esp)
      ensures forall a: nat | a < mem.Length :: mem[a] == if a in writes then writes[a] else old(mem[a])
      ensures Moves(old(State()), Run(r, writes), State())
    {
      ghost var k := State();
      Write(writes);
      ebx, esi, edi, ebp, esp, eip := r.ebx, r.esi, r.edi, r.ebp, r.esp, r.eip;
      assert State() == k.(mem := mem[..], esp := r.esp);
      RanOk(k, r, writes, State());
    }

    /** The assumptions on a step: threads stay on their own stacks, with room for a
        switch when they call `schedule`, and no second stack is put in frame 0. */
    predicate Legal(s: Step)
      reads this, threads, mem, pmm, pmm.bitmap
      requires Valid()
      ensures Legal(s) <==> LegalIn(State(), s)
    {
      match s
      case Run(r, writes) =>
        && current < MAX_THREADS && (forall a | a in writes :: MayWrite(a))
        && FRAME_WORDS * threads[current].Frame() <= r.esp <= FRAME_WORDS * (threads[current].Frame() + 1)
      case Yield(_) =>
        current < MAX_THREADS ==> FRAME_WORDS * threads[current].Frame() + SWITCH_WORDS <= esp
      case Spawn(_) =>
        forall j | 0 <= j < MAX_THREADS :: threads[j].state != Free ==> threads[j].Frame() != 0
    }

    method Perform(s: Step)
      requires Valid() && Legal(s)
      modifies this, threads, mem, pmm`usedBlocks, pmm.bitmap
      ensures Valid() && old(log) <= log && nextThreadId >= old(nextThreadId)
      ensures Abstract() == AfterAll(old(Abstract()), EventsOf(s))
      ensures current != old(current) ==> log != old(log) && JustIn()
      ensures Moves(old(State()), s, State())
    {
      ghost var a := Abstract();
      match s {
        case Run(r, writes) =>
          Compute(r, writes);
        case Yield(ret) =>
          AfterOne(a, RoundRobin.Schedule);
          Schedule(ret);
        case Spawn(entry) =>
          AfterOne(a, RoundRobin.Create);
          var _, _ := Create(entry);
      }
    }

    /** One step of a run that began in `s0` and has had `events`. */
    method Advance(s: Step, ghost s0: Sched, ghost events: seq<RoundRobin.Event>, ghost from: nat)
      requires Valid() && Legal(s) && from <= |log| && s0.Valid() && Abstract() == AfterAll(s0, events)
      requires Turns(s0, Abstract(), Schedules(events), log, from)
      modifies this, threads, mem, pmm`usedBlocks, pmm.bitmap
      ensures Valid() && old(log) <= log && Abstract() == AfterAll(s0, events + EventsOf(s))
      ensures Turns(s0, Abstract(), Schedules(events + EventsOf(s)), log, from)
    {
      ghost var now, before, more := Abstract(), log, EventsOf(s);
      RunOn(s0, events, more);
      Perform(s);
      TurnsKept(s0, now, Schedules(events), more, Schedules(events + more), before, log, from);
    }

    lemma IdsUnique()
      requires Valid()
      ensures forall i, j | 0 <= i < j < MAX_THREADS && threads[i].state != Free && threads[j].state != Free ::
                threads[i].id != threads[j].id
    {
      forall i | 0 <= i < MAX_THREADS && threads[i].state != Free ensures threads[i].id == i + 1 {
        assert NumberedAt(State().threads[i], i, nextThreadId);
      }
    }

    /** Over any run: every thread switched in got exactly what it was last switched out
        with, or its entry point and an empty stack when it never ran; ids stay unique.
        The scheduler follows the round robin, so that a thread waiting at the start is
        switched in by the time `schedule` was called its distance in slots. */
    method RunAll(steps: seq<Step>) returns (done: nat)
      requires Valid()
      modifies this, threads, mem, pmm`usedBlocks, pmm.bitmap
      ensures Valid() && done <= |steps| && (done < |steps| ==> !Legal(steps[done]))
      ensures Faithful(log) && AllGoOn(log) && old(log) <= log
      ensures Abstract() == AfterAll(old(Abstract()), AllEvents(steps[..done]))
      ensures old(current) < MAX_THREADS ==> forall j | 0 <= j < MAX_THREADS && old(threads[j].state) == Ready ::
                Schedules(AllEvents(steps[..done])) >= Distance(old(current), j) ==> SwitchedIn(log, |old(log)|, j)
      ensures forall i, j | 0 <= i < j < MAX_THREADS && threads[i].state != Free && threads[j].state != Free ::
                threads[i].id != threads[j].id
    {
      ghost var s0, from, events := Abstract(), |log|, [];
      done := 0;
      while done < |steps| && Legal(steps[done])
        invariant Valid() && done <= |steps| && old(log) <= log
        invariant events == AllEvents(steps[..done]) && Abstract() == AfterAll(s0, events)
        invariant Turns(s0, Abstract(), Schedules(events), log, from)
      {
        Advance(steps[done], s0, events, from);
        NextEvents(steps, done);
        events := events + EventsOf(steps[done]);
        done := done + 1;
      }
      FaithfulMeans(log);
      TurnsDone(s0, Abstract(), Schedules(events), log, from);
      IdsUnique();
    }
  }
}
