/** A ring of message slots as a queue. */
module Rings {
  const IPC_MAX_MESSAGES: nat := 16

  datatype Message = Message(sender: nat, kind: nat, data1: nat, data2: nat)

  datatype Mailbox = Mailbox(messages: seq<Message>, head: nat, tail: nat, count: nat) {
    ghost predicate Valid() {
      && |messages| == IPC_MAX_MESSAGES && head < IPC_MAX_MESSAGES && count <= IPC_MAX_MESSAGES
      && tail == Slot(head, count)
    }

    /** The queued messages, oldest first. */
    ghost function Queue(): (q: seq<Message>)
      requires Valid()
      ensures |q| == count
    {
      seq(count, k requires 0 <= k < count => messages[Slot(head, k)])
    }

    /** Store a message at the tail, as the critical section of `ipc_send` does. */
    function Put(m: Message): Mailbox
      requires |messages| == IPC_MAX_MESSAGES && tail < IPC_MAX_MESSAGES
    {
      Mailbox(messages[tail := m], head, Slot(tail, 1), count + 1)
    }

    /** Drop the message at the head, as the critical section of `ipc_receive` does. */
    function Take(): Mailbox
      requires count > 0
    {
      Mailbox(messages, Slot(head, 1), tail, count - 1)
    }
  }

  /** The slot `k` places after `head`, around the ring. */
  function Slot(head: nat, k: nat): (s: nat)
    ensures s < IPC_MAX_MESSAGES
  {
    (head + k) % IPC_MAX_MESSAGES
  }

  lemma SlotsDiffer(head: nat, j: nat, k: nat)
    requires head < IPC_MAX_MESSAGES && j < k < IPC_MAX_MESSAGES
    ensures Slot(head, j) != Slot(head, k)
  {
    assert Slot(head, j) == if head + j < IPC_MAX_MESSAGES then head + j else head + j - IPC_MAX_MESSAGES;
    assert Slot(head, k) == if head + k < IPC_MAX_MESSAGES then head + k else head + k - IPC_MAX_MESSAGES;
  }

  lemma SlotNext(head: nat, k: nat)
    requires head < IPC_MAX_MESSAGES
    ensures Slot(head, k + 1) == Slot(Slot(head, 1), k) == Slot(Slot(head, k), 1)
  {
    var q, r := (head + k) / IPC_MAX_MESSAGES, (head + k) % IPC_MAX_MESSAGES;
    if r + 1 < IPC_MAX_MESSAGES {
      SlotIs(head, k + 1, q, r + 1);
      SlotIs(r, 1, 0, r + 1);
    } else {
      SlotIs(head, k + 1, q + 1, 0);
      SlotIs(r, 1, 1, 0);
    }
    if head + 1 < IPC_MAX_MESSAGES {
      SlotIs(head, 1, 0, head + 1);
    } else {
      SlotIs(head, 1, 1, 0);
      assert head + k + 1 == IPC_MAX_MESSAGES + k;
      var t := Slot(0, k);
      SlotIs(head, k + 1, k / IPC_MAX_MESSAGES + 1, t);
    }
  }

  lemma SlotIs(head: nat, k: nat, q: nat, r: nat)
    requires head + k == IPC_MAX_MESSAGES * q + r && r < IPC_MAX_MESSAGES
    ensures Slot(head, k) == r
  {
  }

  lemma PutQueues(b: Mailbox, m: Message)
    requires b.Valid() && b.count < IPC_MAX_MESSAGES
    ensures b.Put(m).Valid() && b.Put(m).Queue() == b.Queue() + [m]
  {
    SlotNext(b.head, b.count);
    forall k | 0 <= k < b.count ensures Slot(b.head, k) != b.tail {
      SlotsDiffer(b.head, k, b.count);
    }
  }

  lemma TakeDequeues(b: Mailbox)
    requires b.Valid() && b.count > 0
    ensures b.Take().Valid() && b.Take().Queue() == b.Queue()[1..] && b.messages[b.head] == b.Queue()[0]
  {
    SlotNext(b.head, b.count - 1);
    SlotZero(b.head);
    var rest := b.Take();
    assert rest.Valid();
    var q, tail := rest.Queue(), b.Queue()[1..];
    forall k | 0 <= k < rest.count ensures q[k] == tail[k] {
      SlotNext(b.head, k);
    }
  }

  lemma SlotZero(head: nat)
    requires head < IPC_MAX_MESSAGES
    ensures Slot(head, 0) == head
  {
  }

  // ---- traffic of all mailboxes ---------------------------------------------

  const TWO_32: nat := 0x1_0000_0000

  /** Accepted sends and completed receives of one mailbox, oldest first. */
  datatype Traffic = Traffic(sent: seq<Message>, received: seq<Message>)

  /** What was received is a prefix of what was sent; the rest is in the ring. */
  ghost predicate InOrder(t: Traffic, b: Mailbox) {
    b.Valid() && t.received + b.Queue() == t.sent
  }

  ghost function TotalSent(ts: seq<Traffic>): nat {
    if ts == [] then 0 else |ts[0].sent| + TotalSent(ts[1..])
  }

  ghost function TotalReceived(ts: seq<Traffic>): nat {
    if ts == [] then 0 else |ts[0].received| + TotalReceived(ts[1..])
  }

  ghost function TotalQueued(bs: seq<Mailbox>): nat {
    if bs == [] then 0 else bs[0].count + TotalQueued(bs[1..])
  }

  lemma {:induction false} TotalsChange(ts: seq<Traffic>, i: nat, t: Traffic)
    requires i < |ts|
    ensures TotalSent(ts[i := t]) == TotalSent(ts) - |ts[i].sent| + |t.sent|
    ensures TotalReceived(ts[i := t]) == TotalReceived(ts) - |ts[i].received| + |t.received|
  {
    if i > 0 {
      TotalsChange(ts[1..], i - 1, t);
      assert ts[i := t][1..] == ts[1..][i - 1 := t];
    } else {
      assert ts[i := t][1..] == ts[1..];
    }
  }

  /** Messages are conserved over all mailboxes. */
  lemma {:induction false} Conserved(ts: seq<Traffic>, bs: seq<Mailbox>)
    requires |ts| == |bs| && forall i | 0 <= i < |ts| :: InOrder(ts[i], bs[i])
    ensures TotalSent(ts) == TotalReceived(ts) + TotalQueued(bs)
  {
    if ts != [] {
      assert InOrder(ts[0], bs[0]);
      forall i | 0 <= i < |ts[1..]| ensures InOrder(ts[1..][i], bs[1..][i]) {
        assert InOrder(ts[i + 1], bs[i + 1]);
      }
      Conserved(ts[1..], bs[1..]);
    }
  }

  ghost predicate AllInOrder(ts: seq<Traffic>, bs: seq<Mailbox>) {
    |ts| == |bs| && forall i | 0 <= i < |ts| :: InOrder(ts[i], bs[i])
  }

  /** A 32-bit counter. */
  function Wrap(n: nat): nat {
    n % TWO_32
  }

  lemma WrapNext(n: nat)
    ensures Wrap(Wrap(n) + 1) == Wrap(n + 1)
  {
  }

  /** All mailboxes, their traffic so far and the two counters. */
  datatype Flow = Flow(boxes: seq<Mailbox>, traffic: seq<Traffic>, totalSent: nat, totalReceived: nat) {
    ghost predicate Valid() {
      && |boxes| == |traffic| && AllInOrder(traffic, boxes)
      && totalSent == Wrap(TotalSent(traffic)) && totalReceived == Wrap(TotalReceived(traffic))
    }

    /** An accepted send. */
    ghost function Sent(i: nat, m: Message): Flow
      requires i < |boxes| == |traffic| && |boxes[i].messages| == IPC_MAX_MESSAGES && boxes[i].tail < IPC_MAX_MESSAGES
    {
      Flow(boxes[i := boxes[i].Put(m)], traffic[i := traffic[i].(sent := traffic[i].sent + [m])],
           Wrap(totalSent + 1), totalReceived)
    }

    /** A completed receive. */
    ghost function Received(i: nat, m: Message): Flow
      requires i < |boxes| == |traffic| && boxes[i].count > 0
    {
      Flow(boxes[i := boxes[i].Take()], traffic[i := traffic[i].(received := traffic[i].received + [m])],
           totalSent, Wrap(totalReceived + 1))
    }
  }

  lemma BoxValid(f: Flow, i: nat)
    requires f.Valid() && i < |f.boxes|
    ensures f.boxes[i].Valid()
  {
    assert InOrder(f.traffic[i], f.boxes[i]);
  }

  lemma BoxSent(t: Traffic, b: Mailbox, m: Message)
    requires InOrder(t, b) && b.count < IPC_MAX_MESSAGES
    ensures InOrder(t.(sent := t.sent + [m]), b.Put(m))
  {
    PutQueues(b, m);
    assert t.received + (b.Queue() + [m]) == t.sent + [m];
  }

  /** A receive hands out the oldest message not received yet. */
  lemma BoxReceived(t: Traffic, b: Mailbox)
    requires InOrder(t, b) && b.count > 0
    ensures var m := b.messages[b.head];
            && |t.received| < |t.sent| && m == t.sent[|t.received|]
            && InOrder(t.(received := t.received + [m]), b.Take())
  {
    TakeDequeues(b);
    var m, rest := b.messages[b.head], b.Take().Queue();
    assert b.Queue() == [m] + rest;
    assert t.received + [m] + rest == t.received + b.Queue();
    assert t.sent[|t.received|] == (t.received + b.Queue())[|t.received|];
  }

  lemma OthersInOrder(f: Flow, i: nat, t: Traffic, b: Mailbox)
    requires f.Valid() && i < |f.boxes| && InOrder(t, b)
    ensures AllInOrder(f.traffic[i := t], f.boxes[i := b])
  {
    var ts, bs := f.traffic[i := t], f.boxes[i := b];
    forall k | 0 <= k < |ts| ensures InOrder(ts[k], bs[k]) {
      assert InOrder(f.traffic[k], f.boxes[k]);
    }
  }

  lemma SentValid(f: Flow, i: nat, m: Message)
    requires f.Valid() && i < |f.boxes| && f.boxes[i].count < IPC_MAX_MESSAGES
    ensures f.boxes[i].Valid() && f.Sent(i, m).Valid()
  {
    BoxValid(f, i);
    var t := f.traffic[i];
    BoxSent(t, f.boxes[i], m);
    OthersInOrder(f, i, t.(sent := t.sent + [m]), f.boxes[i].Put(m));
    TotalsChange(f.traffic, i, t.(sent := t.sent + [m]));
    WrapNext(TotalSent(f.traffic));
  }

  lemma ReceivedValid(f: Flow, i: nat)
    requires f.Valid() && i < |f.boxes| && f.boxes[i].count > 0
    ensures f.boxes[i].Valid()
    ensures var t, m := f.traffic[i], f.boxes[i].messages[f.boxes[i].head];
            f.Received(i, m).Valid() && |t.received| < |t.sent| && m == t.sent[|t.received|]
  {
    BoxValid(f, i);
    var t, m := f.traffic[i], f.boxes[i].messages[f.boxes[i].head];
    BoxReceived(t, f.boxes[i]);
    OthersInOrder(f, i, t.(received := t.received + [m]), f.boxes[i].Take());
    TotalsChange(f.traffic, i, t.(received := t.received + [m]));
    WrapNext(TotalReceived(f.traffic));
  }

  /** First in, first out, and nothing lost: each receiver has received a prefix of what
      was sent to it, and the counters differ by what is still queued. */
  lemma FlowPromises(f: Flow)
    requires f.Valid()
    ensures forall i | 0 <= i < |f.boxes| ::
              f.traffic[i].received <= f.traffic[i].sent
                  && f.boxes[i].count == |f.traffic[i].sent| - |f.traffic[i].received|
    ensures (f.totalSent - f.totalReceived) % TWO_32 == TotalQueued(f.boxes) % TWO_32
  {
    forall i | 0 <= i < |f.boxes|
      ensures f.traffic[i].received <= f.traffic[i].sent
              && f.boxes[i].count == |f.traffic[i].sent| - |f.traffic[i].received|
    {
      assert InOrder(f.traffic[i], f.boxes[i]);
    }
    Conserved(f.traffic, f.boxes);
    DifferenceModulo(TotalSent(f.traffic), TotalReceived(f.traffic));
  }

  lemma DifferenceModulo(a: nat, b: nat)
    requires b <= a
    ensures (a % TWO_32 - b % TWO_32) % TWO_32 == (a - b) % TWO_32
  {
    var x, y := a / TWO_32, b / TWO_32;
    assert a - b == (x - y) * TWO_32 + (a % TWO_32 - b % TWO_32);
  }
}

/** The steps of the message calls, on values. */
module IpcSteps {
  import opened Frames
  import opened RoundRobin
  import opened Contexts
  import opened ThreadSteps
  import opened Rings

  /** A call between its lookup and its `cli`: the slot found, and what to do there. */
  datatype Pending = Sending(slot: nat, id: nat, message: Message) | Receiving(slot: nat, id: nat)

  datatype IpcStep =
    | ThreadStep(step: ThreadSteps.Step)
    | LookUpSend(caller: nat, receiver: nat, message: Message)
    | LookUpReceive(caller: nat, receiver: nat)
    | Enter(caller: nat)

  datatype IpcView = IpcView(kernel: Kernel, flow: Flow, pending: map<nat, Pending>)

  ghost predicate Alive(k: Kernel, id: nat) {
    exists i :: 0 <= i < |k.threads| && k.threads[i].state != Free && k.threads[i].id == id
  }

  /** The lookup that a call starts with. */
  ghost function LookedUp(v: IpcView, caller: nat, receiver: nat, p: Pending): IpcView {
    if caller !in v.pending && Alive(v.kernel, receiver) then v.(pending := v.pending[caller := p]) else v
  }

  /** The critical section that a call ends with: a send fails on a full mailbox, a receive
      on an empty one and otherwise hands out the oldest message not yet received. */
  ghost function Entered(f: Flow, p: Pending): Flow
    requires f.Valid() && p.slot < |f.boxes|
  {
    BoxValid(f, p.slot);
    match p
    case Sending(slot, _, m) => if f.boxes[slot].count == IPC_MAX_MESSAGES then f else f.Sent(slot, m)
    case Receiving(slot, _) =>
      var t := f.traffic[slot];
      if f.boxes[slot].count == 0 || |t.received| >= |t.sent| then f else f.Received(slot, t.sent[|t.received|])
  }

  /** One step takes `v` to `v'`; what cannot happen is passed over. */
  ghost predicate IpcMoves(v: IpcView, s: IpcStep, v': IpcView) {
    match s
    case ThreadStep(t) =>
      if LegalIn(v.kernel, t) then v' == v.(kernel := v'.kernel) && Moves(v.kernel, t, v'.kernel) else v' == v
    case LookUpSend(caller, receiver, m) =>
      v' == LookedUp(v, caller, receiver, Sending(PredOf(receiver), receiver, m))
    case LookUpReceive(caller, receiver) =>
      v' == LookedUp(v, caller, receiver, Receiving(PredOf(receiver), receiver))
    case Enter(caller) =>
      if caller !in v.pending then v' == v
      else
        && v.flow.Valid() && v.pending[caller].slot < |v.flow.boxes|
        && v' == IpcView(v.kernel, Entered(v.flow, v.pending[caller]), v.pending - {caller})
  }

  /** The states that the first `n` steps go through. */
  ghost predicate Followed(steps: seq<IpcStep>, n: nat, trace: seq<IpcView>) {
    && n <= |steps| && |trace| == n + 1
    && forall i | 0 <= i < n :: IpcMoves(trace[i], steps[i], trace[i + 1])
  }

  lemma FollowedMore(steps: seq<IpcStep>, n: nat, trace: seq<IpcView>, v: IpcView)
    requires Followed(steps, n, trace) && n < |steps| && IpcMoves(trace[n], steps[n], v)
    ensures Followed(steps, n + 1, trace + [v])
  {
    var more := trace + [v];
    forall i | 0 <= i < n + 1 ensures IpcMoves(more[i], steps[i], more[i + 1]) {
      if i < n {
        assert more[i] == trace[i] && more[i + 1] == trace[i + 1];
      }
    }
  }

  /** The slot of a thread: ids are slots plus one. */
  function PredOf(id: nat): nat {
    if id == 0 then 0 else id - 1
  }
}

/** `ipc_send` and `ipc_receive` as a lookup and a critical section, interleaved with each
    other and with the threads. */
module Mailboxes {
  import opened Frames
  import opened RoundRobin
  import opened Contexts
  import opened ThreadSteps
  import opened Threads
  import opened Rings
  import opened IpcSteps

  class Ipc {
    const kernel: Machine
    const boxes: array<Mailbox>
    var totalSent: nat
    var totalReceived: nat
    /** Calls that have looked up their mailbox and not entered their critical section. */
    var pending: map<nat, Pending>
    ghost var traffic: seq<Traffic>

    /** The slot found still belongs to the receiver: threads are never freed. */
    ghost predicate PendingOk(p: Pending)
      reads kernel
    {
      p.slot < MAX_THREADS && p.id == p.slot + 1 < kernel.nextThreadId
    }

    ghost function View(): IpcView
      reads this, boxes, kernel, kernel.threads, kernel.mem, kernel.pmm, kernel.pmm.bitmap
    {
      IpcView(kernel.State(), State(), pending)
    }

    ghost function State(): Flow
      reads this, boxes
    {
      Flow(boxes[..], traffic, totalSent, totalReceived)
    }

    ghost predicate Valid()
      reads this, boxes, kernel, kernel.threads, kernel.mem, kernel.pmm, kernel.pmm.bitmap
    {
      && kernel.Valid() && boxes.Length == MAX_THREADS
      && boxes as object != kernel.threads && boxes as object != kernel.mem && boxes as object != kernel.pmm.bitmap
      && State().Valid()
      && forall c | c in pending :: PendingOk(pending[c])
    }

    /** `ipc_init` on static storage. */
    constructor (kernel: Machine)
      requires kernel.Valid()
      ensures Valid() && this.kernel == kernel && pending == map[] && fresh(boxes)
      ensures forall i | 0 <= i < MAX_THREADS :: boxes[i].count == 0
    {
      this.kernel := kernel;
      boxes := new Mailbox[MAX_THREADS](_ => Mailbox(seq(IPC_MAX_MESSAGES, _ => Message(0, 0, 0, 0)), 0, 0, 0));
      totalSent, totalReceived, pending := 0, 0, map[];
      traffic := seq(MAX_THREADS, _ => Traffic([], []));
      new;
      Quiet(MAX_THREADS);
      assert traffic == seq(MAX_THREADS, _ => Traffic([], []));
    }

    lemma {:induction false} Quiet(n: nat)
      ensures TotalSent(seq(n, _ => Traffic([], []))) == TotalReceived(seq(n, _ => Traffic([], []))) == 0
    {
      if n > 0 {
        Quiet(n - 1);
        assert seq(n, _ => Traffic([], []))[1..] == seq(n - 1, _ => Traffic([], []));
      }
    }

    /** The scan both calls start with: the slot whose thread has this id, if any. */
    method LookUp(id: nat) returns (slot: nat)
      requires Valid()
      ensures slot <= MAX_THREADS
      ensures slot < MAX_THREADS <==>
              exists i :: 0 <= i < MAX_THREADS && kernel.threads[i].state != Free && kernel.threads[i].id == id
      ensures slot < MAX_THREADS ==> kernel.threads[slot].state != Free && kernel.threads[slot].id == id
      ensures slot < MAX_THREADS ==> id == slot + 1 < kernel.nextThreadId
    {
      slot := 0;
      while slot < MAX_THREADS && !(kernel.threads[slot].state != Free && kernel.threads[slot].id == id)
        invariant slot <= MAX_THREADS
        invariant forall i | 0 <= i < slot :: !(kernel.threads[i].state != Free && kernel.threads[i].id == id)
      {
        slot := slot + 1;
      }
      if slot < MAX_THREADS {
        assert NumberedAt(kernel.State().threads[slot], slot, kernel.nextThreadId);
      }
    }

    /** First step of `ipc_send`, with interrupts on. */
    method BeginSend(caller: nat, receiver: nat, message: Message) returns (ok: bool)
      requires Valid() && caller !in pending
      modifies this`pending
      ensures Valid()
      ensures ok <==> exists i ::
              0 <= i < MAX_THREADS && kernel.threads[i].state != Free && kernel.threads[i].id == receiver
      ensures pending == if ok then old(pending)[caller := Sending(receiver - 1, receiver, message)] else old(pending)
    {
      var slot := LookUp(receiver);
      if slot == MAX_THREADS {
        return false;
      }
      pending := pending[caller := Sending(slot, receiver, message)];
      return true;
    }

    /** First step of `ipc_receive`, with interrupts on. */
    method BeginReceive(caller: nat, receiver: nat) returns (ok: bool)
      requires Valid() && caller !in pending
      modifies this`pending
      ensures Valid()
      ensures ok <==> exists i ::
              0 <= i < MAX_THREADS && kernel.threads[i].state != Free && kernel.threads[i].id == receiver
      ensures pending == if ok then old(pending)[caller := Receiving(receiver - 1, receiver)] else old(pending)
    {
      var slot := LookUp(receiver);
      if slot == MAX_THREADS {
        return false;
      }
      pending := pending[caller := Receiving(slot, receiver)];
      return true;
    }

    /** The critical section of `ipc_send`: fails exactly on a full mailbox. */
    method EndSend(caller: nat) returns (r: int)
      requires Valid() && caller in pending && pending[caller].Sending?
      modifies this`pending, this`totalSent, this`traffic, boxes
      ensures Valid() && pending == old(pending) - {caller}
      ensures r == if old(boxes[pending[caller].slot]).count == 16 then -1 else 0
      ensures r == -1 ==> State() == old(State())
      ensures r == 0 ==> State() == old(State().Sent(pending[caller].slot, pending[caller].message))
    {
      ghost var f := State();
      var p := pending[caller];
      BoxValid(f, p.slot);
      pending := pending - {caller};
      if boxes[p.slot].count >= IPC_MAX_MESSAGES {
        return -1;
      }
      SentValid(f, p.slot, p.message);
      boxes[p.slot] := boxes[p.slot].Put(p.message);
      totalSent := Wrap(totalSent + 1);
      traffic := traffic[p.slot := traffic[p.slot].(sent := traffic[p.slot].sent + [p.message])];
      assert State() == f.Sent(p.slot, p.message);
      return 0;
    }

    /** The critical section of `ipc_receive`: fails exactly on an empty mailbox, and
        otherwise hands out the oldest message not yet received. */
    method EndReceive(caller: nat) returns (r: int, message: Message)
      requires Valid() && caller in pending && pending[caller].Receiving?
      modifies this`pending, this`totalReceived, this`traffic, boxes
      ensures Valid() && pending == old(pending) - {caller}
      ensures r == if old(boxes[pending[caller].slot]).count == 0 then -1 else 0
      ensures r == -1 ==> State() == old(State())
      ensures r == 0 ==>
                var t := old(traffic[pending[caller].slot]);
                && |t.received| < |t.sent| && message == t.sent[|t.received|]
                && State() == old(State()).Received(old(pending[caller].slot), message)
    {
      ghost var f := State();
      var p := pending[caller];
      message := Message(0, 0, 0, 0);
      BoxValid(f, p.slot);
      pending := pending - {caller};
      if boxes[p.slot].count == 0 {
        return -1, message;
      }
      ReceivedValid(f, p.slot);
      message := boxes[p.slot].messages[boxes[p.slot].head];
      boxes[p.slot] := boxes[p.slot].Take();
      totalReceived := Wrap(totalReceived + 1);
      traffic := traffic[p.slot := traffic[p.slot].(received := traffic[p.slot].received + [message])];
      assert State() == f.Received(p.slot, message);
      return 0, message;
    }

    /** A thread computes, yields or is created between the steps of pending calls. */
    method Interleave(step: ThreadSteps.Step)
      requires Valid() && kernel.Legal(step)
      modifies kernel, kernel.threads, kernel.mem, kernel.pmm`usedBlocks, kernel.pmm.bitmap
      ensures Valid() && State() == old(State()) && pending == old(pending)
      ensures Moves(old(kernel.State()), step, kernel.State())
    {
      kernel.Perform(step);
    }

    /** One step of some caller or thread; calls of a caller do not overlap. */
    method Perform(step: IpcStep)
      requires Valid()
      modifies this`pending, this`totalSent, this`totalReceived, this`traffic, boxes,
               kernel, kernel.threads, kernel.mem, kernel.pmm`usedBlocks, kernel.pmm.bitmap
      ensures Valid() && IpcMoves(old(View()), step, View())
    {
      match step {
        case ThreadStep(t) =>
          if kernel.Legal(t) {
            Interleave(t);
          }
        case LookUpSend(caller, receiver, message) =>
          if caller !in pending {
            var _ := BeginSend(caller, receiver, message);
          }
        case LookUpReceive(caller, receiver) =>
          if caller !in pending {
            var _ := BeginReceive(caller, receiver);
          }
        case Enter(caller) =>
          if caller in pending {
            if pending[caller].Sending? {
              var _ := EndSend(caller);
            } else {
              var _, _ := EndReceive(caller);
            }
          }
      }
    }

    lemma Promised()
      requires Valid()
      ensures |traffic| == MAX_THREADS
      ensures forall i | 0 <= i < MAX_THREADS ::
                && traffic[i].received <= traffic[i].sent
                && boxes[i].count == |traffic[i].sent| - |traffic[i].received| <= 16
                && boxes[i].tail == (boxes[i].head + boxes[i].count) % 16
      ensures (totalSent - totalReceived) % 0x1_0000_0000 == TotalQueued(boxes[..]) % 0x1_0000_0000
    {
      FlowPromises(State());
      forall i | 0 <= i < MAX_THREADS ensures boxes[i].Valid() {
        BoxValid(State(), i);
      }
    }

    /** Any interleaving of lookups, critical sections and thread steps; `trace` lists the
        states it goes through. */
    method RunAll(steps: seq<IpcStep>) returns (ghost trace: seq<IpcView>)
      requires Valid()
      modifies this`pending, this`totalSent, this`totalReceived, this`traffic, boxes,
               kernel, kernel.threads, kernel.mem, kernel.pmm`usedBlocks, kernel.pmm.bitmap
      ensures Valid()
      ensures Followed(steps, |steps|, trace) && trace[0] == old(View()) && trace[|steps|] == View()
      ensures |traffic| == MAX_THREADS
      ensures forall i | 0 <= i < MAX_THREADS ::
                && traffic[i].received <= traffic[i].sent
                && boxes[i].count == |traffic[i].sent| - |traffic[i].received| <= 16
                && boxes[i].tail == (boxes[i].head + boxes[i].count) % 16
      ensures (totalSent - totalReceived) % 0x1_0000_0000 == TotalQueued(boxes[..]) % 0x1_0000_0000
    {
      trace := [View()];
      for i := 0 to |steps|
        invariant Valid()
        invariant Followed(steps, i, trace) && trace[0] == old(View()) && trace[i] == View()
      {
        Perform(steps[i]);
        FollowedMore(steps, i, trace, View());
        trace := trace + [View()];
      }
      Promised();
    }
  }
}
