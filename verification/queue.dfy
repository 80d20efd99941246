/** The asynchronous bus's queue and throttle as an atomic-step state
    machine: `SendAsync` (admission and enqueue), the two halves of one
    `ProcessQueueAsync` iteration (signal wait plus dequeue, then throttle
    acquire), the throttle release when processing ends, and `Dispose`. */
module Queue {
  import opened Types
  import opened Options

  /** `MessageEnvelope`: the message, its static type, and whether its
      combined token was already cancelled when it was enqueued. `ticket` is
      the envelope's position in the order of enqueues. */
  datatype Envelope = Envelope(ticket: nat, message: Message, messageType: TypeId, canceled: bool)

  /** The bus's shared state.
      - `queue`: `_messageQueue`, head first
      - `signal`: the count of `_queueSignal`
      - `held`: the envelope the dispatch loop dequeued and is holding
        while it waits for a throttle slot
      - `inFlight`: envelopes holding a throttle slot
      - `limit`: `MaxConcurrentMessages`, the throttle's initial count
      - `maxQueueSize`: `MaxQueueSize`
      - `released`: tickets whose slot was given back, in order
      - `sent`, `taken`: every envelope ever enqueued and ever dequeued
      - `disposed`: `_disposed`, set together with the shutdown token */
  datatype Bus = Bus(
    queue: seq<Envelope>,
    signal: nat,
    held: Option<Envelope>,
    inFlight: seq<Envelope>,
    limit: nat,
    maxQueueSize: int,
    released: seq<nat>,
    sent: seq<Envelope>,
    taken: seq<Envelope>,
    disposed: bool)

  /** The constructor: a negative `MaxConcurrentMessages` makes
      `new SemaphoreSlim(...)` throw; otherwise the bus starts empty. */
  function Create(o: Options): (r: Result)
    ensures o.maxConcurrentMessages < 0 <==> r.Rejected?
    ensures r.Rejected? ==> r.error == NegativeLimit
    ensures r.Accepted? ==> Inv(r.bus) && r.bus.queue == [] && r.bus.inFlight == []
                            && r.bus.limit == o.maxConcurrentMessages
                            && r.bus.maxQueueSize == o.maxQueueSize
  {
    if o.maxConcurrentMessages < 0 then Rejected(NegativeLimit)
    else Accepted(Bus([], 0, None, [], o.maxConcurrentMessages, o.maxQueueSize, [], [], [], false))
  }

  /** How a step ends: it happened, the caller is suspended (the step is
      not enabled in this state), or it threw. */
  datatype Result = Accepted(bus: Bus) | Waiting | Rejected(error: Error)

  /** `SendAsync<T>(message, token)`. `canceled` is whether the combined
      token is cancelled when the capacity is checked. A full queue suspends
      an uncancelled sender: it polls until a dequeue makes room, and a
      cancellation that interrupts the poll's delay throws out of the send
      without touching the bus. A token that is already cancelled at a
      check skips or ends the wait, so that envelope is enqueued even into a
      full queue. */
  function Send(b: Bus, m: Message, t: TypeId, canceled: bool): (r: Result)
    ensures b.disposed ==> r == Rejected(Disposed)
    ensures !b.disposed && m.Null? ==> r == Rejected(NullMessage)
    ensures r.Rejected? ==> b.disposed || m.Null?
    ensures r.Waiting? <==> !b.disposed && !m.Null? && !canceled && |b.queue| >= b.maxQueueSize
    ensures r.Accepted? ==>
              && r.bus.queue == b.queue + [Envelope(|b.sent|, m, t, canceled)]
              && r.bus.signal == b.signal + 1
              && r.bus == b.(queue := r.bus.queue, signal := r.bus.signal, sent := b.sent + [r.bus.queue[|b.queue|]])
    ensures r.Accepted? && !canceled ==> |b.queue| < b.maxQueueSize
  {
    if b.disposed then Rejected(Disposed)
    else if m.Null? then Rejected(NullMessage)
    else
      var e := Envelope(|b.sent|, m, t, canceled);
      if |b.queue| >= b.maxQueueSize && !canceled then Waiting
      else Accepted(b.(queue := b.queue + [e], signal := b.signal + 1, sent := b.sent + [e]))
  }

  /** First half of a dispatch iteration: `_queueSignal.WaitAsync` then
      `TryDequeue`. Not enabled after shutdown, while the loop still holds an
      envelope, or while the signal is zero. An empty queue after the wait is
      the source's `continue`. */
  function Take(b: Bus): (r: Result)
    ensures r.Accepted? <==> !b.disposed && b.held.None? && b.signal > 0
    ensures r.Accepted? ==> r.bus.signal == b.signal - 1
    ensures r.Accepted? && |b.queue| > 0 ==>
              && r.bus.held == Some(b.queue[0])
              && r.bus.queue == b.queue[1..]
              && r.bus.taken == b.taken + [b.queue[0]]
    ensures r.Accepted? && |b.queue| == 0 ==> r.bus == b.(signal := b.signal - 1)
    ensures r.Accepted? ==> r.bus == b.(signal := r.bus.signal, queue := r.bus.queue, held := r.bus.held, taken := r.bus.taken)
  {
    if b.disposed || b.held.Some? || b.signal == 0 then Waiting
    else if |b.queue| == 0 then Accepted(b.(signal := b.signal - 1))
    else Accepted(b.(signal := b.signal - 1, queue := b.queue[1..], held := Some(b.queue[0]),
                     taken := b.taken + [b.queue[0]]))
  }

  /** Second half: `_throttler.WaitAsync` succeeds while a slot is free and
      the held envelope starts processing. */
  function Admit(b: Bus): (r: Result)
    ensures r.Accepted? <==> !b.disposed && b.held.Some? && |b.inFlight| < b.limit
    ensures r.Accepted? ==> r.bus.held.None? && r.bus.inFlight == b.inFlight + [b.held.value]
    ensures r.Accepted? ==> r.bus == b.(held := None, inFlight := r.bus.inFlight)
  {
    if b.disposed || b.held.None? || |b.inFlight| >= b.limit then Waiting
    else Accepted(b.(held := None, inFlight := b.inFlight + [b.held.value]))
  }

  /** Position of the in-flight envelope with this ticket, if any. */
  function FindTicket(s: seq<Envelope>, ticket: nat): (i: nat)
    ensures i <= |s|
    ensures i < |s| ==> s[i].ticket == ticket
    ensures forall j :: 0 <= j < i ==> s[j].ticket != ticket
  {
    if |s| == 0 then 0
    else if s[0].ticket == ticket then 0
    else 1 + FindTicket(s[1..], ticket)
  }

  /** The `ContinueWith(_ => _throttler.Release())` of the envelope with
      this ticket: its slot is given back whatever the processing's outcome.
      Only an envelope that holds a slot can release it. */
  function Complete(b: Bus, ticket: nat): (r: Result)
    ensures r.Accepted? <==> exists j :: 0 <= j < |b.inFlight| && b.inFlight[j].ticket == ticket
    ensures r.Accepted? ==> |r.bus.inFlight| == |b.inFlight| - 1
    ensures r.Accepted? ==> r.bus.released == b.released + [ticket]
    ensures r.Accepted? ==> forall e :: e in r.bus.inFlight ==> e in b.inFlight
    ensures r.Accepted? ==>
              exists i :: 0 <= i < |b.inFlight| && b.inFlight[i].ticket == ticket
                          && r.bus == b.(inFlight := b.inFlight[..i] + b.inFlight[i + 1..], released := r.bus.released)
  {
    var i := FindTicket(b.inFlight, ticket);
    if i == |b.inFlight| then Waiting
    else Accepted(b.(inFlight := b.inFlight[..i] + b.inFlight[i + 1..], released := b.released + [ticket]))
  }

  /** `Dispose`: the second call returns at once; the first sets the flag
      and cancels the shutdown token, which ends the dispatch loop and drops
      the envelope it was holding. Queued envelopes are not drained. */
  function Dispose(b: Bus): (r: Bus)
    ensures r.disposed
    ensures b.disposed ==> r == b
    ensures r == b.(disposed := true, held := r.held)
    ensures !b.disposed ==> r.held.None?
  {
    if b.disposed then b else b.(disposed := true, held := None)
  }

  predicate Distinct(xs: seq<nat>)
  {
    forall i, j :: 0 <= i < j < |xs| ==> xs[i] != xs[j]
  }

  predicate DistinctTickets(es: seq<Envelope>)
  {
    forall i, j :: 0 <= i < j < |es| ==> es[i].ticket != es[j].ticket
  }

  /** What holds between steps.
      - FIFO: what was dequeued followed by what is queued is exactly what
        was enqueued, and tickets number the enqueues
      - the signal count equals the queue length
      - no more envelopes in flight than the throttle allows
      - backpressure: an uncancelled envelope never sits at or beyond
        position `maxQueueSize`
      - slot accounting: the held envelope is the last one dequeued; in-flight
        and released tickets were dequeued before it and never repeat, and no
        ticket is both in flight and released */
  ghost predicate Inv(b: Bus)
  {
    && b.taken + b.queue == b.sent
    && (forall i :: 0 <= i < |b.sent| ==> b.sent[i].ticket == i)
    && b.signal == |b.queue|
    && |b.inFlight| <= b.limit
    && (forall i :: 0 <= i < |b.queue| && !b.queue[i].canceled ==> i < b.maxQueueSize)
    && (b.held.Some? ==> |b.taken| > 0 && b.held.value == b.taken[|b.taken| - 1])
    && (forall e :: e in b.inFlight ==> e.ticket < Settled(b))
    && (forall x :: x in b.released ==> x < Settled(b))
    && DistinctTickets(b.inFlight)
    && Distinct(b.released)
    && (forall e :: e in b.inFlight ==> e.ticket !in b.released)
  }

  /** Tickets below this have passed the held slot. */
  function Settled(b: Bus): nat
  {
    if b.held.Some? && |b.taken| > 0 then |b.taken| - 1 else |b.taken|
  }

  lemma SendKeepsInv(b: Bus, m: Message, t: TypeId, canceled: bool)
    requires Inv(b)
    requires Send(b, m, t, canceled).Accepted?
    ensures Inv(Send(b, m, t, canceled).bus)
  {
    var b' := Send(b, m, t, canceled).bus;
    var e := Envelope(|b.sent|, m, t, canceled);
    assert b'.queue == b.queue + [e];
    assert b'.taken + b'.queue == (b.taken + b.queue) + [e];
    forall i | 0 <= i < |b'.queue| && !b'.queue[i].canceled ensures i < b'.maxQueueSize {
      if i < |b.queue| {
        assert b'.queue[i] == b.queue[i];
      }
    }
  }

  lemma TakeKeepsInv(b: Bus)
    requires Inv(b)
    requires Take(b).Accepted?
    ensures Inv(Take(b).bus)
  {
    var b' := Take(b).bus;
    if |b.queue| > 0 {
      assert b'.taken + b'.queue == b.taken + [b.queue[0]] + b.queue[1..];
      assert [b.queue[0]] + b.queue[1..] == b.queue;
      assert b'.taken + b'.queue == b.taken + b.queue;
      forall i | 0 <= i < |b'.queue| && !b'.queue[i].canceled ensures i < b'.maxQueueSize {
        assert b'.queue[i] == b.queue[i + 1];
      }
    }
  }

  lemma AdmitKeepsInv(b: Bus)
    requires Inv(b)
    requires Admit(b).Accepted?
    ensures Inv(Admit(b).bus)
  {
    var b' := Admit(b).bus;
    var h := b.held.value;
    assert h == b.sent[|b.taken| - 1] by {
      assert b.sent == b.taken + b.queue;
      assert b.sent[|b.taken| - 1] == b.taken[|b.taken| - 1];
    }
    assert h.ticket == |b.taken| - 1;
    forall e | e in b'.inFlight ensures e.ticket < Settled(b') && e.ticket !in b'.released {
      if e != h {
        assert e in b.inFlight;
      }
    }
  }

  lemma RemoveKeepsDistinct(s: seq<Envelope>, i: nat)
    requires i < |s| && DistinctTickets(s)
    ensures DistinctTickets(s[..i] + s[i + 1..])
    ensures forall e :: e in s[..i] + s[i + 1..] ==> e in s && e.ticket != s[i].ticket
  {
    var s' := s[..i] + s[i + 1..];
    assert forall k :: 0 <= k < |s'| ==> s'[k] == s[if k < i then k else k + 1];
    forall e | e in s' ensures e in s && e.ticket != s[i].ticket {
      var k :| 0 <= k < |s'| && s'[k] == e;
    }
  }

  lemma CompleteKeepsInv(b: Bus, ticket: nat)
    requires Inv(b)
    requires Complete(b, ticket).Accepted?
    ensures Inv(Complete(b, ticket).bus)
  {
    var b' := Complete(b, ticket).bus;
    var i := FindTicket(b.inFlight, ticket);
    assert b'.inFlight == b.inFlight[..i] + b.inFlight[i + 1..];
    assert b.inFlight[i] in b.inFlight;
    RemoveKeepsDistinct(b.inFlight, i);
    assert ticket !in b.released;
    forall p, q | 0 <= p < q < |b'.released| ensures b'.released[p] != b'.released[q] {
      if q == |b.released| {
        assert b'.released[p] == b.released[p];
      } else {
        assert b'.released[p] == b.released[p] && b'.released[q] == b.released[q];
      }
    }
  }

  lemma DisposeKeepsInv(b: Bus)
    requires Inv(b)
    ensures Inv(Dispose(b))
  {
  }

  /** Slot accounting: once an envelope released its slot, a second release
      for it is refused, so every admitted envelope releases exactly once. */
  lemma ReleasesOnce(b: Bus, ticket: nat)
    requires Inv(b)
    requires Complete(b, ticket).Accepted?
    ensures Complete(Complete(b, ticket).bus, ticket).Waiting?
  {
    var b' := Complete(b, ticket).bus;
    CompleteKeepsInv(b, ticket);
    assert ticket in b'.released;
  }

  /** The steps a run of the bus is made of. */
  datatype Step =
    | SendStep(m: Message, t: TypeId, canceled: bool)
    | TakeStep
    | AdmitStep
    | CompleteStep(ticket: nat)
    | DisposeStep

  /** One step; a step that suspends or throws leaves the state unchanged. */
  function Next(b: Bus, s: Step): Bus
  {
    match s
    case SendStep(m, t, canceled) =>
      var r := Send(b, m, t, canceled); if r.Accepted? then r.bus else b
    case TakeStep => var r := Take(b); if r.Accepted? then r.bus else b
    case AdmitStep => var r := Admit(b); if r.Accepted? then r.bus else b
    case CompleteStep(ticket) => var r := Complete(b, ticket); if r.Accepted? then r.bus else b
    case DisposeStep => Dispose(b)
  }

  function Steps(b: Bus, ss: seq<Step>): Bus
    decreases |ss|
  {
    if |ss| == 0 then b else Steps(Next(b, ss[0]), ss[1..])
  }

  /** Every step preserves the invariant. */
  lemma NextKeepsInv(b: Bus, s: Step)
    requires Inv(b)
    ensures Inv(Next(b, s))
  {
    match s
    case SendStep(m, t, canceled) =>
      if Send(b, m, t, canceled).Accepted? { SendKeepsInv(b, m, t, canceled); }
    case TakeStep => if Take(b).Accepted? { TakeKeepsInv(b); }
    case AdmitStep => if Admit(b).Accepted? { AdmitKeepsInv(b); }
    case CompleteStep(ticket) => if Complete(b, ticket).Accepted? { CompleteKeepsInv(b, ticket); }
    case DisposeStep => DisposeKeepsInv(b);
  }

  /** Every state reachable from a fresh bus satisfies the invariant: the
      queue is FIFO, the signal equals the queue length, in-flight work
      never exceeds `MaxConcurrentMessages`, and an uncancelled send never
      pushes the queue past `MaxQueueSize`. */
  lemma {:induction false} ReachableInv(o: Options, ss: seq<Step>)
    requires Create(o).Accepted?
    ensures var b := Steps(Create(o).bus, ss);
            && b.taken + b.queue == b.sent
            && b.signal == |b.queue|
            && |b.inFlight| <= o.maxConcurrentMessages
            && (forall i :: 0 <= i < |b.queue| && !b.queue[i].canceled ==> i < o.maxQueueSize)
  {
    StepsKeepInv(Create(o).bus, ss);
    StepsKeepConfig(Create(o).bus, ss);
  }

  lemma {:induction false} StepsKeepInv(b: Bus, ss: seq<Step>)
    requires Inv(b)
    ensures Inv(Steps(b, ss))
    decreases |ss|
  {
    if |ss| > 0 {
      NextKeepsInv(b, ss[0]);
      StepsKeepInv(Next(b, ss[0]), ss[1..]);
    }
  }

  lemma {:induction false} StepsKeepConfig(b: Bus, ss: seq<Step>)
    ensures Steps(b, ss).limit == b.limit && Steps(b, ss).maxQueueSize == b.maxQueueSize
    decreases |ss|
  {
    if |ss| > 0 {
      StepsKeepConfig(Next(b, ss[0]), ss[1..]);
    }
  }

  /** When no send was cancelled, the queue never holds more than
      `MaxQueueSize` envelopes. */
  lemma UncancelledQueueBounded(b: Bus)
    requires Inv(b)
    requires forall i :: 0 <= i < |b.queue| ==> !b.queue[i].canceled
    ensures |b.queue| <= b.maxQueueSize || |b.queue| == 0
  {
    if |b.queue| > 0 {
      assert !b.queue[|b.queue| - 1].canceled;
    }
  }

  /** A send whose token is already cancelled when the queue is full is
      still enqueued, past `MaxQueueSize`. */
  lemma CanceledSendBypassesCapacity(b: Bus, m: Message, t: TypeId)
    requires !b.disposed && !m.Null? && |b.queue| >= b.maxQueueSize
    ensures Send(b, m, t, true).Accepted?
    ensures |Send(b, m, t, true).bus.queue| > b.maxQueueSize
  {
  }
}
