/** Handler dispatch: the `InvokeConsumer` step that ends every pipeline.
    The synchronous buses await their consumers one after another; the
    asynchronous bus starts all of them and awaits `Task.WhenAll`. */
module Consumers {
  import opened Types

  /** How a consumer's `ConsumeAsync(message, token)` call ends.
      - `Completes`: the returned task runs to completion
      - `Faults`: the returned task faults (an `async` method that throws)
      - `ThrowsAtCall`: the call throws before any task exists (a method
        that is not `async` and returns its task itself, as HelloConsumer does)
      - `Cancels`: the returned task ends canceled (an `async` method whose
        awaited `Task.Delay(..., cancellationToken)` sees the token cancelled) */
  datatype Ending = Completes | Faults | ThrowsAtCall | Cancels

  /** A registered consumer, reduced to its name and how its call ends. */
  datatype Consumer = Consumer(name: string, ending: Ending)

  /** What `await consumer.ConsumeAsync(...)` yields: completion, the
      consumer's own exception, or the OperationCanceledException of a
      canceled task. */
  function Awaited(c: Consumer): (o: Outcome)
    ensures o.Ok? <==> c.ending.Completes?
    ensures o == Err(Canceled) <==> c.ending.Cancels?
  {
    match c.ending
    case Completes => Ok
    case Faults => Err(ConsumerFault(c.name))
    case ThrowsAtCall => Err(ConsumerFault(c.name))
    case Cancels => Err(Canceled)
  }

  /** Index of the first consumer that does not complete, or `|cs|`. */
  function FirstFailing(cs: seq<Consumer>): (i: nat)
    ensures i <= |cs|
    ensures forall j :: 0 <= j < i ==> cs[j].ending.Completes?
    ensures i < |cs| ==> !cs[i].ending.Completes?
  {
    if |cs| == 0 then 0
    else if !cs[0].ending.Completes? then 0
    else 1 + FirstFailing(cs[1..])
  }

  /** The outcome of awaiting consumers one at a time: that of the first
      one that does not complete. */
  function Verdict(cs: seq<Consumer>): Outcome
  {
    var i := FirstFailing(cs);
    if i < |cs| then Awaited(cs[i]) else Ok
  }

  /** One `Consumed` event per consumer, in registration order. */
  function Deliveries(cs: seq<Consumer>, m: Message): (es: seq<Event>)
    ensures |es| == |cs|
    ensures forall i :: 0 <= i < |cs| ==> es[i] == Consumed(cs[i].name, m)
  {
    if |cs| == 0 then [] else [Consumed(cs[0].name, m)] + Deliveries(cs[1..], m)
  }

  /** How many consumers the sequential loop reaches: all of them, or up to
      and including the first that does not complete. */
  function Reached(cs: seq<Consumer>): (n: nat)
    ensures n <= |cs|
  {
    var i := FirstFailing(cs);
    if i < |cs| then i + 1 else |cs|
  }

  /** The `foreach (var consumer in consumers) await consumer.ConsumeAsync(...)`
      loop: each consumer gets the message in turn, and the first consumer
      that does not complete ends the loop with its exception. */
  function InOrder(cs: seq<Consumer>, m: Message): (r: Run)
    ensures r.trace == Deliveries(cs[..Reached(cs)], m)
    ensures r.outcome == Verdict(cs)
  {
    if |cs| == 0 then Run([], Ok)
    else if !cs[0].ending.Completes? then Run([Consumed(cs[0].name, m)], Awaited(cs[0]))
    else
      var rest := InOrder(cs[1..], m);
      assert cs[..Reached(cs)][1..] == cs[1..][..Reached(cs[1..])];
      Run([Consumed(cs[0].name, m)] + rest.trace, rest.outcome)
  }

  /** A task that ended with an exception other than a cancellation. */
  predicate Faulted(o: Outcome)
  {
    o.Err? && o.error != Canceled
  }

  /** Index of the first faulted task, or `|tasks|`. */
  function FirstFaulted(tasks: seq<Outcome>): (i: nat)
    ensures i <= |tasks|
    ensures forall j :: 0 <= j < i ==> !Faulted(tasks[j])
    ensures i < |tasks| ==> Faulted(tasks[i])
  {
    if |tasks| == 0 then 0
    else if Faulted(tasks[0]) then 0
    else 1 + FirstFaulted(tasks[1..])
  }

  /** `await Task.WhenAll(tasks)`: completes when every task completed;
      otherwise rethrows the exception of the first faulted task in argument
      order, and reports a cancellation only when no task faulted. */
  function WhenAll(tasks: seq<Outcome>): (o: Outcome)
    ensures o.Ok? <==> forall j :: 0 <= j < |tasks| ==> tasks[j].Ok?
    ensures FirstFaulted(tasks) < |tasks| ==> o == tasks[FirstFaulted(tasks)]
    ensures FirstFaulted(tasks) == |tasks| && o.Err? ==> o == Err(Canceled)
  {
    if |tasks| == 0 then Ok
    else if Faulted(tasks[0]) then tasks[0]
    else
      var rest := WhenAll(tasks[1..]);
      if tasks[0].Ok? || Faulted(rest) then rest else Err(Canceled)
  }

  /** Index of the first consumer whose call throws before returning a
      task, or `|cs|`. */
  function FirstThrowingAtCall(cs: seq<Consumer>): (i: nat)
    ensures i <= |cs|
    ensures forall j :: 0 <= j < i ==> !cs[j].ending.ThrowsAtCall?
    ensures i < |cs| ==> cs[i].ending.ThrowsAtCall?
  {
    if |cs| == 0 then 0
    else if cs[0].ending.ThrowsAtCall? then 0
    else 1 + FirstThrowingAtCall(cs[1..])
  }

  /** Index of the first consumer whose task faults, or `|cs|`. */
  function FirstFaulting(cs: seq<Consumer>): (i: nat)
    ensures i <= |cs|
    ensures forall j :: 0 <= j < i ==> !cs[j].ending.Faults?
    ensures i < |cs| ==> cs[i].ending.Faults?
  {
    if |cs| == 0 then 0
    else if cs[0].ending.Faults? then 0
    else 1 + FirstFaulting(cs[1..])
  }

  /** How many consumers `consumers.Select(...)` calls while `Task.WhenAll`
      collects the tasks: all of them, or up to and including the first call
      that throws, which ends the enumeration. */
  function Started(cs: seq<Consumer>): (n: nat)
    ensures n <= |cs|
  {
    var i := FirstThrowingAtCall(cs);
    if i < |cs| then i + 1 else |cs|
  }

  /** The tasks the consumers' calls return, in registration order. */
  function Tasks(cs: seq<Consumer>): (ts: seq<Outcome>)
    ensures |ts| == |cs|
    ensures forall i :: 0 <= i < |cs| ==> ts[i] == Awaited(cs[i])
  {
    if |cs| == 0 then [] else [Awaited(cs[0])] + Tasks(cs[1..])
  }

  /** Without a call that throws, the first faulted task is the first
      faulting consumer's. */
  lemma FaultedTaskIsFaultingConsumer(cs: seq<Consumer>)
    requires FirstThrowingAtCall(cs) == |cs|
    ensures FirstFaulted(Tasks(cs)) == FirstFaulting(cs)
  {
  }

  /** `InvokeConsumer` of the synchronous buses: no consumer is an
      InvalidOperationException; otherwise consumers run one at a time. */
  function InvokeSequential(t: TypeId, cs: seq<Consumer>, m: Message): (r: Run)
    ensures |cs| == 0 ==> r == Run([], Err(NoConsumer(t)))
    ensures |cs| > 0 ==> r.trace == Deliveries(cs[..Reached(cs)], m)
    ensures |cs| > 0 ==> r.outcome == Verdict(cs)
  {
    if |cs| == 0 then Run([], Err(NoConsumer(t))) else InOrder(cs, m)
  }

  /** `InvokeConsumer` of the asynchronous bus: no consumer is an
      InvalidOperationException. Otherwise `Task.WhenAll` enumerates
      `consumers.Select(...)`, calling each consumer in turn; a call that
      throws ends the enumeration and its exception is the attempt's.
      When every call returned a task, the attempt ends as `WhenAll` of
      those tasks: the first faulting consumer's fault, else a cancellation
      if some task was canceled, else completion. */
  function InvokeAll(t: TypeId, cs: seq<Consumer>, m: Message): (r: Run)
    ensures |cs| == 0 ==> r == Run([], Err(NoConsumer(t)))
    ensures |cs| > 0 ==> r.trace == Deliveries(cs[..Started(cs)], m)
    ensures |cs| > 0 ==> (r.outcome.Ok? <==> forall j :: 0 <= j < |cs| ==> cs[j].ending.Completes?)
    ensures |cs| > 0 && FirstThrowingAtCall(cs) < |cs| ==>
              r.outcome == Err(ConsumerFault(cs[FirstThrowingAtCall(cs)].name))
    ensures |cs| > 0 && FirstThrowingAtCall(cs) == |cs| && FirstFaulting(cs) < |cs| ==>
              r.outcome == Err(ConsumerFault(cs[FirstFaulting(cs)].name))
    ensures |cs| > 0 && FirstThrowingAtCall(cs) == |cs| && FirstFaulting(cs) == |cs| && r.outcome.Err? ==>
              r.outcome == Err(Canceled)
  {
    if |cs| == 0 then Run([], Err(NoConsumer(t)))
    else
      var k := FirstThrowingAtCall(cs);
      if k < |cs| then Run(Deliveries(cs[..k + 1], m), Err(ConsumerFault(cs[k].name)))
      else
        FaultedTaskIsFaultingConsumer(cs);
        assert cs[..Started(cs)] == cs;
        Run(Deliveries(cs, m), WhenAll(Tasks(cs)))
  }

  /** Both dispatch styles succeed together, and the sequential trace is a
      prefix of the concurrent one. When every consumer is an `async`
      method whose failures fault its task, both end with the same
      exception; when every consumer completes, the two runs coincide. */
  lemma SequentialMatchesConcurrent(t: TypeId, cs: seq<Consumer>, m: Message)
    ensures InvokeSequential(t, cs, m).outcome.Ok? <==> InvokeAll(t, cs, m).outcome.Ok?
    ensures InvokeSequential(t, cs, m).trace <= InvokeAll(t, cs, m).trace
    ensures (forall j :: 0 <= j < |cs| ==> cs[j].ending.Completes? || cs[j].ending.Faults?) ==>
              InvokeSequential(t, cs, m).outcome == InvokeAll(t, cs, m).outcome
    ensures (forall j :: 0 <= j < |cs| ==> cs[j].ending.Completes?) ==>
              InvokeSequential(t, cs, m) == InvokeAll(t, cs, m)
  {
    if |cs| > 0 {
      SequentialTraceIsPrefix(t, cs, m);
      if forall j :: 0 <= j < |cs| ==> cs[j].ending.Completes? || cs[j].ending.Faults? {
        FaultsAgree(t, cs, m);
      }
      if forall j :: 0 <= j < |cs| ==> cs[j].ending.Completes? {
        assert cs[..Reached(cs)] == cs;
        assert FirstThrowingAtCall(cs) == |cs|;
      }
    }
  }

  /** The consumers the sequential loop reaches are a prefix of those the
      concurrent enumeration starts. */
  lemma SequentialTraceIsPrefix(t: TypeId, cs: seq<Consumer>, m: Message)
    ensures InvokeSequential(t, cs, m).trace <= InvokeAll(t, cs, m).trace
  {
    if |cs| > 0 {
      ReachedWithinStarted(cs);
      assert Deliveries(cs[..Started(cs)], m)[..Reached(cs)] == Deliveries(cs[..Reached(cs)], m);
    }
  }

  /** When no call throws and no task is canceled, the first failing
      consumer is the first faulting one, so both styles end with its
      fault. */
  lemma FaultsAgree(t: TypeId, cs: seq<Consumer>, m: Message)
    requires forall j :: 0 <= j < |cs| ==> cs[j].ending.Completes? || cs[j].ending.Faults?
    ensures InvokeSequential(t, cs, m).outcome == InvokeAll(t, cs, m).outcome
  {
    if |cs| > 0 {
      assert FirstThrowingAtCall(cs) == |cs|;
      if FirstFailing(cs) < |cs| {
        assert FirstFaulting(cs) == FirstFailing(cs);
      }
    }
  }

  /** The sequential loop never reaches past the consumer whose call ends
      the concurrent enumeration. */
  lemma ReachedWithinStarted(cs: seq<Consumer>)
    ensures Reached(cs) <= Started(cs)
  {
    var k := FirstThrowingAtCall(cs);
    if k < |cs| {
      assert !cs[k].ending.Completes?;
    }
  }

  /** The styles can end differently. A canceled task loses to a faulted
      one wherever it sits, and a call that throws hides earlier faulted
      tasks and keeps later consumers from starting. */
  lemma StylesCanDiffer(t: TypeId, m: Message)
    ensures var cs := [Consumer("A", Cancels), Consumer("B", Faults)];
            && InvokeSequential(t, cs, m).outcome == Err(Canceled)
            && InvokeAll(t, cs, m).outcome == Err(ConsumerFault("B"))
    ensures var cs := [Consumer("A", Faults), Consumer("B", ThrowsAtCall), Consumer("C", Completes)];
            && InvokeSequential(t, cs, m) == Run([Consumed("A", m)], Err(ConsumerFault("A")))
            && InvokeAll(t, cs, m) == Run([Consumed("A", m), Consumed("B", m)], Err(ConsumerFault("B")))
  {
    var cs1 := [Consumer("A", Cancels), Consumer("B", Faults)];
    assert FirstFailing(cs1) == 0;
    assert FirstThrowingAtCall(cs1) == 2;
    assert FirstFaulting(cs1) == 1;
    var cs2 := [Consumer("A", Faults), Consumer("B", ThrowsAtCall), Consumer("C", Completes)];
    assert FirstFailing(cs2) == 0;
    assert FirstThrowingAtCall(cs2) == 1;
    assert cs2[..1] == [Consumer("A", Faults)];
    assert cs2[..2] == [Consumer("A", Faults), Consumer("B", ThrowsAtCall)];
  }
}
