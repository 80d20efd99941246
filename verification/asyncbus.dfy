/** How the asynchronous bus processes one dequeued envelope: the retry
    loop of `ProcessMessageAsync` around repeated attempts of
    `ProcessTypedMessageAsync`, each a concurrent-consumer dispatch of the
    envelope's message under its static type. */
module AsyncBus {
  import opened Types
  import opened Options
  import opened Consumers
  import opened Middlewares
  import opened Pipeline
  import opened Retry
  import opened Queue

  /** Every eligible middleware registered for `t` calls `next`. */
  predicate CallThrough(reg: Registry, t: TypeId)
  {
    forall x :: x in reg.MiddlewaresOf(t) && Eligible(x, t) ==> CallsNext(x)
  }

  /** Every consumer registered for `t` completes. */
  predicate Healthy(reg: Registry, t: TypeId)
  {
    && reg.ConsumersOf(t) != []
    && forall j :: 0 <= j < |reg.ConsumersOf(t)| ==> reg.ConsumersOf(t)[j].ending.Completes?
  }

  /** One attempt for the envelope: `ProcessTypedMessageAsync` resolving its
      handlers and middlewares from `scope`. Behind call-through
      middlewares it completes iff there is a consumer and every consumer
      completes. */
  function Attempt(scope: Registry, e: Envelope): (o: Outcome)
    ensures CallThrough(scope, e.messageType) ==> (o.Ok? <==> Healthy(scope, e.messageType))
  {
    var t := e.messageType;
    var ms := Selected(scope.MiddlewaresOf(t), t);
    var cs := scope.ConsumersOf(t);
    assert CallThrough(scope, t) ==>
             Dispatch(scope, t, e.message, Concurrent).outcome == InvokeAll(t, cs, e.message).outcome by {
      if CallThrough(scope, t) {
        assert forall i :: 0 <= i < |ms| ==> ms[i] in ms;
        NestingLaw(ms, t, e.message, cs, Concurrent);
      }
    }
    Dispatch(scope, t, e.message, Concurrent).outcome
  }

  /** `ProcessMessageAsync(envelope)`. Each attempt creates a new DI scope;
      `scopes(i)` is what attempt `i` resolves. The registrations are the
      same in every scope, but the resolved consumers may end differently
      from one attempt to the next, which is what makes a retry worth
      trying. An envelope whose token was already cancelled at enqueue time
      sees it cancelled from the first read; otherwise `laterCancel` says
      when (if ever) it becomes cancelled. */
  function ProcessEnvelope(o: Options, scopes: nat -> Registry, e: Envelope, laterCancel: Option<nat>): (r: Report)
    ensures e.canceled ==> r.attempts == 0
    ensures r.attempts <= Budget(o, 0)
  {
    ProcessMessage(o, (i: nat) => Attempt(scopes(i), e), if e.canceled then Some(0) else laterCancel)
  }

  /** The envelope is delivered iff its last attempt completed. */
  lemma LastAttemptDecides(o: Options, scopes: nat -> Registry, e: Envelope, laterCancel: Option<nat>)
    ensures var r := ProcessEnvelope(o, scopes, e, laterCancel);
            r.attempts > 0 ==> (r.status.Delivered? <==> Attempt(scopes(r.attempts - 1), e).Ok?)
  {
  }

  /** Every attempt before the last one failed: the loop retries only
      after a fault. */
  lemma EarlierAttemptsFailed(o: Options, scopes: nat -> Registry, e: Envelope, laterCancel: Option<nat>)
    ensures var r := ProcessEnvelope(o, scopes, e, laterCancel);
            forall j :: 0 <= j < r.attempts - 1 ==> Attempt(scopes(j), e).Err?
  {
    var attempt := (i: nat) => Attempt(scopes(i), e);
    var r := ProcessMessage(o, attempt, if e.canceled then Some(0) else laterCancel);
    forall j | 0 <= j < r.attempts - 1 ensures Attempt(scopes(j), e).Err? {
      assert attempt(j).Err?;
    }
  }

  /** A cancelled envelope never reaches a consumer: no attempt runs, so no
      consumer is started. */
  lemma CanceledEnvelopeNeverConsumed(o: Options, scopes: nat -> Registry, e: Envelope, laterCancel: Option<nat>)
    requires e.canceled
    ensures ProcessEnvelope(o, scopes, e, laterCancel).attempts == 0
    ensures o.maxRetries >= 0 ==> ProcessEnvelope(o, scopes, e, laterCancel).status == CanceledAtHead
  {
  }

  /** The missing-consumer InvalidOperationException is retried like any
      other fault: with swallowing on it costs `MaxRetries + 1` attempts and
      is then abandoned without propagating. */
  lemma NoConsumerIsRetried(o: Options, scopes: nat -> Registry, e: Envelope)
    requires forall i: nat :: scopes(i).ConsumersOf(e.messageType) == []
    requires forall i: nat :: CallThrough(scopes(i), e.messageType)
    requires o.swallowExceptions && o.maxRetries >= 0 && !e.canceled
    ensures forall i: nat :: Attempt(scopes(i), e) == Err(NoConsumer(e.messageType))
    ensures ProcessEnvelope(o, scopes, e, None).attempts == o.maxRetries + 1
    ensures ProcessEnvelope(o, scopes, e, None).status == Exhausted
  {
    forall i: nat ensures Attempt(scopes(i), e) == Err(NoConsumer(e.messageType)) {
      NoConsumerFails(scopes(i), e.messageType, e.message, Concurrent);
    }
    AlwaysFailing(o, (i: nat) => Attempt(scopes(i), e));
  }

  /** A transient fault is recovered from: when the attempts before attempt
      `i` fail and attempt `i` completes, within the retry budget, the
      envelope is delivered after `i` retries, each logged and delayed. */
  lemma TransientFaultRecovers(o: Options, scopes: nat -> Registry, e: Envelope, i: nat)
    requires o.swallowExceptions && i <= o.maxRetries && !e.canceled
    requires forall j: nat :: j < i ==> Attempt(scopes(j), e).Err?
    requires CallThrough(scopes(i), e.messageType) && Healthy(scopes(i), e.messageType)
    ensures ProcessEnvelope(o, scopes, e, None) == Report(i + 1, i, RetryLogs(1, i, o.maxRetries), Delivered)
  {
    SucceedsOn(o, (j: nat) => Attempt(scopes(j), e), i);
  }

  /** With default options an envelope whose attempts always fault is tried
      four times, with three retry lines and delays of one second, then
      abandoned. */
  lemma DefaultsGiveFourAttempts(processorCount: nat, attempt: nat -> Outcome)
    requires forall j: nat :: attempt(j).Err?
    ensures var r := ProcessMessage(Default(processorCount), attempt, None);
            && r.attempts == 4 && r.delays == 3 && r.status == Exhausted
            && r.log == [RetryLogged(1, 3), RetryLogged(2, 3), RetryLogged(3, 3), AbandonLogged(3)]
  {
    AlwaysFailing(Default(processorCount), attempt);
  }

  /** An uncancelled envelope whose first scope's consumers all complete,
      behind call-through middlewares, is delivered on the first attempt
      with every consumer started on its message. */
  lemma HealthyEnvelopeDeliveredOnce(o: Options, scopes: nat -> Registry, e: Envelope, laterCancel: Option<nat>)
    requires !e.canceled && o.maxRetries >= 0 && !CanceledAt(laterCancel, 0)
    requires CallThrough(scopes(0), e.messageType) && Healthy(scopes(0), e.messageType)
    ensures ProcessEnvelope(o, scopes, e, laterCancel) == Report(1, 0, [], Delivered)
    ensures var reg := scopes(0);
            var ms := Selected(reg.MiddlewaresOf(e.messageType), e.messageType);
            Dispatch(reg, e.messageType, e.message, Concurrent).trace
            == Befores(ms) + Deliveries(reg.ConsumersOf(e.messageType), e.message) + Afters(ms)
  {
    var cs := scopes(0).ConsumersOf(e.messageType);
    ConcurrentDelivery(scopes(0), e.messageType, e.message);
    assert FirstThrowingAtCall(cs) == |cs| && cs[..Started(cs)] == cs;
  }
}
