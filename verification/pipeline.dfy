/** The middleware pipeline every bus builds per send: eligible middlewares
    folded in reverse around `InvokeConsumer`, so that the first one in
    sorted order is the outermost. The two synchronous buses and the
    asynchronous bus's `ProcessTypedMessageAsync` share this logic and
    differ only in how the innermost step awaits its consumers. */
module Pipeline {
  import opened Types
  import opened Consumers
  import opened Middlewares

  /** What the DI container returns for a static message type:
      `GetServices<IConsumer<T>>()` and `GetServices<IMessageMiddleware<T>>()`,
      each in registration order. A type nobody registered maps to nothing. */
  datatype Registry = Registry(consumers: map<TypeId, seq<Consumer>>, middlewares: map<TypeId, seq<Middleware>>)
  {
    function ConsumersOf(t: TypeId): seq<Consumer>
    {
      if t in consumers then consumers[t] else []
    }

    function MiddlewaresOf(t: TypeId): seq<Middleware>
    {
      if t in middlewares then middlewares[t] else []
    }
  }

  /** `Sequential` is the synchronous buses' `foreach`/`await` loop;
      `Concurrent` is the asynchronous bus's `Task.WhenAll`. */
  datatype Mode = Sequential | Concurrent

  /** The composed `Func<Task>`: `Terminal` is
      `() => InvokeConsumer(message, ...)` and `Layer(mw, next)` is
      `() => mw.InvokeAsync(message, next)`. */
  datatype Chain = Terminal | Layer(mw: Middleware, next: Chain)

  /** The middlewares of a chain, outermost first. */
  function Layers(c: Chain): seq<Middleware>
  {
    match c
    case Terminal => []
    case Layer(mw, next) => [mw] + Layers(next)
  }

  /** Reference reading of the nesting: `ms[0]` outermost, each later
      middleware inside the previous one. */
  function Compose(ms: seq<Middleware>): (c: Chain)
    ensures Layers(c) == ms
    ensures |ms| > 0 ==> c.Layer? && c.mw == ms[0]
  {
    if |ms| == 0 then Terminal
    else
      assert ms == [ms[0]] + ms[1..];
      Layer(ms[0], Compose(ms[1..]))
  }

  /** Composing the layers of a chain rebuilds that chain. */
  lemma {:induction false} ComposeLayers(c: Chain)
    ensures Compose(Layers(c)) == c
  {
    match c
    case Terminal =>
    case Layer(mw, next) =>
      ComposeLayers(next);
      assert Layers(c)[1..] == Layers(next);
  }

  /** The source's fold: start from the consumer call and wrap it with the
      middlewares taken in reverse order. */
  method Build(ms: seq<Middleware>) returns (c: Chain)
    ensures Layers(c) == ms
    ensures c == Compose(ms)
  {
    c := Terminal;
    var i := |ms|;
    while i > 0
      invariant 0 <= i <= |ms|
      invariant c == Compose(ms[i..])
    {
      i := i - 1;
      assert ms[i..][1..] == ms[i + 1..];
      c := Layer(ms[i], c);
    }
  }

  /** The innermost step of the chain. */
  function Invoke(mode: Mode, t: TypeId, cs: seq<Consumer>, m: Message): Run
  {
    match mode
    case Sequential => InvokeSequential(t, cs, m)
    case Concurrent => InvokeAll(t, cs, m)
  }

  /** Index of the first middleware that does not call `next`, or `|ms|`. */
  function FirstStop(ms: seq<Middleware>): (i: nat)
    ensures i <= |ms|
    ensures forall j :: 0 <= j < i ==> CallsNext(ms[j])
    ensures i < |ms| ==> !CallsNext(ms[i])
  {
    if |ms| == 0 then 0
    else if !CallsNext(ms[0]) then 0
    else 1 + FirstStop(ms[1..])
  }

  /** How a middleware that does not call `next` ends its `InvokeAsync`. */
  function Stopped(mw: Middleware): Outcome
  {
    if mw.behaviour.Fault? then Err(MiddlewareFault(mw.name)) else Ok
  }

  /** Awaiting the composed pipeline. A middleware's after-action runs only
      when `await next()` completed; a fault travels outward unchanged, so
      the pipeline ends as the outermost middleware that does not call
      `next` ends, or as the consumers do when every middleware calls it. */
  function Execute(c: Chain, t: TypeId, m: Message, cs: seq<Consumer>, mode: Mode): (r: Run)
    ensures var k := FirstStop(Layers(c));
            r.outcome == if k < |Layers(c)| then Stopped(Layers(c)[k]) else Invoke(mode, t, cs, m).outcome
  {
    match c
    case Terminal => Invoke(mode, t, cs, m)
    case Layer(mw, next) =>
      assert Layers(c)[1..] == Layers(next);
      match mw.behaviour
      case Around =>
        var r := Execute(next, t, m, cs, mode);
        Run([Before(mw.name)] + r.trace + (if r.outcome.Ok? then [After(mw.name)] else []), r.outcome)
      case BeforeOnly =>
        var r := Execute(next, t, m, cs, mode);
        Run([Before(mw.name)] + r.trace, r.outcome)
      case AfterOnly =>
        var r := Execute(next, t, m, cs, mode);
        Run(r.trace + (if r.outcome.Ok? then [After(mw.name)] else []), r.outcome)
      case ShortCircuit => Run([Before(mw.name)], Ok)
      case Fault => Run([Before(mw.name)], Err(MiddlewareFault(mw.name)))
  }

  /** One send of `m` with static type `t`: `InMemoryBus.SendAsync` and
      `SyncInMemoryBus.SendAsync` with `Sequential`, one attempt of
      `AsyncInMemoryBus.ProcessTypedMessageAsync` with `Concurrent`. */
  function Dispatch(reg: Registry, t: TypeId, m: Message, mode: Mode): (r: Run)
    ensures var ms := Selected(reg.MiddlewaresOf(t), t);
            forall e :: e in r.trace && !e.Consumed? ==> exists x :: x in ms && Names(e, x.name)
    ensures var ms := Selected(reg.MiddlewaresOf(t), t);
            var inner := Invoke(mode, t, reg.ConsumersOf(t), m);
            (forall i :: 0 <= i < |ms| ==> CallsNext(ms[i])) ==>
              r == Run(Befores(ms) + inner.trace + (if inner.outcome.Ok? then Afters(ms) else []), inner.outcome)
    ensures var ms := Selected(reg.MiddlewaresOf(t), t);
            (exists i :: 0 <= i < |ms| && !CallsNext(ms[i])) ==> forall e :: e in r.trace ==> !e.Consumed?
  {
    var ms := Selected(reg.MiddlewaresOf(t), t);
    var cs := reg.ConsumersOf(t);
    EventsComeFromLayers(Compose(ms), t, m, cs, mode);
    assert (forall i :: 0 <= i < |ms| ==> CallsNext(ms[i])) ==>
             var inner := Invoke(mode, t, cs, m);
             Execute(Compose(ms), t, m, cs, mode)
             == Run(Befores(ms) + inner.trace + (if inner.outcome.Ok? then Afters(ms) else []), inner.outcome) by {
      if forall i :: 0 <= i < |ms| ==> CallsNext(ms[i]) {
        NestingLaw(ms, t, m, cs, mode);
      }
    }
    assert (exists i :: 0 <= i < |ms| && !CallsNext(ms[i])) ==>
             forall e :: e in Execute(Compose(ms), t, m, cs, mode).trace ==> !e.Consumed? by {
      if exists i :: 0 <= i < |ms| && !CallsNext(ms[i]) {
        var i :| 0 <= i < |ms| && !CallsNext(ms[i]);
        ShortCircuitLaw(ms, i, t, m, cs, mode);
      }
    }
    Execute(Compose(ms), t, m, cs, mode)
  }

  /** Before-actions of a chain, outermost first. */
  function Befores(ms: seq<Middleware>): seq<Event>
  {
    if |ms| == 0 then []
    else (if HasBeforeAction(ms[0]) then [Before(ms[0].name)] else []) + Befores(ms[1..])
  }

  /** After-actions of a chain, innermost first. */
  function Afters(ms: seq<Middleware>): seq<Event>
  {
    if |ms| == 0 then []
    else Afters(ms[1..]) + (if HasAfterAction(ms[0]) then [After(ms[0].name)] else [])
  }

  /** One call-through layer: its before-action, everything inside it,
      and its after-action only when the inside completed. */
  lemma CallThroughLayer(mw: Middleware, next: Chain, t: TypeId, m: Message, cs: seq<Consumer>, mode: Mode)
    requires CallsNext(mw)
    ensures var r := Execute(next, t, m, cs, mode);
            Execute(Layer(mw, next), t, m, cs, mode)
            == Run((if HasBeforeAction(mw) then [Before(mw.name)] else []) + r.trace
                   + (if r.outcome.Ok? && HasAfterAction(mw) then [After(mw.name)] else []), r.outcome)
  {
    var r := Execute(next, t, m, cs, mode);
    match mw.behaviour
    case Around =>
    case BeforeOnly =>
      assert r.trace + [] == r.trace;
    case AfterOnly =>
      assert [] + r.trace == r.trace;
  }

  /** Nesting law: when every middleware calls `next`, the befores run in
      chain order, then the consumers, then (if nothing faulted) the afters
      in reverse chain order; the consumers' outcome is the send's outcome. */
  lemma {:induction false} NestingLaw(ms: seq<Middleware>, t: TypeId, m: Message, cs: seq<Consumer>, mode: Mode)
    requires forall i :: 0 <= i < |ms| ==> CallsNext(ms[i])
    ensures var inner := Invoke(mode, t, cs, m);
            Execute(Compose(ms), t, m, cs, mode)
            == Run(Befores(ms) + inner.trace + (if inner.outcome.Ok? then Afters(ms) else []), inner.outcome)
  {
    var inner := Invoke(mode, t, cs, m);
    if |ms| == 0 {
      assert Execute(Compose(ms), t, m, cs, mode) == inner;
      assert [] + inner.trace + [] == inner.trace;
    } else {
      var mw := ms[0];
      NestingLaw(ms[1..], t, m, cs, mode);
      CallThroughLayer(mw, Compose(ms[1..]), t, m, cs, mode);
      var b := if HasBeforeAction(mw) then [Before(mw.name)] else [];
      var a := if HasAfterAction(mw) then [After(mw.name)] else [];
      assert Befores(ms) == b + Befores(ms[1..]);
      assert Afters(ms) == Afters(ms[1..]) + a;
      Regroup(b, Befores(ms[1..]), inner.trace, Afters(ms[1..]), a);
    }
  }

  /** Re-bracketing one layer's actions around the inner run: the solver
      does not find this association of five sequences unaided. */
  lemma Regroup(b: seq<Event>, x: seq<Event>, y: seq<Event>, z: seq<Event>, a: seq<Event>)
    ensures b + (x + y + z) + a == (b + x) + y + (z + a)
    ensures b + (x + y + []) + [] == (b + x) + y + []
  {
  }

  /** A middleware that does not call `next` hides everything inside it:
      the run is the same as if the chain ended with it and no consumer
      were registered, and no consumer receives the message. */
  lemma {:induction false} ShortCircuitLaw(ms: seq<Middleware>, i: nat, t: TypeId, m: Message, cs: seq<Consumer>, mode: Mode)
    requires i < |ms| && !CallsNext(ms[i])
    ensures Execute(Compose(ms), t, m, cs, mode) == Execute(Compose(ms[..i + 1]), t, m, [], Sequential)
    ensures forall e :: e in Execute(Compose(ms), t, m, cs, mode).trace ==> !e.Consumed?
  {
    CutAtFirstStop(ms, i, t, m, cs, mode);
    NothingToDeliver(Compose(ms[..i + 1]), t, m);
  }

  /** The layers inside a middleware that does not call `next` never run. */
  lemma {:induction false} CutAtFirstStop(ms: seq<Middleware>, i: nat, t: TypeId, m: Message, cs: seq<Consumer>, mode: Mode)
    requires i < |ms| && !CallsNext(ms[i])
    ensures Execute(Compose(ms), t, m, cs, mode) == Execute(Compose(ms[..i + 1]), t, m, [], Sequential)
  {
    var pre := ms[..i + 1];
    assert pre[0] == ms[0];
    if CallsNext(ms[0]) {
      assert pre[1..] == ms[1..][..i];
      CutAtFirstStop(ms[1..], i - 1, t, m, cs, mode);
      CallThroughLayer(ms[0], Compose(ms[1..]), t, m, cs, mode);
      CallThroughLayer(ms[0], Compose(pre[1..]), t, m, [], Sequential);
    }
  }

  /** With no consumer registered no `Consumed` event can happen. */
  lemma {:induction false} NothingToDeliver(c: Chain, t: TypeId, m: Message)
    ensures forall e :: e in Execute(c, t, m, [], Sequential).trace ==> !e.Consumed?
  {
    match c
    case Terminal =>
    case Layer(mw, next) =>
      NothingToDeliver(next, t, m);
  }

  predicate Names(e: Event, n: string)
  {
    (e.Before? && e.middleware == n) || (e.After? && e.middleware == n)
  }

  /** Every middleware event of a run comes from a layer of the chain. */
  lemma {:induction false} EventsComeFromLayers(c: Chain, t: TypeId, m: Message, cs: seq<Consumer>, mode: Mode)
    ensures forall e :: e in Execute(c, t, m, cs, mode).trace && !e.Consumed? ==>
              exists x :: x in Layers(c) && Names(e, x.name)
  {
    match c
    case Terminal =>
      OnlyDeliveries(mode, t, cs, m);
    case Layer(mw, next) =>
      EventsComeFromLayers(next, t, m, cs, mode);
      OneLayerEvents(mw, next, t, m, cs, mode);
  }

  /** A layer adds only events that name its own middleware. */
  lemma OneLayerEvents(mw: Middleware, next: Chain, t: TypeId, m: Message, cs: seq<Consumer>, mode: Mode)
    ensures forall e :: e in Execute(Layer(mw, next), t, m, cs, mode).trace ==>
              e in Execute(next, t, m, cs, mode).trace || Names(e, mw.name)
  {
    assert Names(Before(mw.name), mw.name) && Names(After(mw.name), mw.name);
  }

  /** The consumer call itself produces only `Consumed` events. */
  lemma OnlyDeliveries(mode: Mode, t: TypeId, cs: seq<Consumer>, m: Message)
    ensures forall e :: e in Invoke(mode, t, cs, m).trace ==> e.Consumed?
  {
    assert forall e :: e in Deliveries(cs[..Reached(cs)], m) ==> e.Consumed?;
    assert forall e :: e in Deliveries(cs[..Started(cs)], m) ==> e.Consumed?;
  }

  /** Filter law: a registered middleware that is not eligible for the
      static type never runs, provided no eligible middleware shares its
      name. */
  lemma IneligibleNeverRuns(reg: Registry, t: TypeId, m: Message, mode: Mode, mw: Middleware)
    requires mw in reg.MiddlewaresOf(t) && !Eligible(mw, t)
    requires forall x :: x in reg.MiddlewaresOf(t) && Eligible(x, t) ==> x.name != mw.name
    ensures forall e :: e in Dispatch(reg, t, m, mode).trace ==> !Names(e, mw.name)
  {
    var ms := Selected(reg.MiddlewaresOf(t), t);
    assert forall x :: x in ms ==> x.name != mw.name;
    UnnamedStaysSilent(Dispatch(reg, t, m, mode).trace, ms, mw.name);
  }

  /** A trace whose middleware events all come from `ms` names no
      middleware outside `ms`. */
  lemma UnnamedStaysSilent(trace: seq<Event>, ms: seq<Middleware>, n: string)
    requires forall e :: e in trace && !e.Consumed? ==> exists x :: x in ms && Names(e, x.name)
    requires forall x :: x in ms ==> x.name != n
    ensures forall e :: e in trace ==> !Names(e, n)
  {
    forall e | e in trace ensures !Names(e, n) {
      if !e.Consumed? {
        var x :| x in ms && Names(e, x.name);
      }
    }
  }

  /** With no consumer registered and a chain that reaches the consumer
      call, the send fails with the InvalidOperationException and nothing is
      delivered. */
  lemma NoConsumerFails(reg: Registry, t: TypeId, m: Message, mode: Mode)
    requires reg.ConsumersOf(t) == []
    requires forall x :: x in reg.MiddlewaresOf(t) && Eligible(x, t) ==> CallsNext(x)
    ensures Dispatch(reg, t, m, mode).outcome == Err(NoConsumer(t))
    ensures Dispatch(reg, t, m, mode).trace == Befores(Selected(reg.MiddlewaresOf(t), t))
  {
    var ms := Selected(reg.MiddlewaresOf(t), t);
    assert forall i :: 0 <= i < |ms| ==> ms[i] in ms;
    NestingLaw(ms, t, m, [], mode);
    assert Invoke(mode, t, [], m) == Run([], Err(NoConsumer(t)));
    assert Befores(ms) + [] + [] == Befores(ms);
  }

  /** A synchronous send through call-through middlewares hands the message
      to the consumers one at a time in registration order; the first
      consumer that does not complete is the last one reached, and the way
      it ends is the way the send ends. */
  lemma SequentialDelivery(reg: Registry, t: TypeId, m: Message)
    requires reg.ConsumersOf(t) != []
    requires forall x :: x in reg.MiddlewaresOf(t) && Eligible(x, t) ==> CallsNext(x)
    ensures var cs := reg.ConsumersOf(t);
            var ms := Selected(reg.MiddlewaresOf(t), t);
            Dispatch(reg, t, m, Sequential)
            == Run(Befores(ms) + Deliveries(cs[..Reached(cs)], m) + (if Verdict(cs).Ok? then Afters(ms) else []),
                   Verdict(cs))
  {
    var ms := Selected(reg.MiddlewaresOf(t), t);
    assert forall i :: 0 <= i < |ms| ==> ms[i] in ms;
    NestingLaw(ms, t, m, reg.ConsumersOf(t), Sequential);
  }

  /** One asynchronous attempt through call-through middlewares calls the
      consumers in registration order until a call throws, between the
      before-actions and the after-actions, and ends as `InvokeConsumer`
      does: completed iff every consumer completes. */
  lemma ConcurrentDelivery(reg: Registry, t: TypeId, m: Message)
    requires reg.ConsumersOf(t) != []
    requires forall x :: x in reg.MiddlewaresOf(t) && Eligible(x, t) ==> CallsNext(x)
    ensures var cs := reg.ConsumersOf(t);
            var ms := Selected(reg.MiddlewaresOf(t), t);
            var o := InvokeAll(t, cs, m).outcome;
            && Dispatch(reg, t, m, Concurrent)
               == Run(Befores(ms) + Deliveries(cs[..Started(cs)], m) + (if o.Ok? then Afters(ms) else []), o)
            && (o.Ok? <==> forall j :: 0 <= j < |cs| ==> cs[j].ending.Completes?)
  {
    var ms := Selected(reg.MiddlewaresOf(t), t);
    assert forall i :: 0 <= i < |ms| ==> ms[i] in ms;
    NestingLaw(ms, t, m, reg.ConsumersOf(t), Concurrent);
  }
}
