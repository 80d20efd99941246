/** The unit tests' fixture and the example application's configuration,
    as concrete instances of the model. */
module Scenarios {
  import opened Types
  import opened Options
  import opened Consumers
  import opened Middlewares
  import opened Pipeline

  const Hello: TypeId := "HelloMessage"
  const Unrelated: TypeId := "UnrelatedMessage"

  /** `TrackingMiddleware` named `n`: records `Before:n`, awaits `next`,
      records `After:n`; no attribute. */
  function Tracking(n: string): Middleware
  {
    Middleware(n, Around, DefaultOrder, None)
  }

  const Dummy := Middleware("Dummy", Around, DefaultOrder, Some([Hello]))
  const NonMatching := Middleware("NonMatching", Around, DefaultOrder, Some([Unrelated]))
  const BeforeOnlyMw := Middleware("BeforeOnly", BeforeOnly, DefaultOrder, Some([Hello]))
  const AfterOnlyMw := Middleware("AfterOnly", AfterOnly, DefaultOrder, Some([Hello]))
  const HelloConsumer := Consumer("HelloConsumer", Completes)

  /** The registrations of the test class's constructor, in order. */
  const Fixture := Registry(
    map[Hello := [HelloConsumer]],
    map[Hello := [Tracking("A"), Tracking("B"), Tracking("C"), Dummy, NonMatching, BeforeOnlyMw, AfterOnlyMw]])

  /** An event a `TrackingMiddleware` writes to its shared `Order` list. */
  predicate Tracked(e: Event)
  {
    !e.Consumed? && e.middleware in {"A", "B", "C"}
  }

  /** The contents of the trackers' `Order` list after a run. */
  function Recorded(trace: seq<Event>): seq<Event>
  {
    if |trace| == 0 then []
    else (if Tracked(trace[0]) then [trace[0]] else []) + Recorded(trace[1..])
  }

  /** The chain the fixture selects for `HelloMessage`. */
  const HelloChain := [Tracking("A"), Tracking("B"), Tracking("C"), Dummy, BeforeOnlyMw, AfterOnlyMw]

  /** The trace the fixture's send produces. */
  function HelloTrace(text: string): seq<Event>
  {
    [Before("A"), Before("B"), Before("C"), Before("Dummy"), Before("BeforeOnly"),
     Consumed("HelloConsumer", Msg(text)),
     After("AfterOnly"), After("Dummy"), After("C"), After("B"), After("A")]
  }

  /** The order test and its neighbours: the consumer sees the message,
      every eligible middleware's actions run in nesting order, the
      non-matching middleware never runs, and the trackers record exactly
      the expected sequence. */
  lemma FixtureSend(text: string)
    ensures var r := Dispatch(Fixture, Hello, Msg(text), Sequential);
            && r == Run(HelloTrace(text), Ok)
            && Recorded(r.trace) == [Before("A"), Before("B"), Before("C"), After("C"), After("B"), After("A")]
            && (forall e :: e in r.trace ==> !Names(e, "NonMatching"))
  {
    HelloDispatch(text);
    TrackersRecord(text);
    NonMatchingIsUnique();
    IneligibleNeverRuns(Fixture, Hello, Msg(text), Sequential, NonMatching);
  }

  lemma NonMatchingIsUnique()
    ensures NonMatching in Fixture.MiddlewaresOf(Hello) && !Eligible(NonMatching, Hello)
    ensures forall x :: x in Fixture.MiddlewaresOf(Hello) && Eligible(x, Hello) ==> x.name != "NonMatching"
  {
    var registered := Fixture.MiddlewaresOf(Hello);
    assert registered[4] == NonMatching;
    forall x | x in registered && Eligible(x, Hello)
      ensures x.name != "NonMatching"
    {
      var i :| 0 <= i < |registered| && registered[i] == x;
    }
  }

  lemma HelloDispatch(text: string)
    ensures Dispatch(Fixture, Hello, Msg(text), Sequential) == Run(HelloTrace(text), Ok)
  {
    FixtureSelects(text);
    HelloChainRun(text);
  }

  lemma FixtureSelects(text: string)
    ensures Dispatch(Fixture, Hello, Msg(text), Sequential)
        == Execute(Compose(HelloChain), Hello, Msg(text), [HelloConsumer], Sequential)
  {
    FixtureChain();
    assert Fixture.ConsumersOf(Hello) == [HelloConsumer];
  }

  lemma HelloChainRun(text: string)
    ensures Execute(Compose(HelloChain), Hello, Msg(text), [HelloConsumer], Sequential) == Run(HelloTrace(text), Ok)
  {
    assert forall i :: 0 <= i < |HelloChain| ==> CallsNext(HelloChain[i]);
    NestingLaw(HelloChain, Hello, Msg(text), [HelloConsumer], Sequential);
    HelloConsumerRun(text);
    HelloTraceParts(text);
  }

  lemma HelloConsumerRun(text: string)
    ensures Invoke(Sequential, Hello, [HelloConsumer], Msg(text)) == Run([Consumed("HelloConsumer", Msg(text))], Ok)
  {
    assert FirstFailing([HelloConsumer]) == 1;
    assert Reached([HelloConsumer]) == 1;
    assert [HelloConsumer][..1] == [HelloConsumer];
  }

  lemma HelloTraceParts(text: string)
    ensures Befores(HelloChain) + [Consumed("HelloConsumer", Msg(text))] + Afters(HelloChain) == HelloTrace(text)
  {
    ChainActions();
  }

  lemma ChainActions()
    ensures Befores(HelloChain) == [Before("A"), Before("B"), Before("C"), Before("Dummy"), Before("BeforeOnly")]
    ensures Afters(HelloChain) == [After("AfterOnly"), After("Dummy"), After("C"), After("B"), After("A")]
  {
    var s5 := [AfterOnlyMw];
    var s4 := [BeforeOnlyMw] + s5;
    var s3 := [Dummy] + s4;
    var s2 := [Tracking("C")] + s3;
    var s1 := [Tracking("B")] + s2;
    assert HelloChain == [Tracking("A")] + s1;
    ActionsCons(AfterOnlyMw, []);
    ActionsCons(BeforeOnlyMw, s5);
    ActionsCons(Dummy, s4);
    ActionsCons(Tracking("C"), s3);
    ActionsCons(Tracking("B"), s2);
    ActionsCons(Tracking("A"), s1);
  }

  lemma ActionsCons(x: Middleware, ms: seq<Middleware>)
    ensures Befores([x] + ms) == (if HasBeforeAction(x) then [Before(x.name)] else []) + Befores(ms)
    ensures Afters([x] + ms) == Afters(ms) + (if HasAfterAction(x) then [After(x.name)] else [])
  {
    assert ([x] + ms)[1..] == ms;
  }

  lemma {:induction false} RecordedAppend(a: seq<Event>, b: seq<Event>)
    ensures Recorded(a + b) == Recorded(a) + Recorded(b)
  {
    if |a| == 0 {
      assert a + b == b;
    } else {
      assert (a + b)[1..] == a[1..] + b;
      RecordedAppend(a[1..], b);
    }
  }

  lemma RecordedCons(e: Event, es: seq<Event>)
    ensures Recorded([e] + es) == (if Tracked(e) then [e] else []) + Recorded(es)
  {
    assert ([e] + es)[1..] == es;
  }

  lemma TrackersRecord(text: string)
    ensures Recorded(HelloTrace(text)) == [Before("A"), Before("B"), Before("C"), After("C"), After("B"), After("A")]
  {
    var bs := [Before("A"), Before("B"), Before("C"), Before("Dummy"), Before("BeforeOnly")];
    var c := [Consumed("HelloConsumer", Msg(text))];
    var afters := [After("AfterOnly"), After("Dummy"), After("C"), After("B"), After("A")];
    assert HelloTrace(text) == (bs + c) + afters;
    RecordedAppend(bs + c, afters);
    RecordedAppend(bs, c);
    RecordedCons(c[0], []);
    assert [c[0]] + [] == c;
    BeforesRecorded();
    AftersRecorded();
  }

  lemma BeforesRecorded()
    ensures Recorded([Before("A"), Before("B"), Before("C"), Before("Dummy"), Before("BeforeOnly")])
            == [Before("A"), Before("B"), Before("C")]
  {
    var tail := [Before("Dummy"), Before("BeforeOnly")];
    RecordedCons(Before("BeforeOnly"), []);
    RecordedCons(Before("Dummy"), [Before("BeforeOnly")]);
    RecordedAppend([Before("A"), Before("B"), Before("C")], tail);
    RecordedAllTracked([Before("A"), Before("B"), Before("C")]);
  }

  lemma AftersRecorded()
    ensures Recorded([After("AfterOnly"), After("Dummy"), After("C"), After("B"), After("A")])
            == [After("C"), After("B"), After("A")]
  {
    var head := [After("AfterOnly"), After("Dummy")];
    RecordedCons(After("Dummy"), []);
    RecordedCons(After("AfterOnly"), [After("Dummy")]);
    RecordedAppend(head, [After("C"), After("B"), After("A")]);
    RecordedAllTracked([After("C"), After("B"), After("A")]);
  }

  /** The trackers record every event of their own. */
  lemma {:induction false} RecordedAllTracked(es: seq<Event>)
    requires forall i :: 0 <= i < |es| ==> Tracked(es[i])
    ensures Recorded(es) == es
  {
    if |es| > 0 {
      RecordedAllTracked(es[1..]);
      assert es == [es[0]] + es[1..];
    }
  }

  /** The filter drops only the non-matching middleware. */
  lemma FixtureFilter()
    ensures Filter(Fixture.MiddlewaresOf(Hello), Hello) == HelloChain
  {
    var front := [Tracking("A"), Tracking("B"), Tracking("C"), Dummy];
    var back := [NonMatching] + [BeforeOnlyMw, AfterOnlyMw];
    FixtureRegistrations();
    FilterAppend(front, back, Hello);
    FrontFilter();
    BackFilter();
  }

  lemma FixtureRegistrations()
    ensures Fixture.MiddlewaresOf(Hello)
            == [Tracking("A"), Tracking("B"), Tracking("C"), Dummy] + ([NonMatching] + [BeforeOnlyMw, AfterOnlyMw])
  {
  }

  lemma FrontFilter()
    ensures Filter([Tracking("A"), Tracking("B"), Tracking("C"), Dummy], Hello)
            == [Tracking("A"), Tracking("B"), Tracking("C"), Dummy]
  {
    assert Eligible(Dummy, Hello) by { assert Dummy.targets.value[0] == Hello; }
    FilterAllEligible([Tracking("A"), Tracking("B"), Tracking("C"), Dummy], Hello);
  }

  lemma BackFilter()
    ensures Filter([NonMatching] + [BeforeOnlyMw, AfterOnlyMw], Hello) == [BeforeOnlyMw, AfterOnlyMw]
  {
    FilterCons(NonMatching, [BeforeOnlyMw, AfterOnlyMw], Hello);
    TargetedEligible();
    FilterAllEligible([BeforeOnlyMw, AfterOnlyMw], Hello);
  }

  lemma TargetedEligible()
    ensures !Eligible(NonMatching, Hello)
    ensures forall i :: 0 <= i < |[BeforeOnlyMw, AfterOnlyMw]| ==> Eligible([BeforeOnlyMw, AfterOnlyMw][i], Hello)
  {
    assert BeforeOnlyMw.targets.value[0] == Hello;
    assert AfterOnlyMw.targets.value[0] == Hello;
  }

  /** With every middleware at the default order, sorting keeps
      registration order. */
  lemma FixtureChain()
    ensures Selected(Fixture.MiddlewaresOf(Hello), Hello) == HelloChain
  {
    FixtureFilter();
    HelloChainSorted();
    SortIsUnique(HelloChain, HelloChain);
  }

  lemma HelloChainSorted()
    ensures SortedByOrder(HelloChain)
  {
    assert forall i :: 0 <= i < |HelloChain| ==> HelloChain[i].order == DefaultOrder;
  }

  /** The no-consumer test: an empty container makes the send fail with the
      InvalidOperationException. */
  lemma EmptyContainerThrows(text: string, mode: Mode)
    ensures Dispatch(Registry(map[], map[]), Hello, Msg(text), mode) == Run([], Err(NoConsumer(Hello)))
  {
  }

  /** The example application's callback: the four assigned options change,
      exception swallowing keeps its default. */
  lemma ExampleConfiguration(processorCount: nat)
    ensures Configure(Default(processorCount),
                      [Set(MaxConcurrentMessages, Count(10)), Set(MaxQueueSize, Count(500)),
                       Set(MaxRetries, Count(5)), Set(RetryDelay, Count(2000))])
            == Options(10, 500, true, 2000, 5)
  {
  }
}
