/** `MessageProcessingOptions`: the settings that parameterise the
    asynchronous bus's queue, throttle and retry rules, and the configure
    callback that overrides some of them. */
module Options {

  /** The options record. `retryDelayMs` is the `RetryDelay` time span in
      whole milliseconds. */
  datatype Options = Options(
    maxConcurrentMessages: int,
    maxQueueSize: int,
    swallowExceptions: bool,
    retryDelayMs: int,
    maxRetries: int)

  /** A freshly constructed options object on a machine with
      `processorCount` logical processors. */
  function Default(processorCount: nat): Options
  {
    Options(
      maxConcurrentMessages := processorCount * 2,
      maxQueueSize := 1000,
      swallowExceptions := true,
      retryDelayMs := 1000,
      maxRetries := 3)
  }

  /** The defaults as the documentation comments state them. */
  lemma DocumentedDefaults(processorCount: nat)
    ensures Default(processorCount).maxConcurrentMessages == 2 * processorCount
    ensures Default(processorCount).maxQueueSize == 1000
    ensures Default(processorCount).swallowExceptions
    ensures Default(processorCount).retryDelayMs == 1000
    ensures Default(processorCount).maxRetries == 3
  {
  }

  /** The five settable properties. */
  datatype Field = MaxConcurrentMessages | MaxQueueSize | SwallowExceptions | RetryDelay | MaxRetries

  /** A property's value: a count (or milliseconds) or a flag. */
  datatype Value = Count(n: int) | Flag(b: bool)

  /** One property assignment made inside the configure callback. */
  datatype Setting = Set(field: Field, value: Value)

  predicate WellTyped(s: Setting)
  {
    s.field.SwallowExceptions? <==> s.value.Flag?
  }

  function Get(o: Options, f: Field): Value
  {
    match f
    case MaxConcurrentMessages => Count(o.maxConcurrentMessages)
    case MaxQueueSize => Count(o.maxQueueSize)
    case SwallowExceptions => Flag(o.swallowExceptions)
    case RetryDelay => Count(o.retryDelayMs)
    case MaxRetries => Count(o.maxRetries)
  }

  /** Executing one property setter: that property takes the value and no
      other property changes. */
  function Apply(o: Options, s: Setting): (r: Options)
    requires WellTyped(s)
    ensures Get(r, s.field) == s.value
    ensures forall f :: f != s.field ==> Get(r, f) == Get(o, f)
  {
    match s.field
    case MaxConcurrentMessages => o.(maxConcurrentMessages := s.value.n)
    case MaxQueueSize => o.(maxQueueSize := s.value.n)
    case SwallowExceptions => o.(swallowExceptions := s.value.b)
    case RetryDelay => o.(retryDelayMs := s.value.n)
    case MaxRetries => o.(maxRetries := s.value.n)
  }

  /** `configureOptions?.Invoke(options)` on a fresh options object: the
      callback's assignments run in order. */
  function Configure(o: Options, ss: seq<Setting>): Options
    requires forall i :: 0 <= i < |ss| ==> WellTyped(ss[i])
    decreases |ss|
  {
    if |ss| == 0 then o else Configure(Apply(o, ss[0]), ss[1..])
  }

  /** The value a property ends with: the last assignment to it, or `d`
      when the callback never assigns it. */
  function LastAssigned(ss: seq<Setting>, f: Field, d: Value): Value
  {
    if |ss| == 0 then d
    else if ss[|ss| - 1].field == f then ss[|ss| - 1].value
    else LastAssigned(ss[..|ss| - 1], f, d)
  }

  lemma {:induction false} ConfigureSnoc(o: Options, ss: seq<Setting>, s: Setting)
    requires forall i :: 0 <= i < |ss| ==> WellTyped(ss[i])
    requires WellTyped(s)
    ensures forall i :: 0 <= i < |ss + [s]| ==> WellTyped((ss + [s])[i])
    ensures Configure(o, ss + [s]) == Apply(Configure(o, ss), s)
    decreases |ss|
  {
    assert forall i :: 0 <= i < |ss + [s]| ==> WellTyped((ss + [s])[i]) by {
      forall i | 0 <= i < |ss + [s]| ensures WellTyped((ss + [s])[i]) {
        if i < |ss| {
          assert (ss + [s])[i] == ss[i];
        }
      }
    }
    if |ss| > 0 {
      assert (ss + [s])[1..] == ss[1..] + [s];
      ConfigureSnoc(Apply(o, ss[0]), ss[1..], s);
    }
  }

  /** The callback changes exactly the properties it assigns: each ends with
      its last assigned value, and every other keeps the value it had. */
  lemma {:induction false} ConfigureLastWins(o: Options, ss: seq<Setting>, f: Field)
    requires forall i :: 0 <= i < |ss| ==> WellTyped(ss[i])
    ensures Get(Configure(o, ss), f) == LastAssigned(ss, f, Get(o, f))
  {
    if |ss| > 0 {
      var init := ss[..|ss| - 1];
      var last := ss[|ss| - 1];
      assert ss == init + [last];
      ConfigureSnoc(o, init, last);
      ConfigureLastWins(o, init, f);
    }
  }

  /** A property the callback never assigns keeps its default. */
  lemma UnassignedKeepsDefault(processorCount: nat, ss: seq<Setting>, f: Field)
    requires forall i :: 0 <= i < |ss| ==> WellTyped(ss[i])
    requires forall i :: 0 <= i < |ss| ==> ss[i].field != f
    ensures Get(Configure(Default(processorCount), ss), f) == Get(Default(processorCount), f)
  {
    ConfigureLastWins(Default(processorCount), ss, f);
    NeverAssigned(ss, f, Get(Default(processorCount), f));
  }

  lemma {:induction false} NeverAssigned(ss: seq<Setting>, f: Field, d: Value)
    requires forall i :: 0 <= i < |ss| ==> ss[i].field != f
    ensures LastAssigned(ss, f, d) == d
  {
    if |ss| > 0 {
      NeverAssigned(ss[..|ss| - 1], f, d);
    }
  }
}
