/** Middleware selection: which registered middlewares run for a message
    type (`ShouldRunMiddleware`) and in which order (`OrderBy(m => m.Order)`,
    a stable sort). */
module Middlewares {
  import opened Types

  /** What a middleware's `InvokeAsync` does around `next`.
      - `Around`: an action, `await next()`, another action (TrackingMiddleware, DummyMiddleware)
      - `BeforeOnly`: an action, then `await next()`
      - `AfterOnly`: `await next()`, then an action
      - `ShortCircuit`: an action, and `next` is never called
      - `Fault`: an action, then an exception instead of calling `next` */
  datatype Behaviour = Around | BeforeOnly | AfterOnly | ShortCircuit | Fault

  /** One registered middleware instance: its behaviour, its `Order`
      (the interface default is 0) and the `MiddlewareTarget` attribute of
      its class, `None` when the class carries no attribute. */
  datatype Middleware = Middleware(name: string, behaviour: Behaviour, order: int, targets: Option<seq<TypeId>>)

  /** The order value a middleware gets when it does not override `Order`. */
  const DefaultOrder: int := 0

  predicate CallsNext(mw: Middleware)
  {
    mw.behaviour.Around? || mw.behaviour.BeforeOnly? || mw.behaviour.AfterOnly?
  }

  predicate HasBeforeAction(mw: Middleware)
  {
    mw.behaviour.Around? || mw.behaviour.BeforeOnly?
  }

  predicate HasAfterAction(mw: Middleware)
  {
    mw.behaviour.Around? || mw.behaviour.AfterOnly?
  }

  /** `ShouldRunMiddleware`: a class without the attribute always runs; one
      with it runs when some listed type equals the static message type. */
  predicate Eligible(mw: Middleware, t: TypeId)
  {
    match mw.targets
    case None => true
    case Some(ts) => exists i :: 0 <= i < |ts| && ts[i] == t
  }

  /** The eligibility rule spelled out case by case: no attribute means
      eligible, an empty target list means never, otherwise exact
      membership of the static type. */
  lemma EligibilityRule(mw: Middleware, t: TypeId)
    ensures mw.targets.None? ==> Eligible(mw, t)
    ensures mw.targets == Some([]) ==> !Eligible(mw, t)
    ensures mw.targets.Some? ==> (Eligible(mw, t) <==> t in mw.targets.value)
  {
  }

  /** `a` is `b` with some elements deleted: the order of what remains is
      kept. */
  predicate Subsequence(a: seq<Middleware>, b: seq<Middleware>)
    decreases |b|
  {
    || |a| == 0
    || (|b| > 0 && ((a[0] == b[0] && Subsequence(a[1..], b[1..])) || Subsequence(a, b[1..])))
  }

  /** `.Where(m => ShouldRunMiddleware(m, message))`: keeps registration
      order, and every eligible registration as often as it occurs. */
  function Filter(ms: seq<Middleware>, t: TypeId): (r: seq<Middleware>)
    ensures |r| <= |ms|
    ensures forall x :: x in r <==> x in ms && Eligible(x, t)
    ensures forall i :: 0 <= i < |r| ==> Eligible(r[i], t)
    ensures Subsequence(r, ms)
    ensures forall x :: multiset(r)[x] == if Eligible(x, t) then multiset(ms)[x] else 0
  {
    if |ms| == 0 then []
    else
      assert ms == [ms[0]] + ms[1..];
      if Eligible(ms[0], t) then
        var r := [ms[0]] + Filter(ms[1..], t);
        assert r[1..] == Filter(ms[1..], t);
        r
      else Filter(ms[1..], t)
  }

  lemma {:induction false} SubsequenceMultiset(a: seq<Middleware>, b: seq<Middleware>)
    requires Subsequence(a, b)
    ensures multiset(a) <= multiset(b)
    decreases |b|
  {
    if |a| > 0 {
      assert b == [b[0]] + b[1..];
      if a[0] == b[0] && Subsequence(a[1..], b[1..]) {
        SubsequenceMultiset(a[1..], b[1..]);
        assert a == [a[0]] + a[1..];
      } else {
        SubsequenceMultiset(a, b[1..]);
      }
    }
  }

  /** The filter is determined by its contract: a subsequence of the
      registrations holding each eligible middleware exactly as often as the
      registrations do, and no other, is the filtered sequence. */
  lemma {:induction false} FilterIsUnique(ms: seq<Middleware>, t: TypeId, r: seq<Middleware>)
    requires Subsequence(r, ms)
    requires forall x :: multiset(r)[x] == if Eligible(x, t) then multiset(ms)[x] else 0
    ensures r == Filter(ms, t)
    decreases |ms|
  {
    if |ms| > 0 {
      var y := ms[0];
      assert ms == [y] + ms[1..];
      if Eligible(y, t) {
        assert multiset(r)[y] > 0;
        assert r[0] == y && Subsequence(r[1..], ms[1..]) by {
          if !(r[0] == y && Subsequence(r[1..], ms[1..])) {
            SubsequenceMultiset(r, ms[1..]);
          }
        }
        assert r == [y] + r[1..];
        FilterIsUnique(ms[1..], t, r[1..]);
      } else {
        assert y !in r by {
          assert multiset(r)[y] == 0;
        }
        FilterIsUnique(ms[1..], t, r);
      }
    }
  }

  lemma FilterCons(x: Middleware, ms: seq<Middleware>, t: TypeId)
    ensures Filter([x] + ms, t) == (if Eligible(x, t) then [x] else []) + Filter(ms, t)
  {
    assert ([x] + ms)[1..] == ms;
  }

  /** Filtering distributes over concatenation. */
  lemma {:induction false} FilterAppend(a: seq<Middleware>, b: seq<Middleware>, t: TypeId)
    ensures Filter(a + b, t) == Filter(a, t) + Filter(b, t)
  {
    if |a| == 0 {
      assert a + b == b;
    } else {
      assert (a + b)[1..] == a[1..] + b;
      FilterAppend(a[1..], b, t);
    }
  }

  /** A sequence of eligible middlewares passes the filter unchanged. */
  lemma {:induction false} FilterAllEligible(ms: seq<Middleware>, t: TypeId)
    requires forall i :: 0 <= i < |ms| ==> Eligible(ms[i], t)
    ensures Filter(ms, t) == ms
  {
    if |ms| > 0 {
      FilterAllEligible(ms[1..], t);
      assert ms == [ms[0]] + ms[1..];
    }
  }

  predicate SortedByOrder(ms: seq<Middleware>)
  {
    forall i, j :: 0 <= i < j < |ms| ==> ms[i].order <= ms[j].order
  }

  /** The subsequence of `ms` whose order value is `k`: a stable sort must
      keep each of these subsequences exactly as it was. */
  function WithOrder(ms: seq<Middleware>, k: int): (r: seq<Middleware>)
    ensures forall x :: x in r <==> x in ms && x.order == k
  {
    if |ms| == 0 then []
    else if ms[0].order == k then [ms[0]] + WithOrder(ms[1..], k)
    else WithOrder(ms[1..], k)
  }

  /** Filtering and taking an equal-order subsequence commute. */
  lemma {:induction false} FilterWithOrder(ms: seq<Middleware>, t: TypeId, k: int)
    ensures WithOrder(Filter(ms, t), k) == Filter(WithOrder(ms, k), t)
  {
    if |ms| > 0 {
      FilterWithOrder(ms[1..], t, k);
      var x := ms[0];
      if Eligible(x, t) {
        assert (Filter(ms, t))[1..] == Filter(ms[1..], t);
      }
      if x.order == k {
        assert (WithOrder(ms, k))[1..] == WithOrder(ms[1..], k);
      }
    }
  }

  lemma {:induction false} WithOrderAppend(a: seq<Middleware>, b: seq<Middleware>, k: int)
    ensures WithOrder(a + b, k) == WithOrder(a, k) + WithOrder(b, k)
  {
    if |a| == 0 {
      assert a + b == b;
    } else {
      assert (a + b)[0] == a[0];
      assert (a + b)[1..] == a[1..] + b;
      WithOrderAppend(a[1..], b, k);
    }
  }

  lemma {:induction false} WithOrderAbsent(ms: seq<Middleware>, k: int)
    requires SortedByOrder(ms)
    requires |ms| > 0 ==> k < ms[0].order
    ensures WithOrder(ms, k) == []
  {
    if |ms| > 0 {
      assert SortedByOrder(ms[1..]);
      WithOrderAbsent(ms[1..], k);
    }
  }

  lemma SortedPrepend(x: Middleware, ms: seq<Middleware>)
    requires SortedByOrder(ms)
    requires forall y :: y in ms ==> x.order <= y.order
    ensures SortedByOrder([x] + ms)
  {
    forall i, j | 0 <= i < j < |[x] + ms| ensures ([x] + ms)[i].order <= ([x] + ms)[j].order {
      if i > 0 {
        assert ([x] + ms)[i] == ms[i - 1] && ([x] + ms)[j] == ms[j - 1];
      } else {
        assert ([x] + ms)[j] == ms[j - 1];
      }
    }
  }

  /** Places `mw` after every element whose order is not larger, so that
      ties keep their arrival order. */
  function Insert(mw: Middleware, ms: seq<Middleware>): (r: seq<Middleware>)
    requires SortedByOrder(ms)
    ensures SortedByOrder(r)
    ensures multiset(r) == multiset(ms) + multiset{mw}
    ensures forall x :: x in r ==> x == mw || x in ms
  {
    if |ms| == 0 then [mw]
    else if mw.order < ms[0].order then
      SortedPrepend(mw, ms);
      [mw] + ms
    else
      var rest := Insert(mw, ms[1..]);
      assert ms == [ms[0]] + ms[1..];
      HeadIsLowest(mw, ms, rest);
      SortedPrepend(ms[0], rest);
      [ms[0]] + rest
  }

  /** The head of a sorted sequence bounds everything drawn from its tail
      or no smaller than it. */
  lemma HeadIsLowest(mw: Middleware, ms: seq<Middleware>, rest: seq<Middleware>)
    requires SortedByOrder(ms) && |ms| > 0 && ms[0].order <= mw.order
    requires forall x :: x in rest ==> x == mw || x in ms[1..]
    ensures forall x :: x in rest ==> ms[0].order <= x.order
  {
    forall x | x in rest ensures ms[0].order <= x.order {
      if x != mw {
        var j :| 0 <= j < |ms[1..]| && ms[1..][j] == x;
        assert ms[j + 1] == x;
      }
    }
  }

  /** Inserting into a sorted sequence appends `mw` to its own
      equal-order subsequence and leaves every other one alone. */
  lemma {:induction false} InsertKeepsClasses(mw: Middleware, ms: seq<Middleware>, k: int)
    requires SortedByOrder(ms)
    ensures WithOrder(Insert(mw, ms), k) == WithOrder(ms, k) + (if mw.order == k then [mw] else [])
  {
    if |ms| == 0 {
    } else if mw.order < ms[0].order {
      if mw.order == k {
        WithOrderAbsent(ms, k);
      }
    } else {
      InsertKeepsClasses(mw, ms[1..], k);
    }
  }

  /** `OrderBy(m => m.Order)`: a stable insertion sort. */
  function SortByOrder(ms: seq<Middleware>): (r: seq<Middleware>)
    ensures SortedByOrder(r)
    ensures multiset(r) == multiset(ms)
    ensures forall k :: WithOrder(r, k) == WithOrder(ms, k)
  {
    if |ms| == 0 then []
    else
      var init := ms[..|ms| - 1];
      var last := ms[|ms| - 1];
      assert ms == init + [last];
      var sorted := SortByOrder(init);
      assert forall k :: WithOrder(Insert(last, sorted), k) == WithOrder(ms, k) by {
        forall k ensures WithOrder(Insert(last, sorted), k) == WithOrder(ms, k) {
          WithOrderAppend(init, [last], k);
          InsertKeepsClasses(last, sorted, k);
        }
      }
      Insert(last, sorted)
  }

  /** A stable sort is determined by its two properties: any sorted
      sequence that keeps every equal-order subsequence of `ms` is the one
      `SortByOrder` produces. */
  lemma SortIsUnique(ms: seq<Middleware>, r: seq<Middleware>)
    requires SortedByOrder(r)
    requires forall k :: WithOrder(r, k) == WithOrder(ms, k)
    ensures r == SortByOrder(ms)
  {
    SortedWithSameClassesEqual(r, SortByOrder(ms));
  }

  lemma {:induction false} SortedWithSameClassesEqual(a: seq<Middleware>, b: seq<Middleware>)
    requires SortedByOrder(a) && SortedByOrder(b)
    requires forall k :: WithOrder(a, k) == WithOrder(b, k)
    ensures a == b
    decreases |a| + |b|
  {
    if |a| > 0 {
      HeadsAgree(a, b);
      TailsSameClasses(a, b);
      SortedWithSameClassesEqual(a[1..], b[1..]);
      assert a == [a[0]] + a[1..];
      assert b == [b[0]] + b[1..];
    } else if |b| > 0 {
      HeadsAgree(b, a);
    }
  }

  /** Two sorted sequences with the same equal-order subsequences start
      with the same element. */
  lemma HeadsAgree(a: seq<Middleware>, b: seq<Middleware>)
    requires SortedByOrder(a) && SortedByOrder(b)
    requires forall k :: WithOrder(a, k) == WithOrder(b, k)
    requires |a| > 0
    ensures |b| > 0 && a[0] == b[0]
  {
    var ka := a[0].order;
    assert a[0] in WithOrder(a, ka);
    assert a[0] in WithOrder(b, ka);
    var j :| 0 <= j < |b| && b[j] == a[0];
    var kb := b[0].order;
    assert b[0] in WithOrder(b, kb);
    assert b[0] in WithOrder(a, kb);
    var i :| 0 <= i < |a| && a[i] == b[0];
    assert a[0].order <= a[i].order;
    assert b[0].order <= b[j].order;
    assert ka == kb;
    assert WithOrder(a, ka) == [a[0]] + WithOrder(a[1..], ka);
    assert WithOrder(b, ka) == [b[0]] + WithOrder(b[1..], ka);
    assert WithOrder(a, ka)[0] == a[0];
  }

  lemma TailsSameClasses(a: seq<Middleware>, b: seq<Middleware>)
    requires |a| > 0 && |b| > 0 && a[0] == b[0]
    requires forall k :: WithOrder(a, k) == WithOrder(b, k)
    ensures forall k :: WithOrder(a[1..], k) == WithOrder(b[1..], k)
  {
    forall k ensures WithOrder(a[1..], k) == WithOrder(b[1..], k) {
      assert WithOrder(a, k) == WithOrder(b, k);
      if k == a[0].order {
        assert WithOrder(a[1..], k) == WithOrder(a, k)[1..];
        assert WithOrder(b[1..], k) == WithOrder(b, k)[1..];
      }
    }
  }

  /** The middlewares that wrap a send of static type `t`, outermost first:
      the eligible ones, stably sorted by ascending order. */
  function Selected(registered: seq<Middleware>, t: TypeId): (r: seq<Middleware>)
    ensures SortedByOrder(r)
    ensures forall x :: x in r <==> x in registered && Eligible(x, t)
    ensures multiset(r) == multiset(Filter(registered, t))
    ensures forall k :: WithOrder(r, k) == WithOrder(Filter(registered, t), k)
    ensures forall k :: WithOrder(r, k) == Filter(WithOrder(registered, k), t)
  {
    var r := SortByOrder(Filter(registered, t));
    forall k ensures WithOrder(r, k) == Filter(WithOrder(registered, k), t) {
      FilterWithOrder(registered, t, k);
    }
    assert forall x :: x in r <==> x in Filter(registered, t) by {
      forall x ensures x in r <==> x in Filter(registered, t) {
        assert x in r <==> x in multiset(r);
      }
    }
    r
  }
}
