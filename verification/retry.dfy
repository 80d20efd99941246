/** The asynchronous bus's retry controller, `ProcessMessageAsync`: the
    `while (!processed && retryCount <= MaxRetries && !token.IsCancellationRequested)`
    loop around one envelope's pipeline attempts. */
module Retry {
  import opened Types
  import opened Options

  /** The console lines the loop writes: one per scheduled retry, and one
      when the envelope is given up. */
  datatype Diagnostic = RetryLogged(retry: nat, maxRetries: int) | AbandonLogged(maxRetries: int)

  /** How `ProcessMessageAsync` ends.
      - `Delivered`: an attempt completed
      - `Exhausted`: the loop ran out of retries; nothing propagates
      - `CanceledAtHead`: the loop head saw the token cancelled; nothing propagates
      - `Escaped(e)`: an exception left the method: an unswallowed attempt
        fault, or the retry delay cancelled (`Canceled`) */
  datatype Status = Delivered | Exhausted | CanceledAtHead | Escaped(error: Error)

  /** Pipeline attempts made, `Task.Delay` calls started, diagnostics
      written, and the final status. */
  datatype Report = Report(attempts: nat, delays: nat, log: seq<Diagnostic>, status: Status)

  /** The envelope's token as the loop observes it. Its reads are numbered in
      program order from 0 (the loop-head check, then the retry delay, then
      the next loop-head check, ...); `Some(n)` means that read `n` and every
      later one see the token cancelled, `None` that it is never cancelled. */
  predicate CanceledAt(cancelAt: Option<nat>, read: nat)
  {
    cancelAt.Some? && read >= cancelAt.value
  }

  /** Attempts still allowed when `retryCount` is `retries`. */
  function Budget(o: Options, retries: nat): nat
  {
    if retries <= o.maxRetries then o.maxRetries + 1 - retries else 0
  }

  /** The loop from a head check with `retryCount == retries`, the next token
      read being read number `nextRead`. `attempt(i)` is how the pipeline
      attempt with index `i` ends. */
  function Loop(o: Options, attempt: nat -> Outcome, cancelAt: Option<nat>, retries: nat, nextRead: nat): (r: Report)
    decreases Budget(o, retries)
    ensures r.attempts <= Budget(o, retries)
    ensures r.delays <= r.attempts
    ensures forall j :: retries <= j < retries + r.attempts - 1 ==> attempt(j).Err?
    ensures r.status.Delivered? ==> r.attempts > 0
    ensures r.attempts > 0 ==> (r.status.Delivered? <==> attempt(retries + r.attempts - 1).Ok?)
    ensures !o.swallowExceptions ==> r.attempts <= 1
    ensures r.attempts > 0 && cancelAt.Some? ==> nextRead + 2 * (r.attempts - 1) < cancelAt.value
    ensures o.swallowExceptions && r.status.Escaped? ==> r.status.error == Canceled
  {
    if retries > o.maxRetries then Report(0, 0, [], Exhausted)
    else if CanceledAt(cancelAt, nextRead) then Report(0, 0, [], CanceledAtHead)
    else match attempt(retries)
      case Ok => Report(1, 0, [], Delivered)
      case Err(e) =>
        if !o.swallowExceptions then Report(1, 0, [], Escaped(e))
        else if retries + 1 <= o.maxRetries then
          var logged := RetryLogged(retries + 1, o.maxRetries);
          if CanceledAt(cancelAt, nextRead + 1) then Report(1, 1, [logged], Escaped(Canceled))
          else
            var rest := Loop(o, attempt, cancelAt, retries + 1, nextRead + 2);
            Report(1 + rest.attempts, 1 + rest.delays, [logged] + rest.log, rest.status)
        else Report(1, 0, [AbandonLogged(o.maxRetries)], Exhausted)
  }

  /** `ProcessMessageAsync` for one envelope. */
  function ProcessMessage(o: Options, attempt: nat -> Outcome, cancelAt: Option<nat>): (r: Report)
    ensures r.attempts <= Budget(o, 0)
    ensures o.maxRetries < 0 ==> r == Report(0, 0, [], Exhausted)
    ensures CanceledAt(cancelAt, 0) ==> r.attempts == 0
    ensures forall j :: 0 <= j < r.attempts - 1 ==> attempt(j).Err?
    ensures r.attempts > 0 ==> (r.status.Delivered? <==> attempt(r.attempts - 1).Ok?)
    ensures !o.swallowExceptions ==> r.attempts <= 1
  {
    Loop(o, attempt, cancelAt, 0, 0)
  }

  /** The retry lines numbered `lo` to `hi`, each showing the bound `max`. */
  function RetryLogs(lo: nat, hi: int, max: int): seq<Diagnostic>
    decreases if lo <= hi then hi + 1 - lo else 0
  {
    if lo > hi then [] else [RetryLogged(lo, max)] + RetryLogs(lo + 1, hi, max)
  }

  /** Retry bound, from any point of the loop: with swallowing on, an
      attempt that always fails and no cancellation, every remaining attempt
      runs, each but the last followed by a retry line and a delay, and the
      last by the abandonment line. */
  lemma {:induction false} AlwaysFailingFrom(o: Options, attempt: nat -> Outcome, retries: nat, nextRead: nat)
    requires o.swallowExceptions
    requires forall j: nat :: attempt(j).Err?
    requires retries <= o.maxRetries
    ensures Loop(o, attempt, None, retries, nextRead)
            == Report(o.maxRetries + 1 - retries, o.maxRetries - retries,
                      RetryLogs(retries + 1, o.maxRetries, o.maxRetries) + [AbandonLogged(o.maxRetries)], Exhausted)
    decreases o.maxRetries - retries
  {
    if retries + 1 <= o.maxRetries {
      AlwaysFailingFrom(o, attempt, retries + 1, nextRead + 2);
    }
  }

  /** Retry bound: `MaxRetries + 1` attempts (none when `MaxRetries` is
      negative), `MaxRetries` retry lines and delays, one abandonment line,
      and nothing propagates. */
  lemma AlwaysFailing(o: Options, attempt: nat -> Outcome)
    requires o.swallowExceptions
    requires forall j: nat :: attempt(j).Err?
    ensures var r := ProcessMessage(o, attempt, None);
            && r.status == Exhausted
            && (o.maxRetries < 0 ==> r.attempts == 0 && r.delays == 0 && r.log == [])
            && (o.maxRetries >= 0 ==>
                  && r.attempts == o.maxRetries + 1
                  && r.delays == o.maxRetries
                  && r.log == RetryLogs(1, o.maxRetries, o.maxRetries) + [AbandonLogged(o.maxRetries)])
  {
    if o.maxRetries >= 0 {
      AlwaysFailingFrom(o, attempt, 0, 0);
    }
  }

  lemma {:induction false} SucceedsOnFrom(o: Options, attempt: nat -> Outcome, i: nat, retries: nat, nextRead: nat)
    requires o.swallowExceptions
    requires retries <= i <= o.maxRetries
    requires forall j: nat :: j < i ==> attempt(j).Err?
    requires attempt(i).Ok?
    ensures var r := Loop(o, attempt, None, retries, nextRead);
            r.attempts == i + 1 - retries && r.delays == i - retries && r.status == Delivered
            && r.log == RetryLogs(retries + 1, i, o.maxRetries)
    decreases i - retries
  {
    if retries < i {
      SucceedsOnFrom(o, attempt, i, retries + 1, nextRead + 2);
    }
  }

  /** Stop rule: success on attempt `i` (within the budget) means exactly
      `i + 1` attempts and `i` delays. */
  lemma SucceedsOn(o: Options, attempt: nat -> Outcome, i: nat)
    requires o.swallowExceptions
    requires i <= o.maxRetries
    requires forall j: nat :: j < i ==> attempt(j).Err?
    requires attempt(i).Ok?
    ensures var r := ProcessMessage(o, attempt, None);
            && r.attempts == i + 1 && r.delays == i && r.status == Delivered
            && r.log == RetryLogs(1, i, o.maxRetries)
  {
    SucceedsOnFrom(o, attempt, i, 0, 0);
  }

  /** Stop rule: without swallowing, the first fault escapes after a single
      attempt. */
  lemma UnswallowedFaultEscapes(o: Options, attempt: nat -> Outcome, cancelAt: Option<nat>, e: Error)
    requires !o.swallowExceptions && o.maxRetries >= 0
    requires !CanceledAt(cancelAt, 0)
    requires attempt(0) == Err(e)
    ensures ProcessMessage(o, attempt, cancelAt) == Report(1, 0, [], Escaped(e))
  {
  }
}
