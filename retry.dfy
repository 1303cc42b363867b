/**
  The retry policy of `retryRequest`: attempts numbered from 1 to
  `maxRetries`, each paced by `rateLimit` and then invoking the operation;
  a success returns at once, an HTTP 429 waits the throttled backoff and
  moves on (even after the last attempt), any other failure waits the
  linear backoff, or is rethrown when it happens on the last attempt. A run
  whose last attempt ends in a 429 leaves the loop and returns `undefined`.

  The operation is an oracle: `replies[k - 1]` is what it answers on
  attempt `k`, with the time the call took. Everything the loop does is
  recorded as a sequence of events, so that the schedule can be stated.
*/
module Retrying {
  import opened Wrappers
  import opened Pacing

  /** The default of `maxRetries`, used by every endpoint. */
  const DEFAULT_MAX_RETRIES: int := 3

  /** What a rejected call or a failed property access throws. */
  datatype Thrown =
    | HttpError(status: Option<int>, code: Option<string>)  // axios error; status is None when it has no `response`
    | TypeError                                             // a property read on `undefined`
    | InvalidData                                           // `new Error('Invalid ... data received')`
    | RangeError                                            // `toISOString` on a date out of range

  /** `error.response?.status === 429` */
  predicate IsRateLimited(e: Thrown)
  {
    e.HttpError? && e.status == Some(429)
  }

  /** `error.code === 'ECONNABORTED'` */
  predicate IsTimeout(e: Thrown)
  {
    e.HttpError? && e.code == Some("ECONNABORTED")
  }

  /** One answer of the operation and how long the call took. */
  datatype Reply<T> = Reply(outcome: Result<T, Thrown>, latency: nat)

  predicate Throttled<T>(reply: Reply<T>)
  {
    reply.outcome.Err? && IsRateLimited(reply.outcome.error)
  }

  /** What `retryRequest` settles with: the operation's value, a rethrown
      error, or `undefined` when the loop runs out without either. */
  datatype RetryResult<T> = Returned(value: T) | Rethrown(error: Thrown) | Undefined

  /** What the loop did, in order. */
  datatype Event =
    | Paced(wait: nat)                 // one `rateLimit` call and how long it slept
    | Invoked(attempt: nat, at: int)   // `requestFn()` called on this attempt at this time
    | ThrottledWait(wait: nat)         // the backoff after a 429
    | ErrorWait(wait: nat)             // the backoff after any other failure

  datatype Run<T> = Run(result: RetryResult<T>, events: seq<Event>, clock: Clock)

  function Elapse(c: Clock, ms: nat): Clock
  {
    c.(now := c.now + ms)
  }

  function Then<T>(prefix: seq<Event>, rest: Run<T>): Run<T>
  {
    Run(rest.result, prefix + rest.events, rest.clock)
  }

  lemma ThenThen<T>(done: seq<Event>, prefix: seq<Event>, rest: Run<T>)
    ensures Then(done, Then(prefix, rest)) == Then(done + prefix, rest)
  {
    assert done + (prefix + rest.events) == (done + prefix) + rest.events;
  }

  /** The wait that follows a failure that does not end the loop. */
  function BackoffAfter(e: Thrown, attempt: nat): Event
  {
    if IsRateLimited(e) then ThrottledWait(ThrottledBackoff(attempt)) else ErrorWait(ErrorBackoff(attempt))
  }

  /** Number of attempts from `attempt` to `maxRetries`. */
  function Remaining(attempt: int, maxRetries: int): nat
  {
    if attempt <= maxRetries then maxRetries - attempt + 1 else 0
  }

  /** The attempts from `attempt` on, starting from clock `c`. */
  function Retry<T>(replies: seq<Reply<T>>, attempt: nat, maxRetries: int, c: Clock): Run<T>
    requires 1 <= attempt && maxRetries <= |replies|
    decreases maxRetries - attempt
  {
    if maxRetries < attempt then Run(Undefined, [], c)
    else
      var started := Pace(c);
      var reply := replies[attempt - 1];
      var finished := Elapse(started, reply.latency);
      var head := [Paced(PaceWait(c)), Invoked(attempt, started.now)];
      match reply.outcome
      case Ok(v) => Run(Returned(v), head, finished)
      case Err(e) =>
        if IsRateLimited(e) || attempt < maxRetries then
          var wait := BackoffAfter(e, attempt);
          Then(head + [wait], Retry(replies, attempt + 1, maxRetries, Elapse(finished, wait.wait)))
        else
          Run(Rethrown(e), head, finished)
  }

  /** The invocations among the events, in order. */
  function Invocations(events: seq<Event>): (r: seq<Event>)
    ensures |r| <= |events|
    ensures forall k | 0 <= k < |r| :: r[k].Invoked?
  {
    if events == [] then []
    else (if events[0].Invoked? then [events[0]] else []) + Invocations(events[1..])
  }

  /** The backoff waits among the events, in order. */
  function Backoffs(events: seq<Event>): (r: seq<Event>)
    ensures |r| <= |events|
    ensures forall k | 0 <= k < |r| :: r[k].ThrottledWait? || r[k].ErrorWait?
  {
    if events == [] then []
    else (if events[0].ThrottledWait? || events[0].ErrorWait? then [events[0]] else []) + Backoffs(events[1..])
  }

  lemma {:induction false} InvocationsAppend(a: seq<Event>, b: seq<Event>)
    ensures Invocations(a + b) == Invocations(a) + Invocations(b)
  {
    if a == [] {
      assert a + b == b;
    } else {
      assert (a + b)[1..] == a[1..] + b;
      InvocationsAppend(a[1..], b);
    }
  }

  lemma AttemptEventsInvocations(paced: Event, invoked: Event, wait: Event, rest: seq<Event>)
    requires paced.Paced? && invoked.Invoked? && (wait.ThrottledWait? || wait.ErrorWait?)
    ensures Invocations([paced, invoked] + [wait] + rest) == [invoked] + Invocations(rest)
    ensures Invocations([paced, invoked]) == [invoked]
  {
    var s := [paced, invoked] + [wait] + rest;
    var s1 := s[1..];
    var s2 := s1[1..];
    assert s2[0] == wait && s2[1..] == rest;
    assert Invocations(s2) == Invocations(rest);
    assert Invocations(s1) == [invoked] + Invocations(s2);
    assert [paced, invoked][1..][1..] == [];
  }

  lemma AttemptEventsBackoffs(paced: Event, invoked: Event, wait: Event, rest: seq<Event>)
    requires paced.Paced? && invoked.Invoked? && (wait.ThrottledWait? || wait.ErrorWait?)
    ensures Backoffs([paced, invoked] + [wait] + rest) == [wait] + Backoffs(rest)
    ensures Backoffs([paced, invoked]) == []
  {
    var s := [paced, invoked] + [wait] + rest;
    var s1 := s[1..];
    var s2 := s1[1..];
    assert s2[0] == wait && s2[1..] == rest;
    assert Backoffs(s2) == [wait] + Backoffs(rest);
    assert Backoffs(s1) == Backoffs(s2);
    assert [paced, invoked][1..][1..] == [];
  }

  /** The events of one attempt that ends in a backoff, then those of the
      attempts after it. */
  lemma AttemptEvents(paced: Event, invoked: Event, wait: Event, rest: seq<Event>)
    requires paced.Paced? && invoked.Invoked? && (wait.ThrottledWait? || wait.ErrorWait?)
    ensures Invocations([paced, invoked] + [wait] + rest) == [invoked] + Invocations(rest)
    ensures Backoffs([paced, invoked] + [wait] + rest) == [wait] + Backoffs(rest)
    ensures Invocations([paced, invoked]) == [invoked] && Backoffs([paced, invoked]) == []
  {
    AttemptEventsInvocations(paced, invoked, wait, rest);
    AttemptEventsBackoffs(paced, invoked, wait, rest);
  }

  /** Prepending attempt `from` to invocations numbered from `from + 1`
      keeps the numbering consecutive. */
  lemma ConsecutiveAttempts(first: Event, later: seq<Event>)
    requires first.Invoked?
    requires forall i | 0 <= i < |later| :: later[i].Invoked? && later[i].attempt == first.attempt + 1 + i
    ensures forall i | 0 <= i < |[first] + later| ::
      ([first] + later)[i].Invoked? && ([first] + later)[i].attempt == first.attempt + i
  {
  }

  /** Prepending the 429 backoff of attempt `from` to those of the
      following attempts keeps the schedule. */
  lemma ThrottledScheduleFrom(from: nat, later: seq<Event>)
    requires forall i | 0 <= i < |later| :: later[i] == ThrottledWait(ThrottledBackoff(from + 1 + i))
    ensures var all := [ThrottledWait(ThrottledBackoff(from))] + later;
      forall i | 0 <= i < |all| :: all[i] == ThrottledWait(ThrottledBackoff(from + i))
  {
  }

  /** Prepending the linear backoff of attempt `from` to those of the
      following attempts keeps the schedule. */
  lemma ErrorScheduleFrom(from: nat, later: seq<Event>)
    requires forall i | 0 <= i < |later| :: later[i] == ErrorWait(ErrorBackoff(from + 1 + i))
    ensures var all := [ErrorWait(ErrorBackoff(from))] + later;
      forall i | 0 <= i < |all| :: all[i] == ErrorWait(ErrorBackoff(from + i))
  {
  }

  /** Every attempt of the range `[from, to)` (0-based) fails. */
  predicate AllFail<T>(replies: seq<Reply<T>>, from: int, to: int)
    requires 0 <= from && to <= |replies|
  {
    forall i | from <= i < to :: replies[i].outcome.Err?
  }

  /** With `maxRetries <= 0` the loop body never runs. */
  lemma RetryNonPositive<T>(replies: seq<Reply<T>>, maxRetries: int, c: Clock)
    requires maxRetries <= 0 && maxRetries <= |replies|
    ensures Retry(replies, 1, maxRetries, c) == Run(Undefined, [], c)
  {
  }

  /** A first answer that succeeds is returned after a single paced call,
      with no backoff. */
  lemma RetrySucceedsFirstTime<T>(replies: seq<Reply<T>>, maxRetries: int, c: Clock)
    requires 1 <= maxRetries <= |replies|
    requires replies[0].outcome.Ok?
    ensures var run := Retry(replies, 1, maxRetries, c);
      && run.result == Returned(replies[0].outcome.value)
      && run.events == [Paced(PaceWait(c)), Invoked(1, Pace(c).now)]
  {
  }

  /** One attempt that fails without ending the loop: its rate-limit
      call, its invocation and its backoff, then the attempts after it. */
  lemma RetryStep<T>(replies: seq<Reply<T>>, attempt: nat, maxRetries: int, c: Clock)
    requires 1 <= attempt <= maxRetries <= |replies|
    requires replies[attempt - 1].outcome.Err?
    requires IsRateLimited(replies[attempt - 1].outcome.error) || attempt < maxRetries
    ensures var reply := replies[attempt - 1];
      var wait := BackoffAfter(reply.outcome.error, attempt);
      Retry(replies, attempt, maxRetries, c)
      == Then([Paced(PaceWait(c)), Invoked(attempt, Pace(c).now)] + [wait],
              Retry(replies, attempt + 1, maxRetries, Elapse(Elapse(Pace(c), reply.latency), wait.wait)))
  {
  }

  /** One attempt that ends the loop, by returning or by rethrowing: its
      rate-limit call and its invocation, and nothing after them. */
  lemma RetryStop<T>(replies: seq<Reply<T>>, attempt: nat, maxRetries: int, c: Clock)
    requires 1 <= attempt <= maxRetries <= |replies|
    requires var o := replies[attempt - 1].outcome; o.Ok? || (!IsRateLimited(o.error) && attempt == maxRetries)
    ensures var run := Retry(replies, attempt, maxRetries, c);
      && run.events == [Paced(PaceWait(c)), Invoked(attempt, Pace(c).now)]
      && run.clock == Elapse(Pace(c), replies[attempt - 1].latency)
      && run.result == match replies[attempt - 1].outcome
                       case Ok(v) => Returned(v)
                       case Err(e) => Rethrown(e)
  {
  }

  /** The invocations of a run so far, extended by one attempt. */
  lemma AttemptInvocations(done: seq<Event>, paced: Event, invoked: Event, wait: Event)
    requires paced.Paced? && invoked.Invoked? && (wait.ThrottledWait? || wait.ErrorWait?)
    ensures Invocations(done + ([paced, invoked] + [wait])) == Invocations(done) + [invoked]
    ensures Invocations(done + [paced, invoked]) == Invocations(done) + [invoked]
  {
    AttemptEvents(paced, invoked, wait, []);
    assert [paced, invoked] + [wait] + [] == [paced, invoked] + [wait];
    InvocationsAppend(done, [paced, invoked] + [wait]);
    InvocationsAppend(done, [paced, invoked]);
  }

  /** A run so far, followed by an attempt that fails without ending the
      loop, followed by the attempts after it, is the whole run. */
  lemma RetryContinues<T>(replies: seq<Reply<T>>, attempt: nat, maxRetries: int, c: Clock,
                          done: seq<Event>, run: Run<T>)
    requires 1 <= attempt <= maxRetries <= |replies|
    requires replies[attempt - 1].outcome.Err?
    requires IsRateLimited(replies[attempt - 1].outcome.error) || attempt < maxRetries
    requires Then(done, Retry(replies, attempt, maxRetries, c)) == run
    ensures var reply := replies[attempt - 1];
      var wait := BackoffAfter(reply.outcome.error, attempt);
      Then(done + ([Paced(PaceWait(c)), Invoked(attempt, Pace(c).now)] + [wait]),
           Retry(replies, attempt + 1, maxRetries, Elapse(Elapse(Pace(c), reply.latency), wait.wait))) == run
  {
    RetryStep(replies, attempt, maxRetries, c);
    var reply := replies[attempt - 1];
    var wait := BackoffAfter(reply.outcome.error, attempt);
    ThenThen(done, [Paced(PaceWait(c)), Invoked(attempt, Pace(c).now)] + [wait],
             Retry(replies, attempt + 1, maxRetries, Elapse(Elapse(Pace(c), reply.latency), wait.wait)));
  }

  /** A run so far, followed by an attempt that ends the loop, is the
      whole run. */
  lemma RetryFinishes<T>(replies: seq<Reply<T>>, attempt: nat, maxRetries: int, c: Clock,
                         done: seq<Event>, run: Run<T>)
    requires 1 <= attempt <= maxRetries <= |replies|
    requires var o := replies[attempt - 1].outcome; o.Ok? || (!IsRateLimited(o.error) && attempt == maxRetries)
    requires Then(done, Retry(replies, attempt, maxRetries, c)) == run
    ensures run.events == done + [Paced(PaceWait(c)), Invoked(attempt, Pace(c).now)]
    ensures run.clock == Elapse(Pace(c), replies[attempt - 1].latency)
    ensures run.result == match replies[attempt - 1].outcome
                          case Ok(v) => Returned(v)
                          case Err(e) => Rethrown(e)
  {
    RetryStop(replies, attempt, maxRetries, c);
  }

  /** How a run ends: it returns the first success if there is one; it
      rethrows the final attempt's error when every attempt fails and that
      error is not a 429; it returns `undefined` when every attempt fails
      and the final one is a 429, or when there is no attempt at all. So a
      429 never leaves `retryRequest`. */
  lemma {:induction false} RetryOutcome<T>(replies: seq<Reply<T>>, attempt: nat, maxRetries: int, c: Clock)
    requires 1 <= attempt && maxRetries <= |replies|
    ensures var r := Retry(replies, attempt, maxRetries, c).result;
      && (r.Returned? <==> attempt <= maxRetries && !AllFail(replies, attempt - 1, maxRetries))
      && (r.Returned? ==> exists k | attempt - 1 <= k < maxRetries ::
                            AllFail(replies, attempt - 1, k) && replies[k].outcome == Ok(r.value))
      && (r.Rethrown? <==> attempt <= maxRetries && AllFail(replies, attempt - 1, maxRetries)
                           && !Throttled(replies[maxRetries - 1]))
      && (r.Rethrown? ==> attempt <= maxRetries && replies[maxRetries - 1].outcome == Err(r.error))
      && (r.Rethrown? ==> !IsRateLimited(r.error))
      && (r.Undefined? <==> maxRetries < attempt
                            || (AllFail(replies, attempt - 1, maxRetries) && Throttled(replies[maxRetries - 1])))
    decreases maxRetries - attempt
  {
    if attempt <= maxRetries {
      var reply := replies[attempt - 1];
      var finished := Elapse(Pace(c), reply.latency);
      match reply.outcome
      case Ok(v) =>
        assert !AllFail(replies, attempt - 1, maxRetries);
        assert AllFail(replies, attempt - 1, attempt - 1);
      case Err(e) =>
        if IsRateLimited(e) || attempt < maxRetries {
          var wait := BackoffAfter(e, attempt);
          var next := Elapse(finished, wait.wait);
          RetryOutcome(replies, attempt + 1, maxRetries, next);
          var r := Retry(replies, attempt + 1, maxRetries, next).result;
          assert Retry(replies, attempt, maxRetries, c).result == r;
          assert AllFail(replies, attempt - 1, maxRetries) <==> AllFail(replies, attempt, maxRetries);
          if r.Returned? {
            var k :| attempt <= k < maxRetries && AllFail(replies, attempt, k) && replies[k].outcome == Ok(r.value);
            assert AllFail(replies, attempt - 1, k);
          }
          if attempt == maxRetries {
            assert Throttled(replies[maxRetries - 1]);
          }
        } else {
          assert AllFail(replies, attempt - 1, maxRetries);
        }
    }
  }

  /** A run from attempt `attempt` invokes the operation at most once per
      remaining attempt, at least once when there is an attempt, on
      consecutive attempt numbers from `attempt`. */
  predicate NumberedRun<T>(attempt: nat, maxRetries: int, run: Run<T>)
  {
    var invocations := Invocations(run.events);
    && |invocations| <= Remaining(attempt, maxRetries)
    && (attempt <= maxRetries ==> 1 <= |invocations|)
    && forall i | 0 <= i < |invocations| :: invocations[i].attempt == attempt + i
  }

  lemma NumberedNextAttempt<T>(c: Clock, attempt: nat, maxRetries: int, wait: Event, rest: Run<T>, run: Run<T>)
    requires attempt <= maxRetries
    requires wait.ThrottledWait? || wait.ErrorWait?
    requires run == Then([Paced(PaceWait(c)), Invoked(attempt, Pace(c).now)] + [wait], rest)
    requires NumberedRun(attempt + 1, maxRetries, rest)
    ensures NumberedRun(attempt, maxRetries, run)
  {
    var invoked := Invoked(attempt, Pace(c).now);
    AttemptEvents(Paced(PaceWait(c)), invoked, wait, rest.events);
    ConsecutiveAttempts(invoked, Invocations(rest.events));
  }

  lemma NumberedLastAttempt<T>(c: Clock, attempt: nat, maxRetries: int, run: Run<T>)
    requires attempt <= maxRetries
    requires run.events == [Paced(PaceWait(c)), Invoked(attempt, Pace(c).now)]
    ensures NumberedRun(attempt, maxRetries, run)
  {
    AttemptEvents(Paced(PaceWait(c)), Invoked(attempt, Pace(c).now), ErrorWait(0), []);
  }

  /** The operation is invoked at most `maxRetries` times, at least once
      when there is an attempt, on consecutive attempt numbers. */
  lemma {:induction false} RetryInvocations<T>(replies: seq<Reply<T>>, attempt: nat, maxRetries: int, c: Clock)
    requires 1 <= attempt && maxRetries <= |replies|
    ensures NumberedRun(attempt, maxRetries, Retry(replies, attempt, maxRetries, c))
    decreases maxRetries - attempt
  {
    if attempt <= maxRetries {
      var reply := replies[attempt - 1];
      if reply.outcome.Err? && (IsRateLimited(reply.outcome.error) || attempt < maxRetries) {
        var wait := BackoffAfter(reply.outcome.error, attempt);
        var next := Elapse(Elapse(Pace(c), reply.latency), wait.wait);
        RetryStep(replies, attempt, maxRetries, c);
        RetryInvocations(replies, attempt + 1, maxRetries, next);
        NumberedNextAttempt(c, attempt, maxRetries, wait, Retry(replies, attempt + 1, maxRetries, next),
                            Retry(replies, attempt, maxRetries, c));
      } else {
        RetryStop(replies, attempt, maxRetries, c);
        NumberedLastAttempt(c, attempt, maxRetries, Retry(replies, attempt, maxRetries, c));
      }
    }
  }

  /** One `rateLimit` call immediately precedes every invocation, and
      `rateLimit` is called nowhere else. */
  predicate PacedBeforeEach(events: seq<Event>)
  {
    forall i | 0 <= i < |events| ::
      && (events[i].Invoked? ==> 0 < i && events[i - 1].Paced?)
      && (events[i].Paced? ==> i + 1 < |events| && events[i + 1].Invoked?)
  }

  lemma PacedBeforeEachAppend(a: seq<Event>, b: seq<Event>)
    requires PacedBeforeEach(a) && PacedBeforeEach(b)
    requires b == [] || !b[0].Invoked?
    ensures PacedBeforeEach(a + b)
  {
    var s := a + b;
    forall i | 0 <= i < |s|
      ensures s[i].Invoked? ==> 0 < i && s[i - 1].Paced?
      ensures s[i].Paced? ==> i + 1 < |s| && s[i + 1].Invoked?
    {
      if i < |a| {
        var x := a[i];
        assert s[i] == x;
        if x.Paced? {
          assert i + 1 < |a| && a[i + 1].Invoked?;
          assert s[i + 1] == a[i + 1];
        }
        if x.Invoked? {
          assert 0 < i && a[i - 1].Paced?;
          assert s[i - 1] == a[i - 1];
        }
      } else {
        var j := i - |a|;
        var x := b[j];
        assert s[i] == x;
        if x.Invoked? {
          assert 0 < j && b[j - 1].Paced?;
          assert s[i - 1] == b[j - 1];
        }
        if x.Paced? {
          assert j + 1 < |b| && b[j + 1].Invoked?;
          assert s[i + 1] == b[j + 1];
        }
      }
    }
  }

  lemma {:induction false} RetryPacesEachInvocation<T>(replies: seq<Reply<T>>, attempt: nat, maxRetries: int, c: Clock)
    requires 1 <= attempt && maxRetries <= |replies|
    ensures var events := Retry(replies, attempt, maxRetries, c).events;
      PacedBeforeEach(events) && (events == [] || events[0].Paced?)
    decreases maxRetries - attempt
  {
    if attempt <= maxRetries {
      var started := Pace(c);
      var reply := replies[attempt - 1];
      var finished := Elapse(started, reply.latency);
      var head := [Paced(PaceWait(c)), Invoked(attempt, started.now)];
      assert PacedBeforeEach(head);
      if reply.outcome.Err? && (IsRateLimited(reply.outcome.error) || attempt < maxRetries) {
        var wait := BackoffAfter(reply.outcome.error, attempt);
        var next := Elapse(finished, wait.wait);
        var rest := Retry(replies, attempt + 1, maxRetries, next);
        RetryPacesEachInvocation(replies, attempt + 1, maxRetries, next);
        PacedBeforeEachAppend(head, [wait]);
        PacedBeforeEachAppend(head + [wait], rest.events);
        assert (head + [wait] + rest.events)[0] == Paced(PaceWait(c));
      }
    }
  }

  /** Successive invocations, listed from a previous request start `last`,
      start at least `RATE_LIMIT_DELAY` apart. */
  predicate SpacedFrom(last: int, invocations: seq<Event>)
    decreases |invocations|
  {
    invocations == []
    || (&& invocations[0].Invoked?
        && last + RATE_LIMIT_DELAY <= invocations[0].at
        && SpacedFrom(invocations[0].at, invocations[1..]))
  }

  /** The start of the latest invocation, or `initial` when there is none. */
  function LatestStart(initial: int, invocations: seq<Event>): int
    decreases |invocations|
  {
    if invocations == [] then initial
    else LatestStart(if invocations[0].Invoked? then invocations[0].at else initial, invocations[1..])
  }

  /** Spaced invocations, by index: each starts at least `RATE_LIMIT_DELAY`
      after the one before it (the first after `last`), so each starts
      later than every earlier one. */
  lemma {:induction false} SpacedApart(last: int, invocations: seq<Event>)
    requires SpacedFrom(last, invocations)
    ensures forall i | 0 <= i < |invocations| :: invocations[i].Invoked?
    ensures invocations != [] ==> last + RATE_LIMIT_DELAY <= invocations[0].at
    ensures forall i | 0 < i < |invocations| ::
      invocations[i - 1].at + RATE_LIMIT_DELAY <= invocations[i].at
    ensures forall i, j | 0 <= i < j < |invocations| :: last < invocations[i].at < invocations[j].at
    decreases |invocations|
  {
    if invocations != [] {
      var rest := invocations[1..];
      SpacedApart(invocations[0].at, rest);
      forall i | 0 < i < |invocations|
        ensures invocations[i - 1].at + RATE_LIMIT_DELAY <= invocations[i].at
      {
        if 1 < i {
          assert invocations[i - 1] == rest[i - 2] && invocations[i] == rest[i - 1];
        }
      }
      forall i, j | 0 <= i < j < |invocations|
        ensures last < invocations[i].at < invocations[j].at
      {
        assert invocations[j] == rest[j - 1];
        if 0 < i {
          assert invocations[i] == rest[i - 1];
        }
      }
    }
  }

  lemma {:induction false} SpacedExtend(last: int, invocations: seq<Event>, e: Event)
    requires SpacedFrom(last, invocations)
    requires e.Invoked? && LatestStart(last, invocations) + RATE_LIMIT_DELAY <= e.at
    ensures SpacedFrom(last, invocations + [e])
    ensures LatestStart(last, invocations + [e]) == e.at
    decreases |invocations|
  {
    if invocations != [] {
      assert (invocations + [e])[1..] == invocations[1..] + [e];
      SpacedExtend(invocations[0].at, invocations[1..], e);
    } else {
      assert [e][1..] == [];
    }
  }

  /** A run that started from clock `c` spaces its invocations from the
      `lastRequestTime` of `c`, leaves `lastRequestTime` at the start of
      its last invocation, and does not move the clock backwards. */
  predicate SpacedRun<T>(c: Clock, run: Run<T>)
  {
    var invocations := Invocations(run.events);
    && SpacedFrom(c.lastRequestTime, invocations)
    && run.clock.lastRequestTime == LatestStart(c.lastRequestTime, invocations)
    && c.now <= run.clock.now
    && (invocations != [] ==> run.clock.lastRequestTime <= run.clock.now)
  }

  /** An attempt that ends the loop is a spaced run on its own. */
  lemma SpacedLastAttempt<T>(c: Clock, attempt: nat, latency: nat, run: Run<T>)
    requires run.events == [Paced(PaceWait(c)), Invoked(attempt, Pace(c).now)]
    requires run.clock == Elapse(Pace(c), latency)
    ensures SpacedRun(c, run)
  {
    var invoked := Invoked(attempt, Pace(c).now);
    AttemptEvents(Paced(PaceWait(c)), invoked, ErrorWait(0), []);
    assert [invoked][1..] == [];
  }

  /** An attempt that backs off, followed by a spaced run from the clock
      after the backoff, is a spaced run. */
  lemma SpacedNextAttempt<T>(c: Clock, attempt: nat, latency: nat, wait: Event, rest: Run<T>, run: Run<T>)
    requires wait.ThrottledWait? || wait.ErrorWait?
    requires run == Then([Paced(PaceWait(c)), Invoked(attempt, Pace(c).now)] + [wait], rest)
    requires SpacedRun(Elapse(Elapse(Pace(c), latency), wait.wait), rest)
    ensures SpacedRun(c, run)
  {
    var invoked := Invoked(attempt, Pace(c).now);
    var later := Invocations(rest.events);
    AttemptEvents(Paced(PaceWait(c)), invoked, wait, rest.events);
    assert ([invoked] + later)[0] == invoked && ([invoked] + later)[1..] == later;
  }

  lemma SpacedStep<T>(replies: seq<Reply<T>>, attempt: nat, maxRetries: int, c: Clock)
    requires 1 <= attempt <= maxRetries <= |replies|
    requires replies[attempt - 1].outcome.Err?
    requires IsRateLimited(replies[attempt - 1].outcome.error) || attempt < maxRetries
    requires var reply := replies[attempt - 1];
      var wait := BackoffAfter(reply.outcome.error, attempt);
      SpacedRun(Elapse(Elapse(Pace(c), reply.latency), wait.wait),
                Retry(replies, attempt + 1, maxRetries, Elapse(Elapse(Pace(c), reply.latency), wait.wait)))
    ensures SpacedRun(c, Retry(replies, attempt, maxRetries, c))
  {
    var reply := replies[attempt - 1];
    var wait := BackoffAfter(reply.outcome.error, attempt);
    var next := Elapse(Elapse(Pace(c), reply.latency), wait.wait);
    RetryStep(replies, attempt, maxRetries, c);
    SpacedNextAttempt(c, attempt, reply.latency, wait, Retry(replies, attempt + 1, maxRetries, next),
                      Retry(replies, attempt, maxRetries, c));
  }

  lemma SpacedStop<T>(replies: seq<Reply<T>>, attempt: nat, maxRetries: int, c: Clock)
    requires 1 <= attempt <= maxRetries <= |replies|
    requires var o := replies[attempt - 1].outcome; o.Ok? || (!IsRateLimited(o.error) && attempt == maxRetries)
    ensures SpacedRun(c, Retry(replies, attempt, maxRetries, c))
  {
    RetryStop(replies, attempt, maxRetries, c);
    SpacedLastAttempt(c, attempt, replies[attempt - 1].latency, Retry(replies, attempt, maxRetries, c));
  }

  /** Within one run, every invocation starts at least `RATE_LIMIT_DELAY`
      after the previous one, and the first at least that long after the
      `lastRequestTime` the run started from; the run leaves
      `lastRequestTime` at the start of its last invocation. */
  lemma {:induction false} RetrySpacing<T>(replies: seq<Reply<T>>, attempt: nat, maxRetries: int, c: Clock)
    requires 1 <= attempt && maxRetries <= |replies|
    ensures SpacedRun(c, Retry(replies, attempt, maxRetries, c))
    decreases maxRetries - attempt
  {
    if attempt <= maxRetries {
      var reply := replies[attempt - 1];
      if reply.outcome.Err? && (IsRateLimited(reply.outcome.error) || attempt < maxRetries) {
        var wait := BackoffAfter(reply.outcome.error, attempt);
        RetrySpacing(replies, attempt + 1, maxRetries, Elapse(Elapse(Pace(c), reply.latency), wait.wait));
        SpacedStep(replies, attempt, maxRetries, c);
      } else {
        SpacedStop(replies, attempt, maxRetries, c);
      }
    }
  }

  predicate IsWait(e: Event)
  {
    e.ThrottledWait? || e.ErrorWait?
  }

  /** The backoff of an attempt: the doubling one after a 429 (`throttled`),
      the linear one after any other failure. */
  function ScheduledWait(throttled: bool, attempt: nat): Event
  {
    if throttled then ThrottledWait(ThrottledBackoff(attempt)) else ErrorWait(ErrorBackoff(attempt))
  }

  /** Every backoff in `events` comes straight after an invocation and is
      the backoff of that invocation's own attempt. */
  predicate WaitsFollowInvocations(events: seq<Event>, throttled: bool)
  {
    forall j | 0 <= j < |events| && IsWait(events[j]) ::
      0 < j && events[j - 1].Invoked? && events[j] == ScheduledWait(throttled, events[j - 1].attempt)
  }

  lemma WaitsFollowInvocationsPrepend(paced: Event, invoked: Event, throttled: bool, rest: seq<Event>, events: seq<Event>)
    requires paced.Paced? && invoked.Invoked?
    requires WaitsFollowInvocations(rest, throttled)
    requires events == [paced, invoked] + [ScheduledWait(throttled, invoked.attempt)] + rest
    ensures WaitsFollowInvocations(events, throttled)
  {
    forall j | 0 <= j < |events| && IsWait(events[j])
      ensures 0 < j && events[j - 1].Invoked? && events[j] == ScheduledWait(throttled, events[j - 1].attempt)
    {
      if 3 <= j {
        assert events[j] == rest[j - 3];
        if 3 < j {
          assert events[j - 1] == rest[j - 4];
        }
      }
    }
  }

  /** A run from attempt `attempt` in which every attempt got a 429: one
      invocation and one throttled backoff per remaining attempt, the
      backoffs following the doubling schedule, the last event the backoff
      of the final attempt, and the result `undefined`. */
  predicate ThrottledSchedule<T>(attempt: nat, maxRetries: int, run: Run<T>)
  {
    var n := Remaining(attempt, maxRetries);
    && run.result == Undefined
    && |Invocations(run.events)| == n
    && |Backoffs(run.events)| == n
    && (forall i | 0 <= i < n :: Backoffs(run.events)[i] == ThrottledWait(ThrottledBackoff(attempt + i)))
    && (n > 0 ==> run.events != [] && run.events[|run.events| - 1] == ThrottledWait(ThrottledBackoff(maxRetries)))
    && (n == 0 ==> run.events == [])
  }

  /** The throttled schedule, with each backoff straight after the
      invocation of its own attempt. */
  predicate ThrottledRun<T>(attempt: nat, maxRetries: int, run: Run<T>)
  {
    ThrottledSchedule(attempt, maxRetries, run) && WaitsFollowInvocations(run.events, true)
  }

  lemma ThrottledScheduleNext<T>(c: Clock, attempt: nat, maxRetries: int, rest: Run<T>, run: Run<T>)
    requires attempt <= maxRetries
    requires run == Then([Paced(PaceWait(c)), Invoked(attempt, Pace(c).now)] + [ThrottledWait(ThrottledBackoff(attempt))], rest)
    requires ThrottledSchedule(attempt + 1, maxRetries, rest)
    ensures ThrottledSchedule(attempt, maxRetries, run)
  {
    var wait := ThrottledWait(ThrottledBackoff(attempt));
    AttemptEvents(Paced(PaceWait(c)), Invoked(attempt, Pace(c).now), wait, rest.events);
    ThrottledScheduleFrom(attempt, Backoffs(rest.events));
    if rest.events != [] {
      assert run.events[|run.events| - 1] == rest.events[|rest.events| - 1];
    }
  }

  lemma ThrottledNextAttempt<T>(c: Clock, attempt: nat, maxRetries: int, rest: Run<T>, run: Run<T>)
    requires attempt <= maxRetries
    requires run == Then([Paced(PaceWait(c)), Invoked(attempt, Pace(c).now)] + [ThrottledWait(ThrottledBackoff(attempt))], rest)
    requires ThrottledRun(attempt + 1, maxRetries, rest)
    ensures ThrottledRun(attempt, maxRetries, run)
  {
    ThrottledScheduleNext(c, attempt, maxRetries, rest, run);
    WaitsFollowInvocationsPrepend(Paced(PaceWait(c)), Invoked(attempt, Pace(c).now), true, rest.events, run.events);
  }

  /** Two throttled attempts whose backoffs are both logged after the last
      invocation do not make a throttled run: the wait of attempt 1 must sit
      between the two invocations. */
  lemma BatchedBackoffsAreNotThrottledRun(c: Clock)
    ensures !ThrottledRun<int>(1, 2, Run(Undefined, [Paced(0), Invoked(1, 0), Paced(0), Invoked(2, 0),
                                                     ThrottledWait(ThrottledBackoff(1)),
                                                     ThrottledWait(ThrottledBackoff(2))], c))
  {
    var events := [Paced(0), Invoked(1, 0), Paced(0), Invoked(2, 0),
                   ThrottledWait(ThrottledBackoff(1)), ThrottledWait(ThrottledBackoff(2))];
    assert IsWait(events[5]) && !events[4].Invoked?;
  }

  /** When every attempt gets a 429, the operation is invoked on every
      attempt, each invocation is followed by the throttled backoff of its
      attempt (the last one included), and the loop ends with `undefined`. */
  lemma {:induction false} RetryThrottledThroughout<T>(replies: seq<Reply<T>>, attempt: nat, maxRetries: int, c: Clock)
    requires 1 <= attempt && maxRetries <= |replies|
    requires forall i | attempt - 1 <= i < maxRetries :: Throttled(replies[i])
    ensures ThrottledRun(attempt, maxRetries, Retry(replies, attempt, maxRetries, c))
    decreases maxRetries - attempt
  {
    if attempt <= maxRetries {
      var reply := replies[attempt - 1];
      var next := Elapse(Elapse(Pace(c), reply.latency), ThrottledBackoff(attempt));
      assert Throttled(reply);
      RetryStep(replies, attempt, maxRetries, c);
      RetryThrottledThroughout(replies, attempt + 1, maxRetries, next);
      ThrottledNextAttempt(c, attempt, maxRetries, Retry(replies, attempt + 1, maxRetries, next),
                           Retry(replies, attempt, maxRetries, c));
    }
  }

  /** A run from the first attempt in which every attempt gets a 429 ends
      in `undefined`. */
  lemma RetryThrottledOut<T>(replies: seq<Reply<T>>, maxRetries: int, c: Clock)
    requires maxRetries <= |replies|
    requires forall i | 0 <= i < maxRetries :: Throttled(replies[i])
    ensures Retry(replies, 1, maxRetries, c).result == Undefined
  {
    RetryThrottledThroughout(replies, 1, maxRetries, c);
  }

  /** A run that returns or rethrows stops right after the invocation
      that produced its result: no wait follows it. */
  lemma {:induction false} RetryEndsWithInvocation<T>(replies: seq<Reply<T>>, attempt: nat, maxRetries: int, c: Clock)
    requires 1 <= attempt && maxRetries <= |replies|
    ensures var run := Retry(replies, attempt, maxRetries, c);
      !run.result.Undefined? ==> run.events != [] && run.events[|run.events| - 1].Invoked?
    decreases maxRetries - attempt
  {
    if attempt <= maxRetries {
      var reply := replies[attempt - 1];
      if reply.outcome.Err? && (IsRateLimited(reply.outcome.error) || attempt < maxRetries) {
        var wait := BackoffAfter(reply.outcome.error, attempt);
        var next := Elapse(Elapse(Pace(c), reply.latency), wait.wait);
        var rest := Retry(replies, attempt + 1, maxRetries, next);
        RetryStep(replies, attempt, maxRetries, c);
        RetryEndsWithInvocation(replies, attempt + 1, maxRetries, next);
        var events := [Paced(PaceWait(c)), Invoked(attempt, Pace(c).now)] + [wait] + rest.events;
        if rest.events != [] {
          assert events[|events| - 1] == rest.events[|rest.events| - 1];
        }
      } else {
        RetryStop(replies, attempt, maxRetries, c);
      }
    }
  }

  lemma RemainingShift(attempt: nat, maxRetries: int, f: nat)
    requires attempt < maxRetries && 0 < f
    ensures Min(f - 1 + 1, Remaining(attempt + 1, maxRetries)) == Min(f + 1, Remaining(attempt, maxRetries)) - 1
  {
  }

  /** A run from attempt `attempt` whose first `f` attempts fail without a
      429: it returns the value of attempt `attempt + f` when that attempt
      exists, and rethrows the final attempt's error otherwise; it invokes
      the operation `min(f + 1, attempts left)` times, with one linear
      backoff between consecutive invocations, straight after the
      invocation of the attempt it belongs to. */
  ghost predicate FailuresRun<T>(replies: seq<Reply<T>>, attempt: nat, maxRetries: int, f: nat, run: Run<T>)
    requires 1 <= attempt <= maxRetries <= |replies|
  {
    var n := Min(f + 1, Remaining(attempt, maxRetries));
    && (attempt + f <= maxRetries ==> replies[attempt - 1 + f].outcome.Ok?
                                       && run.result == Returned(replies[attempt - 1 + f].outcome.value))
    && (maxRetries < attempt + f ==> replies[maxRetries - 1].outcome.Err?
                                      && run.result == Rethrown(replies[maxRetries - 1].outcome.error))
    && |Invocations(run.events)| == n
    && |Backoffs(run.events)| == n - 1
    && (forall i | 0 <= i < n - 1 :: Backoffs(run.events)[i] == ErrorWait(ErrorBackoff(attempt + i)))
    && WaitsFollowInvocations(run.events, false)
  }

  lemma FailuresNextAttempt<T>(replies: seq<Reply<T>>, attempt: nat, maxRetries: int, f: nat, c: Clock,
                               rest: Run<T>, run: Run<T>)
    requires 1 <= attempt < maxRetries <= |replies| && 0 < f
    requires run == Then([Paced(PaceWait(c)), Invoked(attempt, Pace(c).now)] + [ErrorWait(ErrorBackoff(attempt))], rest)
    requires FailuresRun(replies, attempt + 1, maxRetries, f - 1, rest)
    ensures FailuresRun(replies, attempt, maxRetries, f, run)
  {
    var wait := ErrorWait(ErrorBackoff(attempt));
    AttemptEvents(Paced(PaceWait(c)), Invoked(attempt, Pace(c).now), wait, rest.events);
    ErrorScheduleFrom(attempt, Backoffs(rest.events));
    WaitsFollowInvocationsPrepend(Paced(PaceWait(c)), Invoked(attempt, Pace(c).now), false, rest.events, run.events);
    RemainingShift(attempt, maxRetries, f);
  }

  lemma FailuresLastAttempt<T>(replies: seq<Reply<T>>, attempt: nat, maxRetries: int, f: nat, c: Clock, run: Run<T>)
    requires 1 <= attempt <= maxRetries <= |replies|
    requires f == 0 || attempt == maxRetries
    requires attempt + f <= maxRetries ==> replies[attempt - 1 + f].outcome.Ok?
    requires 0 < f ==> replies[attempt - 1].outcome.Err?
    requires run.events == [Paced(PaceWait(c)), Invoked(attempt, Pace(c).now)]
    requires run.result == match replies[attempt - 1].outcome
                           case Ok(v) => Returned(v)
                           case Err(e) => Rethrown(e)
    ensures FailuresRun(replies, attempt, maxRetries, f, run)
  {
    AttemptEvents(Paced(PaceWait(c)), Invoked(attempt, Pace(c).now), ErrorWait(0), []);
  }

  /** After `f` failures that are not 429s: when attempt `attempt + f`
      exists and succeeds, its value is returned after `f + 1` invocations;
      when the failures reach the last attempt, that attempt's error is
      rethrown. Either way the invocation count is `min(f + 1, attempts)`
      and the k-th failure that is not the last waits `1000 * k` ms. */
  lemma {:induction false} RetryAfterFailures<T>(replies: seq<Reply<T>>, attempt: nat, maxRetries: int, c: Clock, f: nat)
    requires 1 <= attempt <= maxRetries <= |replies|
    requires forall i | attempt - 1 <= i < attempt - 1 + f && i < maxRetries ::
               replies[i].outcome.Err? && !IsRateLimited(replies[i].outcome.error)
    requires attempt + f <= maxRetries ==> replies[attempt - 1 + f].outcome.Ok?
    ensures FailuresRun(replies, attempt, maxRetries, f, Retry(replies, attempt, maxRetries, c))
    decreases maxRetries - attempt
  {
    var reply := replies[attempt - 1];
    if f > 0 && attempt < maxRetries {
      assert reply.outcome.Err? && !IsRateLimited(reply.outcome.error);
      var next := Elapse(Elapse(Pace(c), reply.latency), ErrorBackoff(attempt));
      RetryStep(replies, attempt, maxRetries, c);
      RetryAfterFailures(replies, attempt + 1, maxRetries, next, f - 1);
      FailuresNextAttempt(replies, attempt, maxRetries, f, c, Retry(replies, attempt + 1, maxRetries, next),
                          Retry(replies, attempt, maxRetries, c));
    } else {
      assert f > 0 ==> reply.outcome.Err? && !IsRateLimited(reply.outcome.error);
      RetryStop(replies, attempt, maxRetries, c);
      FailuresLastAttempt(replies, attempt, maxRetries, f, c, Retry(replies, attempt, maxRetries, c));
    }
  }

  /**
    The evidently intended behaviour once retries run out on 429s: the
    loop as written, followed by rethrowing the final attempt's error when
    it fell through, so the endpoint's rate-limit message can be reached.
  */
  function RetryIntended<T>(replies: seq<Reply<T>>, maxRetries: int, c: Clock): (run: Run<T>)
    requires maxRetries <= |replies|
    ensures run.events == Retry(replies, 1, maxRetries, c).events
    ensures run.clock == Retry(replies, 1, maxRetries, c).clock
  {
    var run := Retry(replies, 1, maxRetries, c);
    if run.result.Undefined? && 1 <= maxRetries && replies[maxRetries - 1].outcome.Err?
    then run.(result := Rethrown(replies[maxRetries - 1].outcome.error))
    else run
  }

  /** With the correction, a run that has at least one attempt never ends
      in `undefined`, and it ends in a rethrown 429 exactly when the
      as-written loop would have fallen through. */
  lemma RetryIntendedRethrows429<T>(replies: seq<Reply<T>>, maxRetries: int, c: Clock)
    requires 1 <= maxRetries <= |replies|
    ensures var r := RetryIntended(replies, maxRetries, c).result;
      && !r.Undefined?
      && ((r.Rethrown? && IsRateLimited(r.error)) <==> Retry(replies, 1, maxRetries, c).result.Undefined?)
      && (!Retry(replies, 1, maxRetries, c).result.Undefined? ==> r == Retry(replies, 1, maxRetries, c).result)
  {
    RetryOutcome(replies, 1, maxRetries, c);
  }
}
