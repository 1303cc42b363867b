/**
  The price service as a stateful object: the module-level
  `lastRequestTime` that every request shares and the clock that the sleeps
  advance, plus, as ghost state, the history of the requests the service
  has started. `rateLimit` and `retryRequest` are methods that change that
  state step by step; each is proved to do what the corresponding function
  of `Pacing`/`Retrying` says, and to keep every request the service has
  ever started at least `RATE_LIMIT_DELAY` after the one before it.

  The operation a request runs is given as the sequence of its replies,
  one per attempt; the endpoints pass three, one for each default attempt.
*/
module CryptoService {
  import opened Wrappers
  import opened Pacing
  import opened Retrying
  import opened Endpoints

  lemma AppendAssoc<X>(a: seq<X>, b: seq<X>, x: X)
    ensures a + b + [x] == a + (b + [x])
  {
  }

  class Service {
    /** The current time, `Date.now()`. */
    var now: int
    /** The start of the last request `rateLimit` let through. */
    var lastRequestTime: int
    /** Every invocation of a request function so far, oldest first. */
    ghost var requests: seq<Event>

    function ClockState(): Clock
      reads this
    {
      Clock(now, lastRequestTime)
    }

    /** Time does not run backwards past the last request, and the
        requests started so far are spaced by the rate limiter, the latest
        of them no later than `lastRequestTime`. */
    ghost predicate Valid()
      reads this
    {
      && lastRequestTime <= now
      && SpacedFrom(INITIAL_LAST_REQUEST_TIME, requests)
      && LatestStart(INITIAL_LAST_REQUEST_TIME, requests) <= lastRequestTime
    }

    /** The module as loaded at time `start`: no request made yet. */
    constructor(start: int)
      requires INITIAL_LAST_REQUEST_TIME <= start
      ensures Valid()
      ensures now == start && lastRequestTime == INITIAL_LAST_REQUEST_TIME && requests == []
    {
      now := start;
      lastRequestTime := INITIAL_LAST_REQUEST_TIME;
      requests := [];
    }

    /** `rateLimit`: sleep until `RATE_LIMIT_DELAY` has passed since the
        last request, then record the current time as the new one. */
    method RateLimit()
      requires Valid()
      modifies this
      ensures Valid()
      ensures ClockState() == Pace(old(ClockState()))
      ensures requests == old(requests)
      ensures LatestStart(INITIAL_LAST_REQUEST_TIME, requests) + RATE_LIMIT_DELAY <= lastRequestTime
    {
      var timeSinceLastRequest := now - lastRequestTime;
      if timeSinceLastRequest < RATE_LIMIT_DELAY {
        now := now + (RATE_LIMIT_DELAY - timeSinceLastRequest);
      }
      lastRequestTime := now;
    }

    /** `requestFn()`: the operation is invoked now, takes the reply's
        latency, and settles with the reply's outcome. */
    method Request<T>(reply: Reply<T>, attempt: nat) returns (outcome: Result<T, Thrown>)
      requires Valid()
      requires LatestStart(INITIAL_LAST_REQUEST_TIME, requests) + RATE_LIMIT_DELAY <= lastRequestTime
      requires lastRequestTime == now
      modifies this
      ensures Valid()
      ensures outcome == reply.outcome
      ensures ClockState() == Elapse(old(ClockState()), reply.latency)
      ensures requests == old(requests) + [Invoked(attempt, old(now))]
    {
      var invoked := Invoked(attempt, now);
      SpacedExtend(INITIAL_LAST_REQUEST_TIME, requests, invoked);
      requests := requests + [invoked];
      now := now + reply.latency;
      outcome := reply.outcome;
    }

    /** The `try` block of one attempt: `await rateLimit()`, then
        `requestFn()`. */
    method Attempt<T>(reply: Reply<T>, attempt: nat) returns (outcome: Result<T, Thrown>)
      requires Valid()
      modifies this
      ensures Valid()
      ensures outcome == reply.outcome
      ensures ClockState() == Elapse(Pace(old(ClockState())), reply.latency)
      ensures requests == old(requests) + [Invoked(attempt, Pace(old(ClockState())).now)]
    {
      RateLimit();
      outcome := Request(reply, attempt);
    }

    /** `await new Promise((resolve) => setTimeout(resolve, ms))` */
    method Sleep(ms: nat)
      requires Valid()
      modifies this
      ensures Valid()
      ensures ClockState() == Elapse(old(ClockState()), ms)
      ensures requests == old(requests)
    {
      now := now + ms;
    }

    /** The `catch` block of one attempt: after a 429, wait the throttled
        backoff and go on; after any other error, rethrow it on the last
        attempt, or else wait the linear backoff and go on. */
    method Catch(e: Thrown, attempt: nat, maxRetries: int) returns (again: bool)
      requires Valid()
      modifies this
      ensures Valid()
      ensures again <==> IsRateLimited(e) || attempt != maxRetries
      ensures again ==> ClockState() == Elapse(old(ClockState()), BackoffAfter(e, attempt).wait)
      ensures !again ==> ClockState() == old(ClockState())
      ensures requests == old(requests)
    {
      if IsRateLimited(e) {
        Sleep(ThrottledBackoff(attempt));
        return true;
      }
      if attempt == maxRetries {
        return false;
      }
      Sleep(ErrorBackoff(attempt));
      return true;
    }

    /** `retryRequest(requestFn, maxRetries)`: the attempt loop, proved to
        settle and leave the clock exactly as `Retry` says, and to start
        exactly the requests that `Retry` invokes. */
    method RetryRequest<T>(replies: seq<Reply<T>>, maxRetries: int) returns (r: RetryResult<T>)
      requires Valid()
      requires maxRetries <= |replies|
      modifies this
      ensures Valid()
      ensures var run := Retry(replies, 1, maxRetries, old(ClockState()));
        && r == run.result
        && ClockState() == run.clock
        && requests == old(requests) + Invocations(run.events)
    {
      ghost var clock := ClockState();
      ghost var run := Retry(replies, 1, maxRetries, clock);
      ghost var done: seq<Event> := [];
      ghost var started: seq<Event> := [];
      var attempt := 1;
      while attempt <= maxRetries
        invariant 1 <= attempt
        invariant Valid()
        invariant ClockState() == clock
        invariant requests == old(requests) + started
        invariant started == Invocations(done)
        invariant Then(done, Retry(replies, attempt, maxRetries, clock)) == run
        decreases maxRetries - attempt
      {
        var reply := replies[attempt - 1];
        var outcome := Attempt(reply, attempt);
        ghost var paced, invoked := Paced(PaceWait(clock)), Invoked(attempt, Pace(clock).now);
        AttemptInvocations(done, paced, invoked, ErrorWait(0));
        AppendAssoc(old(requests), started, invoked);
        if outcome.Ok? {
          RetryFinishes(replies, attempt, maxRetries, clock, done, run);
          return Returned(outcome.value);
        }
        var again := Catch(outcome.error, attempt, maxRetries);
        if !again {
          RetryFinishes(replies, attempt, maxRetries, clock, done, run);
          return Rethrown(outcome.error);
        }
        ghost var wait := BackoffAfter(outcome.error, attempt);
        RetryContinues(replies, attempt, maxRetries, clock, done, run);
        AttemptInvocations(done, paced, invoked, wait);
        done := done + ([paced, invoked] + [wait]);
        started := started + [invoked];
        clock := Elapse(Elapse(Pace(clock), reply.latency), wait.wait);
        attempt := attempt + 1;
        assert Then(done, Retry(replies, attempt, maxRetries, clock)) == run;
      }
      assert done + [] == done;
      return Undefined;
    }

    /** `getCurrentPrice(tokenId)` */
    method GetCurrentPrice(tokenId: string, replies: seq<Reply<Response<SimplePrice>>>)
      returns (r: Result<real, UserError>)
      requires Valid()
      requires DEFAULT_MAX_RETRIES <= |replies|
      modifies this
      ensures Valid()
      ensures var run := Retry(replies, 1, DEFAULT_MAX_RETRIES, old(ClockState()));
        && r == CurrentPrice(tokenId, run.result)
        && ClockState() == run.clock
        && requests == old(requests) + Invocations(run.events)
    {
      var response := RetryRequest(replies, DEFAULT_MAX_RETRIES);
      r := CurrentPrice(tokenId, response);
    }

    /** `getHistoricalData(tokenId)` */
    method GetHistoricalData(replies: seq<Reply<Response<MarketChart>>>)
      returns (r: Result<seq<PricePoint>, UserError>)
      requires Valid()
      requires DEFAULT_MAX_RETRIES <= |replies|
      modifies this
      ensures Valid()
      ensures var run := Retry(replies, 1, DEFAULT_MAX_RETRIES, old(ClockState()));
        && r == HistoricalData(run.result)
        && ClockState() == run.clock
        && requests == old(requests) + Invocations(run.events)
    {
      var response := RetryRequest(replies, DEFAULT_MAX_RETRIES);
      r := HistoricalData(response);
    }

    /** `getTokenInfo(tokenId)` */
    method GetTokenInfo(replies: seq<Reply<Response<Coin>>>)
      returns (r: Result<TokenInfo, UserError>)
      requires Valid()
      requires DEFAULT_MAX_RETRIES <= |replies|
      modifies this
      ensures Valid()
      ensures var run := Retry(replies, 1, DEFAULT_MAX_RETRIES, old(ClockState()));
        && r == TokenInfoOf(run.result)
        && ClockState() == run.clock
        && requests == old(requests) + Invocations(run.events)
    {
      var response := RetryRequest(replies, DEFAULT_MAX_RETRIES);
      r := TokenInfoOf(response);
    }
  }


  /** However many requests a service has served, the requests it started
      are at least `RATE_LIMIT_DELAY` apart, in the order they were made. */
  lemma ValidServiceIsSpaced(s: Service)
    requires s.Valid()
    ensures forall i | 0 <= i < |s.requests| :: s.requests[i].Invoked?
    ensures forall i | 0 < i < |s.requests| ::
      s.requests[i - 1].at + RATE_LIMIT_DELAY <= s.requests[i].at
    ensures forall i, j | 0 <= i < j < |s.requests| :: s.requests[i].at < s.requests[j].at
  {
    SpacedApart(INITIAL_LAST_REQUEST_TIME, s.requests);
  }
}
