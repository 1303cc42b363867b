/**
  Request pacing of the price service: the spacing that `rateLimit` enforces
  between outbound requests and the two backoff schedules of `retryRequest`.
  Times are integer milliseconds on an abstract clock that stands for
  `Date.now()`; a wait advances that clock by exactly its length.
*/
module Pacing {
  /** Minimum spacing between the starts of two outbound requests. */
  const RATE_LIMIT_DELAY: nat := 1200
  /** Value of the module-level `lastRequestTime` before the first request. */
  const INITIAL_LAST_REQUEST_TIME: int := 0
  /** Ceiling on the wait after an HTTP 429. */
  const MAX_THROTTLED_BACKOFF: nat := 10000
  /** One second: the unit of both backoff schedules. */
  const BACKOFF_UNIT: nat := 1000

  function Min(a: int, b: int): int
  {
    if a <= b then a else b
  }

  /** The time as the rate limiter sees it: the current time and the
      start of the last permitted request. */
  datatype Clock = Clock(now: int, lastRequestTime: int)

  /** How long `rateLimit` sleeps: the least wait after which at least
      `RATE_LIMIT_DELAY` has passed since `lastRequestTime`. */
  function PaceWait(c: Clock): (w: nat)
    ensures c.lastRequestTime + RATE_LIMIT_DELAY <= c.now + w
    ensures w > 0 ==> c.now + w == c.lastRequestTime + RATE_LIMIT_DELAY
  {
    var sinceLast := c.now - c.lastRequestTime;
    if sinceLast < RATE_LIMIT_DELAY then RATE_LIMIT_DELAY - sinceLast else 0
  }

  /** The clock after one `rateLimit` call: it has slept `PaceWait(c)` and
      recorded the time it woke up as the new `lastRequestTime`. */
  function Pace(c: Clock): (c': Clock)
    ensures c'.now == c'.lastRequestTime
    ensures c'.now - c.now == PaceWait(c)
    ensures c.lastRequestTime + RATE_LIMIT_DELAY <= c'.lastRequestTime
  {
    var woke := c.now + PaceWait(c);
    Clock(woke, woke)
  }

  /** The rate-limit wait is `max(0, 1200 - (now - lastRequestTime))`, no
      other wait is both long enough and shorter, and on a clock that has
      not gone backwards it never exceeds the delay itself. */
  lemma PaceWaitIsLeast(c: Clock, other: nat)
    requires c.lastRequestTime + RATE_LIMIT_DELAY <= c.now + other
    ensures PaceWait(c) <= other
    ensures PaceWait(c) == if c.now - c.lastRequestTime < RATE_LIMIT_DELAY
                           then RATE_LIMIT_DELAY - (c.now - c.lastRequestTime) else 0
    ensures c.lastRequestTime <= c.now ==> PaceWait(c) <= RATE_LIMIT_DELAY
  {
  }

  /** `Math.pow(2, n)` for a non-negative integer exponent. */
  function Pow2(n: nat): (p: nat)
    ensures 1 <= p
  {
    if n == 0 then 1 else 2 * Pow2(n - 1)
  }

  lemma {:induction false} Pow2Monotone(a: nat, b: nat)
    requires a <= b
    ensures Pow2(a) <= Pow2(b)
    decreases b - a
  {
    if a < b {
      Pow2Monotone(a, b - 1);
    }
  }

  /** `Math.min(1000 * Math.pow(2, attempt), 10000)`: the wait after a 429. */
  function ThrottledBackoff(attempt: nat): (w: nat)
    ensures w <= MAX_THROTTLED_BACKOFF && w <= BACKOFF_UNIT * Pow2(attempt)
    ensures w == MAX_THROTTLED_BACKOFF || w == BACKOFF_UNIT * Pow2(attempt)
  {
    Min(BACKOFF_UNIT * Pow2(attempt), MAX_THROTTLED_BACKOFF)
  }

  /** `1000 * attempt`: the wait after any other failed attempt. */
  function ErrorBackoff(attempt: nat): nat
  {
    BACKOFF_UNIT * attempt
  }

  /** The 429 backoff of the first three attempts doubles from two seconds. */
  lemma ThrottledBackoffSchedule()
    ensures ThrottledBackoff(1) == 2000
    ensures ThrottledBackoff(2) == 4000
    ensures ThrottledBackoff(3) == 8000
  {
  }

  /** From the fourth attempt on, the 429 backoff is the 10-second cap. */
  lemma {:induction false} ThrottledBackoffCapped(attempt: nat)
    requires 4 <= attempt
    ensures ThrottledBackoff(attempt) == MAX_THROTTLED_BACKOFF
  {
    Pow2Monotone(4, attempt);
  }

  /** The 429 backoff never shrinks as the attempt number grows. */
  lemma {:induction false} ThrottledBackoffMonotone(a: nat, b: nat)
    requires a <= b
    ensures ThrottledBackoff(a) <= ThrottledBackoff(b)
  {
    Pow2Monotone(a, b);
  }

  /** Every 429 backoff of a real attempt already covers the rate-limit
      delay, so the `rateLimit` call that follows it never sleeps. */
  lemma {:induction false} ThrottledBackoffCoversDelay(attempt: nat, c: Clock)
    requires 1 <= attempt
    requires c.lastRequestTime <= c.now
    ensures RATE_LIMIT_DELAY <= ThrottledBackoff(attempt)
    ensures PaceWait(c.(now := c.now + ThrottledBackoff(attempt))) == 0
  {
    Pow2Monotone(1, attempt);
  }
}
