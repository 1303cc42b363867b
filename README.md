# Request pacing and retries of the crypto price service

This project models the price service in `src/services/cryptoService.js` in
Dafny. It covers the three parts of that module that carry behaviour:

- the rate limiter `rateLimit`, which keeps the module-level `lastRequestTime`
  and sleeps so that requests start at least `RATE_LIMIT_DELAY` (1200 ms)
  apart;
- the retry loop `retryRequest`, which makes up to `maxRetries` (default 3)
  attempts:
  - after an HTTP 429 it waits `min(1000 * 2^attempt, 10000)` ms and moves on,
    even after the last attempt;
  - after any other error it waits `1000 * attempt` ms, or rethrows the error
    on the last attempt;
  - it returns `undefined` when the loop runs out;
- the post-processing of `getCurrentPrice`, `getHistoricalData` and
  `getTokenInfo`:
  - reading `response.data`;
  - the validity checks;
  - reshaping the body;
  - turning every error into one of five user-facing messages.

Layout:

- `wrappers.dfy` (`Wrappers`) holds `Option` (a value that may be
  `undefined`) and `Result` (a value, or what was thrown).
- `pacing.dfy` (`Pacing`) holds the clock, the rate-limit wait and the two
  backoff formulas.
- `retry.dfy` (`Retrying`) holds `Retry`, a function that says what
  `retryRequest` does.
  - The operation is given as `replies`, the answer it gives on each attempt
    together with how long it took.
  - Everything the loop does is recorded as a sequence of events: rate-limit
    sleeps, invocations and backoff waits.
  - The lemmas state the outcome, the invocation count and numbering, the
    pacing before every invocation, the spacing of request starts, and both
    backoff schedules.
- `endpoints.dfy` (`Endpoints`) holds the three endpoints as functions of
  what `retryRequest` settled with.
- `service.dfy` (`CryptoService`) holds the stateful side as class `Service`.
  - Fields: the clock `now`, `lastRequestTime`, and a ghost history of every
    request started.
  - Methods: `RateLimit`, the `RetryRequest` loop and the endpoint methods.
  - Each method is proved to do exactly what the functions above say.
  - Every method keeps the invariant that all requests the service ever
    started are at least 1200 ms apart.

`Date.now()` and `setTimeout` become an integer clock, and a sleep advances it
by exactly its length. What `Date.now()` advances by during the request
itself is the reply's latency.

## Model

| member | source | states |
|---|---|---|
| Pacing.PaceWait | src/services/cryptoService.js:24-31 | the sleep of `rateLimit` brings the clock at least 1200 ms past `lastRequestTime`; when it sleeps at all, it wakes exactly 1200 ms after `lastRequestTime` |
| Pacing.Pace | src/services/cryptoService.js:24-33 | after `rateLimit`, `lastRequestTime` is the current time, the clock has advanced by exactly the wait, and `lastRequestTime` is at least 1200 ms after its previous value |
| Pacing.PaceWaitIsLeast | src/services/cryptoService.js:26-30 | the wait is `max(0, 1200 - (now - lastRequestTime))`, no shorter wait is enough, and on a clock not behind `lastRequestTime` it never exceeds 1200 ms |
| Pacing.ThrottledBackoff | src/services/cryptoService.js:44 | the 429 backoff never exceeds 10000 ms or `1000 * 2^attempt`, and is one of the two |
| Pacing.ErrorBackoff | src/services/cryptoService.js:55 | no contract; defines the wait after a failure other than a 429 as `1000 * attempt` ms |
| Pacing.ThrottledBackoffSchedule | src/services/cryptoService.js:44 | the 429 backoff is 2000, 4000 and 8000 ms for attempts 1 to 3 |
| Pacing.ThrottledBackoffCapped | src/services/cryptoService.js:44 | from attempt 4 on, the 429 backoff is the 10000 ms cap |
| Pacing.ThrottledBackoffMonotone | src/services/cryptoService.js:44 | the 429 backoff never decreases as the attempt number grows |
| Pacing.ThrottledBackoffCoversDelay | src/services/cryptoService.js:42-47 | every 429 backoff is at least 1200 ms, so the `rateLimit` call of the next attempt does not sleep |
| Retrying.Retry | src/services/cryptoService.js:36-58 | no contract; defines the loop as a run (result, log of rate-limit calls, invocations and backoffs, final clock) from attempt `attempt` on; the lemmas below state what it does |
| Retrying.RetryNonPositive | src/services/cryptoService.js:37 | with `maxRetries <= 0` the loop body never runs: nothing is invoked, the clock does not move, the result is `undefined` |
| Retrying.RetrySucceedsFirstTime | src/services/cryptoService.js:39-40 | when the first attempt succeeds, its value is returned after exactly one rate-limit call and one invocation, with no backoff |
| Retrying.RetryOutcome | src/services/cryptoService.js:36-58 | the run returns a value iff some attempt succeeds, and then the first success; it rethrows iff every attempt fails and the last error is not a 429, and rethrows exactly that error; it returns `undefined` iff there is no attempt or every attempt fails and the last is a 429; so a 429 never leaves `retryRequest` |
| Retrying.RetryInvocations | src/services/cryptoService.js:37-40 | the operation is invoked at most `maxRetries` times, at least once when there is an attempt, with attempts numbered 1, 2, … in order |
| Retrying.RetryPacesEachInvocation | src/services/cryptoService.js:39-40 | every invocation comes right after a rate-limit call, and every rate-limit call right before an invocation |
| Retrying.RetrySpacing | src/services/cryptoService.js:37-40 | within a run, each invocation starts at least 1200 ms after the previous one (the first after the starting `lastRequestTime`); the run leaves `lastRequestTime` at its last invocation, and the clock never goes back |
| Retrying.RetryThrottledThroughout | src/services/cryptoService.js:42-58 | when every attempt gets a 429, all `maxRetries` attempts invoke the operation; each invocation is followed directly by the 429 backoff of its own attempt, `min(1000 * 2^k, 10000)`, so backoff k sits between invocations k and k + 1 and the last backoff ends the run; the run returns `undefined` |
| Retrying.RetryThrottledOut | src/services/cryptoService.js:42-58 | a run in which every attempt gets a 429 ends in `undefined`: nothing is returned and nothing is rethrown |
| Retrying.BatchedBackoffsAreNotThrottledRun | src/services/cryptoService.js:42-47 | a log of two throttled attempts with both backoffs after the second invocation is not what the loop produces: the first backoff must come before the second attempt |
| Retrying.RetryEndsWithInvocation | src/services/cryptoService.js:39-52 | a run that returns or rethrows ends with the invocation that settled it, with no wait after it |
| Retrying.RetryAfterFailures | src/services/cryptoService.js:50-55 | after `f` non-429 failures, the operation is invoked `f + 1` times (or `maxRetries` times if fewer); the backoff after failure `k` is `1000 * k` ms and comes directly after the invocation of attempt `k`, before the next one; the run returns the success or rethrows the last error |
| Retrying.SpacedApart | src/services/cryptoService.js:24-33 | invocations spaced by the rate limiter start, by index, at least 1200 ms after their predecessor and strictly later than every earlier one |
| Retrying.RetryIntended | src/services/cryptoService.js:57-58 | the corrected loop makes the same calls and waits, and leaves the same clock, as the code as written |
| Retrying.RetryIntendedRethrows429 | src/services/cryptoService.js:42-58 | the corrected loop never returns `undefined`; it rethrows a 429 exactly when the code as written falls through, and otherwise settles the same way |
| Endpoints.Message | src/services/cryptoService.js:82-155 | no contract; defines the text of each error an endpoint throws, the literals at lines 82, 86, 89, 126, 129 and 155 |
| Endpoints.Classify | src/services/cryptoService.js:78-90 | the rate-limit message iff the error has status 429; the timeout message iff it is not a 429, has code `ECONNABORTED`, and the endpoint is not `getTokenInfo` (lines 151-155 have no timeout branch); otherwise the endpoint's own generic message |
| Endpoints.UsdPrice | src/services/cryptoService.js:73-77 | a price is accepted iff the token has a `usd` entry that is present and not 0, and it is that entry; otherwise the invalid-data error |
| Endpoints.CurrentPrice | src/services/cryptoService.js:61-91 | no contract; defines `getCurrentPrice` on the outcome of `retryRequest`: the `try` block, then the `catch` block's message |
| Endpoints.CurrentPriceValidity | src/services/cryptoService.js:61-91 | `getCurrentPrice` yields a price iff the request returned a body with a truthy `usd` price for the token, and yields that price; a body without one gives the generic message |
| Endpoints.ToPoints | src/services/cryptoService.js:114-117 | the series has one point per `[timestamp, price]` pair, in order, with `x` the pair's date and `y` its price |
| Endpoints.HistoricalData | src/services/cryptoService.js:94-131 | no contract; defines `getHistoricalData` on the outcome of `retryRequest`: the `try` block, then the `catch` block's message |
| Endpoints.HistoricalSeries | src/services/cryptoService.js:110-117 | `getHistoricalData` yields a series iff the body has a `prices` array whose timestamps are valid dates, and then the series of `ToPoints`; any other body gives the generic message |
| Endpoints.ToUpper | src/services/cryptoService.js:144 | upper-casing keeps the length and maps each character by itself |
| Endpoints.ToUpperNormalizes | src/services/cryptoService.js:144 | an upper-cased symbol has no lower-case letter and upper-casing it again changes nothing |
| Endpoints.Project | src/services/cryptoService.js:142-147 | the token info exists iff the body has a `symbol` and an `image`; it has the body's `id` and `name`, the symbol upper-cased and `image.small`; otherwise a `TypeError` |
| Endpoints.TokenInfoOf | src/services/cryptoService.js:134-157 | no contract; defines `getTokenInfo` on the outcome of `retryRequest`: the `try` block, then the `catch` block's message (no timeout branch) |
| Endpoints.TokenInfoOfBitcoin | src/services/cryptoService.js:142-147 | the bitcoin body becomes `{id: "bitcoin", symbol: "BTC", name: "Bitcoin", image: image.small}` |
| Endpoints.ErrorMessages | src/services/cryptoService.js:148-156 | an error rethrown by `retryRequest` reaches each endpoint's caller as the classified message; a timeout in `getTokenInfo` gives its generic message |
| Endpoints.RateLimitMessageNeeds429 | src/services/cryptoService.js:81-83 | each endpoint shows the rate-limit message iff `retryRequest` rethrew a 429 |
| Endpoints.RateLimitMessageUnreachable | src/services/cryptoService.js:121-123 | with the default three attempts, no endpoint can ever show the rate-limit message, whatever the replies |
| Endpoints.ThrottledOutShowsGenericMessage | src/services/cryptoService.js:57-58 | when all three attempts get a 429, each endpoint shows its generic failure message; for `getCurrentPrice` the text is "Failed to fetch current price. Please try again later." |
| Endpoints.IntendedThrottledOutShowsRateLimitMessage | src/services/cryptoService.js:57-58 | with the corrected loop, an endpoint shows the rate-limit message exactly on the runs where the code as written falls through, in particular when every attempt gets a 429; when all three attempts get a 429, `getCurrentPrice` shows "Rate limit exceeded. Please wait a moment and try again." |
| CryptoService.Service.constructor | src/services/cryptoService.js:7 | a fresh module has `lastRequestTime = 0`, no request started, and a valid state |
| CryptoService.Service.RateLimit | src/services/cryptoService.js:24-33 | `rateLimit` moves the clock and `lastRequestTime` exactly as `Pace`, starts no request, and leaves `lastRequestTime` at least 1200 ms after the latest request |
| CryptoService.Service.Request | src/services/cryptoService.js:40 | invoking the operation appends one request that starts now, advances the clock by its latency, and settles with its outcome |
| CryptoService.Service.Attempt | src/services/cryptoService.js:38-40 | one `try` block is one rate-limit call followed by one invocation |
| CryptoService.Service.Sleep | src/services/cryptoService.js:46 | a sleep advances the clock by exactly its length and changes nothing else |
| CryptoService.Service.Catch | src/services/cryptoService.js:41-56 | the `catch` block goes on iff the error is a 429 or the attempt is not the last, after waiting the backoff for that error; otherwise it waits nothing, so the error is rethrown |
| CryptoService.Service.RetryRequest | src/services/cryptoService.js:36-58 | the loop settles, leaves the clock and starts requests exactly as `Retry` says, and keeps every request the service ever started at least 1200 ms apart |
| CryptoService.Service.GetCurrentPrice | src/services/cryptoService.js:61-91 | `getCurrentPrice` is `CurrentPrice` of the outcome of three paced attempts |
| CryptoService.Service.GetHistoricalData | src/services/cryptoService.js:94-131 | `getHistoricalData` is `HistoricalData` of the outcome of three paced attempts |
| CryptoService.Service.GetTokenInfo | src/services/cryptoService.js:134-157 | `getTokenInfo` is `TokenInfoOf` of the outcome of three paced attempts |
| CryptoService.ValidServiceIsSpaced | src/services/cryptoService.js:24-33 | in a valid service, every request started at least 1200 ms after the one before it, and starts are strictly increasing |

## Left out

- The HTTP calls through axios (URLs, query parameters, the 10 s and 15 s request timeouts) are not modelled. The operation is an input: the sequence of its replies, each an outcome and a latency. A timed-out request is a reply whose error has code `ECONNABORTED`.
- CryptoService.Service.RetryRequest: needs one reply per possible attempt (`maxRetries <= |replies|`). This only sizes the input; the source puts no such demand on its callers.
- The endpoints' `tokenId` is only part of the URL in `getHistoricalData` and `getTokenInfo`, so those methods do not take it.
- `Date.now()` and `setTimeout` are an integer clock that a sleep advances by exactly its length. Timers that fire late are not modelled.
- Concurrent callers are not modelled. In JavaScript they interleave at every `await` and can race on `lastRequestTime`. The model is sequential: one endpoint call at a time. The spacing invariant is proved for that use only.
- `console.warn` and `console.error` logging is left out; it is diagnostic output.
- `new Date(timestamp).toISOString()` is kept symbolic as `IsoTime(timestamp)`. Only its failure is modelled: a timestamp more than 8.64e15 ms from the epoch throws a `RangeError`. The ISO string format itself is not modelled.
- The 7-day window arithmetic (lines 96-97) is not modelled; it only feeds the URL.
- The `AVAILABLE_TOKENS` catalogue is constant data and is left out.
- Prices are exact reals, not IEEE doubles. A `NaN` price, which is falsy, is not modelled. Timestamps are integer milliseconds.
- A response body is always an object of the expected shape, with fields that may be absent. A `null` body, a `usd` that is a truthy non-number, or a `symbol` that is not a string are not modelled.
- Endpoints.ToUpper: maps only the ASCII letters `a`-`z`. JavaScript's `toUpperCase` also maps other Unicode letters, and some of them to several characters.
- `Math.pow(2, attempt)` is computed exactly. Floating point cannot matter here, because the cap applies from attempt 4 on.
- The class follows the loop as written, including the fall-through to `undefined`. The corrected loop `Retrying.RetryIntended` is stated and proved as a function and used by the corrected endpoint lemma. No second copy of the class method is kept for it.

## Findings

| source | as written | input that shows it | evidently intended | confidence | as-written member | corrected member |
|---|---|---|---|---|---|---|
| src/services/cryptoService.js:57-58 | when the last attempt gets a 429, the loop ends and `retryRequest` resolves to `undefined`; the endpoint then reads `.data` of `undefined`, and the resulting `TypeError` is reported as the generic failure, so the 429 branches at lines 81-83, 121-123 and 151-153 can never run | `getCurrentPrice("bitcoin")` with three 429 replies in a row (or a timeout, a timeout, then a 429): the caller gets "Failed to fetch current price. Please try again later." | after the last attempt, rethrow its error, so the caller gets "Rate limit exceeded. Please wait a moment and try again." | not executed; the behaviour follows from the code as proved, and the dead 429 branches suggest it is unintended | Endpoints.ThrottledOutShowsGenericMessage | Retrying.RetryIntended |
