/**
  What the three endpoint functions do with the outcome of `retryRequest`:
  read `response.data`, check its shape, reshape it, and on any error
  replace it with one of a few fixed user-facing messages.

  Each endpoint is a function of the `RetryResult` it received; the
  `try` block is `Price`/`History`/`Info`-`Received`, the `catch` block is
  `Settle`. `undefined` from the retry loop makes `response.data` throw a
  `TypeError`, which the `catch` block treats like any other failure.
*/
module Endpoints {
  import opened Wrappers
  import opened Pacing
  import opened Retrying

  datatype Endpoint = PriceEndpoint | HistoryEndpoint | TokenInfoEndpoint

  /** The errors an endpoint throws to its caller. */
  datatype UserError = RateLimitExceeded | RequestTimeout | FetchFailed(endpoint: Endpoint)

  /** The text of the `Error` an endpoint throws for each user error. */
  function Message(u: UserError): string
  {
    match u
    case RateLimitExceeded => "Rate limit exceeded. Please wait a moment and try again."
    case RequestTimeout => "Request timeout. Please check your connection and try again."
    case FetchFailed(PriceEndpoint) => "Failed to fetch current price. Please try again later."
    case FetchFailed(HistoryEndpoint) => "Failed to fetch historical data. Please try again later."
    case FetchFailed(TokenInfoEndpoint) => "Failed to fetch token info. Please try again later."
  }

  /** The `catch` block's choice of message: a 429 gives the rate-limit
      message; otherwise a timeout gives the timeout message, except in
      `getTokenInfo`, which has no timeout branch; anything else gives the
      endpoint's own generic message. */
  function Classify(ep: Endpoint, e: Thrown): (u: UserError)
    ensures u == RateLimitExceeded <==> IsRateLimited(e)
    ensures u == RequestTimeout <==> !IsRateLimited(e) && IsTimeout(e) && ep != TokenInfoEndpoint
    ensures u.FetchFailed? ==> u.endpoint == ep
  {
    if IsRateLimited(e) then RateLimitExceeded
    else if IsTimeout(e) && ep != TokenInfoEndpoint then RequestTimeout
    else FetchFailed(ep)
  }

  /** The endpoint's result: the value its `try` block produced, or the
      message its `catch` block chose for the error. */
  function Settle<T>(ep: Endpoint, tried: Result<T, Thrown>): Result<T, UserError>
  {
    match tried
    case Ok(v) => Ok(v)
    case Err(e) => Err(Classify(ep, e))
  }

  /** An axios response; only its body is read. */
  datatype Response<D> = Response(data: D)

  /** `response.data` on what `retryRequest` produced. */
  function ResponseData<D>(r: RetryResult<Response<D>>): Result<D, Thrown>
  {
    match r
    case Returned(response) => Ok(response.data)
    case Rethrown(e) => Err(e)
    case Undefined => Err(TypeError)
  }

  // ---------------------------------------------------------------- getCurrentPrice

  /** One entry of the simple-price body; `usd` is None when absent. */
  datatype Quote = Quote(usd: Option<real>)
  type SimplePrice = map<string, Quote>

  /** `response.data[tokenId]?.usd` is truthy: present and not 0. */
  predicate HasPrice(data: SimplePrice, tokenId: string)
  {
    tokenId in data && data[tokenId].usd.Some? && data[tokenId].usd.value != 0.0
  }

  /** The validity check of `getCurrentPrice`: the token's `usd` price, or
      `InvalidData` when it is missing or falsy. */
  function UsdPrice(data: SimplePrice, tokenId: string): (r: Result<real, Thrown>)
    ensures r.Ok? <==> HasPrice(data, tokenId)
    ensures r.Ok? ==> r.value != 0.0 && data[tokenId].usd == Some(r.value)
    ensures r.Err? ==> r.error == InvalidData
  {
    if tokenId in data && data[tokenId].usd.Some? && data[tokenId].usd.value != 0.0
    then Ok(data[tokenId].usd.value)
    else Err(InvalidData)
  }

  function PriceReceived(tokenId: string, r: RetryResult<Response<SimplePrice>>): Result<real, Thrown>
  {
    match ResponseData(r)
    case Ok(data) => UsdPrice(data, tokenId)
    case Err(e) => Err(e)
  }

  function CurrentPrice(tokenId: string, r: RetryResult<Response<SimplePrice>>): Result<real, UserError>
  {
    Settle(PriceEndpoint, PriceReceived(tokenId, r))
  }

  /** `getCurrentPrice` yields a price exactly when the response carries a
      truthy `usd` price for the token, and that price is what it yields; a
      missing entry, a missing price and a price of 0 all end in the
      generic message. */
  lemma CurrentPriceValidity(tokenId: string, r: RetryResult<Response<SimplePrice>>)
    ensures CurrentPrice(tokenId, r).Ok?
            <==> r.Returned? && HasPrice(r.value.data, tokenId)
    ensures CurrentPrice(tokenId, r).Ok?
            ==> CurrentPrice(tokenId, r).value == r.value.data[tokenId].usd.value
    ensures r.Returned? && !HasPrice(r.value.data, tokenId)
            ==> CurrentPrice(tokenId, r) == Err(FetchFailed(PriceEndpoint))
  {
  }

  // ---------------------------------------------------------------- getHistoricalData

  /** One `[timestamp, price]` pair of the market-chart body. */
  datatype PricePair = PricePair(timestamp: int, price: real)

  /** The market-chart body; `prices` is None when it is missing or is not
      an array. */
  datatype MarketChart = MarketChart(prices: Option<seq<PricePair>>)

  /** `new Date(epochMillis).toISOString()`, kept symbolic. */
  datatype IsoTime = IsoTime(epochMillis: int)

  /** The largest distance from the epoch, in milliseconds, that a
      JavaScript `Date` can represent; beyond it `toISOString` throws. */
  const MAX_DATE_MILLIS: int := 8_640_000_000_000_000

  predicate ValidTimestamps(prices: seq<PricePair>)
  {
    forall i | 0 <= i < |prices| :: -MAX_DATE_MILLIS <= prices[i].timestamp <= MAX_DATE_MILLIS
  }

  /** One point of the chart series: `{x, y}`. */
  datatype PricePoint = PricePoint(x: IsoTime, y: real)

  /** `prices.map(([timestamp, price]) => ({x: ..., y: price}))` */
  function ToPoints(prices: seq<PricePair>): (points: seq<PricePoint>)
    ensures |points| == |prices|
    ensures forall i | 0 <= i < |prices| ::
      points[i].x == IsoTime(prices[i].timestamp) && points[i].y == prices[i].price
  {
    if prices == [] then []
    else [PricePoint(IsoTime(prices[0].timestamp), prices[0].price)] + ToPoints(prices[1..])
  }

  function HistoryReceived(r: RetryResult<Response<MarketChart>>): Result<seq<PricePoint>, Thrown>
  {
    match ResponseData(r)
    case Ok(chart) =>
      if chart.prices.None? then Err(InvalidData)
      else if !ValidTimestamps(chart.prices.value) then Err(RangeError)
      else Ok(ToPoints(chart.prices.value))
    case Err(e) => Err(e)
  }

  function HistoricalData(r: RetryResult<Response<MarketChart>>): Result<seq<PricePoint>, UserError>
  {
    Settle(HistoryEndpoint, HistoryReceived(r))
  }

  /** `getHistoricalData` yields a series exactly when the body has a
      `prices` array whose timestamps are all valid dates; the series has
      one point per pair, in the same order, with `y` the pair's price and
      `x` the pair's timestamp as a date. A missing array or an invalid date
      ends in the generic message. */
  lemma HistoricalSeries(r: RetryResult<Response<MarketChart>>)
    ensures HistoricalData(r).Ok?
            <==> r.Returned? && r.value.data.prices.Some? && ValidTimestamps(r.value.data.prices.value)
    ensures HistoricalData(r).Ok? ==>
      var prices, points := r.value.data.prices.value, HistoricalData(r).value;
      && |points| == |prices|
      && forall i | 0 <= i < |prices| ::
           points[i] == PricePoint(IsoTime(prices[i].timestamp), prices[i].price)
    ensures r.Returned? && !HistoricalData(r).Ok? ==> HistoricalData(r) == Err(FetchFailed(HistoryEndpoint))
  {
  }

  // ---------------------------------------------------------------- getTokenInfo

  datatype CoinImage = CoinImage(small: Option<string>)

  /** The coin body; only these fields are read. */
  datatype Coin = Coin(id: Option<string>, symbol: Option<string>, name: Option<string>, image: Option<CoinImage>)

  /** The record `getTokenInfo` returns; a field missing from the body is
      `undefined` (None) in it. */
  datatype TokenInfo = TokenInfo(id: Option<string>, symbol: string, name: Option<string>, image: Option<string>)

  /** `toUpperCase` on one character, for the ASCII letters. */
  function UpperChar(c: char): char
  {
    if 'a' <= c <= 'z' then (c as int - 'a' as int + 'A' as int) as char else c
  }

  /** `toUpperCase`, character by character. */
  function ToUpper(s: string): (u: string)
    ensures |u| == |s|
    ensures forall i | 0 <= i < |s| :: u[i] == UpperChar(s[i])
  {
    if s == [] then [] else [UpperChar(s[0])] + ToUpper(s[1..])
  }

  /** An upper-cased symbol has no lower-case letter left and upper-casing
      it again changes nothing. */
  lemma ToUpperNormalizes(s: string)
    ensures forall i | 0 <= i < |ToUpper(s)| :: !('a' <= ToUpper(s)[i] <= 'z')
    ensures ToUpper(ToUpper(s)) == ToUpper(s)
  {
  }

  /** The record construction of `getTokenInfo`: reading `symbol.toUpperCase`
      or `image.small` on a missing field throws a `TypeError`. */
  function Project(coin: Coin): (r: Result<TokenInfo, Thrown>)
    ensures r.Ok? <==> coin.symbol.Some? && coin.image.Some?
    ensures r.Err? ==> r.error == TypeError
    ensures r.Ok? ==> && r.value.id == coin.id && r.value.name == coin.name
                      && r.value.symbol == ToUpper(coin.symbol.value)
                      && r.value.image == coin.image.value.small
  {
    match (coin.symbol, coin.image)
    case (Some(symbol), Some(image)) => Ok(TokenInfo(coin.id, ToUpper(symbol), coin.name, image.small))
    case _ => Err(TypeError)
  }

  function InfoReceived(r: RetryResult<Response<Coin>>): Result<TokenInfo, Thrown>
  {
    match ResponseData(r)
    case Ok(coin) => Project(coin)
    case Err(e) => Err(e)
  }

  function TokenInfoOf(r: RetryResult<Response<Coin>>): Result<TokenInfo, UserError>
  {
    Settle(TokenInfoEndpoint, InfoReceived(r))
  }

  /** The coin body of bitcoin becomes `{id: "bitcoin", symbol: "BTC",
      name: "Bitcoin", image: <image.small>}`. */
  lemma TokenInfoOfBitcoin(url: string)
    ensures TokenInfoOf(Returned(Response(Coin(Some("bitcoin"), Some("btc"), Some("Bitcoin"), Some(CoinImage(Some(url)))))))
            == Ok(TokenInfo(Some("bitcoin"), "BTC", Some("Bitcoin"), Some(url)))
  {
    assert ToUpper("btc") == "BTC" by {
      assert "btc"[1..] == "tc" && "tc"[1..] == "c" && "c"[1..] == "";
    }
  }

  // ---------------------------------------------------------------- error messages

  /** Which message each endpoint shows for an error thrown by
      `retryRequest`: the rate-limit message exactly for a 429, the timeout
      message for a timeout except in `getTokenInfo`, else the generic one. */
  lemma ErrorMessages(tokenId: string, e: Thrown)
    ensures CurrentPrice(tokenId, Rethrown(e)) == Err(Classify(PriceEndpoint, e))
    ensures HistoricalData(Rethrown(e)) == Err(Classify(HistoryEndpoint, e))
    ensures TokenInfoOf(Rethrown(e)) == Err(Classify(TokenInfoEndpoint, e))
    ensures IsTimeout(e) && !IsRateLimited(e) ==> TokenInfoOf(Rethrown(e)) == Err(FetchFailed(TokenInfoEndpoint))
  {
  }

  /** An endpoint shows the rate-limit message only when `retryRequest`
      rethrew a 429. */
  lemma RateLimitMessageNeeds429(tokenId: string, p: RetryResult<Response<SimplePrice>>,
                                 h: RetryResult<Response<MarketChart>>, t: RetryResult<Response<Coin>>)
    ensures CurrentPrice(tokenId, p) == Err(RateLimitExceeded) <==> p.Rethrown? && IsRateLimited(p.error)
    ensures HistoricalData(h) == Err(RateLimitExceeded) <==> h.Rethrown? && IsRateLimited(h.error)
    ensures TokenInfoOf(t) == Err(RateLimitExceeded) <==> t.Rethrown? && IsRateLimited(t.error)
  {
  }

  /** Since a 429 never leaves `retryRequest`, no endpoint, with its
      default of three attempts, can ever show the rate-limit message: its
      429 branch is dead. */
  lemma RateLimitMessageUnreachable(tokenId: string, c: Clock,
                                    prices: seq<Reply<Response<SimplePrice>>>,
                                    charts: seq<Reply<Response<MarketChart>>>,
                                    coins: seq<Reply<Response<Coin>>>)
    requires DEFAULT_MAX_RETRIES <= |prices| && DEFAULT_MAX_RETRIES <= |charts| && DEFAULT_MAX_RETRIES <= |coins|
    ensures CurrentPrice(tokenId, Retry(prices, 1, DEFAULT_MAX_RETRIES, c).result) != Err(RateLimitExceeded)
    ensures HistoricalData(Retry(charts, 1, DEFAULT_MAX_RETRIES, c).result) != Err(RateLimitExceeded)
    ensures TokenInfoOf(Retry(coins, 1, DEFAULT_MAX_RETRIES, c).result) != Err(RateLimitExceeded)
  {
    RetryOutcome(prices, 1, DEFAULT_MAX_RETRIES, c);
    RetryOutcome(charts, 1, DEFAULT_MAX_RETRIES, c);
    RetryOutcome(coins, 1, DEFAULT_MAX_RETRIES, c);
    RateLimitMessageNeeds429(tokenId, Retry(prices, 1, DEFAULT_MAX_RETRIES, c).result,
                             Retry(charts, 1, DEFAULT_MAX_RETRIES, c).result,
                             Retry(coins, 1, DEFAULT_MAX_RETRIES, c).result);
  }

  /** As written: when every attempt gets a 429, the loop falls through to
      `undefined`, `response.data` throws a `TypeError`, and the user sees
      the endpoint's generic failure message instead of the rate-limit one
      (for `getCurrentPrice`, "Failed to fetch current price ..."). */
  lemma ThrottledOutShowsGenericMessage(tokenId: string, c: Clock,
                                        prices: seq<Reply<Response<SimplePrice>>>,
                                        charts: seq<Reply<Response<MarketChart>>>,
                                        coins: seq<Reply<Response<Coin>>>)
    requires DEFAULT_MAX_RETRIES <= |prices| && DEFAULT_MAX_RETRIES <= |charts| && DEFAULT_MAX_RETRIES <= |coins|
    requires forall i | 0 <= i < DEFAULT_MAX_RETRIES :: Throttled(prices[i]) && Throttled(charts[i]) && Throttled(coins[i])
    ensures CurrentPrice(tokenId, Retry(prices, 1, DEFAULT_MAX_RETRIES, c).result) == Err(FetchFailed(PriceEndpoint))
    ensures HistoricalData(Retry(charts, 1, DEFAULT_MAX_RETRIES, c).result) == Err(FetchFailed(HistoryEndpoint))
    ensures TokenInfoOf(Retry(coins, 1, DEFAULT_MAX_RETRIES, c).result) == Err(FetchFailed(TokenInfoEndpoint))
    ensures Message(CurrentPrice(tokenId, Retry(prices, 1, DEFAULT_MAX_RETRIES, c).result).error)
            == "Failed to fetch current price. Please try again later."
  {
    RetryThrottledOut(prices, DEFAULT_MAX_RETRIES, c);
    RetryThrottledOut(charts, DEFAULT_MAX_RETRIES, c);
    RetryThrottledOut(coins, DEFAULT_MAX_RETRIES, c);
  }

  /** Corrected: with the last error rethrown after the loop, a run that
      ends in a 429 shows the rate-limit message, and every other run shows
      what it showed before. */
  lemma IntendedThrottledOutShowsRateLimitMessage(tokenId: string, c: Clock,
                                                  prices: seq<Reply<Response<SimplePrice>>>,
                                                  charts: seq<Reply<Response<MarketChart>>>,
                                                  coins: seq<Reply<Response<Coin>>>)
    requires DEFAULT_MAX_RETRIES <= |prices| && DEFAULT_MAX_RETRIES <= |charts| && DEFAULT_MAX_RETRIES <= |coins|
    ensures CurrentPrice(tokenId, RetryIntended(prices, DEFAULT_MAX_RETRIES, c).result) == Err(RateLimitExceeded)
            <==> Retry(prices, 1, DEFAULT_MAX_RETRIES, c).result.Undefined?
    ensures HistoricalData(RetryIntended(charts, DEFAULT_MAX_RETRIES, c).result) == Err(RateLimitExceeded)
            <==> Retry(charts, 1, DEFAULT_MAX_RETRIES, c).result.Undefined?
    ensures TokenInfoOf(RetryIntended(coins, DEFAULT_MAX_RETRIES, c).result) == Err(RateLimitExceeded)
            <==> Retry(coins, 1, DEFAULT_MAX_RETRIES, c).result.Undefined?
    ensures (forall i | 0 <= i < DEFAULT_MAX_RETRIES :: Throttled(prices[i]))
            ==> CurrentPrice(tokenId, RetryIntended(prices, DEFAULT_MAX_RETRIES, c).result) == Err(RateLimitExceeded)
    ensures (forall i | 0 <= i < DEFAULT_MAX_RETRIES :: Throttled(prices[i]))
            ==> Message(CurrentPrice(tokenId, RetryIntended(prices, DEFAULT_MAX_RETRIES, c).result).error)
                == "Rate limit exceeded. Please wait a moment and try again."
  {
    RetryIntendedRethrows429(prices, DEFAULT_MAX_RETRIES, c);
    RetryIntendedRethrows429(charts, DEFAULT_MAX_RETRIES, c);
    RetryIntendedRethrows429(coins, DEFAULT_MAX_RETRIES, c);
    RateLimitMessageNeeds429(tokenId, RetryIntended(prices, DEFAULT_MAX_RETRIES, c).result,
                             RetryIntended(charts, DEFAULT_MAX_RETRIES, c).result,
                             RetryIntended(coins, DEFAULT_MAX_RETRIES, c).result);
    if forall i | 0 <= i < DEFAULT_MAX_RETRIES :: Throttled(prices[i]) {
      RetryThrottledOut(prices, DEFAULT_MAX_RETRIES, c);
    }
  }
}
