/**
 * The fetch policy of `Fetcher.Fetch`: the robots.txt and rate-limit gates,
 * the retry loop over attempt outcomes (a network error, or a response whose
 * 5xx or 429 status, section 4 of RFC 6585, asks for another try), the
 * exponential backoff with jitter, cap and floor between attempts, and the
 * choice of Accept-Language tag. The transport, the clock, the jitter source
 * and context cancellation are inputs.
 */
module Fetcher {
  import opened Common
  import opened Int64
  import Decimal
  import Config
  import Robots
  import RateLimiter

  // ---------------------------------------------------------------------------
  // `calculateBackoff`.

  /**
   * `rand.Float64()` returns a multiple of 2^-53 in [0, 1); a draw is the
   * numerator, so the jitter is computed exactly over the rationals.
   */
  const DrawScale: int := 0x20_0000_0000_0000

  type Draw = d: int | 0 <= d < DrawScale

  /**
   * The capped exponential delay in milliseconds: `minMS * (1 << uint(attempt-1))`
   * on int64, replaced by `maxMS` when larger. The shift count is the
   * unsigned conversion of `attempt - 1`.
   */
  function Exponential(minMS: int, maxMS: int, attempt: int): (e: int)
    ensures e <= maxMS
  {
    var grown := Wrap(minMS * ShiftOne((attempt - 1) % TwoTo64));
    if grown > maxMS then maxMS else grown
  }

  /**
   * `100 * DrawScale` times the jitter multiplier `1 + (u - 0.5) * 2 * pct / 100`,
   * where `u = draw / DrawScale`.
   */
  function JitterFactor(pct: int, draw: Draw): (k: int)
    requires 0 <= pct <= 100
    ensures 0 <= k <= (100 + pct) * DrawScale
    ensures (100 - pct) * DrawScale <= k
  {
    JitterBounds(pct, draw);
    100 * DrawScale + pct * (2 * draw - DrawScale)
  }

  /** The jitter moves the delay by at most `pct` percent either way. */
  lemma JitterBounds(pct: int, draw: Draw)
    requires 0 <= pct <= 100
    ensures -pct * DrawScale <= pct * (2 * draw - DrawScale) <= pct * DrawScale
  {
    MulLeft(2 * draw - DrawScale, DrawScale, pct);
    MulLeft(-DrawScale, 2 * draw - DrawScale, pct);
  }

  /** The denominator of the jittered delay: the delay is `Exponential * JitterFactor / JitterDenominator`. */
  const JitterDenominator: int := 100 * DrawScale

  /**
   * The final delay in whole milliseconds: the jittered delay raised to
   * `minMS` when below it, then to zero, and truncated.
   */
  function BackoffMS(minMS: int, maxMS: int, pct: int, attempt: int, draw: Draw): (ms: int)
    ensures ms >= minMS && ms >= 0
  {
    var n := Exponential(minMS, maxMS, attempt) * (100 * DrawScale + pct * (2 * draw - DrawScale));
    if n < minMS * JitterDenominator then (if minMS > 0 then minMS else 0)
    else if n < 0 then 0
    else n / JitterDenominator
  }

  /**
   * `calculateBackoff(attempt)` as a `time.Duration`, reading the backoff
   * settings from the configuration's backoff section.
   */
  function CalculateBackoff(b: Config.Backoff, attempt: int, draw: Draw): (d: int)
    ensures InInt64(d)
    ensures InInt64(BackoffMS(b.minMS, b.maxMS, b.jitterPct, attempt, draw) * Config.Millisecond)
      ==> d == BackoffMS(b.minMS, b.maxMS, b.jitterPct, attempt, draw) * Config.Millisecond
  {
    Wrap(BackoffMS(b.minMS, b.maxMS, b.jitterPct, attempt, draw) * Config.Millisecond)
  }

  lemma MulLeft(a: int, b: int, c: int)
    requires a <= b && c >= 0
    ensures a * c <= b * c
  {
  }

  /** Without overflow the base delay is `min(minMS * 2^(attempt-1), maxMS)`. */
  lemma BaseDelay(minMS: int, maxMS: int, attempt: int)
    requires 1 <= attempt <= 63 && minMS >= 0
    requires minMS * Pow2(attempt - 1) <= MaxInt64
    ensures var grown := minMS * Pow2(attempt - 1);
      Exponential(minMS, maxMS, attempt) == if grown > maxMS then maxMS else grown
  {
    assert (attempt - 1) % TwoTo64 == attempt - 1;
    MulLeft(0, minMS, Pow2(attempt - 1));
  }

  /** Without overflow, a later attempt never waits a shorter base delay. */
  lemma {:induction false} BaseDelayMonotone(minMS: int, maxMS: int, a: int, b: int)
    requires 1 <= a <= b <= 63 && minMS >= 0
    requires minMS * Pow2(b - 1) <= MaxInt64
    ensures Exponential(minMS, maxMS, a) <= Exponential(minMS, maxMS, b)
  {
    Pow2Monotone(a - 1, b - 1);
    assert minMS * Pow2(a - 1) <= minMS * Pow2(b - 1) by {
      MulLeft(Pow2(a - 1), Pow2(b - 1), minMS);
    }
    BaseDelay(minMS, maxMS, a);
    BaseDelay(minMS, maxMS, b);
  }

  /**
   * With a valid backoff section the jitter adds at most `pct` percent to a
   * delay already capped at `maxMS`: `ms <= maxMS * (1 + pct/100)`.
   */
  lemma {:induction false} BackoffBounded(minMS: int, maxMS: int, pct: int, attempt: int, draw: Draw)
    requires 0 < minMS <= maxMS && 0 <= pct <= 100
    ensures 100 * BackoffMS(minMS, maxMS, pct, attempt, draw) <= maxMS * (100 + pct)
  {
    var e := Exponential(minMS, maxMS, attempt);
    var k := JitterFactor(pct, draw);
    var bound := maxMS * (100 + pct);
    MulLeft(0, pct, maxMS);
    assert 100 * maxMS <= bound;
    var n := e * k;
    if n >= minMS * JitterDenominator {
      MulLeft(e, maxMS, k);
      MulLeft(k, (100 + pct) * DrawScale, maxMS);
      assert n <= bound * DrawScale;
      TruncatedBound(n, bound);
    }
  }

  /** Hence the jittered delay never exceeds twice the cap. */
  lemma BackoffAtMostTwiceMax(minMS: int, maxMS: int, pct: int, attempt: int, draw: Draw)
    requires 0 < minMS <= maxMS && 0 <= pct <= 100
    ensures BackoffMS(minMS, maxMS, pct, attempt, draw) <= 2 * maxMS
  {
    BackoffBounded(minMS, maxMS, pct, attempt, draw);
    MulLeft(100 + pct, 200, maxMS);
  }

  /** A truncated quotient by `JitterDenominator` of at most `bound * DrawScale` is at most a hundredth of `bound`. */
  lemma TruncatedBound(n: int, bound: int)
    requires 0 <= n <= bound * DrawScale
    ensures 100 * (n / JitterDenominator) <= bound
  {
    var q := n / JitterDenominator;
    assert JitterDenominator * q <= n;
  }

  /**
   * With a configuration that validates and a maximum small enough that twice
   * it fits a `time.Duration`, every backoff lies between `GetBackoffMin()`
   * and twice `GetBackoffMax()`.
   */
  lemma BackoffWithinRange(c: Config.Config, attempt: int, draw: Draw)
    requires Config.Validate(c).None?
    requires 2 * c.backoff.maxMS * Config.Millisecond <= MaxInt64
    ensures Config.BackoffMin(c) <= CalculateBackoff(c.backoff, attempt, draw) <= 2 * Config.BackoffMax(c)
  {
    var b := c.backoff;
    assert 0 < b.minMS <= b.maxMS && 0 <= b.jitterPct <= 100;
    DelayBetween(b, attempt, draw);
    assert Config.BackoffMin(c) == b.minMS * Config.Millisecond;
    assert Config.BackoffMax(c) == b.maxMS * Config.Millisecond;
  }

  /** The same bounds on a backoff section directly, in nanoseconds. */
  lemma DelayBetween(b: Config.Backoff, attempt: int, draw: Draw)
    requires 0 < b.minMS <= b.maxMS && 0 <= b.jitterPct <= 100
    requires 2 * b.maxMS * Config.Millisecond <= MaxInt64
    ensures b.minMS * Config.Millisecond <= CalculateBackoff(b, attempt, draw) <= 2 * b.maxMS * Config.Millisecond
  {
    BackoffAtMostTwiceMax(b.minMS, b.maxMS, b.jitterPct, attempt, draw);
    var ms := BackoffMS(b.minMS, b.maxMS, b.jitterPct, attempt, draw);
    ScaledBetween(b.minMS, ms, 2 * b.maxMS);
  }

  lemma ScaledBetween(lo: int, ms: int, hi: int)
    requires 0 <= lo <= ms <= hi && hi * Config.Millisecond <= MaxInt64
    ensures InInt64(ms * Config.Millisecond)
    ensures lo * Config.Millisecond <= ms * Config.Millisecond <= hi * Config.Millisecond
  {
    MulLeft(lo, ms, Config.Millisecond);
    MulLeft(ms, hi, Config.Millisecond);
    MulLeft(0, lo, Config.Millisecond);
  }

  // ---------------------------------------------------------------------------
  // `getAcceptLanguage`.

  /** The Accept-Language tag sent for a language code. */
  function GetAcceptLanguage(h: Config.Http, lang: string): (tag: string)
    ensures lang == "ky" ==> tag == h.acceptLanguageKY
    ensures lang != "ky" ==> tag == h.acceptLanguageRU
  {
    if lang == "ky" then h.acceptLanguageKY else h.acceptLanguageRU
  }

  // ---------------------------------------------------------------------------
  // `Fetch`.

  /** What one `fetchOnce` produced: an error, or a response with its status. */
  datatype Attempt = NetworkError(err: string) | Response(status: int)

  /** A status the loop retries: any 5xx, or 429 Too Many Requests. */
  predicate Retryable(status: int) {
    status >= 500 || status == 429
  }

  /**
   * What the loop cannot see in advance, by attempt number: the outcome of
   * each request, whether the context ends during the wait before it, and
   * the jitter draw of that wait.
   */
  datatype Network = Network(outcome: nat -> Attempt, cancelled: nat -> bool, draw: nat -> Draw)

  datatype FetchError =
    | InvalidUrl
    | RobotsFailed(reason: string)
    | Disallowed(url: string)
    | RateLimited
    | Cancelled
      /** `fetch failed after <maxRetries> retries`, wrapping the last error, if any. */
    | Exhausted(maxRetries: int, last: Option<string>)

  /** The response returned, with the attempt that produced it. */
  datatype Reply = Reply(attempt: nat, status: int)

  /**
   * The result, whether the rate limiter was consulted, the number of
   * requests sent, and the backoff delays waited for, in order.
   */
  datatype Trace = Trace(result: Result<Reply, FetchError>, throttled: bool, requests: nat, waits: seq<int>)

  /** The error an attempt leaves in `lastErr`. */
  function ErrorText(a: Attempt): string {
    match a
    case NetworkError(e) => e
    case Response(s) => "server error: " + Decimal.FormatInt(s)
  }

  /** Attempt `j` is not the last one made: its wait completed and its outcome asked for another try. */
  predicate Retries(maxRetries: int, net: Network, j: nat) {
    && !(j > 0 && net.cancelled(j))
    && (net.outcome(j).NetworkError? || (Retryable(net.outcome(j).status) && j < maxRetries))
  }

  /** Attempt `j` is made and its response is returned. */
  predicate Answers(maxRetries: int, net: Network, j: nat) {
    && !(j > 0 && net.cancelled(j))
    && net.outcome(j).Response?
    && !(Retryable(net.outcome(j).status) && j < maxRetries)
  }

  /** Every attempt from `k` up to, not including, `a` retries. */
  predicate RetriedFrom(maxRetries: int, net: Network, k: nat, a: int) {
    forall j :: k <= j < a ==> Retries(maxRetries, net, j)
  }

  /**
   * The loop from attempt `k` on, with `lastErr` the error the previous
   * attempts left: each attempt after the first waits its backoff, a network
   * error or a retryable status tries again while attempts remain, and any
   * other response, or a retryable one on the last attempt, is returned.
   */
  function Attempts(delay: nat -> int, maxRetries: int, net: Network, k: nat, lastErr: Option<string>): (r: Trace)
    ensures !r.throttled
    ensures r.result.Ok? || r.result == Err(Cancelled) || r.result.error.Exhausted?
    ensures r.requests <= (if k <= maxRetries then maxRetries + 1 - k else 0)
    decreases maxRetries + 1 - k
  {
    if k > maxRetries then Trace(Err(Exhausted(maxRetries, lastErr)), false, 0, [])
    else
      var wait := if k > 0 then [delay(k)] else [];
      if k > 0 && net.cancelled(k) then Trace(Err(Cancelled), false, 0, wait)
      else
        var o := net.outcome(k);
        if o.NetworkError? || (Retryable(o.status) && k < maxRetries) then
          var rest := Attempts(delay, maxRetries, net, k + 1, Some(ErrorText(o)));
          Trace(rest.result, false, rest.requests + 1, wait + rest.waits)
        else Trace(Ok(Reply(k, o.status)), false, 1, wait)
  }

  /** A returned response comes from the first attempt from `k` on that did not retry, and ends the requests. */
  lemma {:induction false} AttemptsAnswer(delay: nat -> int, maxRetries: int, net: Network, k: nat, lastErr: Option<string>)
    ensures var r := Attempts(delay, maxRetries, net, k, lastErr);
      r.result.Ok? ==>
        var a := r.result.value.attempt;
        && k <= a <= maxRetries && r.requests == a - k + 1
        && RetriedFrom(maxRetries, net, k, a) && Answers(maxRetries, net, a)
        && net.outcome(a) == Response(r.result.value.status)
    decreases maxRetries + 1 - k
  {
    if k <= maxRetries && !(k > 0 && net.cancelled(k)) && Retries(maxRetries, net, k) {
      AttemptsAnswer(delay, maxRetries, net, k + 1, Some(ErrorText(net.outcome(k))));
    }
  }

  /** A cancellation happens in the wait before an attempt after `k` whose predecessors all retried. */
  lemma {:induction false} AttemptsCancelled(delay: nat -> int, maxRetries: int, net: Network, k: nat, lastErr: Option<string>)
    ensures var r := Attempts(delay, maxRetries, net, k, lastErr);
      r.result == Err(Cancelled) ==>
        var a := k + r.requests;
        0 < a <= maxRetries && net.cancelled(a) && RetriedFrom(maxRetries, net, k, a)
    decreases maxRetries + 1 - k
  {
    if k <= maxRetries && !(k > 0 && net.cancelled(k)) && Retries(maxRetries, net, k) {
      AttemptsCancelled(delay, maxRetries, net, k + 1, Some(ErrorText(net.outcome(k))));
    }
  }

  /**
   * Running out of attempts means every attempt from `k` retried; the error
   * then wraps the last attempt's error, or `lastErr` when none was left.
   */
  lemma {:induction false} AttemptsExhausted(delay: nat -> int, maxRetries: int, net: Network, k: nat, lastErr: Option<string>)
    ensures var r := Attempts(delay, maxRetries, net, k, lastErr);
      r.result.Err? && r.result.error.Exhausted? ==>
        && r.result.error.maxRetries == maxRetries
        && r.requests == (if k <= maxRetries then maxRetries + 1 - k else 0)
        && RetriedFrom(maxRetries, net, k, maxRetries + 1)
        && r.result.error.last == (if k <= maxRetries then Some(ErrorText(net.outcome(maxRetries))) else lastErr)
    decreases maxRetries + 1 - k
  {
    if k <= maxRetries && !(k > 0 && net.cancelled(k)) && Retries(maxRetries, net, k) {
      AttemptsExhausted(delay, maxRetries, net, k + 1, Some(ErrorText(net.outcome(k))));
    }
  }

  /** A wait precedes every attempt after the first, and the one cut short by a cancellation. */
  lemma {:induction false} AttemptsWaitCount(delay: nat -> int, maxRetries: int, net: Network, k: nat, lastErr: Option<string>)
    ensures var r := Attempts(delay, maxRetries, net, k, lastErr);
      |r.waits| + (if k == 0 && maxRetries >= 0 then 1 else 0)
      == r.requests + (if r.result == Err(Cancelled) then 1 else 0)
    decreases maxRetries + 1 - k
  {
    if k <= maxRetries && !(k > 0 && net.cancelled(k)) && Retries(maxRetries, net, k) {
      AttemptsWaitCount(delay, maxRetries, net, k + 1, Some(ErrorText(net.outcome(k))));
    }
  }

  /** `waits` are the delays for consecutive attempts starting at `first`. */
  predicate WaitsFrom(waits: seq<int>, delay: nat -> int, first: nat) {
    forall i :: 0 <= i < |waits| ==> waits[i] == delay(first + i)
  }

  lemma WaitsCons(waits: seq<int>, delay: nat -> int, first: nat)
    requires WaitsFrom(waits, delay, first + 1)
    ensures WaitsFrom([delay(first)] + waits, delay, first)
  {
    var w := [delay(first)] + waits;
    forall i | 1 <= i < |w| ensures w[i] == delay(first + i) {
      assert w[i] == waits[i - 1];
    }
  }

  /** The wait before attempt `j` is the delay for `j`. */
  lemma {:induction false} AttemptsWaitDelays(delay: nat -> int, maxRetries: int, net: Network, k: nat, lastErr: Option<string>)
    ensures WaitsFrom(Attempts(delay, maxRetries, net, k, lastErr).waits, delay, if k == 0 then 1 else k)
    decreases maxRetries + 1 - k
  {
    if k <= maxRetries && !(k > 0 && net.cancelled(k)) && Retries(maxRetries, net, k) {
      var rest := Attempts(delay, maxRetries, net, k + 1, Some(ErrorText(net.outcome(k))));
      AttemptsWaitDelays(delay, maxRetries, net, k + 1, Some(ErrorText(net.outcome(k))));
      if k > 0 {
        WaitsCons(rest.waits, delay, k);
      }
    }
  }

  /** Conversely, when every attempt from `k` before `a` retries and `a` answers, attempt `a`'s response is returned. */
  lemma {:induction false} AttemptsReach(delay: nat -> int, maxRetries: int, net: Network, k: nat, lastErr: Option<string>, a: nat)
    requires k <= a <= maxRetries
    requires RetriedFrom(maxRetries, net, k, a) && Answers(maxRetries, net, a)
    ensures Attempts(delay, maxRetries, net, k, lastErr).result == Ok(Reply(a, net.outcome(a).status))
    decreases a - k
  {
    if k < a {
      assert Retries(maxRetries, net, k);
      AttemptsReach(delay, maxRetries, net, k + 1, Some(ErrorText(net.outcome(k))), a);
    }
  }

  /** Conversely, when every attempt from `k` on retries, the attempts run out. */
  lemma {:induction false} AttemptsRunOut(delay: nat -> int, maxRetries: int, net: Network, k: nat, lastErr: Option<string>)
    requires RetriedFrom(maxRetries, net, k, maxRetries + 1)
    ensures Attempts(delay, maxRetries, net, k, lastErr).result.Err?
    ensures Attempts(delay, maxRetries, net, k, lastErr).result.error.Exhausted?
    decreases maxRetries + 1 - k
  {
    if k <= maxRetries {
      assert Retries(maxRetries, net, k);
      AttemptsRunOut(delay, maxRetries, net, k + 1, Some(ErrorText(net.outcome(k))));
    }
  }

  /**
   * `Fetcher.Fetch(ctx, url, lang)`. `host` is the host `url.Parse` found,
   * `None` when parsing failed; `robots` is the robots cache's answer for it
   * and `rate` what the rate limiter's `Wait` returned.
   */
  function Fetch(c: Config.Config, url: string, host: Option<string>, robots: Robots.Outcome,
                 rate: RateLimiter.Status, net: Network): (r: Trace)
    ensures host.None? || robots.err.Some? || !robots.allowed ==> !r.throttled && r.requests == 0 && r.waits == []
    ensures r.requests > 0 ==> r.throttled
    ensures r.requests > 0 ==> rate.Done?
    ensures r.requests <= c.http.maxRetries + 1 || r.requests == 0
  {
    if host.None? then Trace(Err(InvalidUrl), false, 0, [])
    else if robots.err.Some? then Trace(Err(RobotsFailed(robots.err.value)), false, 0, [])
    else if !robots.allowed then Trace(Err(Disallowed(url)), false, 0, [])
    else if rate.ContextDone? then Trace(Err(RateLimited), true, 0, [])
    else Loop(c, net).(throttled := true)
  }

  /** The backoff waited before each attempt, with that wait's jitter draw. */
  function Delays(b: Config.Backoff, net: Network): nat -> int {
    (j: nat) => CalculateBackoff(b, j, net.draw(j))
  }

  /** Past the gates, the loop's trace from its first attempt. */
  function Loop(c: Config.Config, net: Network): Trace {
    Attempts(Delays(c.backoff, net), c.http.maxRetries, net, 0, None)
  }

  /** Whether the fetch got past the URL, robots and rate-limit gates. */
  predicate Admitted(host: Option<string>, robots: Robots.Outcome, rate: RateLimiter.Status) {
    host.Some? && robots.err.None? && robots.allowed && rate.Done?
  }

  /** Past the gates the fetch is exactly the retry loop, started at attempt zero with no error. */
  lemma AdmittedRunsLoop(c: Config.Config, url: string, host: Option<string>, robots: Robots.Outcome,
                         rate: RateLimiter.Status, net: Network)
    requires Admitted(host, robots, rate)
    ensures var r := Fetch(c, url, host, robots, rate, net);
      r.result == Loop(c, net).result && r.requests == Loop(c, net).requests
      && r.waits == Loop(c, net).waits && r.throttled
  {
  }

  /**
   * The fetch returns the response of attempt `a` exactly when every earlier
   * attempt retried and attempt `a` answered; it is the first attempt that
   * did not retry.
   */
  lemma OkIff(c: Config.Config, net: Network, a: nat)
    ensures var r := Loop(c, net);
      r.result.Ok? && r.result.value.attempt == a
      <==> a <= c.http.maxRetries && RetriedFrom(c.http.maxRetries, net, 0, a) && Answers(c.http.maxRetries, net, a)
    ensures var r := Loop(c, net);
      r.result.Ok? ==> (r.requests == r.result.value.attempt + 1
        && net.outcome(r.result.value.attempt) == Response(r.result.value.status))
  {
    var m := c.http.maxRetries;
    AttemptsAnswer(Delays(c.backoff, net), m, net, 0, None);
    if a <= m && RetriedFrom(m, net, 0, a) && Answers(m, net, a) {
      AttemptsReach(Delays(c.backoff, net), m, net, 0, None, a);
    }
  }

  /**
   * The fetch fails after `maxRetries` retries exactly when every attempt
   * retried; then it made `maxRetries + 1` requests and the error wraps the
   * last attempt's network error.
   */
  lemma ExhaustedIff(c: Config.Config, net: Network)
    requires c.http.maxRetries >= 0
    ensures var r := Loop(c, net);
      r.result.Err? && r.result.error.Exhausted? <==> RetriedFrom(c.http.maxRetries, net, 0, c.http.maxRetries + 1)
    ensures var r := Loop(c, net);
      r.result.Err? && r.result.error.Exhausted? ==>
        && r.requests == c.http.maxRetries + 1
        && net.outcome(c.http.maxRetries).NetworkError?
        && r.result.error == Exhausted(c.http.maxRetries, Some(net.outcome(c.http.maxRetries).err))
  {
    var m := c.http.maxRetries;
    AttemptsExhausted(Delays(c.backoff, net), m, net, 0, None);
    if RetriedFrom(m, net, 0, m + 1) {
      AttemptsRunOut(Delays(c.backoff, net), m, net, 0, None);
    }
    var r := Loop(c, net);
    if r.result.Err? && r.result.error.Exhausted? {
      assert Retries(m, net, m);
    }
  }

  /**
   * Backoff waits come only between attempts: one fewer than the requests
   * made, or as many when the context ended during a wait, and the `i`-th is
   * the backoff for attempt `i + 1`.
   */
  lemma WaitsBetweenAttempts(c: Config.Config, net: Network)
    requires c.http.maxRetries >= 0
    ensures var r := Loop(c, net);
      && r.requests >= 1
      && |r.waits| == (if r.result == Err(Cancelled) then r.requests else r.requests - 1)
      && forall i :: 0 <= i < |r.waits| ==> r.waits[i] == CalculateBackoff(c.backoff, 1 + i, net.draw(1 + i))
  {
    var m := c.http.maxRetries;
    AttemptsWaitCount(Delays(c.backoff, net), m, net, 0, None);
    AttemptsWaitDelays(Delays(c.backoff, net), m, net, 0, None);
  }

  /** A first response that is not retryable is returned at once, after a single request and no wait. */
  lemma FirstAnswerReturned(c: Config.Config, net: Network)
    requires c.http.maxRetries >= 0
    requires net.outcome(0).Response? && !Retryable(net.outcome(0).status)
    ensures Loop(c, net) == Trace(Ok(Reply(0, net.outcome(0).status)), false, 1, [])
  {
  }

  /** With no retries configured the loop never runs and the error wraps no cause. */
  lemma NoAttemptsWithNegativeRetries(c: Config.Config, net: Network)
    requires c.http.maxRetries < 0
    ensures Loop(c, net) == Trace(Err(Exhausted(c.http.maxRetries, None)), false, 0, [])
  {
  }

  /**
   * Behind the real robots cache, whose matcher allows everything and whose
   * failures fail open, a fetch with a parsable URL is never refused by
   * robots.txt and always reaches the rate limiter.
   */
  lemma RobotsNeverRefuses(c: Config.Config, url: string, host: string, cache: Robots.Cache, ttl: int,
                           now: int, answer: Robots.Response, stored: int, rate: RateLimiter.Status, net: Network)
    ensures var robots := Robots.IsAllowed(cache, ttl, host, url, now, answer, stored);
      var r := Fetch(c, url, Some(host), robots, rate, net);
      && r.throttled
      && !(r.result.Err? && (r.result.error.RobotsFailed? || r.result.error.Disallowed?))
  {
  }
}
