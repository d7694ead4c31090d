/**
 * The per-host requests-per-minute window of `RateLimiter.Wait`: host state
 * created on first use, a window that restarts once more than a minute has
 * passed, and a wait until the window's minute is over when it is full.
 * Times are nanoseconds since the Unix epoch; the clock readings, the
 * concurrency slot and the end of a wait are inputs.
 */
module RateLimiter {
  import opened Int64

  const Second: int := 1_000_000_000
  const Minute: int := 60 * Second

  /** `time.Time{}`, January 1 of year 1, in nanoseconds since the Unix epoch. */
  const ZeroTime: int := -62_135_596_800 * Second

  /** `t.Sub(u)`: the difference, saturated to the int64 range. */
  function Sub(t: int, u: int): (d: int)
    ensures InInt64(d)
    ensures InInt64(t - u) ==> d == t - u
  {
    if t - u > MaxInt64 then MaxInt64 else if t - u < MinInt64 then MinInt64 else t - u
  }

  /** `hostLimiter`: the start of the current window and the requests counted in it. */
  datatype HostLimiter = HostLimiter(lastTime: int, requests: int)

  /** A host's state when it is first seen: zero time, nothing counted. */
  const Fresh: HostLimiter := HostLimiter(ZeroTime, 0)

  datatype Limiter = Limiter(maxConcurrent: int, rpm: int, hosts: map<string, HostLimiter>)

  /** How the wait for a full window ended: its timer fired at `at`, or the context was cancelled. */
  datatype Wake = Fired(at: int) | Cancelled

  /** What `Wait` returns: nil, or the context's error. */
  datatype Status = Done | ContextDone

  /** The limiter afterwards, the status returned, and the RPM wait asked for (zero when none). */
  datatype WaitOutcome = WaitOutcome(limiter: Limiter, status: Status, waited: int)

  /** The host's state after the window check at `now`: a new window when more than a minute has passed. */
  function Refresh(h: HostLimiter, now: int): (r: HostLimiter)
    ensures Sub(now, h.lastTime) > Minute ==> r == HostLimiter(now, 0)
    ensures Sub(now, h.lastTime) <= Minute ==> r == h
  {
    if Sub(now, h.lastTime) > Minute then HostLimiter(now, 0) else h
  }

  /** The host's state, created on first use. */
  function HostOf(l: Limiter, host: string): HostLimiter {
    if host in l.hosts then l.hosts[host] else Fresh
  }

  /**
   * `RateLimiter.Wait(ctx, host)` at time `now`; `acquired` is false when the
   * context ended before a concurrency slot was free.
   */
  function Wait(l: Limiter, host: string, acquired: bool, now: int, wake: Wake): (r: WaitOutcome)
    ensures host in r.limiter.hosts
    ensures r.limiter.rpm == l.rpm && r.limiter.maxConcurrent == l.maxConcurrent
    ensures forall h :: h != host ==> (h in r.limiter.hosts <==> h in l.hosts)
    ensures forall h :: h != host && h in l.hosts ==> r.limiter.hosts[h] == l.hosts[h]
  {
    var h := HostOf(l, host);
    if !acquired then WaitOutcome(l.(hosts := l.hosts[host := h]), ContextDone, 0)
    else
      var h2 := Refresh(h, now);
      if h2.requests >= l.rpm then
        var waitTime := Wrap(Minute - Sub(now, h2.lastTime));
        match wake
        case Fired(at) => WaitOutcome(l.(hosts := l.hosts[host := HostLimiter(at, 1)]), Done, waitTime)
        case Cancelled => WaitOutcome(l.(hosts := l.hosts[host := h2]), ContextDone, waitTime)
      else WaitOutcome(l.(hosts := l.hosts[host := h2.(requests := h2.requests + 1)]), Done, 0)
  }

  /** Below the limit the request is counted in the current window with no wait. */
  lemma BelowLimitCounts(l: Limiter, host: string, now: int, wake: Wake)
    requires Refresh(HostOf(l, host), now).requests < l.rpm
    ensures var r := Wait(l, host, true, now, wake);
      var h2 := Refresh(HostOf(l, host), now);
      && r.status == Done && r.waited == 0
      && r.limiter.hosts[host] == HostLimiter(h2.lastTime, h2.requests + 1)
  {
  }

  /**
   * At the limit the wait is what is left of the window's minute, never
   * negative on a clock that does not run backwards, and the request then
   * opens a new window, counted as its first.
   */
  lemma FullWindowWaits(l: Limiter, host: string, now: int, at: int)
    requires Refresh(HostOf(l, host), now).requests >= l.rpm
    requires HostOf(l, host).lastTime <= now
    ensures var r := Wait(l, host, true, now, Fired(at));
      var h2 := Refresh(HostOf(l, host), now);
      && r.status == Done
      && 0 <= r.waited == Minute - (now - h2.lastTime) <= Minute
      && r.limiter.hosts[host] == HostLimiter(at, 1)
  {
    var h := HostOf(l, host);
    var h2 := Refresh(h, now);
    if Sub(now, h.lastTime) <= Minute {
      assert h2 == h;
      assert InInt64(now - h.lastTime);
    }
  }

  /** The window restarts only after strictly more than a minute; at exactly one minute it is kept. */
  lemma WindowKeptWithinMinute(l: Limiter, host: string, now: int, wake: Wake)
    requires host in l.hosts && l.hosts[host].lastTime <= now <= l.hosts[host].lastTime + Minute
    requires l.hosts[host].requests < l.rpm
    ensures Wait(l, host, true, now, wake).limiter.hosts[host]
      == HostLimiter(l.hosts[host].lastTime, l.hosts[host].requests + 1)
  {
    assert InInt64(now - l.hosts[host].lastTime);
  }

  /** A cancelled wait returns an error and leaves the count as the window check left it. */
  lemma CancelKeepsCount(l: Limiter, host: string, acquired: bool, now: int)
    requires !acquired || Refresh(HostOf(l, host), now).requests >= l.rpm
    ensures var r := Wait(l, host, acquired, now, Cancelled);
      && r.status == ContextDone
      && r.limiter.hosts[host] == (if acquired then Refresh(HostOf(l, host), now) else HostOf(l, host))
  {
  }

  /** Every host's count is between zero and the limit. */
  predicate WithinLimit(l: Limiter) {
    forall h :: h in l.hosts ==> 0 <= l.hosts[h].requests <= l.rpm
  }

  /** With a limit of at least one, every successful or cancelled `Wait` keeps all counts within the limit. */
  lemma WaitKeepsWithinLimit(l: Limiter, host: string, acquired: bool, now: int, wake: Wake)
    requires l.rpm >= 1 && WithinLimit(l)
    ensures WithinLimit(Wait(l, host, acquired, now, wake).limiter)
  {
    var r := Wait(l, host, acquired, now, wake);
    forall h | h in r.limiter.hosts ensures 0 <= r.limiter.hosts[h].requests <= l.rpm {
      if h != host {
        assert h in l.hosts;
      }
    }
  }

  /** A host seen for the first time at any time after 1970 starts a window there, counting this request. */
  lemma FirstWaitOpensWindow(l: Limiter, host: string, now: int, wake: Wake)
    requires host !in l.hosts && l.rpm >= 1 && now >= 0
    ensures Wait(l, host, true, now, wake).limiter.hosts[host] == HostLimiter(now, 1)
  {
    assert Sub(now, ZeroTime) > Minute;
  }
}
