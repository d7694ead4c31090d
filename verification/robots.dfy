/**
 * The per-host robots.txt cache: a hit while the entry has not expired, else
 * one fetch of `https://<host>/robots.txt` (section 2.3 of RFC 9309), whose
 * every failure is answered "allowed" without touching the cache, and whose
 * success replaces the host's entry for one TTL. The rule matcher is a stub
 * that disallows nothing. Times are nanoseconds on one clock; the fetch is
 * an abstract outcome.
 */
module Robots {
  import opened Common

  const Hour: int := 3_600_000_000_000

  /** The TTL the fetcher creates its cache with. */
  const FetcherTtl: int := 12 * Hour

  datatype Entry = Entry(content: string, expiresAt: int)

  type Cache = map<string, Entry>

  /** What became of the robots.txt request. */
  datatype Response =
    | BuildFailed
    | NetworkFailed
      /** A response; `body` is `None` when reading it failed. */
    | Received(status: int, body: Option<string>)

  /** The cache after the call, the answer, and the URL requested, if any. */
  datatype Outcome = Outcome(cache: Cache, allowed: bool, err: Option<string>, requested: Option<string>)

  function RobotsUrl(host: string): string {
    "https://" + host + "/robots.txt"
  }

  /** `isDisallowedByRobots`: the matcher is not implemented and disallows nothing. */
  function IsDisallowedByRobots(content: string, url: string): (r: bool)
    ensures !r
  {
    false
  }

  /** A cached entry that is still fresh at `now`. */
  predicate Hit(cache: Cache, host: string, now: int) {
    host in cache && now < cache[host].expiresAt
  }

  /**
   * `RobotsCache.IsAllowed` at time `now`, with `stored` the later clock
   * reading taken when a fetched file is cached.
   */
  function IsAllowed(cache: Cache, ttl: int, host: string, url: string, now: int, fetch: Response, stored: int): (r: Outcome)
    ensures r.allowed && r.err.None?
    ensures Hit(cache, host, now) ==> r.cache == cache && r.requested.None?
    ensures !Hit(cache, host, now) && !fetch.BuildFailed? ==> r.requested == Some(RobotsUrl(host))
    ensures r.cache != cache ==> fetch.Received? && fetch.status == 200 && fetch.body.Some?
    ensures forall h :: h != host ==> (h in r.cache <==> h in cache) && (h in cache ==> r.cache[h] == cache[h])
  {
    if Hit(cache, host, now) then
      Outcome(cache, !IsDisallowedByRobots(cache[host].content, url), None, None)
    else
      var robotsUrl := RobotsUrl(host);
      match fetch
      case BuildFailed => Outcome(cache, true, None, None)
      case NetworkFailed => Outcome(cache, true, None, Some(robotsUrl))
      case Received(status, body) =>
        if status != 200 then Outcome(cache, true, None, Some(robotsUrl))
        else if body.None? then Outcome(cache, true, None, Some(robotsUrl))
        else
          var content := body.value;
          Outcome(cache[host := Entry(content, stored + ttl)], !IsDisallowedByRobots(content, url), None, Some(robotsUrl))
  }

  /** The URL requested is the host's robots.txt at the root of its HTTPS origin. */
  lemma RobotsUrlShape(host: string)
    ensures var u := RobotsUrl(host);
      && u[..8] == "https://"
      && u[8..8 + |host|] == host
      && u[8 + |host|..] == "/robots.txt"
  {
  }

  /** On a miss, a 200 with a readable body replaces the host's entry, to expire one TTL after it was stored. */
  lemma StoredOnSuccess(cache: Cache, ttl: int, host: string, url: string, now: int, content: string, stored: int)
    requires !Hit(cache, host, now)
    ensures IsAllowed(cache, ttl, host, url, now, Received(200, Some(content)), stored).cache
      == cache[host := Entry(content, stored + ttl)]
  {
  }

  /** Every failure leaves the cache as it was: a fail-open answer that is not remembered. */
  lemma FailuresNotCached(cache: Cache, ttl: int, host: string, url: string, now: int, fetch: Response, stored: int)
    requires fetch.BuildFailed? || fetch.NetworkFailed? || (fetch.Received? && (fetch.status != 200 || fetch.body.None?))
    ensures IsAllowed(cache, ttl, host, url, now, fetch, stored).cache == cache
  {
  }

  /** Once stored, the entry answers every check made before it expires, with no request. */
  lemma StoredThenHit(cache: Cache, ttl: int, host: string, url: string, now: int, content: string, stored: int,
                      url2: string, now2: int, fetch2: Response, stored2: int)
    requires !Hit(cache, host, now)
    requires now2 < stored + ttl
    ensures var c1 := IsAllowed(cache, ttl, host, url, now, Received(200, Some(content)), stored).cache;
      var r2 := IsAllowed(c1, ttl, host, url2, now2, fetch2, stored2);
      r2.cache == c1 && r2.requested.None? && r2.allowed
  {
    StoredOnSuccess(cache, ttl, host, url, now, content, stored);
  }

  /** A failed fetch is retried on the next check: nothing was stored, so it misses again. */
  lemma FailureRetried(cache: Cache, ttl: int, host: string, url: string, now: int, fetch: Response, stored: int,
                       url2: string, now2: int, fetch2: Response, stored2: int)
    requires !Hit(cache, host, now) && now <= now2
    requires fetch.NetworkFailed? || (fetch.Received? && fetch.status != 200)
    requires !fetch2.BuildFailed?
    ensures var c1 := IsAllowed(cache, ttl, host, url, now, fetch, stored).cache;
      IsAllowed(c1, ttl, host, url2, now2, fetch2, stored2).requested == Some(RobotsUrl(host))
  {
  }
}
