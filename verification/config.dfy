/**
 * The crawler's configuration record, its validation (ordered checks, the
 * first failure reported) and the getters that turn its integer fields into
 * `time.Duration` nanoseconds.
 */
module Config {
  import opened Common
  import opened Int64

  datatype BaseUrls = BaseUrls(ru: string, ky: string)

  datatype Rod = Rod(
    enabled: bool,
    chromePath: string,
    pageTimeoutS: int,
    waitLoadTimeoutS: int,
    lazyLoadDelayS: int)

  datatype Backoff = Backoff(minMS: int, maxMS: int, jitterPct: int)

  datatype Http = Http(
    userAgent: string,
    connectTimeoutMS: int,
    totalTimeoutMS: int,
    maxRetries: int,
    maxIdleConnections: int,
    maxIdleConnectionsPerHost: int,
    idleConnectionTimeoutS: int,
    acceptLanguageRU: string,
    acceptLanguageKY: string)

  datatype RateLimit = RateLimit(maxConcurrentPerHost: int, rpm: int)

  datatype Pagination = Pagination(
    strategy: string,
    maxPagesRU: int,
    maxPagesKY: int,
    stopOnKnownChainPages: int,
    daysBackThreshold: int)

  datatype SelectorsFile = SelectorsFile(ru: string, ky: string)

  datatype NormalizeOptions = NormalizeOptions(
    stripBlocks: seq<string>,
    trimNBSP: bool,
    collapseSpaces: bool,
    maxPreviewChars: int)

  datatype Storage = Storage(
    driver: string,
    dsn: string,
    commandTimeoutMS: int,
    batchSize: int,
    txPerPage: bool)

  datatype Scheduler = Scheduler(mode: string, intervalS: int, cronExpr: string)

  datatype Observability = Observability(logPath: string, logLevel: string, metricsPath: string)

  datatype Config = Config(
    rod: Rod,
    backoff: Backoff,
    robotsCacheTTLHours: int,
    baseUrls: BaseUrls,
    http: Http,
    rateLimit: RateLimit,
    pagination: Pagination,
    selectorsFile: SelectorsFile,
    normalize: NormalizeOptions,
    storage: Storage,
    scheduler: Scheduler,
    observability: Observability)

  // ---------------------------------------------------------------------------
  // `Config.Validate`.

  /** The checks of `Validate`, one constructor per error it can return. */
  datatype Failure =
    | MissingBaseUrlRu
    | MissingBaseUrlKy
    | MissingUserAgent
    | BadConnectTimeout
    | BadTotalTimeout
    | BadMaxRetries
    | BadMaxConcurrent
    | BadRpm
    | BadMaxPagesRu
    | BadMaxPagesKy
    | BadDriver
    | MissingDsn
    | BadCommandTimeout
    | BadBatchSize
    | BadMode
    | BadInterval
    | MissingCronExpr
    | MissingLogPath
    | MissingLogLevel
    | BadRobotsTtl
    | BadBackoffMin
    | BadBackoffMax
    | BackoffMinAboveMax
    | BadJitterPct
    | MissingChromePath
    | BadRodPageTimeout
    | BadRodWaitLoadTimeout
    | BadRodLazyLoadDelay

  /** The error message of each failed check. */
  function Message(f: Failure): string {
    match f
    case MissingBaseUrlRu => "base_urls.ru is required"
    case MissingBaseUrlKy => "base_urls.ky is required"
    case MissingUserAgent => "http.user_agent is required"
    case BadConnectTimeout => "http.connect_timeout_ms must be > 0"
    case BadTotalTimeout => "http.total_timeout_ms must be > 0"
    case BadMaxRetries => "http.max_retries must be >= 0"
    case BadMaxConcurrent => "rate_limit.max_concurrent_per_host must be > 0"
    case BadRpm => "rate_limit.rpm must be > 0"
    case BadMaxPagesRu => "pagination.max_pages_ru must be > 0"
    case BadMaxPagesKy => "pagination.max_pages_ky must be > 0"
    case BadDriver => "storage.driver must be 'mssql' or 'postgres'"
    case MissingDsn => "storage.dsn is required"
    case BadCommandTimeout => "storage.command_timeout_ms must be > 0"
    case BadBatchSize => "storage.batch_size must be > 0"
    case BadMode => "scheduler.mode must be 'interval', 'cron' or 'oneshot'"
    case BadInterval => "scheduler.interval_s must be > 0 when mode is 'interval'"
    case MissingCronExpr => "scheduler.cron_expr must be set when mode is 'cron'"
    case MissingLogPath => "observability.log_path is required"
    case MissingLogLevel => "observability.log_level is required"
    case BadRobotsTtl => "robots_cache_ttl_hours must be > 0"
    case BadBackoffMin => "backoff.min_ms must be > 0"
    case BadBackoffMax => "backoff.max_ms must be > 0"
    case BackoffMinAboveMax => "backoff.min_ms must be <= backoff.max_ms"
    case BadJitterPct => "backoff.jitter_pct must be between 0 and 100"
    case MissingChromePath => "rod.chrome_path is required when rod.enabled is true"
    case BadRodPageTimeout => "rod.page_timeout_s must be > 0"
    case BadRodWaitLoadTimeout => "rod.wait_load_timeout_s must be > 0"
    case BadRodLazyLoadDelay => "rod.lazy_load_delay_s must be >= 0"
  }

  /** The first of two results that reports a failure. */
  function OrElse(first: Option<Failure>, second: Option<Failure>): Option<Failure> {
    if first.Some? then first else second
  }

  /**
   * The validation chain, check by check in source order: `None` when every
   * check passes, else the first one that fails. The chain is cut into the
   * config's sections; the rod checks run only when rod is enabled.
   */
  function Validate(c: Config): (r: Option<Failure>)
    ensures r.None? ==> 0 < c.backoff.minMS <= c.backoff.maxMS
    ensures r.None? ==> 0 <= c.backoff.jitterPct <= 100
    ensures r.None? ==> c.storage.driver in {"mssql", "postgres"}
    ensures r.None? ==> c.scheduler.mode in {"interval", "cron", "oneshot"}
    ensures r.None? ==> c.http.maxRetries >= 0 && c.rateLimit.rpm > 0
  {
    OrElse(ValidateFetching(c),
      OrElse(ValidateRunning(c),
        OrElse(ValidateBackoff(c.backoff),
          if c.rod.enabled then ValidateRod(c.rod) else None)))
  }

  /** Base URLs, HTTP, rate limit and pagination. */
  function ValidateFetching(c: Config): (r: Option<Failure>)
    ensures r.None? ==> c.http.maxRetries >= 0 && c.rateLimit.rpm > 0
  {
    if c.baseUrls.ru == "" then Some(MissingBaseUrlRu)
    else if c.baseUrls.ky == "" then Some(MissingBaseUrlKy)
    else if c.http.userAgent == "" then Some(MissingUserAgent)
    else if c.http.connectTimeoutMS <= 0 then Some(BadConnectTimeout)
    else if c.http.totalTimeoutMS <= 0 then Some(BadTotalTimeout)
    else if c.http.maxRetries < 0 then Some(BadMaxRetries)
    else if c.rateLimit.maxConcurrentPerHost <= 0 then Some(BadMaxConcurrent)
    else if c.rateLimit.rpm <= 0 then Some(BadRpm)
    else if c.pagination.maxPagesRU <= 0 then Some(BadMaxPagesRu)
    else if c.pagination.maxPagesKY <= 0 then Some(BadMaxPagesKy)
    else None
  }

  /** Storage, scheduler, observability and the robots cache lifetime. */
  function ValidateRunning(c: Config): (r: Option<Failure>)
    ensures r.None? ==> c.storage.driver in {"mssql", "postgres"}
    ensures r.None? ==> c.scheduler.mode in {"interval", "cron", "oneshot"}
  {
    if c.storage.driver == "" || (c.storage.driver != "mssql" && c.storage.driver != "postgres") then
      Some(BadDriver)
    else if c.storage.dsn == "" then Some(MissingDsn)
    else if c.storage.commandTimeoutMS <= 0 then Some(BadCommandTimeout)
    else if c.storage.batchSize <= 0 then Some(BadBatchSize)
    else if c.scheduler.mode == ""
      || (c.scheduler.mode != "interval" && c.scheduler.mode != "cron" && c.scheduler.mode != "oneshot") then
      Some(BadMode)
    else if c.scheduler.mode == "interval" && c.scheduler.intervalS <= 0 then
      Some(BadInterval)
    else if c.scheduler.mode == "cron" && c.scheduler.cronExpr == "" then
      Some(MissingCronExpr)
    else if c.observability.logPath == "" then Some(MissingLogPath)
    else if c.observability.logLevel == "" then Some(MissingLogLevel)
    else if c.robotsCacheTTLHours <= 0 then Some(BadRobotsTtl)
    else None
  }

  function ValidateBackoff(b: Backoff): (r: Option<Failure>)
    ensures r.None? <==> 0 < b.minMS <= b.maxMS && 0 <= b.jitterPct <= 100
  {
    if b.minMS <= 0 then Some(BadBackoffMin)
    else if b.maxMS <= 0 then Some(BadBackoffMax)
    else if b.minMS > b.maxMS then Some(BackoffMinAboveMax)
    else if b.jitterPct < 0 || b.jitterPct > 100 then Some(BadJitterPct)
    else None
  }

  /** The checks on the headless-browser section. */
  function ValidateRod(rod: Rod): (r: Option<Failure>)
    ensures r.None? <==> rod.chromePath != "" && rod.pageTimeoutS > 0 && rod.waitLoadTimeoutS > 0 && rod.lazyLoadDelayS >= 0
  {
    if rod.chromePath == "" then Some(MissingChromePath)
    else if rod.pageTimeoutS <= 0 then Some(BadRodPageTimeout)
    else if rod.waitLoadTimeoutS <= 0 then Some(BadRodWaitLoadTimeout)
    else if rod.lazyLoadDelayS < 0 then Some(BadRodLazyLoadDelay)
    else None
  }

  /** One check of the chain: whether it holds, and the failure reported when it does not. */
  datatype Check = Check(holds: bool, failure: Failure)

  /** The checks of `Validate`, in source order, as one list; the rod checks hold vacuously when rod is off. */
  function Checks(c: Config): seq<Check> {
    FetchingChecks(c) + RunningChecks(c) + BackoffChecks(c.backoff) + RodChecks(c.rod)
  }

  function FetchingChecks(c: Config): seq<Check> {
    [ Check(c.baseUrls.ru != "", MissingBaseUrlRu),
      Check(c.baseUrls.ky != "", MissingBaseUrlKy),
      Check(c.http.userAgent != "", MissingUserAgent),
      Check(c.http.connectTimeoutMS > 0, BadConnectTimeout),
      Check(c.http.totalTimeoutMS > 0, BadTotalTimeout),
      Check(c.http.maxRetries >= 0, BadMaxRetries),
      Check(c.rateLimit.maxConcurrentPerHost > 0, BadMaxConcurrent),
      Check(c.rateLimit.rpm > 0, BadRpm),
      Check(c.pagination.maxPagesRU > 0, BadMaxPagesRu),
      Check(c.pagination.maxPagesKY > 0, BadMaxPagesKy) ]
  }

  function RunningChecks(c: Config): seq<Check> {
    [ Check(c.storage.driver in {"mssql", "postgres"}, BadDriver),
      Check(c.storage.dsn != "", MissingDsn),
      Check(c.storage.commandTimeoutMS > 0, BadCommandTimeout),
      Check(c.storage.batchSize > 0, BadBatchSize),
      Check(c.scheduler.mode in {"interval", "cron", "oneshot"}, BadMode),
      Check(c.scheduler.mode != "interval" || c.scheduler.intervalS > 0, BadInterval),
      Check(c.scheduler.mode != "cron" || c.scheduler.cronExpr != "", MissingCronExpr),
      Check(c.observability.logPath != "", MissingLogPath),
      Check(c.observability.logLevel != "", MissingLogLevel),
      Check(c.robotsCacheTTLHours > 0, BadRobotsTtl) ]
  }

  function BackoffChecks(b: Backoff): seq<Check> {
    [ Check(b.minMS > 0, BadBackoffMin),
      Check(b.maxMS > 0, BadBackoffMax),
      Check(b.minMS <= b.maxMS, BackoffMinAboveMax),
      Check(0 <= b.jitterPct <= 100, BadJitterPct) ]
  }

  function RodChecks(rod: Rod): seq<Check> {
    [ Check(!rod.enabled || rod.chromePath != "", MissingChromePath),
      Check(!rod.enabled || rod.pageTimeoutS > 0, BadRodPageTimeout),
      Check(!rod.enabled || rod.waitLoadTimeoutS > 0, BadRodWaitLoadTimeout),
      Check(!rod.enabled || rod.lazyLoadDelayS >= 0, BadRodLazyLoadDelay) ]
  }

  /** The first failing check at index `k` or later, or `None` when all of those hold. */
  function FirstFailureFrom(checks: seq<Check>, k: nat): (r: Option<Failure>)
    ensures r.None? <==> forall j :: k <= j < |checks| ==> checks[j].holds
    ensures r.Some? ==> exists j :: k <= j < |checks| && !checks[j].holds && checks[j].failure == r.value
    decreases |checks| - k
  {
    if k >= |checks| then None
    else if !checks[k].holds then Some(checks[k].failure)
    else FirstFailureFrom(checks, k + 1)
  }

  /** The first failing check of the whole list. */
  function FirstFailure(checks: seq<Check>): Option<Failure> {
    FirstFailureFrom(checks, 0)
  }

  /** The first failure of two lists one after the other is the first list's, else the second's. */
  lemma {:induction false} FirstFailureAppend(a: seq<Check>, b: seq<Check>, k: nat)
    requires k <= |a|
    ensures FirstFailureFrom(a + b, k) == OrElse(FirstFailureFrom(a, k), FirstFailureFrom(b, 0))
    decreases |a| - k
  {
    if k < |a| {
      assert (a + b)[k] == a[k];
      FirstFailureAppend(a, b, k + 1);
    } else {
      FirstFailureShift(a, b, 0);
    }
  }

  /** Indices past the first list read the second. */
  lemma {:induction false} FirstFailureShift(a: seq<Check>, b: seq<Check>, j: nat)
    requires j <= |b|
    ensures FirstFailureFrom(a + b, |a| + j) == FirstFailureFrom(b, j)
    decreases |b| - j
  {
    if j < |b| {
      assert (a + b)[|a| + j] == b[j];
      FirstFailureShift(a, b, j + 1);
    }
  }

  /** The fetching section reports the first failing check of its list. */
  lemma FetchingFirstFailure(c: Config)
    ensures ValidateFetching(c) == FirstFailure(FetchingChecks(c))
  {
    var cs := FetchingChecks(c);
    assert FirstFailureFrom(cs, 9) == if cs[9].holds then FirstFailureFrom(cs, 10) else Some(cs[9].failure);
    assert FirstFailureFrom(cs, 8) == if cs[8].holds then FirstFailureFrom(cs, 9) else Some(cs[8].failure);
    assert FirstFailureFrom(cs, 7) == if cs[7].holds then FirstFailureFrom(cs, 8) else Some(cs[7].failure);
    assert FirstFailureFrom(cs, 6) == if cs[6].holds then FirstFailureFrom(cs, 7) else Some(cs[6].failure);
    assert FirstFailureFrom(cs, 5) == if cs[5].holds then FirstFailureFrom(cs, 6) else Some(cs[5].failure);
    assert FirstFailureFrom(cs, 4) == if cs[4].holds then FirstFailureFrom(cs, 5) else Some(cs[4].failure);
    assert FirstFailureFrom(cs, 3) == if cs[3].holds then FirstFailureFrom(cs, 4) else Some(cs[3].failure);
    assert FirstFailureFrom(cs, 2) == if cs[2].holds then FirstFailureFrom(cs, 3) else Some(cs[2].failure);
    assert FirstFailureFrom(cs, 1) == if cs[1].holds then FirstFailureFrom(cs, 2) else Some(cs[1].failure);
    assert FirstFailureFrom(cs, 0) == if cs[0].holds then FirstFailureFrom(cs, 1) else Some(cs[0].failure);
  }

  /** The running section reports the first failing check of its list. */
  lemma RunningFirstFailure(c: Config)
    ensures ValidateRunning(c) == FirstFailure(RunningChecks(c))
  {
    var cs := RunningChecks(c);
    assert FirstFailureFrom(cs, 9) == if cs[9].holds then FirstFailureFrom(cs, 10) else Some(cs[9].failure);
    assert FirstFailureFrom(cs, 8) == if cs[8].holds then FirstFailureFrom(cs, 9) else Some(cs[8].failure);
    assert FirstFailureFrom(cs, 7) == if cs[7].holds then FirstFailureFrom(cs, 8) else Some(cs[7].failure);
    assert FirstFailureFrom(cs, 6) == if cs[6].holds then FirstFailureFrom(cs, 7) else Some(cs[6].failure);
    assert FirstFailureFrom(cs, 5) == if cs[5].holds then FirstFailureFrom(cs, 6) else Some(cs[5].failure);
    assert FirstFailureFrom(cs, 4) == if cs[4].holds then FirstFailureFrom(cs, 5) else Some(cs[4].failure);
    assert FirstFailureFrom(cs, 3) == if cs[3].holds then FirstFailureFrom(cs, 4) else Some(cs[3].failure);
    assert FirstFailureFrom(cs, 2) == if cs[2].holds then FirstFailureFrom(cs, 3) else Some(cs[2].failure);
    assert FirstFailureFrom(cs, 1) == if cs[1].holds then FirstFailureFrom(cs, 2) else Some(cs[1].failure);
    assert FirstFailureFrom(cs, 0) == if cs[0].holds then FirstFailureFrom(cs, 1) else Some(cs[0].failure);
  }

  /** The backoff section reports the first failing check of its list. */
  lemma BackoffFirstFailure(b: Backoff)
    ensures ValidateBackoff(b) == FirstFailure(BackoffChecks(b))
  {
    var cs := BackoffChecks(b);
    assert FirstFailureFrom(cs, 3) == if cs[3].holds then FirstFailureFrom(cs, 4) else Some(cs[3].failure);
    assert FirstFailureFrom(cs, 2) == if cs[2].holds then FirstFailureFrom(cs, 3) else Some(cs[2].failure);
    assert FirstFailureFrom(cs, 1) == if cs[1].holds then FirstFailureFrom(cs, 2) else Some(cs[1].failure);
    assert FirstFailureFrom(cs, 0) == if cs[0].holds then FirstFailureFrom(cs, 1) else Some(cs[0].failure);
  }

  /** The rod section, run only when enabled, reports the first failing check of its list. */
  lemma RodFirstFailure(rod: Rod)
    ensures (if rod.enabled then ValidateRod(rod) else None) == FirstFailure(RodChecks(rod))
  {
    var cs := RodChecks(rod);
    assert FirstFailureFrom(cs, 3) == if cs[3].holds then FirstFailureFrom(cs, 4) else Some(cs[3].failure);
    assert FirstFailureFrom(cs, 2) == if cs[2].holds then FirstFailureFrom(cs, 3) else Some(cs[2].failure);
    assert FirstFailureFrom(cs, 1) == if cs[1].holds then FirstFailureFrom(cs, 2) else Some(cs[1].failure);
    assert FirstFailureFrom(cs, 0) == if cs[0].holds then FirstFailureFrom(cs, 1) else Some(cs[0].failure);
  }

  /** `Validate` reports exactly the first failing check of the whole list, in source order. */
  lemma ValidateIsFirstFailure(c: Config)
    ensures Validate(c) == FirstFailure(Checks(c))
  {
    FetchingFirstFailure(c);
    RunningFirstFailure(c);
    BackoffFirstFailure(c.backoff);
    RodFirstFailure(c.rod);
    var f, g, h, j := FetchingChecks(c), RunningChecks(c), BackoffChecks(c.backoff), RodChecks(c.rod);
    FirstFailureAppend(h, j, 0);
    FirstFailureAppend(g, h + j, 0);
    FirstFailureAppend(f, g + (h + j), 0);
    assert Checks(c) == f + (g + (h + j));
  }

  /** A configuration passes validation exactly when every check holds. */
  lemma ValidIff(c: Config)
    ensures Validate(c).None? <==> forall k :: 0 <= k < |Checks(c)| ==> Checks(c)[k].holds
  {
    ValidateIsFirstFailure(c);
  }

  /** With the headless browser off, its settings never affect validation. */
  lemma RodIgnoredWhenDisabled(c: Config, rod: Rod)
    requires !c.rod.enabled && !rod.enabled
    ensures Validate(c) == Validate(c.(rod := rod))
  {
  }

  /** The interval and cron modes need their own setting. */
  lemma ScheduleSettings(c: Config)
    requires Validate(c).None?
    ensures c.scheduler.mode == "interval" ==> c.scheduler.intervalS > 0
    ensures c.scheduler.mode == "cron" ==> c.scheduler.cronExpr != ""
    ensures c.rod.enabled ==> c.rod.chromePath != "" && c.rod.pageTimeoutS > 0
  {
  }

  // ---------------------------------------------------------------------------
  // Duration getters: `time.Duration(n) * unit`, an int64 product that wraps.

  const Nanosecond: int := 1
  const Millisecond: int := 1_000_000
  const Second: int := 1_000_000_000
  const Hour: int := 3_600_000_000_000

  /** `time.Duration(n) * unit` in nanoseconds. */
  function Scale(n: int, unit: int): (d: int)
    requires unit > 0
    ensures InInt64(d)
    ensures (d - n * unit) % TwoTo64 == 0
    ensures InInt64(n * unit) ==> d == n * unit
  {
    Wrap(n * unit)
  }

  function ConnectTimeout(c: Config): int { Scale(c.http.connectTimeoutMS, Millisecond) }
  function TotalTimeout(c: Config): int { Scale(c.http.totalTimeoutMS, Millisecond) }
  function IdleConnectionTimeout(c: Config): int { Scale(c.http.idleConnectionTimeoutS, Second) }
  function BackoffMin(c: Config): int { Scale(c.backoff.minMS, Millisecond) }
  function BackoffMax(c: Config): int { Scale(c.backoff.maxMS, Millisecond) }
  function CommandTimeout(c: Config): int { Scale(c.storage.commandTimeoutMS, Millisecond) }
  function SchedulerInterval(c: Config): int { Scale(c.scheduler.intervalS, Second) }
  function RobotsCacheTTL(c: Config): int { Scale(c.robotsCacheTTLHours, Hour) }
  function RodPageTimeout(c: Config): int { Scale(c.rod.pageTimeoutS, Second) }
  function RodWaitLoadTimeout(c: Config): int { Scale(c.rod.waitLoadTimeoutS, Second) }
  function RodLazyLoadDelay(c: Config): int { Scale(c.rod.lazyLoadDelayS, Second) }

  /**
   * On a validated configuration whose values fit, the timeouts that must be
   * positive come out as positive durations, the exact multiples of their units.
   */
  lemma ValidDurations(c: Config)
    requires Validate(c).None?
    requires c.http.connectTimeoutMS * Millisecond <= MaxInt64
    requires c.backoff.maxMS * Millisecond <= MaxInt64
    requires c.robotsCacheTTLHours * Hour <= MaxInt64
    ensures ConnectTimeout(c) == c.http.connectTimeoutMS * Millisecond > 0
    ensures 0 < BackoffMin(c) <= BackoffMax(c) == c.backoff.maxMS * Millisecond
    ensures RobotsCacheTTL(c) == c.robotsCacheTTLHours * Hour > 0
  {
    assert c.backoff.minMS * Millisecond <= c.backoff.maxMS * Millisecond;
  }
}
