/**
 * The per-language pagination run: fetch a page, parse its cards, upsert the
 * cards dated on or after the threshold, count the older ones, track runs of
 * all-old pages, and follow the next-page link, until one of the stop
 * conditions holds or the page budget is spent.
 *
 * Fetching, listing parsing and next-link extraction of one URL are an
 * abstract page source; the date of a card is read by the date parser.
 */
module Orchestrator {
  import opened Common
  import opened Decimal
  import opened Calendar
  import DateParser
  import Scraper

  /** What the fetcher and the scraper make of one URL. */
  datatype Page =
    | FetchFailed(fetchError: string)
    | ParseFailed(parseError: string)
      /** The listing's cards and the next-page lookup (`Ok("")` when there is no link). */
    | Fetched(cards: seq<Scraper.Card>, next: Result<string, string>)

  /** Why the run stopped; each stop names the page it happened on. */
  datatype StopReason =
    | NotStopped
    | FetchError(page: int, error: string)
    | ParseError(page: int, error: string)
    | NoCards(page: int)
    | ChainReached(chainPages: int, page: int)
    | NextLinkError(page: int, error: string)
    | NoNextLink(page: int)

  /** The `StoppedReason` message of each stop. */
  function ReasonText(r: StopReason): (s: string)
    ensures s == "" <==> r.NotStopped?
  {
    match r
    case NotStopped => ""
    case FetchError(p, e) => "fetch error at page " + FormatInt(p) + ": " + e
    case ParseError(p, e) => "parse error at page " + FormatInt(p) + ": " + e
    case NoCards(p) => "no cards on page " + FormatInt(p)
    case ChainReached(n, p) => "reached " + FormatInt(n) + " consecutive old pages at page " + FormatInt(p)
    case NextLinkError(p, e) => "failed to extract next link at page " + FormatInt(p) + ": " + e
    case NoNextLink(p) => "no next link at page " + FormatInt(p)
  }

  /** `PaginationStats`. */
  datatype Stats = Stats(
    totalPages: int,
    totalCards: int,
    oldCards: int,
    consecutiveOldPages: int,
    stoppedReason: string)

  /** A card handed to the repository, with the date its raw date parsed to. */
  datatype Upsert = Upsert(card: Scraper.Card, date: Date)

  /**
   * The run's inputs: the page source, the date parser, the page budget, the
   * consecutive-old-pages limit and the date threshold.
   */
  datatype Env = Env(
    source: string -> Page,
    parseDate: string -> Result<Date, DateParser.DateError>,
    maxPages: int,
    stopOnChain: int,
    threshold: Date)

  /** The environment of a run for one language configuration, with one reading of the clock. */
  function EnvFor(source: string -> Page, lang: string, clock: DateParser.Clock,
                  maxPages: int, stopOnChain: int, daysBack: int): (e: Env)
    ensures forall raw :: e.parseDate(raw) == DateParser.Parse(lang, raw, clock)
    ensures Valid(e.threshold)
  {
    Env(source, raw => DateParser.Parse(lang, raw, clock), maxPages, stopOnChain, Threshold(clock, daysBack))
  }

  /**
   * The returned stats and error, plus what the run did: the URLs fetched in
   * order, the upserts attempted in order, the reason it stopped and the
   * final value of the local consecutive-old-pages counter.
   */
  datatype RunResult = RunResult(
    stats: Stats,
    reason: StopReason,
    err: Option<string>,
    fetched: seq<string>,
    upserts: seq<Upsert>,
    chain: int)

  /** `latestKnownDate`: today's UTC day moved back `daysBack` days. */
  function Threshold(clock: DateParser.Clock, daysBack: int): (d: Date)
    ensures Valid(d)
    ensures daysBack > 0 ==> Before(d, clock.utcToday)
    ensures daysBack == 0 ==> d == clock.utcToday
    ensures AddDays(d, daysBack) == clock.utcToday
  {
    AddDaysInverse(clock.utcToday, daysBack);
    AddDays(clock.utcToday, -daysBack)
  }

  function CardDate(e: Env, c: Scraper.Card): Result<Date, DateParser.DateError> {
    e.parseDate(c.dateRaw)
  }

  /** A card whose date parsed to a day before the threshold. */
  predicate IsOld(e: Env, c: Scraper.Card) {
    CardDate(e, c).Ok? && Before(CardDate(e, c).value, e.threshold)
  }

  /** A card whose date parsed to the threshold day or later. */
  predicate IsFresh(e: Env, c: Scraper.Card) {
    CardDate(e, c).Ok? && !Before(CardDate(e, c).value, e.threshold)
  }

  /** What the card loop of one page produces. */
  datatype Tally = Tally(oldCount: nat, upserts: seq<Upsert>)

  /**
   * The card loop: a card whose date does not parse is skipped, a fresh card
   * is upserted and an old one counted.
   */
  function TallyCards(e: Env, cards: seq<Scraper.Card>): (t: Tally)
    ensures t.oldCount + |t.upserts| <= |cards|
    ensures forall k :: 0 <= k < |t.upserts| ==>
      (t.upserts[k].card in cards && IsFresh(e, t.upserts[k].card)
       && CardDate(e, t.upserts[k].card) == Ok(t.upserts[k].date))
  {
    if |cards| == 0 then Tally(0, [])
    else
      var rest := TallyCards(e, cards[1..]);
      var c := cards[0];
      match CardDate(e, c)
      case Err(_) => rest
      case Ok(d) =>
        if Before(d, e.threshold) then Tally(rest.oldCount + 1, rest.upserts)
        else Tally(rest.oldCount, [Upsert(c, d)] + rest.upserts)
  }

  /** Every card of the page counts as old exactly when each one parsed to a day before the threshold. */
  lemma {:induction false} AllOldIff(e: Env, cards: seq<Scraper.Card>)
    ensures TallyCards(e, cards).oldCount == |cards| <==> forall k :: 0 <= k < |cards| ==> IsOld(e, cards[k])
    decreases |cards|
  {
    if |cards| > 0 {
      AllOldIff(e, cards[1..]);
      var t := TallyCards(e, cards[1..]);
      assert t.oldCount <= |cards| - 1;
      if forall k :: 0 <= k < |cards| ==> IsOld(e, cards[k]) {
        assert forall k :: 0 <= k < |cards| - 1 ==> IsOld(e, cards[1..][k]) by {
          forall k | 0 <= k < |cards| - 1 ensures IsOld(e, cards[1..][k]) {
            assert cards[1..][k] == cards[k + 1];
          }
        }
      }
      if TallyCards(e, cards).oldCount == |cards| {
        forall k | 0 <= k < |cards| ensures IsOld(e, cards[k]) {
          if k > 0 {
            assert cards[k] == cards[1..][k - 1];
          }
        }
      }
    }
  }

  /** When every date parses, each card is either upserted or counted old, never both. */
  lemma {:induction false} TallyExact(e: Env, cards: seq<Scraper.Card>)
    requires forall k :: 0 <= k < |cards| ==> CardDate(e, cards[k]).Ok?
    ensures TallyCards(e, cards).oldCount + |TallyCards(e, cards).upserts| == |cards|
    decreases |cards|
  {
    if |cards| > 0 {
      assert forall k :: 0 <= k < |cards| - 1 ==> cards[1..][k] == cards[k + 1];
      TallyExact(e, cards[1..]);
    }
  }

  /** The tally of a page is the sum of the tallies of its parts, upserts in card order. */
  lemma {:induction false} TallyAppend(e: Env, a: seq<Scraper.Card>, b: seq<Scraper.Card>)
    ensures TallyCards(e, a + b)
      == Tally(TallyCards(e, a).oldCount + TallyCards(e, b).oldCount,
               TallyCards(e, a).upserts + TallyCards(e, b).upserts)
    decreases |a|
  {
    if |a| == 0 {
      assert a + b == b;
    } else {
      assert (a + b)[0] == a[0];
      assert (a + b)[1..] == a[1..] + b;
      TallyAppend(e, a[1..], b);
      var ta, tb := TallyCards(e, a[1..]), TallyCards(e, b);
      match CardDate(e, a[0])
      case Err(_) =>
      case Ok(d) =>
        if !Before(d, e.threshold) {
          assert [Upsert(a[0], d)] + (ta.upserts + tb.upserts) == [Upsert(a[0], d)] + ta.upserts + tb.upserts;
        }
    }
  }

  /**
   * One card: skipped when its date does not parse, counted old when it
   * parsed to a day before the threshold, upserted with its date otherwise.
   */
  lemma TallyOne(e: Env, c: Scraper.Card)
    ensures CardDate(e, c).Err? ==> TallyCards(e, [c]) == Tally(0, [])
    ensures IsOld(e, c) ==> TallyCards(e, [c]) == Tally(1, [])
    ensures IsFresh(e, c) ==> TallyCards(e, [c]) == Tally(0, [Upsert(c, CardDate(e, c).value)])
  {
    assert [c][1..] == [];
  }

  /** A card whose date does not parse contributes to neither count. */
  lemma UnparsedSkipped(e: Env, c: Scraper.Card, cards: seq<Scraper.Card>)
    requires CardDate(e, c).Err?
    ensures TallyCards(e, [c] + cards) == TallyCards(e, cards)
  {
    assert ([c] + cards)[1..] == cards;
  }

  /** A result that fetched nothing more and stops for `reason`. */
  function Stop(reason: StopReason, err: Option<string>, fetched: seq<string>, chain: int): RunResult {
    RunResult(Stats(0, 0, 0, 0, ReasonText(reason)), reason, err, fetched, [], chain)
  }

  /** A counted page in front of the rest of the run. */
  function Counted(url: string, cards: nat, t: Tally, rest: RunResult): RunResult {
    var s := rest.stats;
    RunResult(
      s.(totalPages := s.totalPages + 1, totalCards := s.totalCards + cards, oldCards := s.oldCards + t.oldCount),
      rest.reason, rest.err, [url] + rest.fetched, t.upserts + rest.upserts, rest.chain)
  }

  /** The pages the budget still allows from page `pageNum` on. */
  function Budget(e: Env, pageNum: int): nat {
    if pageNum <= e.maxPages then e.maxPages - pageNum + 1 else 0
  }

  /** The loop from page `pageNum` on, at `url`, with the consecutive-old-pages counter at `chain`. */
  function Pages(e: Env, pageNum: int, url: string, chain: int): (r: RunResult)
    ensures r.stats.consecutiveOldPages == 0
    ensures 0 <= r.stats.oldCards <= r.stats.totalCards
    ensures r.stats.stoppedReason == ReasonText(r.reason)
    ensures r.err.Some? <==> r.reason.FetchError? || r.reason.ParseError?
    ensures r.reason.FetchError? ==> r.err == Some(r.reason.error)
    ensures r.reason.ParseError? ==> r.err == Some(r.reason.error)
    ensures |r.fetched| <= Budget(e, pageNum)
    ensures forall k :: 0 <= k < |r.upserts| ==>
      IsFresh(e, r.upserts[k].card) && CardDate(e, r.upserts[k].card) == Ok(r.upserts[k].date)
    decreases Budget(e, pageNum), 1
  {
    if pageNum > e.maxPages then Stop(NotStopped, None, [], chain)
    else
      match e.source(url)
      case FetchFailed(err) => Stop(FetchError(pageNum, err), Some(err), [url], chain)
      case ParseFailed(err) => Stop(ParseError(pageNum, err), Some(err), [url], chain)
      case Fetched(cards, next) =>
        if |cards| == 0 then Stop(NoCards(pageNum), None, [url], chain)
        else
          var t := TallyCards(e, cards);
          Counted(url, |cards|, t, AfterTally(e, pageNum, t.oldCount == |cards|, next, chain))
  }

  /**
   * The end of the loop body for a counted page: update the counter, stop on
   * the chain limit, else follow the next link.
   */
  function AfterTally(e: Env, pageNum: int, allOld: bool, next: Result<string, string>, chain: int): (r: RunResult)
    requires pageNum <= e.maxPages
    ensures r.stats.consecutiveOldPages == 0
    ensures 0 <= r.stats.oldCards <= r.stats.totalCards
    ensures r.stats.stoppedReason == ReasonText(r.reason)
    ensures r.err.Some? <==> r.reason.FetchError? || r.reason.ParseError?
    ensures r.reason.FetchError? ==> r.err == Some(r.reason.error)
    ensures r.reason.ParseError? ==> r.err == Some(r.reason.error)
    ensures |r.fetched| < Budget(e, pageNum)
    ensures forall k :: 0 <= k < |r.upserts| ==>
      IsFresh(e, r.upserts[k].card) && CardDate(e, r.upserts[k].card) == Ok(r.upserts[k].date)
    decreases Budget(e, pageNum), 0
  {
    var chain' := if allOld then chain + 1 else 0;
    if allOld && chain' >= e.stopOnChain then Stop(ChainReached(e.stopOnChain, pageNum), None, [], chain')
    else
      match next
      case Err(err) => Stop(NextLinkError(pageNum, err), None, [], chain')
      case Ok(link) =>
        if link == "" then Stop(NoNextLink(pageNum), None, [], chain')
        else Pages(e, pageNum + 1, link, chain')
  }

  /** `Orchestrator.Run` from the base URL. */
  function Crawl(e: Env, baseUrl: string): RunResult {
    Pages(e, 1, baseUrl, 0)
  }

  // ---------------------------------------------------------------------------
  // Properties of the run.

  /** A page that was fetched, had cards, and named a non-empty next link `u`. */
  predicate LinksTo(p: Page, u: string) {
    p.Fetched? && |p.cards| > 0 && p.next == Ok(u) && u != ""
  }

  /** Each fetched URL after the first is the next link of the page before it. */
  predicate Chained(e: Env, urls: seq<string>) {
    forall k :: 0 <= k < |urls| - 1 ==> LinksTo(e.source(urls[k]), urls[k + 1])
  }

  /** The page number a stop names. */
  function StopPage(r: StopReason): int
    requires !r.NotStopped?
  {
    r.page
  }

  /** A page that is counted: it was fetched and parsed and has cards. */
  predicate HasCards(p: Page) {
    p.Fetched? && |p.cards| > 0
  }

  /** A counted page all of whose cards are old. */
  predicate AllOldPage(e: Env, p: Page) {
    HasCards(p) && TallyCards(e, p.cards).oldCount == |p.cards|
  }

  /** What the page a run stopped on must have been for each stop reason. */
  predicate Explains(e: Env, reason: StopReason, p: Page) {
    match reason
    case NotStopped => true
    case FetchError(_, err) => p == FetchFailed(err)
    case ParseError(_, err) => p == ParseFailed(err)
    case NoCards(_) => p.Fetched? && |p.cards| == 0
    case ChainReached(_, _) => AllOldPage(e, p)
    case NextLinkError(_, err) => HasCards(p) && p.next == Err(err)
    case NoNextLink(_) => HasCards(p) && p.next == Ok("")
  }

  /** One step of the loop on a page with cards. */
  lemma PagesStep(e: Env, pageNum: int, url: string, chain: int)
    requires pageNum <= e.maxPages && HasCards(e.source(url))
    ensures var p := e.source(url);
      var t := TallyCards(e, p.cards);
      Pages(e, pageNum, url, chain) == Counted(url, |p.cards|, t, AfterTally(e, pageNum, t.oldCount == |p.cards|, p.next, chain))
  {
  }

  /** The loop goes on to the next page unless the chain limit is reached or there is no next link. */
  lemma AfterTallyStep(e: Env, pageNum: int, allOld: bool, next: Result<string, string>, chain: int)
    requires pageNum <= e.maxPages
    ensures var chain' := if allOld then chain + 1 else 0;
      var a := AfterTally(e, pageNum, allOld, next, chain);
      if allOld && chain' >= e.stopOnChain then a == Stop(ChainReached(e.stopOnChain, pageNum), None, [], chain')
      else if next.Err? then a == Stop(NextLinkError(pageNum, next.error), None, [], chain')
      else if next.value == "" then a == Stop(NoNextLink(pageNum), None, [], chain')
      else a == Pages(e, pageNum + 1, next.value, chain')
  {
  }

  /** The counter after a counted page: one more for an all-old page, else back to zero. */
  function NextChain(e: Env, url: string, chain: int): int {
    if AllOldPage(e, e.source(url)) then chain + 1 else 0
  }

  /** The loop goes on from page `pageNum` at `url` to the page's next link. */
  predicate Continues(e: Env, pageNum: int, url: string, chain: int) {
    var p := e.source(url);
    && pageNum <= e.maxPages
    && HasCards(p) && p.next.Ok? && p.next.value != ""
    && !(AllOldPage(e, p) && NextChain(e, url, chain) >= e.stopOnChain)
  }

  /** What a counted page adds in front of the rest of the run. */
  lemma PagesContinue(e: Env, pageNum: int, url: string, chain: int)
    requires Continues(e, pageNum, url, chain)
    ensures var p := e.source(url);
      var t := TallyCards(e, p.cards);
      var r := Pages(e, pageNum, url, chain);
      var rest := Pages(e, pageNum + 1, p.next.value, NextChain(e, url, chain));
      && r.reason == rest.reason
      && r.fetched == [url] + rest.fetched
      && r.chain == rest.chain
      && r.stats.totalPages == rest.stats.totalPages + 1
      && r.stats.totalCards == rest.stats.totalCards + |p.cards|
      && r.stats.oldCards == rest.stats.oldCards + t.oldCount
      && r.upserts == t.upserts + rest.upserts
  {
    var p := e.source(url);
    var t := TallyCards(e, p.cards);
    var allOld := t.oldCount == |p.cards|;
    assert allOld == AllOldPage(e, p);
    PagesStep(e, pageNum, url, chain);
    AfterTallyStep(e, pageNum, allOld, p.next, chain);
  }

  /**
   * When the loop does not go on, it has fetched the one URL (or nothing,
   * past the budget), and the stop is on this page, for a reason it shows.
   */
  lemma PagesEnd(e: Env, pageNum: int, url: string, chain: int)
    requires !Continues(e, pageNum, url, chain)
    ensures var r := Pages(e, pageNum, url, chain);
      && r.fetched == (if pageNum <= e.maxPages then [url] else [])
      && (r.reason.NotStopped? <==> pageNum > e.maxPages)
      && (!r.reason.NotStopped? ==> StopPage(r.reason) == pageNum && Explains(e, r.reason, e.source(url)))
      && (r.reason.ChainReached? ==> r.chain == NextChain(e, url, chain) && AllOldPage(e, e.source(url)))
  {
    if pageNum <= e.maxPages {
      var p := e.source(url);
      if HasCards(p) {
        var t := TallyCards(e, p.cards);
        var allOld := t.oldCount == |p.cards|;
        assert allOld == AllOldPage(e, p);
        PagesStep(e, pageNum, url, chain);
        AfterTallyStep(e, pageNum, allOld, p.next, chain);
      } else {
        match p
        case FetchFailed(err) =>
          assert Pages(e, pageNum, url, chain) == Stop(FetchError(pageNum, err), Some(err), [url], chain);
        case ParseFailed(err) =>
          assert Pages(e, pageNum, url, chain) == Stop(ParseError(pageNum, err), Some(err), [url], chain);
        case Fetched(cards, next) =>
          assert Pages(e, pageNum, url, chain) == Stop(NoCards(pageNum), None, [url], chain);
      }
    }
  }

  /** When the loop does not go on, the totals are those of the one page. */
  lemma PagesEndTotals(e: Env, pageNum: int, url: string, chain: int)
    requires !Continues(e, pageNum, url, chain)
    ensures var r := Pages(e, pageNum, url, chain);
      && r.stats.totalPages == SumPages(e, r.fetched)
      && r.stats.totalCards == SumCards(e, r.fetched)
      && r.stats.oldCards == SumOld(e, r.fetched)
      && r.upserts == AllUpserts(e, r.fetched)
  {
    PagesEnd(e, pageNum, url, chain);
    if pageNum <= e.maxPages {
      var p := e.source(url);
      SumsCons(e, url, []);
      assert [url] + [] == [url];
      if HasCards(p) {
        var t := TallyCards(e, p.cards);
        PagesStep(e, pageNum, url, chain);
        AfterTallyStep(e, pageNum, t.oldCount == |p.cards|, p.next, chain);
      }
    }
  }

  /** A URL linking to the head of a chain extends it. */
  lemma ChainedCons(e: Env, u: string, urls: seq<string>)
    requires Chained(e, urls)
    requires |urls| > 0 ==> LinksTo(e.source(u), urls[0])
    ensures Chained(e, [u] + urls)
  {
    var all := [u] + urls;
    forall k | 0 <= k < |all| - 1 ensures LinksTo(e.source(all[k]), all[k + 1]) {
      if k > 0 {
        assert all[k] == urls[k - 1] && all[k + 1] == urls[k];
      }
    }
  }

  /** The pages are fetched along the next links, starting at the given URL. */
  lemma {:induction false} PagesChained(e: Env, pageNum: int, url: string, chain: int)
    ensures var r := Pages(e, pageNum, url, chain);
      && (|r.fetched| > 0 ==> r.fetched[0] == url)
      && Chained(e, r.fetched)
    decreases Budget(e, pageNum)
  {
    if Continues(e, pageNum, url, chain) {
      var link := e.source(url).next.value;
      PagesContinue(e, pageNum, url, chain);
      PagesChained(e, pageNum + 1, link, NextChain(e, url, chain));
      ChainedCons(e, url, Pages(e, pageNum + 1, link, NextChain(e, url, chain)).fetched);
    } else {
      PagesEnd(e, pageNum, url, chain);
    }
  }

  /** A run without a stop reason fetched its whole page budget. */
  lemma {:induction false} PagesSpent(e: Env, pageNum: int, url: string, chain: int)
    ensures var r := Pages(e, pageNum, url, chain);
      r.reason.NotStopped? ==> |r.fetched| == Budget(e, pageNum)
    decreases Budget(e, pageNum)
  {
    if Continues(e, pageNum, url, chain) {
      PagesContinue(e, pageNum, url, chain);
      PagesSpent(e, pageNum + 1, e.source(url).next.value, NextChain(e, url, chain));
    } else {
      PagesEnd(e, pageNum, url, chain);
    }
  }

  /**
   * A run that stops early stops on its last fetched page, which that page's
   * outcome explains.
   */
  lemma {:induction false} PagesStops(e: Env, pageNum: int, url: string, chain: int)
    ensures var r := Pages(e, pageNum, url, chain);
      !r.reason.NotStopped? ==>
        && |r.fetched| > 0
        && StopPage(r.reason) == pageNum + |r.fetched| - 1
        && Explains(e, r.reason, e.source(r.fetched[|r.fetched| - 1]))
    decreases Budget(e, pageNum)
  {
    if Continues(e, pageNum, url, chain) {
      var r := Pages(e, pageNum, url, chain);
      var rest := Pages(e, pageNum + 1, e.source(url).next.value, NextChain(e, url, chain));
      PagesContinue(e, pageNum, url, chain);
      PagesStops(e, pageNum + 1, e.source(url).next.value, NextChain(e, url, chain));
      if |rest.fetched| > 0 {
        assert r.fetched[|r.fetched| - 1] == rest.fetched[|rest.fetched| - 1];
      }
    } else {
      PagesEnd(e, pageNum, url, chain);
    }
  }

  /** What one fetched URL adds to the totals: nothing unless its page has cards. */
  function PageCount(e: Env, url: string): nat {
    if HasCards(e.source(url)) then 1 else 0
  }

  function PageCards(e: Env, url: string): nat {
    if HasCards(e.source(url)) then |e.source(url).cards| else 0
  }

  function PageOld(e: Env, url: string): nat {
    if HasCards(e.source(url)) then TallyCards(e, e.source(url).cards).oldCount else 0
  }

  function PageUpserts(e: Env, url: string): seq<Upsert> {
    if HasCards(e.source(url)) then TallyCards(e, e.source(url).cards).upserts else []
  }

  /** The totals over a list of fetched URLs, page by page. */
  function SumPages(e: Env, urls: seq<string>): nat {
    if |urls| == 0 then 0 else PageCount(e, urls[0]) + SumPages(e, urls[1..])
  }

  function SumCards(e: Env, urls: seq<string>): nat {
    if |urls| == 0 then 0 else PageCards(e, urls[0]) + SumCards(e, urls[1..])
  }

  function SumOld(e: Env, urls: seq<string>): nat {
    if |urls| == 0 then 0 else PageOld(e, urls[0]) + SumOld(e, urls[1..])
  }

  function AllUpserts(e: Env, urls: seq<string>): seq<Upsert> {
    if |urls| == 0 then [] else PageUpserts(e, urls[0]) + AllUpserts(e, urls[1..])
  }

  /** The sums over a list with one more URL in front. */
  lemma SumsCons(e: Env, u: string, urls: seq<string>)
    ensures SumPages(e, [u] + urls) == PageCount(e, u) + SumPages(e, urls)
    ensures SumCards(e, [u] + urls) == PageCards(e, u) + SumCards(e, urls)
    ensures SumOld(e, [u] + urls) == PageOld(e, u) + SumOld(e, urls)
    ensures AllUpserts(e, [u] + urls) == PageUpserts(e, u) + AllUpserts(e, urls)
  {
    assert ([u] + urls)[1..] == urls;
  }

  /**
   * The stats and upserts are the sums over the fetched pages of what each
   * page with cards contributes; a page without cards, or one that failed,
   * contributes nothing.
   */
  lemma {:induction false} PagesTotals(e: Env, pageNum: int, url: string, chain: int)
    ensures var r := Pages(e, pageNum, url, chain);
      && r.stats.totalPages == SumPages(e, r.fetched)
      && r.stats.totalCards == SumCards(e, r.fetched)
      && r.stats.oldCards == SumOld(e, r.fetched)
      && r.upserts == AllUpserts(e, r.fetched)
    decreases Budget(e, pageNum)
  {
    if Continues(e, pageNum, url, chain) {
      var link := e.source(url).next.value;
      PagesContinue(e, pageNum, url, chain);
      PagesTotals(e, pageNum + 1, link, NextChain(e, url, chain));
      SumsCons(e, url, Pages(e, pageNum + 1, link, NextChain(e, url, chain)).fetched);
    } else {
      PagesEndTotals(e, pageNum, url, chain);
    }
  }

  /** The number of all-old pages at the end of a list of fetched URLs. */
  function TrailingOld(e: Env, urls: seq<string>): (n: nat)
    ensures n <= |urls|
  {
    if |urls| == 0 || !AllOldPage(e, e.source(urls[|urls| - 1])) then 0
    else 1 + TrailingOld(e, urls[..|urls| - 1])
  }

  lemma {:induction false} TrailingOldCons(e: Env, u: string, urls: seq<string>)
    ensures TrailingOld(e, [u] + urls)
      == if TrailingOld(e, urls) < |urls| then TrailingOld(e, urls)
         else if AllOldPage(e, e.source(u)) then |urls| + 1 else |urls|
    decreases |urls|
  {
    var all := [u] + urls;
    if |urls| > 0 {
      assert all[|all| - 1] == urls[|urls| - 1];
      assert all[..|all| - 1] == [u] + urls[..|urls| - 1];
      TrailingOldCons(e, u, urls[..|urls| - 1]);
    } else {
      assert all[..0] == [];
    }
  }

  /**
   * On a stop for consecutive old pages, the local counter is the number of
   * all-old pages at the end of the run, plus its starting value when every
   * page of the run was all-old, and has reached the limit.
   */
  lemma {:induction false} PagesChain(e: Env, pageNum: int, url: string, chain: int)
    requires chain >= 0
    ensures var r := Pages(e, pageNum, url, chain);
      r.reason.ChainReached? ==>
        && r.chain >= e.stopOnChain
        && r.chain == (if TrailingOld(e, r.fetched) == |r.fetched| then chain + |r.fetched|
                       else TrailingOld(e, r.fetched))
    decreases Budget(e, pageNum)
  {
    var r := Pages(e, pageNum, url, chain);
    if Continues(e, pageNum, url, chain) {
      var rest := Pages(e, pageNum + 1, e.source(url).next.value, NextChain(e, url, chain));
      PagesContinue(e, pageNum, url, chain);
      PagesChain(e, pageNum + 1, e.source(url).next.value, NextChain(e, url, chain));
      TrailingOldCons(e, url, rest.fetched);
    } else {
      PagesEnd(e, pageNum, url, chain);
      if r.reason.ChainReached? {
        TrailingOldCons(e, url, []);
      }
    }
  }

  // ---------------------------------------------------------------------------
  // The same properties for a whole run.

  /** At most `maxPages` pages are fetched, the first at the base URL and each next one at the link of the one before. */
  lemma CrawlFollowsLinks(e: Env, baseUrl: string)
    ensures var r := Crawl(e, baseUrl);
      && |r.fetched| <= (if e.maxPages > 0 then e.maxPages else 0)
      && (|r.fetched| > 0 ==> r.fetched[0] == baseUrl)
      && Chained(e, r.fetched)
  {
    PagesChained(e, 1, baseUrl, 0);
  }

  /**
   * Only a fetch or listing-parse failure returns an error, and it is that
   * failure's error; every stop happens on the last page fetched, for the
   * reason that page shows; a run without a stop reason fetched its whole budget.
   */
  lemma CrawlStops(e: Env, baseUrl: string)
    ensures var r := Crawl(e, baseUrl);
      && (r.err.Some? <==> r.reason.FetchError? || r.reason.ParseError?)
      && (r.err.Some? ==> r.err == Some(r.reason.error))
      && (r.stats.stoppedReason == "" <==> r.reason.NotStopped?)
      && (r.reason.NotStopped? ==> |r.fetched| == (if e.maxPages > 0 then e.maxPages else 0))
      && (!r.reason.NotStopped? ==>
            && |r.fetched| > 0
            && StopPage(r.reason) == |r.fetched|
            && Explains(e, r.reason, e.source(r.fetched[|r.fetched| - 1])))
  {
    PagesSpent(e, 1, baseUrl, 0);
    PagesStops(e, 1, baseUrl, 0);
  }

  /**
   * `TotalPages`, `TotalCards` and `OldCards` add up the fetched pages that
   * have cards, the upserts are those pages' fresh cards in order, and
   * `ConsecutiveOldPages` is never set.
   */
  lemma CrawlTotals(e: Env, baseUrl: string)
    ensures var r := Crawl(e, baseUrl);
      && r.stats.totalPages == SumPages(e, r.fetched)
      && r.stats.totalCards == SumCards(e, r.fetched)
      && r.stats.oldCards == SumOld(e, r.fetched)
      && r.stats.oldCards <= r.stats.totalCards
      && r.upserts == AllUpserts(e, r.fetched)
      && r.stats.consecutiveOldPages == 0
  {
    PagesTotals(e, 1, baseUrl, 0);
  }

  /** A stop for consecutive old pages comes after at least the limit's number of all-old pages in a row. */
  lemma CrawlChainStop(e: Env, baseUrl: string)
    ensures var r := Crawl(e, baseUrl);
      r.reason.ChainReached? ==>
        && TrailingOld(e, r.fetched) >= e.stopOnChain
        && TrailingOld(e, r.fetched) >= 1
  {
    PagesChain(e, 1, baseUrl, 0);
    PagesStops(e, 1, baseUrl, 0);
    var r := Crawl(e, baseUrl);
    if r.reason.ChainReached? {
      assert AllOldPage(e, e.source(r.fetched[|r.fetched| - 1]));
    }
  }
}
