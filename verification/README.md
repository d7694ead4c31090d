# oshcity news crawler — a Dafny model of its decision logic

The crawler fetches the Russian and Kyrgyz listing pages of a city news site.
For each page it:

- extracts the news cards with configurable CSS selectors;
- parses each card's listing date;
- stores the cards dated on or after a threshold day;
- follows the "next page" link until a stop condition holds.

This project models the deterministic part of that pipeline as pure Dafny
functions over immutable datatypes and proves properties about them. The
modules follow the Go packages:

| module | models |
|---|---|
| `Strings`, `Decimal`, `Int64`, `Calendar` | the parts of Go's `strings`, `fmt`/`strconv` and `time` packages and 64-bit integer behaviour that the code relies on |
| `DateParser` | `internal/scraper/parser.go`: weekday stripping, the today/yesterday keywords, the named-month and numeric patterns, and the range checks |
| `Scraper` | `internal/scraper/scraper.go` and `types.go`: selector fallback chains, `sel@attr` entries, `srcset` choice, card filtering and numbering, the next-page link |
| `Normalize` | `internal/normalize/normalize.go`: `NormalizeURL`, `TruncatePreview` on bytes, and the text clean-up of `cleanHTML` |
| `Checksum` | `internal/checksum/checksum.go`: hex of SHA-256 over `url\|title\|text\|YYYY-MM-DD` |
| `Orchestrator` | `internal/app/orchestrator.go`: the per-language pagination loop and its `PaginationStats` |
| `Fetcher` | `internal/fetcher/fetcher.go`: exponential backoff with jitter, cap and floor; the robots, rate-limit and retry flow of `Fetch`; the Accept-Language choice |
| `RateLimiter` | `internal/fetcher/rate_limiter.go`: the per-host requests-per-minute window |
| `Robots` | `internal/fetcher/robots.go`: the robots.txt TTL cache and its fail-open policy |
| `Config`, `SelectorsConfig` | `internal/config/config.go` and `selectors.go`: first-failure validation, duration getters, and the choice of the selectors file |

Everything the code gets from the outside world is a parameter of the model:

- the wall clock: a `DateParser.Clock` holding the current UTC day and the local year, and nanosecond instants for the rate limiter and the robots cache;
- the HTML document: a `Scraper.Dom` oracle answering "text of the first match of a selector" and "attribute of the first match";
- network outcomes: a `Fetcher.Network` mapping attempt numbers to outcomes, cancellations and jitter draws, and a `Robots.Response`;
- the page source of the crawl loop;
- SHA-256: any function to 32 bytes;
- the selectors-file loader.

Integers are unbounded. Go's 64-bit behaviour is written out wherever it can
matter: `1 << n`, the `time.Duration` products, and `time.Time.Sub`.

Where the code and its documentation or tests disagree, the model follows the
code. Examples:

- The named-month pattern `(\d{1,2})\s+([а-яё]+)\s+(\d{4})?` needs white space after the month word. So a trimmed `"18 октября"` matches neither pattern and is rejected (`DateParser.RussianDayMonthOnlyRejected`), although the parser test expects the current year's 18 October.
- The numeric pattern needs the second dot, so `"18.10"` is rejected (`DateParser.RussianShortNumericRejected`).
- `calculateBackoff` reads `BackoffMinMS`, `BackoffMaxMS` and `JitterPct` from the HTTP section, but those fields exist only in the backoff section of the configuration. The model reads them from `Config.Backoff`, the only section that has them.
- The fetcher creates its robots cache with a fixed 12-hour TTL (`Robots.FetcherTtl`). It never uses `RobotsCacheTTLHours`.
- `LoadSelectorsForLanguage` joins a relative path under `configs` before `LoadSelectors` checks for an empty path. An empty configured path therefore becomes `configs` and is never reported as empty; loading then fails later, on the directory.
- `PaginationStats.ConsecutiveOldPages` is never written, so `Run` always returns it as 0. The counter itself is a local variable, returned separately as `RunResult.chain`.

## Model

| member | source | states |
|---|---|---|
| Strings.TrimSpace | internal/normalize/normalize.go:121 | `strings.TrimSpace`: the input minus its maximal leading and trailing runs of Unicode white space; the result has no space at either end, is empty exactly when the input is all space, and uses only characters of the input |
| Strings.TrimSpaceIdempotent | internal/scraper/parser.go:78 | trimming an already trimmed string changes nothing |
| Strings.ToLower | internal/scraper/parser.go:70 | `strings.ToLower` maps each character independently (ASCII, Cyrillic with Ёё, Kyrgyz ҮүӨөҢң) and keeps the length |
| Strings.ToLowerIdempotent | internal/scraper/parser.go:81 | lower-casing again is a no-op, so the repeated `ToLower` calls of the parser do not change its input |
| Strings.RemoveAll | internal/scraper/parser.go:70 | `strings.ReplaceAll(s, tok, "")` never lengthens the string, introduces no new character, and is the identity when `tok` does not occur |
| Strings.ContainsIffOccurrence | internal/scraper/parser.go:84 | `strings.Contains` holds exactly when the token occurs at some position |
| Strings.Split | internal/scraper/scraper.go:164 | `strings.Split` yields one more part than there are separators, no part contains the separator, and joining the parts gives back the input |
| Strings.SplitJoin | internal/scraper/scraper.go:136 | splitting a join of separator-free parts gives back exactly those parts |
| Strings.IndexOf | internal/normalize/normalize.go:146 | `strings.Index` of a character: -1 exactly when it is absent, otherwise the position of its first occurrence |
| Strings.LastIndexOf | internal/normalize/normalize.go:134 | `strings.LastIndex` of a character: -1 exactly when it is absent, otherwise the position of its last occurrence |
| Strings.FirstField | internal/scraper/scraper.go:176-178 | `strings.Fields(...)[0]`: absent exactly when the string is all space, otherwise the first maximal run of non-space characters after the leading space |
| Decimal.Show | internal/scraper/parser.go:244-251 | the decimal rendering of a natural number has no leading zero and reads back, digit by digit, as that number |
| Decimal.PaddedValue | internal/checksum/checksum.go:19 | a zero-padded rendering consists of digits and still reads back as the number |
| Int64.Wrap | internal/fetcher/fetcher.go:170 | two's-complement wrap-around: the result is in the int64 range, congruent to the input modulo 2^64, and equal to it when it already fits |
| Int64.ShiftOne | internal/fetcher/fetcher.go:170 | `1 << uint(n)` as a Go `int`: in range, and 2^n for n < 63 |
| Calendar.DaysInMonth | internal/scraper/parser.go:150 | month lengths of the proleptic Gregorian calendar: between 28 and 31, and 31 exactly for January, March, May, July, August, October and December |
| Calendar.BeforeIsStrictTotalOrder | internal/app/orchestrator.go:144-174 | `Before` on UTC midnights is irreflexive, transitive and total, so every parsed card is exactly one of "before the threshold" or "not before" |
| Calendar.PrevDay | internal/scraper/parser.go:90 | `AddDate(0, 0, -1)` on a valid day gives a valid day before it, and the latest such day |
| Calendar.NextDay | internal/scraper/parser.go:90 | the partner of `PrevDay`: a valid day after the input and the earliest such day |
| Calendar.NextPrevInverse | internal/scraper/parser.go:90 | stepping one day back and then forward, or the reverse, returns the original day |
| Calendar.AddDays | internal/app/orchestrator.go:58 | `AddDate(0, 0, k)` keeps a day valid and moves it strictly back for negative `k`, forward for positive `k`, and not at all for 0; `k = -1` is exactly the previous day and `k = 1` exactly the next |
| Calendar.AddDaysAfterPrev | internal/app/orchestrator.go:58 | moving back `k` days from the previous day is the day before moving back `k` days |
| Calendar.AddDaysSucc | internal/app/orchestrator.go:58 | for every offset `k`, `k + 1` days lands on the day after `k` days, so each offset names one exact day |
| Calendar.AddDaysCompose | internal/app/orchestrator.go:58 | moving `j` days and then `k` days is moving `j + k` days, for offsets of either sign |
| Calendar.AddDaysInverse | internal/app/orchestrator.go:58 | moving back `n` days and forward `n` days again, or the reverse, returns the original day |
| Calendar.AddDaysInjective | internal/app/orchestrator.go:58 | two offsets from the same day give the same day exactly when they are equal |
| Calendar.DateOf | internal/scraper/parser.go:150 | `time.Date(y, m, d, …)` with a month in range always names a valid day: an out-of-range day rolls over into the neighbouring months |
| Calendar.DateOfInRange | internal/scraper/parser.go:150 | a day within its month is left as given by `time.Date` |
| Calendar.DateOfFrom | internal/scraper/parser.go:150 | `time.Date` day `d` lies exactly `d - j` days from day `j` of the same month, for any day `j` of that month, so an overflowing day continues from the month's last day |
| Calendar.DateOfEdges | internal/scraper/parser.go:150 | day 0 is the last day of the previous month, and the day after the month's last is the first of the next month, across year ends |
| Calendar.IsoDateRoundTrip | internal/checksum/checksum.go:19 | `Format("2006-01-02")` of a day with a four-digit year is 10 characters and parses back to that day |
| Calendar.IsoDateInjective | internal/checksum/checksum.go:19 | two such days with the same rendering are the same day |
| Checksum.UtcDay | internal/checksum/checksum.go:19 | the UTC calendar day of an instant is a valid day, and instants of the first day after the epoch fall on 1970-01-01 |
| Checksum.UtcDayStep | internal/checksum/checksum.go:19 | instants 86400 seconds apart fall on consecutive calendar days, before and after the epoch |
| Checksum.UtcDaySame | internal/checksum/checksum.go:19 | two instants have the same UTC day exactly when they lie in the same whole-day interval since the epoch |
| Checksum.Hex | internal/checksum/checksum.go:28 | `%x` of a byte string is lower-case hex, two characters per byte |
| Checksum.HexRoundTrip | internal/checksum/checksum.go:28 | decoding the hex of any byte string gives back the bytes |
| Checksum.UnhexRoundTrip | internal/checksum/checksum.go:28 | any decodable hex string is exactly the hex of what it decodes to |
| Checksum.HexInjective | internal/checksum/checksum.go:28 | different digests have different hex strings |
| Checksum.PreHash | internal/checksum/checksum.go:22 | the pre-hash string is the URL, `\|`, the title, `\|`, the text, `\|` and the `YYYY-MM-DD` date, in that order, and its length is the sum of the parts plus three separators |
| Checksum.GenerateContentHash | internal/checksum/checksum.go:17-29 | the hash is 64 lower-case hex characters and decodes to the digest of the pre-hash string of the URL, title, text and UTC day |
| Checksum.VerifyIffDigest | internal/checksum/checksum.go:32-35 | verification succeeds exactly when the expected string is the hex of the digest of the recomputed pre-hash string |
| Checksum.VerifyGenerated | internal/checksum/checksum.go:32-35 | a generated hash always verifies against the same inputs |
| Checksum.SameDaySameHash | internal/checksum/checksum.go:19 | two instants on the same UTC day give the same hash |
| Checksum.WithinDayHash | internal/checksum/checksum.go:19 | any instant of a day hashes like that day's midnight |
| Checksum.PreHashUrlSensitive | internal/checksum/checksum.go:22 | with the other fields fixed, the pre-hash strings are equal exactly when the URLs are |
| Checksum.PreHashTitleSensitive | internal/checksum/checksum_test.go:29-33 | with the other fields fixed, the pre-hash strings are equal exactly when the titles are |
| Checksum.PreHashTextSensitive | internal/checksum/checksum.go:22 | with the other fields fixed, the pre-hash strings are equal exactly when the texts are |
| Checksum.PreHashDaySensitive | internal/checksum/checksum.go:22 | with the other fields fixed, the pre-hash strings are equal exactly when the days are (four-digit years) |
| Normalize.NormalizeUrl | internal/normalize/normalize.go:143-150 | the result contains no `#`; it is the trimmed input when that has no `#`, and otherwise the trimmed input cut just before its first `#` (the scraper's `normalizeURL` at internal/scraper/scraper.go:215-222 is the same function) |
| Normalize.TrimSpaceFixpoint | internal/normalize/normalize.go:144 | trimming leaves a string unchanged exactly when it is empty or has no space at either end |
| Normalize.NormalizeUrlIdempotentIff | internal/scraper/scraper.go:215-222 | normalising a normalised URL changes it exactly when it ends in white space |
| Normalize.NormalizeUrlNotIdempotent | internal/scraper/scraper.go:215-222 | concretely, `"a #b"` normalises to `"a "` and then to `"a"` |
| Normalize.TruncatePreview | internal/normalize/normalize.go:127-140 | a text of at most `max` bytes is returned unchanged; a longer one is cut at its last space at an index above 0 within the first `max` bytes, or at `max` when there is none, and `…` is appended |
| Normalize.SpacesBeforeLimit | internal/normalize/normalize.go:133-135 | the cut point found is a space with no space between it and the limit; when it is not above 0, no byte from 1 up to the limit is a space |
| Normalize.TruncatePreviewExceedsLimit | internal/normalize/normalize.go:136-139 | as written, 60 bytes without a space and a limit of 50 give a 53-byte preview |
| Normalize.TruncatePreviewWithin | internal/normalize/normalize.go:127-140 | the corrected preview: never longer than `max`; a short text unchanged; a long one a prefix of the text followed by the three-byte `…` |
| Normalize.WithinIsShiftedLimit | internal/normalize/normalize.go:127-140 | the corrected preview is the original algorithm run with three bytes less room |
| Normalize.ReplaceNbsp | internal/normalize/normalize.go:110-113 | every U+00A0 becomes a space and nothing else changes, so no U+00A0 remains |
| Normalize.Collapse | internal/normalize/normalize.go:115-119 | replacing each maximal run of `[\t\n\f\r ]` by one space leaves no two such characters adjacent and only plain spaces among them |
| Normalize.CollapseAppend | internal/normalize/normalize.go:117-118 | collapsing distributes over a concatenation whose seam does not fall inside a whitespace run |
| Normalize.CollapseRun | internal/normalize/normalize.go:117-118 | a whitespace run followed by the end or a non-whitespace character becomes one space |
| Normalize.CollapseMaximalRun | internal/normalize/normalize.go:117-118 | each maximal run of `[\t\n\f\r ]`, whatever its length and mix, becomes exactly one space, and the text on either side is collapsed on its own |
| Normalize.CollapseLast | internal/normalize/normalize.go:117-118 | a last character outside a whitespace run stays the last character |
| Normalize.CollapseFixpoint | internal/normalize/normalize.go:117-118 | collapsing leaves a string unchanged exactly when it already has no adjacent and no non-plain RE2 spaces |
| Normalize.CollapseIdempotent | internal/normalize/normalize.go:117-118 | collapsing twice is collapsing once |
| Normalize.CollapseKeepsChars | internal/normalize/normalize.go:118 | collapsing introduces no character except a space |
| Normalize.VisibleReplaceNbsp | internal/normalize/normalize.go:112 | the NBSP replacement keeps the non-space characters and their order |
| Normalize.VisibleCollapse | internal/normalize/normalize.go:118 | collapsing keeps the non-space characters and their order |
| Normalize.VisibleTrimSpace | internal/normalize/normalize.go:121 | trimming keeps the non-space characters and their order |
| Normalize.CleanText | internal/normalize/normalize.go:110-121 | the clean-up leaves no U+00A0 when that option is on, no adjacent white space when collapsing is on, no space at either end, and exactly the input's non-space characters in order |
| Normalize.CleanTextMaximalRun | internal/normalize/normalize.go:115-121 | with collapsing on, a whitespace run between two texts without white space at their outer ends comes out as exactly one space |
| Normalize.CleanTextSteps | internal/normalize/normalize.go:110-121 | the clean-up is the three steps in source order: NBSP replacement if on, collapse if on, then trim |
| Normalize.CleanTextIdempotent | internal/normalize/normalize.go:110-121 | with collapsing on, cleaning a cleaned text changes nothing |
| Scraper.SplitAttr | internal/scraper/scraper.go:164-168 | an entry with exactly one `@` splits into an `@`-free selector and attribute that rebuild the entry; any other entry keeps the attribute in force |
| Scraper.SplitAttrInverse | internal/scraper/scraper.go:195-198 | splitting `sel@name` gives back `sel` and `name` |
| Scraper.SelectorValue | internal/scraper/scraper.go:194-210 | a plain selector yields the trimmed text of its first match; an entry that splits into `sel@attr` yields attribute `attr` of `sel`'s first match, or nothing when either is missing; an entry with `@` that does not split into two parts yields nothing |
| Scraper.TrySelectors | internal/scraper/scraper.go:191-213 | the result is empty exactly when every entry misses, and otherwise is the value of the first entry that yields one |
| Scraper.TrySelectorsAppend | internal/scraper/scraper.go:191-213 | the later entries of a chain are consulted only when the earlier ones all miss |
| Scraper.SrcsetPick | internal/scraper/scraper.go:173-185 | the `srcset` choice is the URL (first field) of the first comma-separated candidate that has one not starting with `data:`, and the raw value when no candidate qualifies |
| Scraper.PickFrom | internal/scraper/scraper.go:174-184 | the candidate loop returns the first qualifying candidate's URL, and the raw value when none qualifies |
| Scraper.SrcsetFirstCandidate | internal/scraper/scraper.go:174-180 | when the first candidate's URL is not a data URI, it is the one chosen |
| Scraper.SrcsetSkipsDataUri | internal/scraper/scraper.go:179 | a leading `data:` candidate is skipped in favour of the next real URL |
| Scraper.LastOverride | internal/scraper/scraper.go:164-168 | an attribute override is in force after a prefix of entries exactly when some entry of it splits at `@` |
| Scraper.TrySelectorsAttr | internal/scraper/scraper.go:162-189 | the result is empty exactly when every entry, read with the attribute in force at that point, misses |
| Scraper.TrySelectorsAttrFirst | internal/scraper/scraper.go:162-189 | the result is the value of the first entry that yields one, read with the attribute left by the earlier entries |
| Scraper.OverrideReachesLaterEntries | internal/scraper/scraper.go:164-168 | an `@attr` entry that misses still changes the attribute read by the next plain entry |
| Scraper.TitleFallback | internal/scraper/scraper.go:52-71 | the fallback gives no title exactly when the card's date and text are both empty |
| Scraper.TitleFallbackDead | internal/scraper/scraper.go:47-71 | at the point where the fallback runs, date and text are still empty, so a card without a title is always skipped |
| Scraper.Extract | internal/scraper/scraper.go:39-115 | a card is emitted exactly when title, URL, thumbnail and date were all found; an emitted card has a non-empty title, text and date, and carries the number it was given |
| Scraper.ExtractFields | internal/scraper/scraper.go:46-112 | an emitted card holds the values found, with URL and thumbnail normalised and the title standing in for a missing text |
| Scraper.Numbered | internal/scraper/scraper.go:36-115 | emitted cards are numbered 0, 1, 2, … in order, never more cards than elements |
| Scraper.ParseListing | internal/scraper/scraper.go:29-121 | the loop over the card elements returns the filtered, numbered cards |
| Scraper.NumberCards | internal/scraper/scraper.go:38-116 | the callback loop with its running sequence number computes the numbered cards |
| Scraper.NumberedStep | internal/scraper/scraper.go:114-115 | an element either appends one card numbered with the count so far or leaves the list unchanged |
| Scraper.NumberedOrigins | internal/scraper/scraper.go:38-116 | every numbered card comes from an element in increasing document order, and every element not used is one the filter drops |
| Scraper.ListingOrigins | internal/scraper/scraper.go:38-116 | the same for the cards `ParseListing` returns: card `i` is element `ks[i]`'s card numbered `i`, with `ks` increasing and every skipped element not emitted |
| Scraper.NumberedCount | internal/scraper/scraper.go:114-115 | the number of cards is the number of elements that pass the filter, so a skipped card uses no number |
| Scraper.FindNextPageLink | internal/scraper/scraper.go:124-159 | the link contains no `#`; it is empty when every entry misses, and otherwise the normalised value of the first entry that yields a non-empty attribute (`href` unless the entry names one) |
| Scraper.NextLinkAppend | internal/scraper/scraper.go:130-156 | entries that all miss do not affect the link found by the ones after them |
| DateParser.MonthNumber | internal/scraper/parser.go:128 | looking up a month name fails exactly for names outside the table, and otherwise gives the month whose table entry it is |
| DateParser.MonthTables | internal/scraper/parser.go:12-41 | both tables have twelve distinct non-empty names written in `[а-яё]` |
| DateParser.MonthEntry | internal/scraper/parser.go:12-41 | the `k`-th name of each table maps to month `k + 1` |
| DateParser.WeekdaysFor | internal/scraper/parser.go:44-45 | each language has a non-empty list of non-empty weekday tokens |
| DateParser.StripWeekdaysIsLowerThenRemove | internal/scraper/parser.go:68-76 | stripping weekdays lower-cases the input and deletes the tokens in list order, and its result is lower-case |
| DateParser.StripWeekdaysNoToken | internal/scraper/parser.go:68-76 | with no weekday token present, stripping only lower-cases |
| DateParser.RemoveTokensKeepsLower | internal/scraper/parser.go:70 | deleting tokens from a lower-case string keeps it lower-case |
| DateParser.MatchAt | internal/scraper/parser.go:119 | a match at a position has well-formed groups (a one- or two-digit day, a month word or number, an empty or four-digit year), and the day is the text at that position |
| DateParser.Leftmost | internal/scraper/parser.go:120 | the leftmost-first search stops at the first position that matches, with no match before it |
| DateParser.Find | internal/scraper/parser.go:120 | `FindStringSubmatch` fails exactly when no position matches |
| DateParser.NamedShapeMatch | internal/scraper/parser.go:119 | `DD name rest` matches the named pattern at its start, with the year group taken from `rest` |
| DateParser.NumericShapeMatch | internal/scraper/parser.go:155 | `DD.MM.rest` matches the numeric pattern at its start |
| DateParser.NoSpaceNoNamedMatch | internal/scraper/parser.go:119 | a string without RE2 white space never matches the named pattern |
| DateParser.ParseRussian | internal/scraper/parser.go:115-189 | `parseRussian` yields a valid day or an error other than "empty", and the "unable to parse" error exactly when neither pattern matches the lower-cased string |
| DateParser.RussianChecked | internal/scraper/parser.go:143-150 | the Russian range checks accept exactly day 1..31 and month 1..12, reporting the day first, and otherwise build the date with `time.Date` |
| DateParser.RussianNamed | internal/scraper/parser.go:122-151 | the named-month branch fails with "unknown month" exactly when the word is not in the Russian table, and otherwise only with a day or month range error |
| DateParser.RussianNumeric | internal/scraper/parser.go:158-185 | the numeric branch succeeds exactly for day 1..31 and month 1..12, giving that day in the matched or default year, and otherwise fails only with a day or month range error |
| DateParser.ParseKyrgyz | internal/scraper/parser.go:191-242 | `parseKyrgyz` yields a valid day or an error other than "empty"; "unable to parse" exactly when neither pattern matches, and the unmodelled numeric branch exactly when only the numeric pattern does |
| DateParser.KyrgyzNamed | internal/scraper/parser.go:198-221 | the Kyrgyz named-month branch succeeds exactly when the word is in the Kyrgyz table, with no day range check, giving that month's day in the matched or default year; otherwise it fails with "unknown month" |
| DateParser.Parse | internal/scraper/parser.go:61-113 | the "empty date" error is returned exactly for empty or all-space input; any day returned is valid |
| DateParser.ParsePrepared | internal/scraper/parser.go:80-112 | after preparation the parser never reports an empty date, and any day returned is valid |
| DateParser.PreparedIsLower | internal/scraper/parser.go:68-81 | the prepared string is lower-case, so the keyword check's `ToLower` is a no-op |
| DateParser.KeywordsFirst | internal/scraper/parser.go:80-112 | a today keyword gives the current UTC day; otherwise a yesterday keyword gives the day before; otherwise the language's pattern parser decides |
| DateParser.RussianLongFormRoundTrip | internal/scraper/parser.go:119-151 | `D <month> YYYY` in Russian parses to that date, normalised by `time.Date` |
| DateParser.RussianNamedHit | internal/scraper/parser.go:119-151 | a named match with a known month and a day in 1..31 parses to that month and day in the matched or default year |
| DateParser.KyrgyzLongFormRoundTrip | internal/scraper/parser.go:195-221 | `D <month> YYYY` in Kyrgyz parses to that date, for any two-digit day, with rollover |
| DateParser.RussianNumericRoundTrip | internal/scraper/parser.go:155-185 | `D.M.YYYY` of a valid date parses back to it |
| DateParser.KyrgyzNumericUnspecified | internal/scraper/parser.go:225-239 | a Kyrgyz numeric date reaches the branch left unmodelled |
| DateParser.RussianDayMonthOnlyRejected | internal/scraper/parser.go:119-188 | `D <word>` with no white space after the word matches neither pattern and is rejected as unparsable |
| DateParser.RussianShortNumericRejected | internal/scraper/parser.go:155-188 | `D.M` without a second dot is rejected as unparsable |
| DateParser.RussianUnknownMonthNotRetried | internal/scraper/parser.go:127-131 | a named match with an unknown month word is an error, and the numeric pattern is not tried |
| DateParser.RussianNumericYearDefaults | internal/scraper/parser.go:168-175 | in the numeric form, with no four digits after the second dot the current local year is used |
| DateParser.RussianYearDefaults | internal/scraper/parser.go:133-140 | with no year after the month the current local year is used |
| DateParser.KyrgyzYearDefaults | internal/scraper/parser.go:211-220 | in Kyrgyz too, with no year after the month the current local year is used, for any one- or two-digit day |
| DateParser.RussianPlain | internal/scraper/parser.go:62-108 | a trimmed Russian input with no upper-case letter and no weekday or keyword letters goes straight to `parseRussian` |
| DateParser.ParseRussianLongForm | internal/scraper/parser.go:61-151 | end to end, `Parse` of the Russian long form of a valid date with a four-digit year and an unaffected month name gives that date |
| Orchestrator.ReasonText | internal/app/orchestrator.go:88-231 | the stop message is empty exactly when the run did not stop early |
| Orchestrator.EnvFor | internal/app/orchestrator.go:55-58 | a run dates its cards with the date parser of its language and a valid threshold day, all from one clock reading |
| Orchestrator.Threshold | internal/app/orchestrator.go:58 | the threshold is a valid day, before today for a positive look-back and today for zero, and exactly `daysBack` days before today |
| Orchestrator.TallyCards | internal/app/orchestrator.go:117-175 | the old cards and upserts of a page never outnumber its cards, and each upsert is a card of the page whose date parsed to a day not before the threshold, stored with that date |
| Orchestrator.AllOldIff | internal/app/orchestrator.go:188 | a page counts as all-old exactly when every one of its cards parsed to a day before the threshold |
| Orchestrator.TallyExact | internal/app/orchestrator.go:144-174 | when every date parses, the old count and the upserts together number the cards |
| Orchestrator.TallyAppend | internal/app/orchestrator.go:117-175 | the card loop over two runs of cards adds their old counts and concatenates their upserts in card order |
| Orchestrator.TallyOne | internal/app/orchestrator.go:118-174 | a single card is skipped when its date does not parse, counted old and not upserted when its day is before the threshold, and upserted with its day and not counted otherwise |
| Orchestrator.UnparsedSkipped | internal/app/orchestrator.go:119-130 | a card whose date does not parse is neither upserted nor counted old |
| Orchestrator.Pages | internal/app/orchestrator.go:72-241 | old cards never exceed total cards; the error is set exactly for fetch and parse stops, and is their error; the stop message matches the reason; no more pages are fetched than remain in the budget; every upsert is a fresh card |
| Orchestrator.AfterTally | internal/app/orchestrator.go:188-235 | after the card loop, the same properties hold with at least one fewer page still to fetch |
| Orchestrator.PagesStep | internal/app/orchestrator.go:104-187 | a page with cards is counted, its cards tallied, and the rest of the loop decided after the tally |
| Orchestrator.AfterTallyStep | internal/app/orchestrator.go:188-235 | the counter grows on an all-old page and resets otherwise; the run stops when it reaches the limit, or on a next-link error or an empty link, and otherwise continues at the link |
| Orchestrator.PagesContinue | internal/app/orchestrator.go:113-235 | a page that leads on adds itself to the fetched URLs, one page and its cards and old cards to the totals, and its upserts ahead of the rest |
| Orchestrator.PagesEnd | internal/app/orchestrator.go:80-233 | the page where the run ends is fetched if it is within the budget; the run ends without a reason exactly when the budget is spent, and any reason names that page and is explained by it |
| Orchestrator.PagesEndTotals | internal/app/orchestrator.go:113-177 | on the last page, the totals are those of the pages fetched |
| Orchestrator.PagesChained | internal/app/orchestrator.go:215-235 | the fetched URLs start at the given one, and each later one is the next link of the page before it |
| Orchestrator.PagesSpent | internal/app/orchestrator.go:72 | a run that ends without a reason has fetched exactly its remaining budget |
| Orchestrator.PagesStops | internal/app/orchestrator.go:80-233 | a run with a reason names the last page fetched, and that page explains the reason |
| Orchestrator.PagesTotals | internal/app/orchestrator.go:113-177 | total pages, total cards, old cards and the upserts are the sums over the fetched pages |
| Orchestrator.PagesChain | internal/app/orchestrator.go:188-212 | a chain stop happens with the counter at the limit, equal to the trailing run of all-old pages (plus the counter carried in when every page was old) |
| Orchestrator.CrawlFollowsLinks | internal/app/orchestrator.go:69-235 | `Run` fetches at most `maxPages` pages, starting at the base URL, each later URL being the previous page's next link |
| Orchestrator.CrawlStops | internal/app/orchestrator.go:80-251 | only fetch and parse failures return an error; the reason is empty exactly when the page budget was used up; otherwise the reason names the last page fetched and that page explains it |
| Orchestrator.CrawlTotals | internal/app/orchestrator.go:113-177 | the returned stats are the sums over the fetched pages, with old cards at most total cards and `ConsecutiveOldPages` left at 0 |
| Orchestrator.CrawlChainStop | internal/app/orchestrator.go:188-204 | a chain stop happens only after a trailing run of at least max(1, limit) all-old pages |
| Config.Validate | internal/config/config.go:101-189 | a configuration that passes has 0 < backoff min ≤ max, jitter in 0..100, a known storage driver and scheduler mode, non-negative retries and a positive RPM |
| Config.ValidateFetching | internal/config/config.go:102-131 | the first group of checks passes only with non-negative retries and a positive RPM |
| Config.ValidateRunning | internal/config/config.go:132-161 | the second group passes only with a known driver and mode |
| Config.ValidateBackoff | internal/config/config.go:162-173 | the backoff checks pass exactly when 0 < min ≤ max and 0 ≤ jitter ≤ 100 |
| Config.ValidateRod | internal/config/config.go:174-187 | the rod checks pass exactly when the chrome path is set, both timeouts are positive and the lazy-load delay is not negative |
| Config.FirstFailureFrom | internal/config/config.go:101-188 | scanning a check list reports nothing exactly when all checks hold, and otherwise the failure of a check that does not hold |
| Config.FetchingFirstFailure | internal/config/config.go:102-131 | the first group reports the first failing check of its list |
| Config.RunningFirstFailure | internal/config/config.go:132-161 | the second group reports the first failing check of its list |
| Config.BackoffFirstFailure | internal/config/config.go:162-173 | the backoff group reports the first failing check of its list |
| Config.RodFirstFailure | internal/config/config.go:174-187 | the rod group, consulted only when rod is enabled, reports the first failing check of its list |
| Config.ValidateIsFirstFailure | internal/config/config.go:101-188 | `Validate` returns the failure of the first failing check, in source order |
| Config.ValidIff | internal/config/config.go:101-188 | `Validate` passes exactly when every check holds |
| Config.RodIgnoredWhenDisabled | internal/config/config.go:174-187 | with rod disabled, the rod fields do not affect the result |
| Config.ScheduleSettings | internal/config/config.go:144-152 | a configuration that passes has a positive interval in interval mode and a cron expression in cron mode, and a usable rod section when rod is enabled |
| Config.Scale | internal/config/config.go:192-234 | `time.Duration(n) * unit` wraps like int64 and is exactly `n * unit` when that fits |
| Config.ValidDurations | internal/config/config.go:192-222 | for a configuration that passes, the connect timeout, the backoff bounds and the robots TTL are the exact positive products, with min ≤ max |
| SelectorsConfig.ValidateSelectors | internal/config/selectors.go:71-95 | a reported field is one that is missing |
| SelectorsConfig.ValidateSelectorsFirstMissing | internal/config/selectors.go:71-95 | validation passes exactly when the card selector and all six lists are present, and otherwise names the first missing one in check order |
| SelectorsConfig.LoadSelectors | internal/config/selectors.go:14-48 | the empty path, and only it, is rejected before loading; a loaded configuration is what the loader returned for that path and passes validation |
| SelectorsConfig.EmptyPathBeforeLoad | internal/config/selectors.go:15-17 | the empty-path error does not depend on the file system |
| SelectorsConfig.ConfiguredPath | internal/config/selectors.go:54-60 | "ky" selects the Kyrgyz file, "ru" the Russian one, and any other language is an error |
| SelectorsConfig.UnsupportedLanguageFails | internal/config/selectors.go:54-60 | loading for an unsupported language fails with that error |
| SelectorsConfig.CleanRelative | internal/config/selectors.go:64 | `filepath.Join("configs", p)` never yields the empty path |
| SelectorsConfig.JoinPlain | internal/config/selectors.go:64 | for a plain relative path, the join is `configs/` followed by the path |
| SelectorsConfig.SelectorsPathShape | internal/config/selectors.go:63-65 | an absolute path is used as is, and a plain relative one is prefixed with `configs/` |
| SelectorsConfig.EmptyConfiguredPathReachesLoader | internal/config/selectors.go:51-68 | an empty configured path is joined into `configs`, so the empty-path check of `LoadSelectors` never fires for a language's file |
| RateLimiter.Sub | internal/fetcher/rate_limiter.go:56 | `time.Time.Sub` saturates to the int64 range and is the exact difference when that fits |
| RateLimiter.Refresh | internal/fetcher/rate_limiter.go:55-59 | the window restarts at `now` with no requests when more than a minute has passed, and is kept otherwise |
| RateLimiter.Wait | internal/fetcher/rate_limiter.go:31-83 | after a wait the host has state; the limits are unchanged; no other host is added, removed or changed |
| RateLimiter.BelowLimitCounts | internal/fetcher/rate_limiter.go:79-82 | below the limit the request is counted in the current window and no wait happens |
| RateLimiter.FullWindowWaits | internal/fetcher/rate_limiter.go:62-73 | at the limit the wait is what is left of the window's minute, between 0 and one minute, and afterwards a new window starts with this request as its first |
| RateLimiter.WindowKeptWithinMinute | internal/fetcher/rate_limiter.go:55-59 | up to exactly one minute after the window start the window is kept and the count grows by one |
| RateLimiter.CancelKeepsCount | internal/fetcher/rate_limiter.go:43-75 | a cancellation returns an error and leaves the count as the window check left it |
| RateLimiter.WaitKeepsWithinLimit | internal/fetcher/rate_limiter.go:62-82 | with a limit of at least one, every host's count stays between 0 and the limit |
| RateLimiter.FirstWaitOpensWindow | internal/fetcher/rate_limiter.go:32-59 | a host's first request after 1970 starts its window at `now` with a count of one |
| Robots.IsDisallowedByRobots | internal/fetcher/robots.go:86-90 | the matcher disallows nothing |
| Robots.IsAllowed | internal/fetcher/robots.go:34-84 | the answer is always "allowed" with no error; a hit leaves the cache alone and requests nothing; a miss requests the host's robots.txt unless the request could not be built; only a 200 with a readable body changes the cache; other hosts are untouched |
| Robots.RobotsUrlShape | internal/fetcher/robots.go:45 | the URL requested is `https://`, the host, then `/robots.txt` |
| Robots.StoredOnSuccess | internal/fetcher/robots.go:76-81 | a fetched file replaces the host's entry, expiring one TTL after it was stored |
| Robots.FailuresNotCached | internal/fetcher/robots.go:47-71 | build, network, status and read failures leave the cache unchanged |
| Robots.StoredThenHit | internal/fetcher/robots.go:39-42 | once stored, the entry answers every check made before it expires without a request |
| Robots.FailureRetried | internal/fetcher/robots.go:47-66 | after a failed fetch the next check requests robots.txt again |
| Fetcher.Exponential | internal/fetcher/fetcher.go:170-173 | the capped exponential delay never exceeds the maximum |
| Fetcher.BaseDelay | internal/fetcher/fetcher.go:170-173 | without overflow, the base delay is min(minMS · 2^(attempt−1), maxMS) |
| Fetcher.BaseDelayMonotone | internal/fetcher/fetcher.go:170-173 | without overflow, the base delay does not decrease with the attempt number |
| Fetcher.JitterFactor | internal/fetcher/fetcher.go:176-178 | the jitter scales the base delay by a factor between 1 − pct/100 and 1 + pct/100 |
| Fetcher.BackoffMS | internal/fetcher/fetcher.go:170-184 | the delay in milliseconds is at least the minimum and at least 0 |
| Fetcher.CalculateBackoff | internal/fetcher/fetcher.go:164-185 | the `time.Duration` fits int64 and is the milliseconds times one millisecond when that fits |
| Fetcher.BackoffBounded | internal/fetcher/fetcher.go:176-184 | for valid settings the delay is at most maxMS · (1 + pct/100) |
| Fetcher.BackoffAtMostTwiceMax | internal/fetcher/fetcher_test.go:22-27 | for valid settings the delay is at most twice the maximum |
| Fetcher.BackoffWithinRange | internal/fetcher/fetcher_test.go:22-27 | for a configuration that passes validation, the duration lies between `GetBackoffMin` and twice `GetBackoffMax` |
| Fetcher.GetAcceptLanguage | internal/fetcher/fetcher.go:187-192 | "ky" gets the Kyrgyz tag and every other language the Russian one |
| Fetcher.Attempts | internal/fetcher/fetcher.go:78-105 | the retry loop ends in a response, a cancellation or exhaustion, and sends at most one request per remaining attempt |
| Fetcher.AttemptsAnswer | internal/fetcher/fetcher.go:88-102 | a returned response comes from the first attempt that does not retry; every earlier one retried, and it is the last request sent |
| Fetcher.AttemptsCancelled | internal/fetcher/fetcher.go:79-86 | a cancellation happens in the wait before an attempt numbered above 0 and within the retries, after every earlier attempt retried |
| Fetcher.AttemptsExhausted | internal/fetcher/fetcher.go:89-105 | exhaustion means every attempt retried, all of them were sent, and the error wraps the last attempt's error |
| Fetcher.AttemptsWaitCount | internal/fetcher/fetcher.go:79-86 | a backoff wait precedes every attempt except attempt 0, plus the wait a cancellation interrupts |
| Fetcher.AttemptsWaitDelays | internal/fetcher/fetcher.go:79-86 | the waits are the delays of attempts 1, 2, … in order |
| Fetcher.AttemptsReach | internal/fetcher/fetcher.go:88-102 | conversely, when every attempt before `a` retries and `a` answers, the loop returns `a`'s response |
| Fetcher.AttemptsRunOut | internal/fetcher/fetcher.go:78-105 | conversely, when every attempt retries, the loop ends exhausted |
| Fetcher.Fetch | internal/fetcher/fetcher.go:53-106 | a bad URL or a robots failure or refusal returns before rate limiting with no request; requests are sent only after the rate limiter let the fetch through; at most `MaxRetries`+1 are sent |
| Fetcher.AdmittedRunsLoop | internal/fetcher/fetcher.go:53-78 | once the URL, robots and rate checks pass, the fetch is the retry loop |
| Fetcher.OkIff | internal/fetcher/fetcher.go:88-102 | the fetch answers with attempt `a` exactly when all attempts before `a` retried and `a` answers; it then sent `a`+1 requests and returns that attempt's status |
| Fetcher.ExhaustedIff | internal/fetcher/fetcher.go:89-105 | the fetch fails as exhausted exactly when every attempt retried; then `MaxRetries`+1 requests were sent, the last one a network error that the error wraps |
| Fetcher.WaitsBetweenAttempts | internal/fetcher/fetcher.go:78-86 | at least one request is sent; there is one wait fewer than requests, or as many when cancelled; wait `i` is the backoff of attempt `i`+1 |
| Fetcher.FirstAnswerReturned | internal/fetcher/fetcher.go:88-102 | a first response with a status that is not retried is returned at once, after one request and no wait |
| Fetcher.NoAttemptsWithNegativeRetries | internal/fetcher/fetcher.go:78-105 | with negative `MaxRetries` no request is sent and the fetch fails with no wrapped error |
| Fetcher.RobotsNeverRefuses | internal/fetcher/fetcher.go:63-69 | with the stub matcher, robots never stops a fetch, which always reaches the rate limiter |

## Left out

- HTTP transport, compression, header setting and body reading in `fetchOnce`: network I/O. Each attempt is an abstract outcome: a network error or a status code.
- goquery parsing and CSS selection: a foreign library. The DOM is an oracle, and `ParseListing` and `FindNextPageLink` take the matched card elements and the document. Their HTML-parse error path is the page source's `ParseFailed`.
- `saveDebugCard` and all logging: file-system output that does not affect results.
- `ParseDetailPage`, `stripBlocks` and the goquery part of `cleanHTML` (document parsing, element removal, `doc.Text()`): HTML and regex library behaviour. Only the text post-processing is modelled.
- Semaphores, mutexes and goroutine interleavings in the rate limiter and robots cache: concurrency. The transitions are sequential. Whether the concurrency slot was acquired is an input, and so is the way a full-window wait ended (timer or cancellation).
- `rand.Float64` and the float arithmetic of the jitter: floating point. The draw is an integer `d` in [0, 2^53), standing for the float `d / 2^53`, and the jitter is computed in exact rational arithmetic. Float rounding and a float-to-int conversion beyond int64 are not modelled.
- `time.Now`: the clock. Its readings are parameters, and the parser and the orchestrator use one reading per run. Times are whole nanoseconds (rate limiter, robots) or whole seconds (checksum); sub-second parts cannot change a UTC day.
- The race in the fetcher's `select` between the backoff timer and cancellation: whether the context ends during a wait is an input.
- SHA-256 internals and the UTF-8 encoding of the pre-hash string: the digest is a parameter over the string.
- The Kyrgyz numeric branch of `parseKyrgyz`: it uses the two-result `parseIntSafe` as if it returned one value, so it does not compile. The model returns a dedicated error there.
- `parseIntSafe` on a match group: the groups hold only ASCII digits, so `Sscanf` cannot fail and the value is the decimal value. The unreachable "invalid day/year" errors are not modelled.
- Case mapping covers ASCII, the Russian alphabet with Ёё, and Kyrgyz ҮүӨөҢң. Other scripts map to themselves.
- The orchestrator's call to the checksum generator with five arguments and its `ArticleCard` fields that do not exist: the call does not match the generator or the record. The model records each attempted upsert as the card and its parsed date. The repository's answer never changes the run, so upsert failures are not modelled separately.
- `PaginationStats.ConsecutiveOldPages`: the code never writes it. The model returns it as 0 and returns the local counter separately.
- The fetcher's `url.Parse` and the host it yields: library parsing. Both are inputs, with the host absent when parsing fails.
- Robots cache TTL: the fetcher hard-codes 12 hours (`Robots.FetcherTtl`). The configured `RobotsCacheTTLHours` is validated and converted but never used by the fetcher.
- `filepath.Join`/`filepath.Clean` on paths with `..`, `.` or repeated separators: modelled by a segment resolver. Only the empty and plain cases are stated as lemmas.
- Loading and decoding the YAML selectors file: file-system I/O. The loader is a parameter.
- Fetcher.BackoffWithinRange: requires that twice the maximum delay in nanoseconds fits int64. Beyond that the Go multiplication wraps and no range is promised.
- Fetcher.BaseDelay: stated only when `minMS · 2^(attempt−1)` fits int64. `Exponential` itself models the wrap-around of larger products.
- DateParser.ParseRussianLongForm: stated end to end only for the seven months whose names avoid the letters п, в, с and ч that begin every Russian weekday and keyword token (March, May, June, July, October, November, December). This keeps the proof short; no token occurs in the other names either. For every month, `DateParser.RussianLongFormRoundTrip` states the result of `parseRussian`.
- DateParser.RussianPlain: stated only for inputs whose letters avoid the weekday and keyword tokens; `DateParser.KeywordsFirst` covers every input.
- Scraper.TitleFallback: the source takes the first 500 bytes, while the model takes 500 characters. The fallback is dead code either way.
- Normalize.TruncatePreview: `MaxPreviewChars` is required to be non-negative. With a negative value the source's slice expression panics.

## Findings

| source | as written | input that shows it | evidently intended | confidence | as-written member | corrected member |
|---|---|---|---|---|---|---|
| internal/normalize/normalize.go:127-140 | the `…` suffix (3 bytes in UTF-8) is appended after cutting to `MaxPreviewChars`, so the preview can be 3 bytes longer than the limit | 60 bytes with no space and a limit of 50 give 53 bytes, which fails the `len(result) > 50` check of internal/normalize/normalize_test.go:22-24 | a preview of at most `MaxPreviewChars` bytes, ellipsis included | not executed | Normalize.TruncatePreviewExceedsLimit | Normalize.TruncatePreviewWithin |
