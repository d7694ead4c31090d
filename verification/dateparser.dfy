/**
 * The listing-date parser (`DateParser.Parse`): turns a Russian or Kyrgyz
 * date string into a UTC calendar day.
 *
 * The two regular expressions are modelled by their match positions. For RE2's
 * leftmost-first semantics both patterns are deterministic at a start position:
 * `\d{1,2}` must take a second digit when there is one (with one digit the next
 * element, `\s` or `.`, would face a digit), and `\s+`, `[а-яё]+` must take
 * their whole run (what follows them cannot start inside the run); the
 * optional `(\d{4})?` takes four digits when four follow. The submatch found
 * is therefore the one at the smallest start position that matches.
 */
module DateParser {
  import opened Common
  import opened Strings
  import opened Decimal
  import opened Calendar

  /** The month-name tables: the name at index `n - 1` maps to month `n`. */
  const RuMonths: seq<string> := [
    "января", "февраля", "марта", "апреля", "мая", "июня",
    "июля", "августа", "сентября", "октября", "ноября", "декабря"]

  const KyMonths: seq<string> := [
    "январь", "февраль", "март", "апрель", "май", "июнь",
    "июль", "август", "сентябрь", "октябрь", "ноябрь", "декабрь"]

  /** Looking a name up in a month table. */
  function MonthNumber(names: seq<string>, name: string): (m: Option<int>)
    requires |names| == 12
    ensures m.None? <==> name !in names
    ensures m.Some? ==> 1 <= m.value <= 12 && names[m.value - 1] == name
  {
    if name in names then Some(IndexOf(names, name) + 1) else None
  }

  /** Weekday tokens deleted from the string, in this order. */
  const RuDays: seq<string> := ["пн", "вт", "ср", "чт", "пт", "сб", "вс",
    "понедельник", "вторник", "среда", "четверг", "пятница", "суббота", "воскресенье"]
  const KyDays: seq<string> := ["дүй", "шейш", "шарш", "бейш", "жума", "ишемби", "чекмек"]

  const RuToday: seq<string> := ["сегодня", "сейчас"]
  const KyToday: seq<string> := ["бүгүн"]
  const RuYesterday: seq<string> := ["вчера", "вчерашний"]
  const KyYesterday: seq<string> := ["кечээ"]

  /**
   * The two readings of the wall clock the parser makes: the current UTC day
   * (for the today and yesterday keywords) and the current year in the
   * process's local time zone (`time.Now().Year()`, the default year).
   */
  datatype Clock = Clock(utcToday: Day, localYear: int)

  datatype DateError =
    | EmptyDate
    | UnknownMonth(name: string)
    | InvalidDay(day: int)
    | InvalidMonth(month: int)
    | Unparsable(input: string)
      /** The Kyrgyz numeric branch, whose source does not type-check, is not modelled. */
    | KyNumericUnspecified

  predicate NonEmptyTokens(tokens: seq<string>) {
    forall k :: 0 <= k < |tokens| ==> |tokens[k]| > 0
  }

  function WeekdaysFor(lang: string): (days: seq<string>)
    ensures |days| > 0 && NonEmptyTokens(days)
  {
    if lang == "ru" then RuDays else KyDays
  }

  /**
   * The weekday loop as written: each round lower-cases the current string
   * and deletes every occurrence of the next token.
   */
  function StripWeekdays(s: string, tokens: seq<string>): string
    requires NonEmptyTokens(tokens)
    decreases |tokens|
  {
    if |tokens| == 0 then s
    else StripWeekdays(RemoveAll(ToLower(s), tokens[0]), tokens[1..])
  }

  /** Deleting the tokens one after another, without any case change. */
  function RemoveTokens(s: string, tokens: seq<string>): string
    requires NonEmptyTokens(tokens)
    decreases |tokens|
  {
    if |tokens| == 0 then s else RemoveTokens(RemoveAll(s, tokens[0]), tokens[1..])
  }

  lemma {:induction false} RemoveTokensKeepsLower(s: string, tokens: seq<string>)
    requires NonEmptyTokens(tokens) && IsLower(s)
    ensures IsLower(RemoveTokens(s, tokens))
    decreases |tokens|
  {
    if |tokens| > 0 {
      RemoveTokensKeepsLower(RemoveAll(s, tokens[0]), tokens[1..]);
    }
  }

  /**
   * The weekday loop equals lower-casing once and then deleting the tokens
   * as substrings, in list order.
   */
  lemma {:induction false} StripWeekdaysIsLowerThenRemove(s: string, tokens: seq<string>)
    requires NonEmptyTokens(tokens) && |tokens| > 0
    ensures StripWeekdays(s, tokens) == RemoveTokens(ToLower(s), tokens)
    ensures IsLower(StripWeekdays(s, tokens))
    decreases |tokens|
  {
    var r := RemoveAll(ToLower(s), tokens[0]);
    LowerIsLower(s);
    assert IsLower(r);
    if |tokens| > 1 {
      StripWeekdaysIsLowerThenRemove(r, tokens[1..]);
      ToLowerOfLower(r);
    }
  }

  /** A string containing none of the tokens loses nothing but its case. */
  lemma {:induction false} StripWeekdaysNoToken(s: string, tokens: seq<string>)
    requires NonEmptyTokens(tokens)
    requires !ContainsAny(ToLower(s), tokens)
    ensures |tokens| > 0 ==> StripWeekdays(s, tokens) == ToLower(s)
    decreases |tokens|
  {
    if |tokens| > 0 {
      assert !Contains(ToLower(s), tokens[0]);
      ToLowerIdempotent(s);
      assert !ContainsAny(ToLower(ToLower(s)), tokens[1..]) by {
        forall k | 0 <= k < |tokens| - 1 ensures !Contains(ToLower(s), tokens[1..][k]) {
          assert tokens[1..][k] == tokens[k + 1];
        }
      }
      StripWeekdaysNoToken(ToLower(s), tokens[1..]);
    }
  }

  /** Whether any keyword of the list occurs in `s`. */
  predicate ContainsAny(s: string, words: seq<string>) {
    exists k :: 0 <= k < |words| && Contains(s, words[k])
  }

  /** The string the keyword checks and the patterns see, after weekday removal and trimming. */
  function Prepared(lang: string, s: string): string {
    TrimSpace(StripWeekdays(TrimSpace(s), WeekdaysFor(lang)))
  }

  predicate IsMonthLetter(c: char) {
    ('а' <= c <= 'я') || c == 'ё'
  }

  /** Length of `\d{1,2}` at `i`: the digit there and a second one if it follows; 0 if no digit. */
  function DayDigits(s: string, i: nat): (n: nat)
    requires i <= |s|
    ensures n <= 2 && i + n <= |s| && AllDigits(s[i..i + n])
  {
    if i < |s| && IsDigit(s[i]) then
      if i + 1 < |s| && IsDigit(s[i + 1]) then
        assert s[i..i + 2] == [s[i], s[i + 1]];
        2
      else
        assert s[i..i + 1] == [s[i]];
        1
    else
      assert s[i..i] == [];
      0
  }

  /** Length of the run of characters satisfying `p` that starts at `i`. */
  function Run(s: string, i: nat, p: char -> bool): (n: nat)
    requires i <= |s|
    ensures i + n <= |s|
    decreases |s| - i
  {
    if i < |s| && p(s[i]) then 1 + Run(s, i + 1, p) else 0
  }

  /** The optional `(\d{4})?` at `n`: four digits if four follow, else the empty group. */
  function YearGroup(s: string, n: nat): (y: string)
    requires n <= |s|
    ensures y == "" || (|y| == 4 && AllDigits(y))
  {
    if n + 4 <= |s| && AllDigits(s[n..n + 4]) then s[n..n + 4] else ""
  }

  /** The three submatches of either pattern. */
  datatype Groups = Groups(day: string, month: string, year: string)

  predicate WellFormedGroups(g: Groups, numericMonth: bool) {
    && 1 <= |g.day| <= 2 && AllDigits(g.day)
    && |g.month| > 0
    && (numericMonth ==> |g.month| <= 2 && AllDigits(g.month))
    && (g.year == "" || (|g.year| == 4 && AllDigits(g.year)))
  }

  datatype Pattern =
    | NamedMonth  // (\d{1,2})\s+([а-яё]+)\s+(\d{4})?
    | Numeric     // (\d{1,2})\.(\d{1,2})\.(\d{4})?

  /** The match of `p` starting exactly at `i`, if any. */
  function MatchAt(p: Pattern, s: string, i: nat): (m: Option<Groups>)
    requires i <= |s|
    ensures m.Some? ==> WellFormedGroups(m.value, p.Numeric?)
    ensures m.Some? ==> i + |m.value.day| <= |s| && s[i..i + |m.value.day|] == m.value.day
  {
    var d := DayDigits(s, i);
    if d == 0 then None
    else
      var j := i + d;
      match p
      case NamedMonth =>
        var w1 := Run(s, j, IsReSpace);
        var k := j + w1;
        var l := Run(s, k, IsMonthLetter);
        var e := k + l;
        var w2 := Run(s, e, IsReSpace);
        if w1 == 0 || l == 0 || w2 == 0 then None
        else Some(Groups(s[i..j], s[k..e], YearGroup(s, e + w2)))
      case Numeric =>
        if j == |s| || s[j] != '.' then None
        else
          var d2 := DayDigits(s, j + 1);
          var k := j + 1 + d2;
          if d2 == 0 || k == |s| || s[k] != '.' then None
          else Some(Groups(s[i..j], s[j + 1..k], YearGroup(s, k + 1)))
  }

  /** The first start position at or after `i` where `p` matches; `|s| + 1` when there is none. */
  function Leftmost(p: Pattern, s: string, i: nat): (j: nat)
    requires i <= |s|
    ensures i <= j <= |s| + 1
    ensures forall k :: i <= k < j && k <= |s| ==> MatchAt(p, s, k).None?
    ensures j <= |s| ==> MatchAt(p, s, j).Some?
    decreases |s| - i
  {
    if MatchAt(p, s, i).Some? then i
    else if i == |s| then |s| + 1
    else Leftmost(p, s, i + 1)
  }

  /** `FindStringSubmatch`: the submatches of the leftmost match. */
  function Find(p: Pattern, s: string): (m: Option<Groups>)
    ensures m.None? <==> forall k :: 0 <= k <= |s| ==> MatchAt(p, s, k).None?
    ensures m.Some? ==> WellFormedGroups(m.value, p.Numeric?)
  {
    var j := Leftmost(p, s, 0);
    if j <= |s| then MatchAt(p, s, j) else None
  }

  /** `parseIntSafe`: `Sscanf("%d")` on a run of ASCII digits always succeeds with its value. */
  function ParseIntSafe(s: string): nat
    requires AllDigits(s)
  {
    Value(s)
  }

  function YearOr(g: Groups, clock: Clock): int
    requires g.year == "" || AllDigits(g.year)
  {
    if g.year == "" then clock.localYear else ParseIntSafe(g.year)
  }

  /** `parseRussian`. */
  function ParseRussian(s: string, clock: Clock): (r: Result<Date, DateError>)
    ensures r.Ok? ==> Valid(r.value)
    ensures r != Err(EmptyDate)
    ensures var t := ToLower(s);
      r == Err(Unparsable(t)) <==> Find(NamedMonth, t).None? && Find(Numeric, t).None?
  {
    var t := ToLower(s);
    match Find(NamedMonth, t)
    case Some(g) => RussianNamed(g, clock)
    case None =>
      match Find(Numeric, t)
      case Some(g) => RussianNumeric(g, clock)
      case None => Err(Unparsable(t))
  }

  /** The day, month and year checks shared by both Russian patterns. */
  function RussianChecked(year: int, month: int, day: int): (r: Result<Date, DateError>)
    ensures r.Ok? <==> 1 <= day <= 31 && 1 <= month <= 12
    ensures r.Ok? ==> r.value == DateOf(year, month, day)
    ensures (day < 1 || day > 31) ==> r == Err(InvalidDay(day))
    ensures 1 <= day <= 31 && (month < 1 || month > 12) ==> r == Err(InvalidMonth(month))
  {
    if day < 1 || day > 31 then Err(InvalidDay(day))
    else if month < 1 || month > 12 then Err(InvalidMonth(month))
    else Ok(DateOf(year, month, day))
  }

  /** The named-month submatches in `parseRussian`: the name must be in the table. */
  function RussianNamed(g: Groups, clock: Clock): (r: Result<Date, DateError>)
    requires WellFormedGroups(g, false)
    ensures r.Ok? ==> Valid(r.value)
    ensures MonthNumber(RuMonths, g.month).None? <==> r == Err(UnknownMonth(g.month))
    ensures r.Err? ==> r.error.UnknownMonth? || r.error.InvalidDay? || r.error.InvalidMonth?
  {
    var named := MonthNumber(RuMonths, g.month);
    if named.None? then Err(UnknownMonth(g.month))
    else RussianChecked(YearOr(g, clock), named.value, ParseIntSafe(g.day))
  }

  /** The numeric submatches in `parseRussian`. */
  function RussianNumeric(g: Groups, clock: Clock): (r: Result<Date, DateError>)
    requires WellFormedGroups(g, true)
    ensures r.Ok? ==> Valid(r.value)
    ensures r.Ok? <==> 1 <= ParseIntSafe(g.day) <= 31 && 1 <= ParseIntSafe(g.month) <= 12
    ensures r.Ok? ==> r.value == DateOf(YearOr(g, clock), ParseIntSafe(g.month), ParseIntSafe(g.day))
    ensures r.Err? ==> r.error.InvalidDay? || r.error.InvalidMonth?
  {
    RussianChecked(YearOr(g, clock), ParseIntSafe(g.month), ParseIntSafe(g.day))
  }

  /** `parseKyrgyz`, named-month branch; the numeric branch is left unspecified. */
  function ParseKyrgyz(s: string, clock: Clock): (r: Result<Date, DateError>)
    ensures r.Ok? ==> Valid(r.value)
    ensures r != Err(EmptyDate)
    ensures var t := ToLower(s);
      r == Err(Unparsable(t)) <==> Find(NamedMonth, t).None? && Find(Numeric, t).None?
    ensures var t := ToLower(s);
      r == Err(KyNumericUnspecified) <==> Find(NamedMonth, t).None? && Find(Numeric, t).Some?
  {
    var t := ToLower(s);
    match Find(NamedMonth, t)
    case Some(g) => KyrgyzNamed(g, clock)
    case None =>
      if Find(Numeric, t).Some? then Err(KyNumericUnspecified)
      else Err(Unparsable(t))
  }

  /** The named-month submatches in `parseKyrgyz`: no range check on the day. */
  function KyrgyzNamed(g: Groups, clock: Clock): (r: Result<Date, DateError>)
    requires WellFormedGroups(g, false)
    ensures r.Ok? ==> Valid(r.value)
    ensures r.Ok? <==> MonthNumber(KyMonths, g.month).Some?
    ensures r.Err? ==> r == Err(UnknownMonth(g.month))
    ensures r.Ok? ==> r.value == DateOf(YearOr(g, clock), MonthNumber(KyMonths, g.month).value, ParseIntSafe(g.day))
  {
    var named := MonthNumber(KyMonths, g.month);
    if named.None? then Err(UnknownMonth(g.month))
    else Ok(DateOf(YearOr(g, clock), named.value, ParseIntSafe(g.day)))
  }

  /**
   * `DateParser.Parse` for the parser's language (`"ru"`; anything else takes
   * the Kyrgyz paths).
   */
  function Parse(lang: string, raw: string, clock: Clock): (r: Result<Date, DateError>)
    ensures r == Err(EmptyDate) <==> AllSpace(raw)
    ensures r.Ok? ==> Valid(r.value)
  {
    var s := TrimSpace(raw);
    if s == "" then Err(EmptyDate)
    else ParsePrepared(lang, Prepared(lang, raw), clock)
  }

  /** The keyword checks, then the language's patterns, on the prepared string. */
  function ParsePrepared(lang: string, t: string, clock: Clock): (r: Result<Date, DateError>)
    ensures r != Err(EmptyDate)
    ensures r.Ok? ==> Valid(r.value)
  {
    var lower := ToLower(t);
    if lang == "ru" then
      if ContainsAny(lower, RuToday) then Ok(clock.utcToday)
      else if ContainsAny(lower, RuYesterday) then Ok(PrevDay(clock.utcToday))
      else ParseRussian(t, clock)
    else
      if ContainsAny(lower, KyToday) then Ok(clock.utcToday)
      else if ContainsAny(lower, KyYesterday) then Ok(PrevDay(clock.utcToday))
      else ParseKyrgyz(t, clock)
  }

  /** A run of exactly `n` characters satisfying `p`, followed by the end or a character that fails it. */
  lemma {:induction false} RunExact(s: string, i: nat, n: nat, p: char -> bool)
    requires i + n <= |s|
    requires forall k :: i <= k < i + n ==> p(s[k])
    requires i + n == |s| || !p(s[i + n])
    ensures Run(s, i, p) == n
    decreases n
  {
    if n > 0 {
      RunExact(s, i + 1, n - 1, p);
    }
  }

  /** No character of `s` is one of `cs`. */
  predicate Avoids(s: string, cs: string) {
    forall i :: 0 <= i < |s| ==> s[i] !in cs
  }

  lemma AvoidedFirstChars(s: string, words: seq<string>, cs: string)
    requires forall k :: 0 <= k < |words| ==> |words[k]| > 0 && words[k][0] in cs
    requires Avoids(s, cs)
    ensures !ContainsAny(s, words)
  {
    forall k | 0 <= k < |words| ensures !Contains(s, words[k]) {
      MissingFirstCharNotContained(s, words[k]);
    }
  }

  lemma RuInitials()
    ensures forall k :: 0 <= k < |RuDays| ==> |RuDays[k]| > 0 && RuDays[k][0] in "пвсч"
    ensures forall k :: 0 <= k < |RuToday| ==> |RuToday[k]| > 0 && RuToday[k][0] in "пвсч"
    ensures forall k :: 0 <= k < |RuYesterday| ==> |RuYesterday[k]| > 0 && RuYesterday[k][0] in "пвсч"
  {
  }

  /**
   * A trimmed lower-case string without the first letters of the weekday and
   * keyword tokens reaches `parseRussian` unchanged.
   */
  lemma RussianPlain(s: string, clock: Clock)
    requires |s| > 0 && !IsSpace(s[0]) && !IsSpace(s[|s| - 1])
    requires AllUnmarked(s)
    ensures ToLower(s) == s
    ensures Parse("ru", s, clock) == ParseRussian(s, clock)
  {
    UnmarkedFacts(s);
    PreparedPlain(s);
    RuInitials();
    AvoidedFirstChars(s, RuToday, "пвсч");
    AvoidedFirstChars(s, RuYesterday, "пвсч");
  }

  lemma UnmarkedFacts(s: string)
    requires AllUnmarked(s)
    ensures ToLower(s) == s && Avoids(s, "пвсч")
  {
    assert forall i :: 0 <= i < |s| ==> !IsUpper(s[i]);
    NoUpperIsLower(s);
  }

  /** Weekday removal and trimming leave such a string alone. */
  lemma PreparedPlain(s: string)
    requires |s| > 0 && !IsSpace(s[0]) && !IsSpace(s[|s| - 1])
    requires AllUnmarked(s)
    ensures Prepared("ru", s) == s
  {
    UnmarkedFacts(s);
    TrimSpaceNoOp(s);
    RuInitials();
    AvoidedFirstChars(s, RuDays, "пвсч");
    StripWeekdaysNoToken(s, RuDays);
    assert StripWeekdays(TrimSpace(s), WeekdaysFor("ru")) == s;
  }

  predicate AllMonthLetters(s: string) {
    forall i :: 0 <= i < |s| ==> IsMonthLetter(s[i])
  }

  /** Every month name is a non-empty run of `[а-яё]` letters, and the names differ. */
  lemma MonthTables()
    ensures |RuMonths| == 12 && |KyMonths| == 12
    ensures forall k :: 0 <= k < 12 ==> |RuMonths[k]| > 0 && AllMonthLetters(RuMonths[k])
    ensures forall k :: 0 <= k < 12 ==> |KyMonths[k]| > 0 && AllMonthLetters(KyMonths[k])
    ensures forall i, j :: 0 <= i < j < 12 ==> RuMonths[i] != RuMonths[j]
    ensures forall i, j :: 0 <= i < j < 12 ==> KyMonths[i] != KyMonths[j]
  {
  }

  /** Looking up a name of a table without repeats gives back its position. */
  lemma MonthNumberOfName(names: seq<string>, k: nat)
    requires |names| == 12 && k < 12
    requires forall i, j :: 0 <= i < j < 12 ==> names[i] != names[j]
    ensures MonthNumber(names, names[k]) == Some(k + 1)
  {
  }

  /** One entry of each table: a plain name that looks up to its month number. */
  lemma MonthEntry(k: nat)
    requires k < 12
    ensures |RuMonths| == 12 && |RuMonths[k]| > 0 && AllMonthLetters(RuMonths[k])
    ensures MonthNumber(RuMonths, RuMonths[k]) == Some(k + 1)
    ensures |KyMonths| == 12 && |KyMonths[k]| > 0 && AllMonthLetters(KyMonths[k])
    ensures MonthNumber(KyMonths, KyMonths[k]) == Some(k + 1)
  {
    MonthTables();
    MonthNumberOfName(RuMonths, k);
    MonthNumberOfName(KyMonths, k);
  }

  /** The year group read at `n` depends only on the text from `n` on. */
  lemma YearGroupSuffix(s: string, n: nat)
    requires n <= |s|
    ensures YearGroup(s, n) == YearGroup(s[n..], 0)
  {
    if n + 4 <= |s| {
      assert s[n..][0..4] == s[n..n + 4];
    }
  }

  /** The named pattern at `i` in terms of the lengths of its four runs. */
  lemma NamedMatchRuns(s: string, i: nat, d: nat, w1: nat, l: nat, w2: nat)
    requires i <= |s| && DayDigits(s, i) == d > 0
    requires i + d <= |s| && Run(s, i + d, IsReSpace) == w1 > 0
    requires i + d + w1 <= |s| && Run(s, i + d + w1, IsMonthLetter) == l > 0
    requires i + d + w1 + l <= |s| && Run(s, i + d + w1 + l, IsReSpace) == w2 > 0
    ensures i + d + w1 + l + w2 <= |s|
    ensures MatchAt(NamedMonth, s, i)
      == Some(Groups(s[i..i + d], s[i + d + w1..i + d + w1 + l], YearGroup(s, i + d + w1 + l + w2)))
  {
  }

  lemma NamedShapeRuns(dd: string, name: string, rest: string)
    requires 1 <= |dd| <= 2 && AllDigits(dd)
    requires |name| > 0 && AllMonthLetters(name)
    requires rest == [] || !IsReSpace(rest[0])
    ensures var t := dd + " " + name + " " + rest;
      && DayDigits(t, 0) == |dd|
      && Run(t, |dd|, IsReSpace) == 1
      && Run(t, |dd| + 1, IsMonthLetter) == |name|
      && Run(t, |dd| + 1 + |name|, IsReSpace) == 1
  {
    var t := dd + " " + name + " " + rest;
    var a := |dd|;
    var b := a + 1 + |name|;
    assert forall i :: 0 <= i < a ==> t[i] == dd[i];
    assert t[a] == ' ' && t[b] == ' ';
    assert forall i :: 0 <= i < |name| ==> t[a + 1 + i] == name[i];
    assert |rest| > 0 ==> t[b + 1] == rest[0];
    RunExact(t, a, 1, IsReSpace);
    RunExact(t, a + 1, |name|, IsMonthLetter);
    RunExact(t, b, 1, IsReSpace);
  }

  /**
   * The named pattern at the start of `dd + " " + name + " " + rest`: the day
   * digits, the month name, and the year group read from `rest`.
   */
  lemma NamedShapeMatch(dd: string, name: string, rest: string)
    requires 1 <= |dd| <= 2 && AllDigits(dd)
    requires |name| > 0 && AllMonthLetters(name)
    requires rest == [] || !IsReSpace(rest[0])
    ensures MatchAt(NamedMonth, dd + " " + name + " " + rest, 0)
      == Some(Groups(dd, name, YearGroup(rest, 0)))
  {
    var t := dd + " " + name + " " + rest;
    var a := |dd|;
    var b := a + 1 + |name|;
    NamedShapeRuns(dd, name, rest);
    NamedMatchRuns(t, 0, a, 1, |name|, 1);
    JoinParts(dd, ' ', name, ' ', rest);
    YearGroupSuffix(t, b + 1);
  }

  /** The three pieces of a string joined by two separators, read back by slicing. */
  lemma JoinParts(a: string, s1: char, b: string, s2: char, c: string)
    ensures var t := a + [s1] + b + [s2] + c;
      && t[..|a|] == a
      && t[|a| + 1..|a| + 1 + |b|] == b
      && t[|a| + 2 + |b|..] == c
  {
  }

  /** Digits, spaces, dots and `[а-яё]` letters: characters lower-casing leaves alone. */
  predicate PlainChar(c: char) {
    IsDigit(c) || c == ' ' || c == '.' || IsMonthLetter(c)
  }

  predicate DigitOrDot(c: char) {
    IsDigit(c) || c == '.'
  }

  /** A plain character that is none of the weekday and keyword initials. */
  predicate PlainUnmarked(c: char) {
    PlainChar(c) && c !in "пвсч"
  }

  lemma PlainIsLower(s: string)
    requires forall i :: 0 <= i < |s| ==> PlainChar(s[i])
    ensures IsLower(s) && ToLower(s) == s
  {
    NoUpperIsLower(s);
  }

  /** A character property of two strings and their separator holds for their join. */
  lemma JoinChars(a: string, sep: char, b: string, p: char -> bool)
    requires forall i :: 0 <= i < |a| ==> p(a[i])
    requires p(sep)
    requires forall i :: 0 <= i < |b| ==> p(b[i])
    ensures forall i :: 0 <= i < |a + [sep] + b| ==> p((a + [sep] + b)[i])
  {
    var t := a + [sep] + b;
    forall i | 0 <= i < |t| ensures p(t[i]) {
      if i < |a| {
        assert t[i] == a[i];
      } else if i > |a| {
        assert t[i] == b[i - |a| - 1];
      }
    }
  }

  /** The named-month form of a date with a table's month name: `18 октября 2024`. */
  function LongForm(names: seq<string>, d: Date): string
    requires |names| == 12 && 1 <= d.month <= 12 && 0 <= d.day && 0 <= d.year
  {
    Show(d.day) + " " + names[d.month - 1] + " " + Show(d.year)
  }

  /** The numeric form of a date: `18.10.2024`. */
  function NumericForm(d: Date): string
    requires 0 <= d.month && 0 <= d.day && 0 <= d.year
  {
    Show(d.day) + "." + Show(d.month) + "." + Show(d.year)
  }

  lemma ShowWidths(n: nat)
    ensures n < 100 ==> 1 <= |Show(n)| <= 2
    ensures 1000 <= n <= 9999 ==> |Show(n)| == 4
  {
    assert Pow10(1) == 10 && Pow10(2) == 100 && Pow10(3) == 1000 && Pow10(4) == 10000;
    if n < 100 {
      ShowLength(n, 2);
    }
    if 1000 <= n <= 9999 {
      ShowLength(n, 4);
    }
  }

  lemma LongFormShape(names: seq<string>, d: Date)
    requires |names| == 12 && 1 <= d.month <= 12 && 0 <= d.day < 100 && 1000 <= d.year <= 9999
    requires |names[d.month - 1]| > 0 && AllMonthLetters(names[d.month - 1])
    ensures ToLower(LongForm(names, d)) == LongForm(names, d)
    ensures Find(NamedMonth, LongForm(names, d))
      == Some(Groups(Show(d.day), names[d.month - 1], Show(d.year)))
  {
    var dd, name, yy := Show(d.day), names[d.month - 1], Show(d.year);
    var t := LongForm(names, d);
    ShowWidths(d.day);
    ShowWidths(d.year);
    JoinChars(dd, ' ', name, PlainChar);
    JoinChars(dd + " " + name, ' ', yy, PlainChar);
    PlainIsLower(t);
    NamedShapeMatch(dd, name, yy);
    assert YearGroup(yy, 0) == yy by {
      assert yy[0..4] == yy;
    }
  }

  /**
   * The Russian long form of any day number up to 31 is read as that many
   * days from the first of the month; for a real calendar day this gives the
   * date back.
   */
  lemma RussianLongFormRoundTrip(d: Date, clock: Clock)
    requires 1 <= d.day <= 31 && 1 <= d.month <= 12 && 1000 <= d.year <= 9999
    ensures ParseRussian(LongForm(RuMonths, d), clock) == Ok(DateOf(d.year, d.month, d.day))
    ensures Valid(d) ==> ParseRussian(LongForm(RuMonths, d), clock) == Ok(d)
  {
    MonthEntry(d.month - 1);
    LongFormShape(RuMonths, d);
    var g := Groups(Show(d.day), RuMonths[d.month - 1], Show(d.year));
    RussianNamedHit(LongForm(RuMonths, d), g, d.month, clock);
    if Valid(d) {
      DateOfInRange(d.year, d.month, d.day);
    }
  }

  /** `parseRussian` on a lower-case string whose named match has a known month and a day in range. */
  lemma RussianNamedHit(t: string, g: Groups, month: int, clock: Clock)
    requires ToLower(t) == t && Find(NamedMonth, t) == Some(g)
    requires MonthNumber(RuMonths, g.month) == Some(month)
    requires 1 <= Value(g.day) <= 31
    ensures 1 <= month <= 12
    ensures ParseRussian(t, clock) == Ok(DateOf(YearOr(g, clock), month, Value(g.day)))
  {
    assert ParseRussian(t, clock) == RussianNamed(g, clock);
  }

  /**
   * The Kyrgyz long form is accepted for every one- or two-digit day, zero
   * included, since the Kyrgyz path does not check the day's range; for a
   * real calendar day this gives the date back.
   */
  lemma KyrgyzLongFormRoundTrip(d: Date, clock: Clock)
    requires 0 <= d.day <= 99 && 1 <= d.month <= 12 && 1000 <= d.year <= 9999
    ensures ParseKyrgyz(LongForm(KyMonths, d), clock) == Ok(DateOf(d.year, d.month, d.day))
    ensures Valid(d) ==> ParseKyrgyz(LongForm(KyMonths, d), clock) == Ok(d)
  {
    MonthEntry(d.month - 1);
    LongFormShape(KyMonths, d);
    if Valid(d) {
      DateOfInRange(d.year, d.month, d.day);
    }
  }

  /** Without any `\s` character the named pattern matches nowhere. */
  lemma NoSpaceNoNamedMatch(t: string)
    requires forall i :: 0 <= i < |t| ==> !IsReSpace(t[i])
    ensures Find(NamedMonth, t).None?
  {
    forall k | 0 <= k <= |t| ensures MatchAt(NamedMonth, t, k).None? {
      var j := k + DayDigits(t, k);
      assert Run(t, j, IsReSpace) == 0 by {
        if j < |t| {
          assert !IsReSpace(t[j]);
        }
      }
    }
  }

  lemma NumericShapeMatch(dd: string, mm: string, rest: string)
    requires 1 <= |dd| <= 2 && AllDigits(dd)
    requires 1 <= |mm| <= 2 && AllDigits(mm)
    ensures MatchAt(Numeric, dd + "." + mm + "." + rest, 0)
      == Some(Groups(dd, mm, YearGroup(rest, 0)))
  {
    var t := dd + "." + mm + "." + rest;
    var a := |dd|;
    var b := a + 1 + |mm|;
    assert forall i :: 0 <= i < a ==> t[i] == dd[i];
    assert t[a] == '.' && t[b] == '.';
    assert forall i :: 0 <= i < |mm| ==> t[a + 1 + i] == mm[i];
    assert DayDigits(t, 0) == a;
    assert DayDigits(t, a + 1) == |mm|;
    JoinParts(dd, '.', mm, '.', rest);
    YearGroupSuffix(t, b + 1);
  }

  /** The numeric form has only digits and dots. */
  lemma NumericFormPlain(d: Date)
    requires 0 <= d.day && 0 <= d.month && 0 <= d.year
    ensures var t := NumericForm(d);
      && ToLower(t) == t
      && forall i :: 0 <= i < |t| ==> !IsReSpace(t[i])
  {
    var dd, mm, yy := Show(d.day), Show(d.month), Show(d.year);
    JoinChars(dd, '.', mm, DigitOrDot);
    JoinChars(dd + "." + mm, '.', yy, DigitOrDot);
    PlainIsLower(NumericForm(d));
  }

  lemma NumericFormShape(d: Date)
    requires 0 <= d.day < 100 && 0 <= d.month < 100 && 1000 <= d.year <= 9999
    ensures ToLower(NumericForm(d)) == NumericForm(d)
    ensures Find(NamedMonth, NumericForm(d)).None?
    ensures Find(Numeric, NumericForm(d)) == Some(Groups(Show(d.day), Show(d.month), Show(d.year)))
  {
    var dd, mm, yy := Show(d.day), Show(d.month), Show(d.year);
    var t := NumericForm(d);
    ShowWidths(d.day);
    ShowWidths(d.month);
    ShowWidths(d.year);
    NumericFormPlain(d);
    NoSpaceNoNamedMatch(t);
    NumericShapeMatch(dd, mm, yy);
    assert YearGroup(yy, 0) == yy by {
      assert yy[0..4] == yy;
    }
  }

  /** Writing a date in numeric form and parsing it gives the date back. */
  lemma RussianNumericRoundTrip(d: Date, clock: Clock)
    requires Valid(d) && 1000 <= d.year <= 9999
    ensures ParseRussian(NumericForm(d), clock) == Ok(d)
  {
    NumericFormShape(d);
    var g := Groups(Show(d.day), Show(d.month), Show(d.year));
    assert ParseIntSafe(g.day) == d.day && ParseIntSafe(g.month) == d.month;
    assert YearOr(g, clock) == d.year;
    DateOfInRange(d.year, d.month, d.day);
  }

  /** The Kyrgyz path recognises the numeric form but leaves its result unspecified. */
  lemma KyrgyzNumericUnspecified(d: Date, clock: Clock)
    requires 0 <= d.day < 100 && 0 <= d.month < 100 && 1000 <= d.year <= 9999
    ensures ParseKyrgyz(NumericForm(d), clock) == Err(KyNumericUnspecified)
  {
    NumericFormShape(d);
  }

  /** Neither pattern matches a day and a month name with nothing after the name. */
  lemma DayMonthOnlyNoMatch(dd: string, name: string)
    requires 1 <= |dd| <= 2 && AllDigits(dd)
    requires |name| > 0 && AllMonthLetters(name)
    ensures forall k :: 0 <= k <= |dd + " " + name| ==>
      MatchAt(NamedMonth, dd + " " + name, k).None? && MatchAt(Numeric, dd + " " + name, k).None?
  {
    var t := dd + " " + name;
    var a := |dd|;
    assert forall i :: 0 <= i < a ==> t[i] == dd[i];
    assert t[a] == ' ';
    assert forall i :: 0 <= i < |name| ==> t[a + 1 + i] == name[i];
    forall k | 0 <= k <= |t| ensures MatchAt(NamedMonth, t, k).None? && MatchAt(Numeric, t, k).None? {
      if k < a {
        assert k + DayDigits(t, k) == a;
        RunExact(t, a, 1, IsReSpace);
        RunExact(t, a + 1, |name|, IsMonthLetter);
      } else {
        assert DayDigits(t, k) == 0 by {
          if k < |t| {
            assert k == a || t[k] == name[k - a - 1];
          }
        }
      }
    }
  }

  /**
   * A day and a month name with no text after the name are rejected: the
   * named pattern needs whitespace after the month.
   */
  lemma RussianDayMonthOnlyRejected(dd: string, name: string, clock: Clock)
    requires 1 <= |dd| <= 2 && AllDigits(dd)
    requires |name| > 0 && AllMonthLetters(name)
    ensures ParseRussian(dd + " " + name, clock) == Err(Unparsable(dd + " " + name))
  {
    var t := dd + " " + name;
    JoinChars(dd, ' ', name, PlainChar);
    PlainIsLower(t);
    DayMonthOnlyNoMatch(dd, name);
  }

  lemma ShortNumericNoMatch(dd: string, mm: string)
    requires 1 <= |dd| <= 2 && AllDigits(dd)
    requires 1 <= |mm| <= 2 && AllDigits(mm)
    ensures forall k :: 0 <= k <= |dd + "." + mm| ==> MatchAt(Numeric, dd + "." + mm, k).None?
  {
    var t := dd + "." + mm;
    var a := |dd|;
    assert forall i :: 0 <= i < a ==> t[i] == dd[i];
    assert t[a] == '.';
    assert forall i :: 0 <= i < |mm| ==> t[a + 1 + i] == mm[i];
    forall k | 0 <= k <= |t| ensures MatchAt(Numeric, t, k).None? {
      if k < a {
        assert k + DayDigits(t, k) == a;
        assert DayDigits(t, a + 1) == |mm|;
      } else if k == a {
        assert DayDigits(t, k) == 0;
      } else {
        assert k + DayDigits(t, k) == |t|;
      }
    }
  }

  /** A day and month in numeric form without the second dot are rejected. */
  lemma RussianShortNumericRejected(dd: string, mm: string, clock: Clock)
    requires 1 <= |dd| <= 2 && AllDigits(dd)
    requires 1 <= |mm| <= 2 && AllDigits(mm)
    ensures ParseRussian(dd + "." + mm, clock) == Err(Unparsable(dd + "." + mm))
  {
    var t := dd + "." + mm;
    JoinChars(dd, '.', mm, DigitOrDot);
    PlainIsLower(t);
    NoSpaceNoNamedMatch(t);
    ShortNumericNoMatch(dd, mm);
  }

  lemma NamedFormLower(dd: string, name: string, rest: string)
    requires AllDigits(dd) && AllMonthLetters(name) && ToLower(rest) == rest
    ensures ToLower(dd + " " + name + " " + rest) == dd + " " + name + " " + rest
  {
    var head := dd + " " + name + " ";
    JoinChars(dd, ' ', name, PlainChar);
    JoinChars(dd + " " + name, ' ', "", PlainChar);
    assert dd + " " + name + [' '] + "" == head;
    PlainIsLower(head);
    ToLowerAppend(head, rest);
  }

  /**
   * A name the month table lacks is an error: the numeric pattern is not
   * tried, even when a numeric date follows.
   */
  lemma RussianUnknownMonthNotRetried(dd: string, name: string, rest: string, clock: Clock)
    requires 1 <= |dd| <= 2 && AllDigits(dd)
    requires |name| > 0 && AllMonthLetters(name) && name !in RuMonths
    requires ToLower(rest) == rest && (rest == [] || !IsReSpace(rest[0]))
    ensures ParseRussian(dd + " " + name + " " + rest, clock) == Err(UnknownMonth(name))
  {
    NamedFormLower(dd, name, rest);
    NamedShapeMatch(dd, name, rest);
  }

  lemma YearGroupEmpty(rest: string)
    requires rest == [] || !IsDigit(rest[0])
    ensures YearGroup(rest, 0) == ""
  {
    assert |rest| >= 4 ==> rest[0..4][0] == rest[0];
  }

  /** Without four digits after the month, the year is the current local year. */
  lemma RussianYearDefaults(d: Date, rest: string, clock: Clock)
    requires 1 <= d.day <= 31 && 1 <= d.month <= 12
    requires ToLower(rest) == rest && (rest == [] || (!IsReSpace(rest[0]) && !IsDigit(rest[0])))
    ensures ParseRussian(Show(d.day) + " " + RuMonths[d.month - 1] + " " + rest, clock)
      == Ok(DateOf(clock.localYear, d.month, d.day))
  {
    MonthTables();
    ShowWidths(d.day);
    var name := RuMonths[d.month - 1];
    NamedFormLower(Show(d.day), name, rest);
    NamedShapeMatch(Show(d.day), name, rest);
    YearGroupEmpty(rest);
    MonthNumberOfName(RuMonths, d.month - 1);
  }

  /**
   * The Kyrgyz named form without four digits after the month also takes the
   * current local year; any one- or two-digit day is accepted.
   */
  lemma KyrgyzYearDefaults(d: Date, rest: string, clock: Clock)
    requires 0 <= d.day <= 99 && 1 <= d.month <= 12
    requires ToLower(rest) == rest && (rest == [] || (!IsReSpace(rest[0]) && !IsDigit(rest[0])))
    ensures ParseKyrgyz(Show(d.day) + " " + KyMonths[d.month - 1] + " " + rest, clock)
      == Ok(DateOf(clock.localYear, d.month, d.day))
  {
    MonthTables();
    ShowWidths(d.day);
    var name := KyMonths[d.month - 1];
    NamedFormLower(Show(d.day), name, rest);
    NamedShapeMatch(Show(d.day), name, rest);
    YearGroupEmpty(rest);
    MonthNumberOfName(KyMonths, d.month - 1);
  }

  /** The numeric pattern without four digits after the second dot also takes the current local year. */
  lemma RussianNumericYearDefaults(d: Date, rest: string, clock: Clock)
    requires 1 <= d.day <= 31 && 1 <= d.month <= 12
    requires ToLower(rest) == rest && forall i :: 0 <= i < |rest| ==> !IsReSpace(rest[i])
    requires rest == [] || !IsDigit(rest[0])
    ensures ParseRussian(Show(d.day) + "." + Show(d.month) + "." + rest, clock)
      == Ok(DateOf(clock.localYear, d.month, d.day))
  {
    var dd, mm := Show(d.day), Show(d.month);
    ShowWidths(d.day);
    ShowWidths(d.month);
    NumericHeadFacts(dd, mm, rest);
    NoSpaceNoNamedMatch(dd + "." + mm + "." + rest);
    NumericShapeMatch(dd, mm, rest);
    YearGroupEmpty(rest);
  }

  /** A numeric day and month with any lower-case, whitespace-free tail: lower-case and without `\s`. */
  lemma NumericHeadFacts(dd: string, mm: string, rest: string)
    requires AllDigits(dd) && AllDigits(mm)
    requires ToLower(rest) == rest && forall i :: 0 <= i < |rest| ==> !IsReSpace(rest[i])
    ensures var t := dd + "." + mm + "." + rest;
      ToLower(t) == t && forall i :: 0 <= i < |t| ==> !IsReSpace(t[i])
  {
    var head := dd + "." + mm + ".";
    var t := head + rest;
    JoinChars(dd, '.', mm, DigitOrDot);
    JoinChars(dd + "." + mm, '.', "", DigitOrDot);
    assert dd + "." + mm + ['.'] + "" == head;
    PlainIsLower(head);
    ToLowerAppend(head, rest);
    forall i | 0 <= i < |t| ensures !IsReSpace(t[i]) {
      if i >= |head| {
        assert t[i] == rest[i - |head|];
      }
    }
  }

  /** The lower-casing before the keyword checks changes nothing: the weekday loop already did it. */
  lemma PreparedIsLower(lang: string, s: string)
    ensures ToLower(Prepared(lang, s)) == Prepared(lang, s)
  {
    var stripped := StripWeekdays(TrimSpace(s), WeekdaysFor(lang));
    StripWeekdaysIsLowerThenRemove(TrimSpace(s), WeekdaysFor(lang));
    assert IsLower(TrimSpace(stripped));
    ToLowerOfLower(TrimSpace(stripped));
  }

  /**
   * The keywords are checked before either pattern, today's before
   * yesterday's, on the string left after weekday removal.
   */
  lemma KeywordsFirst(lang: string, raw: string, clock: Clock)
    requires !AllSpace(raw)
    ensures var t := Prepared(lang, raw);
      var today := if lang == "ru" then RuToday else KyToday;
      var yesterday := if lang == "ru" then RuYesterday else KyYesterday;
      && (ContainsAny(t, today) ==> Parse(lang, raw, clock) == Ok(clock.utcToday))
      && (!ContainsAny(t, today) && ContainsAny(t, yesterday) ==>
            Parse(lang, raw, clock) == Ok(PrevDay(clock.utcToday)))
      && (!ContainsAny(t, today) && !ContainsAny(t, yesterday) ==>
            Parse(lang, raw, clock) == if lang == "ru" then ParseRussian(t, clock) else ParseKyrgyz(t, clock))
  {
    PreparedIsLower(lang, raw);
  }

  /** Months whose names share no letter with the weekday and keyword initials. */
  predicate PlainMonth(m: int) {
    m in {3, 5, 6, 7, 10, 11, 12}
  }

  predicate AllUnmarked(s: string) {
    forall i :: 0 <= i < |s| ==> PlainUnmarked(s[i])
  }

  lemma PlainMonthName(m: int)
    requires 1 <= m <= 12 && PlainMonth(m)
    ensures AllUnmarked(RuMonths[m - 1])
  {
  }

  lemma DigitsUnmarked(w: string)
    requires AllDigits(w)
    ensures forall i :: 0 <= i < |w| ==> PlainUnmarked(w[i])
  {
  }

  /** The Russian long form of a date in a plain month has only plain, unmarked characters. */
  lemma LongFormUnmarked(d: Date)
    requires 1 <= d.month <= 12 && PlainMonth(d.month) && 0 <= d.day && 1000 <= d.year <= 9999
    ensures AllUnmarked(LongForm(RuMonths, d))
  {
    var dd, name, yy := Show(d.day), RuMonths[d.month - 1], Show(d.year);
    PlainMonthName(d.month);
    DigitsUnmarked(dd);
    DigitsUnmarked(yy);
    JoinChars(dd, ' ', name, PlainUnmarked);
    JoinChars(dd + " " + name, ' ', yy, PlainUnmarked);
  }

  /** The long form starts with a day digit and ends with a year digit. */
  lemma LongFormEnds(names: seq<string>, d: Date)
    requires |names| == 12 && 1 <= d.month <= 12 && 0 <= d.day && 0 <= d.year
    ensures var t := LongForm(names, d);
      |t| > 0 && IsDigit(t[0]) && IsDigit(t[|t| - 1])
  {
    var dd, yy := Show(d.day), Show(d.year);
    var t := LongForm(names, d);
    assert t[0] == dd[0];
    assert t[|t| - 1] == yy[|yy| - 1];
  }

  /**
   * For months whose names avoid the weekday initials, the whole parser reads
   * the Russian long form back to the date.
   */
  lemma ParseRussianLongForm(d: Date, clock: Clock)
    requires Valid(d) && 1000 <= d.year <= 9999
    requires PlainMonth(d.month)
    ensures Parse("ru", LongForm(RuMonths, d), clock) == Ok(d)
  {
    var t := LongForm(RuMonths, d);
    LongFormUnmarked(d);
    LongFormEnds(RuMonths, d);
    RussianPlain(t, clock);
    RussianLongFormRoundTrip(d, clock);
  }
}
