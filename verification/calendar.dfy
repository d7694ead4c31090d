/**
 * Calendar days as raw (year, month, day) triples, the proleptic Gregorian
 * rules `time.Date` and `time.Time.AddDate` follow, and the RFC 3339
 * section 5.6 `full-date` rendering (`2006-01-02` in Go's layout language).
 */
module Calendar {
  import opened Common
  import opened Decimal

  /** A UTC midnight, kept as the raw triple it was built from. */
  datatype Date = Date(year: int, month: int, day: int)

  predicate IsLeapYear(y: int) {
    y % 4 == 0 && (y % 100 != 0 || y % 400 == 0)
  }

  function DaysInMonth(y: int, m: int): (n: int)
    requires 1 <= m <= 12
    ensures 28 <= n <= 31
    ensures n == 31 <==> m in {1, 3, 5, 7, 8, 10, 12}
  {
    if m == 2 then (if IsLeapYear(y) then 29 else 28)
    else if m == 4 || m == 6 || m == 9 || m == 11 then 30
    else 31
  }

  /** A triple that names an actual calendar day. */
  predicate Valid(d: Date) {
    1 <= d.month <= 12 && 1 <= d.day <= DaysInMonth(d.year, d.month)
  }

  /** The days a clock can report. */
  type Day = d: Date | Valid(d) witness Date(1970, 1, 1)

  /** `time.Time.Before` between two UTC midnights: lexicographic order on the triple. */
  predicate Before(a: Date, b: Date) {
    || a.year < b.year
    || (a.year == b.year && a.month < b.month)
    || (a.year == b.year && a.month == b.month && a.day < b.day)
  }

  lemma BeforeIsStrictTotalOrder(a: Date, b: Date, c: Date)
    ensures !Before(a, a)
    ensures Before(a, b) && Before(b, c) ==> Before(a, c)
    ensures a == b || Before(a, b) || Before(b, a)
  {
  }

  /** The calendar day before `d`: `AddDate(0, 0, -1)`. */
  function PrevDay(d: Date): (r: Date)
    requires Valid(d)
    ensures Valid(r) && Before(r, d)
    ensures forall e :: Valid(e) && Before(e, d) ==> e == r || Before(e, r)
  {
    if d.day > 1 then Date(d.year, d.month, d.day - 1)
    else if d.month > 1 then Date(d.year, d.month - 1, DaysInMonth(d.year, d.month - 1))
    else Date(d.year - 1, 12, 31)
  }

  /** The calendar day after `d`: `AddDate(0, 0, 1)`. */
  function NextDay(d: Date): (r: Date)
    requires Valid(d)
    ensures Valid(r) && Before(d, r)
    ensures forall e :: Valid(e) && Before(d, e) ==> e == r || Before(r, e)
  {
    if d.day < DaysInMonth(d.year, d.month) then Date(d.year, d.month, d.day + 1)
    else if d.month < 12 then Date(d.year, d.month + 1, 1)
    else Date(d.year + 1, 1, 1)
  }

  lemma NextPrevInverse(d: Date)
    requires Valid(d)
    ensures NextDay(PrevDay(d)) == d
    ensures PrevDay(NextDay(d)) == d
  {
  }

  /** `AddDate(0, 0, k)` on a calendar day, one day at a time. */
  function AddDays(d: Date, k: int): (r: Date)
    requires Valid(d)
    ensures Valid(r)
    ensures k < 0 ==> Before(r, d)
    ensures k > 0 ==> Before(d, r)
    ensures k == 0 ==> r == d
    ensures k == -1 ==> r == PrevDay(d)
    ensures k == 1 ==> r == NextDay(d)
    decreases if k < 0 then -k else k
  {
    if k == 0 then d
    else if k < 0 then AddDays(PrevDay(d), k + 1)
    else AddDays(NextDay(d), k - 1)
  }

  lemma {:induction false} AddDaysAfterNext(d: Date, k: nat)
    requires Valid(d)
    ensures AddDays(NextDay(d), k) == NextDay(AddDays(d, k))
    decreases k
  {
    if k > 0 {
      AddDaysAfterNext(NextDay(d), k - 1);
    }
  }

  lemma {:induction false} AddDaysAfterPrev(d: Date, k: nat)
    requires Valid(d)
    ensures AddDays(PrevDay(d), -(k as int)) == PrevDay(AddDays(d, -(k as int)))
    decreases k
  {
    if k > 0 {
      AddDaysAfterPrev(PrevDay(d), k - 1);
    }
  }

  /** One more day is the next day, for any offset. */
  lemma {:induction false} AddDaysSucc(d: Date, k: int)
    requires Valid(d)
    ensures AddDays(d, k + 1) == NextDay(AddDays(d, k))
  {
    if k >= 0 {
      AddDaysAfterNext(d, k);
    } else {
      AddDaysAfterPrev(d, -(k + 1));
      NextPrevInverse(AddDays(d, k + 1));
    }
  }

  /** Moving by `j` days and then by `k` days is moving by `j + k` days. */
  lemma {:induction false} AddDaysCompose(d: Date, j: int, k: int)
    requires Valid(d)
    ensures AddDays(AddDays(d, j), k) == AddDays(d, j + k)
    decreases if k < 0 then -k else k
  {
    if k > 0 {
      AddDaysSucc(d, j);
      AddDaysCompose(d, j + 1, k - 1);
    } else if k < 0 {
      AddDaysSucc(d, j - 1);
      NextPrevInverse(AddDays(d, j - 1));
      AddDaysCompose(d, j - 1, k + 1);
    }
  }

  /** Moving back `n` days and forward `n` days again gives the day back. */
  lemma {:induction false} AddDaysInverse(d: Date, n: int)
    requires Valid(d)
    ensures AddDays(AddDays(d, -n), n) == d
    ensures AddDays(AddDays(d, n), -n) == d
  {
    AddDaysCompose(d, -n, n);
    AddDaysCompose(d, n, -n);
  }

  /** Distinct offsets give distinct days. */
  lemma {:induction false} AddDaysInjective(d: Date, j: int, k: int)
    requires Valid(d)
    ensures AddDays(d, j) == AddDays(d, k) <==> j == k
  {
    if j < k {
      AddDaysCompose(d, j, k - j);
      BeforeIsStrictTotalOrder(AddDays(d, j), AddDays(d, k), AddDays(d, k));
    } else if k < j {
      AddDaysCompose(d, k, j - k);
      BeforeIsStrictTotalOrder(AddDays(d, k), AddDays(d, j), AddDays(d, j));
    }
  }

  /**
   * `time.Date(y, m, d, 0, 0, 0, 0, time.UTC)` for a month in range: day `d`
   * counted from the first of the month, so that an out-of-range day rolls
   * over into a neighbouring month.
   */
  function DateOf(y: int, m: int, d: int): (r: Date)
    requires 1 <= m <= 12
    ensures Valid(r)
  {
    AddDays(Date(y, m, 1), d - 1)
  }

  /** An in-range day names itself. */
  lemma {:induction false} DateOfInRange(y: int, m: int, d: int)
    requires 1 <= m <= 12 && 1 <= d <= DaysInMonth(y, m)
    ensures DateOf(y, m, d) == Date(y, m, d)
    decreases d
  {
    if d > 1 {
      DateOfInRange(y, m, d - 1);
      AddDaysAfterNext(Date(y, m, 1), d - 2);
    }
  }

  /**
   * Any day of the month can serve as the origin: day `d` is `d - j` days
   * from day `j`, so a day beyond the month's length continues from its last
   * day and a day below 1 goes back from the first.
   */
  lemma {:induction false} DateOfFrom(y: int, m: int, d: int, j: int)
    requires 1 <= m <= 12 && 1 <= j <= DaysInMonth(y, m)
    ensures DateOf(y, m, d) == AddDays(Date(y, m, j), d - j)
  {
    DateOfInRange(y, m, j);
    AddDaysCompose(Date(y, m, 1), j - 1, d - j);
  }

  /** Day 0 is the last day of the previous month and the day after the last is the first of the next. */
  lemma {:induction false} DateOfEdges(y: int, m: int)
    requires 1 <= m <= 12
    ensures DateOf(y, m, 0) == (if m == 1 then Date(y - 1, 12, 31) else Date(y, m - 1, DaysInMonth(y, m - 1)))
    ensures DateOf(y, m, DaysInMonth(y, m) + 1) == (if m == 12 then Date(y + 1, 1, 1) else Date(y, m + 1, 1))
  {
    DateOfFrom(y, m, 0, 1);
    DateOfFrom(y, m, DaysInMonth(y, m) + 1, DaysInMonth(y, m));
  }

  /** `Format("2006-01-02")`: four-digit year, two-digit month and day, dash separated. */
  function IsoDate(d: Date): string {
    AppendInt(d.year, 4) + "-" + AppendInt(d.month, 2) + "-" + AppendInt(d.day, 2)
  }

  /** Reads a `YYYY-MM-DD` string back into its triple. */
  function ParseIsoDate(s: string): Option<Date> {
    if |s| == 10 && s[4] == '-' && s[7] == '-'
       && AllDigits(s[..4]) && AllDigits(s[5..7]) && AllDigits(s[8..])
    then Some(Date(Value(s[..4]), Value(s[5..7]), Value(s[8..])))
    else None
  }

  /** The range in which the rendering has the fixed `YYYY-MM-DD` shape. */
  predicate FixedWidth(d: Date) {
    0 <= d.year <= 9999 && 0 <= d.month <= 99 && 0 <= d.day <= 99
  }

  lemma {:induction false} PaddedField(n: nat, w: nat)
    requires 1 <= w && n < Pow10(w)
    ensures |AppendInt(n, w)| == w
    ensures AllDigits(AppendInt(n, w)) && Value(AppendInt(n, w)) == n
  {
    ShowLength(n, w);
    PaddedValue(n, w);
    assert AppendInt(n, w) == PadLeft(Show(n), w);
  }

  /** Rendering then reading a fixed-width date gives the date back. */
  lemma IsoDateRoundTrip(d: Date)
    requires FixedWidth(d)
    ensures |IsoDate(d)| == 10
    ensures ParseIsoDate(IsoDate(d)) == Some(d)
  {
    assert Pow10(2) == 100;
    assert Pow10(4) == 10000;
    PaddedField(d.year, 4);
    PaddedField(d.month, 2);
    PaddedField(d.day, 2);
    var y, m, dd := AppendInt(d.year, 4), AppendInt(d.month, 2), AppendInt(d.day, 2);
    var s := IsoDate(d);
    assert s == y + "-" + m + "-" + dd;
    assert s[..4] == y;
    assert s[5..7] == m;
    assert s[8..] == dd;
  }

  /** Distinct fixed-width dates render differently. */
  lemma IsoDateInjective(a: Date, b: Date)
    requires FixedWidth(a) && FixedWidth(b)
    requires IsoDate(a) == IsoDate(b)
    ensures a == b
  {
    IsoDateRoundTrip(a);
    IsoDateRoundTrip(b);
  }
}
