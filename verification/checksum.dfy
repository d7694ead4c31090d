/**
 * The content checksum: the lower-case hex of SHA-256 over the pre-hash
 * string `url|title|text|YYYY-MM-DD`, and its verification by recomputation.
 * SHA-256 itself (FIPS 180-4 section 6.2) is a parameter: any function from
 * the pre-hash string (standing for its UTF-8 bytes) to 32 bytes.
 */
module Checksum {
  import opened Common
  import opened Calendar

  /** A SHA-256 digest. */
  type Digest = d: seq<byte> | |d| == 32 witness seq(32, _ => 0 as byte)

  /** The digest function, on the string whose UTF-8 bytes it hashes. */
  type Sha256 = string -> Digest

  /** A `time.Time`, as whole seconds since the Unix epoch; sub-second parts never change the day. */
  type Instant = int

  const SecondsPerDay: int := 86400

  /** `date.UTC()` truncated to its calendar day: whole days since 1970-01-01, rounded down. */
  function UtcDay(t: Instant): (d: Date)
    ensures Valid(d)
    ensures t / SecondsPerDay == 0 ==> d == Date(1970, 1, 1)
  {
    AddDays(Date(1970, 1, 1), t / SecondsPerDay)
  }

  /** Instants one day apart fall on consecutive calendar days. */
  lemma UtcDayStep(t: Instant)
    ensures UtcDay(t + SecondsPerDay) == NextDay(UtcDay(t))
  {
    assert (t + SecondsPerDay) / SecondsPerDay == t / SecondsPerDay + 1;
    AddDaysSucc(Date(1970, 1, 1), t / SecondsPerDay);
  }

  /** Two instants fall on the same calendar day exactly when they lie in the same whole-day interval since the epoch. */
  lemma UtcDaySame(t: Instant, u: Instant)
    ensures UtcDay(t) == UtcDay(u) <==> t / SecondsPerDay == u / SecondsPerDay
  {
    AddDaysInjective(Date(1970, 1, 1), t / SecondsPerDay, u / SecondsPerDay);
  }

  // ---------------------------------------------------------------------------
  // `fmt.Sprintf("%x", hash)`.

  predicate IsHexDigit(c: char) {
    ('0' <= c <= '9') || ('a' <= c <= 'f')
  }

  predicate IsLowerHex(s: string) {
    forall i :: 0 <= i < |s| ==> IsHexDigit(s[i])
  }

  function HexDigit(n: int): (c: char)
    requires 0 <= n < 16
    ensures IsHexDigit(c)
  {
    if n < 10 then ('0' as int + n) as char else ('a' as int + n - 10) as char
  }

  /** The value of one lower-case hex digit. */
  function Nibble(c: char): (n: int)
    requires IsHexDigit(c)
    ensures 0 <= n < 16
  {
    if c <= '9' then c as int - '0' as int else c as int - 'a' as int + 10
  }

  lemma NibbleInverse(n: int, c: char)
    requires 0 <= n < 16
    requires IsHexDigit(c)
    ensures Nibble(HexDigit(n)) == n
    ensures HexDigit(Nibble(c)) == c
  {
  }

  /** Two hex digits per byte, high nibble first. */
  function Hex(bs: seq<byte>): (s: string)
    ensures |s| == 2 * |bs|
    ensures IsLowerHex(s)
  {
    if |bs| == 0 then ""
    else [HexDigit(bs[0] as int / 16), HexDigit(bs[0] as int % 16)] + Hex(bs[1..])
  }

  /** Reads lower-case hex back into bytes; `None` for an odd length or a foreign character. */
  function Unhex(s: string): (r: Option<seq<byte>>)
    ensures r.Some? ==> 2 * |r.value| == |s|
    decreases |s|
  {
    if |s| == 0 then Some([])
    else if |s| == 1 || !IsHexDigit(s[0]) || !IsHexDigit(s[1]) then None
    else
      match Unhex(s[2..])
      case None => None
      case Some(rest) => Some([(Nibble(s[0]) * 16 + Nibble(s[1])) as byte] + rest)
  }

  /** Reading the hex of any bytes gives the bytes back. */
  lemma {:induction false} HexRoundTrip(bs: seq<byte>)
    ensures Unhex(Hex(bs)) == Some(bs)
    decreases |bs|
  {
    if |bs| > 0 {
      var b := bs[0] as int;
      var s := Hex(bs);
      NibbleInverse(b / 16, '0');
      NibbleInverse(b % 16, '0');
      assert s[2..] == Hex(bs[1..]);
      HexRoundTrip(bs[1..]);
      assert bs == [bs[0]] + bs[1..];
    }
  }

  /** Whatever `Unhex` accepts is the hex of what it reads. */
  lemma {:induction false} UnhexRoundTrip(s: string)
    requires Unhex(s).Some?
    ensures Hex(Unhex(s).value) == s
    decreases |s|
  {
    if |s| > 0 {
      UnhexRoundTrip(s[2..]);
      var hi, lo := Nibble(s[0]), Nibble(s[1]);
      var b := (hi * 16 + lo) as byte;
      assert b as int / 16 == hi && b as int % 16 == lo;
      NibbleInverse(0, s[0]);
      NibbleInverse(0, s[1]);
      assert Unhex(s).value[1..] == Unhex(s[2..]).value;
      assert s == [s[0], s[1]] + s[2..];
    }
  }

  /** Distinct byte strings have distinct hex. */
  lemma HexInjective(a: seq<byte>, b: seq<byte>)
    requires Hex(a) == Hex(b)
    ensures a == b
  {
    HexRoundTrip(a);
    HexRoundTrip(b);
  }

  // ---------------------------------------------------------------------------
  // `GenerateContentHash` and `VerifyContentHash`.

  /** `fmt.Sprintf("%s|%s|%s|%s", url, title, text, dateISO)`. */
  function PreHash(url: string, title: string, text: string, day: Date): (s: string)
    ensures |s| == |url| + |title| + |text| + 3 + |IsoDate(day)|
    ensures s[..|url|] == url && s[|url|] == '|'
    ensures s[|url| + 1..|url| + 1 + |title|] == title && s[|url| + 1 + |title|] == '|'
    ensures s[|url| + 2 + |title|..|url| + 2 + |title| + |text|] == text
    ensures s[|s| - |IsoDate(day)|..] == IsoDate(day) && s[|s| - |IsoDate(day)| - 1] == '|'
  {
    url + "|" + title + "|" + text + "|" + IsoDate(day)
  }

  function GenerateContentHash(sha: Sha256, url: string, title: string, text: string, date: Instant): (h: string)
    ensures |h| == 64 && IsLowerHex(h)
    ensures Unhex(h) == Some(sha(PreHash(url, title, text, UtcDay(date))))
  {
    var digest := sha(PreHash(url, title, text, UtcDay(date)));
    HexRoundTrip(digest);
    Hex(digest)
  }

  function VerifyContentHash(sha: Sha256, expected: string, url: string, title: string, text: string, date: Instant): bool {
    GenerateContentHash(sha, url, title, text, date) == expected
  }

  /**
   * Verification accepts exactly the lower-case hex of the recomputed digest:
   * a string that reads back to the digest, and nothing else.
   */
  lemma VerifyIffDigest(sha: Sha256, expected: string, url: string, title: string, text: string, date: Instant)
    ensures VerifyContentHash(sha, expected, url, title, text, date)
      <==> Unhex(expected) == Some(sha(PreHash(url, title, text, UtcDay(date))))
  {
    if Unhex(expected) == Some(sha(PreHash(url, title, text, UtcDay(date)))) {
      UnhexRoundTrip(expected);
    }
  }

  /** A freshly generated hash verifies against the same content. */
  lemma VerifyGenerated(sha: Sha256, url: string, title: string, text: string, date: Instant)
    ensures VerifyContentHash(sha, GenerateContentHash(sha, url, title, text, date), url, title, text, date)
  {
  }

  /** Two instants on the same UTC calendar day give the same hash. */
  lemma SameDaySameHash(sha: Sha256, url: string, title: string, text: string, t1: Instant, t2: Instant)
    requires t1 / SecondsPerDay == t2 / SecondsPerDay
    ensures GenerateContentHash(sha, url, title, text, t1) == GenerateContentHash(sha, url, title, text, t2)
  {
  }

  /** Only the day counts: the first and last second of a day hash alike. */
  lemma WithinDayHash(sha: Sha256, url: string, title: string, text: string, day: int, s: int)
    requires 0 <= s < SecondsPerDay
    ensures GenerateContentHash(sha, url, title, text, day * SecondsPerDay + s)
      == GenerateContentHash(sha, url, title, text, day * SecondsPerDay)
  {
    assert (day * SecondsPerDay + s) / SecondsPerDay == day;
    assert (day * SecondsPerDay) / SecondsPerDay == day;
  }

  /** A common prefix and suffix cancel: strings that differ only in the middle are equal iff the middles are. */
  lemma MiddleCancels(a: string, m1: string, m2: string, b: string)
    ensures a + m1 + b == a + m2 + b <==> m1 == m2
  {
    if a + m1 + b == a + m2 + b {
      var s1, s2 := a + m1 + b, a + m2 + b;
      assert |m1| == |m2|;
      assert m1 == s1[|a|..|a| + |m1|];
      assert m2 == s2[|a|..|a| + |m2|];
    }
  }

  lemma SuffixRegroups(a: string, b: string, c: string)
    ensures a + b + c == a + (b + c)
  {
  }

  /** Changing only the URL changes the pre-hash string. */
  lemma PreHashUrlSensitive(u1: string, u2: string, title: string, text: string, day: Date)
    ensures PreHash(u1, title, text, day) == PreHash(u2, title, text, day) <==> u1 == u2
  {
    var rest := "|" + title + "|" + text + "|" + IsoDate(day);
    assert PreHash(u1, title, text, day) == [] + u1 + rest;
    assert PreHash(u2, title, text, day) == [] + u2 + rest;
    MiddleCancels([], u1, u2, rest);
  }

  /** Changing only the title changes the pre-hash string. */
  lemma PreHashTitleSensitive(url: string, t1: string, t2: string, text: string, day: Date)
    ensures PreHash(url, t1, text, day) == PreHash(url, t2, text, day) <==> t1 == t2
  {
    var rest := "|" + text + "|" + IsoDate(day);
    assert PreHash(url, t1, text, day) == (url + "|") + t1 + rest;
    assert PreHash(url, t2, text, day) == (url + "|") + t2 + rest;
    MiddleCancels(url + "|", t1, t2, rest);
  }

  /** Changing only the text changes the pre-hash string. */
  lemma PreHashTextSensitive(url: string, title: string, x1: string, x2: string, day: Date)
    ensures PreHash(url, title, x1, day) == PreHash(url, title, x2, day) <==> x1 == x2
  {
    var head := url + "|" + title + "|";
    var rest := "|" + IsoDate(day);
    SuffixRegroups(head + x1, "|", IsoDate(day));
    SuffixRegroups(head + x2, "|", IsoDate(day));
    MiddleCancels(head, x1, x2, rest);
  }

  /** Changing only the day, within four-digit years, changes the pre-hash string. */
  lemma PreHashDaySensitive(url: string, title: string, text: string, d1: Date, d2: Date)
    requires FixedWidth(d1) && FixedWidth(d2)
    ensures PreHash(url, title, text, d1) == PreHash(url, title, text, d2) <==> d1 == d2
  {
    if PreHash(url, title, text, d1) == PreHash(url, title, text, d2) {
      IsoDateRoundTrip(d1);
      IsoDateRoundTrip(d2);
      IsoDateInjective(d1, d2);
    }
  }
}
