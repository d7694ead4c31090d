/**
 * The subset of Go's `strings` package (and `unicode.IsSpace`, `unicode.ToLower`)
 * that the crawler's parsing code relies on, over Dafny strings (sequences of
 * Unicode scalar values).
 */
module Strings {
  import opened Common

  /** `unicode.IsSpace`: the separators `strings.TrimSpace` and `strings.Fields` skip. */
  predicate IsSpace(c: char) {
    || c == '\t' || c == '\n' || c == '\U{000B}' || c == '\U{000C}' || c == '\r' || c == ' '
    || c == '\U{0085}' || c == '\U{00A0}' || c == '\U{1680}'
    || ('\U{2000}' <= c <= '\U{200A}')
    || c == '\U{2028}' || c == '\U{2029}' || c == '\U{202F}' || c == '\U{205F}' || c == '\U{3000}'
  }

  /** RE2's `\s` class: tab, newline, form feed, carriage return and space only. */
  predicate IsReSpace(c: char) {
    c == '\t' || c == '\n' || c == '\U{000C}' || c == '\r' || c == ' '
  }

  predicate AllSpace(s: string) {
    forall i :: 0 <= i < |s| ==> IsSpace(s[i])
  }

  predicate NoSpace(s: string) {
    forall i :: 0 <= i < |s| ==> !IsSpace(s[i])
  }

  /** Number of whitespace characters at the front of `s`. */
  function LeadingSpaceCount(s: string): (n: nat)
    ensures n <= |s|
    ensures AllSpace(s[..n])
    ensures n == |s| || !IsSpace(s[n])
    ensures n == |s| <==> AllSpace(s)
  {
    if |s| > 0 && IsSpace(s[0]) then
      var m := LeadingSpaceCount(s[1..]);
      assert s[..m + 1] == [s[0]] + s[1..][..m];
      assert AllSpace(s) <==> AllSpace(s[1..]) by {
        assert forall i :: 1 <= i < |s| ==> s[i] == s[1..][i - 1];
      }
      m + 1
    else 0
  }

  function TrimLeft(s: string): (r: string)
    ensures r == s[LeadingSpaceCount(s)..]
  {
    s[LeadingSpaceCount(s)..]
  }

  /** Drops trailing whitespace. */
  function TrimRight(s: string): (r: string)
    ensures |r| <= |s| && r == s[..|r|]
    ensures AllSpace(s[|r|..])
    ensures r == [] || !IsSpace(r[|r| - 1])
    ensures r == [] <==> AllSpace(s)
  {
    if |s| > 0 && IsSpace(s[|s| - 1]) then
      var r := TrimRight(s[..|s| - 1]);
      assert s[|r|..] == s[..|s| - 1][|r|..] + [s[|s| - 1]];
      r
    else s
  }

  /**
   * `strings.TrimSpace`: the infix of `s` left after dropping the whitespace
   * at both ends.
   */
  function TrimSpace(s: string): (r: string)
    ensures var n := LeadingSpaceCount(s);
      n + |r| <= |s| && r == s[n..n + |r|] && AllSpace(s[n + |r|..])
    ensures r == [] || (!IsSpace(r[0]) && !IsSpace(r[|r| - 1]))
    ensures r == [] <==> AllSpace(s)
    ensures forall c :: c in r ==> c in s
  {
    var n := LeadingSpaceCount(s);
    var r := TrimRight(s[n..]);
    assert s[n + |r|..] == s[n..][|r|..];
    assert n < |s| ==> s[n..][0] == s[n];
    r
  }

  lemma {:induction false} TrimSpaceIdempotent(s: string)
    ensures TrimSpace(TrimSpace(s)) == TrimSpace(s)
  {
    var r := TrimSpace(s);
    if r != [] {
      assert LeadingSpaceCount(r) == 0;
      assert TrimRight(r) == r;
    }
  }

  /** Trimming leaves a string that starts and ends with non-space characters alone. */
  lemma TrimSpaceNoOp(s: string)
    requires |s| > 0 && !IsSpace(s[0]) && !IsSpace(s[|s| - 1])
    ensures TrimSpace(s) == s
  {
    assert LeadingSpaceCount(s) == 0;
  }

  predicate HasPrefix(s: string, p: string) {
    |p| <= |s| && s[..|p|] == p
  }

  /** `strings.Contains`, scanning left to right. */
  predicate Contains(s: string, sub: string)
    decreases |s|
  {
    HasPrefix(s, sub) || (|s| > 0 && Contains(s[1..], sub))
  }

  /** `Contains` agrees with the positional definition of a substring occurrence. */
  lemma {:induction false} ContainsIffOccurrence(s: string, sub: string)
    ensures Contains(s, sub) <==> exists i :: 0 <= i <= |s| && HasPrefix(s[i..], sub)
    decreases |s|
  {
    assert s[0..] == s;
    if |s| > 0 {
      ContainsIffOccurrence(s[1..], sub);
      if Contains(s[1..], sub) {
        var i :| 0 <= i <= |s[1..]| && HasPrefix(s[1..][i..], sub);
        assert s[1..][i..] == s[i + 1..];
        assert HasPrefix(s[i + 1..], sub);
      }
      if i :| 0 <= i <= |s| && HasPrefix(s[i..], sub) {
        if i > 0 {
          assert s[1..][i - 1..] == s[i..];
          assert HasPrefix(s[1..][i - 1..], sub);
        }
      }
    }
  }

  /** A string that lacks the first character of a non-empty `sub` cannot contain it. */
  lemma {:induction false} MissingFirstCharNotContained(s: string, sub: string)
    requires |sub| > 0 && sub[0] !in s
    ensures !Contains(s, sub)
    decreases |s|
  {
    assert !HasPrefix(s, sub) by {
      assert |sub| <= |s| ==> s[..|sub|][0] == s[0];
    }
    if |s| > 0 {
      assert forall c :: c in s[1..] ==> c in s;
      MissingFirstCharNotContained(s[1..], sub);
    }
  }

  /**
   * `strings.ReplaceAll(s, token, "")` for a non-empty `token`: deletes the
   * non-overlapping occurrences of `token` found scanning left to right.
   */
  function RemoveAll(s: string, token: string): (r: string)
    requires |token| > 0
    ensures |r| <= |s|
    ensures forall c :: c in r ==> c in s
    ensures !Contains(s, token) ==> r == s
    decreases |s|
  {
    if |s| == 0 then s
    else if HasPrefix(s, token) then
      var r := RemoveAll(s[|token|..], token);
      assert forall c :: c in s[|token|..] ==> c in s;
      r
    else
      var r := RemoveAll(s[1..], token);
      assert forall c :: c in s[1..] ==> c in s;
      [s[0]] + r
  }

  /** First position of `x` in `s`, or -1 (`strings.Index` / `strings.IndexByte`). */
  function IndexOf<T(==)>(s: seq<T>, x: T): (i: int)
    ensures -1 <= i < |s|
    ensures i == -1 <==> x !in s
    ensures 0 <= i ==> s[i] == x && x !in s[..i]
  {
    if |s| == 0 then -1
    else if s[0] == x then 0
    else
      var j := IndexOf(s[1..], x);
      if j < 0 then -1
      else
        assert s[..j + 1] == [s[0]] + s[1..][..j];
        j + 1
  }

  /** Last position of `x` in `s`, or -1 (`strings.LastIndex` with a one-element needle). */
  function LastIndexOf<T(==)>(s: seq<T>, x: T): (i: int)
    ensures -1 <= i < |s|
    ensures i == -1 <==> x !in s
    ensures 0 <= i ==> s[i] == x && x !in s[i + 1..]
  {
    if |s| == 0 then -1
    else if s[|s| - 1] == x then |s| - 1
    else
      var j := LastIndexOf(s[..|s| - 1], x);
      LastIndexStep(s, x, j);
      j
  }

  lemma LastIndexStep<T>(s: seq<T>, x: T, j: int)
    requires |s| > 0 && s[|s| - 1] != x
    requires -1 <= j < |s| - 1
    requires j == -1 <==> x !in s[..|s| - 1]
    requires 0 <= j ==> s[j] == x && x !in s[..|s| - 1][j + 1..]
    ensures j == -1 <==> x !in s
    ensures 0 <= j ==> x !in s[j + 1..]
  {
    assert s == s[..|s| - 1] + [s[|s| - 1]];
    if 0 <= j {
      assert s[j + 1..] == s[..|s| - 1][j + 1..] + [s[|s| - 1]];
    }
  }

  function CountOf<T(==)>(s: seq<T>, x: T): nat {
    if |s| == 0 then 0 else (if s[0] == x then 1 else 0) + CountOf(s[1..], x)
  }

  /** `strings.Join` with a one-character separator. */
  function Join(parts: seq<string>, sep: char): string {
    if |parts| == 0 then ""
    else if |parts| == 1 then parts[0]
    else parts[0] + [sep] + Join(parts[1..], sep)
  }

  /**
   * `strings.Split` with a one-character separator: the pieces between the
   * separators, always at least one.
   */
  function Split(s: string, sep: char): (parts: seq<string>)
    ensures |parts| == CountOf(s, sep) + 1
    ensures forall k :: 0 <= k < |parts| ==> sep !in parts[k]
    ensures Join(parts, sep) == s
    decreases |s|
  {
    var i := IndexOf(s, sep);
    if i < 0 then
      assert CountOf(s, sep) == 0 by { NoOccurrenceCountsZero(s, sep); }
      [s]
    else
      var rest := Split(s[i + 1..], sep);
      assert s == s[..i] + [sep] + s[i + 1..];
      CountSplit(s, i, sep);
      [s[..i]] + rest
  }

  lemma {:induction false} NoOccurrenceCountsZero<T>(s: seq<T>, x: T)
    requires x !in s
    ensures CountOf(s, x) == 0
  {
    if |s| > 0 {
      assert x !in s[1..];
      NoOccurrenceCountsZero(s[1..], x);
    }
  }

  lemma {:induction false} CountSplit<T>(s: seq<T>, i: nat, x: T)
    requires i < |s| && s[i] == x && x !in s[..i]
    ensures CountOf(s, x) == 1 + CountOf(s[i + 1..], x)
  {
    if i > 0 {
      assert s[1..][..i - 1] == s[..i][1..];
      assert s[1..][i..] == s[i + 1..];
      CountSplit(s[1..], i - 1, x);
    }
  }

  /** Splitting a join of separator-free pieces gives the pieces back. */
  lemma {:induction false} SplitJoin(parts: seq<string>, sep: char)
    requires |parts| >= 1
    requires forall k :: 0 <= k < |parts| ==> sep !in parts[k]
    ensures Split(Join(parts, sep), sep) == parts
    decreases |parts|
  {
    if |parts| > 1 {
      var s := Join(parts, sep);
      var tail := Join(parts[1..], sep);
      assert s == parts[0] + [sep] + tail;
      assert s[|parts[0]|] == sep;
      assert s[..|parts[0]|] == parts[0];
      assert IndexOf(s, sep) == |parts[0]|;
      assert s[|parts[0]| + 1..] == tail;
      SplitJoin(parts[1..], sep);
    } else {
      assert IndexOf(parts[0], sep) == -1;
    }
  }

  /** Length of the run of non-space characters at the front of `s`. */
  function WordLength(s: string): (n: nat)
    ensures n <= |s| && NoSpace(s[..n])
    ensures n == |s| || IsSpace(s[n])
  {
    if |s| > 0 && !IsSpace(s[0]) then
      var m := WordLength(s[1..]);
      assert s[..m + 1] == [s[0]] + s[1..][..m];
      m + 1
    else 0
  }

  /** `strings.Fields(s)[0]` when `s` has any field: its first maximal run of non-space characters. */
  function FirstField(s: string): (r: Option<string>)
    ensures r.None? <==> AllSpace(s)
    ensures r.Some? ==> |r.value| > 0 && NoSpace(r.value)
    ensures r.Some? ==> var t := TrimLeft(s);
      |r.value| <= |t| && r.value == t[..|r.value|] && (|r.value| == |t| || IsSpace(t[|r.value|]))
  {
    var n := LeadingSpaceCount(s);
    var t := s[n..];
    if t == [] then
      assert s == s[..n];
      None
    else
      assert !AllSpace(s) by { assert s[n] == t[0]; }
      Some(t[..WordLength(t)])
  }

  /**
   * `unicode.ToLower` on ASCII, on the Cyrillic block (А–Я, Ѐ–Џ including Ё)
   * and on the Kyrgyz letters Ң, Ү, Ө; every other character is left as is.
   */
  function LowerChar(c: char): (d: char)
    ensures c == d || IsUpper(c)
  {
    if 'A' <= c <= 'Z' then (c as int + 32) as char
    else if '\U{0410}' <= c <= '\U{042F}' then (c as int + 32) as char
    else if '\U{0400}' <= c <= '\U{040F}' then (c as int + 80) as char
    else if c == '\U{04A2}' || c == '\U{04AE}' || c == '\U{04E8}' then (c as int + 1) as char
    else c
  }

  lemma LowerCharIdempotent(c: char)
    ensures LowerChar(LowerChar(c)) == LowerChar(c)
  {
  }

  predicate IsUpper(c: char) {
    || ('A' <= c <= 'Z') || ('\U{0400}' <= c <= '\U{042F}')
    || c == '\U{04A2}' || c == '\U{04AE}' || c == '\U{04E8}'
  }

  /** `strings.ToLower` under the character map above. */
  function ToLower(s: string): (r: string)
    ensures |r| == |s| && forall i :: 0 <= i < |s| ==> r[i] == LowerChar(s[i])
  {
    seq(|s|, i requires 0 <= i < |s| => LowerChar(s[i]))
  }

  /** A string every character of which lower-casing leaves alone. */
  predicate IsLower(s: string) {
    forall c :: c in s ==> LowerChar(c) == c
  }

  lemma LowerIsLower(s: string)
    ensures IsLower(ToLower(s))
  {
    var r := ToLower(s);
    forall c | c in r ensures LowerChar(c) == c {
      var i :| 0 <= i < |r| && r[i] == c;
      LowerCharIdempotent(s[i]);
    }
  }

  /** A string without upper-case characters is lower-case. */
  lemma NoUpperIsLower(s: string)
    requires forall i :: 0 <= i < |s| ==> !IsUpper(s[i])
    ensures IsLower(s) && ToLower(s) == s
  {
    forall c | c in s ensures LowerChar(c) == c {
      var i :| 0 <= i < |s| && s[i] == c;
    }
    ToLowerOfLower(s);
  }

  lemma {:induction false} ToLowerOfLower(s: string)
    requires IsLower(s)
    ensures ToLower(s) == s
  {
    assert forall i :: 0 <= i < |s| ==> s[i] in s;
  }

  lemma ToLowerAppend(a: string, b: string)
    ensures ToLower(a + b) == ToLower(a) + ToLower(b)
  {
  }

  lemma ToLowerIdempotent(s: string)
    ensures ToLower(ToLower(s)) == ToLower(s)
  {
    LowerIsLower(s);
    ToLowerOfLower(ToLower(s));
  }
}
