/**
 * Decimal digit strings: the integer reading `fmt.Sscanf(s, "%d", …)` gives a
 * run of ASCII digits, the `%d` rendering of an integer, and the zero-padded
 * rendering `time.Time.Format` uses for year, month and day fields.
 */
module Decimal {

  /** RE2's `\d`: ASCII digits only. */
  predicate IsDigit(c: char) {
    '0' <= c <= '9'
  }

  predicate AllDigits(s: string) {
    forall i :: 0 <= i < |s| ==> IsDigit(s[i])
  }

  function DigitValue(c: char): (d: nat)
    requires IsDigit(c)
    ensures d < 10
  {
    c as int - '0' as int
  }

  function DigitChar(d: nat): (c: char)
    requires d < 10
    ensures IsDigit(c) && DigitValue(c) == d
  {
    (d + '0' as int) as char
  }

  function Pow10(n: nat): (p: nat)
    ensures p >= 1
  {
    if n == 0 then 1 else 10 * Pow10(n - 1)
  }

  /** The value of a digit run read most significant digit first. */
  function Value(s: string): (n: nat)
    requires AllDigits(s)
    ensures n < Pow10(|s|)
  {
    if |s| == 0 then 0 else Value(s[..|s| - 1]) * 10 + DigitValue(s[|s| - 1])
  }

  /** The shortest decimal rendering of `n`. */
  function Show(n: nat): (s: string)
    ensures 1 <= |s| && AllDigits(s)
    ensures Value(s) == n
    ensures |s| > 1 ==> s[0] != '0'
  {
    if n < 10 then [DigitChar(n)]
    else
      var p := Show(n / 10);
      var s := p + [DigitChar(n % 10)];
      assert s[..|s| - 1] == p;
      s
  }

  /** Shows of distinct numbers differ, since `Value` reads them back. */
  lemma ShowInjective(m: nat, n: nat)
    requires Show(m) == Show(n)
    ensures m == n
  {
  }

  function Zeros(n: nat): (s: string)
    ensures |s| == n && forall i :: 0 <= i < n ==> s[i] == '0'
  {
    if n == 0 then "" else "0" + Zeros(n - 1)
  }

  /** Left-pads a digit run with zeros to at least `width` characters. */
  function PadLeft(s: string, width: int): (r: string)
    ensures |r| == if |s| >= width then |s| else width
  {
    if |s| >= width then s else Zeros(width - |s|) + s
  }

  /**
   * Go's `appendInt(b, x, width)` from the time package: a minus sign for a
   * negative value, then the magnitude zero-padded to `width` digits.
   */
  function AppendInt(x: int, width: int): string {
    (if x < 0 then "-" else "") + PadLeft(Show(if x < 0 then -x else x), width)
  }

  /** `fmt.Sprintf("%d", x)`. */
  function FormatInt(x: int): (s: string)
    ensures |s| >= 1
  {
    AppendInt(x, 0)
  }

  /** Leading zeros do not change the value of a digit run. */
  lemma {:induction false} ValueOfPadded(z: nat, s: string)
    requires AllDigits(s)
    ensures AllDigits(Zeros(z) + s) && Value(Zeros(z) + s) == Value(s)
    decreases |s|
  {
    var t := Zeros(z) + s;
    assert AllDigits(t);
    if |s| == 0 {
      assert t == Zeros(z);
      ValueOfZeros(z);
    } else {
      assert t[..|t| - 1] == Zeros(z) + s[..|s| - 1];
      ValueOfPadded(z, s[..|s| - 1]);
    }
  }

  lemma {:induction false} ValueOfZeros(z: nat)
    ensures AllDigits(Zeros(z)) && Value(Zeros(z)) == 0
  {
    if z > 0 {
      assert Zeros(z)[..z - 1] == Zeros(z - 1);
      ValueOfZeros(z - 1);
    }
  }

  /** A non-negative value, zero-padded to any width, still reads back as itself. */
  lemma PaddedValue(n: nat, width: int)
    ensures AllDigits(PadLeft(Show(n), width))
    ensures Value(PadLeft(Show(n), width)) == n
  {
    var s := Show(n);
    if |s| < width {
      ValueOfPadded(width - |s|, s);
    }
  }

  /** Numbers below `10^w` take exactly `w` characters when padded to width `w`. */
  lemma {:induction false} ShowLength(n: nat, w: nat)
    requires 1 <= w && n < Pow10(w)
    ensures |Show(n)| <= w
    decreases w
  {
    if n >= 10 {
      assert w > 1;
      assert n / 10 < Pow10(w - 1);
      ShowLength(n / 10, w - 1);
    }
  }
}
