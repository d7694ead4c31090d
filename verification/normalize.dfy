/**
 * Text normalisation: stripping the fragment from URLs, the byte-bounded
 * preview of an article text, and the whitespace clean-up applied to the text
 * extracted from an article's HTML.
 */
module Normalize {
  import opened Common
  import opened Strings

  /**
   * `NormalizeURL`, and the scraper's identical `normalizeURL`: trims the
   * string, then cuts it at the first `#`.
   */
  function NormalizeUrl(s: string): (r: string)
    ensures '#' !in r
    ensures var t := TrimSpace(s);
      && |r| <= |t| && r == t[..|r|]
      && (|r| < |t| <==> '#' in t)
      && (|r| < |t| ==> t[|r|] == '#')
  {
    var t := TrimSpace(s);
    var i := IndexOf(t, '#');
    if i >= 0 then t[..i] else t
  }

  /** `strings.TrimSpace` leaves exactly the strings without whitespace at either end unchanged. */
  lemma TrimSpaceFixpoint(s: string)
    ensures TrimSpace(s) == s <==> s == [] || (!IsSpace(s[0]) && !IsSpace(s[|s| - 1]))
  {
    if s != [] && !IsSpace(s[0]) && !IsSpace(s[|s| - 1]) {
      TrimSpaceNoOp(s);
    }
  }

  /**
   * Normalising twice gives the same result exactly when the first result
   * does not end in whitespace; a space before the `#` survives the first pass
   * and is trimmed by the second.
   */
  lemma NormalizeUrlIdempotentIff(s: string)
    ensures var r := NormalizeUrl(s);
      NormalizeUrl(r) == r <==> r == [] || !IsSpace(r[|r| - 1])
  {
    var t := TrimSpace(s);
    var r := NormalizeUrl(s);
    assert r != [] ==> r[0] == t[0];
    TrimSpaceFixpoint(r);
    assert '#' !in TrimSpace(r);
    assert IndexOf(TrimSpace(r), '#') == -1;
  }

  lemma NormalizeUrlNotIdempotent()
    ensures NormalizeUrl("a #b") == "a "
    ensures NormalizeUrl(NormalizeUrl("a #b")) == "a"
  {
    TrimSpaceNoOp("a #b");
    assert IndexOf("a #b", '#') == 2;
    TrimSpaceFixpoint("a ");
    var t := TrimSpace("a ");
    assert t == "a" by {
      assert t == "a "[LeadingSpaceCount("a ")..LeadingSpaceCount("a ") + |t|];
      assert LeadingSpaceCount("a ") == 0;
      assert |t| == 1;
    }
    assert IndexOf("a", '#') == -1;
  }

  // ---------------------------------------------------------------------------
  // The text preview, on the UTF-8 bytes of the text (Go slices strings by byte).

  /** The UTF-8 encoding of U+2026 HORIZONTAL ELLIPSIS. */
  const Ellipsis: seq<byte> := [0xE2, 0x80, 0xA6]
  const SpaceByte: byte := 0x20

  /**
   * `TruncatePreview` with limit `max` (`MaxPreviewChars`, in bytes). A
   * negative limit makes the source's slice expression panic, hence the
   * precondition.
   */
  function TruncatePreview(text: seq<byte>, max: int): (r: seq<byte>)
    requires 0 <= max
    ensures |text| <= max ==> r == text
    ensures |text| > max ==> CutAtSpace(text, max, r)
    ensures |r| <= max + 3
  {
    if |text| <= max then text
    else
      var lastSpace := LastIndexOf(text[..max], SpaceByte);
      CutFacts(text, max, lastSpace);
      text[..if lastSpace > 0 then lastSpace else max] + Ellipsis
  }

  /**
   * `r` is a prefix of `text` followed by the ellipsis, cut either at the last
   * space inside the first `max` bytes or, when no space lies past the first
   * byte, at `max` itself.
   */
  predicate CutAtSpace(text: seq<byte>, max: int, r: seq<byte>) {
    && |r| >= 3 && r[|r| - 3..] == Ellipsis
    && var k := |r| - 3;
    && k <= max < |text| && r[..k] == text[..k]
    && ((k == max && forall i :: 1 <= i < max ==> text[i] != SpaceByte)
        || (0 < k < max && text[k] == SpaceByte && forall i :: k < i < max ==> text[i] != SpaceByte))
  }

  lemma CutFacts(text: seq<byte>, max: int, lastSpace: int)
    requires 0 <= max < |text|
    requires lastSpace == LastIndexOf(text[..max], SpaceByte)
    ensures CutAtSpace(text, max, text[..if lastSpace > 0 then lastSpace else max] + Ellipsis)
  {
    var k := if lastSpace > 0 then lastSpace else max;
    CutShape(text, k);
    SpacesBeforeLimit(text, max, lastSpace);
  }

  lemma CutShape(text: seq<byte>, k: nat)
    requires k <= |text|
    ensures var r := text[..k] + Ellipsis;
      |r| == k + 3 && r[|r| - 3..] == Ellipsis && r[..k] == text[..k]
  {
  }

  /** Where the spaces lie in the first `max` bytes, as the last-space search reports it. */
  lemma SpacesBeforeLimit(text: seq<byte>, max: int, lastSpace: int)
    requires 0 <= max < |text|
    requires lastSpace == LastIndexOf(text[..max], SpaceByte)
    ensures lastSpace > 0 ==> (lastSpace < max && text[lastSpace] == SpaceByte
      && forall i :: lastSpace < i < max ==> text[i] != SpaceByte)
    ensures lastSpace <= 0 ==> forall i :: 1 <= i < max ==> text[i] != SpaceByte
  {
    if lastSpace >= 0 {
      SpaceFound(text, max, lastSpace);
    } else {
      NoSpaceFound(text, max);
    }
  }

  lemma SpaceFound(text: seq<byte>, max: nat, lastSpace: int)
    requires max <= |text| && 0 <= lastSpace < max
    requires text[..max][lastSpace] == SpaceByte && SpaceByte !in text[..max][lastSpace + 1..]
    ensures text[lastSpace] == SpaceByte && forall i :: lastSpace < i < max ==> text[i] != SpaceByte
  {
    NoSpaceFrom(text, max, lastSpace + 1);
  }

  lemma NoSpaceFound(text: seq<byte>, max: nat)
    requires max <= |text| && SpaceByte !in text[..max]
    ensures forall i :: 0 <= i < max ==> text[i] != SpaceByte
  {
    assert text[..max][0..] == text[..max];
    NoSpaceFrom(text, max, 0);
  }

  lemma NoSpaceFrom(text: seq<byte>, max: nat, from: nat)
    requires from <= max <= |text| && SpaceByte !in text[..max][from..]
    ensures forall i :: from <= i < max ==> text[i] != SpaceByte
  {
    forall i | from <= i < max ensures text[i] != SpaceByte {
      assert text[i] == text[..max][from..][i - from];
    }
  }

  /** Sixty letters cut at fifty bytes come out fifty-three bytes long. */
  lemma TruncatePreviewExceedsLimit()
    ensures var text := seq(60, _ => 0x61 as byte);
      |TruncatePreview(text, 50)| == 53
  {
    var text := seq(60, _ => 0x61 as byte);
    assert SpaceByte !in text[..50];
  }

  /**
   * The preview with room kept for the ellipsis: the cut is made at
   * `max - 3` bytes, so the result never exceeds `max` bytes.
   */
  function TruncatePreviewWithin(text: seq<byte>, max: int): (r: seq<byte>)
    requires 0 <= max
    ensures |r| <= max
    ensures |text| <= max ==> r == text
    ensures |text| > max && max >= 3 ==>
      && |r| >= 3 && r[|r| - 3..] == Ellipsis
      && r[..|r| - 3] == text[..|r| - 3]
    ensures |text| > max && max < 3 ==> r == text[..max]
  {
    if |text| <= max then text
    else if max < 3 then text[..max]
    else TruncatePreview(text, max - 3)
  }

  /** Past the limit, the bounded preview is the original one with a limit three bytes lower. */
  lemma WithinIsShiftedLimit(text: seq<byte>, max: int)
    requires 3 <= max < |text|
    ensures TruncatePreviewWithin(text, max) == TruncatePreview(text, max - 3)
  {
  }

  // ---------------------------------------------------------------------------
  // Whitespace clean-up of extracted text.

  const Nbsp: char := '\U{00A0}'

  /** `strings.ReplaceAll(text, " ", " ")`. */
  function ReplaceNbsp(s: string): (r: string)
    ensures |r| == |s| && Nbsp !in r
    ensures forall i :: 0 <= i < |s| ==> r[i] == (if s[i] == Nbsp then ' ' else s[i])
  {
    seq(|s|, i requires 0 <= i < |s| => if s[i] == Nbsp then ' ' else s[i])
  }

  predicate NoAdjacentReSpace(s: string) {
    forall i :: 0 <= i < |s| - 1 ==> !(IsReSpace(s[i]) && IsReSpace(s[i + 1]))
  }

  /** Every RE2 whitespace character in `s` is a plain space. */
  predicate OnlyPlainSpaces(s: string) {
    forall i :: 0 <= i < |s| && IsReSpace(s[i]) ==> s[i] == ' '
  }

  /** Length of the run of RE2 whitespace at the front of `s`. */
  function ReSpaceRun(s: string): (n: nat)
    ensures n <= |s|
    ensures forall i :: 0 <= i < n ==> IsReSpace(s[i])
    ensures n == |s| || !IsReSpace(s[n])
  {
    if |s| > 0 && IsReSpace(s[0]) then 1 + ReSpaceRun(s[1..]) else 0
  }

  /** `regexp.MustCompile(`\s+`).ReplaceAllString(s, " ")`: each maximal run becomes one space. */
  function Collapse(s: string): (r: string)
    ensures |r| <= |s|
    ensures |s| > 0 ==> |r| > 0 && (IsReSpace(r[0]) <==> IsReSpace(s[0]))
    ensures NoAdjacentReSpace(r) && OnlyPlainSpaces(r)
    decreases |s|
  {
    if |s| == 0 then ""
    else if IsReSpace(s[0]) then
      var n := ReSpaceRun(s);
      var rest := Collapse(s[n..]);
      assert n < |s| ==> s[n..][0] == s[n];
      " " + rest
    else [s[0]] + Collapse(s[1..])
  }

  /** Collapsing leaves a string alone exactly when it already has no runs and no other blanks. */
  lemma CollapseFixpoint(s: string)
    ensures Collapse(s) == s <==> NoAdjacentReSpace(s) && OnlyPlainSpaces(s)
  {
    if NoAdjacentReSpace(s) && OnlyPlainSpaces(s) {
      CollapseNoOp(s);
    }
  }

  lemma {:induction false} CollapseNoOp(s: string)
    requires NoAdjacentReSpace(s) && OnlyPlainSpaces(s)
    ensures Collapse(s) == s
    decreases |s|
  {
    if |s| > 0 {
      SpacingTail(s);
      CollapseNoOp(s[1..]);
      if IsReSpace(s[0]) {
        assert |s| > 1 ==> s[1..][0] == s[1] && !IsReSpace(s[1]);
        assert ReSpaceRun(s) == 1;
        assert s == " " + s[1..];
      } else {
        assert s == [s[0]] + s[1..];
      }
    }
  }

  lemma SpacingTail(s: string)
    requires |s| > 0 && NoAdjacentReSpace(s) && OnlyPlainSpaces(s)
    ensures NoAdjacentReSpace(s[1..]) && OnlyPlainSpaces(s[1..])
  {
    InfixKeepsSpacing(s, 1, |s|);
  }

  lemma CollapseIdempotent(s: string)
    ensures Collapse(Collapse(s)) == Collapse(s)
  {
    CollapseFixpoint(Collapse(s));
  }

  predicate AllReSpace(w: string) {
    forall i :: 0 <= i < |w| ==> IsReSpace(w[i])
  }

  /** A whitespace run that ends where a non-whitespace character (or the end) follows is measured whole. */
  lemma {:induction false} ReSpaceRunOf(w: string, b: string)
    requires AllReSpace(w)
    requires b == [] || !IsReSpace(b[0])
    ensures ReSpaceRun(w + b) == |w|
    decreases |w|
  {
    if |w| == 0 {
      assert w + b == b;
    } else {
      assert (w + b)[0] == w[0];
      assert (w + b)[1..] == w[1..] + b;
      ReSpaceRunOf(w[1..], b);
    }
  }

  /**
   * Collapsing distributes over a concatenation whose seam does not fall
   * inside a whitespace run.
   */
  lemma {:induction false} CollapseAppend(a: string, b: string)
    requires a == [] || b == [] || !IsReSpace(a[|a| - 1]) || !IsReSpace(b[0])
    ensures Collapse(a + b) == Collapse(a) + Collapse(b)
    decreases |a|
  {
    if |a| == 0 {
      assert a + b == b;
    } else if !IsReSpace(a[0]) {
      CollapseAppend(a[1..], b);
      AppendPlainHead(a, b);
    } else if ReSpaceRun(a) < |a| {
      CollapseAppend(a[ReSpaceRun(a)..], b);
      AppendRunHead(a, b);
    } else {
      AppendAllRun(a, b);
    }
  }

  lemma ConcatAssoc(x: string, y: string, z: string)
    ensures x + (y + z) == x + y + z
  {
  }

  lemma AppendPlainHead(a: string, b: string)
    requires |a| > 0 && !IsReSpace(a[0])
    requires Collapse(a[1..] + b) == Collapse(a[1..]) + Collapse(b)
    ensures Collapse(a + b) == Collapse(a) + Collapse(b)
  {
    var ab := a + b;
    assert ab[0] == a[0] && ab[1..] == a[1..] + b;
    assert Collapse(ab) == [a[0]] + Collapse(a[1..] + b);
    assert Collapse(a) == [a[0]] + Collapse(a[1..]);
    ConcatAssoc([a[0]], Collapse(a[1..]), Collapse(b));
  }

  lemma AppendRunHead(a: string, b: string)
    requires |a| > 0 && IsReSpace(a[0]) && ReSpaceRun(a) < |a|
    requires Collapse(a[ReSpaceRun(a)..] + b) == Collapse(a[ReSpaceRun(a)..]) + Collapse(b)
    ensures Collapse(a + b) == Collapse(a) + Collapse(b)
  {
    var n := ReSpaceRun(a);
    var ab := a + b;
    assert ab == a[..n] + (a[n..] + b);
    assert (a[n..] + b)[0] == a[n];
    ReSpaceRunOf(a[..n], a[n..] + b);
    assert ab[0] == a[0] && ab[n..] == a[n..] + b;
    assert Collapse(ab) == " " + Collapse(a[n..] + b);
    assert Collapse(a) == " " + Collapse(a[n..]);
    ConcatAssoc(" ", Collapse(a[n..]), Collapse(b));
  }

  lemma AppendAllRun(a: string, b: string)
    requires |a| > 0 && IsReSpace(a[0]) && ReSpaceRun(a) == |a|
    requires b == [] || !IsReSpace(b[0])
    ensures Collapse(a + b) == Collapse(a) + Collapse(b)
  {
    ReSpaceRunOf(a, b);
    assert (a + b)[|a|..] == b;
    assert a[|a|..] == [];
  }

  /** A whitespace run before a non-whitespace character (or the end) becomes one space. */
  lemma {:induction false} CollapseRun(w: string, b: string)
    requires |w| > 0 && AllReSpace(w)
    requires b == [] || !IsReSpace(b[0])
    ensures Collapse(w + b) == " " + Collapse(b)
  {
    ReSpaceRunOf(w, b);
    assert (w + b)[0] == w[0];
    assert (w + b)[|w|..] == b;
  }

  /**
   * Each maximal whitespace run, whatever its length and characters, becomes
   * exactly one space, and the text on either side is collapsed on its own.
   */
  lemma {:induction false} CollapseMaximalRun(a: string, w: string, b: string)
    requires a == [] || !IsReSpace(a[|a| - 1])
    requires |w| > 0 && AllReSpace(w)
    requires b == [] || !IsReSpace(b[0])
    ensures Collapse(a + w + b) == Collapse(a) + " " + Collapse(b)
  {
    var wb := w + b;
    assert a + w + b == a + wb;
    CollapseAppend(a, wb);
    CollapseRun(w, b);
    ConcatAssoc(Collapse(a), " ", Collapse(b));
  }

  /** Text without whitespace is left alone. */
  lemma CollapseNoReSpace(s: string)
    requires forall i :: 0 <= i < |s| ==> !IsReSpace(s[i])
    ensures Collapse(s) == s
  {
    CollapseNoOp(s);
  }

  /** A first character outside a whitespace run is kept as the first character. */
  lemma CollapseFirst(s: string)
    requires |s| > 0 && !IsReSpace(s[0])
    ensures |Collapse(s)| > 0 && Collapse(s)[0] == s[0]
  {
  }

  /** A last character outside a whitespace run is kept as the last character. */
  lemma {:induction false} CollapseLast(s: string)
    requires |s| > 0 && !IsReSpace(s[|s| - 1])
    ensures |Collapse(s)| > 0 && Collapse(s)[|Collapse(s)| - 1] == s[|s| - 1]
  {
    var c := s[|s| - 1];
    assert s == s[..|s| - 1] + [c];
    CollapseAppend(s[..|s| - 1], [c]);
    CollapseNoReSpace([c]);
  }

  /** The characters of `s` that are not `unicode.IsSpace` whitespace, in order. */
  function Visible(s: string): (v: string)
    ensures |v| <= |s| && NoSpace(v)
  {
    if |s| == 0 then ""
    else if IsSpace(s[0]) then Visible(s[1..])
    else [s[0]] + Visible(s[1..])
  }

  lemma {:induction false} VisibleAppend(a: string, b: string)
    ensures Visible(a + b) == Visible(a) + Visible(b)
    decreases |a|
  {
    if |a| == 0 {
      assert a + b == b;
    } else {
      assert (a + b)[0] == a[0];
      assert (a + b)[1..] == a[1..] + b;
      VisibleAppend(a[1..], b);
    }
  }

  lemma {:induction false} VisibleOfSpace(s: string)
    requires AllSpace(s)
    ensures Visible(s) == ""
    decreases |s|
  {
    if |s| > 0 {
      VisibleOfSpace(s[1..]);
    }
  }

  /** Trimming removes whitespace only. */
  lemma VisibleTrimSpace(s: string)
    ensures Visible(TrimSpace(s)) == Visible(s)
  {
    var n := LeadingSpaceCount(s);
    var r := TrimSpace(s);
    assert s == s[..n] + r + s[n + |r|..];
    VisibleAppend(s[..n] + r, s[n + |r|..]);
    VisibleAppend(s[..n], r);
    VisibleOfSpace(s[..n]);
    VisibleOfSpace(s[n + |r|..]);
  }

  /** Replacing no-break spaces by spaces removes whitespace only. */
  lemma {:induction false} VisibleReplaceNbsp(s: string)
    ensures Visible(ReplaceNbsp(s)) == Visible(s)
    decreases |s|
  {
    if |s| > 0 {
      assert ReplaceNbsp(s)[1..] == ReplaceNbsp(s[1..]);
      VisibleReplaceNbsp(s[1..]);
    }
  }

  /** Collapsing replaces whitespace by whitespace only. */
  lemma {:induction false} VisibleCollapse(s: string)
    ensures Visible(Collapse(s)) == Visible(s)
    decreases |s|
  {
    if |s| > 0 {
      if IsReSpace(s[0]) {
        var n := ReSpaceRun(s);
        VisibleCollapse(s[n..]);
        assert s == s[..n] + s[n..];
        VisibleAppend(s[..n], s[n..]);
        VisibleOfSpace(s[..n]);
        assert (" " + Collapse(s[n..]))[1..] == Collapse(s[n..]);
      } else {
        VisibleCollapse(s[1..]);
        assert ([s[0]] + Collapse(s[1..]))[1..] == Collapse(s[1..]);
      }
    }
  }

  lemma InfixKeepsSpacing(s: string, a: nat, b: nat)
    requires a <= b <= |s|
    requires NoAdjacentReSpace(s) && OnlyPlainSpaces(s)
    ensures NoAdjacentReSpace(s[a..b]) && OnlyPlainSpaces(s[a..b])
  {
    assert forall i :: 0 <= i < b - a ==> s[a..b][i] == s[a + i];
  }

  /**
   * The clean-up `cleanHTML` applies to the text of the document: no-break
   * spaces to spaces when `trimNbsp`, RE2 whitespace runs to one space when
   * `collapse`, then `strings.TrimSpace`.
   */
  function CleanText(text: string, trimNbsp: bool, collapse: bool): (r: string)
    ensures trimNbsp ==> Nbsp !in r
    ensures collapse ==> NoAdjacentReSpace(r) && OnlyPlainSpaces(r)
    ensures r == [] || (!IsSpace(r[0]) && !IsSpace(r[|r| - 1]))
    ensures Visible(r) == Visible(text)
  {
    var replaced := if trimNbsp then ReplaceNbsp(text) else text;
    var collapsed := if collapse then Collapse(replaced) else replaced;
    CleanSteps(text, trimNbsp, collapse, replaced, collapsed);
    TrimSpace(collapsed)
  }

  /** The facts each step of `CleanText` contributes. */
  lemma CleanSteps(text: string, trimNbsp: bool, collapse: bool, replaced: string, collapsed: string)
    requires replaced == if trimNbsp then ReplaceNbsp(text) else text
    requires collapsed == if collapse then Collapse(replaced) else replaced
    ensures trimNbsp ==> Nbsp !in TrimSpace(collapsed)
    ensures collapse ==> NoAdjacentReSpace(TrimSpace(collapsed)) && OnlyPlainSpaces(TrimSpace(collapsed))
    ensures Visible(TrimSpace(collapsed)) == Visible(text)
  {
    if trimNbsp {
      NbspStaysOut(replaced, collapsed, collapse);
    }
    if collapse {
      TrimKeepsSpacing(collapsed);
      VisibleCollapse(replaced);
    }
    VisibleTrimSpace(collapsed);
    if trimNbsp {
      VisibleReplaceNbsp(text);
    }
  }

  /**
   * With collapsing on, a whitespace run between two pieces of text with no
   * white space at their outer ends comes out of the clean-up as one space.
   */
  lemma {:induction false} CleanTextMaximalRun(a: string, w: string, b: string)
    requires |a| > 0 && !IsSpace(a[0]) && !IsSpace(a[|a| - 1])
    requires |b| > 0 && !IsSpace(b[0]) && !IsSpace(b[|b| - 1])
    requires |w| > 0 && AllReSpace(w)
    ensures CleanText(a + w + b, false, true) == Collapse(a) + " " + Collapse(b)
  {
    var ca, cb := Collapse(a), Collapse(b);
    var r := ca + " " + cb;
    CollapseMaximalRun(a, w, b);
    CollapseFirst(a);
    CollapseLast(b);
    assert r[0] == ca[0];
    assert r[|r| - 1] == cb[|cb| - 1];
    TrimSpaceNoOp(r);
  }

  lemma NbspStaysOut(replaced: string, collapsed: string, collapse: bool)
    requires Nbsp !in replaced
    requires collapsed == if collapse then Collapse(replaced) else replaced
    ensures Nbsp !in TrimSpace(collapsed)
  {
    if collapse {
      CollapseKeepsChars(replaced);
    }
  }

  lemma TrimKeepsSpacing(s: string)
    requires NoAdjacentReSpace(s) && OnlyPlainSpaces(s)
    ensures NoAdjacentReSpace(TrimSpace(s)) && OnlyPlainSpaces(TrimSpace(s))
  {
    var n := LeadingSpaceCount(s);
    InfixKeepsSpacing(s, n, n + |TrimSpace(s)|);
  }

  /** Collapsing adds no character other than a space. */
  lemma {:induction false} CollapseKeepsChars(s: string)
    ensures forall c :: c in Collapse(s) ==> c in s || c == ' '
    decreases |s|
  {
    if |s| > 0 {
      if IsReSpace(s[0]) {
        var n := ReSpaceRun(s);
        CollapseKeepsChars(s[n..]);
        assert forall c :: c in s[n..] ==> c in s;
      } else {
        CollapseKeepsChars(s[1..]);
        assert forall c :: c in s[1..] ==> c in s;
      }
    }
  }

  /** Cleaning is idempotent whenever collapsing is on. */
  lemma CleanTextIdempotent(text: string, trimNbsp: bool)
    ensures CleanText(CleanText(text, trimNbsp, true), trimNbsp, true) == CleanText(text, trimNbsp, true)
  {
    var r := CleanText(text, trimNbsp, true);
    var replaced := if trimNbsp then ReplaceNbsp(r) else r;
    if trimNbsp {
      ReplaceNbspNoOp(r);
    }
    CollapseNoOp(r);
    TrimSpaceFixpoint(r);
    CleanTextSteps(r, trimNbsp, true);
  }

  lemma ReplaceNbspNoOp(s: string)
    requires Nbsp !in s
    ensures ReplaceNbsp(s) == s
  {
  }

  lemma CleanTextSteps(text: string, trimNbsp: bool, collapse: bool)
    ensures var replaced := if trimNbsp then ReplaceNbsp(text) else text;
      CleanText(text, trimNbsp, collapse) == TrimSpace(if collapse then Collapse(replaced) else replaced)
  {
  }
}
