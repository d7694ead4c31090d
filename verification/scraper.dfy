/**
 * The listing scraper: the selector fallback chains, `sel@attr` splitting,
 * the `srcset` candidate choice, which cards of a listing page are emitted
 * and how they are numbered, and the choice of the next-page link.
 *
 * The HTML document is an oracle: `Dom.text(e, selector)` is the text of the
 * first element below `e` that `selector` matches (None when nothing matches),
 * and `Dom.attr(e, selector, name)` is that element's attribute `name`, when
 * both exist.
 */
module Scraper {
  import opened Common
  import opened Strings
  import opened Normalize

  /** One listing entry, as `ParseListing` emits it. */
  datatype Card = Card(
    title: string,
    url: string,
    thumbnailUrl: string,
    text: string,
    dateRaw: string,
    sequenceNum: int)

  /** The selector configuration of one site language. */
  datatype Selectors = Selectors(
    listContainer: string,
    cardSelectors: string,
    titleSelectors: seq<string>,
    urlSelectors: seq<string>,
    imageSelectors: seq<string>,
    textSelectors: seq<string>,
    dateSelectors: seq<string>,
    nextPageLink: seq<string>)

  datatype Dom<!E> = Dom(
    text: (E, string) -> Option<string>,
    attr: (E, string, string) -> Option<string>)

  /** The value of attribute `name` on the first match of `selector`, or "" when either is missing. */
  function AttrOrEmpty<E>(dom: Dom<E>, e: E, selector: string, name: string): string {
    dom.attr(e, selector, name).GetOr("")
  }

  // ---------------------------------------------------------------------------
  // `sel@attr` entries.

  /**
   * The element selector and attribute an entry names: an entry that splits
   * at `@` into exactly two parts names both; any other entry keeps `attr`.
   */
  function SplitAttr(selector: string, attr: string): (r: (string, string))
    ensures CountOf(selector, '@') == 1 ==>
      '@' !in r.0 && '@' !in r.1 && r.0 + "@" + r.1 == selector
    ensures CountOf(selector, '@') != 1 ==> r == (selector, attr)
  {
    var parts := Split(selector, '@');
    if |parts| == 2 then
      assert Join(parts, '@') == parts[0] + "@" + parts[1] by {
        assert Join(parts[1..], '@') == parts[1];
      }
      (parts[0], parts[1])
    else (selector, attr)
  }

  /** Rejoining the two halves of a `sel@attr` entry splits back into the same halves. */
  lemma SplitAttrInverse(selector: string, name: string, attr: string)
    requires '@' !in selector && '@' !in name
    ensures SplitAttr(selector + "@" + name, attr) == (selector, name)
  {
    SplitJoin([selector, name], '@');
    assert Join([selector, name], '@') == selector + "@" + name by {
      assert [selector, name][1..] == [name];
    }
  }

  // ---------------------------------------------------------------------------
  // `trySelectors`.

  /**
   * What one entry of `trySelectors` yields ("" means: go on with the next):
   * the trimmed text of a plain selector's first match, the raw attribute of
   * a `sel@attr` entry, nothing for an entry with several `@`.
   */
  function SelectorValue<E>(dom: Dom<E>, e: E, selector: string): (r: string)
    ensures '@' !in selector ==> r == TrimSpace(dom.text(e, selector).GetOr(""))
    ensures '@' in selector && CountOf(selector, '@') != 1 ==> r == ""
    ensures CountOf(selector, '@') == 1 ==>
      r == AttrOrEmpty(dom, e, SplitAttr(selector, "").0, SplitAttr(selector, "").1)
  {
    if '@' in selector then
      var parts := Split(selector, '@');
      if |parts| == 2 then AttrOrEmpty(dom, e, parts[0], parts[1]) else ""
    else
      NoOccurrenceCountsZero(selector, '@');
      TrimSpace(dom.text(e, selector).GetOr(""))
  }

  /** Every entry of `selectors` before index `k` yields nothing. */
  predicate MissesBefore<E>(dom: Dom<E>, e: E, selectors: seq<string>, k: int)
    requires k <= |selectors|
  {
    forall j :: 0 <= j < k ==> SelectorValue(dom, e, selectors[j]) == ""
  }

  /** `trySelectors`: the value of the first entry that yields one, else "". */
  function TrySelectors<E>(dom: Dom<E>, e: E, selectors: seq<string>): (r: string)
    ensures r == "" <==> MissesBefore(dom, e, selectors, |selectors|)
    ensures forall k :: (0 <= k < |selectors| && MissesBefore(dom, e, selectors, k)
      && SelectorValue(dom, e, selectors[k]) != "") ==> r == SelectorValue(dom, e, selectors[k])
    decreases |selectors|
  {
    if |selectors| == 0 then ""
    else
      var v := SelectorValue(dom, e, selectors[0]);
      if v != "" then v
      else
        var r := TrySelectors(dom, e, selectors[1..]);
        MissesShift(dom, e, selectors);
        r
  }

  /** After a first entry that yields nothing, the misses line up with those of the tail. */
  lemma MissesShift<E>(dom: Dom<E>, e: E, selectors: seq<string>)
    requires |selectors| > 0 && SelectorValue(dom, e, selectors[0]) == ""
    ensures forall k :: 1 <= k <= |selectors| ==>
      (MissesBefore(dom, e, selectors, k) <==> MissesBefore(dom, e, selectors[1..], k - 1))
  {
    assert forall j :: 0 <= j < |selectors| - 1 ==> selectors[1..][j] == selectors[j + 1];
  }

  /** Trying `a + b` is trying `a`, then `b` only if `a` yields nothing. */
  lemma {:induction false} TrySelectorsAppend<E>(dom: Dom<E>, e: E, a: seq<string>, b: seq<string>)
    ensures TrySelectors(dom, e, a + b) ==
      if TrySelectors(dom, e, a) != "" then TrySelectors(dom, e, a) else TrySelectors(dom, e, b)
    decreases |a|
  {
    if |a| == 0 {
      assert a + b == b;
    } else {
      assert (a + b)[0] == a[0];
      assert (a + b)[1..] == a[1..] + b;
      TrySelectorsAppend(dom, e, a[1..], b);
    }
  }

  // ---------------------------------------------------------------------------
  // `srcset` candidates.

  /** The URL of a `srcset` candidate: the first field of the trimmed candidate. */
  function CandidateUrl(p: string): Option<string> {
    FirstField(TrimSpace(p))
  }

  /** A candidate that has a URL, and not a `data:` URI. */
  predicate Qualifies(p: string) {
    CandidateUrl(p).Some? && !HasPrefix(CandidateUrl(p).value, "data:")
  }

  /** No candidate before index `k` qualifies. */
  predicate NoneQualifyBefore(pairs: seq<string>, k: int)
    requires k <= |pairs|
  {
    forall j :: 0 <= j < k ==> !Qualifies(pairs[j])
  }

  /**
   * The first comma-separated candidate of a `srcset` value whose URL (its
   * first whitespace-separated field) is not a `data:` URI; the whole value
   * when there is none.
   */
  function SrcsetPick(value: string): (r: string)
    requires value != ""
    ensures r != ""
    ensures r == value || (NoSpace(r) && ',' !in r && !HasPrefix(r, "data:"))
    ensures var pairs := Split(value, ',');
      NoneQualifyBefore(pairs, |pairs|) ==> r == value
    ensures var pairs := Split(value, ',');
      forall k :: 0 <= k < |pairs| && NoneQualifyBefore(pairs, k) && Qualifies(pairs[k]) ==>
        r == CandidateUrl(pairs[k]).value
  {
    PickFrom(Split(value, ','), value)
  }

  function PickFrom(pairs: seq<string>, value: string): (r: string)
    requires value != ""
    requires forall k :: 0 <= k < |pairs| ==> ',' !in pairs[k]
    ensures r != ""
    ensures r == value || (NoSpace(r) && ',' !in r && !HasPrefix(r, "data:"))
    ensures NoneQualifyBefore(pairs, |pairs|) ==> r == value
    ensures forall k :: 0 <= k < |pairs| && NoneQualifyBefore(pairs, k) && Qualifies(pairs[k]) ==>
      r == CandidateUrl(pairs[k]).value
    decreases |pairs|, 1
  {
    if |pairs| == 0 then value
    else
      var url := CandidateUrl(pairs[0]);
      if Qualifies(pairs[0]) then
        CandidateUrlChars(pairs[0]);
        url.value
      else
        var r := PickFrom(pairs[1..], value);
        PickSkipStep(pairs, value, r);
        r
  }

  /** A candidate's URL is made of the candidate's characters. */
  lemma CandidateUrlChars(p: string)
    requires CandidateUrl(p).Some?
    ensures forall c :: c in CandidateUrl(p).value ==> c in p
  {
    var t := TrimSpace(p);
    assert forall c :: c in TrimLeft(t) ==> c in t;
    assert forall c :: c in CandidateUrl(p).value ==> c in TrimLeft(t);
  }

  /** Passing over a first candidate that does not qualify: the tail's choice is the choice for the whole. */
  lemma PickSkipStep(pairs: seq<string>, value: string, r: string)
    requires value != "" && forall k :: 0 <= k < |pairs| ==> ',' !in pairs[k]
    requires |pairs| > 0 && !Qualifies(pairs[0])
    requires r == PickFrom(pairs[1..], value)
    ensures NoneQualifyBefore(pairs, |pairs|) ==> r == value
    ensures forall k :: 0 <= k < |pairs| && NoneQualifyBefore(pairs, k) && Qualifies(pairs[k]) ==>
      r == CandidateUrl(pairs[k]).value
    decreases |pairs|, 0
  {
    QualifyShift(pairs);
    forall k | 0 <= k < |pairs| && NoneQualifyBefore(pairs, k) && Qualifies(pairs[k])
      ensures r == CandidateUrl(pairs[k]).value
    {
      assert k > 0;
      assert pairs[1..][k - 1] == pairs[k];
    }
  }

  /** After a first candidate that does not qualify, the candidates line up with those of the tail. */
  lemma QualifyShift(pairs: seq<string>)
    requires |pairs| > 0 && !Qualifies(pairs[0])
    ensures forall k :: 1 <= k <= |pairs| ==>
      (NoneQualifyBefore(pairs, k) <==> NoneQualifyBefore(pairs[1..], k - 1))
  {
    assert forall j :: 0 <= j < |pairs| - 1 ==> pairs[1..][j] == pairs[j + 1];
  }

  /** A word followed by a space and anything else has that word as its first field. */
  lemma FirstFieldOfWord(word: string, tail: string)
    requires word != "" && NoSpace(word)
    ensures FirstField(TrimSpace(word + " " + tail)) == Some(word)
  {
    var s := word + " " + tail;
    assert s[0] == word[0];
    assert LeadingSpaceCount(s) == 0;
    var t := TrimSpace(s);
    assert t == s[..|t|];
    assert forall i :: |t| <= i < |s| ==> IsSpace(s[i]) by {
      forall i | |t| <= i < |s| ensures IsSpace(s[i]) {
        assert s[i] == s[|t|..][i - |t|];
      }
    }
    assert !IsSpace(s[|word| - 1]);
    assert forall i :: 0 <= i < |word| ==> t[i] == word[i];
    assert |t| > |word| ==> t[|word|] == ' ';
    assert LeadingSpaceCount(t) == 0;
    assert TrimLeft(t) == t;
    WordLengthOf(t, |word|);
    assert t[..|word|] == word;
  }

  /** `WordLength` is the one length at which the leading word ends. */
  lemma WordLengthOf(t: string, n: nat)
    requires n <= |t| && NoSpace(t[..n]) && (n == |t| || IsSpace(t[n]))
    ensures WordLength(t) == n
  {
    var m := WordLength(t);
    assert forall i :: 0 <= i < n ==> !IsSpace(t[i]) by {
      forall i | 0 <= i < n ensures !IsSpace(t[i]) {
        assert t[..n][i] == t[i];
      }
    }
    assert forall i :: 0 <= i < m ==> !IsSpace(t[i]) by {
      forall i | 0 <= i < m ensures !IsSpace(t[i]) {
        assert t[..m][i] == t[i];
      }
    }
  }

  /** The URL of the first candidate is chosen when it is not a `data:` URI. */
  lemma SrcsetFirstCandidate(url: string, descriptor: string, rest: string)
    requires url != "" && NoSpace(url) && ',' !in url && ',' !in descriptor
    requires !HasPrefix(url, "data:")
    ensures SrcsetPick(url + " " + descriptor + "," + rest) == url
  {
    var value := url + " " + descriptor + "," + rest;
    SplitFirst(url + " " + descriptor, rest);
    PickFirst(url, descriptor, Split(rest, ','), value);
  }

  lemma PickFirst(url: string, descriptor: string, more: seq<string>, value: string)
    requires url != "" && NoSpace(url) && ',' !in url && ',' !in descriptor
    requires !HasPrefix(url, "data:") && value != ""
    requires forall k :: 0 <= k < |more| ==> ',' !in more[k]
    ensures PickFrom([url + " " + descriptor] + more, value) == url
  {
    FirstFieldOfWord(url, descriptor);
    assert ([url + " " + descriptor] + more)[0] == url + " " + descriptor;
  }

  lemma PickSkipsData(data: string, more: seq<string>, value: string)
    requires data != "" && NoSpace(data) && ',' !in data && HasPrefix(data, "data:")
    requires value != ""
    requires forall k :: 0 <= k < |more| ==> ',' !in more[k]
    ensures PickFrom([data + " "] + more, value) == PickFrom(more, value)
  {
    FirstFieldOfWord(data, "");
    assert data + " " + "" == data + " ";
    assert ([data + " "] + more)[0] == data + " ";
    assert ([data + " "] + more)[1..] == more;
  }

  /** A `data:` first candidate is passed over for the next one. */
  lemma SrcsetSkipsDataUri(data: string, url: string, descriptor: string, rest: string)
    requires data != "" && NoSpace(data) && ',' !in data && HasPrefix(data, "data:")
    requires url != "" && NoSpace(url) && ',' !in url && ',' !in descriptor
    requires !HasPrefix(url, "data:")
    ensures SrcsetPick(data + " " + "," + (url + " " + descriptor + "," + rest)) == url
  {
    var tail := url + " " + descriptor + "," + rest;
    var value := data + " " + "," + tail;
    var later := Split(tail, ',');
    var last := Split(rest, ',');
    SplitFirst(data + " ", tail);
    SplitFirst(url + " " + descriptor, rest);
    assert Split(value, ',') == [data + " "] + later;
    assert later == [url + " " + descriptor] + last;
    PickSkipsData(data, later, value);
    PickFirst(url, descriptor, last, value);
    assert SrcsetPick(value) == PickFrom([data + " "] + later, value);
  }

  /** Splitting at the first separator peels off the piece before it. */
  lemma SplitFirst(head: string, rest: string)
    requires ',' !in head
    ensures Split(head + "," + rest, ',') == [head] + Split(rest, ',')
  {
    var s := head + "," + rest;
    assert s[|head|] == ',';
    assert s[..|head|] == head;
    assert IndexOf(s, ',') == |head| by {
      assert forall j :: 0 <= j < |head| ==> s[j] == head[j];
    }
    assert s[|head| + 1..] == rest;
  }

  // ---------------------------------------------------------------------------
  // `trySelectorsAttr`.

  /** What one entry yields for image lookup when `attr` is in force before it. */
  function AttrStep<E>(dom: Dom<E>, e: E, selector: string, attr: string): string {
    var (s, a) := SplitAttr(selector, attr);
    var v := AttrOrEmpty(dom, e, s, a);
    if v == "" then "" else if a == "srcset" then SrcsetPick(v) else v
  }

  /** The attribute of the last entry of `prefix` that splits into `sel@attr`, if any. */
  function LastOverride(prefix: seq<string>): (r: Option<string>)
    ensures r.Some? <==> exists j :: 0 <= j < |prefix| && CountOf(prefix[j], '@') == 1
  {
    if |prefix| == 0 then None
    else
      var last := prefix[|prefix| - 1];
      if CountOf(last, '@') == 1 then Some(SplitAttr(last, "").1)
      else
        var r := LastOverride(prefix[..|prefix| - 1]);
        assert forall j :: 0 <= j < |prefix| - 1 ==> prefix[..|prefix| - 1][j] == prefix[j];
        r
  }

  /** The attribute in force at entry `k`: the last override before it, else the caller's. */
  function InForce(selectors: seq<string>, k: int, attr: string): string
    requires 0 <= k <= |selectors|
  {
    LastOverride(selectors[..k]).GetOr(attr)
  }

  lemma {:induction false} LastOverrideCons(x: string, q: seq<string>, attr: string)
    ensures LastOverride([x] + q).GetOr(attr) == LastOverride(q).GetOr(SplitAttr(x, attr).1)
    decreases |q|
  {
    if |q| == 0 {
      assert [x] + q == [x];
      assert [x][..0] == [];
    } else {
      var s := [x] + q;
      assert s[|s| - 1] == q[|q| - 1];
      assert s[..|s| - 1] == [x] + q[..|q| - 1];
      LastOverrideCons(x, q[..|q| - 1], attr);
    }
  }

  /** The attribute in force one entry further along, seen from the tail of the list. */
  lemma InForceTail(selectors: seq<string>, k: int, attr: string)
    requires 1 <= k <= |selectors|
    ensures InForce(selectors, k, attr) == InForce(selectors[1..], k - 1, SplitAttr(selectors[0], attr).1)
  {
    assert selectors[..k] == [selectors[0]] + selectors[1..][..k - 1];
    LastOverrideCons(selectors[0], selectors[1..][..k - 1], attr);
  }

  /** Every entry before `k` yields nothing with the attribute in force at it. */
  predicate AttrMissesBefore<E>(dom: Dom<E>, e: E, selectors: seq<string>, k: int, attr: string)
    requires k <= |selectors|
  {
    forall j :: 0 <= j < k ==> AttrStep(dom, e, selectors[j], InForce(selectors, j, attr)) == ""
  }

  /**
   * `trySelectorsAttr`: the first entry's value, where an `@attr` entry
   * changes the attribute for itself and every later entry of the call.
   */
  function TrySelectorsAttr<E>(dom: Dom<E>, e: E, selectors: seq<string>, attr: string): (r: string)
    ensures r == "" <==> AttrMissesBefore(dom, e, selectors, |selectors|, attr)
    decreases |selectors|
  {
    if |selectors| == 0 then ""
    else
      assert InForce(selectors, 0, attr) == attr by {
        assert selectors[..0] == [];
      }
      var v := AttrStep(dom, e, selectors[0], attr);
      if v != "" then v
      else
        var next := SplitAttr(selectors[0], attr).1;
        var r := TrySelectorsAttr(dom, e, selectors[1..], next);
        AttrMissesShift(dom, e, selectors, attr);
        r
  }

  /** The value found is that of the first entry that yields one, with the attribute in force there. */
  lemma {:induction false} TrySelectorsAttrFirst<E>(dom: Dom<E>, e: E, selectors: seq<string>, attr: string, k: nat)
    requires k < |selectors| && AttrMissesBefore(dom, e, selectors, k, attr)
    requires AttrStep(dom, e, selectors[k], InForce(selectors, k, attr)) != ""
    ensures TrySelectorsAttr(dom, e, selectors, attr) == AttrStep(dom, e, selectors[k], InForce(selectors, k, attr))
    decreases k
  {
    assert InForce(selectors, 0, attr) == attr by {
      assert selectors[..0] == [];
    }
    if k > 0 {
      assert AttrStep(dom, e, selectors[0], attr) == "";
      AttrMissesShift(dom, e, selectors, attr);
      TrySelectorsAttrFirst(dom, e, selectors[1..], SplitAttr(selectors[0], attr).1, k - 1);
    }
  }

  /** After a first entry that yields nothing, the misses line up with those of the tail. */
  lemma AttrMissesShift<E>(dom: Dom<E>, e: E, selectors: seq<string>, attr: string)
    requires |selectors| > 0 && AttrStep(dom, e, selectors[0], attr) == ""
    ensures var next := SplitAttr(selectors[0], attr).1;
      forall k :: 1 <= k <= |selectors| ==>
      (AttrMissesBefore(dom, e, selectors, k, attr) <==> AttrMissesBefore(dom, e, selectors[1..], k - 1, next))
    ensures var next := SplitAttr(selectors[0], attr).1;
      forall k :: 1 <= k < |selectors| ==>
      AttrStep(dom, e, selectors[k], InForce(selectors, k, attr))
      == AttrStep(dom, e, selectors[1..][k - 1], InForce(selectors[1..], k - 1, next))
  {
    var next := SplitAttr(selectors[0], attr).1;
    forall k | 1 <= k <= |selectors|
      ensures InForce(selectors, k, attr) == InForce(selectors[1..], k - 1, next)
    {
      InForceTail(selectors, k, attr);
    }
    assert selectors[..0] == [];
    assert forall j :: 0 <= j < |selectors| - 1 ==> selectors[1..][j] == selectors[j + 1];
  }

  /** An `@srcset` entry that finds nothing makes the next plain entry look up `srcset` too. */
  lemma OverrideReachesLaterEntries<E>(dom: Dom<E>, e: E, first: string, name: string, second: string, attr: string)
    requires '@' !in first && '@' !in name && '@' !in second
    requires AttrOrEmpty(dom, e, first, name) == ""
    ensures TrySelectorsAttr(dom, e, [first + "@" + name, second], attr)
      == AttrStep(dom, e, second, name)
  {
    SplitAttrInverse(first, name, attr);
    assert [first + "@" + name, second][1..] == [second];
  }

  // ---------------------------------------------------------------------------
  // Cards.

  /** The raw values `ParseListing` looks up for one card element. */
  datatype RawFields = RawFields(title: string, url: string, thumb: string, text: string, date: string)

  function Fields<E>(dom: Dom<E>, e: E, sel: Selectors): RawFields {
    RawFields(
      TrySelectors(dom, e, sel.titleSelectors),
      TrySelectors(dom, e, sel.urlSelectors),
      TrySelectorsAttr(dom, e, sel.imageSelectors, "src"),
      TrySelectors(dom, e, sel.textSelectors),
      TrySelectors(dom, e, sel.dateSelectors))
  }

  /** `ParseListing`'s filter: title, URL, thumbnail and date all found. */
  predicate Kept(f: RawFields) {
    f.title != "" && f.url != "" && f.thumb != "" && f.date != ""
  }

  predicate Emitted<E>(dom: Dom<E>, e: E, sel: Selectors) {
    Kept(Fields(dom, e, sel))
  }

  /**
   * The fallback title the source computes from the card's date and text
   * when no title selector matches. The card's date and text are both still
   * unset at that point, so it is only ever called with two empty strings.
   * `text` is measured in characters here, in bytes in the source.
   */
  function TitleFallback(dateRaw: string, text: string): (r: Option<string>)
    ensures r.None? <==> dateRaw == "" && text == ""
  {
    if dateRaw != "" then Some(dateRaw)
    else if text != "" then
      var t := TrimSpace(text);
      var dot := IndexOf(t, '.');
      var bang := IndexOf(t, '!');
      if dot > 0 then Some(t[..dot])
      else if bang > 0 then Some(t[..bang])
      else if |t| > 500 then Some(t[..500] + "...")
      else Some(t)
    else None
  }

  /** The title fallback never produces a title: a card without one is always skipped. */
  lemma TitleFallbackDead()
    ensures TitleFallback("", "") == None
  {
  }

  /**
   * One iteration of `ParseListing`'s per-card callback on the values looked
   * up: the card, or None when it is skipped.
   */
  function Extract(f: RawFields, sequenceNum: int): (r: Option<Card>)
    ensures r.Some? <==> Kept(f)
    ensures r.Some? ==> r.value.title != "" && r.value.text != "" && r.value.dateRaw != ""
    ensures r.Some? ==> r.value.sequenceNum == sequenceNum
  {
    TitleFallbackDead();
    ExtractBody(f, sequenceNum)
  }

  /** An emitted card holds the values found, URLs normalised, with the title standing in for a missing text. */
  lemma ExtractFields(f: RawFields, sequenceNum: int)
    ensures var r := Extract(f, sequenceNum);
      r.Some? ==>
      && r.value.title == f.title
      && r.value.url == NormalizeUrl(f.url)
      && r.value.thumbnailUrl == NormalizeUrl(f.thumb)
      && r.value.dateRaw == f.date
      && r.value.text != ""
      && (r.value.text == f.text || (f.text == "" && r.value.text == f.title))
      && r.value.sequenceNum == sequenceNum
  {
    TitleFallbackDead();
  }

  function ExtractBody(f: RawFields, sequenceNum: int): Option<Card> {
    var title := if f.title != "" then Some(f.title) else TitleFallback("", "");
    if title.None? then None
    else if f.url == "" then None
    else if f.thumb == "" then None
    else if f.text == "" && title.value == "" then None
    else
      var text := if f.text == "" then title.value else f.text;
      if f.date == "" then None
      else Some(Card(title.value, NormalizeUrl(f.url), NormalizeUrl(f.thumb), text, f.date, sequenceNum))
  }

  /** The cards made from the looked-up values of successive card elements. */
  function Numbered(fs: seq<RawFields>): (r: seq<Card>)
    ensures |r| <= |fs|
    ensures forall i :: 0 <= i < |r| ==>
      r[i].sequenceNum == i && r[i].title != "" && r[i].text != "" && r[i].dateRaw != ""
  {
    if |fs| == 0 then []
    else
      var prev := Numbered(fs[..|fs| - 1]);
      var card := Extract(fs[|fs| - 1], |prev|);
      if card.Some? then prev + [card.value] else prev
  }

  /** The looked-up values of each card element, in document order. */
  function RawsOf<E>(dom: Dom<E>, elems: seq<E>, sel: Selectors): (r: seq<RawFields>)
    ensures |r| == |elems|
    ensures forall i :: 0 <= i < |elems| ==> r[i] == Fields(dom, elems[i], sel)
  {
    seq(|elems|, i requires 0 <= i < |elems| => Fields(dom, elems[i], sel))
  }

  /** The cards `ParseListing` returns for the card elements `elems`. */
  function Listing<E>(dom: Dom<E>, elems: seq<E>, sel: Selectors): seq<Card> {
    Numbered(RawsOf(dom, elems, sel))
  }

  /**
   * `ParseListing` over the elements the card selector matched: each
   * element's values are looked up, then the cards are filtered and numbered.
   */
  method ParseListing<E>(dom: Dom<E>, elems: seq<E>, sel: Selectors) returns (cards: seq<Card>)
    ensures cards == Listing(dom, elems, sel)
    ensures forall i :: 0 <= i < |cards| ==> cards[i].sequenceNum == i
  {
    var fs := RawsOf(dom, elems, sel);
    cards := NumberCards(fs);
  }

  /** The filtering and numbering loop: the sequence number advances only when a card is emitted. */
  method NumberCards(fs: seq<RawFields>) returns (cards: seq<Card>)
    ensures cards == Numbered(fs)
    ensures forall i :: 0 <= i < |cards| ==> cards[i].sequenceNum == i
  {
    cards := [];
    var sequenceNum := 0;
    for i := 0 to |fs|
      invariant cards == Numbered(fs[..i])
      invariant sequenceNum == |cards|
    {
      var card := Extract(fs[i], sequenceNum);
      NumberedStep(fs, i);
      if card.Some? {
        cards := cards + [card.value];
        sequenceNum := sequenceNum + 1;
      }
    }
    assert fs[..|fs|] == fs;
  }

  lemma NumberedStep(fs: seq<RawFields>, i: nat)
    requires i < |fs|
    ensures Extract(fs[i], |Numbered(fs[..i])|).Some? ==>
      Numbered(fs[..i + 1]) == Numbered(fs[..i]) + [Extract(fs[i], |Numbered(fs[..i])|).value]
    ensures Extract(fs[i], |Numbered(fs[..i])|).None? ==> Numbered(fs[..i + 1]) == Numbered(fs[..i])
  {
    assert fs[..i + 1][..i] == fs[..i];
    assert fs[..i + 1][i] == fs[i];
  }

  /**
   * `cards` are the kept entries of `fs`, in order, at positions `ks`, each
   * extracted with its position among them; every entry left out fails the
   * filter.
   */
  predicate Origins(fs: seq<RawFields>, cards: seq<Card>, ks: seq<nat>) {
    && |ks| == |cards|
    && (forall i :: 0 <= i < |ks| ==> ks[i] < |fs| && Extract(fs[ks[i]], i) == Some(cards[i]))
    && (forall i, j :: 0 <= i < j < |ks| ==> ks[i] < ks[j])
    && (forall k :: 0 <= k < |fs| && k !in ks ==> !Kept(fs[k]))
  }

  lemma {:induction false} NumberedOrigins(fs: seq<RawFields>) returns (ks: seq<nat>)
    ensures Origins(fs, Numbered(fs), ks)
    decreases |fs|
  {
    if |fs| == 0 {
      ks := [];
    } else {
      var n := |fs| - 1;
      var init := fs[..n];
      var prev := Numbered(init);
      var ks0 := NumberedOrigins(init);
      var card := Extract(fs[n], |prev|);
      assert fs == init + [fs[n]];
      if card.Some? {
        OriginsEmit(init, fs[n], prev, ks0, card.value);
        ks := ks0 + [n];
      } else {
        OriginsSkip(init, fs[n], prev, ks0);
        ks := ks0;
      }
    }
  }

  lemma OriginsSkip(init: seq<RawFields>, f: RawFields, cards: seq<Card>, ks: seq<nat>)
    requires Origins(init, cards, ks)
    requires !Kept(f)
    ensures Origins(init + [f], cards, ks)
  {
    var fs := init + [f];
    assert forall k :: 0 <= k < |init| ==> fs[k] == init[k];
  }

  lemma OriginsEmit(init: seq<RawFields>, f: RawFields, cards: seq<Card>, ks: seq<nat>, c: Card)
    requires Origins(init, cards, ks)
    requires Extract(f, |cards|) == Some(c)
    ensures Origins(init + [f], cards + [c], ks + [|init|])
  {
    EmitMade(init, f, cards, ks, c);
    EmitOrdered(init, ks);
    EmitLeftOut(init, f, ks);
  }

  lemma EmitMade(init: seq<RawFields>, f: RawFields, cards: seq<Card>, ks: seq<nat>, c: Card)
    requires |ks| == |cards|
    requires forall i :: 0 <= i < |ks| ==> ks[i] < |init| && Extract(init[ks[i]], i) == Some(cards[i])
    requires Extract(f, |cards|) == Some(c)
    ensures var fs, cs, ks2 := init + [f], cards + [c], ks + [|init|];
      forall i :: 0 <= i < |ks2| ==> ks2[i] < |fs| && Extract(fs[ks2[i]], i) == Some(cs[i])
  {
    var fs, cs, ks2 := init + [f], cards + [c], ks + [|init|];
    forall i | 0 <= i < |ks2| ensures ks2[i] < |fs| && Extract(fs[ks2[i]], i) == Some(cs[i]) {
      if i < |ks| {
        assert ks2[i] == ks[i] && fs[ks[i]] == init[ks[i]] && cs[i] == cards[i];
      } else {
        assert ks2[i] == |init| && fs[|init|] == f && cs[i] == c;
      }
    }
  }

  lemma EmitOrdered(init: seq<RawFields>, ks: seq<nat>)
    requires forall i :: 0 <= i < |ks| ==> ks[i] < |init|
    requires forall i, j :: 0 <= i < j < |ks| ==> ks[i] < ks[j]
    ensures var ks2 := ks + [|init|];
      forall i, j :: 0 <= i < j < |ks2| ==> ks2[i] < ks2[j]
  {
  }

  lemma EmitLeftOut(init: seq<RawFields>, f: RawFields, ks: seq<nat>)
    requires forall k :: 0 <= k < |init| && k !in ks ==> !Kept(init[k])
    ensures var fs, ks2 := init + [f], ks + [|init|];
      forall k :: 0 <= k < |fs| && k !in ks2 ==> !Kept(fs[k])
  {
    var fs, ks2 := init + [f], ks + [|init|];
    forall k | 0 <= k < |fs| && k !in ks2 ensures !Kept(fs[k]) {
      assert ks2[|ks|] == |init|;
      assert k !in ks by {
        assert forall x :: x in ks ==> x in ks2;
      }
      assert fs[k] == init[k];
    }
  }

  /**
   * The listing is the emitted card elements, in document order, each made
   * into a card numbered by its position among them; every element left out
   * fails the filter.
   */
  lemma ListingOrigins<E>(dom: Dom<E>, elems: seq<E>, sel: Selectors) returns (ks: seq<nat>)
    ensures |ks| == |Listing(dom, elems, sel)|
    ensures forall i :: 0 <= i < |ks| ==> (ks[i] < |elems|
      && Extract(Fields(dom, elems[ks[i]], sel), i) == Some(Listing(dom, elems, sel)[i]))
    ensures forall i, j :: 0 <= i < j < |ks| ==> ks[i] < ks[j]
    ensures forall k :: 0 <= k < |elems| && k !in ks ==> !Emitted(dom, elems[k], sel)
  {
    ks := NumberedOrigins(RawsOf(dom, elems, sel));
  }

  /** How many of the entries are kept, counted like `Numbered` from the last entry back. */
  function KeptCount(fs: seq<RawFields>): nat {
    if |fs| == 0 then 0
    else KeptCount(fs[..|fs| - 1]) + (if Kept(fs[|fs| - 1]) then 1 else 0)
  }

  /** One card per kept entry: skipped entries consume no sequence number. */
  lemma {:induction false} NumberedCount(fs: seq<RawFields>)
    ensures |Numbered(fs)| == KeptCount(fs)
    decreases |fs|
  {
    if |fs| > 0 {
      NumberedCount(fs[..|fs| - 1]);
    }
  }

  // ---------------------------------------------------------------------------
  // `FindNextPageLink`.

  /** What one next-page entry yields: the attribute it names, `href` unless it says otherwise. */
  function NextLinkValue<E>(dom: Dom<E>, doc: E, selector: string): string {
    var (s, a) := SplitAttr(selector, "href");
    AttrOrEmpty(dom, doc, s, a)
  }

  predicate NextMissesBefore<E>(dom: Dom<E>, doc: E, selectors: seq<string>, k: int)
    requires k <= |selectors|
  {
    forall j :: 0 <= j < k ==> NextLinkValue(dom, doc, selectors[j]) == ""
  }

  /**
   * `FindNextPageLink`: the normalised value of the first entry that yields
   * one, else "" (no next page, not an error).
   */
  function FindNextPageLink<E>(dom: Dom<E>, doc: E, selectors: seq<string>): (r: string)
    ensures '#' !in r
    ensures NextMissesBefore(dom, doc, selectors, |selectors|) ==> r == ""
    ensures forall k :: (0 <= k < |selectors| && NextMissesBefore(dom, doc, selectors, k)
      && NextLinkValue(dom, doc, selectors[k]) != "") ==> r == NormalizeUrl(NextLinkValue(dom, doc, selectors[k]))
    decreases |selectors|
  {
    if |selectors| == 0 then ""
    else
      var href := NextLinkValue(dom, doc, selectors[0]);
      if href != "" then NormalizeUrl(href)
      else
        var r := FindNextPageLink(dom, doc, selectors[1..]);
        NextMissesShift(dom, doc, selectors);
        r
  }

  lemma NextMissesShift<E>(dom: Dom<E>, doc: E, selectors: seq<string>)
    requires |selectors| > 0 && NextLinkValue(dom, doc, selectors[0]) == ""
    ensures forall k :: 1 <= k <= |selectors| ==>
      (NextMissesBefore(dom, doc, selectors, k) <==> NextMissesBefore(dom, doc, selectors[1..], k - 1))
  {
    assert forall j :: 0 <= j < |selectors| - 1 ==> selectors[1..][j] == selectors[j + 1];
  }

  /**
   * Unlike `trySelectorsAttr`, the attribute is reset for every entry: the
   * entries after a miss behave as if the earlier ones were absent.
   */
  lemma {:induction false} NextLinkAppend<E>(dom: Dom<E>, doc: E, a: seq<string>, b: seq<string>)
    requires NextMissesBefore(dom, doc, a, |a|)
    ensures FindNextPageLink(dom, doc, a + b) == FindNextPageLink(dom, doc, b)
    decreases |a|
  {
    if |a| > 0 {
      assert (a + b)[0] == a[0];
      assert (a + b)[1..] == a[1..] + b;
      assert NextMissesBefore(dom, doc, a[1..], |a| - 1) by {
        assert forall j :: 0 <= j < |a| - 1 ==> a[1..][j] == a[j + 1];
      }
      NextLinkAppend(dom, doc, a[1..], b);
    } else {
      assert a + b == b;
    }
  }
}
