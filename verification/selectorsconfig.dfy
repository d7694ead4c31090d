/**
 * The selectors file of a language: which configured path is used, how a
 * relative path is placed under `configs`, the empty-path check, and the
 * validation of the loaded selectors (the first missing field is reported).
 * Reading and decoding the YAML file is an abstract loader.
 */
module SelectorsConfig {
  import opened Common
  import opened Strings
  import Config
  import Scraper

  // ---------------------------------------------------------------------------
  // `validateSelectors`.

  /** The selector fields that must be present, in the order they are checked. */
  datatype Field =
    | CardSelectors
    | TitleSelectors
    | UrlSelectors
    | ImageSelectors
    | TextSelectors
    | DateSelectors
    | NextPageLink

  const CheckOrder: seq<Field> :=
    [CardSelectors, TitleSelectors, UrlSelectors, ImageSelectors, TextSelectors, DateSelectors, NextPageLink]

  /** Where a field stands in the check order. */
  function Position(f: Field): (k: nat)
    ensures k < |CheckOrder| && CheckOrder[k] == f
  {
    match f
    case CardSelectors => 0
    case TitleSelectors => 1
    case UrlSelectors => 2
    case ImageSelectors => 3
    case TextSelectors => 4
    case DateSelectors => 5
    case NextPageLink => 6
  }

  /** The YAML key of a field, as it appears in the "... is required" message. */
  function FieldName(f: Field): string {
    match f
    case CardSelectors => "card_selectors"
    case TitleSelectors => "title_selectors"
    case UrlSelectors => "url_selectors"
    case ImageSelectors => "image_selectors"
    case TextSelectors => "text_selectors"
    case DateSelectors => "date_selectors"
    case NextPageLink => "next_page_link"
  }

  /** A field is present when the string is non-empty or the list has an entry. */
  predicate Present(s: Scraper.Selectors, f: Field) {
    match f
    case CardSelectors => s.cardSelectors != ""
    case TitleSelectors => |s.titleSelectors| > 0
    case UrlSelectors => |s.urlSelectors| > 0
    case ImageSelectors => |s.imageSelectors| > 0
    case TextSelectors => |s.textSelectors| > 0
    case DateSelectors => |s.dateSelectors| > 0
    case NextPageLink => |s.nextPageLink| > 0
  }

  /** The check chain: the first missing field, or `None`. */
  function ValidateSelectors(s: Scraper.Selectors): (r: Option<Field>)
    ensures r.Some? ==> !Present(s, r.value)
  {
    if s.cardSelectors == "" then Some(CardSelectors)
    else if |s.titleSelectors| == 0 then Some(TitleSelectors)
    else if |s.urlSelectors| == 0 then Some(UrlSelectors)
    else if |s.imageSelectors| == 0 then Some(ImageSelectors)
    else if |s.textSelectors| == 0 then Some(TextSelectors)
    else if |s.dateSelectors| == 0 then Some(DateSelectors)
    else if |s.nextPageLink| == 0 then Some(NextPageLink)
    else None
  }

  /** The error message of a missing field. */
  function MissingMessage(f: Field): string {
    FieldName(f) + " is required"
  }

  /**
   * The selectors pass exactly when every field is present; otherwise the
   * reported field is missing and every field checked before it is present.
   */
  lemma ValidateSelectorsFirstMissing(s: Scraper.Selectors)
    ensures ValidateSelectors(s).None? <==> forall k :: 0 <= k < |CheckOrder| ==> Present(s, CheckOrder[k])
    ensures ValidateSelectors(s).Some? ==>
      exists k :: 0 <= k < |CheckOrder| && CheckOrder[k] == ValidateSelectors(s).value
        && forall j :: 0 <= j < k ==> Present(s, CheckOrder[j])
  {
    var r := ValidateSelectors(s);
    if r.None? {
      forall k | 0 <= k < |CheckOrder| ensures Present(s, CheckOrder[k]) {
        assert CheckOrder[k] in CheckOrder;
      }
    } else {
      var k := Position(r.value);
      assert CheckOrder[k] == r.value;
      assert forall j :: 0 <= j < k ==> Present(s, CheckOrder[j]);
    }
  }

  // ---------------------------------------------------------------------------
  // `filepath.IsAbs`, `filepath.Join` and the lexical clean it applies (Unix).

  predicate IsAbs(p: string) {
    |p| > 0 && p[0] == '/'
  }

  /**
   * The stack of segments after reading `segs`: empty and "." segments are
   * dropped, ".." removes the segment before it unless that is itself "..".
   */
  function Resolve(segs: seq<string>, stack: seq<string>): seq<string>
    decreases |segs|
  {
    if |segs| == 0 then stack
    else
      var s := segs[0];
      if s == "" || s == "." then Resolve(segs[1..], stack)
      else if s == ".." && |stack| > 0 && stack[|stack| - 1] != ".." then Resolve(segs[1..], stack[..|stack| - 1])
      else Resolve(segs[1..], stack + [s])
  }

  /** `filepath.Clean` of a relative path. */
  function CleanRelative(p: string): (r: string)
    ensures r != ""
  {
    var kept := Resolve(Split(p, '/'), []);
    if Join(kept, '/') == "" then "." else Join(kept, '/')
  }

  /** `filepath.Join(dir, p)` for a relative directory: empty elements are ignored, the result is cleaned. */
  function JoinPath(dir: string, p: string): string {
    if p == "" then CleanRelative(dir) else CleanRelative(dir + "/" + p)
  }

  /** A segment that the clean keeps as it is. */
  predicate PlainSegment(s: string) {
    s != "" && s != "." && s != ".." && '/' !in s
  }

  /** A relative path already in clean form: non-empty plain segments between single slashes. */
  predicate PlainPath(p: string) {
    forall k :: 0 <= k < |Split(p, '/')| ==> PlainSegment(Split(p, '/')[k])
  }

  lemma {:induction false} ResolvePlain(segs: seq<string>, stack: seq<string>)
    requires forall k :: 0 <= k < |segs| ==> PlainSegment(segs[k])
    ensures Resolve(segs, stack) == stack + segs
    decreases |segs|
  {
    if |segs| > 0 {
      ResolvePlain(segs[1..], stack + [segs[0]]);
      assert stack + [segs[0]] + segs[1..] == stack + segs;
    }
  }

  /** Splitting a separator-free head, a separator and a tail. */
  lemma SplitCons(a: string, b: string)
    requires '/' !in a
    ensures Split(a + "/" + b, '/') == [a] + Split(b, '/')
  {
    var s := a + "/" + b;
    assert s[|a|] == '/';
    assert s[..|a|] == a;
    IndexOfFirst(s, a);
    assert s[|a| + 1..] == b;
  }

  lemma IndexOfFirst(s: string, a: string)
    requires '/' !in a && |a| < |s| && s[..|a|] == a && s[|a|] == '/'
    ensures IndexOf(s, '/') == |a|
  {
    assert forall k :: 0 <= k < |a| ==> s[k] == a[k];
  }

  /** Joining `configs` and a path already in clean form puts it under `configs/`. */
  lemma JoinPlain(p: string)
    requires p != "" && PlainPath(p)
    ensures JoinPath("configs", p) == "configs/" + p
  {
    var segs := Split(p, '/');
    assert '/' !in "configs";
    SplitCons("configs", p);
    assert "configs" + "/" + p == "configs/" + p;
    ResolvePlain(["configs"] + segs, []);
    assert Resolve(["configs"] + segs, []) == ["configs"] + segs;
    assert (["configs"] + segs)[1..] == segs;
    assert Join(["configs"] + segs, '/') == "configs" + "/" + Join(segs, '/');
  }

  // ---------------------------------------------------------------------------
  // `LoadSelectorsForLanguage` and `LoadSelectors`.

  /** Why loading failed. */
  datatype LoadError =
    | UnsupportedLanguage(lang: string)
    | EmptyPath
    | ReadFailed(path: string, reason: string)
    | Invalid(missing: Field)

  /** The file-system stat, open and YAML decode of one path, as one abstract step. */
  type Loader = string -> Result<Scraper.Selectors, string>

  /** `LoadSelectors`: the empty-path check comes before the loader is consulted. */
  function LoadSelectors(path: string, load: Loader): (r: Result<Scraper.Selectors, LoadError>)
    ensures path == "" <==> r == Err(EmptyPath)
    ensures r.Ok? ==> load(path) == Ok(r.value) && ValidateSelectors(r.value).None?
  {
    if path == "" then Err(EmptyPath)
    else
      match load(path)
      case Err(e) => Err(ReadFailed(path, e))
      case Ok(s) =>
        match ValidateSelectors(s)
        case Some(f) => Err(Invalid(f))
        case None => Ok(s)
  }

  /** The configured path of a language: "ky" and "ru" only. */
  function ConfiguredPath(c: Config.Config, lang: string): (r: Result<string, LoadError>)
    ensures lang == "ky" ==> r == Ok(c.selectorsFile.ky)
    ensures lang == "ru" ==> r == Ok(c.selectorsFile.ru)
    ensures lang != "ky" && lang != "ru" ==> r == Err(UnsupportedLanguage(lang))
  {
    if lang == "ky" then Ok(c.selectorsFile.ky)
    else if lang == "ru" then Ok(c.selectorsFile.ru)
    else Err(UnsupportedLanguage(lang))
  }

  /** The path handed to `LoadSelectors`: an absolute path as is, a relative one joined under `configs`. */
  function SelectorsPath(c: Config.Config, lang: string): Result<string, LoadError> {
    match ConfiguredPath(c, lang)
    case Err(e) => Err(e)
    case Ok(p) => Ok(if IsAbs(p) then p else JoinPath("configs", p))
  }

  function LoadSelectorsForLanguage(c: Config.Config, lang: string, load: Loader): Result<Scraper.Selectors, LoadError> {
    match SelectorsPath(c, lang)
    case Err(e) => Err(e)
    case Ok(path) => LoadSelectors(path, load)
  }

  /** An unsupported language fails without touching the file system. */
  lemma UnsupportedLanguageFails(c: Config.Config, lang: string, load: Loader)
    requires lang != "ky" && lang != "ru"
    ensures LoadSelectorsForLanguage(c, lang, load) == Err(UnsupportedLanguage(lang))
  {
  }

  /** An empty path fails the same way whatever the file system holds. */
  lemma EmptyPathBeforeLoad(load1: Loader, load2: Loader)
    ensures LoadSelectors("", load1) == LoadSelectors("", load2) == Err(EmptyPath)
  {
  }

  /** The path used for a language: its configured file, absolute as is, relative in clean form under `configs/`. */
  lemma SelectorsPathShape(c: Config.Config, lang: string)
    requires lang == "ky" || lang == "ru"
    ensures var p := if lang == "ky" then c.selectorsFile.ky else c.selectorsFile.ru;
      && (IsAbs(p) ==> SelectorsPath(c, lang) == Ok(p))
      && (p != "" && PlainPath(p) && !IsAbs(p) ==> SelectorsPath(c, lang) == Ok("configs/" + p))
  {
    var p := if lang == "ky" then c.selectorsFile.ky else c.selectorsFile.ru;
    if p != "" && PlainPath(p) && !IsAbs(p) {
      JoinPlain(p);
    }
  }

  /**
   * An empty configured path is relative, so it is joined into `configs`;
   * `LoadSelectors` then gets a non-empty path and its empty-path check never
   * fires for a language's file.
   */
  lemma EmptyConfiguredPathReachesLoader(c: Config.Config, lang: string, load: Loader)
    requires (lang == "ru" && c.selectorsFile.ru == "") || (lang == "ky" && c.selectorsFile.ky == "")
    ensures SelectorsPath(c, lang) == Ok("configs")
    ensures LoadSelectorsForLanguage(c, lang, load) != Err(EmptyPath)
  {
    EmptyJoinsToConfigs();
    assert ConfiguredPath(c, lang) == Ok("");
  }

  /** Joining `configs` and the empty path gives `configs`. */
  lemma EmptyJoinsToConfigs()
    ensures JoinPath("configs", "") == "configs"
  {
    assert Split("configs", '/') == ["configs"] by {
      assert IndexOf("configs", '/') == -1;
    }
    assert Resolve(["configs"], []) == ["configs"];
  }
}
