/**
 * Interface language: choosing the initial locale, looking a message up with
 * its fallbacks, filling `{name}` placeholders, and keeping the stored
 * preference and the page's `lang` attribute in step with the current locale.
 * The message tables are abstract maps.
 */
module I18n {
  import opened Wrappers
  import opened Text

  datatype Locale = En | Zh | Ja

  function LocaleCode(l: Locale): string {
    match l
    case En => "en"
    case Zh => "zh"
    case Ja => "ja"
  }

  /** A stored preference is honoured only when it is exactly one of the three codes. */
  function ParseLocale(s: string): (r: Option<Locale>)
    ensures r.Some? ==> LocaleCode(r.value) == s
    ensures r.None? ==> s != "en" && s != "zh" && s != "ja"
  {
    if s == "en" then Some(En)
    else if s == "zh" then Some(Zh)
    else if s == "ja" then Some(Ja)
    else None
  }

  /**
   * The locale at start-up: English without a window; otherwise a valid
   * saved choice; otherwise Chinese or Japanese when the lower-cased browser
   * language starts with "zh" or "ja"; English in every other case.
   */
  function ResolveInitialLocale(hasWindow: bool, saved: Option<string>, browserLanguage: string): (r: Locale)
    ensures !hasWindow ==> r == En
    ensures hasWindow && saved.Some? && ParseLocale(saved.value).Some? ==> r == ParseLocale(saved.value).value
    ensures hasWindow && (saved.None? || ParseLocale(saved.value).None?) ==>
      (r == Zh <==> StartsWith(Lower(browserLanguage), "zh")) &&
      (r == Ja <==> !StartsWith(Lower(browserLanguage), "zh") && StartsWith(Lower(browserLanguage), "ja"))
  {
    if !hasWindow then En
    else if saved.Some? && ParseLocale(saved.value).Some? then ParseLocale(saved.value).value
    else
      var browser := Lower(browserLanguage);
      if StartsWith(browser, "zh") then Zh
      else if StartsWith(browser, "ja") then Ja
      else En
  }

  /** The page's `lang` attribute for a locale: Traditional Chinese is tagged `zh-Hant`. */
  function LangAttribute(l: Locale): (r: string)
    ensures StartsWith(r, LocaleCode(l))
  {
    match l
    case Zh => "zh-Hant"
    case Ja => "ja"
    case En => "en"
  }

  /** Different locales get different `lang` attributes. */
  lemma LangAttributeInjective(a: Locale, b: Locale)
    requires LangAttribute(a) == LangAttribute(b)
    ensures a == b
  {
  }

  /** A locale that was saved is the one chosen at the next start-up, whatever the browser says. */
  lemma SavedLocaleWins(l: Locale, browserLanguage: string)
    ensures ResolveInitialLocale(true, Some(LocaleCode(l)), browserLanguage) == l
  {
  }

  // Placeholder substitution

  /** The length of the run of `\w` characters at the start of `s`. */
  function WordRun(s: string): (n: nat)
    ensures n <= |s|
    ensures forall i :: 0 <= i < n ==> IsWordChar(s[i])
    ensures n == |s| || !IsWordChar(s[n])
  {
    if |s| == 0 || !IsWordChar(s[0]) then 0 else 1 + WordRun(s[1..])
  }

  /**
   * When `s` starts with a match of `\{(\w+)\}`, the length of that match.
   * The word run is greedy, so a match exists exactly when the longest run
   * is non-empty and is followed by `}`.
   */
  function PlaceholderEnd(s: string): (r: Option<nat>)
    ensures r.Some? ==> 3 <= r.value <= |s| && s[0] == '{' && s[r.value - 1] == '}'
    ensures r.Some? ==> forall i :: 1 <= i < r.value - 1 ==> IsWordChar(s[i])
  {
    if |s| == 0 || s[0] != '{' then None
    else
      var n := WordRun(s[1..]);
      if n > 0 && n + 1 < |s| && s[n + 1] == '}' then Some(n + 2) else None
  }

  /** `params[key] ?? ''`. */
  function Param(params: map<string, string>, key: string): string {
    if key in params then params[key] else ""
  }

  /**
   * Every placeholder replaced, scanning left to right; other text copied as
   * it is. Text without `{` has nothing to substitute.
   */
  function Substitute(s: string, params: map<string, string>): (r: string)
    ensures '{' !in s ==> r == s
    decreases |s|
  {
    if |s| == 0 then []
    else
      match PlaceholderEnd(s)
      case Some(e) => Param(params, s[1..e - 1]) + Substitute(s[e..], params)
      case None =>
        assert s == [s[0]] + s[1..];
        [s[0]] + Substitute(s[1..], params)
  }

  /** `interpolate`: the template as it is without parameters, with its placeholders filled otherwise. */
  function Interpolate(template: string, params: Option<map<string, string>>): (r: string)
    ensures params.None? ==> r == template
    ensures '{' !in template ==> r == template
  {
    if params.None? then template
    else Substitute(template, params.value)
  }

  /** Text without `{` in front of a template is copied, and the rest is substituted on its own. */
  lemma {:induction false} SubstituteLiteralPrefix(a: string, b: string, params: map<string, string>)
    requires '{' !in a
    ensures Substitute(a + b, params) == a + Substitute(b, params)
    decreases |a|
  {
    if |a| > 0 {
      var s := a + b;
      assert s[0] == a[0] && s[1..] == a[1..] + b;
      assert a[0] != '{' by { assert a[0] in a; }
      assert PlaceholderEnd(s).None?;
      assert '{' !in a[1..] by { assert a == [a[0]] + a[1..]; }
      assert Substitute(s, params) == [a[0]] + Substitute(a[1..] + b, params);
      SubstituteLiteralPrefix(a[1..], b, params);
      assert a == [a[0]] + a[1..];
      assert [a[0]] + (a[1..] + Substitute(b, params)) == a + Substitute(b, params);
    } else {
      assert a + b == b;
    }
  }

  /** The longest word run stops at a character that is not a word character. */
  lemma {:induction false} WordRunOf(w: string, rest: string)
    requires forall i :: 0 <= i < |w| ==> IsWordChar(w[i])
    requires |rest| > 0 && !IsWordChar(rest[0])
    ensures WordRun(w + rest) == |w|
    decreases |w|
  {
    if |w| > 0 {
      assert (w + rest)[1..] == w[1..] + rest;
      WordRunOf(w[1..], rest);
    }
  }

  /**
   * A placeholder `{w}` is replaced by the parameter `w`, or by nothing when
   * there is no such parameter, and the text after it is substituted on its own.
   */
  lemma SubstitutePlaceholder(w: string, rest: string, params: map<string, string>)
    requires |w| > 0 && forall i :: 0 <= i < |w| ==> IsWordChar(w[i])
    ensures Substitute("{" + w + "}" + rest, params) == Param(params, w) + Substitute(rest, params)
  {
    var s := "{" + w + "}" + rest;
    assert s[1..] == w + ("}" + rest);
    WordRunOf(w, "}" + rest);
    assert PlaceholderEnd(s) == Some(|w| + 2);
    assert s[1..|w| + 1] == w;
    assert s[|w| + 2..] == rest;
  }

  /**
   * A `{` that does not open a placeholder (no word characters, or a word
   * run not closed by `}`) is copied, and scanning resumes right after it.
   */
  lemma UnmatchedBraceKept(w: string, c: char, rest: string, params: map<string, string>)
    requires forall i :: 0 <= i < |w| ==> IsWordChar(w[i])
    requires !IsWordChar(c) && (|w| == 0 || c != '}')
    ensures Substitute("{" + w + [c] + rest, params) == "{" + Substitute(w + [c] + rest, params)
  {
    var s := "{" + w + [c] + rest;
    assert s[1..] == w + ([c] + rest);
    WordRunOf(w, [c] + rest);
    assert s[|w| + 1] == c;
    assert PlaceholderEnd(s).None?;
    assert s[0] == '{' && s[1..] == w + [c] + rest;
    assert Substitute(s, params) == [s[0]] + Substitute(s[1..], params);
  }

  /**
   * A `{` whose word run reaches the end of the template has no closing `}`,
   * so it is copied and so is the run after it (`"Cost: {"`, `"a {b"`).
   */
  lemma UnmatchedBraceAtEnd(w: string, params: map<string, string>)
    requires forall i :: 0 <= i < |w| ==> IsWordChar(w[i])
    ensures Substitute("{" + w, params) == "{" + w
  {
    var s := "{" + w;
    assert s[1..] == w;
    assert WordRun(w) == |w|;
    assert PlaceholderEnd(s).None?;
    assert Substitute(s, params) == [s[0]] + Substitute(s[1..], params);
  }

  /**
   * A message of the shape `"Moved to {status}"`: literal text ending in one
   * placeholder comes out as that text followed by the parameter's value.
   */
  lemma FillsTrailingPlaceholder(text: string, w: string, value: string)
    requires '{' !in text
    requires |w| > 0 && forall i :: 0 <= i < |w| ==> IsWordChar(w[i])
    ensures Interpolate(text + "{" + w + "}", Some(map[w := value])) == text + value
  {
    var params := map[w := value];
    assert text + "{" + w + "}" == text + ("{" + w + "}" + "");
    SubstituteLiteralPrefix(text, "{" + w + "}" + "", params);
    SubstitutePlaceholder(w, "", params);
  }

  // Message lookup

  /** The three message tables, keyed by message id. */
  datatype Catalog = Catalog(en: map<string, string>, zh: map<string, string>, ja: map<string, string>)

  function Table(c: Catalog, l: Locale): map<string, string> {
    match l
    case En => c.en
    case Zh => c.zh
    case Ja => c.ja
  }

  /** The template `t` uses: the locale's message, else the English one, else the key itself. */
  function Template(c: Catalog, l: Locale, key: string): (r: string)
    ensures key in Table(c, l) ==> r == Table(c, l)[key]
    ensures key !in Table(c, l) && key in c.en ==> r == c.en[key]
    ensures key !in Table(c, l) && key !in c.en ==> r == key
  {
    if key in Table(c, l) then Table(c, l)[key]
    else if key in c.en then c.en[key]
    else key
  }

  /** `t(key, params)`. */
  function Translate(c: Catalog, l: Locale, key: string, params: Option<map<string, string>>): (r: string)
    ensures params.None? ==> r == Template(c, l, key)
    ensures '{' !in Template(c, l, key) ==> r == Template(c, l, key)
  {
    Interpolate(Template(c, l, key), params)
  }

  /** A key no table knows, and which has no `{`, is shown as itself whatever the parameters. */
  lemma UnknownKeyShownAsItself(c: Catalog, l: Locale, key: string, params: Option<map<string, string>>)
    requires key !in Table(c, l) && key !in c.en && '{' !in key
    ensures Translate(c, l, key, params) == key
  {
  }

  /** In English, only the English table is consulted. */
  lemma EnglishUsesEnglishTable(c: Catalog, key: string)
    ensures Template(c, En, key) == if key in c.en then c.en[key] else key
  {
  }

  /**
   * The current locale together with what was last written to storage and to
   * the page's `lang` attribute. Each change of locale runs the watcher:
   * store the code when there is a window, set `lang` when there is a document.
   */
  class LocaleSettings {
    var locale: Locale
    var stored: Option<string>
    var lang: Option<string>

    /** Resolves the initial locale and runs the watcher once immediately. */
    constructor(hasWindow: bool, hasDocument: bool, saved: Option<string>, browserLanguage: string)
      ensures locale == ResolveInitialLocale(hasWindow, saved, browserLanguage)
      ensures stored == if hasWindow then Some(LocaleCode(locale)) else saved
      ensures lang == if hasDocument then Some(LangAttribute(locale)) else None
    {
      locale := ResolveInitialLocale(hasWindow, saved, browserLanguage);
      stored := saved;
      lang := None;
      new;
      Apply(hasWindow, hasDocument);
    }

    /** Switches the locale and runs the watcher. */
    method SetLocale(value: Locale, hasWindow: bool, hasDocument: bool)
      modifies this
      ensures locale == value
      ensures stored == if hasWindow then Some(LocaleCode(value)) else old(stored)
      ensures lang == if hasDocument then Some(LangAttribute(value)) else old(lang)
    {
      locale := value;
      Apply(hasWindow, hasDocument);
    }

    /** The watcher: persist the code and update the `lang` attribute. */
    method Apply(hasWindow: bool, hasDocument: bool)
      modifies this
      ensures locale == old(locale)
      ensures stored == if hasWindow then Some(LocaleCode(locale)) else old(stored)
      ensures lang == if hasDocument then Some(LangAttribute(locale)) else old(lang)
    {
      if hasWindow {
        stored := Some(LocaleCode(locale));
      }
      if hasDocument {
        lang := Some(LangAttribute(locale));
      }
    }
  }
}
