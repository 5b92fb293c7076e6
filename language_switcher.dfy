/**
 * The link target of the language switcher component: the current path with its
 * locale prefix removed, and the locale to switch to.
 */
module LanguageSwitcher {
  import opened Wrappers
  import opened JsStrings
  import opened Regex
  import opened Locales
  import I18n

  /** `^\/[a-z]{2}`. */
  const LocalePrefixPattern: seq<Term> := [One(Single('/')), Rep(Range('a', 'z'), 2, 2)]

  /** A slash followed by two lower-case ASCII letters, whatever comes next. */
  predicate HasLocalePrefix(p: string) {
    |p| >= 3 && p[0] == '/' && IsAsciiLower(p[1]) && IsAsciiLower(p[2])
  }

  /** The pattern accepts exactly the three-character strings `/` + two lower-case letters. */
  lemma {:induction false} LocalePrefixPatternMatches(s: string)
    requires |s| == 3
    ensures Matches(LocalePrefixPattern, s) <==> HasLocalePrefix(s)
  {
    var re := LocalePrefixPattern;
    assert re[1..] == [re[1]];
    MatchOne(re[1], s[1..]);
    if Matches(re, s) {
      var n :| 0 <= n <= |s| && Fits(re[0], n) && AllIn(s[..n], re[0].cls) && Matches(re[1..], s[n..]);
      assert n == 1 && s[..n][0] == s[0];
      assert s[1..][0] == s[1] && s[1..][1] == s[2];
    }
    if HasLocalePrefix(s) {
      assert s[..1][0] == s[0];
      assert AllIn(s[1..], re[1].cls) by {
        assert s[1..][0] == s[1] && s[1..][1] == s[2];
      }
      MatchStep(re, s, 1);
    }
  }

  /**
   * `pathname.replace(/^\/[a-z]{2}/, '')`: removes a leading slash and two lower-case
   * letters. It does not look at segment boundaries, so "/about" loses "/ab".
   */
  function StripLocalePrefix(pathname: string): (r: string)
    ensures HasLocalePrefix(pathname) ==> r == pathname[3..]
    ensures !HasLocalePrefix(pathname) ==> r == pathname
  {
    if |pathname| >= 3 then LocalePrefixPatternMatches(pathname[..3]); (
    if |pathname| >= 3 && Matches(LocalePrefixPattern, pathname[..3]) then pathname[3..] else pathname)
    else pathname
  }

  /** `pathWithoutLocale`: the stripped path, or "/" when nothing is left. */
  function PathWithoutLocale(pathname: string): (r: string)
    ensures r != []
    ensures HasLocalePrefix(pathname) && |pathname| > 3 ==> r == pathname[3..]
    ensures !HasLocalePrefix(pathname) && pathname != [] ==> r == pathname
    ensures pathname == [] || (HasLocalePrefix(pathname) && |pathname| == 3) ==> r == "/"
  {
    var stripped := StripLocalePrefix(pathname);
    if stripped == [] then "/" else stripped
  }

  /** The stripping is not segment-aware: a path without a locale loses its first two letters. */
  lemma NotSegmentAware()
    ensures PathWithoutLocale("/about") == "out"
  {
    assert HasLocalePrefix("/about");
    assert "/about"[3..] == "out";
  }

  /** One entry of the switcher's language list. */
  datatype LanguageOption = LanguageOption(code: string, name: string, englishLabel: string)

  /** The switcher's own list, Persian first. */
  const SwitcherLanguages: seq<LanguageOption> := [
    LanguageOption("fa", "فارسی", "Persian"),
    LanguageOption("en", "English", "English")
  ]

  /** The index `langs.find(lang => lang.code !== current)` stops at, or -1. */
  function FindOtherIndex(langs: seq<LanguageOption>, current: string): (i: int)
    ensures -1 <= i < |langs|
    ensures i >= 0 ==> langs[i].code != current
    ensures forall j | 0 <= j < |langs| && (i < 0 || j < i) :: langs[j].code == current
  {
    if langs == [] then -1
    else if langs[0].code != current then 0
    else
      var i := FindOtherIndex(langs[1..], current);
      if i < 0 then -1 else i + 1
  }

  /** `langs.find(lang => lang.code !== current)`. */
  function FindOther(langs: seq<LanguageOption>, current: string): (r: Option<LanguageOption>)
    ensures r.Some? ==> r.value in langs && r.value.code != current
    ensures r.None? <==> forall j | 0 <= j < |langs| :: langs[j].code == current
  {
    var i := FindOtherIndex(langs, current);
    if i < 0 then None else Some(langs[i])
  }

  /** `otherLanguage`: English from Persian, Persian from anything else; never absent. */
  function OtherLanguage(currentLocale: string): (r: Option<LanguageOption>)
    ensures r.Some?
    ensures r.value.code == if currentLocale == "fa" then "en" else "fa"
    ensures r.value in SwitcherLanguages
  {
    FindOther(SwitcherLanguages, currentLocale)
  }

  /**
   * The link target, `/${otherLanguage.code}${pathWithoutLocale}`; `None` stands for
   * the component rendering nothing, which cannot happen.
   */
  function SwitchHref(pathname: string, currentLocale: string): (r: Option<string>)
    ensures r.Some?
    ensures "/fa" <= r.value || "/en" <= r.value
    ensures r.value[..3] == "/" + (if currentLocale == "fa" then "en" else "fa")
    ensures r.value[3..] == PathWithoutLocale(pathname)
  {
    match OtherLanguage(currentLocale)
    case None => None
    case Some(other) => Some("/" + other.code + PathWithoutLocale(pathname))
  }

  /** Switching twice from a prefixed path with something after the prefix returns to it. */
  lemma {:induction false} SwitchTwice(current: string, rest: string)
    requires current == "fa" || current == "en"
    requires rest != []
    ensures var other := if current == "fa" then "en" else "fa";
      SwitchHref("/" + current + rest, current) == Some("/" + other + rest)
      && SwitchHref("/" + other + rest, other) == Some("/" + current + rest)
  {
    var other := if current == "fa" then "en" else "fa";
    var p := "/" + current + rest;
    var q := "/" + other + rest;
    assert HasLocalePrefix(p) && p[3..] == rest;
    assert HasLocalePrefix(q) && q[3..] == rest;
    var h1 := SwitchHref(p, current).value;
    assert h1 == h1[..3] + h1[3..];
    var h2 := SwitchHref(q, other).value;
    assert h2 == h2[..3] + h2[3..];
  }

  /** Removing the prefix from an English localized path gives the path back. */
  lemma LocalizedPathStrips(path: string)
    requires path != [] && path[0] == '/'
    ensures PathWithoutLocale(I18n.GetLocalizedPath(path, En)) == path
  {
    var p := I18n.GetLocalizedPath(path, En);
    assert HasLocalePrefix(p);
    if path != "/" {
      assert |p| > 3;
    }
  }
}
