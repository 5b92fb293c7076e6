/**
 * The locale set and request configuration of `src/i18n.ts`: which locale codes
 * the site serves, the rejection of any other code, and the text direction.
 */
module Locales {
  import opened Wrappers

  /** The supported locales; `Fa` (Persian) is the default. */
  datatype Locale = Fa | En

  datatype Direction = Rtl | Ltr

  /** The code of a locale as it appears in paths and in `locales`. */
  function Code(l: Locale): (code: string)
    ensures |code| == 2
  {
    match l
    case Fa => "fa"
    case En => "en"
  }

  /** `locales`, in declared order, the default first. */
  const SupportedLocales: seq<Locale> := [Fa, En]

  const DefaultLocale: Locale := Fa

  /** Distinct locales have distinct codes, so a code names at most one locale. */
  lemma CodeInjective(a: Locale, b: Locale)
    ensures Code(a) == Code(b) ==> a == b
  {
    if a != b {
      assert Code(a)[0] != Code(b)[0];
    }
  }

  /** The set of supported codes is exactly {"fa", "en"}, each listed once. */
  lemma SupportedCodes()
    ensures |SupportedLocales| == 2 && SupportedLocales[0] == DefaultLocale
    ensures forall l: Locale :: l in SupportedLocales
    ensures forall l: Locale :: Code(l) == "fa" || Code(l) == "en"
  {
    forall l: Locale ensures l in SupportedLocales {
      if l == Fa { assert SupportedLocales[0] == l; } else { assert SupportedLocales[1] == l; }
    }
  }

  /** The locale whose code is `code`, if it is supported (`locales.includes(code)`). */
  function ParseLocale(code: string): (r: Option<Locale>)
    ensures r.Some? ==> Code(r.value) == code && r.value in SupportedLocales
    ensures r.None? ==> forall l: Locale :: Code(l) != code
  {
    if code == "fa" then Some(Fa)
    else if code == "en" then Some(En)
    else None
  }

  /** The direction ternary, applied to the raw code: right-to-left for "fa" only. */
  function DirOf(code: string): (d: Direction)
    ensures d == Rtl <==> code == "fa"
  {
    if code == "fa" then Rtl else Ltr
  }

  /** The direction of a supported locale. */
  function Dir(l: Locale): (d: Direction)
    ensures d == Rtl <==> l == Fa
    ensures d == Ltr <==> l == En
  {
    DirOf(Code(l))
  }

  /** What the request configuration yields: the locale and its direction (messages are not modelled). */
  datatype RequestConfig = RequestConfig(locale: Locale, dir: Direction)

  /** The one failure: the framework's not-found response. */
  datatype LocaleError = NotFound

  /**
   * The request configuration for a requested locale code: a supported code is
   * accepted with the direction of that locale; any other code is rejected and is
   * never replaced by the default locale.
   */
  function ResolveLocale(locale: string): (r: Result<RequestConfig, LocaleError>)
    ensures r.Ok? <==> locale == "fa" || locale == "en"
    ensures r.Ok? ==> Code(r.value.locale) == locale
    ensures r.Ok? ==> r.value.dir == Dir(r.value.locale)
    ensures r.Ok? ==> (r.value.dir == Rtl <==> locale == "fa")
    ensures r.Err? ==> r.error == NotFound
  {
    match ParseLocale(locale)
    case None => Err(NotFound)
    case Some(l) => Ok(RequestConfig(l, DirOf(locale)))
  }

  /** Two requests that resolve to the same locale get the same direction, whatever else differs. */
  lemma DirectionFollowsLocale(a: string, b: string)
    requires ResolveLocale(a).Ok? && ResolveLocale(b).Ok?
    requires ResolveLocale(a).value.locale == ResolveLocale(b).value.locale
    ensures ResolveLocale(a) == ResolveLocale(b)
  {
  }
}
