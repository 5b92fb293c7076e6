# Taliman website: locales, translations and input helpers in Dafny

This project models the language-handling and input-handling core of the Taliman
Metal Works bilingual (Persian/English) website:

- **Locale resolution** (`src/i18n.ts`). The request locale must be one of `fa` and `en`, or the request is not found. Persian is right-to-left and English left-to-right. Modelled in `locales.dfy`.
- **Translation store** (`src/lib/i18n.ts`). Two bundles, `ui.fa` and `ui.en`, cover the same 52 keys. `t(key)` looks a key up in the active bundle and falls back to the Persian one. `getLangFromUrl` reads the locale from a path. `getLocalizedPath` prefixes English paths with `/en`. Modelled in `i18n.dfy`.
- **Language switcher** (`src/components/layout/language-switcher.tsx`). It strips a two-letter prefix from the current path, picks the other language and links to `/<other><rest>`. Modelled in `language_switcher.dfy`.
- **Utilities** (`src/lib/utils.ts`): `getDirectionAwareClass`, `getFontClass`, `safeGet`, `convertNumerals`, `generateSlug` and `isValidEmail`. Modelled in `utils.dfy`.
- **Validation** (`src/lib/validations.ts`): the contact-form schema with the limits of `VALIDATION_RULES` (`src/lib/constants.ts`), the international `phoneSchema` with `validatePhone`, and `sanitizeString`. Modelled in `validations.dfy`.

Everything in the core is pure, so the model uses datatypes, functions and lemmas only.

Two supporting modules model the JavaScript pieces the core relies on:

- `jsstrings.dfy` covers `split`, `trim`, `toLowerCase`, `indexOf` and `replace` with a global regular expression.
- `regex.dfy` covers the core's anchored regular expressions. Each one is a sequence of quantified bracket expressions (`[cls]{min,max}`), and `Matches(re, s)` is the meaning of `re.test(s)`.

Each regular expression of the source is written as such a pattern. A lemma then gives its plain meaning: what `isValidEmail` accepts, which characters a name may hold, the length bounds of an international phone number.

Zod's string checks are modelled as data (`StringCheck`) and run in order. Each failing check reports one problem, as zod does, so a rejected form lists every problem of every field.

Code and prose sometimes disagree. In those cases the model follows the code:

- `t(key)` returns `undefined`, not the key itself, when neither bundle has the key. The key type of `t` is the closed set of the Persian bundle's keys, and both bundles hold all of them. So this cannot happen, and `T` is proved never to return an empty string.
- The honeypot field `website` is an ordinary schema refinement. A filled-in honeypot makes the parse fail with an issue on `website`. It is not turned into a silent success.
- There are two routing layers with two policies for unknown locales. `getLangFromUrl` falls back to Persian for any unknown prefix (`UnknownPrefixIsDefault`). The request configuration rejects an unknown locale as not found (`ResolveLocale`). Both are modelled as written.

The long Persian and English strings of the bundles are written as concatenations of short literals. Each value is the same text as in the source.

## Model

| member | source | states |
|---|---|---|
| Locales.CodeInjective | src/i18n.ts:5 | Different locales have different codes. |
| Locales.SupportedCodes | src/i18n.ts:5 | The supported list is `fa`, `en`, with `fa` first. Every locale is listed, and every code is "fa" or "en". |
| Locales.ParseLocale | src/i18n.ts:10 | `locales.includes(code)`. It gives the locale whose code is `code`, or nothing exactly when no locale has that code. |
| Locales.DirOf | src/i18n.ts:15 | The direction is rtl exactly when the code is "fa". |
| Locales.Dir | src/i18n.ts:15 | Persian is rtl and English is ltr, each in both directions of the equivalence. |
| Locales.ResolveLocale | src/i18n.ts:8-16 | A config is returned exactly for "fa" and "en", and carries that locale with its direction (rtl exactly for "fa"). Any other string is NotFound. |
| Locales.DirectionFollowsLocale | src/i18n.ts:12-16 | Two requests that resolve to the same locale get the same configuration. |
| I18n.LanguageName | src/lib/i18n.ts:1-4 | Each language has a non-empty display name. |
| I18n.FaText | src/lib/i18n.ts:9-70 | Every Persian bundle entry is non-empty. |
| I18n.EnText | src/lib/i18n.ts:71-135 | Every English bundle entry is non-empty. |
| I18n.TablesComplete | src/lib/i18n.ts:8-136 | The two bundles have the same key set and hold every key, and no value is empty. |
| I18n.Lookup | src/lib/i18n.ts:146 | `ui[lang][key] \|\| ui[defaultLang][key]`: a non-empty active entry wins, and otherwise the fallback entry is taken. The result is absent exactly when neither bundle gives a value. There is one fallback hop. |
| I18n.LookupSelf | src/lib/i18n.ts:146 | With Persian active, the fallback changes nothing: the lookup is the plain bundle lookup. |
| I18n.T | src/lib/i18n.ts:144-148 | `t(key)` is never empty and equals the active bundle's entry. |
| I18n.GetLangFromUrl | src/lib/i18n.ts:138-142 | The second `/`-separated segment is the locale when it is "fa" or "en". A non-default result always comes from that segment. |
| I18n.GetLangFromUrlAsWritten | src/lib/i18n.ts:138-142 | With JavaScript's `in`, the result is a key of `ui` or an inherited property name. It agrees with `GetLangFromUrl` whenever it is not an inherited name. |
| I18n.InheritedNameIsReadAsLanguage | src/lib/i18n.ts:140 | "/constructor/about" yields "constructor", which is not a locale. The corrected function yields Persian. |
| I18n.SecondSegment | src/lib/i18n.ts:139 | For a path starting with '/', the second part of the split is the text up to the next '/'. |
| I18n.LangFromUrlEn | src/lib/i18n.ts:138-142 | The locale is English exactly when the text after the first '/' is "en" or starts with "en/". Otherwise it is Persian. |
| I18n.RootIsDefault | src/lib/i18n.ts:141 | "/" gives Persian. |
| I18n.UnknownPrefixIsDefault | src/lib/i18n.ts:140-141 | "/de/about" gives Persian: this layer never reports not-found. |
| I18n.GetLocalizedPath | src/lib/i18n.ts:150-155 | Persian paths are unchanged. English paths start with "/en", the root becomes "/en", and any other path follows the prefix unchanged. |
| I18n.LocalizedPathRoundTrip | src/lib/i18n.ts:138-155 | Reading the locale back from a localized path gives English for English. A Persian path is left as it is, so it reads back as Persian exactly when it is neither "/en" nor under "/en/". |
| LanguageSwitcher.LocalePrefixPatternMatches | src/components/layout/language-switcher.tsx:16 | `/^\/[a-z]{2}/` matches the first three characters exactly when they are '/' and two lower-case ASCII letters. |
| LanguageSwitcher.StripLocalePrefix | src/components/layout/language-switcher.tsx:16 | A path with such a prefix loses its first three characters. Any other path is unchanged. |
| LanguageSwitcher.PathWithoutLocale | src/components/layout/language-switcher.tsx:16 | The stripped path, or "/" when stripping leaves nothing. It is never empty. |
| LanguageSwitcher.NotSegmentAware | src/components/layout/language-switcher.tsx:16 | The prefix is not tied to a path segment: "/about" becomes "out". |
| LanguageSwitcher.FindOther | src/components/layout/language-switcher.tsx:23 | `find`: an entry of the list whose code differs from the current one, or nothing exactly when every code equals it. |
| LanguageSwitcher.OtherLanguage | src/components/layout/language-switcher.tsx:18-25 | There is always another language. It is English when the current locale is "fa" and Persian otherwise. |
| LanguageSwitcher.SwitchHref | src/components/layout/language-switcher.tsx:30 | The link is always rendered. It is "/" plus the other code, followed by the path without its prefix. |
| LanguageSwitcher.SwitchTwice | src/components/layout/language-switcher.tsx:16-30 | Switching from `/<cur><rest>` and then back from `/<other><rest>` returns to the start. |
| LanguageSwitcher.LocalizedPathStrips | src/components/layout/language-switcher.tsx:16 | Stripping the prefix of an English localized path gives the original path. |
| Utils.DirectionAwareClass | src/lib/utils.ts:29-38 | The RTL class is appended, after a space, exactly when the locale is right-to-left and the class is a non-empty string. Otherwise the base class is returned. |
| Utils.FontClass | src/lib/utils.ts:158-160 | "font-farsi" exactly for right-to-left, and "font-sans" exactly for left-to-right. |
| Utils.WalkUndefined | src/lib/utils.ts:51 | Optional chaining from a nullish value stays undefined for any remaining keys. |
| Utils.WalkIsReach | src/lib/utils.ts:49-51 | The `reduce` with `?.[key]` yields the value at the key path when every step exists, and undefined otherwise. |
| Utils.SafeGet | src/lib/utils.ts:44-52 | The value at the dotted path when it exists and is not null or undefined, and the default otherwise. |
| Utils.DigitTables | src/lib/utils.ts:169-171 | The three digit strings are consecutive runs starting at '0', U+06F0 and U+0660. |
| Utils.PersianToAscii | src/lib/utils.ts:175 | A Persian digit becomes the ASCII digit of the same value. Any other character is unchanged. |
| Utils.ArabicToAscii | src/lib/utils.ts:176 | An Arabic-Indic digit becomes the ASCII digit of the same value. Any other character is unchanged. |
| Utils.AsciiToPersian | src/lib/utils.ts:178 | An ASCII digit becomes the Persian digit of the same value. Any other character is unchanged. |
| Utils.ConvertNumerals | src/lib/utils.ts:165-180 | The length is kept. Character by character, the conversion for the chosen direction is applied and everything else is kept. |
| Utils.PersianRoundTrip | src/lib/utils.ts:165-180 | For text without Eastern digits, converting to Persian and back to English is the identity. |
| Utils.EnglishRoundTrip | src/lib/utils.ts:165-180 | For text with neither ASCII nor Arabic-Indic digits, converting to English and back to Persian is the identity. |
| Utils.EnglishIdempotent | src/lib/utils.ts:165-180 | Converting to English leaves no Eastern digit, so a second conversion changes nothing. |
| Utils.HyphenateSpaces | src/lib/utils.ts:104 | No whitespace remains. Apart from hyphens and whitespace, the text is kept in order. A whitespace run alone becomes "-", and text without whitespace is unchanged. |
| Utils.HyphenateSpacesJoin | src/lib/utils.ts:104 | Text cut next to a non-whitespace character is rewritten piece by piece. With the two cases above, each whitespace run becomes one '-' and nothing else changes. |
| Utils.KeepSlugChars | src/lib/utils.ts:105 | Only allowed characters remain, all taken from the input. Text of allowed characters is unchanged, and text with none becomes empty. |
| Utils.KeepSlugCharsAppend | src/lib/utils.ts:105 | The filter works piece by piece. With the cases above, the allowed characters are kept in their order and the others dropped. |
| Utils.CollapseHyphens | src/lib/utils.ts:106 | No two hyphens are adjacent afterwards. Apart from hyphens the text is kept in order, and only '-' is new. A run of hyphens alone becomes "-", and text without "--" is unchanged. |
| Utils.CollapseHyphensJoin | src/lib/utils.ts:106 | Text cut next to a character other than '-' is collapsed piece by piece. With the cases above, each hyphen run becomes one '-'. |
| Utils.TrimHyphens | src/lib/utils.ts:107 | The result is the input without one leading '-' (when present) and one trailing '-' (when present and not the same character). Exactly those are removed. Text without "--" then has no hyphen at either end. |
| Utils.SlugKeepsLetters | src/lib/utils.ts:102-107 | Each step keeps the allowed letters and digits, in order. |
| Utils.GenerateSlug | src/lib/utils.ts:100-108 | The result is a slug: allowed characters only, no whitespace, no "--", no hyphen at either end. Its letters and digits are exactly the allowed non-whitespace characters of the lower-cased text, in order. |
| Utils.SlugIgnoresLocale | src/lib/utils.ts:100 | The `locale` argument does not affect the result. |
| Utils.SlugFixed | src/lib/utils.ts:100-108 | A slug is its own slug. |
| Utils.SlugIdempotent | src/lib/utils.ts:100-108 | Slugging twice is slugging once. |
| Utils.EmailCharsAre | src/lib/utils.ts:114 | `[^\s@]` is exactly the characters that are neither whitespace nor '@'. |
| Utils.EmailMatchHasShape | src/lib/utils.ts:114 | An accepted address has one '@' with text before it and no whitespace. Its domain holds a '.' that is neither first nor last. |
| Utils.EmailShapeMatches | src/lib/utils.ts:114 | Every string of that shape is accepted. |
| Utils.EmailPatternAccepts | src/lib/utils.ts:113-116 | `isValidEmail` holds exactly for strings of that shape. |
| Utils.RejectsNotAnEmail | src/lib/utils.ts:113-116 | "not-an-email" is rejected. |
| Regex.MatchOne | src/lib/validations.ts:10 | A one-term pattern accepts exactly the strings of an allowed length made of its class. |
| Regex.MatchLength | src/lib/validations.ts:110 | A match is at least as long as the sum of the minimum counts. For a bounded pattern it is at most the sum of the maximum counts. |
| Regex.MatchCuts | src/lib/validations.ts:110 | Cutting a string at increasing positions into one accepted run per term gives a match. |
| JsStrings.IndexOf | src/lib/utils.ts:175 | `indexOf`: the first position of the character, or -1 exactly when it is absent. |
| JsStrings.Split | src/lib/i18n.ts:139 | `split`: at least one part, and no part contains the separator. |
| JsStrings.JoinSplit | src/lib/i18n.ts:139 | Joining the parts of a split with the separator gives the string back. |
| JsStrings.SplitJoin | src/lib/utils.ts:50 | Splitting a join of separator-free parts gives the parts back. |
| JsStrings.ToLowerAscii | src/lib/utils.ts:102 | The length is kept. ASCII capitals become lower case, and every other character is kept. |
| JsStrings.Trim | src/lib/utils.ts:103 | The result is a slice of the input, and everything before and after the slice is whitespace. It has no whitespace at either end, and already-trimmed text is unchanged. |
| JsStrings.TrimKeepsChars | src/lib/utils.ts:103 | Every character of the trimmed text comes from the input. |
| JsStrings.RemoveAllFacts | src/lib/validations.ts:250 | `replace(/[cls]/g, '')` never lengthens the text. No character of the class remains, and the rest come from the input. Text without class characters is unchanged, and text of class characters only becomes empty. |
| JsStrings.RemoveAllAppend | src/lib/validations.ts:250 | Removal works piece by piece. With the one-character cases above, the characters outside the class are kept in their order. |
| JsStrings.ReplaceRunsFacts | src/lib/validations.ts:251 | `replace(/[cls]+/g, c)` never lengthens the text. Every character is `c` or an input character outside the class. A run alone becomes `c`. With `c` in the class, no two class characters are adjacent. Text already in that form is unchanged. |
| JsStrings.ReplaceRunsJoin | src/lib/validations.ts:251 | Text cut next to a character outside the class is rewritten piece by piece. With the run cases above, each maximal run becomes one `c` and everything between runs is kept in order. |
| JsStrings.ReplaceRunsKeeps | src/lib/validations.ts:251 | Removing a class that covers the runs and `c` gives the same text before and after the rewriting. |
| Validations.OptionalText | src/lib/validations.ts:19-31 | `.optional().or(z.literal(''))`: no problem exactly when the value is absent, is the empty string, or passes the checks. Otherwise the problems are those of the checks. |
| Validations.CheckString | src/lib/validations.ts:6-36 | Zod's check list. There is no problem exactly when every check passes. Every failing check is reported, and every reported problem comes from a failing check. |
| Validations.NameCharsAre | src/lib/validations.ts:10 | The name class is exactly Latin letters, the five Arabic-script blocks and whitespace. |
| Validations.NamePatternAccepts | src/lib/validations.ts:10 | The name pattern accepts exactly non-empty strings of name characters. |
| Validations.PhoneCharsAre | src/lib/validations.ts:29 | The phone class is exactly digits, whitespace, '-', '(' and ')'. |
| Validations.PhonePatternAccepts | src/lib/validations.ts:29 | The form's phone pattern accepts exactly a non-empty run of phone characters, optionally after one '+'. |
| Validations.FieldProblemsSpec | src/lib/validations.ts:5-53 | Each field reports no problem exactly when its value is acceptable, stated without the checks (lengths, characters, enum, honeypot, consent). |
| Validations.NoIssuesIffValid | src/lib/validations.ts:5-53 | The form has no issue exactly when every field is acceptable. |
| Validations.ValidateContactForm | src/lib/validations.ts:5-53 | The parse succeeds exactly when every field is acceptable. The parsed value keeps the fields, lower-cases the e-mail and turns the language into a locale. A failure lists exactly the problems of each field. |
| Validations.RejectionNamesBadFields | src/lib/validations.ts:5-53 | A failure names a field exactly when that field's value is not acceptable. |
| Validations.HoneypotRejects | src/lib/validations.ts:42-45 | A non-empty honeypot alone makes the parse fail, with an issue on `website`. |
| Validations.ShortNameReported | src/lib/validations.ts:6-11 | The name "A" is reported as too short and nothing else. |
| Validations.TypicalEnquiryValid | src/lib/validations.ts:5-53 | A typical enquiry with an empty optional phone satisfies every field rule. |
| Validations.LowerCasedExample | src/lib/validations.ts:17 | "Ali@Example.com" lower-cases to "ali@example.com". |
| Validations.AcceptsTypicalEnquiry | src/lib/validations.ts:5-53 | That enquiry parses to the expected value, with its e-mail lower-cased. |
| Validations.PhoneLength | src/lib/validations.ts:107-112 | A number `phoneSchema` accepts has 4 to 25 characters. |
| Validations.PhoneLeadingDigit | src/lib/validations.ts:110 | After an optional '+', an accepted number starts with 1-9. |
| Validations.RejectsTrunkZero | src/lib/validations.ts:229-236 | `validatePhone("0912 345 6789")` is false. |
| Validations.AcceptsInternational | src/lib/validations.ts:229-236 | `validatePhone("+98 912 345 6789")` is true. |
| Validations.StripAngles | src/lib/validations.ts:250 | No bracket is left and nothing new appears. Text without brackets is unchanged, and text of brackets only becomes empty. |
| Validations.StripAnglesAppend | src/lib/validations.ts:250 | Brackets are removed piece by piece, so the other characters are kept in order. |
| Validations.SingleSpaces | src/lib/validations.ts:251 | Only plain spaces and non-whitespace input characters appear, and no two whitespace characters are adjacent. Apart from whitespace the text is kept in order. A whitespace run alone becomes " ", and text already single-spaced is unchanged. |
| Validations.SingleSpacesJoin | src/lib/validations.ts:251 | Text cut next to a non-whitespace character is collapsed piece by piece, so each whitespace run becomes one space. |
| Validations.SanitizeString | src/lib/validations.ts:247-252 | No '<' or '>' remains. Every whitespace character is a plain space, and no two are adjacent. The characters other than brackets and whitespace are exactly those of the input, in order. |
| Validations.SanitizeJoin | src/lib/validations.ts:247-252 | Two pieces that start and end with a character other than whitespace or a bracket are sanitized separately: no space is added where they meet. |
| Validations.SanitizeSeparates | src/lib/validations.ts:247-252 | Between two such pieces, any non-empty whitespace run becomes exactly one space. |
| Validations.SanitizeKeepsCleanText | src/lib/validations.ts:247-252 | Text that is trimmed, bracket-free and single-spaced is unchanged. |
| Validations.SanitizeNotIdempotent | src/lib/validations.ts:248-251 | Brackets are removed after trimming, so "< a" gives " a", which sanitizes again to "a". |

## Findings

| source | as written | input that shows it | evidently intended | confidence | as-written member | corrected member |
|---|---|---|---|---|---|---|
| src/lib/i18n.ts:140 | `lang in ui` is also true for property names inherited from `Object.prototype`, so such a segment is returned as the language | "/constructor/about" gives "constructor" | only "fa" or "en" is returned, and any other segment falls back to "fa" | not executed; high | I18n.InheritedNameIsReadAsLanguage | I18n.GetLangFromUrl |

## Left out

- The React component tree, Tailwind classes and `cn` are left out: they render or compose markup rather than compute. The switcher is modelled only for its href.
- The `import` of the message bundles in `src/i18n.ts:13` is file I/O and is left out. `notFound()` becomes the `NotFound` error value.
- The `ui` bundles are typed `as const`, so `useTranslations` takes a key from a closed set. The model's `Key` datatype has one constructor per key. The dotted key strings are not needed.
- Validations.ValidateContactForm: zod's own e-mail pattern is not part of this model. It is the parameter `isEmail`, and the other zod schemas in the file are left out.
- Validations.ValidateContactForm: an input field of the wrong JavaScript type (a number where a string is expected) is not modelled. Fields are typed, and an absent one is `None`.
- Validations.CheckString: lengths count Unicode code points, while zod counts UTF-16 code units. The two differ only for characters above U+FFFF.
- JsStrings.ToLowerAscii: only ASCII letters are lower-cased. JavaScript's `toLowerCase` also maps other cased scripts, which affects `generateSlug` and the e-mail field only for non-ASCII letters.
- Utils.SafeGet: objects are modelled as maps of own properties. Property access on strings, numbers and arrays (`"abc".length`) and inherited properties are left out.
- `formatNumber`, `formatFileSize`, `debounce`, `scrollToElement`, `createIntersectionObserver` and `createOptimizedImageUrl` in `src/lib/utils.ts` are left out. They depend on `Intl`, floating point, timers, the DOM or the URL parser.
- `validateEmail`, `validateUrl`, `validateFileType`, `validateFileSize` and the other schemas of `src/lib/validations.ts` (newsletter, search, file upload, URL, Persian and English text, password, date, number, percentage, social media, SEO, config, rate limit) are left out. `validateEmail` is zod's e-mail pattern, which is the `isEmail` parameter here.
- Default arguments become explicit parameters: `convertNumerals(text, to = 'english')` is `ConvertNumerals(text, to)` and `generateSlug(text, locale = 'en')` is `GenerateSlug(text, locale)`. A caller that omits the argument corresponds to passing `English` or `En`.
- Framework redirects and the middleware's locale negotiation are not part of this model.
