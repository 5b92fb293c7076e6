/**
 * The pure helpers of `src/lib/utils.ts`: locale-dependent class names, nested
 * property access, digit conversion between Persian, Arabic-Indic and ASCII,
 * slug generation and the e-mail pattern.
 */
module Utils {
  import opened Wrappers
  import opened JsStrings
  import opened Regex
  import opened Locales

  // ---------------------------------------------------------------------------
  // Class names

  /**
   * `getDirectionAwareClass`: the right-to-left class is appended, after a space,
   * exactly for the right-to-left locale and a non-empty class.
   */
  function DirectionAwareClass(baseClass: string, locale: Locale, rtlClass: Option<string>): (r: string)
    ensures Dir(locale) == Rtl && rtlClass.Some? && rtlClass.value != [] ==> r == baseClass + " " + rtlClass.value
    ensures Dir(locale) == Ltr || rtlClass.None? || rtlClass.value == [] ==> r == baseClass
  {
    if locale == Fa && rtlClass.Some? && rtlClass.value != [] then baseClass + " " + rtlClass.value
    else baseClass
  }

  /** `getFontClass`: the Persian font exactly for the right-to-left locale. */
  function FontClass(locale: Locale): (r: string)
    ensures r == "font-farsi" <==> Dir(locale) == Rtl
    ensures r == "font-sans" <==> Dir(locale) == Ltr
  {
    if locale == Fa then "font-farsi" else "font-sans"
  }

  // ---------------------------------------------------------------------------
  // safeGet

  /** A JavaScript value as far as property access is concerned. */
  datatype Value = Undefined | Null | Scalar(repr: string) | Object(fields: map<string, Value>)

  predicate IsNullish(v: Value) { v.Undefined? || v.Null? }

  /** `current?.[key]`. */
  function Step(current: Value, key: string): Value {
    match current
    case Object(fields) => if key in fields then fields[key] else Undefined
    case _ => Undefined
  }

  /** The `reduce` over the path segments. */
  function Walk(current: Value, keys: seq<string>): Value
    decreases |keys|
  {
    if keys == [] then current else Walk(Step(current, keys[0]), keys[1..])
  }

  /** The value at the end of `keys` when every step goes through an object that has the key. */
  function Reach(v: Value, keys: seq<string>): Option<Value>
    decreases |keys|
  {
    if keys == [] then Some(v)
    else if v.Object? && keys[0] in v.fields then Reach(v.fields[keys[0]], keys[1..])
    else None
  }

  /** Once a step has failed, the rest of the walk stays undefined. */
  lemma {:induction false} WalkUndefined(keys: seq<string>)
    ensures Walk(Undefined, keys) == Undefined
    decreases |keys|
  {
    if keys != [] {
      WalkUndefined(keys[1..]);
    }
  }

  /** The walk yields the reached value, or undefined where a step is missing. */
  lemma {:induction false} WalkIsReach(v: Value, keys: seq<string>)
    ensures Walk(v, keys) == match Reach(v, keys) case Some(x) => x case None => Undefined
    decreases |keys|
  {
    if keys != [] {
      if v.Object? && keys[0] in v.fields {
        WalkIsReach(v.fields[keys[0]], keys[1..]);
      } else {
        WalkUndefined(keys[1..]);
      }
    }
  }

  /**
   * `safeGet(obj, path, defaultValue)`: the value reached by following the dot-separated
   * path when every step exists and the value is neither null nor undefined, and the
   * default otherwise.
   */
  function SafeGet(obj: Value, path: string, defaultValue: Value): (r: Value)
    ensures var reached := Reach(obj, Split(path, '.'));
      r == if reached.Some? && !IsNullish(reached.value) then reached.value else defaultValue
  {
    var v := Walk(obj, Split(path, '.'));
    WalkIsReach(obj, Split(path, '.'));
    if IsNullish(v) then defaultValue else v
  }

  // ---------------------------------------------------------------------------
  // convertNumerals

  datatype NumeralSystem = Persian | English

  const AsciiDigits: string := "0123456789"
  const PersianDigits: string := "۰۱۲۳۴۵۶۷۸۹"
  const ArabicDigits: string := "٠١٢٣٤٥٦٧٨٩"

  predicate IsPersianDigit(c: char) { '\U{06F0}' <= c <= '\U{06F9}' }
  predicate IsArabicIndicDigit(c: char) { '\U{0660}' <= c <= '\U{0669}' }

  /** Ten consecutive code points starting at `base`, as each digit table is. */
  predicate IsDigitRun(table: string, base: int) {
    |table| == 10 && forall k | 0 <= k < 10 :: table[k] as int == base + k
  }

  lemma DigitTables()
    ensures IsDigitRun(AsciiDigits, '0' as int)
    ensures IsDigitRun(PersianDigits, 0x06F0)
    ensures IsDigitRun(ArabicDigits, 0x0660)
  {
  }

  /** In a digit table, `indexOf` of a digit is its value. */
  lemma IndexInRun(table: string, base: int, c: char)
    requires IsDigitRun(table, base) && base <= c as int < base + 10
    ensures IndexOf(table, c) == c as int - base
  {
    var j := c as int - base;
    assert table[j] == c;
    forall m | 0 <= m < j ensures table[..j][m] != c {
      assert table[..j][m] == table[m];
    }
    IndexOfAt(table, c, j);
  }

  /** The callback `d => englishDigits[persianDigits.indexOf(d)]` (identity outside the class). */
  function PersianToAscii(c: char): (r: char)
    ensures IsPersianDigit(c) ==> r as int == '0' as int + (c as int - 0x06F0)
    ensures !IsPersianDigit(c) ==> r == c
  {
    if IsPersianDigit(c) then
      DigitTables(); IndexInRun(PersianDigits, 0x06F0, c);
      AsciiDigits[IndexOf(PersianDigits, c)]
    else c
  }

  /** The callback `d => englishDigits[arabicDigits.indexOf(d)]` (identity outside the class). */
  function ArabicToAscii(c: char): (r: char)
    ensures IsArabicIndicDigit(c) ==> r as int == '0' as int + (c as int - 0x0660)
    ensures !IsArabicIndicDigit(c) ==> r == c
  {
    if IsArabicIndicDigit(c) then
      DigitTables(); IndexInRun(ArabicDigits, 0x0660, c);
      AsciiDigits[IndexOf(ArabicDigits, c)]
    else c
  }

  /** The callback `d => persianDigits[englishDigits.indexOf(d)]` (identity outside the class). */
  function AsciiToPersian(c: char): (r: char)
    ensures IsAsciiDigit(c) ==> r as int == 0x06F0 + (c as int - '0' as int)
    ensures !IsAsciiDigit(c) ==> r == c
  {
    if IsAsciiDigit(c) then
      DigitTables(); IndexInRun(AsciiDigits, '0' as int, c);
      PersianDigits[IndexOf(AsciiDigits, c)]
    else c
  }

  /**
   * `convertNumerals`: towards Persian, every ASCII digit becomes the Persian digit of
   * the same value; towards English, Persian and Arabic-Indic digits become the ASCII
   * digit of the same value. Every other character is kept, and so is the length.
   */
  function ConvertNumerals(text: string, to: NumeralSystem): (r: string)
    ensures |r| == |text|
    ensures to == Persian ==> forall i | 0 <= i < |text| ::
      (IsAsciiDigit(text[i]) ==> r[i] as int == 0x06F0 + (text[i] as int - '0' as int))
      && (!IsAsciiDigit(text[i]) ==> r[i] == text[i])
    ensures to == English ==> forall i | 0 <= i < |text| ::
      (IsPersianDigit(text[i]) ==> r[i] as int == '0' as int + (text[i] as int - 0x06F0))
      && (IsArabicIndicDigit(text[i]) ==> r[i] as int == '0' as int + (text[i] as int - 0x0660))
      && (!IsPersianDigit(text[i]) && !IsArabicIndicDigit(text[i]) ==> r[i] == text[i])
  {
    if to == English then MapChars(MapChars(text, PersianToAscii), ArabicToAscii)
    else MapChars(text, AsciiToPersian)
  }

  predicate HasEasternDigit(s: string) {
    exists i | 0 <= i < |s| :: IsPersianDigit(s[i]) || IsArabicIndicDigit(s[i])
  }

  /** Converting to Persian and back restores any text without Persian or Arabic-Indic digits. */
  lemma PersianRoundTrip(s: string)
    requires forall i | 0 <= i < |s| :: !IsPersianDigit(s[i]) && !IsArabicIndicDigit(s[i])
    ensures ConvertNumerals(ConvertNumerals(s, Persian), English) == s
  {
    var p := ConvertNumerals(s, Persian);
    var e := ConvertNumerals(p, English);
    forall i | 0 <= i < |s| ensures e[i] == s[i] {
      var c := s[i];
      if IsAsciiDigit(c) {
        assert p[i] as int == 0x06F0 + (c as int - '0' as int);
        assert IsPersianDigit(p[i]) && !IsArabicIndicDigit(p[i]);
        assert e[i] as int == '0' as int + (p[i] as int - 0x06F0);
        assert e[i] as int == c as int;
      } else {
        assert p[i] == c;
        assert e[i] == p[i];
      }
    }
    assert |e| == |s|;
  }

  /** Converting to English and back restores any text whose digits are all Persian. */
  lemma EnglishRoundTrip(s: string)
    requires forall i | 0 <= i < |s| :: !IsAsciiDigit(s[i]) && !IsArabicIndicDigit(s[i])
    ensures ConvertNumerals(ConvertNumerals(s, English), Persian) == s
  {
    var e := ConvertNumerals(s, English);
    var p := ConvertNumerals(e, Persian);
    forall i | 0 <= i < |s| ensures p[i] == s[i] {
      if IsPersianDigit(s[i]) {
        assert e[i] as int == '0' as int + (s[i] as int - 0x06F0);
        assert IsAsciiDigit(e[i]);
        assert p[i] as int == s[i] as int;
      } else {
        assert e[i] == s[i];
        assert !IsAsciiDigit(e[i]);
      }
    }
  }

  /** English output has no Persian or Arabic-Indic digits, so converting it again changes nothing. */
  lemma EnglishIdempotent(s: string)
    ensures !HasEasternDigit(ConvertNumerals(s, English))
    ensures ConvertNumerals(ConvertNumerals(s, English), English) == ConvertNumerals(s, English)
  {
    var e := ConvertNumerals(s, English);
    assert forall i | 0 <= i < |e| :: !IsPersianDigit(e[i]) && !IsArabicIndicDigit(e[i]);
  }

  // ---------------------------------------------------------------------------
  // generateSlug

  /** `[a-z0-9؀-ۿݐ-ݿࢠ-ࣿﭐ-﷿ﹰ-﻿-]`. */
  predicate IsSlugChar(c: char) {
    IsAsciiLower(c) || IsAsciiDigit(c)
    || ('\U{0600}' <= c <= '\U{06FF}') || ('\U{0750}' <= c <= '\U{077F}')
    || ('\U{08A0}' <= c <= '\U{08FF}') || ('\U{FB50}' <= c <= '\U{FDFF}')
    || ('\U{FE70}' <= c <= '\U{FEFF}') || c == '-'
  }

  predicate NoDoubleHyphen(s: string) {
    forall i | 0 <= i < |s| - 1 :: !(s[i] == '-' && s[i + 1] == '-')
  }

  predicate SlugChars(s: string) {
    forall i | 0 <= i < |s| :: IsSlugChar(s[i]) && !IsJsWhitespace(s[i])
  }

  /** What a slug is: allowed characters only, no whitespace, no "--", no hyphen at either end. */
  predicate IsSlug(s: string) {
    && SlugChars(s)
    && NoDoubleHyphen(s)
    && (s == [] || (s[0] != '-' && s[|s| - 1] != '-'))
  }

  /** The letters and digits of the slug bracket, without its '-'. */
  const SlugLetters: CharClass :=
    Union(Range('a', 'z'), Union(Range('0', '9'),
    Union(Range('\U{0600}', '\U{06FF}'), Union(Range('\U{0750}', '\U{077F}'),
    Union(Range('\U{08A0}', '\U{08FF}'), Union(Range('\U{FB50}', '\U{FDFF}'),
    Range('\U{FE70}', '\U{FEFF}')))))))

  /** The same bracket as a class value, as `KeepSlugChars` negates it. */
  const SlugClass: CharClass := Union(SlugLetters, Single('-'))

  lemma SlugClassIs(c: char)
    ensures InClass(c, SlugClass) <==> IsSlugChar(c)
  {
  }

  /**
   * What the pipeline removes or turns into hyphens: every character outside the
   * slug letters and digits, and whitespace (U+FEFF is both whitespace and in the bracket).
   */
  const NotKept: CharClass := Union(Complement(SlugLetters), Whitespace)

  lemma NotKeptCovers()
    ensures forall x :: IsJsWhitespace(x) ==> InClass(x, NotKept)
    ensures forall x :: InClass(x, Whitespace) ==> InClass(x, NotKept)
    ensures forall x :: InClass(x, Single('-')) ==> InClass(x, NotKept)
    ensures forall x :: InClass(x, Complement(SlugClass)) ==> InClass(x, NotKept)
    ensures InClass('-', NotKept)
  {
  }

  const HyphenOrSpace: CharClass := Union(Single('-'), Whitespace)

  /**
   * `s.replace(/\s+/g, '-')`: no whitespace is left; apart from hyphens and whitespace,
   * the text is kept in order; a whitespace run alone becomes "-"; and text without
   * whitespace is unchanged. With `HyphenateSpacesJoin`, each run becomes one "-".
   */
  function HyphenateSpaces(s: string): (r: string)
    ensures forall i | 0 <= i < |r| :: !IsJsWhitespace(r[i])
    ensures RemoveAll(r, HyphenOrSpace) == RemoveAll(s, HyphenOrSpace)
    ensures s != [] && (forall i | 0 <= i < |s| :: IsJsWhitespace(s[i])) ==> r == "-"
    ensures (forall i | 0 <= i < |s| :: !IsJsWhitespace(s[i])) ==> r == s
  {
    ReplaceRunsFacts(s, Whitespace, '-');
    ReplaceRunsKeeps(s, Whitespace, '-', HyphenOrSpace);
    ReplaceRuns(s, Whitespace, '-')
  }

  /** Text cut next to a non-whitespace character is hyphenated piece by piece. */
  lemma HyphenateSpacesJoin(a: string, b: string)
    requires a == [] || b == [] || !IsJsWhitespace(a[|a| - 1]) || !IsJsWhitespace(b[0])
    ensures HyphenateSpaces(a + b) == HyphenateSpaces(a) + HyphenateSpaces(b)
  {
    ReplaceRunsJoin(a, b, Whitespace, '-');
  }

  /**
   * `s.replace(/[^a-z0-9…-]/g, '')`: only slug characters are left, none of them new;
   * text of slug characters is unchanged and text without any becomes empty. With
   * `KeepSlugCharsAppend`, the slug characters are kept in order.
   */
  function KeepSlugChars(s: string): (r: string)
    ensures forall i | 0 <= i < |r| :: IsSlugChar(r[i]) && r[i] in s
    ensures (forall i | 0 <= i < |s| :: !IsJsWhitespace(s[i])) ==> SlugChars(r)
    ensures (forall i | 0 <= i < |s| :: IsSlugChar(s[i])) ==> r == s
    ensures (forall i | 0 <= i < |s| :: !IsSlugChar(s[i])) ==> r == []
  {
    forall c ensures InClass(c, SlugClass) <==> IsSlugChar(c) { SlugClassIs(c); }
    RemoveAllFacts(s, Complement(SlugClass));
    RemoveAll(s, Complement(SlugClass))
  }

  /** The filter works piece by piece. */
  lemma KeepSlugCharsAppend(a: string, b: string)
    ensures KeepSlugChars(a + b) == KeepSlugChars(a) + KeepSlugChars(b)
  {
    RemoveAllAppend(a, b, Complement(SlugClass));
  }

  /**
   * `s.replace(/-+/g, '-')`: no "--" is left; apart from hyphens the text is kept in
   * order; a hyphen run alone becomes "-"; and text without "--" is unchanged. With
   * `CollapseHyphensJoin`, each run becomes one "-".
   */
  function CollapseHyphens(s: string): (r: string)
    ensures NoDoubleHyphen(r)
    ensures RemoveAll(r, Single('-')) == RemoveAll(s, Single('-'))
    ensures forall i | 0 <= i < |r| :: r[i] == '-' || r[i] in s
    ensures s != [] && (forall i | 0 <= i < |s| :: s[i] == '-') ==> r == "-"
    ensures SlugChars(s) ==> SlugChars(r)
    ensures NoDoubleHyphen(s) ==> r == s
  {
    ReplaceRunsFacts(s, Single('-'), '-');
    ReplaceRunsKeeps(s, Single('-'), '-', Single('-'));
    ReplaceRuns(s, Single('-'), '-')
  }

  /** Text cut next to a character other than '-' is collapsed piece by piece. */
  lemma CollapseHyphensJoin(a: string, b: string)
    requires a == [] || b == [] || a[|a| - 1] != '-' || b[0] != '-'
    ensures CollapseHyphens(a + b) == CollapseHyphens(a) + CollapseHyphens(b)
  {
    ReplaceRunsJoin(a, b, Single('-'), '-');
  }

  /**
   * `s.replace(/^-|-$/g, '')`: a leading '-' and a trailing '-' are removed, each when
   * present (a lone "-" is both); nothing else changes.
   */
  function TrimHyphens(s: string): (r: string)
    ensures var lo := if s != [] && s[0] == '-' then 1 else 0;
      lo + |r| <= |s| && r == s[lo..lo + |r|]
    ensures |s| - |r| == (if s != [] && s[0] == '-' then 1 else 0) + (if |s| >= 2 && s[|s| - 1] == '-' then 1 else 0)
    ensures NoDoubleHyphen(s) ==> NoDoubleHyphen(r) && (r == [] || (r[0] != '-' && r[|r| - 1] != '-'))
    ensures SlugChars(s) ==> SlugChars(r)
  {
    var lo := if s != [] && s[0] == '-' then 1 else 0;
    var hi := if |s| >= 2 && s[|s| - 1] == '-' then |s| - 1 else |s|;
    SliceKeeps(s, lo, hi);
    s[lo..hi]
  }

  /** A slice of text keeps "no --" and the allowed characters. */
  lemma SliceKeeps(s: string, lo: int, hi: int)
    requires 0 <= lo <= hi <= |s|
    ensures NoDoubleHyphen(s) ==> NoDoubleHyphen(s[lo..hi])
    ensures SlugChars(s) ==> SlugChars(s[lo..hi])
  {
    var r := s[lo..hi];
    assert forall i | 0 <= i < |r| :: r[i] == s[lo + i];
  }

  /** Only hyphens are removed, so a removal that covers '-' sees no change. */
  lemma TrimHyphensKeeps(s: string, wider: CharClass)
    requires InClass('-', wider)
    ensures RemoveAll(TrimHyphens(s), wider) == RemoveAll(s, wider)
  {
    var r := TrimHyphens(s);
    var lo := if s != [] && s[0] == '-' then 1 else 0;
    var head, tail := s[..lo], s[lo + |r|..];
    assert s == head + r + tail;
    assert |head| == 0 || (|head| == 1 && head[0] == '-');
    assert |tail| == 0 || (|tail| == 1 && tail[0] == s[|s| - 1] == '-');
    RemoveAllAround(head, r, tail, wider);
  }

  /** The steps end in a slug. */
  lemma SlugSteps(lower: string)
    ensures IsSlug(TrimHyphens(CollapseHyphens(KeepSlugChars(HyphenateSpaces(Trim(lower))))))
  {
    var filtered := KeepSlugChars(HyphenateSpaces(Trim(lower)));
    assert SlugChars(filtered);
    var collapsed := CollapseHyphens(filtered);
    assert SlugChars(collapsed) && NoDoubleHyphen(collapsed);
  }

  /** Each step keeps the slug letters and digits, in order. */
  lemma SlugKeepsLetters(lower: string)
    ensures RemoveAll(TrimHyphens(CollapseHyphens(KeepSlugChars(HyphenateSpaces(Trim(lower))))), NotKept)
      == RemoveAll(lower, NotKept)
  {
    NotKeptCovers();
    var trimmed := Trim(lower);
    RemoveAllTrim(lower, NotKept);
    var hyphenated := HyphenateSpaces(trimmed);
    ReplaceRunsKeeps(trimmed, Whitespace, '-', NotKept);
    var filtered := KeepSlugChars(hyphenated);
    RemoveAllWithin(hyphenated, Complement(SlugClass), NotKept);
    var collapsed := CollapseHyphens(filtered);
    ReplaceRunsKeeps(filtered, Single('-'), '-', NotKept);
    TrimHyphensKeeps(collapsed, NotKept);
  }

  /**
   * `generateSlug`: lower-case, trim, whitespace runs to "-", drop every character
   * outside the slug class, hyphen runs to one "-", and no hyphen at either end.
   * The result is a slug, and its letters and digits are exactly those of the
   * lower-cased text, in order. The locale argument is not used.
   */
  function GenerateSlug(text: string, locale: Locale): (r: string)
    ensures IsSlug(r)
    ensures RemoveAll(r, NotKept) == RemoveAll(ToLowerAscii(text), NotKept)
  {
    var lower := ToLowerAscii(text);
    SlugSteps(lower);
    SlugKeepsLetters(lower);
    TrimHyphens(CollapseHyphens(KeepSlugChars(HyphenateSpaces(Trim(lower)))))
  }

  /** The slug does not depend on the locale. */
  lemma SlugIgnoresLocale(text: string)
    ensures GenerateSlug(text, Fa) == GenerateSlug(text, En)
  {
  }

  /** Every step of the pipeline leaves a slug unchanged. */
  lemma SlugFixed(s: string, locale: Locale)
    requires IsSlug(s)
    ensures GenerateSlug(s, locale) == s
  {
    assert ToLowerAscii(s) == s by {
      assert forall i | 0 <= i < |s| :: !IsAsciiUpper(s[i]);
    }
    assert Trim(s) == s by {
      assert s == [] || (!IsJsWhitespace(s[0]) && !IsJsWhitespace(s[|s| - 1]));
    }
    assert HyphenateSpaces(s) == s by {
      assert forall i | 0 <= i < |s| :: !IsJsWhitespace(s[i]);
    }
    assert KeepSlugChars(s) == s by {
      assert forall i | 0 <= i < |s| :: IsSlugChar(s[i]);
    }
    assert CollapseHyphens(s) == s;
    assert TrimHyphens(s) == s;
  }

  /** Slugging a slug changes nothing. */
  lemma SlugIdempotent(text: string, locale: Locale)
    ensures GenerateSlug(GenerateSlug(text, locale), locale) == GenerateSlug(text, locale)
  {
    SlugFixed(GenerateSlug(text, locale), locale);
  }

  // ---------------------------------------------------------------------------
  // isValidEmail

  predicate NotSpaceOrAt(c: char) { !IsJsWhitespace(c) && c != '@' }

  /** `[^\s@]`. */
  const EmailChars: CharClass := Complement(Union(Whitespace, Single('@')))

  lemma EmailCharsAre(c: char)
    ensures InClass(c, EmailChars) <==> NotSpaceOrAt(c)
  {
  }

  /** `^[^\s@]+@[^\s@]+\.[^\s@]+$`. */
  const EmailPattern: seq<Term> := [
    Plus(EmailChars), One(Single('@')), Plus(EmailChars), One(Single('.')), Plus(EmailChars)
  ]

  /** `isValidEmail`. */
  function IsValidEmail(email: string): bool {
    Matches(EmailPattern, email)
  }

  /**
   * The strings `isValidEmail` accepts, in plain terms: exactly one "@", with something
   * before it; no whitespace; and a "." in the domain that is neither its first nor its
   * last character.
   */
  predicate EmailShape(e: string) {
    var at := IndexOf(e, '@');
    && at > 0
    && '@' !in e[at + 1..]
    && (forall i | 0 <= i < |e| :: !IsJsWhitespace(e[i]))
    && exists j | at + 1 < j < |e| - 1 :: e[j] == '.'
  }

  /** The pattern's terms after the first `k`. */
  lemma EmailPatternTails()
    ensures EmailPattern[1..][0] == EmailPattern[1] && EmailPattern[1..][1..] == EmailPattern[2..]
    ensures EmailPattern[2..][0] == EmailPattern[2] && EmailPattern[2..][1..] == EmailPattern[3..]
    ensures EmailPattern[3..][0] == EmailPattern[3] && EmailPattern[3..][1..] == EmailPattern[4..]
    ensures EmailPattern[4..][0] == EmailPattern[4] && EmailPattern[4..][1..] == []
  {
  }

  /** A `[^\s@]+` run of the pattern, read back as positions. */
  lemma EmailRunAt(i: nat, e: string, lo: int) returns (mid: int)
    requires i == 0 || i == 2 || i == 4
    requires 0 <= lo <= |e| && Matches(EmailPattern[i..], e[lo..])
    ensures lo < mid <= |e|
    ensures forall k | lo <= k < mid :: NotSpaceOrAt(e[k])
    ensures i < 4 ==> Matches(EmailPattern[i + 1..], e[mid..])
    ensures i == 4 ==> mid == |e|
  {
    EmailPatternTails();
    mid := UnpackAt(EmailPattern[i..], e, lo);
    forall k | lo <= k < mid ensures NotSpaceOrAt(e[k]) {
      EmailCharsAre(e[k]);
    }
  }

  /** A one-character term of the pattern (`@` or `.`), read back as a position. */
  lemma EmailSignAt(i: nat, e: string, lo: int)
    requires i == 1 || i == 3
    requires 0 <= lo <= |e| && Matches(EmailPattern[i..], e[lo..])
    ensures lo < |e| && e[lo] == (if i == 1 then '@' else '.')
    ensures Matches(EmailPattern[i + 1..], e[lo + 1..])
  {
    EmailPatternTails();
    var mid := UnpackAt(EmailPattern[i..], e, lo);
    assert mid == lo + 1;
  }

  /** A match of `\.[^\s@]+$` from `lo`. */
  lemma EmailFromDot(e: string, lo: int)
    requires 0 <= lo <= |e| && Matches(EmailPattern[3..], e[lo..])
    ensures lo < |e| - 1 && e[lo] == '.'
    ensures forall k | lo < k < |e| :: NotSpaceOrAt(e[k])
  {
    EmailSignAt(3, e, lo);
    var end := EmailRunAt(4, e, lo + 1);
  }

  /** A match of `[^\s@]+\.[^\s@]+$` from `lo`. */
  lemma EmailFromDomain(e: string, lo: int) returns (j: int)
    requires 0 <= lo <= |e| && Matches(EmailPattern[2..], e[lo..])
    ensures lo < j < |e| - 1 && e[j] == '.'
    ensures forall k | lo <= k < |e| && k != j :: NotSpaceOrAt(e[k])
  {
    j := EmailRunAt(2, e, lo);
    EmailFromDot(e, j);
  }

  /** A match of `@[^\s@]+\.[^\s@]+$` from `lo`. */
  lemma EmailFromAt(e: string, lo: int) returns (j: int)
    requires 0 <= lo <= |e| && Matches(EmailPattern[1..], e[lo..])
    ensures lo + 1 < j < |e| - 1 && e[lo] == '@' && e[j] == '.'
    ensures forall k | lo < k < |e| && k != j :: NotSpaceOrAt(e[k])
  {
    EmailSignAt(1, e, lo);
    j := EmailFromDomain(e, lo + 1);
  }

  /** A match of the pattern splits `e` at its '@' and a later '.' into three `[^\s@]+` runs. */
  lemma EmailPositions(e: string) returns (at: int, j: int)
    requires IsValidEmail(e)
    ensures 0 < at && at + 1 < j < |e| - 1 && e[at] == '@' && e[j] == '.'
    ensures forall k | 0 <= k < |e| && k != at && k != j :: NotSpaceOrAt(e[k])
  {
    assert e[0..] == e;
    at := EmailRunAt(0, e, 0);
    j := EmailFromAt(e, at);
  }

  /** Whatever the pattern accepts has the plain shape. */
  lemma EmailMatchHasShape(e: string)
    requires IsValidEmail(e)
    ensures EmailShape(e)
  {
    var at, j := EmailPositions(e);
    IndexOfAt(e, '@', at);
    forall k | 0 <= k < |e| ensures !IsJsWhitespace(e[k]) {
      if k != at && k != j { assert NotSpaceOrAt(e[k]); }
    }
    forall k | at + 1 <= k < |e| ensures e[k] != '@' {
      if k != j { assert NotSpaceOrAt(e[k]); }
    }
    assert '@' !in e[at + 1..];
  }

  /** A `[^\s@]+` run of the pattern, built from positions. */
  lemma EmailRunFrom(i: nat, e: string, lo: int, mid: int)
    requires i == 0 || i == 2 || i == 4
    requires 0 <= lo < mid <= |e|
    requires forall k | lo <= k < mid :: NotSpaceOrAt(e[k])
    requires i < 4 ==> Matches(EmailPattern[i + 1..], e[mid..])
    requires i == 4 ==> mid == |e|
    ensures Matches(EmailPattern[i..], e[lo..])
  {
    EmailPatternTails();
    forall k | lo <= k < mid ensures InClass(e[k], EmailChars) {
      EmailCharsAre(e[k]);
    }
    assert Matches(EmailPattern[i..][1..], e[mid..]);
    MatchAt(EmailPattern[i..], e, lo, mid);
  }

  /** A one-character term of the pattern (`@` or `.`), built from a position. */
  lemma EmailSignFrom(i: nat, e: string, lo: int)
    requires i == 1 || i == 3
    requires 0 <= lo < |e| && e[lo] == (if i == 1 then '@' else '.')
    requires Matches(EmailPattern[i + 1..], e[lo + 1..])
    ensures Matches(EmailPattern[i..], e[lo..])
  {
    EmailPatternTails();
    MatchAt(EmailPattern[i..], e, lo, lo + 1);
  }

  /** `\.[^\s@]+$` accepts the suffix from a '.' followed by a non-empty run. */
  lemma EmailToDot(e: string, j: int)
    requires 0 <= j < |e| - 1 && e[j] == '.'
    requires forall k | j < k < |e| :: NotSpaceOrAt(e[k])
    ensures Matches(EmailPattern[3..], e[j..])
  {
    EmailRunFrom(4, e, j + 1, |e|);
    EmailSignFrom(3, e, j);
  }

  /** `[^\s@]+\.[^\s@]+$` accepts the suffix from `lo`. */
  lemma EmailToDomain(e: string, lo: int, j: int)
    requires 0 <= lo < j < |e| - 1 && e[j] == '.'
    requires forall k | lo <= k < |e| && k != j :: NotSpaceOrAt(e[k])
    ensures Matches(EmailPattern[2..], e[lo..])
  {
    EmailToDot(e, j);
    EmailRunFrom(2, e, lo, j);
  }

  /** `@[^\s@]+\.[^\s@]+$` accepts the suffix from an '@'. */
  lemma EmailToAt(e: string, at: int, j: int)
    requires 0 <= at && at + 1 < j < |e| - 1 && e[at] == '@' && e[j] == '.'
    requires forall k | at < k < |e| && k != j :: NotSpaceOrAt(e[k])
    ensures Matches(EmailPattern[1..], e[at..])
  {
    EmailToDomain(e, at + 1, j);
    EmailSignFrom(1, e, at);
  }

  /** The pattern accepts `e` when its '@' and a later '.' split it into three `[^\s@]+` runs. */
  lemma EmailFromPositions(e: string, at: int, j: int)
    requires 0 < at && at + 1 < j < |e| - 1 && e[at] == '@' && e[j] == '.'
    requires forall k | 0 <= k < |e| && k != at && k != j :: NotSpaceOrAt(e[k])
    ensures IsValidEmail(e)
  {
    EmailToAt(e, at, j);
    EmailRunFrom(0, e, 0, at);
    assert e[0..] == e;
  }

  /** Whatever has the plain shape is accepted by the pattern. */
  lemma EmailShapeMatches(e: string)
    requires EmailShape(e)
    ensures IsValidEmail(e)
  {
    var at := IndexOf(e, '@');
    var j :| at + 1 < j < |e| - 1 && e[j] == '.';
    forall k | 0 <= k < |e| && k != at && k != j ensures NotSpaceOrAt(e[k]) {
      if k < at { assert e[..at][k] == e[k]; }
      else { assert e[at + 1..][k - at - 1] == e[k]; }
    }
    EmailFromPositions(e, at, j);
  }

  /** `isValidEmail` accepts exactly the strings of the plain shape. */
  lemma EmailPatternAccepts(e: string)
    ensures IsValidEmail(e) <==> EmailShape(e)
  {
    if IsValidEmail(e) { EmailMatchHasShape(e); }
    if EmailShape(e) { EmailShapeMatches(e); }
  }

  /** "not-an-email" has no "@" and is rejected. */
  lemma RejectsNotAnEmail()
    ensures !IsValidEmail("not-an-email")
  {
    NoAtSign("not-an-email");
    EmailPatternAccepts("not-an-email");
  }

  lemma NoAtSign(e: string)
    requires e == "not-an-email"
    ensures !EmailShape(e)
  {
    assert '@' !in e;
    assert IndexOf(e, '@') < 0;
  }
}
