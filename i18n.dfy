/**
 * The translation layer of `src/lib/i18n.ts`: the language names, the Persian and
 * English tables, locale extraction from a URL path, the lookup with its one-hop
 * fallback to Persian, and locale-prefixed paths.
 */
module I18n {
  import opened Wrappers
  import opened JsStrings
  import opened Locales

  /** `languages`: the native name of each locale. */
  function LanguageName(l: Locale): (name: string)
    ensures name != []
  {
    match l
    case Fa => "فارسی"
    case En => "English"
  }

  /** `defaultLang`. */
  const DefaultLang: Locale := Fa

  /** The translation keys: the keys of the Persian table, which type the lookup. */
  datatype Key =
      SiteTitle
    | SiteDescription
    | NavHome
    | NavAbout
    | NavProcesses
    | NavEquipment
    | NavQuality
    | NavContact
    | HeroTitle
    | HeroSubtitle
    | HeroCtaPrimary
    | HeroCtaSecondary
    | AboutTitle
    | AboutSubtitle
    | AboutFeature1Title
    | AboutFeature1Description
    | AboutFeature2Title
    | AboutFeature2Description
    | AboutFeature3Title
    | AboutFeature3Description
    | AboutFeature4Title
    | AboutFeature4Description
    | ProcessesTitle
    | ProcessesSubtitle
    | ProcessesAnnealingTitle
    | ProcessesAnnealingDescription
    | ProcessesDrawingTitle
    | ProcessesDrawingDescription
    | ProcessesQualityTitle
    | ProcessesQualityDescription
    | EquipmentTitle
    | EquipmentSubtitle
    | EquipmentFurnaceTitle
    | EquipmentFurnaceDescription
    | EquipmentDrawingTitle
    | EquipmentDrawingDescription
    | QualityTitle
    | QualitySubtitle
    | ContactTitle
    | ContactSubtitle
    | ContactFormName
    | ContactFormEmail
    | ContactFormPhone
    | ContactFormMessage
    | ContactFormSubmit
    | ContactInfoAddress
    | ContactInfoPhone
    | ContactInfoEmail
    | FooterRights
    | FooterAbout
    | FooterServices
    | FooterContact

  /** A translation table for one locale. */
  type Bundle = map<Key, string>

  /** The Persian text of each key, as listed in `ui.fa`. */
  function FaText(k: Key): (text: string)
    ensures |text| > 0
  {
    match k
    case SiteTitle =>
      "تالیمان "
      + "ساخته‌های فلزی "
      + "کارا"
    case SiteDescription =>
      "متخصص در فرآوری "
      + "سیم فولادی CHQ "
      + "برای تولید "
      + "قطعات خودرو و "
      + "پیچ و مهره"
    case NavHome => "خانه"
    case NavAbout => "درباره ما"
    case NavProcesses => "فرآیندها"
    case NavEquipment => "تجهیزات"
    case NavQuality => "کیفیت"
    case NavContact => "تماس با ما"
    case HeroTitle =>
      "پیشرو در فرآوری "
      + "سیم فولادی CHQ"
    case HeroSubtitle =>
      "تولیدکننده "
      + "سیم‌های فولادی "
      + "با کیفیت "
      + "سرد‌کاری برای "
      + "صنعت خودرو و "
      + "پیچ و مهره"
    case HeroCtaPrimary => "مشاهده محصولات"
    case HeroCtaSecondary => "تماس با ما"
    case AboutTitle => "درباره تالیمان"
    case AboutSubtitle =>
      "با بیش از دو "
      + "دهه تجربه در "
      + "فرآوری سیم "
      + "فولادی، تالیمان "
      + "ساخته‌های فلزی "
      + "کارا با استفاده "
      + "از پیشرفته‌ترین "
      + "تجهیزات و "
      + "استانداردهای "
      + "کیفیت جهانی، "
      + "محصولاتی با "
      + "کیفیت برتر برای "
      + "صنایع خودرو و "
      + "قطعه‌سازی ارائه "
      + "می‌دهد."
    case AboutFeature1Title => "تجهیزات پیشرفته"
    case AboutFeature1Description =>
      "کوره‌های آنیل و "
      + "کشش سیم با "
      + "تکنولوژی روز "
      + "دنیا"
    case AboutFeature2Title => "کیفیت تضمین‌شده"
    case AboutFeature2Description =>
      "گواهینامه‌های "
      + "بین‌المللی و "
      + "کنترل کیفیت دقیق"
    case AboutFeature3Title => "تجربه و تخصص"
    case AboutFeature3Description =>
      "بیش از ۲۰ سال "
      + "تجربه در صنعت "
      + "فلز"
    case AboutFeature4Title => "خدمات سفارشی"
    case AboutFeature4Description =>
      "تولید مطابق "
      + "نیاز مشتری و "
      + "مشاوره تخصصی"
    case ProcessesTitle => "فرآیندهای تولید"
    case ProcessesSubtitle =>
      "تکنولوژی "
      + "پیشرفته برای "
      + "کیفیت برتر"
    case ProcessesAnnealingTitle => "آنیل و کروی‌سازی"
    case ProcessesAnnealingDescription =>
      "فرآیند حرارتی "
      + "تخصصی برای "
      + "بهبود خواص "
      + "مکانیکی سیم"
    case ProcessesDrawingTitle => "کشش سیم"
    case ProcessesDrawingDescription =>
      "کاهش قطر سیم با "
      + "دقت بالا و سطح "
      + "صیقلی"
    case ProcessesQualityTitle => "کنترل کیفیت"
    case ProcessesQualityDescription =>
      "آزمایش‌های دقیق "
      + "در تمام مراحل "
      + "تولید"
    case EquipmentTitle =>
      "تجهیزات و "
      + "امکانات"
    case EquipmentSubtitle =>
      "ماشین‌آلات مدرن "
      + "برای تولید با "
      + "کیفیت"
    case EquipmentFurnaceTitle =>
      "کوره‌های آنیل "
      + "زنگوله‌ای"
    case EquipmentFurnaceDescription =>
      "کوره‌های حرارتی "
      + "با کنترل دقیق "
      + "دما و اتمسفر"
    case EquipmentDrawingTitle => "خطوط کشش سیم"
    case EquipmentDrawingDescription =>
      "ماشین‌آلات کشش "
      + "با دقت میکرومتری"
    case QualityTitle =>
      "کیفیت و "
      + "استانداردها"
    case QualitySubtitle =>
      "تعهد به برترین "
      + "استانداردهای "
      + "جهانی"
    case ContactTitle => "تماس با ما"
    case ContactSubtitle =>
      "با کارشناسان ما "
      + "در ارتباط باشید"
    case ContactFormName =>
      "نام و نام "
      + "خانوادگی"
    case ContactFormEmail => "ایمیل"
    case ContactFormPhone => "شماره تماس"
    case ContactFormMessage => "پیام شما"
    case ContactFormSubmit => "ارسال پیام"
    case ContactInfoAddress => "آدرس"
    case ContactInfoPhone => "تلفن"
    case ContactInfoEmail => "ایمیل"
    case FooterRights =>
      "تمامی حقوق "
      + "محفوظ است"
    case FooterAbout => "درباره ما"
    case FooterServices => "خدمات"
    case FooterContact => "تماس"
  }

  /** The Persian table, `ui.fa`. */
  const FaTable: Bundle := map k: Key :: FaText(k)

  /** The English text of each key, as listed in `ui.en`. */
  function EnText(k: Key): (text: string)
    ensures |text| > 0
  {
    match k
    case SiteTitle =>
      "Taliman "
      + "Sakhtehaye "
      + "Felezi Kara"
    case SiteDescription =>
      "Specialists in "
      + "CHQ wire "
      + "processing for "
      + "automotive "
      + "fastener "
      + "industry"
    case NavHome => "Home"
    case NavAbout => "About"
    case NavProcesses => "Processes"
    case NavEquipment => "Equipment"
    case NavQuality => "Quality"
    case NavContact => "Contact"
    case HeroTitle =>
      "Leading CHQ "
      + "Wire Processing"
    case HeroSubtitle =>
      "Cold Heading "
      + "Quality wire "
      + "specialists for "
      + "automotive and "
      + "fastener "
      + "industries"
    case HeroCtaPrimary => "View Products"
    case HeroCtaSecondary => "Contact Us"
    case AboutTitle => "About Taliman"
    case AboutSubtitle =>
      "With over two "
      + "decades of "
      + "experience in "
      + "steel wire "
      + "processing, "
      + "Taliman "
      + "Sakhtehaye "
      + "Felezi Kara "
      + "delivers "
      + "premium quality "
      + "products for "
      + "automotive and "
      + "manufacturing "
      + "industries "
      + "using "
      + "state-of-the-art "
      + "equipment and "
      + "international "
      + "quality "
      + "standards."
    case AboutFeature1Title =>
      "Advanced "
      + "Equipment"
    case AboutFeature1Description =>
      "Bell-type "
      + "annealing "
      + "furnaces and "
      + "wire drawing "
      + "lines with "
      + "world-class "
      + "technology"
    case AboutFeature2Title =>
      "Guaranteed "
      + "Quality"
    case AboutFeature2Description =>
      "International "
      + "certifications "
      + "and rigorous "
      + "quality control"
    case AboutFeature3Title =>
      "Experience & "
      + "Expertise"
    case AboutFeature3Description =>
      "Over 20 years "
      + "of experience "
      + "in metal "
      + "industry"
    case AboutFeature4Title => "Custom Solutions"
    case AboutFeature4Description =>
      "Tailored "
      + "production and "
      + "expert "
      + "consultation "
      + "services"
    case ProcessesTitle =>
      "Manufacturing "
      + "Processes"
    case ProcessesSubtitle =>
      "Advanced "
      + "technology for "
      + "superior quality"
    case ProcessesAnnealingTitle =>
      "Annealing & "
      + "Spheroidizing"
    case ProcessesAnnealingDescription =>
      "Specialized "
      + "heat treatment "
      + "to enhance wire "
      + "mechanical "
      + "properties"
    case ProcessesDrawingTitle => "Wire Drawing"
    case ProcessesDrawingDescription =>
      "High-precision "
      + "diameter "
      + "reduction with "
      + "polished "
      + "surface finish"
    case ProcessesQualityTitle => "Quality Control"
    case ProcessesQualityDescription =>
      "Rigorous "
      + "testing "
      + "throughout all "
      + "production "
      + "stages"
    case EquipmentTitle =>
      "Equipment & "
      + "Facilities"
    case EquipmentSubtitle =>
      "Modern "
      + "machinery for "
      + "quality "
      + "production"
    case EquipmentFurnaceTitle =>
      "Bell-type "
      + "Annealing "
      + "Furnaces"
    case EquipmentFurnaceDescription =>
      "Heat treatment "
      + "furnaces with "
      + "precise "
      + "temperature and "
      + "atmosphere "
      + "control"
    case EquipmentDrawingTitle =>
      "Wire Drawing "
      + "Lines"
    case EquipmentDrawingDescription =>
      "Drawing "
      + "machinery with "
      + "micrometric "
      + "precision"
    case QualityTitle =>
      "Quality & "
      + "Standards"
    case QualitySubtitle =>
      "Commitment to "
      + "world-class "
      + "excellence"
    case ContactTitle => "Contact Us"
    case ContactSubtitle =>
      "Get in touch "
      + "with our experts"
    case ContactFormName => "Full Name"
    case ContactFormEmail => "Email"
    case ContactFormPhone => "Phone Number"
    case ContactFormMessage => "Your Message"
    case ContactFormSubmit => "Send Message"
    case ContactInfoAddress => "Address"
    case ContactInfoPhone => "Phone"
    case ContactInfoEmail => "Email"
    case FooterRights =>
      "All rights "
      + "reserved"
    case FooterAbout => "About"
    case FooterServices => "Services"
    case FooterContact => "Contact"
  }

  /** The English table, `ui.en`. */
  const EnTable: Bundle := map k: Key :: EnText(k)

  /** `ui[lang]`. */
  function Ui(l: Locale): Bundle {
    match l
    case Fa => FaTable
    case En => EnTable
  }

  /** Both tables define every key, with the same key set, and no value is empty. */
  lemma TablesComplete()
    ensures FaTable.Keys == EnTable.Keys
    ensures forall k: Key :: k in FaTable && k in EnTable
    ensures forall k: Key :: FaTable[k] != [] && EnTable[k] != []
  {
  }

  /**
   * `active[key] || fallback[key]`: the active table's text when it is present and
   * non-empty, otherwise the fallback table's entry (`undefined` when it has none).
   * The value always comes from one of the two tables: there is no further hop.
   */
  function Lookup(active: Bundle, fallback: Bundle, key: Key): (r: Option<string>)
    ensures key in active && active[key] != [] ==> r == Some(active[key])
    ensures r.Some? ==> (key in active && r.value == active[key]) || (key in fallback && r.value == fallback[key])
    ensures r.None? <==> (key !in active || active[key] == []) && key !in fallback
    ensures r.Some? && r.value == [] ==> key in fallback && fallback[key] == []
  {
    if key in active && active[key] != [] then Some(active[key])
    else if key in fallback then Some(fallback[key])
    else None
  }

  /** Looking up with the fallback table itself as the active one is a plain table read. */
  lemma LookupSelf(b: Bundle, key: Key)
    ensures Lookup(b, b, key) == if key in b then Some(b[key]) else None
  {
  }

  /**
   * `useTranslations(lang)(key)`. Because both tables are complete and non-empty,
   * the result is always the active table's own text: English never falls back.
   */
  function T(lang: Locale, key: Key): (r: string)
    ensures r != []
    ensures r == Ui(lang)[key]
    ensures lang == Fa ==> r == FaTable[key]
    ensures lang == En ==> r == EnTable[key]
  {
    TablesComplete();
    Lookup(Ui(lang), Ui(DefaultLang), key).value
  }

  /**
   * `getLangFromUrl`: the second `/`-separated segment of the path when it is a
   * supported code, otherwise the default locale.
   */
  function GetLangFromUrl(pathname: string): (r: Locale)
    ensures var parts := Split(pathname, '/');
      |parts| >= 2 && (parts[1] == "fa" || parts[1] == "en") ==> Code(r) == parts[1]
    ensures var parts := Split(pathname, '/');
      r != DefaultLang ==> |parts| >= 2 && parts[1] == Code(r)
  {
    var parts := Split(pathname, '/');
    if |parts| >= 2 && ParseLocale(parts[1]).Some? then ParseLocale(parts[1]).value else DefaultLang
  }

  /**
   * The property names every object literal inherits from `Object.prototype`; the
   * `in` operator finds them on `ui` as well as its own keys.
   */
  const InheritedNames: set<string> := {
    "constructor", "hasOwnProperty", "isPrototypeOf", "propertyIsEnumerable",
    "toLocaleString", "toString", "valueOf", "__proto__",
    "__defineGetter__", "__defineSetter__", "__lookupGetter__", "__lookupSetter__"
  }

  /** `name in ui`, as JavaScript evaluates it. */
  predicate InUi(name: string) {
    ParseLocale(name).Some? || name in InheritedNames
  }

  /**
   * `getLangFromUrl` exactly as written: the second segment is returned whenever
   * `in` finds it on `ui`, inherited names included.
   */
  function GetLangFromUrlAsWritten(pathname: string): (lang: string)
    ensures InUi(lang)
    ensures lang !in InheritedNames ==> lang == Code(GetLangFromUrl(pathname))
  {
    var parts := Split(pathname, '/');
    if |parts| >= 2 && InUi(parts[1]) then parts[1] else Code(DefaultLang)
  }

  /** The second segment of a path that starts with '/', ends at the next '/'. */
  lemma SecondSegment(p: string, k: int)
    requires 1 <= k < |p| && p[0] == '/' && p[k] == '/' && '/' !in p[1..k]
    ensures |Split(p, '/')| >= 2 && Split(p, '/')[1] == p[1..k]
  {
    var rest := p[1..];
    SecondIsRestHead(p);
    assert rest[..k - 1] == p[1..k];
    HeadUpTo(rest, k - 1);
  }

  /** After a leading '/', the second part of the split is the first part of the rest. */
  lemma SecondIsRestHead(p: string)
    requires |p| >= 1 && p[0] == '/'
    ensures |Split(p, '/')| >= 2 && Split(p, '/')[1] == Split(p[1..], '/')[0]
  {
    IndexOfAt(p, '/', 0);
    SplitSecond(p, '/');
  }

  /** The first part of a split ends at the first separator. */
  lemma HeadUpTo(s: string, j: int)
    requires 0 <= j < |s| && s[j] == '/' && '/' !in s[..j]
    ensures Split(s, '/')[0] == s[..j]
  {
    IndexOfAt(s, '/', j);
    SplitHead(s, '/');
  }

  /** "/constructor/about" is read as the language "constructor", which is no locale. */
  lemma InheritedNameIsReadAsLanguage()
    ensures GetLangFromUrlAsWritten("/constructor/about") == "constructor"
    ensures ParseLocale("constructor").None?
    ensures GetLangFromUrl("/constructor/about") == Fa
  {
    ConstructorSegment("/constructor/about");
  }

  lemma ConstructorSegment(p: string)
    requires p == "/constructor/about"
    ensures GetLangFromUrlAsWritten(p) == "constructor"
    ensures ParseLocale(GetLangFromUrlAsWritten(p)).None?
    ensures GetLangFromUrl(p) == Fa
  {
    var second := p[1..12];
    assert second == "constructor";
    assert |Split(p, '/')| >= 2 && Split(p, '/')[1] == second by {
      assert '/' !in second;
      SecondSegment(p, 12);
    }
    assert second in InheritedNames && ParseLocale(second).None?;
  }


  /** After the first separator, the second part of a split is the first part of the rest. */
  lemma SplitSecond(s: string, sep: char)
    ensures var k := IndexOf(s, sep);
      k >= 0 ==> |Split(s, sep)| >= 2 && Split(s, sep)[1] == Split(s[k + 1..], sep)[0]
    ensures IndexOf(s, sep) < 0 ==> |Split(s, sep)| == 1
  {
  }

  /** The first part of a split is exactly "en" iff the string is "en" or starts with "en/". */
  lemma SplitHeadIsEn(rest: string)
    ensures Split(rest, '/')[0] == "en" <==> rest == "en" || "en/" <= rest
  {
    SplitHead(rest, '/');
    var k := IndexOf(rest, '/');
    if "en/" <= rest {
      assert rest[..2] == "en";
      IndexOfAt(rest, '/', 2);
    }
    if k >= 0 && rest[..k] == "en" {
      assert "en/" == rest[..3];
    }
  }

  /**
   * The path selects English exactly when the text after its first `/` is "en" or
   * starts with "en/"; every other path (including "/", "" and "/de/about") gets Persian.
   */
  lemma {:induction false} LangFromUrlEn(pathname: string)
    ensures var k := IndexOf(pathname, '/');
      GetLangFromUrl(pathname) == En <==> k >= 0 && (pathname[k + 1..] == "en" || "en/" <= pathname[k + 1..])
    ensures GetLangFromUrl(pathname) == Fa <==> GetLangFromUrl(pathname) != En
  {
    var k := IndexOf(pathname, '/');
    if k >= 0 {
      var rest := pathname[k + 1..];
      var head := Split(rest, '/')[0];
      assert GetLangFromUrl(pathname) == En <==> head == "en" by {
        LangIsSecondSegment(pathname);
        SplitSecond(pathname, '/');
      }
      assert head == "en" <==> rest == "en" || "en/" <= rest by {
        SplitHeadIsEn(rest);
      }
    } else {
      assert GetLangFromUrl(pathname) != En by {
        LangIsSecondSegment(pathname);
        SplitSecond(pathname, '/');
      }
    }
  }

  /** English is chosen exactly when there is a second segment and it is "en". */
  lemma LangIsSecondSegment(pathname: string)
    ensures var parts := Split(pathname, '/');
      GetLangFromUrl(pathname) == En <==> |parts| >= 2 && parts[1] == "en"
  {
    var parts := Split(pathname, '/');
    if |parts| >= 2 && parts[1] == "en" {
      assert ParseLocale(parts[1]) == Some(En);
    }
  }

  /** The root path gives the default locale. */
  lemma RootIsDefault()
    ensures GetLangFromUrl("/") == Fa
  {
    IndexOfAt("/", '/', 0);
    LangFromUrlEn("/");
  }

  /** An unsupported prefix gives the default locale (this layer never reports not-found). */
  lemma UnknownPrefixIsDefault()
    ensures GetLangFromUrl("/de/about") == Fa
  {
    var p := "/de/about";
    IndexOfAt(p, '/', 0);
    LangFromUrlEn(p);
    assert p[1..][0] == 'd';
  }

  /**
   * `getLocalizedPath`: Persian paths are unprefixed; English paths get "/en",
   * with the root becoming "/en" itself.
   */
  function GetLocalizedPath(path: string, lang: Locale): (r: string)
    ensures lang == Fa ==> r == path
    ensures lang == En ==> "/en" <= r
    ensures lang == En && path == "/" ==> r == "/en"
    ensures lang == En && path != "/" ==> r[3..] == path
  {
    if lang == DefaultLang then (if path == "/" then "/" else path)
    else "/" + Code(lang) + (if path == "/" then "" else path)
  }

  /**
   * A path localized for English is read back as English. A Persian path is left as it
   * is, so it reads back as Persian exactly when it is neither "/en" nor under "/en/".
   */
  lemma {:induction false} LocalizedPathRoundTrip(path: string, lang: Locale)
    requires path != [] && path[0] == '/'
    ensures lang == En ==> GetLangFromUrl(GetLocalizedPath(path, lang)) == En
    ensures lang == Fa ==> (GetLangFromUrl(GetLocalizedPath(path, lang)) == Fa
      <==> !(path[1..] == "en" || "en/" <= path[1..]))
  {
    if lang == Fa {
      IndexOfAt(path, '/', 0);
      LangFromUrlEn(path);
    }
    if lang == En {
      var p := GetLocalizedPath(path, En);
      IndexOfAt(p, '/', 0);
      LangFromUrlEn(p);
      if path != "/" {
        assert p[1..] == "en" + path;
        assert "en/" <= p[1..];
      } else {
        assert p[1..] == "en";
      }
    }
  }
}
