/**
 * The contact form's validation schema, the international phone schema and
 * `sanitizeString` (src/lib/validations.ts), with the length limits of
 * `VALIDATION_RULES` (src/lib/constants.ts).
 *
 * A zod string schema is a list of checks run in order; every failing check adds
 * one problem, so a single field can report several. The schema is data here
 * (`StringCheck`), and each field's problems are computed the way zod computes them.
 */
module Validations {
  import opened Wrappers
  import opened JsStrings
  import opened Regex
  import opened Locales

  // ---------------------------------------------------------------------------
  // VALIDATION_RULES

  const NameMinLength: nat := 2
  const NameMaxLength: nat := 100
  const EmailMaxLength: nat := 254
  const PhoneMinLength: nat := 10
  const PhoneMaxLength: nat := 15
  const MessageMinLength: nat := 10
  const MessageMaxLength: nat := 1000
  const CompanyMaxLength: nat := 100

  // ---------------------------------------------------------------------------
  // String checks

  datatype StringCheck = MinLength(n: nat) | MaxLength(n: nat) | Pattern(re: seq<Term>) | EmailFormat

  /** What a failed check reports. */
  datatype Problem = Required | TooShort | TooLong | BadFormat | NotAnOption | MustBeEmpty | MustAgree

  /**
   * Whether `s` passes one check. zod's own e-mail pattern is not part of this model:
   * `isEmail` stands for it.
   */
  predicate Passes(s: string, check: StringCheck, isEmail: string -> bool) {
    match check
    case MinLength(n) => |s| >= n
    case MaxLength(n) => |s| <= n
    case Pattern(re) => Matches(re, s)
    case EmailFormat => isEmail(s)
  }

  function ProblemOf(check: StringCheck): Problem {
    match check
    case MinLength(_) => TooShort
    case MaxLength(_) => TooLong
    case Pattern(_) => BadFormat
    case EmailFormat => BadFormat
  }

  /** Runs every check on `s`: one problem per failing check, in the order of the checks. */
  function CheckString(s: string, checks: seq<StringCheck>, isEmail: string -> bool): (problems: seq<Problem>)
    ensures |problems| <= |checks|
    ensures problems == [] <==> forall i | 0 <= i < |checks| :: Passes(s, checks[i], isEmail)
    ensures forall i | 0 <= i < |checks| :: !Passes(s, checks[i], isEmail) ==> ProblemOf(checks[i]) in problems
    ensures forall p | p in problems ::
      exists i | 0 <= i < |checks| :: !Passes(s, checks[i], isEmail) && ProblemOf(checks[i]) == p
  {
    if checks == [] then []
    else
      var rest := CheckString(s, checks[1..], isEmail);
      assert forall i | 1 <= i < |checks| :: checks[1..][i - 1] == checks[i];
      (if Passes(s, checks[0], isEmail) then [] else [ProblemOf(checks[0])]) + rest
  }

  // ---------------------------------------------------------------------------
  // Character classes and patterns of the contact form

  /** `[a-zA-Z\u0600-\u06FF\u0750-\u077F\u08A0-\u08FF\uFB50-\uFDFF\uFE70-\uFEFF\s]`. */
  const NameClass: CharClass :=
    Union(Range('a', 'z'), Union(Range('A', 'Z'),
    Union(Range('\U{0600}', '\U{06FF}'), Union(Range('\U{0750}', '\U{077F}'), Union(Range('\U{08A0}', '\U{08FF}'),
    Union(Range('\U{FB50}', '\U{FDFF}'), Union(Range('\U{FE70}', '\U{FEFF}'),
    Whitespace)))))))

  /** Latin letters, the Arabic-script blocks and whitespace. */
  predicate IsNameChar(c: char) {
    || IsAsciiLower(c) || IsAsciiUpper(c)
    || '\U{0600}' <= c <= '\U{06FF}' || '\U{0750}' <= c <= '\U{077F}' || '\U{08A0}' <= c <= '\U{08FF}'
    || '\U{FB50}' <= c <= '\U{FDFF}' || '\U{FE70}' <= c <= '\U{FEFF}'
    || IsJsWhitespace(c)
  }

  lemma NameCharsAre(c: char)
    ensures InClass(c, NameClass) <==> IsNameChar(c)
  {
  }

  /** `^[…]+$` for names. */
  const NamePattern: seq<Term> := [Plus(NameClass)]

  lemma NamePatternAccepts(s: string)
    ensures Matches(NamePattern, s) <==> s != [] && forall i | 0 <= i < |s| :: IsNameChar(s[i])
  {
    MatchOne(NamePattern[0], s);
    forall i | 0 <= i < |s| ensures InClass(s[i], NameClass) <==> IsNameChar(s[i]) {
      NameCharsAre(s[i]);
    }
  }

  /** `[0-9\s\-\(\)]`. */
  const PhoneClass: CharClass := Union(Range('0', '9'), Union(Whitespace, Union(Single('-'), Union(Single('('), Single(')')))))

  predicate IsPhoneChar(c: char) {
    IsAsciiDigit(c) || IsJsWhitespace(c) || c == '-' || c == '(' || c == ')'
  }

  lemma PhoneCharsAre(c: char)
    ensures InClass(c, PhoneClass) <==> IsPhoneChar(c)
  {
  }

  /** `^[\+]?[0-9\s\-\(\)]+$` for the contact form's phone. */
  const PhonePattern: seq<Term> := [Opt(Single('+')), Plus(PhoneClass)]

  /** All characters from `from` on are phone characters, and there is at least one. */
  predicate PhoneRun(s: string, from: nat) {
    from < |s| && forall i | from <= i < |s| :: IsPhoneChar(s[i])
  }

  lemma PhonePatternAccepts(s: string)
    ensures Matches(PhonePattern, s) <==> PhoneRun(s, 0) || (s != [] && s[0] == '+' && PhoneRun(s, 1))
  {
    if Matches(PhonePattern, s) { PhoneMatchIsRun(s); }
    if PhoneRun(s, 0) || (s != [] && s[0] == '+' && PhoneRun(s, 1)) { PhoneRunMatches(s); }
  }

  lemma PhoneMatchIsRun(s: string)
    requires Matches(PhonePattern, s)
    ensures PhoneRun(s, 0) || (s != [] && s[0] == '+' && PhoneRun(s, 1))
  {
    var re := PhonePattern;
    assert re[1..] == [re[1]];
    assert s[0..] == s;
    var n := UnpackAt(re, s, 0);
    assert Fits(re[1], |s| - n) && AllIn(s[n..], PhoneClass) by {
      MatchOne(re[1], s[n..]);
    }
    forall i | n <= i < |s| ensures IsPhoneChar(s[i]) {
      AllInSlice(s, n, |s|, PhoneClass);
      PhoneCharsAre(s[i]);
    }
  }

  lemma PhoneRunMatches(s: string)
    requires PhoneRun(s, 0) || (s != [] && s[0] == '+' && PhoneRun(s, 1))
    ensures Matches(PhonePattern, s)
  {
    var re := PhonePattern;
    assert re[1..] == [re[1]];
    var n := if PhoneRun(s, 0) then 0 else 1;
    assert AllIn(s[n..], PhoneClass) by {
      forall i | n <= i < |s| ensures InClass(s[i], PhoneClass) {
        PhoneCharsAre(s[i]);
      }
      AllInSlice(s, n, |s|, PhoneClass);
    }
    MatchOne(re[1], s[n..]);
    MatchAt(re, s, 0, n);
    assert s[0..] == s;
  }

  // ---------------------------------------------------------------------------
  // contactFormSchema

  const NameChecks: seq<StringCheck> := [MinLength(NameMinLength), MaxLength(NameMaxLength), Pattern(NamePattern)]
  const EmailChecks: seq<StringCheck> := [EmailFormat, MaxLength(EmailMaxLength)]
  const CompanyChecks: seq<StringCheck> := [MaxLength(CompanyMaxLength)]
  const PhoneChecks: seq<StringCheck> := [MinLength(PhoneMinLength), MaxLength(PhoneMaxLength), Pattern(PhonePattern)]
  const MessageChecks: seq<StringCheck> := [MinLength(MessageMinLength), MaxLength(MessageMaxLength)]

  datatype Field = Name | Email | Company | Phone | Message | Language | Website | Consent

  const AllFields: seq<Field> := [Name, Email, Company, Phone, Message, Language, Website, Consent]

  datatype Issue = Issue(field: Field, problem: Problem)

  /** The submitted object; `None` is a key that is absent (undefined). */
  datatype ContactFormInput = ContactFormInput(
    name: Option<string>,
    email: Option<string>,
    company: Option<string>,
    phone: Option<string>,
    message: Option<string>,
    language: Option<string>,
    website: Option<string>,
    consent: Option<bool>
  )

  /** The parsed value: the e-mail lower-cased and the language an enum member. */
  datatype ContactFormData = ContactFormData(
    name: string,
    email: string,
    company: Option<string>,
    phone: Option<string>,
    message: string,
    language: Locale,
    website: Option<string>,
    consent: bool
  )

  /** A required string: absent is `Required`, otherwise every failing check. */
  function RequiredText(v: Option<string>, checks: seq<StringCheck>, isEmail: string -> bool): seq<Problem> {
    match v
    case None => [Required]
    case Some(s) => CheckString(s, checks, isEmail)
  }

  /**
   * `.optional().or(z.literal(''))`: absent passes; a string passes when it passes
   * the checks or is empty; otherwise the checks' problems are reported.
   */
  function OptionalText(v: Option<string>, checks: seq<StringCheck>, isEmail: string -> bool): (r: seq<Problem>)
    ensures r == [] <==> v.None? || v.value == "" || CheckString(v.value, checks, isEmail) == []
    ensures r != [] ==> v.Some? && r == CheckString(v.value, checks, isEmail)
  {
    match v
    case None => []
    case Some(s) =>
      var problems := CheckString(s, checks, isEmail);
      if problems == [] || s == "" then [] else problems
  }

  function LanguageProblems(v: Option<string>): seq<Problem> {
    match v
    case None => [Required]
    case Some(s) => if ParseLocale(s).Some? then [] else [NotAnOption]
  }

  /** The honeypot: `refine(val => !val)` passes only when it is absent or empty. */
  function WebsiteProblems(v: Option<string>): seq<Problem> {
    match v
    case None => []
    case Some(s) => if s == "" then [] else [MustBeEmpty]
  }

  function ConsentProblems(v: Option<bool>): seq<Problem> {
    match v
    case None => [Required]
    case Some(b) => if b then [] else [MustAgree]
  }

  function FieldProblems(input: ContactFormInput, f: Field, isEmail: string -> bool): seq<Problem> {
    match f
    case Name => RequiredText(input.name, NameChecks, isEmail)
    case Email => RequiredText(input.email, EmailChecks, isEmail)
    case Company => OptionalText(input.company, CompanyChecks, isEmail)
    case Phone => OptionalText(input.phone, PhoneChecks, isEmail)
    case Message => RequiredText(input.message, MessageChecks, isEmail)
    case Language => LanguageProblems(input.language)
    case Website => WebsiteProblems(input.website)
    case Consent => ConsentProblems(input.consent)
  }

  function Tag(f: Field, problems: seq<Problem>): (issues: seq<Issue>)
    ensures forall i | 0 <= i < |issues| :: issues[i].field == f
    ensures forall p :: Issue(f, p) in issues <==> p in problems
  {
    var issues := seq(|problems|, i requires 0 <= i < |problems| => Issue(f, problems[i]));
    assert forall p | p in problems :: Issue(f, p) in issues by {
      forall p | p in problems ensures Issue(f, p) in issues {
        var i :| 0 <= i < |problems| && problems[i] == p;
        assert issues[i] == Issue(f, p);
      }
    }
    issues
  }

  /** The issues of the fields `fs`, field by field. */
  function CollectIssues(input: ContactFormInput, fs: seq<Field>, isEmail: string -> bool): (issues: seq<Issue>)
    ensures forall f, p :: Issue(f, p) in issues <==> f in fs && p in FieldProblems(input, f, isEmail)
  {
    if fs == [] then []
    else Tag(fs[0], FieldProblems(input, fs[0], isEmail)) + CollectIssues(input, fs[1..], isEmail)
  }

  // The accepted values of each field, stated without the checks.

  predicate NameValid(n: string) {
    NameMinLength <= |n| <= NameMaxLength && forall i | 0 <= i < |n| :: IsNameChar(n[i])
  }

  predicate PhoneValid(p: string) {
    PhoneMinLength <= |p| <= PhoneMaxLength && (PhoneRun(p, 0) || (p[0] == '+' && PhoneRun(p, 1)))
  }

  predicate FieldValid(input: ContactFormInput, f: Field, isEmail: string -> bool) {
    match f
    case Name => input.name.Some? && NameValid(input.name.value)
    case Email => input.email.Some? && isEmail(input.email.value) && |input.email.value| <= EmailMaxLength
    case Company => input.company.None? || |input.company.value| <= CompanyMaxLength
    case Phone => input.phone.None? || input.phone.value == "" || PhoneValid(input.phone.value)
    case Message => input.message.Some? && MessageMinLength <= |input.message.value| <= MessageMaxLength
    case Language => input.language.Some? && input.language.value in {"fa", "en"}
    case Website => input.website.None? || input.website.value == ""
    case Consent => input.consent == Some(true)
  }

  /** A field reports no problem exactly when its value is acceptable. */
  lemma FieldProblemsSpec(input: ContactFormInput, f: Field, isEmail: string -> bool)
    ensures FieldProblems(input, f, isEmail) == [] <==> FieldValid(input, f, isEmail)
  {
    match f
    case Name =>
      if input.name.Some? {
        var n := input.name.value;
        NamePatternAccepts(n);
        assert (forall i | 0 <= i < |NameChecks| :: Passes(n, NameChecks[i], isEmail))
          <==> |n| >= NameMinLength && |n| <= NameMaxLength && Matches(NamePattern, n) by {
          assert Passes(n, NameChecks[0], isEmail) <==> |n| >= NameMinLength;
          assert Passes(n, NameChecks[1], isEmail) <==> |n| <= NameMaxLength;
          assert Passes(n, NameChecks[2], isEmail) <==> Matches(NamePattern, n);
        }
      }
    case Email =>
      if input.email.Some? {
        var e := input.email.value;
        assert Passes(e, EmailChecks[0], isEmail) <==> isEmail(e);
        assert Passes(e, EmailChecks[1], isEmail) <==> |e| <= EmailMaxLength;
      }
    case Company =>
      if input.company.Some? {
        assert Passes(input.company.value, CompanyChecks[0], isEmail) <==> |input.company.value| <= CompanyMaxLength;
      }
    case Phone =>
      if input.phone.Some? {
        var p := input.phone.value;
        PhonePatternAccepts(p);
        assert (forall i | 0 <= i < |PhoneChecks| :: Passes(p, PhoneChecks[i], isEmail))
          <==> |p| >= PhoneMinLength && |p| <= PhoneMaxLength && Matches(PhonePattern, p) by {
          assert Passes(p, PhoneChecks[0], isEmail) <==> |p| >= PhoneMinLength;
          assert Passes(p, PhoneChecks[1], isEmail) <==> |p| <= PhoneMaxLength;
          assert Passes(p, PhoneChecks[2], isEmail) <==> Matches(PhonePattern, p);
        }
      }
    case Message =>
      if input.message.Some? {
        var m := input.message.value;
        assert Passes(m, MessageChecks[0], isEmail) <==> |m| >= MessageMinLength;
        assert Passes(m, MessageChecks[1], isEmail) <==> |m| <= MessageMaxLength;
      }
    case Language =>
    case Website =>
    case Consent =>
  }

  lemma AllFieldsListed(f: Field)
    ensures f in AllFields
  {
    match f
    case Name => assert AllFields[0] == f;
    case Email => assert AllFields[1] == f;
    case Company => assert AllFields[2] == f;
    case Phone => assert AllFields[3] == f;
    case Message => assert AllFields[4] == f;
    case Language => assert AllFields[5] == f;
    case Website => assert AllFields[6] == f;
    case Consent => assert AllFields[7] == f;
  }

  /** Every field is acceptable. */
  predicate FormValid(input: ContactFormInput, isEmail: string -> bool) {
    forall f: Field :: FieldValid(input, f, isEmail)
  }

  /** No issue is collected exactly when every field is acceptable. */
  lemma NoIssuesIffValid(input: ContactFormInput, isEmail: string -> bool)
    ensures CollectIssues(input, AllFields, isEmail) == [] <==> FormValid(input, isEmail)
  {
    var issues := CollectIssues(input, AllFields, isEmail);
    if issues != [] {
      var f, p := issues[0].field, issues[0].problem;
      assert Issue(f, p) in issues;
      FieldProblemsSpec(input, f, isEmail);
      assert !FieldValid(input, f, isEmail);
    }
    if !FormValid(input, isEmail) {
      var f: Field :| !FieldValid(input, f, isEmail);
      FieldProblemsSpec(input, f, isEmail);
      AllFieldsListed(f);
      var p := FieldProblems(input, f, isEmail)[0];
      assert Issue(f, p) in issues;
    }
  }

  /**
   * `contactFormSchema.safeParse(input)`: the parsed form when every field is
   * acceptable, otherwise every problem of every field.
   */
  function ValidateContactForm(input: ContactFormInput, isEmail: string -> bool): (r: Result<ContactFormData, seq<Issue>>)
    ensures r.Ok? <==> FormValid(input, isEmail)
    ensures r.Ok? ==> input.name == Some(r.value.name) && input.message == Some(r.value.message)
    ensures r.Ok? ==> input.email.Some? && r.value.email == ToLowerAscii(input.email.value)
    ensures r.Ok? ==> input.language == Some(Code(r.value.language))
    ensures r.Ok? ==> r.value.company == input.company && r.value.phone == input.phone
    ensures r.Ok? ==> r.value.website == input.website && r.value.consent
    ensures r.Err? ==> r.error != [] && forall f: Field, p: Problem ::
      Issue(f, p) in r.error <==> p in FieldProblems(input, f, isEmail)
  {
    NoIssuesIffValid(input, isEmail);
    var issues := CollectIssues(input, AllFields, isEmail);
    if issues == [] then
      assert FieldValid(input, Name, isEmail) && FieldValid(input, Email, isEmail);
      assert FieldValid(input, Message, isEmail) && FieldValid(input, Language, isEmail);
      Ok(ContactFormData(
        input.name.value, ToLowerAscii(input.email.value), input.company, input.phone,
        input.message.value, ParseLocale(input.language.value).value, input.website, true))
    else
      assert forall f: Field :: f in AllFields by {
        forall f: Field ensures f in AllFields { AllFieldsListed(f); }
      }
      Err(issues)
  }

  /** A rejection names exactly the fields whose values are not acceptable. */
  lemma RejectionNamesBadFields(input: ContactFormInput, isEmail: string -> bool, f: Field)
    requires ValidateContactForm(input, isEmail).Err?
    ensures (exists p :: Issue(f, p) in ValidateContactForm(input, isEmail).error) <==> !FieldValid(input, f, isEmail)
  {
    var issues := ValidateContactForm(input, isEmail).error;
    FieldProblemsSpec(input, f, isEmail);
    if !FieldValid(input, f, isEmail) {
      assert Issue(f, FieldProblems(input, f, isEmail)[0]) in issues;
    }
  }

  /** A filled-in honeypot alone is enough to reject the form. */
  lemma HoneypotRejects(input: ContactFormInput, isEmail: string -> bool)
    requires input.website.Some? && input.website.value != ""
    ensures ValidateContactForm(input, isEmail).Err?
    ensures Issue(Website, MustBeEmpty) in ValidateContactForm(input, isEmail).error
  {
    assert !FieldValid(input, Website, isEmail);
  }

  /** A one-letter name is reported as too short, and not as anything else. */
  lemma ShortNameReported(input: ContactFormInput, isEmail: string -> bool)
    requires input.name == Some("A")
    ensures ValidateContactForm(input, isEmail).Err?
    ensures forall p :: Issue(Name, p) in ValidateContactForm(input, isEmail).error <==> p == TooShort
  {
    var n := "A";
    assert !FieldValid(input, Name, isEmail);
    NamePatternAccepts(n);
    assert Passes(n, NameChecks[1], isEmail) && Passes(n, NameChecks[2], isEmail);
    assert !Passes(n, NameChecks[0], isEmail);
  }

  const TypicalEnquiry: ContactFormInput := ContactFormInput(
    Some("Ali Reza"), Some("Ali@Example.com"), None, Some(""), Some("Please call me back."),
    Some("fa"), None, Some(true))

  lemma TypicalEnquiryValid(isEmail: string -> bool)
    requires isEmail("Ali@Example.com")
    ensures FormValid(TypicalEnquiry, isEmail)
  {
    var input := TypicalEnquiry;
    assert NameValid("Ali Reza") by {
      assert forall i | 0 <= i < 8 :: IsAsciiLower("Ali Reza"[i]) || IsAsciiUpper("Ali Reza"[i]) || "Ali Reza"[i] == ' ';
    }
    forall f: Field ensures FieldValid(input, f, isEmail) {
    }
  }

  lemma LowerCasedExample(s: string)
    requires s == "Ali@Example.com"
    ensures ToLowerAscii(s) == "ali@example.com"
  {
    var t := "ali@example.com";
    forall i | 0 <= i < |s| ensures ToLowerAscii(s)[i] == t[i] {
      LowerCasedAt(s, t, i);
    }
  }

  lemma LowerCasedAt(s: string, t: string, i: int)
    requires s == "Ali@Example.com" && t == "ali@example.com" && 0 <= i < |s|
    ensures |ToLowerAscii(s)| == |t| && ToLowerAscii(s)[i] == t[i]
  {
    if i != 0 && i != 4 { assert !IsAsciiUpper(s[i]); }
  }


  /** A typical enquiry with mixed-case e-mail is accepted, the e-mail lower-cased. */
  lemma AcceptsTypicalEnquiry(isEmail: string -> bool)
    requires isEmail("Ali@Example.com")
    ensures ValidateContactForm(TypicalEnquiry, isEmail) ==
      Ok(ContactFormData("Ali Reza", "ali@example.com", None, Some(""), "Please call me back.", Fa, None, true))
  {
    TypicalEnquiryValid(isEmail);
    LowerCasedExample("Ali@Example.com");
    var r := ValidateContactForm(TypicalEnquiry, isEmail);
    assert Code(r.value.language) == "fa";
  }


  // ---------------------------------------------------------------------------
  // phoneSchema and validatePhone

  const Digit: CharClass := Range('0', '9')
  const DashOrSpace: CharClass := Union(Single('-'), Whitespace)

  /** `^[\+]?[1-9][\d]{0,3}[-\s]?[\d]{1,4}[-\s]?[\d]{1,4}[-\s]?[\d]{1,9}$`. */
  const IntlPhonePattern: seq<Term> := [
    Opt(Single('+')), One(Range('1', '9')), Rep(Digit, 0, 3),
    Opt(DashOrSpace), Rep(Digit, 1, 4),
    Opt(DashOrSpace), Rep(Digit, 1, 4),
    Opt(DashOrSpace), Rep(Digit, 1, 9)
  ]

  /** `validatePhone`. */
  predicate ValidatePhone(phone: string) {
    Matches(IntlPhonePattern, phone)
  }

  /** An accepted number has between 4 and 25 characters. */
  lemma PhoneLength(phone: string)
    requires ValidatePhone(phone)
    ensures 4 <= |phone| <= 25
  {
    var re := IntlPhonePattern;
    MatchLength(re, phone);
    assert Bounded(re);
    SuffixStep(re, 8); SuffixStep(re, 7); SuffixStep(re, 6);
    SuffixStep(re, 5); SuffixStep(re, 4); SuffixStep(re, 3);
    SuffixStep(re, 2); SuffixStep(re, 1); SuffixStep(re, 0);
    assert re[0..] == re;
  }

  /** An accepted number starts with 1-9, after an optional '+': no trunk-prefix 0. */
  lemma PhoneLeadingDigit(phone: string)
    requires ValidatePhone(phone)
    ensures var first := if phone != [] && phone[0] == '+' then 1 else 0;
      first < |phone| && '1' <= phone[first] <= '9'
  {
    var re := IntlPhonePattern;
    assert phone[0..] == phone;
    var n := UnpackAt(re, phone, 0);
    assert re[1..][0] == One(Range('1', '9'));
    var m := UnpackAt(re[1..], phone, n);
    assert InClass(phone[n], Range('1', '9'));
    if n == 1 {
      assert InClass(phone[0], Single('+'));
    }
  }

  /** "0912 345 6789", written with the trunk 0, is rejected. */
  lemma RejectsTrunkZero()
    ensures !ValidatePhone("0912 345 6789")
  {
    if ValidatePhone("0912 345 6789") {
      PhoneLeadingDigit("0912 345 6789");
    }
  }

  /** "+98 912 345 6789" is accepted. */
  lemma AcceptsInternational()
    ensures ValidatePhone("+98 912 345 6789")
  {
    InternationalRuns("+98 912 345 6789");
  }

  /** Each character of the example lies in the class of the term its run belongs to. */
  lemma InternationalRunClass(s: string, i: int, k: int)
    requires s == "+98 912 345 6789"
    requires 0 <= i < 9 && [0, 1, 2, 3, 4, 7, 8, 11, 12, 16][i] <= k < [0, 1, 2, 3, 4, 7, 8, 11, 12, 16][i + 1]
    ensures InClass(s[k], IntlPhonePattern[i].cls)
  {
    if i == 3 || i == 5 || i == 7 {
      assert s[k] == ' ' && IsJsWhitespace(' ');
    }
  }

  /** The number cut into one run per term of the pattern: "+", "9", "8", " ", "912", " ", "345", " ", "6789". */
  lemma InternationalRuns(s: string)
    requires s == "+98 912 345 6789"
    ensures ValidatePhone(s)
  {
    var re := IntlPhonePattern;
    var cuts := [0, 1, 2, 3, 4, 7, 8, 11, 12, 16];
    forall i, k | 0 <= i < |re| && cuts[i] <= k < cuts[i + 1] ensures InClass(s[k], re[i].cls) {
      InternationalRunClass(s, i, k);
    }
    MatchCuts(re, s, cuts);
    assert s[0..] == s;
  }



  // ---------------------------------------------------------------------------
  // sanitizeString

  predicate IsAngle(c: char) { c == '<' || c == '>' }

  /** The bracket `[<>]`. */
  const Angles := Union(Single('<'), Single('>'))

  lemma AnglesAre(c: char)
    ensures InClass(c, Angles) <==> IsAngle(c)
  {
  }

  /**
   * `.replace(/[<>]/g, '')`: no bracket is left and nothing new appears; text without
   * brackets is unchanged and text of brackets only becomes empty. With
   * `StripAnglesAppend`, the other characters are kept in order.
   */
  function StripAngles(s: string): (r: string)
    ensures |r| <= |s|
    ensures forall i | 0 <= i < |r| :: !IsAngle(r[i]) && r[i] in s
    ensures (forall i | 0 <= i < |s| :: !IsAngle(s[i])) ==> r == s
    ensures (forall i | 0 <= i < |s| :: IsAngle(s[i])) ==> r == []
  {
    forall c ensures InClass(c, Angles) <==> IsAngle(c) { AnglesAre(c); }
    RemoveAllFacts(s, Angles);
    RemoveAll(s, Angles)
  }

  /** Brackets are removed piece by piece. */
  lemma StripAnglesAppend(a: string, b: string)
    ensures StripAngles(a + b) == StripAngles(a) + StripAngles(b)
  {
    RemoveAllAppend(a, b, Angles);
  }

  /**
   * `.replace(/\s+/g, ' ')`: the only whitespace left is ' ', never two in a row; apart
   * from whitespace the text is kept in order; a whitespace run alone becomes " "; and
   * text already in that form is unchanged. With `SingleSpacesJoin`, each run becomes
   * one space.
   */
  function SingleSpaces(s: string): (r: string)
    ensures |r| <= |s|
    ensures forall i | 0 <= i < |r| :: r[i] == ' ' || (!IsJsWhitespace(r[i]) && r[i] in s)
    ensures forall i | 0 <= i < |r| - 1 :: !(IsJsWhitespace(r[i]) && IsJsWhitespace(r[i + 1]))
    ensures RemoveAll(r, Whitespace) == RemoveAll(s, Whitespace)
    ensures s != [] && (forall i | 0 <= i < |s| :: IsJsWhitespace(s[i])) ==> r == " "
    ensures ((forall i | 0 <= i < |s| :: IsJsWhitespace(s[i]) ==> s[i] == ' ')
      && (forall i | 0 <= i < |s| - 1 :: !(IsJsWhitespace(s[i]) && IsJsWhitespace(s[i + 1])))) ==> r == s
  {
    assert InClass(' ', Whitespace);
    ReplaceRunsFacts(s, Whitespace, ' ');
    ReplaceRunsKeeps(s, Whitespace, ' ', Whitespace);
    ReplaceRuns(s, Whitespace, ' ')
  }

  /** Text cut next to a non-whitespace character is collapsed piece by piece. */
  lemma SingleSpacesJoin(a: string, b: string)
    requires a == [] || b == [] || !IsJsWhitespace(a[|a| - 1]) || !IsJsWhitespace(b[0])
    ensures SingleSpaces(a + b) == SingleSpaces(a) + SingleSpaces(b)
  {
    ReplaceRunsJoin(a, b, Whitespace, ' ');
  }

  lemma CharsFrom(r: string, b: string, c: string, d: string)
    requires forall i | 0 <= i < |r| :: r[i] == ' ' || r[i] in b
    requires forall i | 0 <= i < |b| :: b[i] in c
    requires forall i | 0 <= i < |c| :: c[i] in d
    ensures forall i | 0 <= i < |r| :: r[i] == ' ' || r[i] in d
  {
    forall i | 0 <= i < |r| && r[i] != ' ' ensures r[i] in d {
      var j :| 0 <= j < |b| && b[j] == r[i];
      var k :| 0 <= k < |c| && c[k] == b[j];
    }
  }

  lemma NoAnglesFrom(r: string, b: string)
    requires forall i | 0 <= i < |r| :: r[i] == ' ' || r[i] in b
    requires forall i | 0 <= i < |b| :: !IsAngle(b[i])
    ensures forall i | 0 <= i < |r| :: !IsAngle(r[i])
  {
    forall i | 0 <= i < |r| && r[i] != ' ' ensures !IsAngle(r[i]) {
      var j :| 0 <= j < |b| && b[j] == r[i];
    }
  }

  /** What sanitizing neither drops nor rewrites: everything but brackets and whitespace. */
  const AngleOrSpace: CharClass := Union(Angles, Whitespace)

  /**
   * Trim, drop every '<' and '>', then replace each whitespace run by one space. No
   * bracket remains, the only whitespace is single plain spaces, and the characters
   * other than brackets and whitespace are exactly those of the input, in order.
   */
  function SanitizeString(input: string): (r: string)
    ensures |r| <= |input|
    ensures forall i | 0 <= i < |r| :: !IsAngle(r[i])
    ensures forall i | 0 <= i < |r| :: IsJsWhitespace(r[i]) ==> r[i] == ' '
    ensures forall i | 0 <= i < |r| :: r[i] == ' ' || r[i] in input
    ensures forall i | 0 <= i < |r| - 1 :: !(IsJsWhitespace(r[i]) && IsJsWhitespace(r[i + 1]))
    ensures RemoveAll(r, AngleOrSpace) == RemoveAll(input, AngleOrSpace)
  {
    var trimmed := Trim(input);
    var stripped := StripAngles(trimmed);
    var r := SingleSpaces(stripped);
    assert forall i | 0 <= i < |r| :: r[i] == ' ' || r[i] in input by {
      TrimKeepsChars(input);
      CharsFrom(r, stripped, trimmed, input);
    }
    assert forall i | 0 <= i < |r| :: !IsAngle(r[i]) by {
      NoAnglesFrom(r, stripped);
    }
    SanitizeKeepsText(input);
    r
  }

  lemma SanitizeKeepsText(input: string)
    ensures RemoveAll(SingleSpaces(StripAngles(Trim(input))), AngleOrSpace) == RemoveAll(input, AngleOrSpace)
  {
    var trimmed := Trim(input);
    RemoveAllTrim(input, AngleOrSpace);
    RemoveAllWithin(trimmed, Angles, AngleOrSpace);
    ReplaceRunsKeeps(StripAngles(trimmed), Whitespace, ' ', AngleOrSpace);
  }

  /** A character sanitizing keeps as it is. */
  predicate Plain(c: char) { !IsJsWhitespace(c) && !IsAngle(c) }

  /** A piece of trimmed input that ends in plain characters is not trimmed itself. */
  predicate PlainEnds(s: string) {
    s != [] && Plain(s[0]) && Plain(s[|s| - 1])
  }

  /** Such a piece is only stripped and collapsed, and keeps its plain ends. */
  lemma PlainPiece(s: string)
    requires PlainEnds(s)
    ensures Trim(s) == s
    ensures var t := StripAngles(s); t != [] && t[0] == s[0] && t[|t| - 1] == s[|s| - 1]
  {
    forall c ensures InClass(c, Angles) <==> IsAngle(c) { AnglesAre(c); }
    RemoveAllEnds(s, Angles);
  }

  /** Where plain characters meet, sanitizing adds no space. */
  lemma SanitizeJoin(a: string, b: string)
    requires PlainEnds(a) && PlainEnds(b)
    ensures SanitizeString(a + b) == SanitizeString(a) + SanitizeString(b)
  {
    PlainPiece(a);
    PlainPiece(b);
    assert PlainEnds(a + b);
    PlainPiece(a + b);
    StripAnglesAppend(a, b);
    SingleSpacesJoin(StripAngles(a), StripAngles(b));
  }

  /** A whitespace run between plain characters becomes exactly one space. */
  lemma SanitizeSeparates(a: string, w: string, b: string)
    requires PlainEnds(a) && PlainEnds(b)
    requires w != [] && forall i | 0 <= i < |w| :: IsJsWhitespace(w[i])
    ensures SanitizeString(a + w + b) == SanitizeString(a) + " " + SanitizeString(b)
  {
    PlainPiece(a);
    PlainPiece(b);
    var s := a + w + b;
    assert PlainEnds(s);
    assert Trim(s) == s by { PlainPiece(s); }
    StripAround(a, w, b);
    CollapseAround(StripAngles(a), w, StripAngles(b));
  }

  lemma StripAround(a: string, w: string, b: string)
    requires forall i | 0 <= i < |w| :: IsJsWhitespace(w[i])
    ensures StripAngles(a + w + b) == StripAngles(a) + w + StripAngles(b)
  {
    StripAnglesAppend(a + w, b);
    StripAnglesAppend(a, w);
    assert StripAngles(w) == w by {
      forall i | 0 <= i < |w| ensures !IsAngle(w[i]) { assert IsJsWhitespace(w[i]); }
    }
  }

  lemma CollapseAround(sa: string, w: string, sb: string)
    requires sa != [] && !IsJsWhitespace(sa[|sa| - 1])
    requires sb != [] && !IsJsWhitespace(sb[0])
    requires w != [] && forall i | 0 <= i < |w| :: IsJsWhitespace(w[i])
    ensures SingleSpaces(sa + w + sb) == SingleSpaces(sa) + " " + SingleSpaces(sb)
  {
    assert sa + w + sb == sa + (w + sb);
    SingleSpacesJoin(sa, w + sb);
    SingleSpacesJoin(w, sb);
  }

  /** Text that is already clean comes back unchanged. */
  lemma SanitizeKeepsCleanText(s: string)
    requires s == [] || (!IsJsWhitespace(s[0]) && !IsJsWhitespace(s[|s| - 1]))
    requires forall i | 0 <= i < |s| :: !IsAngle(s[i]) && (IsJsWhitespace(s[i]) ==> s[i] == ' ')
    requires forall i | 0 <= i < |s| - 1 :: !(IsJsWhitespace(s[i]) && IsJsWhitespace(s[i + 1]))
    ensures SanitizeString(s) == s
  {
    assert Trim(s) == s;
    assert StripAngles(s) == s;
  }

  /**
   * Angle brackets are removed after trimming, so a space they guarded can be left
   * at an end: the result is not always trimmed, and sanitizing twice can differ
   * from sanitizing once.
   */
  lemma SanitizeNotIdempotent()
    ensures SanitizeString("< a") == " a"
    ensures SanitizeString(" a") == "a"
  {
    SanitizeBracketExample("< a");
    SanitizeSpaceExample(" a");
  }

  /** A leading '<' hides the space after it from the trim. */
  lemma SanitizeBracketExample(s: string)
    requires s == "< a"
    ensures SanitizeString(s) == s[1..]
  {
    StripAfterTrim(s);
    SpaceBeforeLetter(s[1..]);
  }

  lemma StripAfterTrim(s: string)
    requires s == "< a"
    ensures StripAngles(Trim(s)) == s[1..]
  {
    assert !IsJsWhitespace(s[0]) && !IsJsWhitespace(s[2]);
    assert Trim(s) == s;
    var t := s[1..];
    assert t[0] == ' ' && t[1] == 'a' && |t| == 2;
    assert RemoveAll(t, Angles) == StripAngles(t) == t;
    assert InClass(s[0], Angles) by { AnglesAre(s[0]); }
    assert StripAngles(s) == RemoveAll(s, Angles) == RemoveAll(t, Angles);
  }

  lemma SpaceBeforeLetter(t: string)
    requires |t| == 2 && t[0] == ' ' && t[1] == 'a'
    ensures SingleSpaces(t) == t
  {
    assert !IsJsWhitespace(t[1]);
    assert forall i | 0 <= i < |t| :: IsJsWhitespace(t[i]) ==> t[i] == ' ';
    assert forall i | 0 <= i < |t| - 1 :: !(IsJsWhitespace(t[i]) && IsJsWhitespace(t[i + 1]));
  }

  /** A second pass trims that space. */
  lemma SanitizeSpaceExample(s: string)
    requires |s| == 2 && s[0] == ' ' && s[1] == 'a'
    ensures SanitizeString(s) == s[1..]
  {
    var t := s[1..];
    TrimLeadingSpace(s);
    LetterKept(t);
    assert SanitizeString(s) == SingleSpaces(StripAngles(t));
  }

  lemma TrimLeadingSpace(s: string)
    requires |s| == 2 && s[0] == ' ' && s[1] == 'a'
    ensures Trim(s) == s[1..]
  {
    var t := s[1..];
    assert !IsJsWhitespace(t[0]);
    assert TrimStart(s) == t by {
      assert IsJsWhitespace(s[0]);
      assert TrimStart(t) == t;
    }
    assert TrimEnd(t) == t;
  }

  lemma LetterKept(t: string)
    requires |t| == 1 && t[0] == 'a'
    ensures StripAngles(t) == t && SingleSpaces(t) == t
  {
    assert !IsAngle(t[0]) && !IsJsWhitespace(t[0]);
  }

}
