/**
 * The registration schema: three name fields, a DD.MM.YYYY birth date turned
 * into noon UTC on that day, an email, and a password checked by six
 * independent rules. Every failing check of every field is reported.
 */
module RegisterUserDto {
  import opened Wrappers
  import opened Issues
  import opened Schema

  // ---------------------------------------------------------------- names

  /**
   * A character of the class [a-zA-Zа-яА-ЯёЁ]. The Cyrillic ranges are
   * U+0430..U+044F and U+0410..U+042F; ё (U+0451) and Ё (U+0401) lie outside
   * them and are listed on their own.
   */
  predicate IsNameLetter(c: char) {
    || ('a' <= c <= 'z')
    || ('A' <= c <= 'Z')
    || ('\U{0430}' <= c <= '\U{044F}')
    || ('\U{0410}' <= c <= '\U{042F}')
    || c == '\U{0451}'
    || c == '\U{0401}'
  }

  /** The anchored pattern ^[a-zA-Zа-яА-ЯёЁ]+$, matched one character at a time. */
  function MatchesLetters(s: string): (r: bool)
    ensures r <==> |s| > 0 && forall i :: 0 <= i < |s| ==> IsNameLetter(s[i])
  {
    if |s| == 0 then false
    else IsNameLetter(s[0]) && (|s| == 1 || MatchesLetters(s[1..]))
  }

  const NameMin: nat := 2
  const NameMax: nat := 255

  /** What a name is meant to be: 2 to 255 characters, letters only. */
  predicate ValidName(s: string) {
    NameMin <= |s| <= NameMax && forall i :: 0 <= i < |s| ==> IsNameLetter(s[i])
  }

  /** The issues of a name string: minimum length, maximum length, letters only, each on its own. */
  function NameIssues(field: string, caption: string, s: string): (r: seq<Issue>)
    ensures r == [] <==> ValidName(s)
    ensures forall i :: 0 <= i < |r| ==> r[i].path == [field]
  {
    Check(|s| >= NameMin, TooSmall, [field], caption + " must be at least 2 characters")
    + Check(|s| <= NameMax, TooBig, [field], caption + " must be 255 characters long max")
    + Check(MatchesLetters(s), InvalidString, [field], caption + " must contain only letters")
  }

  /** A required name field: a type issue if it is not a string, the name issues if it is. */
  function NameFieldIssues(field: string, caption: string, r: Raw): (issues: seq<Issue>)
    ensures issues == [] <==> r.Text? && ValidName(r.s)
  {
    if r.Text? then NameIssues(field, caption, r.s) else [TypeIssue([field], r)]
  }

  /** The optional middle name: absent is fine, present obeys the name rules. */
  function MiddleNameIssues(r: Raw): (issues: seq<Issue>)
    ensures issues == [] <==> r.Missing? || (r.Text? && ValidName(r.s))
  {
    if r.Missing? then [] else NameFieldIssues("middleName", "Middle name", r)
  }

  // ---------------------------------------------------------------- dates

  predicate IsLeapYear(y: int) {
    y % 4 == 0 && (y % 100 != 0 || y % 400 == 0)
  }

  function DaysInMonth(y: int, m: int): (n: int)
    requires 1 <= m <= 12
    ensures 28 <= n <= 31
  {
    if m == 2 then (if IsLeapYear(y) then 29 else 28)
    else if m == 4 || m == 6 || m == 9 || m == 11 then 30
    else 31
  }

  /** A real day of the proleptic Gregorian calendar. */
  predicate IsCalendarDate(y: int, m: int, d: int) {
    1 <= m <= 12 && 1 <= d <= DaysInMonth(y, m)
  }

  predicate IsDigit(c: char) {
    '0' <= c <= '9'
  }

  function DigitValue(c: char): (n: int)
    requires IsDigit(c)
    ensures 0 <= n <= 9
  {
    c as int - '0' as int
  }

  function DigitChar(n: int): (c: char)
    requires 0 <= n <= 9
    ensures IsDigit(c) && DigitValue(c) == n
  {
    ('0' as int + n) as char
  }

  /** Two digits, a dot, two digits, a dot, four digits: the shape DD.MM.YYYY. */
  predicate DateShape(s: string) {
    && |s| == 10
    && s[2] == '.' && s[5] == '.'
    && forall i :: 0 <= i < 10 && i != 2 && i != 5 ==> IsDigit(s[i])
  }

  function Day(s: string): int
    requires DateShape(s)
  {
    10 * DigitValue(s[0]) + DigitValue(s[1])
  }

  function Month(s: string): int
    requires DateShape(s)
  {
    10 * DigitValue(s[3]) + DigitValue(s[4])
  }

  function Year(s: string): int
    requires DateShape(s)
  {
    1000 * DigitValue(s[6]) + 100 * DigitValue(s[7]) + 10 * DigitValue(s[8]) + DigitValue(s[9])
  }

  /**
   * Strict parsing with the format DD.MM.YYYY, then `Date.UTC(year, month,
   * day, 12)`. Strict parsing accepts a string only if formatting the parsed
   * date gives the string back. A day or month that overflows rolls the date
   * over and so fails that test; years 0000 to 0099 fail it too, because
   * JavaScript's Date reads a year below 100 as 1900 onwards (and year 0 as
   * the current year).
   */
  function ParseDateOfBirth(s: string): (r: Option<Instant>)
    ensures r.Some? ==> r.value.hour == 12 && 100 <= r.value.year <= 9999
    ensures r.Some? ==> IsCalendarDate(r.value.year, r.value.month, r.value.day)
  {
    if !DateShape(s) then None
    else if Year(s) >= 100 && IsCalendarDate(Year(s), Month(s), Day(s)) then
      Some(Instant(Year(s), Month(s), Day(s), 12))
    else None
  }

  function Pad2(n: int): (s: string)
    requires 0 <= n <= 99
    ensures |s| == 2
  {
    [DigitChar(n / 10), DigitChar(n % 10)]
  }

  function Pad4(n: int): (s: string)
    requires 0 <= n <= 9999
    ensures |s| == 4
  {
    [DigitChar(n / 1000), DigitChar(n / 100 % 10), DigitChar(n / 10 % 10), DigitChar(n % 10)]
  }

  /** The DD.MM.YYYY rendering of a date. */
  function FormatDate(y: int, m: int, d: int): (s: string)
    requires 0 <= y <= 9999 && 1 <= m <= 12 && 1 <= d <= 31
    ensures |s| == 10
  {
    Pad2(d) + "." + Pad2(m) + "." + Pad4(y)
  }

  /** Every real date from year 100 on is accepted in its DD.MM.YYYY form, at noon UTC of that day. */
  lemma {:induction false} FormatThenParse(y: int, m: int, d: int)
    requires 100 <= y <= 9999 && IsCalendarDate(y, m, d)
    ensures ParseDateOfBirth(FormatDate(y, m, d)) == Some(Instant(y, m, d, 12))
  {
    var s := FormatDate(y, m, d);
    var dd, mm, yy := Pad2(d), Pad2(m), Pad4(y);
    assert s[0] == dd[0] && s[1] == dd[1] && s[2] == '.';
    assert s[3] == mm[0] && s[4] == mm[1] && s[5] == '.';
    assert s[6] == yy[0] && s[7] == yy[1] && s[8] == yy[2] && s[9] == yy[3];
    assert DateShape(s);
    Pad2Value(d);
    Pad2Value(m);
    Pad4Value(y);
  }

  lemma Pad2Value(n: int)
    requires 0 <= n <= 99
    ensures IsDigit(Pad2(n)[0]) && IsDigit(Pad2(n)[1])
    ensures 10 * DigitValue(Pad2(n)[0]) + DigitValue(Pad2(n)[1]) == n
  {
  }

  lemma Pad4Value(n: int)
    requires 0 <= n <= 9999
    ensures forall i :: 0 <= i < 4 ==> IsDigit(Pad4(n)[i])
    ensures 1000 * DigitValue(Pad4(n)[0]) + 100 * DigitValue(Pad4(n)[1]) + 10 * DigitValue(Pad4(n)[2]) + DigitValue(Pad4(n)[3]) == n
  {
    var q, r := n / 1000, n % 1000;
    var h, t := r / 100, r % 100;
    var u, v := t / 10, t % 10;
    assert n == 1000 * q + 100 * h + 10 * u + v;
    DivMod(1000, q, 100 * h + 10 * u + v);
    DivMod(100, 10 * q + h, 10 * u + v);
    DivMod(10, q, h);
    DivMod(10, 100 * q + 10 * h + u, v);
    DivMod(10, 10 * q + h, u);
  }

  lemma {:induction false} Pad2OfDigits(a: char, b: char)
    requires IsDigit(a) && IsDigit(b)
    ensures Pad2(10 * DigitValue(a) + DigitValue(b)) == [a, b]
  {
    var x, y := DigitValue(a), DigitValue(b);
    var n := 10 * x + y;
    assert n / 10 == x && n % 10 == y;
  }

  lemma {:induction false} Pad4OfDigits(a: char, b: char, c: char, d: char)
    requires IsDigit(a) && IsDigit(b) && IsDigit(c) && IsDigit(d)
    ensures Pad4(1000 * DigitValue(a) + 100 * DigitValue(b) + 10 * DigitValue(c) + DigitValue(d)) == [a, b, c, d]
  {
    var w, x, y, z := DigitValue(a), DigitValue(b), DigitValue(c), DigitValue(d);
    var n := 1000 * w + 100 * x + 10 * y + z;
    DivMod(1000, w, 100 * x + 10 * y + z);
    DivMod(100, 10 * w + x, 10 * y + z);
    DivMod(10, w, x);
    DivMod(10, 100 * w + 10 * x + y, z);
    DivMod(10, 10 * w + x, y);
  }

  /** Division and remainder of `k * q + r` by `k` when `r` is below `k`. */
  lemma DivMod(k: int, q: int, r: int)
    requires k in {10, 100, 1000} && 0 <= r < k
    ensures (k * q + r) / k == q && (k * q + r) % k == r
  {
  }

  /** An accepted string is exactly the DD.MM.YYYY rendering of the date it yields. */
  lemma {:induction false} ParseThenFormat(s: string)
    requires ParseDateOfBirth(s).Some?
    ensures var t := ParseDateOfBirth(s).value;
      FormatDate(t.year, t.month, t.day) == s
  {
    Pad2OfDigits(s[0], s[1]);
    Pad2OfDigits(s[3], s[4]);
    Pad4OfDigits(s[6], s[7], s[8], s[9]);
    assert s == [s[0], s[1]] + "." + [s[3], s[4]] + "." + [s[6], s[7], s[8], s[9]];
  }

  /** Concrete dates: a real date is accepted at noon UTC; an overflowing day, a 29 February outside a leap year, a year below 100 and a short form are rejected. */
  lemma DateExamples()
    ensures ParseDateOfBirth("27.10.1995") == Some(Instant(1995, 10, 27, 12))
    ensures ParseDateOfBirth("29.02.2020") == Some(Instant(2020, 2, 29, 12))
    ensures ParseDateOfBirth("31.02.2020") == None
    ensures ParseDateOfBirth("29.02.2019") == None
    ensures ParseDateOfBirth("29.02.1900") == None
    ensures ParseDateOfBirth("01.01.0050") == None
    ensures ParseDateOfBirth("1.1.2020") == None
  {
    var s := "27.10.1995";
    assert DateShape(s) && Day(s) == 27 && Month(s) == 10 && Year(s) == 1995;
    s := "29.02.2020";
    assert DateShape(s) && Day(s) == 29 && Month(s) == 2 && Year(s) == 2020;
    s := "31.02.2020";
    assert DateShape(s) && Day(s) == 31 && Month(s) == 2;
    s := "29.02.2019";
    assert DateShape(s) && Day(s) == 29 && Month(s) == 2 && Year(s) == 2019;
    s := "29.02.1900";
    assert DateShape(s) && Day(s) == 29 && Month(s) == 2 && Year(s) == 1900;
    s := "01.01.0050";
    assert DateShape(s) && Year(s) == 50;
  }

  const DateMessage := "Invalid dateOfBirth; use DD.MM.YYYY"

  function DateOfBirthIssues(r: Raw): (issues: seq<Issue>)
    ensures issues == [] <==> r.Text? && ParseDateOfBirth(r.s).Some?
    ensures r.Text? && issues != [] ==> issues == [Issue(Custom, ["dateOfBirth"], DateMessage)]
  {
    if !r.Text? then [TypeIssue(["dateOfBirth"], r)]
    else if ParseDateOfBirth(r.s).Some? then []
    else [Issue(Custom, ["dateOfBirth"], DateMessage)]
  }

  // ---------------------------------------------------------------- email

  /** zod's email check; `isEmail` stands for its pattern. */
  function EmailIssues(r: Raw, isEmail: string -> bool): (issues: seq<Issue>)
    ensures issues == [] <==> r.Text? && isEmail(r.s)
  {
    if r.Text? then Check(isEmail(r.s), InvalidString, ["email"], "Invalid email")
    else [TypeIssue(["email"], r)]
  }

  // ---------------------------------------------------------------- password

  predicate IsAsciiUpper(c: char) { 'A' <= c <= 'Z' }
  predicate IsAsciiLower(c: char) { 'a' <= c <= 'z' }

  /** The class [^A-Za-z0-9]: anything but an ASCII letter or digit, Cyrillic letters included. */
  predicate IsSpecial(c: char) {
    !IsAsciiUpper(c) && !IsAsciiLower(c) && !IsDigit(c)
  }

  /** The six password rules, in the order the schema checks them. */
  datatype PasswordRule = MinLength | MaxLength | HasUpper | HasLower | HasDigit | HasSpecial

  const PasswordMin: nat := 8
  const PasswordMax: nat := 20

  predicate InClass(c: char, rule: PasswordRule)
    requires rule !in {MinLength, MaxLength}
  {
    match rule
    case HasUpper => IsAsciiUpper(c)
    case HasLower => IsAsciiLower(c)
    case HasDigit => IsDigit(c)
    case HasSpecial => IsSpecial(c)
  }

  /** An unanchored search for one character of the rule's class. */
  function Search(s: string, rule: PasswordRule): (r: bool)
    requires rule !in {MinLength, MaxLength}
    ensures r <==> exists i :: 0 <= i < |s| && InClass(s[i], rule)
  {
    if |s| == 0 then false
    else InClass(s[0], rule) || Search(s[1..], rule)
  }

  /** What each rule means for the password. */
  predicate Satisfies(p: string, rule: PasswordRule) {
    match rule
    case MinLength => |p| >= PasswordMin
    case MaxLength => |p| <= PasswordMax
    case _ => exists i :: 0 <= i < |p| && InClass(p[i], rule)
  }

  /** The one issue a rule reports when it fails. */
  function RuleIssue(rule: PasswordRule): Issue {
    match rule
    case MinLength => Issue(TooSmall, ["password"], "Password must be at least 8 characters long")
    case MaxLength => Issue(TooBig, ["password"], "Password must be less than 20 characters")
    case HasUpper => Issue(InvalidString, ["password"], "Password must contain at least one uppercase letter")
    case HasLower => Issue(InvalidString, ["password"], "Password must contain at least one lowercase letter")
    case HasDigit => Issue(InvalidString, ["password"], "Password must contain at least one number")
    case HasSpecial => Issue(InvalidString, ["password"], "Password must contain at least one special character")
  }

  function RuleCheck(p: string, rule: PasswordRule): (r: seq<Issue>)
    ensures r == (if Satisfies(p, rule) then [] else [RuleIssue(rule)])
    ensures |r| <= 1 && forall issue | issue in r :: issue.path == ["password"]
  {
    var holds := match rule
      case MinLength => |p| >= PasswordMin
      case MaxLength => |p| <= PasswordMax
      case _ => Search(p, rule);
    if holds then [] else [RuleIssue(rule)]
  }

  /** One issue per violated rule, in the order the rules are declared; every issue is on the password. */
  function PasswordIssues(p: string): (issues: seq<Issue>)
    ensures |issues| <= 6
    ensures forall issue | issue in issues :: issue.path == ["password"]
  {
    RuleCheck(p, MinLength) + RuleCheck(p, MaxLength) + RuleCheck(p, HasUpper)
    + RuleCheck(p, HasLower) + RuleCheck(p, HasDigit) + RuleCheck(p, HasSpecial)
  }

  /** A rule's issue occurs once among the password's issues if the rule is violated, and never otherwise. */
  lemma {:induction false} OncePerRule(p: string, rule: PasswordRule)
    ensures multiset(PasswordIssues(p))[RuleIssue(rule)] == if Satisfies(p, rule) then 0 else 1
  {
    CheckCount(p, rule, MinLength);
    CheckCount(p, rule, MaxLength);
    CheckCount(p, rule, HasUpper);
    CheckCount(p, rule, HasLower);
    CheckCount(p, rule, HasDigit);
    CheckCount(p, rule, HasSpecial);
  }

  /** How often one check reports `rule`'s issue. */
  lemma {:induction false} CheckCount(p: string, rule: PasswordRule, other: PasswordRule)
    ensures multiset(RuleCheck(p, other))[RuleIssue(rule)]
      == if other == rule && !Satisfies(p, rule) then 1 else 0
  {
    if other != rule {
      RuleIssuesDistinct(other, rule);
    }
  }

  predicate StrongPassword(p: string) {
    forall rule :: Satisfies(p, rule)
  }

  /** Each rule reports its issue exactly when it is violated, whatever the other rules say. */
  lemma {:induction false} PasswordIssueIff(p: string, rule: PasswordRule)
    ensures RuleIssue(rule) in PasswordIssues(p) <==> !Satisfies(p, rule)
  {
    OwnCheckOnly(p, rule, MinLength);
    OwnCheckOnly(p, rule, MaxLength);
    OwnCheckOnly(p, rule, HasUpper);
    OwnCheckOnly(p, rule, HasLower);
    OwnCheckOnly(p, rule, HasDigit);
    OwnCheckOnly(p, rule, HasSpecial);
  }

  /** A rule's issue can only come from that rule's own check. */
  lemma {:induction false} OwnCheckOnly(p: string, rule: PasswordRule, other: PasswordRule)
    ensures RuleIssue(rule) in RuleCheck(p, other) <==> other == rule && !Satisfies(p, rule)
  {
    if other != rule {
      RuleIssuesDistinct(other, rule);
    }
  }

  lemma {:induction false} RuleIssuesDistinct(a: PasswordRule, b: PasswordRule)
    requires a != b
    ensures RuleIssue(a) != RuleIssue(b)
  {
    if !(a.MinLength? || a.MaxLength? || b.MinLength? || b.MaxLength?) {
      assert RuleIssue(a).message[35] != RuleIssue(b).message[35];
    }
  }

  /** A password is accepted exactly when it satisfies all six rules. */
  lemma {:induction false} PasswordIssuesEmptyIff(p: string)
    ensures PasswordIssues(p) == [] <==> StrongPassword(p)
  {
    if PasswordIssues(p) == [] {
      forall rule ensures Satisfies(p, rule) {
        PasswordIssueIff(p, rule);
      }
    }
  }

  /** "abc" breaks the length, uppercase, digit and special rules at once, each with its own issue. */
  lemma PasswordAbc()
    ensures PasswordIssues("abc") == [RuleIssue(MinLength), RuleIssue(HasUpper), RuleIssue(HasDigit), RuleIssue(HasSpecial)]
  {
    var p := "abc";
    assert p == ['a', 'b', 'c'];
    assert !Satisfies(p, HasUpper) && !Satisfies(p, HasDigit) && !Satisfies(p, HasSpecial);
    assert Satisfies(p, HasLower) by { assert InClass(p[0], HasLower); }
  }

  /** "Secure123!" satisfies every rule. */
  lemma PasswordSecure()
    ensures PasswordIssues("Secure123!") == []
  {
    var p := "Secure123!";
    assert InClass(p[0], HasUpper) && InClass(p[1], HasLower) && InClass(p[6], HasDigit) && InClass(p[9], HasSpecial);
    assert forall rule :: Satisfies(p, rule);
    PasswordIssuesEmptyIff(p);
  }

  /** Twenty characters pass, although the message says "less than 20"... */
  lemma PasswordTwenty()
    ensures PasswordIssues("Abcdefghijklmnop123!") == []
  {
    var p := "Abcdefghijklmnop123!";
    assert |p| == 20;
    assert InClass(p[0], HasUpper) && InClass(p[1], HasLower) && InClass(p[16], HasDigit) && InClass(p[19], HasSpecial);
    assert forall rule :: Satisfies(p, rule);
    PasswordIssuesEmptyIff(p);
  }

  /** ...and twenty-one break only the length limit. */
  lemma PasswordTwentyOne()
    ensures PasswordIssues("Abcdefghijklmnop1234!") == [RuleIssue(MaxLength)]
  {
    var q := "Abcdefghijklmnop1234!";
    assert |q| == 21;
    assert InClass(q[0], HasUpper) && InClass(q[1], HasLower) && InClass(q[16], HasDigit) && InClass(q[20], HasSpecial);
    OnlyViolation(q, MaxLength);
  }

  /** A password that breaks exactly one rule gets exactly that rule's issue. */
  lemma {:induction false} OnlyViolation(p: string, rule: PasswordRule)
    requires !Satisfies(p, rule) && forall other :: other != rule ==> Satisfies(p, other)
    ensures PasswordIssues(p) == [RuleIssue(rule)]
  {
    assert forall other :: RuleCheck(p, other) == if other == rule then [RuleIssue(rule)] else [];
  }

  /** A Cyrillic capital is no uppercase letter to the schema... */
  lemma PasswordCyrillicNotUpper()
    ensures PasswordIssues("abcdefg1\U{0416}") == [RuleIssue(HasUpper)]
  {
    var p := "abcdefg1\U{0416}";
    assert !Satisfies(p, HasUpper) by {
      assert p == ['a', 'b', 'c', 'd', 'e', 'f', 'g', '1', '\U{0416}'];
    }
    assert |p| == 9;
    assert InClass(p[1], HasLower) && InClass(p[7], HasDigit) && InClass(p[8], HasSpecial);
    OnlyViolation(p, HasUpper);
  }

  /** ...but it does count as a special character. */
  lemma PasswordCyrillicSpecial()
    ensures PasswordIssues("Abcdefg1\U{0416}") == []
  {
    var q := "Abcdefg1\U{0416}";
    assert InClass(q[0], HasUpper) && InClass(q[1], HasLower) && InClass(q[7], HasDigit) && InClass(q[8], HasSpecial);
    assert forall rule :: Satisfies(q, rule);
    PasswordIssuesEmptyIff(q);
  }

  function PasswordFieldIssues(r: Raw): (issues: seq<Issue>)
    ensures issues == [] <==> r.Text? && StrongPassword(r.s)
  {
    if r.Text? then PasswordIssuesEmptyIff(r.s); PasswordIssues(r.s) else [TypeIssue(["password"], r)]
  }

  // ---------------------------------------------------------------- the object

  /** The request body as the schema sees it; keys it does not know are dropped. */
  datatype RegisterUserBody = RegisterUserBody(
    firstName: Raw,
    middleName: Raw,
    lastName: Raw,
    dateOfBirth: Raw,
    email: Raw,
    password: Raw)

  /** `RegisterUserDto`: the parsed, normalised registration data. */
  datatype RegisterUserData = RegisterUserData(
    firstName: string,
    middleName: Option<string>,
    lastName: string,
    dateOfBirth: Instant,
    email: string,
    password: string)

  /** All issues of a body, field by field in the schema's key order. */
  function BodyIssues(b: RegisterUserBody, isEmail: string -> bool): (issues: seq<Issue>)
    ensures issues == [] <==> ValidBody(b, isEmail)
  {
    NameFieldIssues("firstName", "First name", b.firstName)
    + MiddleNameIssues(b.middleName)
    + NameFieldIssues("lastName", "Last name", b.lastName)
    + DateOfBirthIssues(b.dateOfBirth)
    + EmailIssues(b.email, isEmail)
    + PasswordFieldIssues(b.password)
  }

  /** What a valid registration body is, field by field. */
  predicate ValidBody(b: RegisterUserBody, isEmail: string -> bool) {
    && b.firstName.Text? && ValidName(b.firstName.s)
    && (b.middleName.Missing? || (b.middleName.Text? && ValidName(b.middleName.s)))
    && b.lastName.Text? && ValidName(b.lastName.s)
    && b.dateOfBirth.Text? && ParseDateOfBirth(b.dateOfBirth.s).Some?
    && b.email.Text? && isEmail(b.email.s)
    && b.password.Text? && StrongPassword(b.password.s)
  }

  /**
   * `RegisterUserSchema.safeParse(body)`: the parsed data when every field
   * passes, all the issues otherwise.
   */
  function ParseRegisterUser(b: RegisterUserBody, isEmail: string -> bool): (r: Result<RegisterUserData, seq<Issue>>)
    ensures r.Ok? <==> ValidBody(b, isEmail)
    ensures r.Ok? ==> && r.value.firstName == b.firstName.s
                      && r.value.middleName == (if b.middleName.Text? then Some(b.middleName.s) else None)
                      && r.value.lastName == b.lastName.s
                      && Some(r.value.dateOfBirth) == ParseDateOfBirth(b.dateOfBirth.s)
                      && r.value.email == b.email.s
                      && r.value.password == b.password.s
    ensures r.Err? ==> r.error == BodyIssues(b, isEmail) && r.error != []
  {
    var issues := BodyIssues(b, isEmail);
    if issues == [] then
      Ok(RegisterUserData(
        b.firstName.s,
        if b.middleName.Text? then Some(b.middleName.s) else None,
        b.lastName.s,
        ParseDateOfBirth(b.dateOfBirth.s).value,
        b.email.s,
        b.password.s))
    else Err(issues)
  }

  /** A name with a character outside the letter class fails the parse with a letters-only issue on that field. */
  lemma {:induction false} NonLetterRejected(b: RegisterUserBody, isEmail: string -> bool, i: int)
    requires b.firstName.Text? && 0 <= i < |b.firstName.s| && !IsNameLetter(b.firstName.s[i])
    ensures ParseRegisterUser(b, isEmail).Err?
    ensures Issue(InvalidString, ["firstName"], "First name must contain only letters")
            in ParseRegisterUser(b, isEmail).error
  {
    var name := b.firstName.s;
    assert !ValidName(name) by {
      assert !IsNameLetter(name[i]);
    }
    FirstNameIssuesLeadBody(b, isEmail);
    var issues := NameIssues("firstName", "First name", name);
    assert "First name" + " must contain only letters" == "First name must contain only letters";
    assert !MatchesLetters(name);
    assert Issue(InvalidString, ["firstName"], "First name must contain only letters") in issues;
  }

  /** The first-name issues come first in the body's issue list. */
  lemma FirstNameIssuesLeadBody(b: RegisterUserBody, isEmail: string -> bool)
    requires b.firstName.Text?
    ensures forall x :: x in NameIssues("firstName", "First name", b.firstName.s) ==> x in BodyIssues(b, isEmail)
  {
  }
}
