/** Client-side form validation: email shape, password strength, image type
    and size, year range, required and length checks, social-profile URLs,
    and the rule-by-rule `validate`. */
module Validators {
  import opened Wrappers
  import opened Seqs
  import opened Text

  // ---------------------------------------------------------------------------
  // email

  /** What `^[^\s@]+@[^\s@]+\.[^\s@]+$` matches: one `@` after a non-empty
      local part, a `.` at least one character after the `@` and before the
      last character, and no white space or other `@` anywhere. */
  predicate EmailPattern(t: string) {
    exists i, k ::
      && 0 < i && i + 1 < k && k + 1 < |t|
      && t[i] == '@' && t[k] == '.'
      && (forall j :: 0 <= j < |t| && j != i ==> t[j] != '@')
      && HasNoSpace(t)
  }

  /** The shape test as a scan: find the first `@`, then look at the domain
      after it. */
  predicate EmailShape(t: string) {
    && HasNoSpace(t)
    && match FindFirst(t, "@")
       case None => false
       case Some(i) =>
         var d := t[i + 1..];
         i > 0 && '@' !in d && |d| >= 3 && '.' in d[1..|d| - 1]
  }

  /** The scan accepts exactly what the regular expression matches. */
  lemma EmailShapeIsPattern(t: string)
    ensures EmailShape(t) <==> EmailPattern(t)
  {
    if EmailShape(t) {
      var i := FindFirst(t, "@").value;
      var d := t[i + 1..];
      OccursAtChar(t, i, '@');
      var m :| 0 <= m < |d| - 2 && d[1..|d| - 1][m] == '.';
      var k := i + 2 + m;
      assert t[k] == '.';
      forall j | 0 <= j < |t| && j != i ensures t[j] != '@' {
        if j < i {
          OccursAtChar(t, j, '@');
        } else {
          assert t[j] == d[j - i - 1];
        }
      }
      assert EmailPattern(t);
    }
    if EmailPattern(t) {
      var i, k :| && 0 < i && i + 1 < k && k + 1 < |t|
        && t[i] == '@' && t[k] == '.'
        && (forall j :: 0 <= j < |t| && j != i ==> t[j] != '@')
        && HasNoSpace(t);
      OccursAtChar(t, i, '@');
      forall j | 0 <= j < i ensures !OccursAt(t, j, "@") {
        OccursAtChar(t, j, '@');
      }
      FindFirstIs(t, "@", i);
      var d := t[i + 1..];
      forall j | 0 <= j < |d| ensures d[j] != '@' {
        assert d[j] == t[i + 1 + j];
      }
      assert d[1..|d| - 1][k - i - 2] == '.';
    }
  }

  /** `isValidEmail`: a non-empty text whose trimmed form has the shape. */
  function IsValidEmail(email: string): (r: bool)
    ensures r <==> email != "" && EmailPattern(Trim(email))
  {
    EmailShapeIsPattern(Trim(email));
    email != "" && EmailShape(Trim(email))
  }

  // ---------------------------------------------------------------------------
  // password

  const MinPasswordLength: nat := 12
  const SpecialChars: string := "!@#$%^&*(),.?\":{}|<>"

  datatype PasswordRule = LongEnough | HasUppercase | HasLowercase | HasNumber | HasSpecial

  /** The rules in the order they are checked. */
  const AllRules: seq<PasswordRule> := [LongEnough, HasUppercase, HasLowercase, HasNumber, HasSpecial]

  predicate HasUpper(p: string) { exists i :: 0 <= i < |p| && IsUpper(p[i]) }
  predicate HasLower(p: string) { exists i :: 0 <= i < |p| && IsLower(p[i]) }
  predicate HasDigit(p: string) { exists i :: 0 <= i < |p| && IsDigit(p[i]) }
  predicate HasSpecialChar(p: string) { exists i :: 0 <= i < |p| && p[i] in SpecialChars }

  predicate Holds(p: string, rule: PasswordRule) {
    match rule
    case LongEnough => |p| >= MinPasswordLength
    case HasUppercase => HasUpper(p)
    case HasLowercase => HasLower(p)
    case HasNumber => HasDigit(p)
    case HasSpecial => HasSpecialChar(p)
  }

  function RuleMessage(rule: PasswordRule): string {
    match rule
    case LongEnough => "Password must be at least 12 characters long"
    case HasUppercase => "Password must contain at least one uppercase letter"
    case HasLowercase => "Password must contain at least one lowercase letter"
    case HasNumber => "Password must contain at least one number"
    case HasSpecial => "Password must contain at least one special character"
  }

  function Messages(rules: seq<PasswordRule>): (r: seq<string>)
    ensures |r| == |rules|
    ensures forall k :: 0 <= k < |rules| ==> r[k] == RuleMessage(rules[k])
  {
    seq(|rules|, k requires 0 <= k < |rules| => RuleMessage(rules[k]))
  }

  /** The rules of `rules` that `p` breaks, in the order given. */
  function Broken(p: string, rules: seq<PasswordRule>): (r: seq<PasswordRule>)
    ensures forall rule :: rule in r <==> rule in rules && !Holds(p, rule)
    ensures |r| <= |rules|
  {
    if rules == [] then []
    else (if Holds(p, rules[0]) then [] else [rules[0]]) + Broken(p, rules[1..])
  }

  /** The rules a password breaks, in checking order. */
  function FailedRules(p: string): (r: seq<PasswordRule>)
    ensures forall rule :: rule in r <==> !Holds(p, rule)
    ensures |r| <= 5
  {
    AllRulesComplete();
    Broken(p, AllRules)
  }

  lemma AllRulesComplete()
    ensures forall rule :: rule in AllRules
  {
    forall rule ensures rule in AllRules {
      match rule
      case LongEnough => assert AllRules[0] == rule;
      case HasUppercase => assert AllRules[1] == rule;
      case HasLowercase => assert AllRules[2] == rule;
      case HasNumber => assert AllRules[3] == rule;
      case HasSpecial => assert AllRules[4] == rule;
    }
  }

  datatype PasswordResult = PasswordResult(valid: bool, errors: seq<string>)

  function When(c: bool, rule: PasswordRule): seq<PasswordRule> {
    if c then [rule] else []
  }

  /** The rules `isValidPassword` finds broken, checked one after another. */
  function CheckedRules(p: string): seq<PasswordRule> {
    When(|p| < MinPasswordLength, LongEnough)
    + (When(!HasUpper(p), HasUppercase)
    + (When(!HasLower(p), HasLowercase)
    + (When(!HasDigit(p), HasNumber)
    + When(!HasSpecialChar(p), HasSpecial))))
  }

  /** `isValidPassword`: an empty password only reports that one is
      required; any other gets one message per broken rule, in checking
      order, and is valid exactly when it breaks none. */
  function IsValidPassword(p: string): (r: PasswordResult)
    ensures p == "" ==> r == PasswordResult(false, ["Password is required"])
    ensures p != "" ==> r.errors == Messages(FailedRules(p))
    ensures r.valid <==> r.errors == []
    ensures r.valid <==> p != "" && forall rule :: Holds(p, rule)
  {
    if p == "" then PasswordResult(false, ["Password is required"])
    else
      var errors := Messages(CheckedRules(p));
      PasswordChecksInOrder(p);
      assert FailedRules(p) != [] ==> FailedRules(p)[0] in FailedRules(p);
      PasswordResult(errors == [], errors)
  }

  lemma BrokenStep(p: string, rules: seq<PasswordRule>)
    requires rules != []
    ensures Broken(p, rules) == When(!Holds(p, rules[0]), rules[0]) + Broken(p, rules[1..])
  {
  }

  /** Checking the rules one after another finds the broken ones in order. */
  lemma PasswordChecksInOrder(p: string)
    ensures CheckedRules(p) == FailedRules(p)
  {
    var rs := AllRules;
    BrokenStep(p, rs);
    BrokenStep(p, rs[1..]);
    BrokenStep(p, rs[2..]);
    BrokenStep(p, rs[3..]);
    BrokenStep(p, rs[4..]);
    assert rs[1..][1..] == rs[2..] && rs[2..][1..] == rs[3..] && rs[3..][1..] == rs[4..] && rs[4..][1..] == [];
    var w3 := When(!HasDigit(p), HasNumber);
    var w4 := When(!HasSpecialChar(p), HasSpecial);
    assert Broken(p, rs[4..]) == w4;
    assert Broken(p, rs[3..]) == w3 + w4;
    assert FailedRules(p) == Broken(p, rs);
  }

  // ---------------------------------------------------------------------------
  // files, years, required values and lengths

  const ImageTypes: seq<string> := ["image/jpeg", "image/jpg", "image/png", "image/gif", "image/webp"]

  /** A check that passes, or fails with a message. */
  datatype Check = Pass | Fail(error: string)

  /** `isValidImageFile`: only the five listed MIME types pass. */
  function IsValidImageFile(mimeType: string): (r: Check)
    ensures r.Pass? <==> mimeType in ImageTypes
    ensures r.Fail? ==> r.error == "Invalid file type. Allowed: JPG, PNG, GIF, WebP"
  {
    if mimeType in ImageTypes then Pass else Fail("Invalid file type. Allowed: JPG, PNG, GIF, WebP")
  }

  const MiB: int := 1024 * 1024

  /** `isValidFileSize(file, maxSizeMB)`, 5 by default: at most the limit in
      mebibytes passes. */
  function IsValidFileSize(size: int, maxSizeMB: int): (r: Check)
    ensures r.Pass? <==> size <= maxSizeMB * 1048576
    ensures r.Fail? ==> r.error == "File too large. Maximum size: " + IntToString(maxSizeMB) + "MB"
  {
    if size > maxSizeMB * MiB then Fail("File too large. Maximum size: " + IntToString(maxSizeMB) + "MB")
    else Pass
  }

  /** A larger limit accepts every file a smaller one does. */
  lemma FileSizeMonotone(size: int, m1: int, m2: int)
    requires m1 <= m2
    ensures IsValidFileSize(size, m1).Pass? ==> IsValidFileSize(size, m2).Pass?
  {
  }

  /** `isValidYear`; `year` is the parsed number, `None` for NaN, and the
      current year is a parameter. */
  function IsValidYear(year: Option<int>, currentYear: int): (r: bool)
    ensures r <==> year.Some? && 1900 <= year.value <= currentYear + 10
  {
    match year
    case None => false
    case Some(y) => y >= 1900 && y <= currentYear + 10
  }

  /** The values `isRequired` distinguishes. */
  datatype Value = Absent | Text(s: string) | List(length: nat) | Other

  /** `isRequired`: present, and for text not blank, for a list not empty. */
  function IsRequired(v: Value): (r: bool)
    ensures v.Absent? ==> !r
    ensures v.Text? ==> (r <==> !AllSpace(v.s))
    ensures v.List? ==> (r <==> v.length > 0)
    ensures v.Other? ==> r
  {
    match v
    case Absent => false
    case Text(s) => TrimEmpty(s); |Trim(s)| > 0
    case List(n) => n > 0
    case Other => true
  }

  /** `minLength`: empty text fails, otherwise the trimmed length counts. */
  function MinLength(value: string, min: int): (r: bool)
    ensures value == "" ==> !r
    ensures value != "" ==> (r <==> |Trim(value)| >= min)
  {
    value != "" && |Trim(value)| >= min
  }

  /** `maxLength`: empty text passes, otherwise the trimmed length counts. */
  function MaxLength(value: string, max: int): (r: bool)
    ensures value == "" ==> r
    ensures value != "" ==> (r <==> |Trim(value)| <= max)
  {
    value == "" || |Trim(value)| <= max
  }

  /** Padding a text with white space changes neither length check. */
  lemma LengthChecksIgnorePadding(t: string, min: int, max: int)
    requires t != "" && IsTrimmed(t)
    ensures MinLength(" " + t, min) == MinLength(t, min)
    ensures MaxLength(" " + t, max) == MaxLength(t, max)
  {
    TrimLeadingBlank(t);
    TrimTrimmed(t);
  }

  /** `inRange`: inclusive at both ends. */
  function InRange(value: int, min: int, max: int): (r: bool)
    ensures r <==> min <= value <= max
  {
    value >= min && value <= max
  }

  // ---------------------------------------------------------------------------
  // social-profile URLs

  const Schemes: set<string> := {"http://", "https://"}
  const WwwPrefixes: set<string> := {"", "www."}

  const GithubHosts: set<string> := {"github.com/"}
  const LinkedInHosts: set<string> := {"linkedin.com/in/", "linkedin.com/company/"}
  const TwitterHosts: set<string> := {"twitter.com/", "x.com/"}

  /** `s` starts with `p` and then one more character that is not a line
      terminator (what `.+` needs, the pattern having no end anchor). */
  predicate PrefixThenMore(s: string, p: string) {
    StartsWith(s, p) && |s| > |p| && !IsLineTerminator(s[|p|])
  }

  /** What `^https?:\/\/(www\.)?(<host>)\/.+` matches, for the listed hosts
      (each written with its trailing `/`). */
  predicate UrlPattern(url: string, hosts: set<string>) {
    exists scheme, www, host ::
      scheme in Schemes && www in WwwPrefixes && host in hosts
      && PrefixThenMore(url, scheme + www + host)
  }

  /** The text after `https://` or `http://`. */
  function AfterScheme(url: string): (r: Option<string>)
    ensures r.Some? ==> exists scheme :: scheme in Schemes && StartsWith(url, scheme) && r.value == url[|scheme|..]
    ensures r.None? ==> forall scheme :: scheme in Schemes ==> !StartsWith(url, scheme)
  {
    if StartsWith(url, "https://") then Some(url[8..])
    else if StartsWith(url, "http://") then Some(url[7..])
    else None
  }

  predicate HostMatches(rest: string, hosts: set<string>) {
    exists host :: host in hosts && PrefixThenMore(rest, host)
  }

  /** The scan: after the scheme, the host either directly or after `www.`. */
  predicate UrlShape(url: string, hosts: set<string>) {
    match AfterScheme(url)
    case None => false
    case Some(rest) =>
      HostMatches(rest, hosts) || (StartsWith(rest, "www.") && HostMatches(rest[4..], hosts))
  }

  lemma PrefixThenMoreConcat(s: string, a: string, b: string)
    requires StartsWith(s, a)
    ensures PrefixThenMore(s, a + b) <==> PrefixThenMore(s[|a|..], b)
  {
    StartsWithConcat(s, a, b);
    if |s| > |a| + |b| {
      assert s[|a|..][|b|] == s[|a| + |b|];
    }
  }

  /** A URL starts with at most one scheme. */
  lemma OneScheme(url: string, scheme: string)
    requires scheme in Schemes && StartsWith(url, scheme)
    ensures AfterScheme(url) == Some(url[|scheme|..])
  {
    if scheme == "http://" {
      assert url[4] == ':';
      assert !StartsWith(url, "https://") by {
        assert "https://"[4] == 's';
        if |url| >= 8 {
          assert url[..8][4] == url[4];
        }
      }
    }
  }

  lemma UrlShapeMatches(url: string, hosts: set<string>)
    requires UrlShape(url, hosts)
    ensures UrlPattern(url, hosts)
  {
    var scheme :| scheme in Schemes && StartsWith(url, scheme) && AfterScheme(url).value == url[|scheme|..];
    var rest := url[|scheme|..];
    if HostMatches(rest, hosts) {
      var host :| host in hosts && PrefixThenMore(rest, host);
      PrefixThenMoreConcat(url, scheme, host);
      assert scheme + "" + host == scheme + host;
      assert "" in WwwPrefixes;
    } else {
      var host :| host in hosts && PrefixThenMore(rest[4..], host);
      StartsWithConcat(url, scheme, "www.");
      assert rest[4..] == url[|scheme + "www."|..];
      PrefixThenMoreConcat(url, scheme + "www.", host);
      assert "www." in WwwPrefixes;
    }
  }

  lemma PatternMatchesShape(url: string, hosts: set<string>)
    requires UrlPattern(url, hosts)
    ensures UrlShape(url, hosts)
  {
    var scheme, www, host :| scheme in Schemes && www in WwwPrefixes && host in hosts
      && PrefixThenMore(url, scheme + www + host);
    assert scheme + www + host == scheme + (www + host);
    StartsWithConcat(url, scheme, www + host);
    OneScheme(url, scheme);
    var rest := url[|scheme|..];
    PrefixThenMoreConcat(url, scheme, www + host);
    StartsWithConcat(rest, www, host);
    PrefixThenMoreConcat(rest, www, host);
    if www == "" {
      assert rest[|www|..] == rest;
      assert HostMatches(rest, hosts);
    } else {
      assert www == "www.";
      assert HostMatches(rest[4..], hosts);
    }
  }

  /** The scan accepts exactly what the regular expression matches. */
  lemma UrlShapeIsPattern(url: string, hosts: set<string>)
    ensures UrlShape(url, hosts) <==> UrlPattern(url, hosts)
  {
    if UrlShape(url, hosts) {
      UrlShapeMatches(url, hosts);
    }
    if UrlPattern(url, hosts) {
      PatternMatchesShape(url, hosts);
    }
  }

  /** `isValidGithubUrl`. */
  function IsValidGithubUrl(url: string): (r: bool)
    ensures r <==> UrlPattern(url, GithubHosts)
  {
    UrlShapeIsPattern(url, GithubHosts);
    url != "" && UrlShape(url, GithubHosts)
  }

  /** `isValidLinkedInUrl`: a personal (`in/`) or a company page. */
  function IsValidLinkedInUrl(url: string): (r: bool)
    ensures r <==> UrlPattern(url, LinkedInHosts)
  {
    UrlShapeIsPattern(url, LinkedInHosts);
    url != "" && UrlShape(url, LinkedInHosts)
  }

  /** `isValidTwitterUrl`: twitter.com or x.com. */
  function IsValidTwitterUrl(url: string): (r: bool)
    ensures r <==> UrlPattern(url, TwitterHosts)
  {
    UrlShapeIsPattern(url, TwitterHosts);
    url != "" && UrlShape(url, TwitterHosts)
  }

  // ---------------------------------------------------------------------------
  // validate

  /** A `ValidationRule`; a length bound of 0 counts as absent, as in the
      source's truthiness test. The URL, pattern and custom tests are
      supplied predicates. */
  datatype Rules = Rules(
    required: bool,
    email: bool,
    url: bool,
    minLength: Option<int>,
    maxLength: Option<int>,
    pattern: Option<string -> bool>,
    custom: Option<string -> bool>)

  function MinMessage(n: int): string { "Minimum " + IntToString(n) + " characters required" }
  function MaxMessage(n: int): string { "Maximum " + IntToString(n) + " characters allowed" }

  predicate Active(bound: Option<int>) { bound.Some? && bound.value != 0 }

  /** The checks after the empty-value shortcut, in order: whether each
      fails, and its message. */
  function LaterChecks(v: string, rules: Rules, isUrl: string -> bool): seq<(bool, string)> {
    [ (rules.email && !IsValidEmail(v), "Invalid email address"),
      (rules.url && !isUrl(v), "Invalid URL format"),
      (Active(rules.minLength) && !MinLength(v, rules.minLength.value), MinMessage(rules.minLength.GetOr(0))),
      (Active(rules.maxLength) && !MaxLength(v, rules.maxLength.value), MaxMessage(rules.maxLength.GetOr(0))),
      (rules.pattern.Some? && !rules.pattern.value(v), "Invalid format"),
      (rules.custom.Some? && !rules.custom.value(v), "Invalid value") ]
  }

  /** The message of the first failing check. */
  function FirstFailure(checks: seq<(bool, string)>): (r: Check)
    ensures r.Pass? <==> forall k :: 0 <= k < |checks| ==> !checks[k].0
    ensures forall k :: 0 <= k < |checks| && checks[k].0 && (forall j :: 0 <= j < k ==> !checks[j].0) ==>
      r == Fail(checks[k].1)
  {
    if checks == [] then Pass
    else if checks[0].0 then Fail(checks[0].1)
    else
      FirstFailureTail(checks);
      FirstFailure(checks[1..])
  }

  lemma FirstFailureTail(checks: seq<(bool, string)>)
    requires checks != [] && !checks[0].0
    ensures forall k :: 1 <= k < |checks| && checks[k].0 && (forall j :: 1 <= j < k ==> !checks[j].0) ==>
      checks[1..][k - 1] == checks[k] && (forall j :: 0 <= j < k - 1 ==> !checks[1..][j].0)
  {
  }

  /** `validate(value, rules)`: a required value must be present and not
      blank; an empty value is otherwise valid; after that the first failing
      rule decides, in the order email, url, minimum length, maximum
      length, pattern, custom. */
  function Validate(value: Option<string>, rules: Rules, isUrl: string -> bool): (r: Check)
    ensures rules.required && (value.None? || AllSpace(value.value)) ==> r == Fail("This field is required")
    ensures !rules.required && (value.None? || value.value == "") ==> r == Pass
    ensures value.Some? && value.value != "" && !(rules.required && AllSpace(value.value)) ==>
      var checks := LaterChecks(value.value, rules, isUrl);
      && (r.Pass? <==> forall k :: 0 <= k < |checks| ==> !checks[k].0)
      && (forall k :: 0 <= k < |checks| && checks[k].0 && (forall j :: 0 <= j < k ==> !checks[j].0) ==>
            r == Fail(checks[k].1))
  {
    var present := if value.Some? then Text(value.value) else Absent;
    if rules.required && !IsRequired(present) then Fail("This field is required")
    else if value.None? || value.value == "" then Pass
    else FirstFailure(LaterChecks(value.value, rules, isUrl))
  }

  /** An email rule that fails decides the outcome, whatever the later rules
      say. */
  lemma EmailRuleFirst(v: string, rules: Rules, isUrl: string -> bool)
    requires v != "" && !(rules.required && AllSpace(v))
    requires rules.email && !IsValidEmail(v)
    ensures Validate(Some(v), rules, isUrl) == Fail("Invalid email address")
  {
    assert LaterChecks(v, rules, isUrl)[0] == (true, "Invalid email address");
  }

  /** With no rules set, every value is valid. */
  lemma NoRulesAcceptAll(value: Option<string>, isUrl: string -> bool)
    ensures Validate(value, Rules(false, false, false, None, None, None, None), isUrl) == Pass
  {
  }
}
