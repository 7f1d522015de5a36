/**
 * Password rules: the server's check (at least 8 bytes with an ASCII lower-case
 * letter, upper-case letter and digit) and the client's configurable checker
 * with its error list, requirements text and strength meter.
 *
 * A password is a sequence of Unicode characters. The server measures it in
 * UTF-8 bytes (Go's `len`) and the client in UTF-16 code units (JavaScript's
 * `length`), so the two lengths differ beyond ASCII. Each character class is
 * looked for by a regular-expression search, modelled as a left-to-right scan.
 */
module Passwords {
  import opened GoStrings

  predicate IsLower(c: char) { 'a' <= c <= 'z' }
  predicate IsUpper(c: char) { 'A' <= c <= 'Z' }
  predicate IsDigit(c: char) { '0' <= c <= '9' }

  /** The class `[!@#$%^&*()_+\-=\[\]{};':"\\|,.<>\/?]`. */
  predicate IsSpecialChar(c: char)
  {
    c == '!' || c == '@' || c == '#' || c == '$' || c == '%' || c == '^' || c == '&' || c == '*'
    || c == '(' || c == ')' || c == '_' || c == '+' || c == '-' || c == '=' || c == '[' || c == ']'
    || c == '{' || c == '}' || c == ';' || c == '\'' || c == ':' || c == '"' || c == '\\' || c == '|'
    || c == ',' || c == '.' || c == '<' || c == '>' || c == '/' || c == '?'
  }

  /** A one-class pattern searched for in the text. */
  datatype CharClass = Lower | Upper | Digit | Special

  predicate InClass(cls: CharClass, c: char)
  {
    match cls
    case Lower => IsLower(c)
    case Upper => IsUpper(c)
    case Digit => IsDigit(c)
    case Special => IsSpecialChar(c)
  }

  /** Whether the pattern matches somewhere: the scan stops at the first character in the class. */
  function Matches(cls: CharClass, s: string): (r: bool)
    ensures r <==> exists i :: 0 <= i < |s| && InClass(cls, s[i])
  {
    if s == [] then false
    else if InClass(cls, s[0]) then true
    else
      assert forall i :: 1 <= i < |s| ==> s[i] == s[1..][i - 1];
      Matches(cls, s[1..])
  }

  /** A match found in a text is still found after more text is appended. */
  lemma MatchesExtend(cls: CharClass, s: string, extra: string)
    requires Matches(cls, s)
    ensures Matches(cls, s + extra)
  {
    var i :| 0 <= i < |s| && InClass(cls, s[i]);
    assert (s + extra)[i] == s[i];
  }

  // ---------------------------------------------------------------------------
  // The two length measures
  // ---------------------------------------------------------------------------

  /** Bytes of one character in UTF-8. */
  function Utf8Width(c: char): nat
  {
    if c as int < 0x80 then 1 else if c as int < 0x800 then 2 else if c as int < 0x10000 then 3 else 4
  }

  /** Code units of one character in UTF-16: two for a character outside the basic plane. */
  function Utf16Width(c: char): nat
  {
    if c as int < 0x10000 then 1 else 2
  }

  /** Go's `len` of the string: its UTF-8 bytes. */
  function Utf8Len(s: string): nat
  {
    if s == [] then 0 else Utf8Width(s[0]) + Utf8Len(s[1..])
  }

  /** JavaScript's `length` of the string: its UTF-16 code units. */
  function Utf16Len(s: string): nat
  {
    if s == [] then 0 else Utf16Width(s[0]) + Utf16Len(s[1..])
  }

  predicate IsAscii(s: string)
  {
    forall i :: 0 <= i < |s| ==> s[i] as int < 0x80
  }

  /** A string has at least as many UTF-16 units as characters and at least as many bytes as units; in ASCII all three agree. */
  lemma {:induction false} LengthsCompare(s: string)
    ensures |s| <= Utf16Len(s) <= Utf8Len(s)
    ensures IsAscii(s) ==> Utf16Len(s) == |s| && Utf8Len(s) == |s|
  {
    if s != [] {
      assert IsAscii(s) ==> IsAscii(s[1..]) by {
        if IsAscii(s) {
          forall i | 0 <= i < |s[1..]| ensures s[1..][i] as int < 0x80 {
            assert s[1..][i] == s[i + 1];
          }
        }
      }
      LengthsCompare(s[1..]);
    }
  }

  /** The bytes of a concatenation are the bytes of its parts. */
  lemma {:induction false} Utf8LenAppend(a: string, b: string)
    ensures Utf8Len(a + b) == Utf8Len(a) + Utf8Len(b)
  {
    if a != [] {
      assert (a + b)[1..] == a[1..] + b;
      Utf8LenAppend(a[1..], b);
    } else {
      assert a + b == b;
    }
  }

  // ---------------------------------------------------------------------------
  // The server's rule (IsValidPassword)
  // ---------------------------------------------------------------------------

  const MinServerLength: int := 8

  /** IsValidPassword: at least 8 bytes with a lower-case letter, an upper-case letter and a digit, all ASCII. */
  function IsValidPassword(pw: string): (r: bool)
    ensures r <==> Utf8Len(pw) >= MinServerLength
                   && (exists i :: 0 <= i < |pw| && IsLower(pw[i]))
                   && (exists i :: 0 <= i < |pw| && IsUpper(pw[i]))
                   && (exists i :: 0 <= i < |pw| && IsDigit(pw[i]))
  {
    if Utf8Len(pw) < MinServerLength then false
    else Matches(Lower, pw) && Matches(Upper, pw) && Matches(Digit, pw)
  }

  /** No special character is needed, and appending to a valid password keeps it valid. */
  lemma ValidStaysValid(pw: string, extra: string)
    requires IsValidPassword(pw)
    ensures IsValidPassword(pw + extra)
  {
    Utf8LenAppend(pw, extra);
    MatchesExtend(Lower, pw, extra);
    MatchesExtend(Upper, pw, extra);
    MatchesExtend(Digit, pw, extra);
  }

  /** A password whose letters are all outside ASCII has no lower-case letter in the rule's sense and is refused. */
  lemma NonAsciiLettersDoNotCount(pw: string)
    requires forall i :: 0 <= i < |pw| ==> pw[i] as int >= 128 || IsDigit(pw[i]) || IsSpecialChar(pw[i])
    ensures !IsValidPassword(pw)
  {
    forall i | 0 <= i < |pw|
      ensures !IsLower(pw[i])
    {
      assert pw[i] as int >= 128 || IsDigit(pw[i]) || IsSpecialChar(pw[i]);
    }
  }

  // ---------------------------------------------------------------------------
  // The client's checker (validatePassword and friends)
  // ---------------------------------------------------------------------------

  datatype Requirements = Requirements(minLength: int, requireLower: bool, requireUpper: bool,
                                       requireDigit: bool, requireSpecial: bool)

  const DefaultRequirements: Requirements := Requirements(8, true, true, true, false)

  const ErrLower: string := "Password must contain at least one lowercase letter"
  const ErrUpper: string := "Password must contain at least one uppercase letter"
  const ErrDigit: string := "Password must contain at least one number"
  const ErrSpecial: string := "Password must contain at least one special character"

  function ErrLength(minLength: int): string
  {
    "Password must be at least " + IntToString(minLength) + " characters long"
  }

  datatype ValidationResult = ValidationResult(isValid: bool, errors: seq<string>, requirementsText: string)

  /** The requirements a password fails, in the fixed order length, lower, upper, digit, special. */
  datatype Requirement = MinLength | NeedsLower | NeedsUpper | NeedsDigit | NeedsSpecial

  predicate Fails(password: string, req: Requirements, q: Requirement)
  {
    match q
    case MinLength => Utf16Len(password) < req.minLength
    case NeedsLower => req.requireLower && !Matches(Lower, password)
    case NeedsUpper => req.requireUpper && !Matches(Upper, password)
    case NeedsDigit => req.requireDigit && !Matches(Digit, password)
    case NeedsSpecial => req.requireSpecial && !Matches(Special, password)
  }

  function Message(req: Requirements, q: Requirement): string
  {
    match q
    case MinLength => ErrLength(req.minLength)
    case NeedsLower => ErrLower
    case NeedsUpper => ErrUpper
    case NeedsDigit => ErrDigit
    case NeedsSpecial => ErrSpecial
  }

  /** Whether a password meets every enabled requirement. */
  predicate Meets(password: string, req: Requirements)
  {
    && Utf16Len(password) >= req.minLength
    && (req.requireLower ==> exists i :: 0 <= i < |password| && IsLower(password[i]))
    && (req.requireUpper ==> exists i :: 0 <= i < |password| && IsUpper(password[i]))
    && (req.requireDigit ==> exists i :: 0 <= i < |password| && IsDigit(password[i]))
    && (req.requireSpecial ==> exists i :: 0 <= i < |password| && IsSpecialChar(password[i]))
  }

  /** The order in which the checks run and their errors are listed. */
  const Order: seq<Requirement> := [MinLength, NeedsLower, NeedsUpper, NeedsDigit, NeedsSpecial]

  /** The messages of the failed requirements, in the order given; empty exactly when none fails. */
  function FailedMessages(password: string, req: Requirements, qs: seq<Requirement>): (r: seq<string>)
    ensures |r| <= |qs|
    ensures r == [] <==> forall i :: 0 <= i < |qs| ==> !Fails(password, req, qs[i])
    ensures qs != [] && Fails(password, req, qs[0]) ==> r != [] && r[0] == Message(req, qs[0])
  {
    if qs == [] then []
    else
      var rest := FailedMessages(password, req, qs[1..]);
      assert forall i :: 1 <= i < |qs| ==> qs[i] == qs[1..][i - 1];
      (if Fails(password, req, qs[0]) then [Message(req, qs[0])] else []) + rest
  }

  /** The error list: one message per failed requirement, in the fixed order. */
  function Errors(password: string, req: Requirements): (r: seq<string>)
    ensures |r| <= 5
    ensures r == [] <==> !Fails(password, req, MinLength) && !Fails(password, req, NeedsLower)
                         && !Fails(password, req, NeedsUpper) && !Fails(password, req, NeedsDigit)
                         && !Fails(password, req, NeedsSpecial)
    ensures Fails(password, req, MinLength) ==> r[0] == ErrLength(req.minLength)
  {
    assert Order[0] == MinLength && Order[1] == NeedsLower && Order[2] == NeedsUpper;
    assert Order[3] == NeedsDigit && Order[4] == NeedsSpecial;
    FailedMessages(password, req, Order)
  }

  /** validatePassword: the errors, valid when there are none, and the requirements text. */
  function ValidatePassword(password: string, req: Requirements): (r: ValidationResult)
    ensures r.isValid <==> Meets(password, req)
    ensures r.isValid <==> r.errors == []
    ensures r.requirementsText == RequirementsText(req)
  {
    var errors := Errors(password, req);
    ValidationResult(|errors| == 0, errors, RequirementsText(req))
  }

  /** The requirement phrases: the length always, then each enabled requirement in order. */
  function RequirementPhrases(req: Requirements): (r: seq<string>)
    ensures |r| == 1 + (if req.requireLower then 1 else 0) + (if req.requireUpper then 1 else 0)
                     + (if req.requireDigit then 1 else 0) + (if req.requireSpecial then 1 else 0)
    ensures r[0] == "At least " + IntToString(req.minLength) + " characters"
  {
    ["At least " + IntToString(req.minLength) + " characters"]
    + (if req.requireLower then ["One lowercase letter"] else [])
    + (if req.requireUpper then ["One uppercase letter"] else [])
    + (if req.requireDigit then ["One number"] else [])
    + (if req.requireSpecial then ["One special character"] else [])
  }

  /** getPasswordRequirementsText: the phrases joined by ", ". */
  function RequirementsText(req: Requirements): string
  {
    Join(RequirementPhrases(req), ", ")
  }

  /** A joined list starts with its first part, and is that part alone when there is no other. */
  lemma JoinStartsWithFirst(parts: seq<string>, sep: string)
    requires |parts| >= 1
    ensures HasPrefix(Join(parts, sep), parts[0])
    ensures |parts| == 1 ==> Join(parts, sep) == parts[0]
  {
    if |parts| > 1 {
      var first, rest := parts[0], sep + Join(parts[1..], sep);
      assert Join(parts, sep) == first + rest;
      assert (first + rest)[..|first|] == first;
    }
  }

  /** The requirements text starts with the length phrase, and is that phrase alone when nothing else is enabled. */
  lemma RequirementsTextStart(req: Requirements)
    ensures HasPrefix(RequirementsText(req), "At least " + IntToString(req.minLength) + " characters")
    ensures !req.requireLower && !req.requireUpper && !req.requireDigit && !req.requireSpecial ==>
              RequirementsText(req) == "At least " + IntToString(req.minLength) + " characters"
  {
    JoinStartsWithFirst(RequirementPhrases(req), ", ");
  }

  /**
   * With the defaults every password the client accepts is accepted by the
   * server, and on ASCII passwords the two accept exactly the same ones.
   */
  lemma DefaultsAgreeWithServer(password: string)
    ensures ValidatePassword(password, DefaultRequirements).isValid ==> IsValidPassword(password)
    ensures IsAscii(password) ==>
              (ValidatePassword(password, DefaultRequirements).isValid <==> IsValidPassword(password))
  {
    LengthsCompare(password);
  }

  /** Beyond ASCII they part: "Aa1" and four e-acute is 11 bytes but 7 units, so only the server takes it. */
  lemma DefaultsDisagreeBeyondAscii()
    ensures IsValidPassword("Aa1\U{00E9}\U{00E9}\U{00E9}\U{00E9}")
    ensures !ValidatePassword("Aa1\U{00E9}\U{00E9}\U{00E9}\U{00E9}", DefaultRequirements).isValid
  {
    var pw := "Aa1\U{00E9}\U{00E9}\U{00E9}\U{00E9}";
    assert Utf8Len(pw) == 11 && Utf16Len(pw) == 7;
    assert IsLower(pw[1]) && IsUpper(pw[0]) && IsDigit(pw[2]);
  }

  datatype Strength = Weak | Medium | Strong

  /** How many of the five strength criteria hold. */
  function Score(password: string): (n: nat)
    ensures n <= 5
  {
    (if Utf16Len(password) >= 8 then 1 else 0)
    + (if Matches(Lower, password) then 1 else 0)
    + (if Matches(Upper, password) then 1 else 0)
    + (if Matches(Digit, password) then 1 else 0)
    + (if Matches(Special, password) then 1 else 0)
  }

  /** getPasswordStrength: weak below 6 characters; otherwise weak up to score 2, medium up to 4, strong at 5. */
  function PasswordStrength(password: string): (r: Strength)
    ensures Utf16Len(password) < 6 ==> r == Weak
  {
    if Utf16Len(password) < 6 then Weak
    else
      var score := Score(password);
      if score <= 2 then Weak else if score <= 4 then Medium else Strong
  }

  /** Strong means every criterion holds, and then the password passes the default checks and the server's rule. */
  lemma StrongMeansAll(password: string)
    ensures PasswordStrength(password) == Strong <==>
              Utf16Len(password) >= 8 && Matches(Lower, password) && Matches(Upper, password)
              && Matches(Digit, password) && Matches(Special, password)
    ensures PasswordStrength(password) == Strong ==>
              ValidatePassword(password, DefaultRequirements).isValid && IsValidPassword(password)
  {
    DefaultsAgreeWithServer(password);
  }
}
