/**
  The validators attached to the employee form's three controls, composed
  the way Angular composes them: each validator reports its own error key,
  every validator except `required` passes the empty value, and a control
  is valid when no key is reported.
 */
module FormValidators {

  import opened JsStrings
  import EmailPattern

  /** The error keys the form's validators report. */
  datatype ErrorKey = Required | Pattern | MaxLength | Email

  const NameMaxLength: nat := 100

  /** `[a-zA-Z ]`: a character the name pattern admits. */
  predicate IsNameChar(c: char)
  {
    IsAsciiLetter(c) || c == ' '
  }

  /** `^[a-zA-Z ]+$`, matched one character at a time. */
  function NamePatternMatches(v: string): bool
    decreases |v|
  {
    |v| > 0 && IsNameChar(v[0]) && (|v| == 1 || NamePatternMatches(v[1..]))
  }

  /** The name pattern accepts exactly the non-empty strings of letters and spaces. */
  lemma {:induction false} NamePatternIff(v: string)
    ensures NamePatternMatches(v) <==> |v| > 0 && forall i | 0 <= i < |v| :: IsNameChar(v[i])
    decreases |v|
  {
    if |v| > 1 {
      NamePatternIff(v[1..]);
      if forall i | 0 <= i < |v| :: IsNameChar(v[i]) {
        assert forall i | 0 <= i < |v[1..]| :: IsNameChar(v[1..][i]) by {
          forall i | 0 <= i < |v[1..]| ensures IsNameChar(v[1..][i]) {
            assert v[1..][i] == v[i + 1];
          }
        }
      }
      if NamePatternMatches(v) {
        forall i | 0 <= i < |v| ensures IsNameChar(v[i]) {
          if i > 0 {
            assert v[i] == v[1..][i - 1];
          }
        }
      }
    }
  }

  /** `Validators.required`: an empty value is an error. */
  function RequiredErrors(v: string): set<ErrorKey>
  {
    if |v| == 0 then {Required} else {}
  }

  /** The name control: required, letters and spaces, at most 100 characters. */
  function NameErrors(v: string): (errs: set<ErrorKey>)
    ensures errs <= {Required, Pattern, MaxLength}
    ensures Required in errs <==> |v| == 0
    ensures Pattern in errs <==> |v| > 0 && exists i | 0 <= i < |v| :: !IsNameChar(v[i])
    ensures MaxLength in errs <==> |v| > NameMaxLength
  {
    NamePatternIff(v);
    RequiredErrors(v)
    + (if |v| > 0 && !NamePatternMatches(v) then {Pattern} else {})
    + (if |v| > NameMaxLength then {MaxLength} else {})
  }

  /**
    The email control: required, Angular's own email check (a library
    routine, passed in as `ngEmail`) and the explicit pattern.
   */
  function EmailErrors(v: string, ngEmail: string -> bool): (errs: set<ErrorKey>)
    ensures errs <= {Required, Email, Pattern}
    ensures Required in errs <==> |v| == 0
    ensures Email in errs <==> |v| > 0 && !ngEmail(v)
    ensures Pattern in errs <==> |v| > 0 && !EmailPattern.InLanguage(v)
  {
    EmailPattern.MatchesIffInLanguage(v);
    RequiredErrors(v)
    + (if |v| > 0 && !ngEmail(v) then {Email} else {})
    + (if |v| > 0 && !EmailPattern.Matches(v) then {Pattern} else {})
  }

  /** The department control: required and nothing else; membership of the enumeration is not checked. */
  function DepartmentErrors(v: string): (errs: set<ErrorKey>)
    ensures errs == {} <==> |v| > 0
    ensures errs <= {Required}
  {
    RequiredErrors(v)
  }

  predicate NameValid(v: string) { NameErrors(v) == {} }

  predicate EmailValid(v: string, ngEmail: string -> bool) { EmailErrors(v, ngEmail) == {} }

  predicate DepartmentValid(v: string) { DepartmentErrors(v) == {} }

  /** A name is valid exactly when it is non-empty, at most 100 characters, and letters and spaces only. */
  lemma NameValidIff(v: string)
    ensures NameValid(v) <==> 0 < |v| <= NameMaxLength && forall i | 0 <= i < |v| :: IsNameChar(v[i])
  {
    if !NameValid(v) && |v| > 0 && |v| <= NameMaxLength {
      assert Pattern in NameErrors(v);
    }
  }

  /** An email is valid exactly when it is non-empty, passes Angular's check, and is in the pattern's language. */
  lemma EmailValidIff(v: string, ngEmail: string -> bool)
    ensures EmailValid(v, ngEmail) <==> |v| > 0 && ngEmail(v) && EmailPattern.InLanguage(v)
  {
    if |v| > 0 && !ngEmail(v) {
      assert Email in EmailErrors(v, ngEmail);
    }
    if |v| > 0 && !EmailPattern.InLanguage(v) {
      assert Pattern in EmailErrors(v, ngEmail);
    }
  }

  /** A valid email has exactly one `@`, something before it, and a final dot followed by two or more letters. */
  lemma ValidEmailShape(v: string, ngEmail: string -> bool) returns (at: int, dot: int)
    requires EmailValid(v, ngEmail)
    ensures 0 < at < |v| && v[at] == '@'
    ensures forall j | 0 <= j < |v| && v[j] == '@' :: j == at
    ensures at < dot && dot + 2 < |v| && v[dot] == '.'
    ensures forall j | dot < j < |v| :: IsAsciiLetter(v[j])
  {
    at, dot := EmailPattern.AcceptedShape(v);
  }

  /** A name with a digit in it is rejected by the pattern. */
  lemma NameWithDigitInvalid(v: string, k: int)
    requires 0 <= k < |v| && IsAsciiDigit(v[k])
    ensures !NameValid(v) && Pattern in NameErrors(v)
  {
    assert !IsNameChar(v[k]);
  }

  /** A name of letters and spaces up to 100 characters is accepted. */
  lemma LetterNameValid()
    ensures NameValid("Ada Lovelace")
  {
    var v := "Ada Lovelace";
    forall i | 0 <= i < |v|
      ensures IsNameChar(v[i])
    {
    }
    NameValidIff(v);
  }
}
