/**
 Contact-form validation of the reservation dialog: JavaScript's notion of
 whitespace, `String.prototype.trim`, the email pattern `/\S+@\S+\.\S+/`
 (an unanchored regular-expression test) and the validator that turns a
 contact form into a map from field to error message.
 */
module Validation {

  /** The four inputs of the contact step, keyed by their `name` attribute. */
  datatype Field = Name | Email | Phone | SpecialRequests

  datatype ContactForm = ContactForm(name: string, email: string, phone: string, specialRequests: string)

  const EmptyForm := ContactForm("", "", "", "")

  const NameRequired := "Name is required"
  const EmailRequired := "Email is required"
  const EmailInvalid := "Email is invalid"
  const PhoneRequired := "Phone number is required"

  /** The field an input event names. */
  function FieldValue(form: ContactForm, f: Field): string {
    match f
    case Name => form.name
    case Email => form.email
    case Phone => form.phone
    case SpecialRequests => form.specialRequests
  }

  /** `{...prev, [name]: value}`: replace one field of the form. */
  function SetField(form: ContactForm, f: Field, v: string): (r: ContactForm)
    ensures FieldValue(r, f) == v
    ensures forall g :: g != f ==> FieldValue(r, g) == FieldValue(form, g)
  {
    match f
    case Name => form.(name := v)
    case Email => form.(email := v)
    case Phone => form.(phone := v)
    case SpecialRequests => form.(specialRequests := v)
  }

  // ---------------------------------------------------------------------------
  // Whitespace and trim
  // ---------------------------------------------------------------------------

  /** ECMAScript WhiteSpace and LineTerminator code points: the characters
      `trim` removes and the regular-expression class `\s` matches. */
  predicate IsSpace(c: char) {
    || c == '\t' || c == '\n' || c == '\U{000B}' || c == '\U{000C}' || c == '\r'
    || c == ' ' || c == '\U{00A0}' || c == '\U{1680}'
    || ('\U{2000}' <= c <= '\U{200A}')
    || c == '\U{2028}' || c == '\U{2029}' || c == '\U{202F}' || c == '\U{205F}'
    || c == '\U{3000}' || c == '\U{FEFF}'
  }

  /** Printable ASCII characters are not whitespace. */
  lemma PrintableNotSpace(c: char)
    requires '!' <= c <= '~'
    ensures !IsSpace(c)
  {
  }

  /** Every character is whitespace (the empty string included). */
  predicate IsBlank(s: string) {
    forall i :: 0 <= i < |s| ==> IsSpace(s[i])
  }

  /** Leading whitespace removed: a suffix of `s`, dropping only whitespace,
      that does not itself start with whitespace. */
  function TrimStart(s: string): (r: string)
    ensures |r| <= |s| && r == s[|s| - |r|..]
    ensures forall i :: 0 <= i < |s| - |r| ==> IsSpace(s[i])
    ensures r == [] || !IsSpace(r[0])
  {
    if |s| > 0 && IsSpace(s[0]) then TrimStart(s[1..]) else s
  }

  /** Trailing whitespace removed: a prefix of `s`, dropping only whitespace,
      that does not itself end with whitespace. */
  function TrimEnd(s: string): (r: string)
    ensures |r| <= |s| && r == s[..|r|]
    ensures forall i :: |r| <= i < |s| ==> IsSpace(s[i])
    ensures r == [] || !IsSpace(r[|r| - 1])
  {
    if |s| > 0 && IsSpace(s[|s| - 1]) then TrimEnd(s[..|s| - 1]) else s
  }

  /** `s.trim()`: the slice of `s` left once the whitespace at both ends is
      cut. The result is empty exactly when `s` is blank, and a non-empty
      result neither starts nor ends with whitespace. */
  function Trim(s: string): (r: string)
    ensures r == [] <==> IsBlank(s)
    ensures r != [] ==> !IsSpace(r[0]) && !IsSpace(r[|r| - 1])
    ensures exists a, b :: 0 <= a <= b <= |s| && r == s[a..b]
              && (forall i :: 0 <= i < a || b <= i < |s| ==> IsSpace(s[i]))
  {
    var t := TrimStart(s);
    var r := TrimEnd(t);
    TrimSlice(s, t, r);
    r
  }

  /** A prefix `r` of a suffix `t` of `s`, each cutting only whitespace and
      the first keeping no whitespace at its start, is a slice of `s` with
      only whitespace outside it, and is empty exactly when `s` is blank. */
  lemma TrimSlice(s: string, t: string, r: string)
    requires |t| <= |s| && t == s[|s| - |t|..]
    requires forall i :: 0 <= i < |s| - |t| ==> IsSpace(s[i])
    requires t == [] || !IsSpace(t[0])
    requires |r| <= |t| && r == t[..|r|]
    requires forall i :: |r| <= i < |t| ==> IsSpace(t[i])
    ensures r == [] <==> IsBlank(s)
    ensures exists a, b :: 0 <= a <= b <= |s| && r == s[a..b]
              && (forall i :: 0 <= i < a || b <= i < |s| ==> IsSpace(s[i]))
  {
    var a := |s| - |t|;
    assert t[..|r|] == s[a..a + |r|];
    forall i | a + |r| <= i < |s|
      ensures IsSpace(s[i])
    {
      assert s[i] == t[i - a];
    }
    if r != [] {
      assert r[0] == s[a];
    }
  }

  /** `!s.trim()`: the test the validator applies to each required field. */
  function TrimsToEmpty(s: string): (b: bool)
    ensures b <==> IsBlank(s)
  {
    Trim(s) == ""
  }

  // ---------------------------------------------------------------------------
  // The email pattern /\S+@\S+\.\S+/
  // ---------------------------------------------------------------------------

  /** A match of the pattern with its '@' at `p` and its '.' at `q`: one
      non-space before the '@', one or more non-spaces between, one after
      the '.'. Longer runs on either side never matter to an unanchored test. */
  predicate EmailAt(s: string, p: int, q: int) {
    && 1 <= p && p + 2 <= q && q + 1 < |s|
    && s[p] == '@' && s[q] == '.'
    && !IsSpace(s[p - 1]) && !IsSpace(s[q + 1])
    && forall k :: p < k < q ==> !IsSpace(s[k])
  }

  /** `/\S+@\S+\.\S+/.test(s)`: some substring of `s` matches. */
  predicate EmailPattern(s: string) {
    exists p, q | 0 <= p < q < |s| :: EmailAt(s, p, q)
  }

  /** Every match lies inside one run of non-whitespace characters. */
  lemma EmailAtInRun(s: string, p: int, q: int, k: int)
    requires EmailAt(s, p, q)
    requires p - 1 <= k <= q + 1
    ensures !IsSpace(s[k])
  {
  }

  /** A one-pass decision procedure for the email pattern. It tracks the
      start of the current non-space run and the first '@' in that run that
      has a non-space character before it; a '.' followed by a non-space
      completes a match when that '@' lies at least two places before it. */
  method MatchEmail(s: string) returns (b: bool)
    ensures b <==> EmailPattern(s)
  {
    var i := 0;
    var runStart := 0;
    var firstAt := -1;
    b := false;
    while i < |s|
      invariant 0 <= runStart <= i <= |s|
      invariant forall k :: runStart <= k < i ==> !IsSpace(s[k])
      invariant runStart >= 1 ==> IsSpace(s[runStart - 1])
      invariant firstAt == -1 ==> forall k :: runStart + 1 <= k < i ==> s[k] != '@'
      invariant firstAt != -1 ==> runStart + 1 <= firstAt < i && s[firstAt] == '@'
      invariant firstAt != -1 ==> forall k :: runStart + 1 <= k < firstAt ==> s[k] != '@'
      invariant b <==> exists p, q | 0 <= p < q && q + 1 < i :: EmailAt(s, p, q)
    {
      if IsSpace(s[i]) {
        NoMatchEndsAtSpace(s, i);
        runStart := i + 1;
        firstAt := -1;
      } else {
        if i >= 1 && s[i - 1] == '.' && firstAt != -1 && firstAt + 2 <= i - 1 {
          assert EmailAt(s, firstAt, i - 1);
          b := true;
        } else {
          NoMatchEndsHere(s, i, runStart, firstAt);
        }
        if s[i] == '@' && firstAt == -1 && i >= runStart + 1 {
          firstAt := i;
        }
      }
      i := i + 1;
    }
  }

  /** No match ends at a whitespace character. */
  lemma NoMatchEndsAtSpace(s: string, i: int)
    requires 0 <= i < |s| && IsSpace(s[i])
    ensures forall p, q | 0 <= p < q && q + 1 == i :: !EmailAt(s, p, q)
  {
  }

  /** When the scan does not report a match at `i`, none ends there. */
  lemma NoMatchEndsHere(s: string, i: int, runStart: int, firstAt: int)
    requires 0 <= runStart <= i < |s|
    requires forall k :: runStart <= k <= i ==> !IsSpace(s[k])
    requires runStart >= 1 ==> IsSpace(s[runStart - 1])
    requires firstAt == -1 ==> forall k :: runStart + 1 <= k < i ==> s[k] != '@'
    requires firstAt != -1 ==> runStart + 1 <= firstAt < i && s[firstAt] == '@'
    requires firstAt != -1 ==> forall k :: runStart + 1 <= k < firstAt ==> s[k] != '@'
    requires !(i >= 1 && s[i - 1] == '.' && firstAt != -1 && firstAt + 2 <= i - 1)
    ensures forall p, q | 0 <= p < q && q + 1 == i :: !EmailAt(s, p, q)
  {
    forall p, q | 0 <= p < q && q + 1 == i && EmailAt(s, p, q)
      ensures false
    {
      if runStart >= p {
        EmailAtInRun(s, p, q, runStart - 1);
      }
    }
  }

  // ---------------------------------------------------------------------------
  // validateForm
  // ---------------------------------------------------------------------------

  /** The map `validateForm` builds from the outcome of its four tests, one
      `if` per field in the order name, email, phone. */
  function Assemble(nameBlank: bool, emailBlank: bool, emailMatches: bool, phoneBlank: bool): (errors: map<Field, string>)
    ensures Name in errors <==> nameBlank
    ensures Phone in errors <==> phoneBlank
    ensures Email in errors <==> emailBlank || !emailMatches
    ensures SpecialRequests !in errors
    ensures Name in errors ==> errors[Name] == NameRequired
    ensures Phone in errors ==> errors[Phone] == PhoneRequired
    ensures Email in errors ==> errors[Email] == (if emailBlank then EmailRequired else EmailInvalid)
  {
    var withName := if nameBlank then map[Name := NameRequired] else map[];
    var withEmail :=
      if emailBlank then withName[Email := EmailRequired]
      else if !emailMatches then withName[Email := EmailInvalid]
      else withName;
    if phoneBlank then withEmail[Phone := PhoneRequired] else withEmail
  }

  /** The error map `validateForm` builds: name and phone are required,
      email is required and must match the pattern; special requests are
      never checked. The emptiness test is `trim()` returning "". */
  function Validate(form: ContactForm): (errors: map<Field, string>)
    ensures Name in errors <==> IsBlank(form.name)
    ensures Phone in errors <==> IsBlank(form.phone)
    ensures Email in errors <==> IsBlank(form.email) || !EmailPattern(form.email)
    ensures SpecialRequests !in errors
    ensures Name in errors ==> errors[Name] == NameRequired
    ensures Phone in errors ==> errors[Phone] == PhoneRequired
    ensures Email in errors ==> errors[Email] == (if IsBlank(form.email) then EmailRequired else EmailInvalid)
  {
    Assemble(TrimsToEmpty(form.name), TrimsToEmpty(form.email), EmailPattern(form.email), TrimsToEmpty(form.phone))
  }

  /** `validateForm`'s return value: `Object.keys(newErrors).length === 0`. */
  function FormIsValid(form: ContactForm): (ok: bool)
    ensures ok <==> !IsBlank(form.name) && !IsBlank(form.phone) && !IsBlank(form.email) && EmailPattern(form.email)
  {
    var errors := Validate(form);
    assert Name !in errors && Email !in errors && Phone !in errors ==> errors.Keys == {};
    |errors.Keys| == 0
  }

  /** Every message the validator produces is non-empty, so `errors[name]`
      is truthy for every key it sets. */
  lemma ValidateMessagesNonEmpty(form: ContactForm)
    ensures forall f | f in Validate(form) :: Validate(form)[f] != ""
  {
    var errors := Validate(form);
    forall f | f in errors
      ensures errors[f] != ""
    {
      match f
      case Name => assert errors[f] == NameRequired;
      case Email => assert errors[f] == EmailRequired || errors[f] == EmailInvalid;
      case Phone => assert errors[f] == PhoneRequired;
    }
  }

  /** The validator reports success exactly when its error map is empty. */
  lemma ValidIffNoErrors(form: ContactForm)
    ensures FormIsValid(form) <==> Validate(form) == map[]
  {
    var errors := Validate(form);
    if Name !in errors && Email !in errors && Phone !in errors {
      assert errors.Keys == {};
    } else {
      assert errors.Keys != {};
    }
  }

  /** The example of an empty name, an empty phone and "bad-email": exactly
      name and phone required, email invalid. */
  lemma BadFormExample()
    ensures Validate(ContactForm("", "bad-email", "", ""))
            == map[Name := NameRequired, Email := EmailInvalid, Phone := PhoneRequired]
  {
    var form := ContactForm("", "bad-email", "", "");
    assert !IsBlank(form.email) by { assert !IsSpace(form.email[0]); }
    assert !EmailPattern(form.email) by {
      forall p, q | 0 <= p < q < |form.email| ensures !EmailAt(form.email, p, q) {
        assert form.email[p] in form.email;
        assert '@' !in form.email;
      }
    }
    var errors := Validate(form);
    var expected := map[Name := NameRequired, Email := EmailInvalid, Phone := PhoneRequired];
    assert errors.Keys == expected.Keys;
    assert forall f | f in errors :: errors[f] == expected[f];
  }

  /** The example of a well-formed contact passes validation. */
  lemma GoodFormExample()
    ensures FormIsValid(ContactForm("Jane Doe", "jane@example.com", "555-0100", ""))
  {
    var form := ContactForm("Jane Doe", "jane@example.com", "555-0100", "");
    assert !IsBlank(form.name) by { assert !IsSpace(form.name[0]); }
    assert !IsBlank(form.phone) by { assert !IsSpace(form.phone[0]); }
    assert !IsBlank(form.email) by { assert !IsSpace(form.email[0]); }
    assert EmailPattern(form.email) by {
      forall k | 3 <= k <= 13 ensures !IsSpace(form.email[k]) {
        PrintableNotSpace(form.email[k]);
      }
      assert EmailAt(form.email, 4, 12);
    }
  }
}
