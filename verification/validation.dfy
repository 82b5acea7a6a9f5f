/**
  The quote form's client-side rules: the Indian mobile-number pattern
  `/^[6-9]\d{9}$/`, the e-mail pattern `/^[^\s@]+@[^\s@]+\.[^\s@]+$/`, the
  submit-time classification, and the per-keystroke verdict on tel and
  email fields.
 */
module Validation {
  import opened Text
  import opened Options

  // ---------------------------------------------------------------------
  // Phone rule
  // ---------------------------------------------------------------------

  /** `/^[6-9]\d{9}$/.test(s)`. Without the `m` flag `$` matches only at the
      very end, so the whole string is exactly ten characters. */
  predicate IsValidPhone(s: string) {
    && |s| == 10
    && '6' <= s[0] <= '9'
    && AllDigits(s)
  }

  /** The regex engine's left-to-right scan: the leading class, then nine `\d`,
      then the end anchor. Agrees with `IsValidPhone` on every input. */
  method MatchPhone(s: string) returns (ok: bool)
    ensures ok <==> IsValidPhone(s)
  {
    if |s| == 0 || !('6' <= s[0] <= '9') {
      return false;
    }
    var i := 1;
    while i < |s| && i < 10 && IsAsciiDigit(s[i])
      invariant 1 <= i <= |s| && i <= 10
      invariant forall k :: 0 <= k < i ==> IsAsciiDigit(s[k])
    {
      i := i + 1;
    }
    ok := i == 10 && i == |s|;
  }

  lemma PhoneExamples()
    ensures IsValidPhone("9876543210")
    ensures !IsValidPhone("1234567890")
    ensures !IsValidPhone("98765432100")
    ensures !IsValidPhone("")
  {
  }

  /** A valid phone number is its own digit projection. */
  lemma {:induction false} ValidPhoneIsDigits(s: string)
    requires IsValidPhone(s)
    ensures Digits(s) == s
  {
    DigitsOfAllDigits(s);
  }

  // ---------------------------------------------------------------------
  // E-mail rule
  // ---------------------------------------------------------------------

  /** `[^\s@]+` over a whole string. */
  predicate IsAtom(s: string) {
    |s| > 0 && forall i :: 0 <= i < |s| ==> !IsWs(s[i]) && s[i] != '@'
  }

  /** The regex read literally: some `i` and `j` split `s` into
      atom `@` atom `.` atom. */
  ghost predicate MatchesEmailPattern(s: string) {
    exists i, j ::
      && 0 < i < j < |s| - 1
      && s[i] == '@' && s[j] == '.'
      && IsAtom(s[..i]) && IsAtom(s[i + 1..j]) && IsAtom(s[j + 1..])
  }

  /** The position of the first `c` in `s`, if any. */
  function IndexOf(s: string, c: char): (r: Option<nat>)
    ensures r.None? ==> c !in s
    ensures r.Some? ==> r.value < |s| && s[r.value] == c && c !in s[..r.value]
  {
    if s == [] then None
    else if s[0] == c then Some(0)
    else match IndexOf(s[1..], c)
      case None => None
      case Some(k) => assert s[..k + 1] == [s[0]] + s[1..][..k]; Some(k + 1)
  }

  /** The rule in structural terms: no whitespace, exactly one `@` with a
      non-empty part before it, and after it a `.` that is neither the first
      nor the last character of the domain. */
  predicate IsValidEmail(s: string) {
    && NoWs(s)
    && match IndexOf(s, '@')
       case None => false
       case Some(k) =>
         var domain := s[k + 1..];
         && k > 0
         && '@' !in domain
         && |domain| >= 3
         && '.' in domain[1..|domain| - 1]
  }

  /** The structural rule and the regex accept exactly the same strings. */
  lemma {:induction false} EmailRuleMatchesPattern(s: string)
    ensures IsValidEmail(s) <==> MatchesEmailPattern(s)
  {
    if IsValidEmail(s) {
      EmailRuleImpliesPattern(s);
    }
    if MatchesEmailPattern(s) {
      var i, j :| && 0 < i < j < |s| - 1
                  && s[i] == '@' && s[j] == '.'
                  && IsAtom(s[..i]) && IsAtom(s[i + 1..j]) && IsAtom(s[j + 1..]);
      PatternImpliesEmailRule(s, i, j);
    }
  }

  lemma {:induction false} EmailRuleImpliesPattern(s: string)
    requires IsValidEmail(s)
    ensures MatchesEmailPattern(s)
  {
    var k := IndexOf(s, '@').value;
    var domain := s[k + 1..];
    var mid := domain[1..|domain| - 1];
    var p :| 0 <= p < |mid| && mid[p] == '.';
    var j := k + 2 + p;
    assert s[j] == '.';
    assert forall t :: k < t < |s| ==> s[t] == domain[t - k - 1];
    assert forall t :: k < t < |s| ==> s[t] != '@' by {
      forall t | k < t < |s| ensures s[t] != '@' {
        assert domain[t - k - 1] in domain;
      }
    }
    assert forall t :: 0 <= t < k ==> s[t] != '@' by {
      forall t | 0 <= t < k ensures s[t] != '@' {
        assert s[..k][t] == s[t];
        assert s[t] in s[..k];
      }
    }
    assert IsAtom(s[..k]);
    assert IsAtom(s[k + 1..j]);
    assert IsAtom(s[j + 1..]);
  }

  lemma {:induction false} PatternImpliesEmailRule(s: string, i: nat, j: nat)
    requires 0 < i < j < |s| - 1
    requires s[i] == '@' && s[j] == '.'
    requires IsAtom(s[..i]) && IsAtom(s[i + 1..j]) && IsAtom(s[j + 1..])
    ensures IsValidEmail(s)
  {
    assert forall t :: 0 <= t < i ==> s[t] == s[..i][t];
    assert forall t :: i < t < j ==> s[t] == s[i + 1..j][t - i - 1];
    assert forall t :: j < t < |s| ==> s[t] == s[j + 1..][t - j - 1];
    assert NoWs(s);
    assert '@' !in s[..i];
    var r := IndexOf(s, '@');
    assert r == Some(i);
    var domain := s[i + 1..];
    assert '@' !in domain by {
      forall t | 0 <= t < |domain| ensures domain[t] != '@' {
        assert domain[t] == s[i + 1 + t];
      }
    }
    assert domain[1..|domain| - 1][j - i - 2] == '.';
  }

  lemma EmailAcceptsExample()
    ensures IsValidEmail("a@b.co")
  {
    assert IndexOf("a@b.co", '@') == Some(1);
    assert "a@b.co"[2..][1..3][0] == '.';
  }

  lemma EmailRejectsExamples()
    ensures !IsValidEmail("a@b")
    ensures !IsValidEmail("@b.co")
    ensures !IsValidEmail("a@.co")
    ensures !IsValidEmail("a@b.")
  {
    assert IndexOf("a@b", '@') == Some(1);
    assert IndexOf("@b.co", '@') == Some(0);
    assert IndexOf("a@.co", '@') == Some(1);
    assert IndexOf("a@b.", '@') == Some(1);
  }

  /** A string that starts with `@` has an empty local part and fails. */
  lemma EmailRejectsLeadingAt(s: string)
    requires |s| > 0 && s[0] == '@'
    ensures !IsValidEmail(s)
  {
  }

  /** A string with no `.` after its first `@` fails. */
  lemma EmailRejectsNoDotInDomain(s: string, k: nat)
    requires k < |s| && s[k] == '@' && '@' !in s[..k]
    requires '.' !in s[k + 1..]
    ensures !IsValidEmail(s)
  {
  }

  /** Whitespace anywhere in the string makes the rule fail. */
  lemma EmailRejectsWhitespace(s: string, i: nat)
    requires i < |s| && IsWs(s[i])
    ensures !IsValidEmail(s)
  {
  }

  /** A second `@` anywhere makes the rule fail. */
  lemma EmailRejectsSecondAt(s: string, i: nat, j: nat)
    requires i < j < |s| && s[i] == '@' && s[j] == '@'
    ensures !IsValidEmail(s)
  {
  }

  // ---------------------------------------------------------------------
  // Submit classification
  // ---------------------------------------------------------------------

  datatype SubmitOutcome = Missing | InvalidPhone | Accepted

  /** The submit handler's decision. JavaScript truthiness makes only the empty
      string absent: a whitespace-only field is present. The required-field test
      comes first, so the phone rule is consulted only when all three are present. */
  function ClassifySubmit(name: string, phone: string, category: string): (r: SubmitOutcome)
    ensures r == Missing <==> name == [] || phone == [] || category == []
    ensures r == InvalidPhone <==> name != [] && category != [] && phone != [] && !IsValidPhone(phone)
    ensures r == Accepted <==> name != [] && category != [] && IsValidPhone(phone)
  {
    if name == [] || phone == [] || category == [] then Missing
    else if !IsValidPhone(phone) then InvalidPhone
    else Accepted
  }

  /** An empty phone is reported as a missing field, never as an invalid number. */
  lemma EmptyPhoneIsMissing(name: string, category: string)
    ensures ClassifySubmit(name, [], category) == Missing
  {
  }

  /** A name made only of whitespace passes the required-field test: it is
      truthy, and nothing trims it. */
  lemma BlankNameIsPresent(name: string, phone: string, category: string)
    requires name != [] && forall i :: 0 <= i < |name| ==> IsWs(name[i])
    requires IsValidPhone(phone) && category != []
    ensures ClassifySubmit(name, phone, category) == Accepted
  {
  }

  /** The notification a submission leads to: the message and the `type` that
      `showNotification` receives. The accepted case is shown after the simulated
      submission delay. */
  function SubmitNotice(r: SubmitOutcome): (notice: (string, string))
    ensures notice.1 == (if r == Accepted then "success" else "error")
  {
    match r
    case Missing => ("Please fill in all required fields.", "error")
    case InvalidPhone => ("Please enter a valid 10-digit phone number.", "error")
    case Accepted => ("Quote request submitted successfully! We will contact you soon.", "success")
  }

  /** The three outcomes produce three different messages. */
  lemma SubmitNoticesDistinct(a: SubmitOutcome, b: SubmitOutcome)
    ensures SubmitNotice(a) == SubmitNotice(b) <==> a == b
  {
  }

  // ---------------------------------------------------------------------
  // Per-keystroke verdict on tel and email inputs
  // ---------------------------------------------------------------------

  datatype FieldVerdict = Untouched | Invalid | Valid

  datatype FieldType = Tel | Email | OtherType

  /** The input handler's tel and email branches: an empty value leaves the
      field's marking as it was; otherwise the field is marked by its rule.
      (The required-field colouring that runs first is presentation only.) */
  function FieldCheck(kind: FieldType, value: string): (v: FieldVerdict)
    ensures v == Untouched <==> value == [] || kind == OtherType
    ensures kind == Tel && value != [] ==> (v == Valid <==> IsValidPhone(value))
    ensures kind == Email && value != [] ==> (v == Valid <==> MatchesEmailPattern(value))
  {
    EmailRuleMatchesPattern(value);
    if value == [] then Untouched
    else match kind
      case Tel => if IsValidPhone(value) then Valid else Invalid
      case Email => if IsValidEmail(value) then Valid else Invalid
      case OtherType => Untouched
  }
}
