/**
 * Field and form validation. Each field runs a fixed list of checks on its
 * trimmed value; the two scripts differ in which checks they run and in
 * which message wins when several fail. landing-new.js returns at the first
 * failing check; landing-script.js runs every check and lets each later
 * failure overwrite the message. On submission every field is validated
 * (no short-circuit) and the form proceeds only if all are valid — and, in
 * landing-script.js, the terms box is checked.
 */
module Validation {
  import opened Text
  import opened Patterns

  /** The `type` attribute as the validators distinguish it. */
  datatype InputType = EmailInput | TelInput | OtherInput

  /** An input, select or textarea of the application form. */
  datatype Field = Field(name: string, inputType: InputType, required: bool, value: string)

  datatype Verdict = Valid | Invalid(message: string)

  const RequiredMessage: string := "This field is required"
  const EmailMessage: string := "Please enter a valid email address"
  const PhoneMessage: string := "Please enter a valid phone number"
  const ZipMessage: string := "Please enter a valid ZIP code (12345 or 12345-6789)"
  const TermsMessage: string := "You must agree to the terms and conditions"
  const CorrectErrorsBanner: string := "Please correct the errors above and try again."

  // ---------------------------------------------------------------------------
  // precedence of failing checks
  // ---------------------------------------------------------------------------

  /** One validation rule applied to a field: whether it fails, and the
      message it shows when it does. */
  datatype Check = Check(fails: bool, message: string)

  predicate NoneFail(checks: seq<Check>) {
    forall i :: 0 <= i < |checks| ==> !checks[i].fails
  }

  /** Early return, as in landing-new.js: the first failing check decides. */
  function FirstFailure(checks: seq<Check>): (v: Verdict)
    ensures v.Valid? <==> NoneFail(checks)
    ensures v.Invalid? ==>
      exists i :: 0 <= i < |checks| && checks[i].fails && v.message == checks[i].message
                  && forall j :: 0 <= j < i ==> !checks[j].fails
  {
    if checks == [] then Valid
    else if checks[0].fails then Invalid(checks[0].message)
    else
      var v := FirstFailure(checks[1..]);
      assert forall j :: 1 <= j < |checks| ==> checks[j] == checks[1..][j - 1];
      v
  }

  /** The `isValid` flag and `errorMessage` variable of landing-script.js. */
  datatype Tally = Tally(isValid: bool, errorMessage: string)

  /** One check as landing-script.js runs it: a failure clears the flag and
      overwrites the message; a pass changes nothing. */
  function Record(t: Tally, c: Check): Tally {
    if c.fails then Tally(false, c.message) else t
  }

  /** All checks run in order from a valid tally with an empty message. The
      flag ends false exactly when some check failed, and the message is then
      that of the last failing check. */
  function RunChecks(checks: seq<Check>): (t: Tally)
    ensures t.isValid <==> NoneFail(checks)
    ensures t.isValid ==> t.errorMessage == ""
    ensures !t.isValid ==>
      exists i :: 0 <= i < |checks| && checks[i].fails && t.errorMessage == checks[i].message
                  && forall j :: i < j < |checks| ==> !checks[j].fails
  {
    if checks == [] then Tally(true, "")
    else
      var init := checks[..|checks| - 1];
      var t := RunChecks(init);
      assert forall j :: 0 <= j < |init| ==> init[j] == checks[j];
      Record(t, checks[|checks| - 1])
  }

  /** Overwriting, as in landing-script.js: the last failing check decides. */
  function LastFailure(checks: seq<Check>): (v: Verdict)
    ensures v.Valid? <==> NoneFail(checks)
    ensures v.Invalid? ==>
      exists i :: 0 <= i < |checks| && checks[i].fails && v.message == checks[i].message
                  && forall j :: i < j < |checks| ==> !checks[j].fails
  {
    var t := RunChecks(checks);
    if t.isValid then Valid else Invalid(t.errorMessage)
  }

  /** When at most one check fails, the two precedence rules agree. */
  lemma PrecedenceIrrelevantForOneFailure(checks: seq<Check>)
    requires forall i, j :: 0 <= i < j < |checks| ==> !(checks[i].fails && checks[j].fails)
    ensures FirstFailure(checks) == LastFailure(checks)
  {
    var v, w := FirstFailure(checks), LastFailure(checks);
    if v.Invalid? {
      var i :| 0 <= i < |checks| && checks[i].fails && v.message == checks[i].message;
      var k :| 0 <= k < |checks| && checks[k].fails && w.message == checks[k].message;
      assert i == k;
    }
  }

  // ---------------------------------------------------------------------------
  // the individual checks (both scripts test the trimmed value)
  // ---------------------------------------------------------------------------

  /** `field.hasAttribute('required') && !value`. */
  predicate MissingRequired(f: Field) {
    f.required && Trim(f.value) == []
  }

  /** A non-empty email value the email pattern rejects. */
  predicate BadEmail(f: Field) {
    var v := Trim(f.value);
    f.inputType == EmailInput && v != [] && !IsEmail(v)
  }

  /** A non-empty tel value whose cleaned form the phone pattern rejects. */
  predicate BadPhoneNew(f: Field) {
    var v := Trim(f.value);
    f.inputType == TelInput && v != [] && !PhoneAcceptedNew(v)
  }

  /** As BadPhoneNew, but a cleaned form shorter than ten characters also fails. */
  predicate BadPhoneScript(f: Field) {
    var v := Trim(f.value);
    f.inputType == TelInput && v != [] && !PhoneAcceptedScript(v)
  }

  /** A non-empty value of the field named "zip" the ZIP pattern rejects. */
  predicate BadZip(f: Field) {
    var v := Trim(f.value);
    f.name == "zip" && v != [] && !IsZip(v)
  }

  function ChecksNew(f: Field): seq<Check> {
    [Check(MissingRequired(f), RequiredMessage),
     Check(BadEmail(f), EmailMessage),
     Check(BadPhoneNew(f), PhoneMessage)]
  }

  function ChecksScript(f: Field): seq<Check> {
    [Check(MissingRequired(f), RequiredMessage),
     Check(BadEmail(f), EmailMessage),
     Check(BadPhoneScript(f), PhoneMessage),
     Check(BadZip(f), ZipMessage)]
  }

  // ---------------------------------------------------------------------------
  // validateField
  // ---------------------------------------------------------------------------

  /** `validateField` of landing-new.js: invalid exactly when a required value
      is blank, an email value fails the email pattern, or a tel value fails
      the phone pattern after cleaning; the first of these decides the message. */
  function ValidateFieldNew(f: Field): (v: Verdict)
    ensures v.Valid? <==> !MissingRequired(f) && !BadEmail(f) && !BadPhoneNew(f)
    ensures v.Invalid? ==>
      v.message == if MissingRequired(f) then RequiredMessage
                   else if BadEmail(f) then EmailMessage
                   else PhoneMessage
  {
    var checks := ChecksNew(f);
    var v := FirstFailure(checks);
    assert NoneFail(checks) <==> !checks[0].fails && !checks[1].fails && !checks[2].fails;
    v
  }

  /** `validateField` of landing-script.js: invalid exactly when one of the
      four checks fails (the ZIP check applies to the field named "zip"); when
      several fail, the last one's message is shown. */
  function ValidateFieldScript(f: Field): (v: Verdict)
    ensures v.Valid? <==> !MissingRequired(f) && !BadEmail(f) && !BadPhoneScript(f) && !BadZip(f)
    ensures v.Invalid? ==>
      v.message == if BadZip(f) then ZipMessage
                   else if BadPhoneScript(f) then PhoneMessage
                   else if BadEmail(f) then EmailMessage
                   else RequiredMessage
  {
    var checks := ChecksScript(f);
    LastFailureOfFour(checks);
    LastFailure(checks)
  }

  /** With four checks, the overwriting rule reports the last failing one. */
  lemma LastFailureOfFour(c: seq<Check>)
    requires |c| == 4
    ensures LastFailure(c) ==
      if c[3].fails then Invalid(c[3].message)
      else if c[2].fails then Invalid(c[2].message)
      else if c[1].fails then Invalid(c[1].message)
      else if c[0].fails then Invalid(c[0].message)
      else Valid
  {
    assert c[..3][..2] == c[..2];
    assert c[..2][..1] == c[..1];
    assert c[..1][..0] == [];
    var t1 := RunChecks(c[..1]);
    assert t1 == Record(Tally(true, ""), c[0]);
    var t2 := RunChecks(c[..2]);
    assert t2 == Record(t1, c[1]);
    var t3 := RunChecks(c[..3]);
    assert t3 == Record(t2, c[2]);
    assert c[..4] == c;
    assert RunChecks(c) == Record(t3, c[3]);
  }

  /** In landing-new.js at most one check can fail — a blank value passes the
      pattern checks, and a field is not both email and tel — so its early
      return and an overwrite rule would show the same message. */
  lemma NewChecksExclusive(f: Field)
    ensures !(MissingRequired(f) && BadEmail(f))
    ensures !(MissingRequired(f) && BadPhoneNew(f))
    ensures !(BadEmail(f) && BadPhoneNew(f))
    ensures FirstFailure(ChecksNew(f)) == LastFailure(ChecksNew(f))
  {
    var checks := ChecksNew(f);
    assert !(checks[0].fails && checks[1].fails) && !(checks[0].fails && checks[2].fails)
           && !(checks[1].fails && checks[2].fails);
    AtMostOneOfThree(checks);
  }

  lemma AtMostOneOfThree(c: seq<Check>)
    requires |c| == 3
    requires !(c[0].fails && c[1].fails) && !(c[0].fails && c[2].fails) && !(c[1].fails && c[2].fails)
    ensures FirstFailure(c) == LastFailure(c)
  {
    PrecedenceIrrelevantForOneFailure(c);
  }

  /** In landing-script.js the ZIP check goes by name, so a tel field named
      "zip" can fail both the phone and the ZIP check; the later ZIP message
      wins where an early return would have shown the phone message. */
  lemma ScriptLastMessageWins(f: Field)
    requires BadPhoneScript(f) && BadZip(f)
    ensures ValidateFieldScript(f) == Invalid(ZipMessage)
    ensures FirstFailure(ChecksScript(f)) == Invalid(PhoneMessage)
  {
    var checks := ChecksScript(f);
    assert !checks[0].fails && !checks[1].fails && checks[2].fails;
    assert FirstFailure(checks) == FirstFailure(checks[1..]);
    assert FirstFailure(checks[1..]) == FirstFailure(checks[2..]);
  }

  /** Any tel field named "zip" whose trimmed value is non-empty and shorter
      than five characters fails both the phone and the ZIP check. */
  lemma ShortTelZip(f: Field)
    requires f.inputType == TelInput && f.name == "zip"
    requires Trim(f.value) != [] && |Trim(f.value)| < 5
    ensures BadPhoneScript(f) && BadZip(f)
  {
    var v := Trim(f.value);
    assert |CleanPhone(v)| < 10;
  }

  /** Such a field exists: a required tel field named "zip" holding "abc". */
  lemma TelFieldNamedZip(f: Field)
    requires f == Field("zip", TelInput, true, "abc")
    ensures BadPhoneScript(f) && BadZip(f)
  {
    assert |Trim(f.value)| == 3 by { TrimAbc(); }
    ShortTelZip(f);
  }

  lemma TrimAbc()
    ensures Trim("abc") == "abc"
  {
    assert TrimStart("abc") == "abc" by { assert !IsSpace('a'); }
    assert TrimEnd("abc") == "abc" by { assert !IsSpace('c'); }
  }

  /** An optional field left blank (empty or only whitespace) is valid under
      both scripts. */
  lemma BlankOptionalFieldValid(f: Field)
    requires !f.required && AllSpaces(f.value)
    ensures ValidateFieldNew(f) == Valid && ValidateFieldScript(f) == Valid
  {
    TrimEmptyIff(f.value);
  }

  /** A required field is reported missing exactly when its value is all
      whitespace, and that report wins in landing-new.js. */
  lemma RequiredBlankReported(f: Field)
    requires f.required
    ensures ValidateFieldNew(f) == Invalid(RequiredMessage) <==> AllSpaces(f.value)
    ensures ValidateFieldScript(f).Invalid? || !AllSpaces(f.value)
  {
    TrimEmptyIff(f.value);
  }

  // ---------------------------------------------------------------------------
  // handleFormSubmission
  // ---------------------------------------------------------------------------

  predicate AllValidNew(fields: seq<Field>) {
    forall i :: 0 <= i < |fields| ==> ValidateFieldNew(fields[i]).Valid?
  }

  predicate AllValidScript(fields: seq<Field>) {
    forall i :: 0 <= i < |fields| ==> ValidateFieldScript(fields[i]).Valid?
  }

  /** What the submit handler does after validation. */
  datatype Submission = Submit | Blocked(banner: string)

  /** The `inputs.forEach` loop of both submit handlers: `validate` runs on
      every field, with no early exit, and the flag ends true exactly when
      every verdict is Valid. */
  method ValidateEach(fields: seq<Field>, validate: Field -> Verdict)
    returns (verdicts: seq<Verdict>, allValid: bool)
    ensures |verdicts| == |fields|
    ensures forall i :: 0 <= i < |fields| ==> verdicts[i] == validate(fields[i])
    ensures allValid <==> forall i :: 0 <= i < |fields| ==> verdicts[i].Valid?
  {
    allValid := true;
    verdicts := [];
    for i := 0 to |fields|
      invariant |verdicts| == i
      invariant forall k :: 0 <= k < i ==> verdicts[k] == validate(fields[k])
      invariant allValid <==> forall k :: 0 <= k < i ==> verdicts[k].Valid?
    {
      var v := validate(fields[i]);
      verdicts := verdicts + [v];
      if v.Invalid? {
        allValid := false;
      }
    }
  }

  /** `handleFormSubmission` of landing-new.js up to the network call: every
      field is validated (so every invalid field shows its error), and the
      form is sent only if all are valid; otherwise the correction banner is
      shown. */
  method HandleSubmissionNew(fields: seq<Field>) returns (verdicts: seq<Verdict>, outcome: Submission)
    ensures |verdicts| == |fields|
    ensures forall i :: 0 <= i < |fields| ==> verdicts[i] == ValidateFieldNew(fields[i])
    ensures outcome == Submit <==> AllValidNew(fields)
    ensures outcome != Submit ==> outcome == Blocked(CorrectErrorsBanner)
  {
    var isValid;
    verdicts, isValid := ValidateEach(fields, ValidateFieldNew);
    outcome := if isValid then Submit else Blocked(CorrectErrorsBanner);
  }

  /** The validation and terms gate of `handleFormSubmission` in
      landing-script.js: every field is validated, the terms box adds its own
      error when unchecked, and the form is sent only if every field is valid
      and the box is checked. */
  method HandleSubmissionScript(fields: seq<Field>, termsChecked: bool)
    returns (verdicts: seq<Verdict>, termsError: bool, submitted: bool)
    ensures |verdicts| == |fields|
    ensures forall i :: 0 <= i < |fields| ==> verdicts[i] == ValidateFieldScript(fields[i])
    ensures termsError <==> !termsChecked
    ensures submitted <==> AllValidScript(fields) && termsChecked
  {
    var isFormValid;
    verdicts, isFormValid := ValidateEach(fields, ValidateFieldScript);
    termsError := false;
    if !termsChecked {
      isFormValid := false;
      termsError := true;
    }
    submitted := isFormValid;
  }
}
