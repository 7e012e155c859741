/**
 The registration form's validation core: the rule object each field is
 registered with, the fixed message each field shows when it has an error,
 and the submit gate that hands the values to the submit handler only when no
 field has an error. Each field's rule is also characterised in plain terms,
 and the submit gate is proved to open exactly on forms meeting every one.
 */
module Registration {
  import opened Chars
  import opened Patterns
  import opened FormData
  import opened HookForm

  // ---------------------------------------------------------------------------
  // The rule objects passed to `register`
  // ---------------------------------------------------------------------------

  /** First name and surname: required, at least 2 long, ASCII letters only. */
  const NameRules := Rules(true, None, None, Some(2), Some(AsciiLetters), None)

  /** Email: required, matching the address pattern. */
  const EmailRules := Rules(true, None, None, None, Some(EmailAddress), None)

  /** Password: required, at least 8 long, matching the two-lookahead pattern. */
  const PasswordRules := Rules(true, None, None, Some(8), Some(PasswordStrength), None)

  /** Confirmation: only a `validate` comparing it with the live password. */
  const ConfirmationRules := Rules(false, None, None, None, None, Some(EqualsWatched(Password)))

  /** Age: required, between 18 and 99. */
  const AgeRules := Rules(true, Some(18), Some(99), None, None, None)

  /** Birth date, country and terms: required and nothing else. */
  const RequiredOnly := Rules(true, None, None, None, None, None)

  /** The rule object each field is registered with. Every field but the
      confirmation and the gender select is required; the names, the email
      and the password carry a pattern; only the confirmation has a
      `validate`, and only the age a numeric range. */
  function RulesOf(f: Field): (r: Rules)
    ensures r.required <==> f != Confirmation && f != Gender
    ensures r.pattern.Some? <==> f == FirstName || f == LastName || f == Email || f == Password
    ensures r.minLength.Some? <==> f == FirstName || f == LastName || f == Password
    ensures r.validate.Some? <==> f == Confirmation
    ensures r.min.Some? || r.max.Some? <==> f == Age
    ensures f == Gender <==> r == NoRules
  {
    match f
    case FirstName => NameRules
    case LastName => NameRules
    case Email => EmailRules
    case Password => PasswordRules
    case Confirmation => ConfirmationRules
    case Age => AgeRules
    case BirthDate => RequiredOnly
    case Country => RequiredOnly
    case Gender => NoRules
    case Terms => RequiredOnly
  }

  /** The error react-hook-form records for field `f` of the snapshot. */
  function FieldError(form: FormValues, f: Field): Option<ErrorKind> {
    ValidateField(RulesOf(f), ValueOf(form, f), form)
  }

  /** The message rendered under a field whose error is set; the gender select
      has none. */
  function Message(f: Field): Option<string> {
    match f
    case FirstName => Some("Imię musi mieć przynajmniej 2 znaki i nie zawierać cyfr ani znaków specjalnych.")
    case LastName => Some("Nazwisko musi mieć przynajmniej 2 znaki i nie zawierać cyfr ani znaków specjalnych.")
    case Email => Some("Podaj poprawny adres email.")
    case Password => Some("Hasło musi mieć przynajmniej 8 znaków, zawierać co najmniej 2 cyfry i 3 znaki specjalne.")
    case Confirmation => Some("Hasła muszą być identyczne.")
    case Age => Some("Wiek musi być między 18 a 99.")
    case BirthDate => Some("Data urodzenia musi zgadzać się z podanym wiekiem.")
    case Country => Some("Wybierz kraj.")
    case Gender => None
    case Terms => Some("Musisz zaakceptować regulamin.")
  }

  /** Every field but the gender select renders a message when it has an
      error; the gender select renders none. */
  lemma MessagePresence(f: Field)
    ensures Message(f).None? <==> f == Gender
  {
    match f
    case Gender =>
    case _ => assert Message(f).Some?;
  }

  /** The length of each message. */
  lemma MessageLength(f: Field)
    requires Message(f).Some?
    ensures |Message(f).value| == match f
      case FirstName => 79 case LastName => 83 case Email => 27 case Password => 88
      case Confirmation => 27 case Age => 29 case BirthDate => 50 case Country => 13
      case Gender => 0 case Terms => 30
  {
  }

  /** No two fields share a message, so a message names its field. */
  lemma MessagesDistinct(f: Field, g: Field)
    requires Message(f).Some? && Message(f) == Message(g)
    ensures f == g
  {
    MessageLength(f);
    MessageLength(g);
    if f == Email || f == Confirmation {
      assert Message(Email).value[0] != Message(Confirmation).value[0];
    }
  }

  // ---------------------------------------------------------------------------
  // The errors object and the submit gate
  // ---------------------------------------------------------------------------

  /** The `errors` object: the error of every field that has one. */
  function Errors(form: FormValues): (errs: map<Field, ErrorKind>)
    ensures forall f: Field :: f in errs <==> FieldError(form, f).Some?
    ensures forall f | f in errs :: FieldError(form, f) == Some(errs[f])
  {
    FieldsEnumerateAll();
    map f | f in Fields && FieldError(form, f).Some? :: FieldError(form, f).value
  }

  /** The result of `handleSubmit(wyslijDane)`: either the submit handler is
      called with the values, or the errors are recorded and it is not. */
  datatype SubmitOutcome = Submitted(values: FormValues) | Blocked(errors: map<Field, ErrorKind>)

  function HandleSubmit(form: FormValues): (o: SubmitOutcome)
    ensures o.Submitted? ==> o.values == form && forall f: Field :: FieldError(form, f).None?
    ensures o.Blocked? ==> o.errors == Errors(form) && exists f: Field :: FieldError(form, f).Some?
  {
    var errs := Errors(form);
    if errs == map[] then
      Submitted(form)
    else
      Blocked(errs)
  }

  /** The messages rendered under the fields of `fs`, in that order, when field
      `f` renders `msg(f)`: a field's message appears when `errors` holds an
      entry for it. */
  function MessagesOf(errs: map<Field, ErrorKind>, fs: seq<Field>, msg: Field -> Option<string>): seq<string> {
    if fs == [] then []
    else
      (if fs[0] in errs && msg(fs[0]).Some? then [msg(fs[0]).value] else [])
      + MessagesOf(errs, fs[1..], msg)
  }

  /** The messages on screen, top to bottom, once a submit attempt has
      validated this snapshot (before the first attempt `errors` is empty and
      nothing is shown). */
  function ShownMessages(form: FormValues): seq<string> {
    MessagesOf(Errors(form), Fields, Message)
  }

  /** With distinct fields and messages that name their field, a field's
      message appears once if the field is listed and has an error, and not at
      all otherwise. */
  lemma {:induction false} MessageCount(
    errs: map<Field, ErrorKind>, fs: seq<Field>, msg: Field -> Option<string>, f: Field)
    requires forall i, j | 0 <= i < j < |fs| :: fs[i] != fs[j]
    requires forall g, h | msg(g).Some? && msg(g) == msg(h) :: g == h
    requires msg(f).Some?
    ensures multiset(MessagesOf(errs, fs, msg))[msg(f).value] ==
              if f in fs && f in errs then 1 else 0
  {
    if fs != [] {
      var g := fs[0];
      MessageCount(errs, fs[1..], msg, f);
      if g == f {
        assert f !in fs[1..] by {
          forall i | 0 <= i < |fs[1..]| ensures fs[1..][i] != f {
            assert fs[1..][i] == fs[i + 1];
          }
        }
      } else {
        assert f in fs <==> f in fs[1..] by {
          assert fs == [g] + fs[1..];
        }
      }
    }
  }

  /** Every message shown belongs to a field of `fs` that has an error. */
  lemma {:induction false} MessagesComeFromErrors(
    errs: map<Field, ErrorKind>, fs: seq<Field>, msg: Field -> Option<string>)
    ensures forall m | m in MessagesOf(errs, fs, msg) ::
              exists f | f in fs :: f in errs && msg(f) == Some(m)
  {
    if fs != [] {
      MessagesComeFromErrors(errs, fs[1..], msg);
      forall m | m in MessagesOf(errs, fs, msg)
        ensures exists f | f in fs :: f in errs && msg(f) == Some(m)
      {
        if m in MessagesOf(errs, fs[1..], msg) {
          var f :| f in fs[1..] && f in errs && msg(f) == Some(m);
          assert f in fs;
        } else {
          assert fs[0] in errs && msg(fs[0]) == Some(m);
        }
      }
    }
  }

  // ---------------------------------------------------------------------------
  // Each field's rule in plain terms
  // ---------------------------------------------------------------------------

  /** At least two characters, all ASCII letters. */
  predicate NameAcceptable(s: string) {
    |s| >= 2 && forall i | 0 <= i < |s| :: IsAsciiLetter(s[i])
  }

  /** At least 8 UTF-16 code units on one line, with two adjacent digits and
      three adjacent special characters somewhere, in either order. */
  predicate PasswordAcceptable(s: string) {
    Utf16Length(s) >= 8 && SingleLine(s) && HasRun(s, Digit, 2) && HasRun(s, Special, 3)
  }

  /** Present and between 18 and 99 inclusive. */
  predicate AgeAcceptable(age: Option<int>) {
    age.Some? && 18 <= age.value <= 99
  }

  /** The plain-terms verdict on one field. */
  predicate FieldAcceptable(form: FormValues, f: Field) {
    match f
    case FirstName => NameAcceptable(form.firstName)
    case LastName => NameAcceptable(form.lastName)
    case Email => EmailShape(form.email)
    case Password => PasswordAcceptable(form.password)
    case Confirmation => form.confirmation == form.password
    case Age => AgeAcceptable(form.age)
    case BirthDate => form.birthDate != ""
    case Country => form.country != ""
    case Gender => true
    case Terms => form.acceptedTerms
  }

  /** The whole form in plain terms, written out field by field so that it
      reads without the `Field` enumeration; `FormAcceptableIffAllFields`
      proves it agrees with `FieldAcceptable` on every field. The gender
      select, having no rule, does not appear. */
  predicate FormAcceptable(form: FormValues) {
    && NameAcceptable(form.firstName)
    && NameAcceptable(form.lastName)
    && EmailShape(form.email)
    && PasswordAcceptable(form.password)
    && form.confirmation == form.password
    && AgeAcceptable(form.age)
    && form.birthDate != ""
    && form.country != ""
    && form.acceptedTerms
  }

  /** `required` + `minLength: 2` + `^[A-Za-z]+$`: at least two ASCII letters
      and nothing else. Empty input, digits, spaces, letters with diacritics
      and symbols are all refused. */
  lemma NameRule(s: string, form: FormValues)
    ensures ValidateField(NameRules, Text(s), form).None? <==> NameAcceptable(s)
  {
    Utf16LengthBounds(s);
    if forall i | 0 <= i < |s| :: IsAsciiLetter(s[i]) {
      LettersAreBmp(s);
    }
    if ValidateField(NameRules, Text(s), form).None? {
      assert !RuleFails(NameRules, PatternMismatch, Text(s), form);
      assert !RuleFails(NameRules, MinLength, Text(s), form);
    }
  }

  lemma FirstNameRule(form: FormValues)
    ensures FieldError(form, FirstName).None? <==> NameAcceptable(form.firstName)
  {
    NameRule(form.firstName, form);
  }

  lemma LastNameRule(form: FormValues)
    ensures FieldError(form, LastName).None? <==> NameAcceptable(form.lastName)
  {
    NameRule(form.lastName, form);
  }

  /** `required` + the address pattern: exactly one `@`, a non-empty local part,
      no white space, and a dot inside the domain. */
  lemma EmailRule(form: FormValues)
    ensures FieldError(form, Email).None? <==> EmailShape(form.email)
  {
    EmailRegexCharacterized(form.email);
  }

  /** `required` + `minLength: 8` + the two independent lookaheads. */
  lemma PasswordRule(form: FormValues)
    ensures FieldError(form, Password).None? <==> PasswordAcceptable(form.password)
  {
    PasswordRegexCharacterized(form.password);
  }

  /** The confirmation is pure equality with the live password; with no
      `required`, an empty confirmation passes when the password is empty. */
  lemma ConfirmationRule(form: FormValues)
    ensures FieldError(form, Confirmation).None? <==> form.confirmation == form.password
  {
  }

  /** `required` + `min: 18` + `max: 99`, inclusive at both ends. */
  lemma AgeRule(form: FormValues)
    ensures FieldError(form, Age).None? <==> AgeAcceptable(form.age)
    ensures form.age.Some? && form.age.value > 99 ==> FieldError(form, Age) == Some(Max)
    ensures form.age.Some? && form.age.value < 18 ==> FieldError(form, Age) == Some(Min)
  {
  }

  /** Birth date, country and terms are `required` only: no comparison with the
      age, no membership in the loaded country list. */
  lemma RequiredOnlyRules(form: FormValues)
    ensures FieldError(form, BirthDate).None? <==> form.birthDate != ""
    ensures FieldError(form, Country).None? <==> form.country != ""
    ensures FieldError(form, Terms).None? <==> form.acceptedTerms
  {
  }

  /** The gender select has no rule: every value, the empty one included, passes. */
  lemma GenderRule(form: FormValues)
    ensures FieldError(form, Gender).None?
  {
  }

  /** Each field's error is absent exactly when the plain-terms verdict holds. */
  lemma FieldErrorIffUnacceptable(form: FormValues, f: Field)
    ensures FieldError(form, f).None? <==> FieldAcceptable(form, f)
  {
    match f
    case FirstName => FirstNameRule(form);
    case LastName => LastNameRule(form);
    case Email => EmailRule(form);
    case Password => PasswordRule(form);
    case Confirmation => ConfirmationRule(form);
    case Age => AgeRule(form);
    case BirthDate => RequiredOnlyRules(form);
    case Country => RequiredOnlyRules(form);
    case Gender => GenderRule(form);
    case Terms => RequiredOnlyRules(form);
  }

  // ---------------------------------------------------------------------------
  // Properties of the whole form
  // ---------------------------------------------------------------------------

  /** The submit handler receives the values exactly when every rule passes;
      otherwise the recorded errors are exactly the unacceptable fields. */
  lemma SubmitIffAcceptable(form: FormValues)
    ensures HandleSubmit(form) == Submitted(form) <==> FormAcceptable(form)
    ensures HandleSubmit(form).Blocked? ==>
              forall f: Field :: f in HandleSubmit(form).errors <==> !FieldAcceptable(form, f)
  {
    forall f: Field ensures FieldError(form, f).None? <==> FieldAcceptable(form, f) {
      FieldErrorIffUnacceptable(form, f);
    }
    FormAcceptableIffAllFields(form);
  }

  /** Each field with a message shows it exactly once when unacceptable and
      not at all otherwise, and nothing else is shown. */
  lemma ShownMessagesExact(form: FormValues)
    ensures forall f: Field | Message(f).Some? ::
              multiset(ShownMessages(form))[Message(f).value] ==
                if FieldAcceptable(form, f) then 0 else 1
    ensures forall m | m in ShownMessages(form) ::
              exists f: Field :: !FieldAcceptable(form, f) && Message(f) == Some(m)
  {
    FieldsEnumerateAll();
    forall g, h | Message(g).Some? && Message(g) == Message(h) ensures g == h {
      MessagesDistinct(g, h);
    }
    forall f: Field | Message(f).Some?
      ensures multiset(ShownMessages(form))[Message(f).value] ==
                if FieldAcceptable(form, f) then 0 else 1
    {
      MessageCount(Errors(form), Fields, Message, f);
      FieldErrorIffUnacceptable(form, f);
    }
    MessagesComeFromErrors(Errors(form), Fields, Message);
    forall m | m in ShownMessages(form)
      ensures exists f: Field :: !FieldAcceptable(form, f) && Message(f) == Some(m)
    {
      var f :| f in Fields && f in Errors(form) && Message(f) == Some(m);
      FieldErrorIffUnacceptable(form, f);
    }
  }

  /** The whole-form predicate is the conjunction of the per-field ones. */
  lemma FormAcceptableIffAllFields(form: FormValues)
    ensures FormAcceptable(form) <==> forall f: Field :: FieldAcceptable(form, f)
  {
    if !FormAcceptable(form) {
      if !NameAcceptable(form.firstName) {
        assert !FieldAcceptable(form, FirstName);
      } else if !NameAcceptable(form.lastName) {
        assert !FieldAcceptable(form, LastName);
      } else if !EmailShape(form.email) {
        assert !FieldAcceptable(form, Email);
      } else if !PasswordAcceptable(form.password) {
        assert !FieldAcceptable(form, Password);
      } else if form.confirmation != form.password {
        assert !FieldAcceptable(form, Confirmation);
      } else if !AgeAcceptable(form.age) {
        assert !FieldAcceptable(form, Age);
      } else if form.birthDate == "" {
        assert !FieldAcceptable(form, BirthDate);
      } else if form.country == "" {
        assert !FieldAcceptable(form, Country);
      } else {
        assert !FieldAcceptable(form, Terms);
      }
    }
  }

  /** The `errors` object holds exactly the unacceptable fields. */
  lemma ErrorsAreUnacceptableFields(form: FormValues)
    ensures forall f: Field :: f in Errors(form) <==> !FieldAcceptable(form, f)
  {
    forall f: Field ensures FieldError(form, f).None? <==> FieldAcceptable(form, f) {
      FieldErrorIffUnacceptable(form, f);
    }
  }

  /** No listed field has an error: nothing is shown. */
  lemma {:induction false} NoErrorsNoMessages(
    errs: map<Field, ErrorKind>, fs: seq<Field>, msg: Field -> Option<string>)
    requires forall f | f in fs :: f !in errs
    ensures MessagesOf(errs, fs, msg) == []
  {
    if fs != [] {
      NoErrorsNoMessages(errs, fs[1..], msg);
    }
  }

  /** Only `f` has an error and it is listed once: its message is all that is
      shown. */
  lemma {:induction false} SingleErrorMessage(
    errs: map<Field, ErrorKind>, fs: seq<Field>, msg: Field -> Option<string>, f: Field)
    requires errs.Keys == {f} && msg(f).Some?
    requires f in fs && forall i, j | 0 <= i < j < |fs| :: fs[i] != fs[j]
    ensures MessagesOf(errs, fs, msg) == [msg(f).value]
  {
    if fs[0] == f {
      assert forall g | g in fs[1..] :: g !in errs by {
        forall i | 0 <= i < |fs[1..]| ensures fs[1..][i] != f {
          assert fs[1..][i] == fs[i + 1];
        }
      }
      NoErrorsNoMessages(errs, fs[1..], msg);
    } else {
      assert f in fs[1..] by {
        assert fs == [fs[0]] + fs[1..];
      }
      SingleErrorMessage(errs, fs[1..], msg, f);
    }
  }

  /** A form that meets every rule shows no message. */
  lemma AcceptableFormShowsNothing(form: FormValues)
    requires FormAcceptable(form)
    ensures ShownMessages(form) == []
  {
    FormAcceptableIffAllFields(form);
    ErrorsAreUnacceptableFields(form);
    NoErrorsNoMessages(Errors(form), Fields, Message);
  }

  /** When only `f` is in the `errors` object, only its message is shown. */
  lemma SingleErrorShown(form: FormValues, f: Field)
    requires Errors(form).Keys == {f} && Message(f).Some?
    ensures ShownMessages(form) == [Message(f).value]
  {
    FieldsEnumerateAll();
    SingleErrorMessage(Errors(form), Fields, Message, f);
  }

  /** When exactly one field fails, the `errors` object holds it alone. */
  lemma OnlyFailingFieldErrors(form: FormValues, f: Field)
    requires !FieldAcceptable(form, f)
    requires forall g: Field | g != f :: FieldAcceptable(form, g)
    ensures Errors(form).Keys == {f} && f != Gender
  {
    ErrorsAreUnacceptableFields(form);
  }

  /** When exactly one field fails, the submit is blocked with that field's
      error alone and its message is the only one shown. */
  lemma OnlyFailingField(form: FormValues, f: Field)
    requires !FieldAcceptable(form, f)
    requires forall g: Field | g != f :: FieldAcceptable(form, g)
    ensures HandleSubmit(form).Blocked? && HandleSubmit(form).errors.Keys == {f}
    ensures Message(f).Some? && ShownMessages(form) == [Message(f).value]
  {
    OnlyFailingFieldErrors(form, f);
    var errs := Errors(form);
    assert f in errs;
    assert HandleSubmit(form) == Blocked(errs);
    SingleErrorShown(form, f);
  }

  /** Every field but the confirmation is validated from its own value alone. */
  lemma FieldLocality(form: FormValues, form': FormValues, f: Field)
    requires f != Confirmation
    requires ValueOf(form, f) == ValueOf(form', f)
    ensures FieldError(form, f) == FieldError(form', f)
  {
  }

  /** The confirmation depends on its own value and the live password only. */
  lemma ConfirmationLocality(form: FormValues, form': FormValues)
    requires form.confirmation == form'.confirmation && form.password == form'.password
    ensures FieldError(form, Confirmation) == FieldError(form', Confirmation)
  {
  }

  /** Changing the password after a matching confirmation makes the
      confirmation fail on the next validation. */
  lemma ChangedPasswordBreaksConfirmation(form: FormValues, newPassword: string)
    requires FieldError(form, Confirmation).None?
    requires newPassword != form.password
    ensures FieldError(form.(password := newPassword), Confirmation) == Some(Validate)
  {
  }

  /** The form as mounted cannot be submitted: every required field reports
      `required`, and the confirmation matches the equally empty password. */
  lemma EmptyFormBlocked()
    ensures HandleSubmit(EmptyForm).Blocked?
    ensures forall f: Field :: RulesOf(f).required ==> FieldError(EmptyForm, f) == Some(Required)
    ensures FieldError(EmptyForm, Confirmation).None?
  {
    assert FieldError(EmptyForm, FirstName).Some?;
  }
}
