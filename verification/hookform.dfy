/**
 The part of react-hook-form's field validation that the registration form
 relies on: a rule object as passed to `register(name, rules)`, and the order
 in which the library tries the rules of one field, reporting the first that
 fails.
 */
module HookForm {
  import opened Chars
  import opened Patterns
  import opened FormData

  /** The regular expressions the form uses. */
  datatype Pattern = AsciiLetters | EmailAddress | PasswordStrength

  predicate PatternMatches(p: Pattern, s: string) {
    match p
    case AsciiLetters => LettersRegex(s)
    case EmailAddress => EmailRegex(s)
    case PasswordStrength => PasswordRegex(s)
  }

  /** A `validate` callback. The only one the form uses compares the value
      with the live value of another field: `value => value === watch(f)`. */
  datatype Validator = EqualsWatched(watched: Field)

  predicate ValidatorAccepts(val: Validator, v: FieldValue, form: FormValues) {
    match val
    case EqualsWatched(f) => v == ValueOf(form, f)
  }

  /** A rule object; an absent rule is `None` (or `false` for `required`). */
  datatype Rules = Rules(
    required: bool,
    min: Option<int>,
    max: Option<int>,
    minLength: Option<nat>,
    pattern: Option<Pattern>,
    validate: Option<Validator>)

  /** The rule object of a field registered without options. */
  const NoRules := Rules(false, None, None, None, None, None)

  /** The `type` of the error react-hook-form records for a field. */
  datatype ErrorKind = Required | Max | Min | MinLength | PatternMismatch | Validate

  /** The order in which the library tries the rules. */
  function Rank(k: ErrorKind): nat {
    match k
    case Required => 0
    case Max => 1
    case Min => 2
    case MinLength => 3
    case PatternMismatch => 4
    case Validate => 5
  }

  /** What `required` rejects: an empty text, an empty number input, an
      unchecked box. The later rules skip such values, except `validate`. */
  predicate Blank(v: FieldValue) {
    match v
    case Text(s) => s == ""
    case Number(n) => n.None?
    case Checkbox(b) => !b
  }

  /** Each rule read on its own, as the condition under which it fails. `min`
      and `max` apply to numbers, `minLength` (counted in UTF-16 code units)
      and `pattern` to texts, and none of them to a blank value. */
  predicate RuleFails(r: Rules, k: ErrorKind, v: FieldValue, form: FormValues) {
    match k
    case Required => r.required && Blank(v)
    case Max => r.max.Some? && v.Number? && v.number.Some? && v.number.value > r.max.value
    case Min => r.min.Some? && v.Number? && v.number.Some? && v.number.value < r.min.value
    case MinLength =>
      r.minLength.Some? && v.Text? && v.text != "" && Utf16Length(v.text) < r.minLength.value
    case PatternMismatch =>
      r.pattern.Some? && v.Text? && v.text != "" && !PatternMatches(r.pattern.value, v.text)
    case Validate => r.validate.Some? && !ValidatorAccepts(r.validate.value, v, form)
  }

  /** Validates one field the way react-hook-form does with its default
      first-error criteria: `required`, then `max`/`min`, then `minLength`,
      then `pattern`, then `validate`; the first failure is the field's error.
      `form` is the snapshot `validate` sees through `watch`. */
  function ValidateField(r: Rules, v: FieldValue, form: FormValues): (e: Option<ErrorKind>)
    ensures e.None? <==> forall k: ErrorKind :: !RuleFails(r, k, v, form)
    ensures e.Some? ==> RuleFails(r, e.value, v, form)
    ensures e.Some? ==> forall k: ErrorKind :: Rank(k) < Rank(e.value) ==> !RuleFails(r, k, v, form)
  {
    if r.required && Blank(v) then
      assert RuleFails(r, Required, v, form); Some(Required)
    else if !Blank(v) && v.Number? && (r.max.Some? || r.min.Some?)
            && ((r.max.Some? && v.number.value > r.max.value)
                || (r.min.Some? && v.number.value < r.min.value)) then
      if r.max.Some? && v.number.value > r.max.value then
        assert RuleFails(r, Max, v, form); Some(Max)
      else assert RuleFails(r, Min, v, form); Some(Min)
    else if !Blank(v) && v.Text? && r.minLength.Some? && Utf16Length(v.text) < r.minLength.value then
      assert RuleFails(r, MinLength, v, form); Some(MinLength)
    else if !Blank(v) && v.Text? && r.pattern.Some? && !PatternMatches(r.pattern.value, v.text) then
      assert RuleFails(r, PatternMismatch, v, form); Some(PatternMismatch)
    else if r.validate.Some? && !ValidatorAccepts(r.validate.value, v, form) then
      assert RuleFails(r, Validate, v, form); Some(Validate)
    else
      None
  }

  /** A field registered without options never has an error. */
  lemma NoRulesNeverFail(v: FieldValue, form: FormValues)
    ensures ValidateField(NoRules, v, form).None?
  {
  }
}
