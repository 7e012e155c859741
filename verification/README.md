# Registration form — validation model

A Dafny model of the validation core of a single-page React registration form
(`src/App.js`). The form registers ten fields with react-hook-form:

- first name and surname;
- email;
- password and its confirmation;
- age;
- birth date;
- country, chosen from a list fetched at mount;
- gender;
- a terms checkbox.

Every field but the gender select carries a rule object. The form calls the
submit handler only when no rule fails. Each failing field shows one fixed Polish message.

The model is split into these modules:

- `Chars`: character classes as JavaScript regular expressions read them (`\s`,
  `\d`, `.`, ASCII letters), and the UTF-16 length that `minLength` counts.
- `Patterns`: the three regular expressions. Each is written as a direct reading
  of the pattern's structure and decided by a scanner method proved equivalent
  to it. The email and password patterns are also characterised in plain terms;
  the letters pattern already is one.
- `FormData`: the fields and the value snapshot react-hook-form validates.
- `HookForm`: the rule object and the library's order of evaluation. `required`
  comes first, then `max`/`min`, then `minLength`, then `pattern`, then
  `validate`; the first rule that fails is the field's error. Every rule is
  also stated on its own, as a reference.
- `Registration`: the rule objects of the form, the messages, the `errors`
  object, the submit gate, and the per-field and whole-form characterisations.
- `Countries`: the country payload projected onto `{ nazwa, flaga }` entries,
  the list state, and the options of the country select.
- `Scenarios`: concrete forms and strings with their verdicts.

The rules are modelled as the code states them. The password rule demands
more than its message says, the birth-date rule checks less than its message
says, and the country rule leaves to the select what it does not check itself:

- **Password adjacency.** The message asks for at least 2 digits and 3 special
  characters. The pattern asks for two *adjacent* digits and three *adjacent*
  characters of `!@#$%^&*`, so `a1b2!@#xyz` is refused
  (`Scenarios.SeparatedDigitsRejected`). The two lookaheads are independent,
  so the two runs may appear in either order, anywhere
  (`Patterns.PasswordRunsInEitherOrder`, `Scenarios.SpecialsBeforeDigitsAccepted`).
- **Birth date.** The birth-date rule is `required` only. It is never compared
  with the age, although its message says it must agree with it
  (`Scenarios.BirthDateNotComparedWithAge`).
- **Country membership.** The country rule is `required` only and does not
  consult the list (`Scenarios.CountryNotCheckedAgainstList`). Membership is
  enforced by the select: its value is always the placeholder `""` or an
  offered name (`Countries.CountryOptionsMembership`). After a failed load
  only the placeholder is offered, so the form can then never be submitted
  (`Scenarios.FailedLoadBlocksSubmit`).

## Model

| member | source | states |
|---|---|---|
| Patterns.MatchLetters | src/App.js:76 | The scanner answers true exactly on the strings `^[A-Za-z]+$` matches (`LettersRegex`): one or more ASCII letters and nothing else |
| Patterns.EmailRegexCharacterized | src/App.js:90 | The email pattern matches exactly the strings with no white space, exactly one `@`, a non-empty part before it and a dot with a character on each side inside the domain |
| Patterns.EmailRegexAtFirstNonAtom | src/App.js:90 | Past a run of `[^@\s]` characters the pattern matches iff the first other character is the `@`, the run is non-empty and the rest is an atom run with an inner dot |
| Patterns.MatchEmail | src/App.js:90 | The one-pass scanner answers true exactly when the email pattern matches, equivalently when the address has the plain-terms shape |
| Patterns.PasswordRegexCharacterized | src/App.js:101 | The two lookaheads are independent: the pattern matches iff the input has no line terminator, two adjacent ASCII digits somewhere and three adjacent characters of `!@#$%^&*` somewhere |
| Patterns.PasswordRunsInEitherOrder | src/App.js:101 | A one-line password with the digit run before the special run, or after it, matches either way: no ordering is imposed |
| Patterns.RunInConcat | src/App.js:101 | A run of digits or special characters survives being placed before or after any other text |
| Patterns.ScanRun | src/App.js:101 | The run-length scanner finds `n` adjacent characters of a class exactly when such a run exists |
| Patterns.MatchPassword | src/App.js:101 | The scanner accepts exactly the strings the password pattern matches |
| Chars.Utf16LengthBounds | src/App.js:100 | The length `minLength` compares is never below the character count, and equals it exactly when every character is in the Basic Multilingual Plane |
| HookForm.ValidateField | src/App.js:98-102 | A field has no error iff none of its rules fails on its own; a reported error names a rule that fails, and every rule tried before it holds |
| HookForm.NoRulesNeverFail | src/App.js:146 | A field registered without options never has an error |
| FormData.FieldsEnumerateAll | src/App.js:76-158 | The ten registered fields are listed once each |
| FormData.ValueOf | src/App.js:119-158 | The value read for a field is a number exactly for the age input (`type="number"`) and a checked flag exactly for the terms checkbox; every other field is text |
| Registration.NameRule | src/App.js:76 | The name rule (`Patterns.LettersRegex` is the pattern `^[A-Za-z]+$`) passes exactly on two or more ASCII letters and nothing else |
| Registration.RulesOf | src/App.js:76-158 | The option objects passed to `register` (the constants `NameRules`, `EmailRules`, `PasswordRules`, `ConfirmationRules`, `AgeRules`, `RequiredOnly`): every field but the confirmation and the gender select is required; only the names, email and password have a pattern; only the names and password a minimum length; only the confirmation a `validate`; only the age a numeric range; the gender select has no options |
| Registration.FirstNameRule | src/App.js:76 | The first name has no error iff it is at least two ASCII letters |
| Registration.LastNameRule | src/App.js:83 | The surname has no error iff it is at least two ASCII letters |
| Registration.EmailRule | src/App.js:90 | The email has no error iff it has the plain-terms address shape |
| Registration.PasswordRule | src/App.js:98-102 | The password has no error iff it is at least 8 UTF-16 units on one line with two adjacent digits and three adjacent special characters |
| Registration.ConfirmationRule | src/App.js:110-112 | The confirmation has no error iff it equals the live password, the empty confirmation of an empty password included |
| Registration.AgeRule | src/App.js:120 | The age has no error iff it is present and in 18..99 inclusive; above 99 reports `max`, below 18 reports `min` |
| Registration.RequiredOnlyRules | src/App.js:128-158 | Birth date, country and terms have no error iff the date is non-empty, the country is non-empty and the box is checked |
| Registration.GenderRule | src/App.js:146 | The gender select never has an error |
| Registration.FieldErrorIffUnacceptable | src/App.js:76-158 | Every field's error (`FieldError`: the field's rules validated as `handleSubmit` does) is absent exactly when its plain-terms verdict holds |
| Registration.Errors | src/App.js:47 | The `errors` object holds a field iff that field has an error, with that error |
| Registration.HandleSubmit | src/App.js:70 | The handler receives the unchanged values only when no field has an error; otherwise the outcome carries the errors, at least one of them |
| Registration.SubmitIffAcceptable | src/App.js:70 | The handler receives the values iff the whole form meets every rule; a blocked submit records exactly the unacceptable fields |
| Registration.FormAcceptableIffAllFields | src/App.js:70 | The whole-form verdict is the conjunction of the ten per-field verdicts |
| Registration.ErrorsAreUnacceptableFields | src/App.js:47 | The `errors` object holds exactly the unacceptable fields |
| Registration.MessagesDistinct | src/App.js:78-161 | No two fields share a message, so a shown message identifies its field |
| Registration.MessagePresence | src/App.js:78-161 | `Message` holds the fixed text rendered under each field with an error; every field but the gender select has one, and the gender select has none |
| Registration.MessageCount | src/App.js:78-161 | Over distinct fields, a field's message is shown once if the field is listed and in `errors`, and not at all otherwise |
| Registration.MessagesComeFromErrors | src/App.js:78-161 | Every shown message belongs to a listed field that has an error |
| Registration.NoErrorsNoMessages | src/App.js:78-161 | With no listed field in `errors`, no message is shown |
| Registration.SingleErrorMessage | src/App.js:78-161 | With only one field in `errors`, its message is the only one shown |
| Registration.ShownMessagesExact | src/App.js:78-161 | On the rendered list (`ShownMessages`, built by `MessagesOf` from the `errors.x && …` lines) each message is shown once when its field is unacceptable and not at all otherwise, and every shown message belongs to an unacceptable field |
| Registration.AcceptableFormShowsNothing | src/App.js:78-161 | A form meeting every rule shows no message |
| Registration.SingleErrorShown | src/App.js:78-161 | When `errors` holds one field, only its message is shown |
| Registration.OnlyFailingFieldErrors | src/App.js:76-158 | When exactly one field is unacceptable, `errors` holds it alone, and that field is never the gender select |
| Registration.OnlyFailingField | src/App.js:70-161 | When exactly one field is unacceptable, the submit is blocked with that field alone and only its message is shown |
| Registration.FieldLocality | src/App.js:76-158 | Every field but the confirmation is judged on its own value alone |
| Registration.ConfirmationLocality | src/App.js:111 | The confirmation's verdict depends only on its own value and the password |
| Registration.ChangedPasswordBreaksConfirmation | src/App.js:111 | Changing the password after a matching confirmation makes the confirmation fail `validate` |
| Registration.EmptyFormBlocked | src/App.js:47-70 | The form as mounted cannot be submitted: every required field reports `required`, while the empty confirmation matches the empty password |
| Countries.MapCountries | src/App.js:59-62 | The mapping (`Project` is the arrow function applied to each record) succeeds iff every record has `name` and `flags`, and then yields one entry per record, in order, with that record's common name and SVG flag |
| Countries.Unproject | src/App.js:59-62 | Each entry is the projection of a record carrying its two strings |
| Countries.MapCountriesRoundTrip | src/App.js:59-62 | Mapping the records built from any list of entries gives back that list |
| Countries.MapCountriesAppend | src/App.js:59-62 | Mapping a concatenation succeeds iff both parts map, and yields the two results joined |
| Countries.Load | src/App.js:58-65 | The list becomes the mapped payload when the mapping succeeds; a failed request or a throwing mapping leaves it unchanged |
| Countries.LoadIdempotent | src/App.js:58-65 | Settling the list with the same response twice changes nothing, and a successful load replaces the list by one entry per record whatever it held before |
| Countries.CountryOptions | src/App.js:135-140 | The select offers the empty placeholder first and then each entry's name, in list order |
| Countries.FailedLoadOffersPlaceholderOnly | src/App.js:48-65 | Starting from the mount state (`InitialCountries`, the `useState([])` list), when the request fails, or a record lacks `name` or `flags`, only the placeholder is offered |
| Countries.CountryOptionsMembership | src/App.js:135-140 | A value is among the select's options exactly when it is the placeholder `""` or the name of some entry of the list |
| Countries.LoadedOptionsFollowPayload | src/App.js:59-63 | After a successful load the options are the placeholder followed by the payload's common names in payload order |
| Scenarios.AnnaSubmits | src/App.js:70 | A form meeting every rule reaches the handler unchanged and shows nothing |
| Scenarios.ShortPasswordShowsOnlyItsMessage | src/App.js:98-104 | A five-character password in an otherwise valid form blocks the submit with the `minLength` error on the password alone and shows only the password message |
| Scenarios.ShortPasswordOnlyPasswordFails | src/App.js:98-102 | With a five-character password, only the password field is unacceptable |
| Scenarios.NameExamples | src/App.js:76-83 | `Ola` passes; empty reports `required`; one letter reports `minLength`; a digit, a space or `Ł` reports `pattern` |
| Scenarios.EmailExamples | src/App.js:90 | `a@b`, `@b.co`, `a b@c.de`, `a@b.` and `a@@b.co` fail the email pattern |
| Scenarios.SpecialsBeforeDigitsAccepted | src/App.js:101 | `!@#ab12cd` is an acceptable password |
| Scenarios.DigitsOnlyRejected | src/App.js:100-101 | `abcd1234` is long enough but fails the pattern |
| Scenarios.LettersOnlyRejected | src/App.js:100-101 | `abcdefgh` is long enough but fails the pattern |
| Scenarios.SeparatedDigitsRejected | src/App.js:100-101 | `a1b2!@#xyz` fails the pattern: its digits are not adjacent |
| Scenarios.AgeExamples | src/App.js:120 | 18 and 99 pass, 17 reports `min`, 100 reports `max`, empty reports `required` |
| Scenarios.RetypedPasswordExample | src/App.js:111 | A new, itself acceptable password makes the old confirmation fail `validate` |
| Scenarios.BirthDateNotComparedWithAge | src/App.js:128-130 | A birth date that contradicts the age passes |
| Scenarios.CountryNotCheckedAgainstList | src/App.js:134 | The `required`-only rule does not consult the list: a value the select does not offer (here after a failed load) passes the rule; only the select's options keep it out |
| Scenarios.FailedLoadBlocksSubmit | src/App.js:134-140 | After a failed request or a throwing mapping, a country value the select can hold is the placeholder, which reports `required`, so the submit is blocked |
| Scenarios.PlaceholderRejected | src/App.js:134-135 | The placeholder option reports `required` |
| Scenarios.AnyGenderAccepted | src/App.js:146 | Every gender value passes |
| Scenarios.UncheckedTermsBlock | src/App.js:158 | An unchecked terms box blocks the submit |
| Scenarios.TwoRecordPayload | src/App.js:59-63 | A two-record payload yields two entries in order and three option values |
| Scenarios.RecordWithoutFlagsDiscardsPayload | src/App.js:59-65 | One record without `flags` leaves the list empty |

## Left out

- The request to the countries service, `response.json()`, the promise chain and
  `console.error` are not modelled. Their result reaches `Countries.Load` as a
  `FetchOutcome`: either a decoded payload or a failure.
- `console.log` in the submit handler is not modelled; the model stops at the
  values handed to it (`Submitted`).
- Rendering, styled-components, labels and option texts are left out. Only the
  option values of the country select and the set of messages on screen are
  modelled.
- react-hook-form's timing (validation on submit, then re-validation on change),
  its subscriptions and `watch` are left out. `validate` sees the snapshot being
  validated, which is what `watch` returns at that moment.
- `setValue` is destructured but never used, so it is not modelled.
- The `country` field of a snapshot ranges over every string, while the select
  at lines 134-140 only yields `""` or an offered name. The snapshot does not
  carry that constraint; lemmas that rely on it take membership in
  `CountryOptions` as a precondition (`Scenarios.FailedLoadBlocksSubmit`).
- The age input is modelled as an optional integer. Non-integer numbers and the
  string the number input hands to the submit handler are not modelled.
- The date input's format is not modelled; only emptiness matters to its rule.
- Countries.MapCountries: the model's records always carry strings in
  `name.common` and `flags.svg`. A record whose `name` lacks `common`, or whose
  `flags` lacks `svg`, would produce `undefined` fields in the source rather than
  throwing; this is not modelled. Payloads that are not arrays are also not
  modelled; they reach the model as `FetchFailed`.
- The effect runs once at mount and has no cleanup. An unmount before the
  request settles, and retries, are not modelled.
