/**
 Concrete forms and strings with the verdicts the model proves for them, on
 typical and boundary inputs.
 */
module Scenarios {
  import opened Chars
  import opened Patterns
  import opened FormData
  import opened HookForm
  import opened Registration
  import opened Countries

  /** A form every rule accepts. */
  const Anna := FormValues(
    "Anna", "Nowak", "a@b.co", "ab12!@#cd", "ab12!@#cd", Some(25), "1999-05-01", "Polska", "", true)

  lemma AnnaEmail()
    ensures EmailShape("a@b.co")
  {
    var s := "a@b.co";
    assert s[1] == '@' && s[3] == '.';
    assert AtomsIn(s, 0, 1) && AtomsIn(s, 2, 3) && AtomsIn(s, 4, |s|);
    EmailRegexCharacterized(s);
  }

  lemma AnnaPassword()
    ensures PasswordAcceptable("ab12!@#cd")
  {
    var s := "ab12!@#cd";
    Utf16LengthBounds(s);
    assert RunAt(s, Digit, 2, 2);
    assert RunAt(s, Special, 4, 3);
  }

  lemma AnnaNames()
    ensures NameAcceptable("Anna") && NameAcceptable("Nowak")
  {
    var a := "Anna";
    forall i | 0 <= i < |a| ensures IsAsciiLetter(a[i]) {
      if i == 0 {} else if i == 1 {} else if i == 2 {} else {}
    }
    var n := "Nowak";
    forall i | 0 <= i < |n| ensures IsAsciiLetter(n[i]) {
      if i == 0 {} else if i == 1 {} else if i == 2 {} else if i == 3 {} else {}
    }
  }

  lemma AnnaAcceptable()
    ensures FormAcceptable(Anna)
  {
    AnnaNames();
    AnnaEmail();
    AnnaPassword();
  }

  /** The fully valid form is handed to the submit handler, unchanged, and no
      message is shown. */
  lemma AnnaSubmits()
    ensures HandleSubmit(Anna) == Submitted(Anna)
    ensures ShownMessages(Anna) == []
  {
    AnnaAcceptable();
    SubmitIffAcceptable(Anna);
    AcceptableFormShowsNothing(Anna);
  }

  /** Anna's form with a five-character password, confirmed as typed. */
  const ShortPassword := Anna.(password := "short", confirmation := "short")

  /** Every field of `ShortPassword` but the password meets its rule. */
  lemma ShortPasswordOnlyPasswordFails()
    ensures !FieldAcceptable(ShortPassword, Password)
    ensures forall g: Field | g != Password :: FieldAcceptable(ShortPassword, g)
  {
    assert Utf16Length("short") == 5 by {
      Utf16LengthBounds("short");
    }
    AnnaNames();
    AnnaEmail();
    forall g: Field | g != Password ensures FieldAcceptable(ShortPassword, g) {
      assert FieldAcceptable(ShortPassword, g) == FieldAcceptable(Anna, g)
        || g == Confirmation;
    }
  }

  /** The password fails on `minLength`, the first rule it breaks. */
  lemma ShortPasswordKind()
    ensures FieldError(ShortPassword, Password) == Some(MinLength)
  {
    Utf16LengthBounds("short");
  }

  /** A short password blocks the submit with exactly the password's error and
      message. */
  lemma ShortPasswordShowsOnlyItsMessage()
    ensures HandleSubmit(ShortPassword).Blocked?
    ensures HandleSubmit(ShortPassword).errors.Keys == {Password}
    ensures HandleSubmit(ShortPassword).errors[Password] == MinLength
    ensures ShownMessages(ShortPassword) == [Message(Password).value]
  {
    var o := HandleSubmit(ShortPassword);
    assert o.Blocked? && o.errors.Keys == {Password}
        && ShownMessages(ShortPassword) == [Message(Password).value] by {
      ShortPasswordOnlyPasswordFails();
      OnlyFailingField(ShortPassword, Password);
    }
    assert o.errors[Password] == MinLength by {
      ShortPasswordKind();
    }
  }

  /** Names: two ASCII letters suffice; anything shorter, or any other
      character, is refused, and the error kind is the first rule that fails. */
  lemma NameExamples()
    ensures FieldError(Anna.(firstName := "Ola"), FirstName).None?
    ensures FieldError(Anna.(firstName := ""), FirstName) == Some(Required)
    ensures FieldError(Anna.(firstName := "A"), FirstName) == Some(MinLength)
    ensures FieldError(Anna.(lastName := "Jan3"), LastName) == Some(PatternMismatch)
    ensures FieldError(Anna.(lastName := "Jo Ann"), LastName) == Some(PatternMismatch)
    ensures FieldError(Anna.(lastName := "Łucja"), LastName) == Some(PatternMismatch)
  {
    Utf16LengthBounds("Ola");
    assert !IsAsciiLetter("Jan3"[3]);
    assert !IsAsciiLetter("Jo Ann"[2]);
    assert !IsAsciiLetter("Łucja"[0]);
  }

  /** Email: no dot after the `@`, an empty local part, white space, a dot at
      the end of the domain, or a second `@` all fail the pattern. */
  lemma EmailExamples()
    ensures !EmailRegex("a@b")
    ensures !EmailRegex("@b.co")
    ensures !EmailRegex("a b@c.de")
    ensures !EmailRegex("a@b.")
    ensures !EmailRegex("a@@b.co")
    ensures FieldError(Anna.(email := "a@b"), Email) == Some(PatternMismatch)
  {
    EmailRegexAtFirstNonAtom("a@b", 1);
    EmailRegexAtFirstNonAtom("@b.co", 0);
    EmailRegexAtFirstNonAtom("a b@c.de", 1);
    EmailRegexAtFirstNonAtom("a@b.", 1);
    EmailRegexAtFirstNonAtom("a@@b.co", 1);
    assert !AtomsIn("a@@b.co", 2, 7) by {
      assert !EmailAtom("a@@b.co"[2]);
    }
  }

  /** Special characters first, digits after: accepted all the same. */
  lemma SpecialsBeforeDigitsAccepted()
    ensures PasswordAcceptable("!@#ab12cd")
  {
    var s := "!@#ab12cd";
    Utf16LengthBounds(s);
    assert RunAt(s, Digit, 5, 2) && RunAt(s, Special, 0, 3);
  }

  /** Digits without special characters fail the pattern. */
  lemma DigitsOnlyRejected()
    ensures Utf16Length("abcd1234") >= 8 && !PasswordRegex("abcd1234")
    ensures !PasswordAcceptable("abcd1234")
  {
    var t := "abcd1234";
    Utf16LengthBounds(t);
    forall i | 0 <= i <= |t| ensures !RunAt(t, Special, i, 3) {
      if i + 3 <= |t| {
        assert !IsSpecial(t[i]) by {
          assert i == 0 || i == 1 || i == 2 || i == 3 || i == 4 || i == 5;
        }
      }
    }
    PasswordRegexCharacterized(t);
  }

  /** Letters alone fail the pattern. */
  lemma LettersOnlyRejected()
    ensures Utf16Length("abcdefgh") >= 8 && !PasswordRegex("abcdefgh")
    ensures !PasswordAcceptable("abcdefgh")
  {
    var u := "abcdefgh";
    Utf16LengthBounds(u);
    forall i | 0 <= i <= |u| ensures !RunAt(u, Digit, i, 2) {
      if i + 2 <= |u| {
        assert !IsDigit(u[i]) by {
          assert i == 0 || i == 1 || i == 2 || i == 3 || i == 4 || i == 5 || i == 6;
        }
      }
    }
    PasswordRegexCharacterized(u);
  }

  /** Two digits that are not adjacent fail the pattern, although the message
      speaks only of "at least 2 digits". */
  lemma SeparatedDigitsRejected()
    ensures Utf16Length("a1b2!@#xyz") >= 8 && !PasswordRegex("a1b2!@#xyz")
    ensures !PasswordAcceptable("a1b2!@#xyz")
  {
    var w := "a1b2!@#xyz";
    Utf16LengthBounds(w);
    forall i | 0 <= i <= |w| ensures !RunAt(w, Digit, i, 2) {
      if i + 2 <= |w| {
        if i == 0 { assert !IsDigit(w[0]); }
        else if i == 1 { assert !IsDigit(w[2]); }
        else if i == 2 { assert !IsDigit(w[2]); }
        else if i == 3 { assert !IsDigit(w[4]); }
        else if i == 4 { assert !IsDigit(w[4]); }
        else if i == 5 { assert !IsDigit(w[5]); }
        else if i == 6 { assert !IsDigit(w[6]); }
        else if i == 7 { assert !IsDigit(w[7]); }
        else if i == 8 { assert !IsDigit(w[8]); }
      }
    }
    PasswordRegexCharacterized(w);
  }

  /** Age bounds are inclusive: 18 and 99 pass, 17 and 100 fail, empty fails. */
  lemma AgeExamples()
    ensures FieldError(Anna.(age := Some(18)), Age).None?
    ensures FieldError(Anna.(age := Some(99)), Age).None?
    ensures FieldError(Anna.(age := Some(17)), Age) == Some(Min)
    ensures FieldError(Anna.(age := Some(100)), Age) == Some(Max)
    ensures FieldError(Anna.(age := None), Age) == Some(Required)
  {
  }

  /** A second password meeting every password rule. */
  lemma RetypedPasswordAcceptable()
    ensures PasswordAcceptable("xy34$%^zz")
  {
    var p := "xy34$%^zz";
    Utf16LengthBounds(p);
    assert RunAt(p, Digit, 2, 2) && RunAt(p, Special, 4, 3);
  }

  /** Changing the password after the confirmation matched fails the
      confirmation, although the new password is itself acceptable. */
  lemma RetypedPasswordExample()
    ensures PasswordAcceptable("xy34$%^zz")
    ensures FieldError(Anna.(password := "xy34$%^zz"), Confirmation) == Some(Validate)
  {
    RetypedPasswordAcceptable();
    ConfirmationRule(Anna.(password := "xy34$%^zz"));
  }

  /** A birth date inconsistent with the age passes: no cross-field check. */
  lemma BirthDateNotComparedWithAge()
    ensures FieldError(Anna.(age := Some(18), birthDate := "1950-01-01"), BirthDate).None?
  {
  }

  /** The rule itself does not consult the list: a value the select would not
      offer, here after a failed load, passes it. Only the select's options
      keep such a value out of the form. */
  lemma CountryNotCheckedAgainstList()
    ensures "Atlantis" !in CountryOptions(Load(InitialCountries, FetchFailed))
    ensures FieldError(Anna.(country := "Atlantis"), Country).None?
  {
    FailedLoadOffersPlaceholderOnly(FetchFailed);
  }

  /** After a failed load the select can only hold the placeholder, so the
      form cannot be submitted. */
  lemma FailedLoadBlocksSubmit(form: FormValues, outcome: FetchOutcome)
    requires outcome.FetchFailed? || MapCountries(outcome.payload).None?
    requires form.country in CountryOptions(Load(InitialCountries, outcome))
    ensures form.country == ""
    ensures FieldError(form, Country) == Some(Required)
    ensures HandleSubmit(form).Blocked?
  {
  }

  /** The placeholder option fails the country rule. */
  lemma PlaceholderRejected(list: seq<CountryEntry>)
    ensures FieldError(Anna.(country := CountryOptions(list)[0]), Country) == Some(Required)
  {
  }

  /** Any gender passes. */
  lemma AnyGenderAccepted(g: string)
    ensures FieldError(Anna.(gender := g), Gender).None?
  {
  }

  /** An unchecked terms box blocks the submit. */
  lemma UncheckedTermsBlock()
    ensures HandleSubmit(Anna.(acceptedTerms := false)).Blocked?
  {
    assert FieldError(Anna.(acceptedTerms := false), Terms).Some?;
  }

  /** A two-record payload yields exactly two entries, names and flags in
      order, and three option values. */
  lemma TwoRecordPayload()
    ensures var payload := [
                CountryRecord(Some(CountryName("Poland")), Some(FlagLinks("pl.svg"))),
                CountryRecord(Some(CountryName("Peru")), Some(FlagLinks("pe.svg")))];
            && Load(InitialCountries, Received(payload))
                 == [CountryEntry("Poland", "pl.svg"), CountryEntry("Peru", "pe.svg")]
            && CountryOptions(Load(InitialCountries, Received(payload))) == ["", "Poland", "Peru"]
  {
  }

  /** One record without `flags` discards the whole payload. */
  lemma RecordWithoutFlagsDiscardsPayload()
    ensures var payload := [
                CountryRecord(Some(CountryName("Poland")), Some(FlagLinks("pl.svg"))),
                CountryRecord(Some(CountryName("Peru")), None)];
            Load(InitialCountries, Received(payload)) == []
  {
  }
}
