/**
 The values of the registration form as react-hook-form hands them to the
 validator and to the submit handler: one entry per registered field.
 */
module FormData {

  datatype Option<+T> = None | Some(value: T)

  /** The registered fields, in the order the form renders them. The keys the
      form registers are, in the same order: `imie`, `nazwisko`, `email`,
      `haslo`, `potwierdzHaslo`, `wiek`, `dataUrodzenia`, `kraj`, `plec`,
      `zgodaNaRegulamin`. */
  datatype Field =
    | FirstName | LastName | Email | Password | Confirmation
    | Age | BirthDate | Country | Gender | Terms

  /** A snapshot of every field. The age input is numeric: `None` is an empty
      input, `Some(n)` an integer the user typed. The terms checkbox is either
      checked or not. Every other field is the raw text of its input or the
      value of the selected option. */
  datatype FormValues = FormValues(
    firstName: string,
    lastName: string,
    email: string,
    password: string,
    confirmation: string,
    age: Option<int>,
    birthDate: string,
    country: string,
    gender: string,
    acceptedTerms: bool)

  /** The value of one field, by the kind of input it comes from. */
  datatype FieldValue =
    | Text(text: string)
    | Number(number: Option<int>)
    | Checkbox(checked: bool)

  /** The form as it is at mount: every input empty, the box unchecked. */
  const EmptyForm := FormValues("", "", "", "", "", None, "", "", "", false)

  /** All fields, in render order. */
  const Fields: seq<Field> :=
    [FirstName, LastName, Email, Password, Confirmation, Age, BirthDate, Country, Gender, Terms]

  /** Reads one field of the snapshot (react-hook-form's `getValues(name)`). */
  function ValueOf(form: FormValues, f: Field): (v: FieldValue)
    ensures f == Age <==> v.Number?
    ensures f == Terms <==> v.Checkbox?
  {
    match f
    case FirstName => Text(form.firstName)
    case LastName => Text(form.lastName)
    case Email => Text(form.email)
    case Password => Text(form.password)
    case Confirmation => Text(form.confirmation)
    case Age => Number(form.age)
    case BirthDate => Text(form.birthDate)
    case Country => Text(form.country)
    case Gender => Text(form.gender)
    case Terms => Checkbox(form.acceptedTerms)
  }

  /** `Fields` lists every field exactly once. */
  lemma FieldsEnumerateAll()
    ensures forall f: Field :: f in Fields
    ensures forall i, j | 0 <= i < j < |Fields| :: Fields[i] != Fields[j]
  {
    forall f: Field ensures f in Fields {
      match f
      case FirstName => assert Fields[0] == f;
      case LastName => assert Fields[1] == f;
      case Email => assert Fields[2] == f;
      case Password => assert Fields[3] == f;
      case Confirmation => assert Fields[4] == f;
      case Age => assert Fields[5] == f;
      case BirthDate => assert Fields[6] == f;
      case Country => assert Fields[7] == f;
      case Gender => assert Fields[8] == f;
      case Terms => assert Fields[9] == f;
    }
  }
}
