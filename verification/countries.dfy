/**
 The country list: the projection of the decoded country payload onto
 dropdown entries, the list state it replaces, and the option values the
 country select offers. The request itself, JSON decoding and logging stay
 outside; a failed request or a payload the projection cannot walk reaches
 this module as an outcome.
 */
module Countries {
  import opened FormData

  /** `name` of a payload record; only `common` is read. */
  datatype CountryName = CountryName(common: string)

  /** `flags` of a payload record; only `svg` is read. */
  datatype FlagLinks = FlagLinks(svg: string)

  /** One decoded payload record. `name` or `flags` may be missing, in which
      case reading `.common` or `.svg` from it throws. */
  datatype CountryRecord = CountryRecord(name: Option<CountryName>, flags: Option<FlagLinks>)

  /** A dropdown entry: `{ nazwa, flaga }`. */
  datatype CountryEntry = CountryEntry(name: string, flag: string)

  /** Reading both properties succeeds. */
  predicate Projectable(r: CountryRecord) {
    r.name.Some? && r.flags.Some?
  }

  /** `kraj => ({ nazwa: kraj.name.common, flaga: kraj.flags.svg })` */
  function Project(r: CountryRecord): CountryEntry
    requires Projectable(r)
  {
    CountryEntry(r.name.value.common, r.flags.value.svg)
  }

  /** `dane.map(...)`: `None` when some record throws, otherwise the entries,
      one per record, in payload order. */
  function MapCountries(payload: seq<CountryRecord>): (r: Option<seq<CountryEntry>>)
    ensures r.Some? <==> forall i | 0 <= i < |payload| :: Projectable(payload[i])
    ensures r.Some? ==> |r.value| == |payload|
    ensures r.Some? ==> forall i | 0 <= i < |payload| ::
              && r.value[i].name == payload[i].name.value.common
              && r.value[i].flag == payload[i].flags.value.svg
  {
    if payload == [] then Some([])
    else if !Projectable(payload[0]) then None
    else
      match MapCountries(payload[1..])
      case None => None
      case Some(rest) => Some([Project(payload[0])] + rest)
  }

  /** A record carrying exactly an entry's two strings. */
  function Unproject(e: CountryEntry): (r: CountryRecord)
    ensures Projectable(r) && Project(r) == e
  {
    CountryRecord(Some(CountryName(e.name)), Some(FlagLinks(e.flag)))
  }

  /** The projection loses nothing an entry holds: every list of entries is
      the image of the payload built from it. */
  lemma MapCountriesRoundTrip(entries: seq<CountryEntry>)
    ensures MapCountries(seq(|entries|, i requires 0 <= i < |entries| => Unproject(entries[i])))
              == Some(entries)
  {
    var payload := seq(|entries|, i requires 0 <= i < |entries| => Unproject(entries[i]));
    var r := MapCountries(payload);
    assert forall i | 0 <= i < |payload| :: Projectable(payload[i]);
    forall i | 0 <= i < |entries| ensures r.value[i] == entries[i] {
      assert payload[i] == Unproject(entries[i]);
      assert r.value[i].name == entries[i].name && r.value[i].flag == entries[i].flag;
    }
    assert r.value == entries;
  }

  /** The projection works record by record: mapping a concatenation is
      mapping each part, and either part failing fails the whole. */
  lemma {:induction false} MapCountriesAppend(p: seq<CountryRecord>, q: seq<CountryRecord>)
    ensures MapCountries(p + q).Some? <==> MapCountries(p).Some? && MapCountries(q).Some?
    ensures MapCountries(p + q).Some? ==>
              MapCountries(p + q).value == MapCountries(p).value + MapCountries(q).value
  {
    if p != [] {
      assert (p + q)[0] == p[0];
      assert (p + q)[1..] == p[1..] + q;
      MapCountriesAppend(p[1..], q);
    } else {
      assert p + q == q;
    }
  }

  /** How the request ended, as far as the mapping step is concerned. */
  datatype FetchOutcome = Received(payload: seq<CountryRecord>) | FetchFailed

  /** The list state at mount: `useState([])`. */
  const InitialCountries: seq<CountryEntry> := []

  /** The list after the request settles: replaced by the mapped payload, or
      left as it was when the request fails or the mapping throws. */
  function Load(current: seq<CountryEntry>, outcome: FetchOutcome): (next: seq<CountryEntry>)
    ensures outcome.Received? && MapCountries(outcome.payload).Some? ==>
              next == MapCountries(outcome.payload).value
    ensures outcome.FetchFailed? || MapCountries(outcome.payload).None? ==> next == current
  {
    match outcome
    case FetchFailed => current
    case Received(payload) =>
      match MapCountries(payload)
      case Some(entries) => entries
      case None => current
  }

  /** A response settles the list the same way however often it arrives:
      loading it again changes nothing, and a successful load does not depend
      on what the list held before. */
  lemma LoadIdempotent(current: seq<CountryEntry>, other: seq<CountryEntry>, outcome: FetchOutcome)
    ensures Load(Load(current, outcome), outcome) == Load(current, outcome)
    ensures outcome.Received? && MapCountries(outcome.payload).Some? ==>
              Load(current, outcome) == Load(other, outcome)
              && |Load(current, outcome)| == |outcome.payload|
  {
  }

  /** The values of the country select's options: the placeholder `""` and then
      each entry's name, in list order. */
  function CountryOptions(list: seq<CountryEntry>): (opts: seq<string>)
    ensures |opts| == |list| + 1 && opts[0] == ""
    ensures forall i | 0 <= i < |list| :: opts[i + 1] == list[i].name
  {
    [""] + seq(|list|, i requires 0 <= i < |list| => list[i].name)
  }

  /** A value is offered exactly when it is the placeholder or the name of
      some entry of the list. */
  lemma CountryOptionsMembership(list: seq<CountryEntry>, v: string)
    ensures v in CountryOptions(list) <==> v == "" || exists i | 0 <= i < |list| :: list[i].name == v
  {
  }

  /** When the request fails, or the payload has a record without `name` or
      `flags`, only the placeholder is offered. */
  lemma FailedLoadOffersPlaceholderOnly(outcome: FetchOutcome)
    requires outcome.FetchFailed? || MapCountries(outcome.payload).None?
    ensures CountryOptions(Load(InitialCountries, outcome)) == [""]
  {
  }

  /** After a successful load the select offers the placeholder and then the
      payload's common names in payload order. */
  lemma LoadedOptionsFollowPayload(payload: seq<CountryRecord>)
    requires forall i | 0 <= i < |payload| :: Projectable(payload[i])
    ensures |CountryOptions(Load(InitialCountries, Received(payload)))| == |payload| + 1
    ensures forall i | 0 <= i < |payload| ::
              CountryOptions(Load(InitialCountries, Received(payload)))[i + 1]
                == payload[i].name.value.common
  {
  }
}
