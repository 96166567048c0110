/** The DPE collection endpoint, `src/app/api/dpe/route.ts`: POST creates a
    profile after checking the required fields, GET filters the profiles by
    name and state. */
module DpeRoute {
  import opened Models
  import opened Lists
  import opened Text

  /** The POST body as it arrives: a string field that is absent is the
      empty string, a list that is absent is `None`. */
  datatype DpeBody = DpeBody(
    firstName: string,
    lastName: string,
    city: string,
    state: string,
    region: string,
    checkrideTypes: Option<seq<string>>,
    tags: Option<seq<string>>)

  datatype CreateResponse =
    | MissingFields       // 400 "Missing required fields"
    | Created(dpe: Dpe)

  function CreateStatus(r: CreateResponse): int {
    match r
    case MissingFields => 400
    case Created(_) => 200
  }

  /** Every required field is present and non-empty, including at least
      one checkride type. */
  predicate HasRequiredFields(b: DpeBody) {
    && b.firstName != "" && b.lastName != "" && b.city != ""
    && b.state != "" && b.region != ""
    && b.checkrideTypes.Some? && |b.checkrideTypes.value| > 0
  }

  /** One POST to the DPE endpoint. `newId` is the id the database assigns
      to the new record; it is fresh. */
  function CreateDpe(st: Store, body: DpeBody, newId: DpeId): (out: Step<CreateResponse>)
    requires newId !in st.dpes
    ensures out.store.users == st.users
    ensures out.response == MissingFields <==>
      (|| body.firstName == "" || body.lastName == "" || body.city == "" || body.state == "" || body.region == ""
       || body.checkrideTypes.None? || body.checkrideTypes.value == [])
    ensures out.response == MissingFields ==> out.store == st
    ensures out.response.Created? ==>
      var d := out.response.dpe;
      && out.store.dpes == st.dpes[newId := d]
      && d.id == newId
      && d.firstName == body.firstName && d.lastName == body.lastName
      && d.city == body.city && d.state == body.state && d.region == body.region
      && Some(d.checkrideTypes) == body.checkrideTypes && |d.checkrideTypes| > 0
      && d.tags == (if body.tags.Some? then body.tags.value else [])
      && d.savedByUserIds == [] && d.reviews == []
  {
    if !HasRequiredFields(body) then Step(st, MissingFields)
    else
      var d := Dpe(newId, body.firstName, body.lastName, body.city, body.state, body.region,
                   body.checkrideTypes.value, body.tags.GetOr([]), [], []);
      Step(st.(dpes := st.dpes[newId := d]), Created(d))
  }

  /** The `name` condition: a case-insensitive substring of the first or the
      last name. */
  predicate NameMatches(d: Dpe, name: string) {
    ContainsIgnoringCase(d.firstName, name) || ContainsIgnoringCase(d.lastName, name)
  }

  /** The `where` clause GET builds: each query parameter that is given adds
      its condition, and the conditions are conjoined. */
  predicate MatchesQuery(d: Dpe, name: string, state: string) {
    (name == "" || NameMatches(d, name)) && (state == "" || d.state == state)
  }

  /** GET: the profiles of `all` (in the order the store returns them) that
      satisfy the query; an absent parameter is the empty string. */
  function Search(all: seq<Dpe>, name: string, state: string): (r: seq<Dpe>)
    ensures forall d :: d in r <==> d in all && MatchesQuery(d, name, state)
    ensures |r| <= |all|
  {
    Filter(all, d => MatchesQuery(d, name, state))
  }

  /** With neither parameter every profile comes back, in order. */
  lemma SearchWithoutQueryReturnsAll(all: seq<Dpe>)
    ensures Search(all, "", "") == all
  {
    FilterKeepsAll(all, d => MatchesQuery(d, "", ""));
  }

  /** Giving both parameters is the same as filtering by name and then
      filtering that result by state. */
  lemma SearchConjoins(all: seq<Dpe>, name: string, state: string)
    ensures Search(all, name, state) == Search(Search(all, name, ""), "", state)
  {
    FilterFilter(all, d => MatchesQuery(d, name, ""), d => MatchesQuery(d, "", state),
                 d => MatchesQuery(d, name, state));
  }

  /** Searching for a profile's own last name, typed in any letter case,
      finds that profile. */
  lemma SearchFindsByLastName(all: seq<Dpe>, i: int, typed: string)
    requires 0 <= i < |all|
    requires typed != "" && LowerString(typed) == LowerString(all[i].lastName)
    ensures all[i] in Search(all, typed, "")
  {
    ContainsItself(all[i].lastName, typed);
  }
}
