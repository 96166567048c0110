/** The form of the "Add DPE" page, `src/app/dpe/add/page.tsx`: its initial
    state, the checkride-type checkboxes, and what a submission sends to the
    DPE endpoint. */
module AddDpePage {
  import opened Models
  import opened Lists
  import DpeRoute

  /** The form as the page first shows it. */
  function InitialForm(): (f: CreateDpeRequest)
    ensures f.firstName == "" && f.lastName == "" && f.city == "" && f.state == "" && f.region == ""
    ensures f.checkrideTypes == [] && f.tags == []
  {
    CreateDpeRequest("", "", "", "", "", [], [])
  }

  /** The checkbox for `t` is shown ticked. */
  predicate IsChecked(f: CreateDpeRequest, t: string) {
    t in f.checkrideTypes
  }

  /** The `onChange` of the checkbox for `t`: ticking appends the type,
      unticking drops every copy of it; nothing else in the form moves. */
  function CheckboxChange(f: CreateDpeRequest, t: string, checked: bool): (r: CreateDpeRequest)
    ensures r == f.(checkrideTypes := r.checkrideTypes)
    ensures checked ==> r.checkrideTypes == f.checkrideTypes + [t]
    ensures !checked ==> !IsChecked(r, t)
    ensures !checked ==> forall u :: u != t ==> (IsChecked(r, u) <==> IsChecked(f, u))
    ensures !checked ==> forall u :: u != t ==> multiset(r.checkrideTypes)[u] == multiset(f.checkrideTypes)[u]
  {
    if checked then f.(checkrideTypes := f.checkrideTypes + [t])
    else f.(checkrideTypes := RemoveAll(f.checkrideTypes, t))
  }

  /** A click on a checkbox: the browser flips its ticked state and then
      reports the new state to `onChange`. */
  function Click(f: CreateDpeRequest, t: string): CreateDpeRequest {
    CheckboxChange(f, t, !IsChecked(f, t))
  }

  /** A click flips its own checkbox and no other. */
  lemma ClickFlips(f: CreateDpeRequest, t: string, u: string)
    ensures IsChecked(Click(f, t), t) <==> !IsChecked(f, t)
    ensures u != t ==> (IsChecked(Click(f, t), u) <==> IsChecked(f, u))
  {
  }

  /** Ticking a box and unticking it again restores the form. */
  lemma ClickTwiceRestores(f: CreateDpeRequest, t: string)
    requires !IsChecked(f, t)
    ensures Click(Click(f, t), t) == f
  {
    RemoveAfterAppend(f.checkrideTypes, t);
    RemoveAbsent(f.checkrideTypes, t);
  }

  /** Unticking keeps the order of the other types: removing a type from a
      list split in two is removing it from each part. */
  lemma UntickKeepsOrder(f: CreateDpeRequest, a: seq<string>, b: seq<string>, t: string)
    requires f.checkrideTypes == a + b
    ensures CheckboxChange(f, t, false).checkrideTypes == RemoveAll(a, t) + RemoveAll(b, t)
  {
    RemoveConcat(a, b, t);
  }

  /** Clicks never put a type in the list twice. */
  lemma ClickKeepsDistinct(f: CreateDpeRequest, t: string)
    requires Distinct(f.checkrideTypes)
    ensures Distinct(Click(f, t).checkrideTypes)
  {
    if !IsChecked(f, t) {
      var r := f.checkrideTypes + [t];
      forall i, j | 0 <= i < j < |r| ensures r[i] != r[j] {
        if j == |f.checkrideTypes| {
          assert r[i] in f.checkrideTypes;
        }
      }
    }
  }

  /** The JSON body `handleSubmit` posts: the form as it stands, both lists
      present. */
  function ToBody(f: CreateDpeRequest): (b: DpeRoute.DpeBody)
    ensures b.checkrideTypes == Some(f.checkrideTypes) && b.tags == Some(f.tags)
    ensures b.firstName == f.firstName && b.lastName == f.lastName && b.city == f.city
    ensures b.state == f.state && b.region == f.region
  {
    DpeRoute.DpeBody(f.firstName, f.lastName, f.city, f.state, f.region, Some(f.checkrideTypes), Some(f.tags))
  }

  /** The browser submits the form only when every input marked `required`
      is filled: the names, the city, the state and the region. The
      checkboxes carry no such mark. */
  function Submit(f: CreateDpeRequest): (r: Option<DpeRoute.DpeBody>)
    ensures r.Some? <==> f.firstName != "" && f.lastName != "" && f.city != "" && f.state != "" && f.region != ""
    ensures r.Some? ==> r.value == ToBody(f)
  {
    if f.firstName != "" && f.lastName != "" && f.city != "" && f.state != "" && f.region != ""
    then Some(ToBody(f)) else None
  }

  /** A form the browser lets through is refused by the server exactly when
      no checkride type is ticked; otherwise the server stores it as typed. */
  lemma SubmittedFormRefusedIffNoType(st: Store, f: CreateDpeRequest, newId: DpeId)
    requires newId !in st.dpes
    requires Submit(f).Some?
    ensures DpeRoute.CreateDpe(st, Submit(f).value, newId).response == DpeRoute.MissingFields
            <==> f.checkrideTypes == []
    ensures f.checkrideTypes != [] ==>
      var d := DpeRoute.CreateDpe(st, Submit(f).value, newId).response.dpe;
      d == Dpe(newId, f.firstName, f.lastName, f.city, f.state, f.region, f.checkrideTypes, f.tags, [], [])
  {
  }

  /** The browser never sends the untouched form, whose required fields are
      empty; were its body posted anyway, the server would refuse it. */
  lemma InitialFormRefused(st: Store, newId: DpeId)
    requires newId !in st.dpes
    ensures Submit(InitialForm()).None?
    ensures DpeRoute.CreateDpe(st, ToBody(InitialForm()), newId).response == DpeRoute.MissingFields
  {
  }
}
