/** The state changes of the profile page, `src/app/profile/page.tsx`: the
    tab chosen from the query string, the tag picker of the review editor,
    the local lists after an unsave or a review edit, the password form's
    confirmation guard, and the counters it displays. */
module ProfilePage {
  import opened Models
  import opened Lists
  import SettingsRoute
  import SaveRoute
  import Accounts

  // ---------------------------------------------------------------------
  // Tabs

  datatype Tab = ProfileTab | SettingsTab | ReviewsTab | SavedTab

  /** The query-string spelling of a tab. */
  function TabName(t: Tab): string {
    match t
    case ProfileTab => "profile"
    case SettingsTab => "settings"
    case ReviewsTab => "reviews"
    case SavedTab => "saved"
  }

  /** The tab a query value names, if it is one of the four. */
  function ParseTab(s: string): (r: Option<Tab>)
    ensures forall t :: r == Some(t) <==> s == TabName(t)
  {
    if s == "profile" then Some(ProfileTab)
    else if s == "settings" then Some(SettingsTab)
    else if s == "reviews" then Some(ReviewsTab)
    else if s == "saved" then Some(SavedTab)
    else None
  }

  /** The effect on `searchParams`: the active tab follows `?tab=` only
      when its value is on the whitelist. */
  function TabFromQuery(active: Tab, query: Option<string>): (r: Tab)
    ensures r != active ==> query.Some? && query.value == TabName(r)
    ensures query.Some? && ParseTab(query.value).Some? ==> r == ParseTab(query.value).value
    ensures (query.None? || ParseTab(query.value).None?) ==> r == active
  {
    if query.Some? && ParseTab(query.value).Some? then ParseTab(query.value).value else active
  }

  /** Every tab can be reached through its own query value. */
  lemma EveryTabReachable(active: Tab, t: Tab)
    ensures TabFromQuery(active, Some(TabName(t))) == t
  {
  }

  // ---------------------------------------------------------------------
  // Review editor

  const MaxTags: nat := 3
  const MaxContentLength: nat := 2000

  /** A click on a tag button: an active tag is removed, an inactive one is
      added unless three tags are already active. */
  function ToggleTag(tags: seq<string>, tag: string): (r: seq<string>)
    ensures tag in r <==> tag !in tags && |tags| < MaxTags
    ensures forall t :: t != tag ==> (t in r <==> t in tags)
    ensures |tags| <= MaxTags ==> |r| <= MaxTags
    ensures tag in tags ==> |r| < |tags|
    ensures tag in tags ==> r == RemoveAll(tags, tag)
    ensures tag !in tags && |tags| < MaxTags ==> r == tags + [tag]
    ensures tag !in tags && |tags| >= MaxTags ==> r == tags
  {
    if tag !in tags && |tags| >= MaxTags then tags
    else if tag in tags then RemoveAll(tags, tag)
    else tags + [tag]
  }

  /** The picker never introduces a repeated tag. */
  lemma ToggleTagKeepsDistinct(tags: seq<string>, tag: string)
    requires Distinct(tags)
    ensures Distinct(ToggleTag(tags, tag))
  {
    if tag !in tags && |tags| < MaxTags {
      var r := tags + [tag];
      forall i, j | 0 <= i < j < |r| ensures r[i] != r[j] {
        if j == |tags| {
          assert r[i] in tags;
        }
      }
    }
  }

  /** Clicking a tag twice from the inactive state, when there is room,
      leaves the tags as they were. */
  lemma ToggleTagTwice(tags: seq<string>, tag: string)
    requires tag !in tags && |tags| < MaxTags
    ensures ToggleTag(ToggleTag(tags, tag), tag) == tags
  {
    RemoveAfterAppend(tags, tag);
    RemoveAbsent(tags, tag);
  }

  /** The number of UTF-16 code units a character takes: two for a
      character outside the Basic Multilingual Plane, one otherwise. */
  function Utf16Units(c: char): nat {
    if c as int >= 0x1_0000 then 2 else 1
  }

  /** `String.prototype.length`: the number of UTF-16 code units. */
  function Utf16Length(s: string): (n: nat)
    ensures |s| <= n <= 2 * |s|
  {
    if |s| == 0 then 0 else Utf16Units(s[0]) + Utf16Length(s[1..])
  }

  /** The length of a concatenation is the sum of the lengths. */
  lemma {:induction false} Utf16LengthConcat(a: string, b: string)
    ensures Utf16Length(a + b) == Utf16Length(a) + Utf16Length(b)
  {
    if |a| == 0 {
      assert a + b == b;
    } else {
      assert (a + b)[0] == a[0] && (a + b)[1..] == a[1..] + b;
      Utf16LengthConcat(a[1..], b);
    }
  }

  /** Text made only of characters of the Basic Multilingual Plane has as
      many code units as characters. */
  lemma {:induction false} Utf16LengthBmp(s: string)
    requires forall i | 0 <= i < |s| :: s[i] as int < 0x1_0000
    ensures Utf16Length(s) == |s|
  {
    if |s| > 0 {
      Utf16LengthBmp(s[1..]);
    }
  }

  /** The "characters remaining" counter under the review text box:
      2000 minus the length of the content in UTF-16 code units. */
  function CharsRemaining(content: string): (r: int)
    ensures r + Utf16Length(content) == MaxContentLength
    ensures Utf16Length(content) <= MaxContentLength <==> r >= 0
    ensures MaxContentLength - 2 * |content| <= r <= MaxContentLength - |content|
  {
    MaxContentLength - Utf16Length(content)
  }

  /** Typing more text lowers the counter by the code units typed: one per
      character of the Basic Multilingual Plane, two for any other. */
  lemma CharsRemainingAfterTyping(content: string, typed: string)
    ensures CharsRemaining(content + typed) == CharsRemaining(content) - Utf16Length(typed)
    ensures (forall i | 0 <= i < |typed| :: typed[i] as int < 0x1_0000) ==>
      CharsRemaining(content + typed) == CharsRemaining(content) - |typed|
  {
    Utf16LengthConcat(content, typed);
    if forall i | 0 <= i < |typed| :: typed[i] as int < 0x1_0000 {
      Utf16LengthBmp(typed);
    }
  }

  /** One emoji takes two of the 2000 units. */
  lemma EmojiCountsTwice()
    ensures CharsRemaining("\U{1F600}") == 1998
  {
    assert "\U{1F600}"[1..] == "";
  }

  /** `c.repeat(n)`. */
  function Repeat(c: char, n: nat): (r: string)
    ensures |r| == n && forall i | 0 <= i < n :: r[i] == c
  {
    seq(n, _ => c)
  }

  /** The star line of a review: `'★'.repeat(rating) + '☆'.repeat(5 - rating)`.
      A negative repeat count throws, which `None` stands for. */
  function StarLine(rating: int): (r: Option<string>)
    ensures r.None? <==> rating < 0 || rating > 5
    ensures r.Some? ==> |r.value| == 5
    ensures r.Some? ==> forall i | 0 <= i < 5 :: r.value[i] == if i < rating then '★' else '☆'
  {
    if rating < 0 || rating > 5 then None
    else Some(Repeat('★', rating) + Repeat('☆', 5 - rating))
  }

  /** The number of filled stars on a line. */
  function Filled(line: string): nat {
    if |line| == 0 then 0 else (if line[0] == '★' then 1 else 0) + Filled(line[1..])
  }

  lemma {:induction false} FilledRepeat(a: nat, b: nat)
    ensures Filled(Repeat('★', a) + Repeat('☆', b)) == a
    decreases a + b
  {
    var line := Repeat('★', a) + Repeat('☆', b);
    if a > 0 {
      assert line[1..] == Repeat('★', a - 1) + Repeat('☆', b);
      FilledRepeat(a - 1, b);
    } else if b > 0 {
      assert line[1..] == Repeat('★', 0) + Repeat('☆', b - 1);
      FilledRepeat(0, b - 1);
    }
  }

  /** A rating from 0 to 5 shows that many filled stars out of five. */
  lemma StarsShowRating(rating: int)
    requires 0 <= rating <= 5
    ensures StarLine(rating).Some? && Filled(StarLine(rating).value) == rating
  {
    FilledRepeat(rating, 5 - rating);
  }

  /** The DPE summary the reviews tab shows next to each review. */
  datatype DpeSummary = DpeSummary(id: DpeId, firstName: string, lastName: string)

  /** A review as the reviews tab holds it. */
  datatype ReviewEntry = ReviewEntry(review: Review, dpe: DpeSummary)

  /** `handleEditSubmit(reviewId)` after the server answered. `answer` is
      the updated record the server returned, or `None` when there was no
      form or the request failed. The spread replaces every column of the
      matching entries and keeps their DPE summary. */
  function MergeEdit(entries: seq<ReviewEntry>, reviewId: string, answer: Option<Review>): (r: seq<ReviewEntry>)
    ensures |r| == |entries|
    ensures answer.None? ==> r == entries
    ensures forall i | 0 <= i < |entries| && entries[i].review.id != reviewId :: r[i] == entries[i]
    ensures answer.Some? ==> forall i | 0 <= i < |entries| && entries[i].review.id == reviewId ::
      r[i].review == answer.value && r[i].dpe == entries[i].dpe
  {
    if answer.None? then entries
    else
      seq(|entries|, i requires 0 <= i < |entries| =>
        if entries[i].review.id == reviewId then entries[i].(review := answer.value) else entries[i])
  }

  /** Merging the same answer again changes nothing, as long as the server
      returned the record it was asked to update. */
  lemma MergeEditIdempotent(entries: seq<ReviewEntry>, reviewId: string, answer: Option<Review>)
    requires answer.Some? ==> answer.value.id == reviewId
    ensures MergeEdit(MergeEdit(entries, reviewId, answer), reviewId, answer) == MergeEdit(entries, reviewId, answer)
  {
  }

  // ---------------------------------------------------------------------
  // Saved tab

  /** A saved DPE as the saved tab lists it. */
  datatype SavedDpe = SavedDpe(id: DpeId, firstName: string, lastName: string, region: string, ratings: seq<int>)

  predicate NotId(d: SavedDpe, dpeId: DpeId) {
    d.id != dpeId
  }

  /** `handleUnsave(dpeId)`: after a successful request the entries with
      that id leave the list; a failed request leaves it alone. */
  function Unsave(saved: seq<SavedDpe>, dpeId: DpeId, ok: bool): (r: seq<SavedDpe>)
    ensures !ok ==> r == saved
    ensures ok ==> forall d :: d in r <==> d in saved && d.id != dpeId
    ensures ok ==> forall d :: multiset(r)[d] == if d.id == dpeId then 0 else multiset(saved)[d]
  {
    if !ok then saved
    else
      FilterCount(saved, d => NotId(d, dpeId));
      Filter(saved, d => NotId(d, dpeId))
  }

  /** The entries that stay keep their order: unsaving from a list split in
      two is unsaving from each part. */
  lemma UnsaveKeepsOrder(a: seq<SavedDpe>, b: seq<SavedDpe>, dpeId: DpeId)
    ensures Unsave(a + b, dpeId, true) == Unsave(a, dpeId, true) + Unsave(b, dpeId, true)
  {
    FilterConcat(a, b, d => NotId(d, dpeId));
  }

  /** The saved tab lists an entry for the DPE. */
  predicate IsListed(saved: seq<SavedDpe>, dpeId: DpeId) {
    exists i | 0 <= i < |saved| :: saved[i].id == dpeId
  }

  /** `handleUnsave` as written: it posts to the save toggle and, on any
      200 answer, drops the entry, whatever `saved` the server reports. */
  function HandleUnsave(st: Store, saved: seq<SavedDpe>, u: UserId, dpeId: DpeId): (r: (Store, seq<SavedDpe>))
    ensures r.0 == SaveRoute.Toggle(st, Some(u), Some(dpeId)).store
    ensures SaveRoute.Toggle(st, Some(u), Some(dpeId)).response.Toggled? ==> !IsListed(r.1, dpeId)
  {
    var out := SaveRoute.Toggle(st, Some(u), Some(dpeId));
    (out.store, Unsave(saved, dpeId, SaveRoute.StatusCode(out.response) == 200))
  }

  /** When the server no longer holds the DPE on the user's list (it was
      unsaved elsewhere while the tab stayed open), the toggle saves it
      again, yet the tab drops it: the two disagree. */
  lemma HandleUnsaveCanDiverge()
    ensures var u, d := "u", "d";
      var st := Store(map[u := User(u, "", "", "", [])],
                      map[d := Dpe(d, "", "", "", "", "", [], [], [], [])]);
      var saved := [SavedDpe(d, "", "", "", [])];
      var r := HandleUnsave(st, saved, u, d);
      d in r.0.users[u].savedDpeIds && !IsListed(r.1, d)
  {
  }

  /** `handleUnsave` following the server's answer: the entry goes only
      when the server reports `saved: false`. */
  function HandleUnsaveChecked(st: Store, saved: seq<SavedDpe>, u: UserId, dpeId: DpeId): (r: (Store, seq<SavedDpe>))
    ensures r.0 == SaveRoute.Toggle(st, Some(u), Some(dpeId)).store
    ensures SaveRoute.Toggle(st, Some(u), Some(dpeId)).response == SaveRoute.Toggled(false) ==> !IsListed(r.1, dpeId)
    ensures SaveRoute.Toggle(st, Some(u), Some(dpeId)).response != SaveRoute.Toggled(false) ==> r.1 == saved
  {
    var out := SaveRoute.Toggle(st, Some(u), Some(dpeId));
    (out.store, Unsave(saved, dpeId, out.response == SaveRoute.Toggled(false)))
  }

  /** With the corrected handler, the tab lists the DPE afterwards exactly
      when the server's list for the user holds it. */
  lemma HandleUnsaveCheckedAgrees(st: Store, saved: seq<SavedDpe>, u: UserId, dpeId: DpeId)
    requires u in st.users && dpeId in st.dpes && dpeId != ""
    requires IsListed(saved, dpeId)
    ensures var r := HandleUnsaveChecked(st, saved, u, dpeId);
      IsListed(r.1, dpeId) <==> dpeId in r.0.users[u].savedDpeIds
  {
  }

  // ---------------------------------------------------------------------
  // Settings tab

  datatype SettingsState = SettingsState(
    isEditingEmail: bool,
    isEditingPassword: bool,
    email: string,
    currentPassword: string,
    newPassword: string,
    confirmPassword: string)

  /** What a form handler did: the state afterwards and the request body it
      sent, if any. */
  datatype Submitted = Submitted(state: SettingsState, request: Option<SettingsRoute.SettingsBody>)

  /** `handleUpdatePassword`. A mismatch between the new password and its
      confirmation returns before any request; otherwise the body carries
      the two passwords only, and a successful response (`ok`) clears the
      form. */
  function UpdatePassword(s: SettingsState, ok: bool): (r: Submitted)
    ensures s.newPassword != s.confirmPassword ==> r == Submitted(s, None)
    ensures s.newPassword == s.confirmPassword ==>
      r.request == Some(SettingsRoute.SettingsBody("", s.currentPassword, s.newPassword))
    ensures s.newPassword == s.confirmPassword && ok ==>
      r.state == s.(isEditingPassword := false, currentPassword := "", newPassword := "", confirmPassword := "")
    ensures !ok ==> r.state == s
  {
    if s.newPassword != s.confirmPassword then Submitted(s, None)
    else
      var body := SettingsRoute.SettingsBody("", s.currentPassword, s.newPassword);
      if ok then
        Submitted(s.(isEditingPassword := false, currentPassword := "", newPassword := "", confirmPassword := ""), Some(body))
      else Submitted(s, Some(body))
  }

  /** `handleUpdateEmail`: the body carries the email only; a successful
      response closes the email editor. */
  function UpdateEmail(s: SettingsState, ok: bool): (r: Submitted)
    ensures r.request == Some(SettingsRoute.SettingsBody(s.email, "", ""))
    ensures r.state == if ok then s.(isEditingEmail := false) else s
  {
    Submitted(if ok then s.(isEditingEmail := false) else s, Some(SettingsRoute.SettingsBody(s.email, "", "")))
  }

  /** The two settings forms cannot interfere on the server: the password
      form never changes an email and the email form never changes a
      password. */
  lemma FormsAreIndependent(st: Store, crypto: Accounts.Crypto, session: Option<UserId>, s: SettingsState, ok: bool)
    ensures UpdatePassword(s, ok).request.Some? ==>
      var out := SettingsRoute.UpdateSettings(st, crypto, session, UpdatePassword(s, ok).request.value);
      forall v | v in st.users :: out.store.users[v].email == st.users[v].email
    ensures var out := SettingsRoute.UpdateSettings(st, crypto, session, UpdateEmail(s, ok).request.value);
      forall v | v in st.users :: out.store.users[v].password == st.users[v].password
  {
  }
}
