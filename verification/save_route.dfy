/** The save/unsave toggle of `src/app/api/dpe/save/route.ts`.

    The user/DPE "saved" relation is stored twice: as `savedDpeIds` on the
    user and as `savedByUserIds` on the DPE. One POST either appends to both
    lists or filters the id out of both, choosing the branch from the
    user's list alone. The two updates are issued side by side; each one
    commits exactly when its own record exists, and a missing record makes
    the request fail with 500. */
module SaveRoute {
  import opened Models
  import opened Lists

  datatype SaveResponse =
    | Unauthorized        // no session
    | MissingDpeId        // `dpeId` absent or empty
    | Toggled(saved: bool)
    | ServerError         // an update hit a missing record

  function StatusCode(r: SaveResponse): int {
    match r
    case Unauthorized => 401
    case MissingDpeId => 400
    case Toggled(_) => 200
    case ServerError => 500
  }

  /** The request passes both early exits. */
  predicate Accepted(session: Option<UserId>, dpeId: Option<DpeId>) {
    session.Some? && dpeId.Some? && dpeId.value != ""
  }

  /** The branch test: the DPE is on the user's list. A user that is not in
      the store has no list, which reads as "not saved". */
  predicate AlreadySaved(st: Store, u: UserId, d: DpeId) {
    u in st.users && d in st.users[u].savedDpeIds
  }

  /** Overwrites the user's half of the relation. */
  function SetSavedDpeIds(st: Store, u: UserId, ids: seq<DpeId>): Store
    requires u in st.users
  {
    st.(users := st.users[u := st.users[u].(savedDpeIds := ids)])
  }

  /** Overwrites the DPE's half of the relation. */
  function SetSavedByUserIds(st: Store, d: DpeId, ids: seq<UserId>): Store
    requires d in st.dpes
  {
    st.(dpes := st.dpes[d := st.dpes[d].(savedByUserIds := ids)])
  }

  /** One POST to the save endpoint. */
  function Toggle(st: Store, session: Option<UserId>, dpeId: Option<DpeId>): (out: Step<SaveResponse>)
    ensures session.None? ==> out == Step(st, Unauthorized)
    ensures session.Some? && !Accepted(session, dpeId) ==> out == Step(st, MissingDpeId)
    // no record is created or deleted (see ToggleFrame for the rest)
    ensures out.store.users.Keys == st.users.Keys && out.store.dpes.Keys == st.dpes.Keys
    // save branch: append to both lists
    ensures Accepted(session, dpeId) && !AlreadySaved(st, session.value, dpeId.value) ==>
      var u, d := session.value, dpeId.value;
      && (u in st.users ==> out.store.users[u].savedDpeIds == st.users[u].savedDpeIds + [d])
      && (d in st.dpes ==> out.store.dpes[d].savedByUserIds == st.dpes[d].savedByUserIds + [u])
      && out.response == if u in st.users && d in st.dpes then Toggled(true) else ServerError
    // unsave branch: filter every occurrence out of both lists
    ensures Accepted(session, dpeId) && AlreadySaved(st, session.value, dpeId.value) ==>
      var u, d := session.value, dpeId.value;
      && out.store.users[u].savedDpeIds == RemoveAll(st.users[u].savedDpeIds, d)
      && (d in st.dpes ==> out.store.dpes[d].savedByUserIds == RemoveAll(st.dpes[d].savedByUserIds, u))
      && out.response == if d in st.dpes then Toggled(false) else ServerError
  {
    match session
    case None => Step(st, Unauthorized)
    case Some(u) =>
      if dpeId.None? || dpeId.value == "" then Step(st, MissingDpeId)
      else
        var d := dpeId.value;
        if AlreadySaved(st, u, d) then
          var st1 := SetSavedDpeIds(st, u, RemoveAll(st.users[u].savedDpeIds, d));
          if d in st.dpes then
            Step(SetSavedByUserIds(st1, d, RemoveAll(st.dpes[d].savedByUserIds, u)), Toggled(false))
          else
            Step(st1, ServerError)
        else
          var st1 := if u in st.users then SetSavedDpeIds(st, u, st.users[u].savedDpeIds + [d]) else st;
          var st2 := if d in st.dpes then SetSavedByUserIds(st1, d, st.dpes[d].savedByUserIds + [u]) else st1;
          Step(st2, if u in st.users && d in st.dpes then Toggled(true) else ServerError)
  }

  /** Nothing else changes: no record is created or deleted, only the two
      id lists can change, and only on the session's user and the named
      DPE. */
  lemma ToggleFrame(st: Store, session: Option<UserId>, dpeId: Option<DpeId>)
    ensures var out := Toggle(st, session, dpeId);
      && (forall v | v in st.users ::
            out.store.users[v] == st.users[v].(savedDpeIds := out.store.users[v].savedDpeIds))
      && (forall e | e in st.dpes ::
            out.store.dpes[e] == st.dpes[e].(savedByUserIds := out.store.dpes[e].savedByUserIds))
      && (forall v | v in st.users && (session.None? || v != session.value) :: out.store.users[v] == st.users[v])
      && (forall e | e in st.dpes && (dpeId.None? || e != dpeId.value) :: out.store.dpes[e] == st.dpes[e])
  {
    UsersFrame(st, session, dpeId);
    DpesFrame(st, session, dpeId);
  }

  /** The users' half of `ToggleFrame`. */
  lemma UsersFrame(st: Store, session: Option<UserId>, dpeId: Option<DpeId>)
    ensures var out := Toggle(st, session, dpeId);
      && (forall v | v in st.users ::
            out.store.users[v] == st.users[v].(savedDpeIds := out.store.users[v].savedDpeIds))
      && (forall v | v in st.users && (session.None? || v != session.value) :: out.store.users[v] == st.users[v])
  {
  }

  /** The DPEs' half of `ToggleFrame`. */
  lemma DpesFrame(st: Store, session: Option<UserId>, dpeId: Option<DpeId>)
    ensures var out := Toggle(st, session, dpeId);
      && (forall e | e in st.dpes ::
            out.store.dpes[e] == st.dpes[e].(savedByUserIds := out.store.dpes[e].savedByUserIds))
      && (forall e | e in st.dpes && (dpeId.None? || e != dpeId.value) :: out.store.dpes[e] == st.dpes[e])
  {
    if Accepted(session, dpeId) {
      var u, d := session.value, dpeId.value;
      if AlreadySaved(st, u, d) {
        var st1 := SetSavedDpeIds(st, u, RemoveAll(st.users[u].savedDpeIds, d));
        assert st1.dpes == st.dpes;
      } else {
        var st1 := if u in st.users then SetSavedDpeIds(st, u, st.users[u].savedDpeIds + [d]) else st;
        assert st1.dpes == st.dpes;
      }
    }
  }

  /** The two halves of the relation agree on every pair of stored records:
      the user lists the DPE exactly when the DPE lists the user. */
  ghost predicate Symmetric(st: Store) {
    forall u, d | u in st.users && d in st.dpes ::
      (d in st.users[u].savedDpeIds) <==> (u in st.dpes[d].savedByUserIds)
  }

  /** One toggle, whatever its outcome, keeps a symmetric store symmetric. */
  lemma ToggleKeepsSymmetry(st: Store, session: Option<UserId>, dpeId: Option<DpeId>)
    requires Symmetric(st)
    ensures Symmetric(Toggle(st, session, dpeId).store)
  {
    var st' := Toggle(st, session, dpeId).store;
    if Accepted(session, dpeId) {
      var u0, d0 := session.value, dpeId.value;
      ToggleFrame(st, session, dpeId);
      forall u, d | u in st'.users && d in st'.dpes
        ensures (d in st'.users[u].savedDpeIds) <==> (u in st'.dpes[d].savedByUserIds)
      {
        assert (d in st.users[u].savedDpeIds) <==> (u in st.dpes[d].savedByUserIds);
        if u != u0 {
          assert st'.users[u] == st.users[u];
          assert u in st'.dpes[d].savedByUserIds <==> u in st.dpes[d].savedByUserIds;
        } else if d != d0 {
          assert st'.dpes[d] == st.dpes[d];
          assert d in st'.users[u].savedDpeIds <==> d in st.users[u].savedDpeIds;
        } else {
          assert d in st'.users[u].savedDpeIds <==> !AlreadySaved(st, u0, d0);
        }
      }
    }
  }

  /** A save of a pair of stored records that are not yet linked. */
  lemma SaveStep(st: Store, u: UserId, d: DpeId)
    requires u in st.users && d in st.dpes && d != "" && !AlreadySaved(st, u, d)
    ensures Toggle(st, Some(u), Some(d)) ==
      Step(SetSavedByUserIds(SetSavedDpeIds(st, u, st.users[u].savedDpeIds + [d]), d, st.dpes[d].savedByUserIds + [u]),
           Toggled(true))
  {
  }

  /** An unsave of a pair the user lists, with the DPE stored. */
  lemma UnsaveStep(st: Store, u: UserId, d: DpeId)
    requires d in st.dpes && d != "" && AlreadySaved(st, u, d)
    ensures Toggle(st, Some(u), Some(d)) ==
      Step(SetSavedByUserIds(SetSavedDpeIds(st, u, RemoveAll(st.users[u].savedDpeIds, d)), d,
                             RemoveAll(st.dpes[d].savedByUserIds, u)),
           Toggled(false))
  {
  }

  /** Saving and then unsaving restores both lists (and so the whole store)
      when the relation was symmetric and the DPE was not yet saved. */
  lemma ToggleTwiceRestores(st: Store, u: UserId, d: DpeId)
    requires Symmetric(st)
    requires u in st.users && d in st.dpes && d != ""
    requires d !in st.users[u].savedDpeIds
    ensures Toggle(st, Some(u), Some(d)).response == Toggled(true)
    ensures Toggle(Toggle(st, Some(u), Some(d)).store, Some(u), Some(d)) == Step(st, Toggled(false))
  {
    var a, b := st.users[u].savedDpeIds, st.dpes[d].savedByUserIds;
    assert u !in b;
    SaveStep(st, u, d);
    var st1 := SetSavedByUserIds(SetSavedDpeIds(st, u, a + [d]), d, b + [u]);
    assert st1.users[u].savedDpeIds == a + [d] && st1.dpes[d].savedByUserIds == b + [u];
    UnsaveStep(st1, u, d);
    RemoveAfterAppend(a, d);
    RemoveAbsent(a, d);
    RemoveAfterAppend(b, u);
    RemoveAbsent(b, u);
    WriteBack(st, u, d, a + [d], b + [u]);
  }

  /** Writing back the lists a store had restores that store. */
  lemma WriteBack(st: Store, u: UserId, d: DpeId, x: seq<DpeId>, y: seq<UserId>)
    requires u in st.users && d in st.dpes
    ensures var st1 := SetSavedByUserIds(SetSavedDpeIds(st, u, x), d, y);
      SetSavedByUserIds(SetSavedDpeIds(st1, u, st.users[u].savedDpeIds), d, st.dpes[d].savedByUserIds) == st
  {
    var st1 := SetSavedByUserIds(SetSavedDpeIds(st, u, x), d, y);
    var st2 := SetSavedByUserIds(SetSavedDpeIds(st1, u, st.users[u].savedDpeIds), d, st.dpes[d].savedByUserIds);
    assert st2.users == st.users;
    assert st2.dpes == st.dpes;
  }

  /** Without symmetry the round trip can fail: when the DPE lists the user
      but the user does not list the DPE, saving and unsaving removes the
      user from the DPE's list instead of restoring it. */
  lemma ToggleTwiceNeedsSymmetry(st: Store, u: UserId, d: DpeId)
    requires u in st.users && d in st.dpes && d != ""
    requires d !in st.users[u].savedDpeIds && u in st.dpes[d].savedByUserIds
    ensures var st2 := Toggle(Toggle(st, Some(u), Some(d)).store, Some(u), Some(d)).store;
      && st2.dpes[d].savedByUserIds == RemoveAll(st.dpes[d].savedByUserIds, u)
      && u !in st2.dpes[d].savedByUserIds
      && st2 != st
  {
    var a, b := st.users[u].savedDpeIds, st.dpes[d].savedByUserIds;
    SaveStep(st, u, d);
    var st1 := SetSavedByUserIds(SetSavedDpeIds(st, u, a + [d]), d, b + [u]);
    assert AlreadySaved(st1, u, d);
    RemoveAfterAppend(b, u);
    var st2 := Toggle(st1, Some(u), Some(d)).store;
    assert st2.dpes[d].savedByUserIds != st.dpes[d].savedByUserIds;
  }

  /** A concrete case: a DPE that lists only the user ends with an empty
      list. */
  lemma ToggleTwiceNeedsSymmetryExample()
    ensures var u := "u"; var d := "d";
      var st := Store(map[u := User(u, "", "", "", [])],
                      map[d := Dpe(d, "", "", "", "", "", [], [], [u], [])]);
      Toggle(Toggle(st, Some(u), Some(d)).store, Some(u), Some(d)).store.dpes[d].savedByUserIds == []
  {
    var u := "u"; var d := "d";
    var st := Store(map[u := User(u, "", "", "", [])],
                    map[d := Dpe(d, "", "", "", "", "", [], [], [u], [])]);
    ToggleTwiceNeedsSymmetry(st, u, d);
    RemoveOnly([u], u);
  }

  /** The branch, the response and the users' side of the update are decided
      by the users table and the existence of the DPE alone: the contents of
      the DPE's list never influence them. */
  lemma BranchIgnoresDpeSide(st1: Store, st2: Store, session: Option<UserId>, dpeId: Option<DpeId>)
    requires st1.users == st2.users && st1.dpes.Keys == st2.dpes.Keys
    ensures Toggle(st1, session, dpeId).response == Toggle(st2, session, dpeId).response
    ensures Toggle(st1, session, dpeId).store.users == Toggle(st2, session, dpeId).store.users
  {
  }
}
