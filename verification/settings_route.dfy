/** The account settings endpoint, `src/app/api/user/settings/route.ts`.

    PUT first changes the password (when both the current and the new one
    are given and the current one checks out), then changes the email (when
    one is given that differs from the stored one and nobody else holds it).
    The password update is committed before the email is looked at, so a
    request can fail on the email and still have changed the password. */
module SettingsRoute {
  import opened Models
  import opened Accounts

  /** The PUT body; an absent field is the empty string. */
  datatype SettingsBody = SettingsBody(email: string, currentPassword: string, newPassword: string)

  datatype PutResponse =
    | Unauthorized       // 401
    | UserNotFound       // 404
    | WrongPassword      // 400 "Current password is incorrect"
    | EmailInUse         // 400 "Email already in use"
    | Updated            // 200 { success: true }

  function PutStatus(r: PutResponse): int {
    match r
    case Unauthorized => 401
    case UserNotFound => 404
    case WrongPassword => 400
    case EmailInUse => 400
    case Updated => 200
  }

  /** The body asks for a password change. */
  predicate WantsPassword(body: SettingsBody) {
    body.currentPassword != "" && body.newPassword != ""
  }

  /** The body asks for an email change for a user whose email is `current`. */
  predicate WantsEmail(body: SettingsBody, current: string) {
    body.email != "" && body.email != current
  }

  /** The session names a user id (`session?.user?.id` is truthy). */
  predicate SignedIn(session: Option<UserId>) {
    session.Some? && session.value != ""
  }

  /** One PUT to the settings endpoint. */
  function UpdateSettings(st: Store, crypto: Crypto, session: Option<UserId>, body: SettingsBody): (out: Step<PutResponse>)
    ensures !SignedIn(session) ==> out == Step(st, Unauthorized)
    ensures SignedIn(session) && session.value !in st.users ==> out == Step(st, UserNotFound)
    // only the signed-in user's password and email can change
    ensures out.store.dpes == st.dpes && out.store.users.Keys == st.users.Keys
    ensures forall v | v in st.users && (session.None? || v != session.value) :: out.store.users[v] == st.users[v]
    ensures SignedIn(session) && session.value in st.users ==>
      var u := session.value;
      var old_, new_ := st.users[u], out.store.users[u];
      && new_ == old_.(password := new_.password, email := new_.email)
      // a wrong current password stops the request before anything is written
      && (WantsPassword(body) && !crypto.matches(body.currentPassword, old_.password) <==> out.response == WrongPassword)
      && (out.response == WrongPassword ==> out.store == st)
      // the password changes only through a verified change request
      && new_.password == (if WantsPassword(body) && crypto.matches(body.currentPassword, old_.password)
                           then crypto.hash(body.newPassword) else old_.password)
      // the email changes only to a new address nobody holds
      && (new_.email != old_.email ==>
            out.response == Updated && new_.email == body.email && !EmailTaken(st.users, body.email))
      && (out.response == EmailInUse <==>
            out.response != WrongPassword && WantsEmail(body, old_.email) && EmailTaken(st.users, body.email))
      && (out.response == Updated && WantsEmail(body, old_.email) ==> new_.email == body.email)
      // an empty or unchanged email leaves the stored one alone
      && new_.email == (if out.response == Updated && WantsEmail(body, old_.email) then body.email else old_.email)
      // a stored user gets 200 unless one of the two checks refused the request
      && (out.response == Updated <==> out.response != WrongPassword && out.response != EmailInUse)
  {
    if !SignedIn(session) then Step(st, Unauthorized)
    else if session.value !in st.users then Step(st, UserNotFound)
    else
      var u := session.value;
      var user := st.users[u];
      if WantsPassword(body) && !crypto.matches(body.currentPassword, user.password) then
        Step(st, WrongPassword)
      else
        var st1 :=
          if WantsPassword(body) then st.(users := st.users[u := user.(password := crypto.hash(body.newPassword))])
          else st;
        if WantsEmail(body, user.email) then
          if EmailTaken(st1.users, body.email) then Step(st1, EmailInUse)
          else Step(st1.(users := st1.users[u := st1.users[u].(email := body.email)]), Updated)
        else Step(st1, Updated)
  }

  /** The order of the two updates is observable: a valid password change
      sent together with a taken email is answered with 400 yet keeps the
      new password. */
  lemma PasswordSurvivesEmailConflict(st: Store, crypto: Crypto, u: UserId, body: SettingsBody)
    requires u != "" && u in st.users
    requires WantsPassword(body) && crypto.matches(body.currentPassword, st.users[u].password)
    requires WantsEmail(body, st.users[u].email) && EmailTaken(st.users, body.email)
    ensures PutStatus(UpdateSettings(st, crypto, Some(u), body).response) == 400
    ensures UpdateSettings(st, crypto, Some(u), body).store.users[u].password == crypto.hash(body.newPassword)
    ensures UpdateSettings(st, crypto, Some(u), body).store.users[u].email == st.users[u].email
  {
  }

  /** A PUT never lets two users end up with the same email. */
  lemma UpdateKeepsEmailsUnique(st: Store, crypto: Crypto, session: Option<UserId>, body: SettingsBody)
    requires EmailsUnique(st.users)
    ensures EmailsUnique(UpdateSettings(st, crypto, session, body).store.users)
  {
  }

  datatype GetResponse =
    | GetUnauthorized      // 401
    | GetUserNotFound      // 404
    | EmailOnly(email: string)

  function GetStatus(r: GetResponse): int {
    match r
    case GetUnauthorized => 401
    case GetUserNotFound => 404
    case EmailOnly(_) => 200
  }

  /** GET returns the signed-in user's email and nothing else. */
  function GetSettings(st: Store, session: Option<UserId>): (r: GetResponse)
    ensures r.GetUnauthorized? <==> !SignedIn(session)
    ensures r.GetUserNotFound? <==> SignedIn(session) && session.value !in st.users
    ensures r.EmailOnly? ==> r.email == st.users[session.value].email
  {
    if !SignedIn(session) then GetUnauthorized
    else if session.value !in st.users then GetUserNotFound
    else EmailOnly(st.users[session.value].email)
  }

  /** A successful PUT is visible to the next GET: it reports the requested
      email. */
  lemma GetAfterEmailChange(st: Store, crypto: Crypto, u: UserId, body: SettingsBody)
    requires u != "" && u in st.users
    requires UpdateSettings(st, crypto, Some(u), body).response == Updated
    requires WantsEmail(body, st.users[u].email)
    ensures GetSettings(UpdateSettings(st, crypto, Some(u), body).store, Some(u)) == EmailOnly(body.email)
  {
  }
}
