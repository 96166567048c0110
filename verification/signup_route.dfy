/** Account creation, `src/app/api/auth/signup/route.ts`: required fields,
    a unique email, then one new user whose password is stored hashed. */
module SignupRoute {
  import opened Models
  import opened Accounts

  /** The POST body; an absent field is the empty string. The `isDPE` flag
      the body may carry is read and ignored by the handler. */
  datatype SignupBody = SignupBody(email: string, name: string, password: string)

  /** The projection the handler selects for its answer: no password. */
  datatype UserView = UserView(id: UserId, email: string, name: string)

  datatype SignupResponse =
    | MissingFields          // 400 "Missing fields"
    | EmailExists            // 400 "Email already exists"
    | Created(user: UserView)

  function SignupStatus(r: SignupResponse): int {
    match r
    case MissingFields => 400
    case EmailExists => 400
    case Created(_) => 200
  }

  /** One POST to the signup endpoint. `newId` is the id the database
      assigns to the new record; it is fresh. */
  function Signup(st: Store, crypto: Crypto, body: SignupBody, newId: UserId): (out: Step<SignupResponse>)
    requires newId !in st.users
    ensures (body.email == "" || body.name == "" || body.password == "") <==> out.response == MissingFields
    ensures out.response == EmailExists <==> out.response != MissingFields && EmailTaken(st.users, body.email)
    ensures !out.response.Created? ==> out.store == st
    ensures out.response.Created? ==>
      && out.store.dpes == st.dpes
      && out.store.users == st.users[newId := User(newId, body.name, body.email, crypto.hash(body.password), [])]
      && out.response.user == UserView(newId, body.email, body.name)
  {
    if body.email == "" || body.name == "" || body.password == "" then Step(st, MissingFields)
    else if EmailTaken(st.users, body.email) then Step(st, EmailExists)
    else
      var user := User(newId, body.name, body.email, crypto.hash(body.password), []);
      Step(st.(users := st.users[newId := user]), Created(UserView(newId, body.email, body.name)))
  }

  /** A successful signup adds exactly one user, and the answer describes
      the stored record field for field (minus the password). */
  lemma SignupAddsOneUser(st: Store, crypto: Crypto, body: SignupBody, newId: UserId)
    requires newId !in st.users
    requires Signup(st, crypto, body, newId).response.Created?
    ensures var users' := Signup(st, crypto, body, newId).store.users;
      && users'.Keys == st.users.Keys + {newId}
      && |users'| == |st.users| + 1
      && forall v | v in st.users :: users'[v] == st.users[v]
  {
  }

  /** Signup never lets two users share an email. */
  lemma SignupKeepsEmailsUnique(st: Store, crypto: Crypto, body: SignupBody, newId: UserId)
    requires newId !in st.users
    requires EmailsUnique(st.users)
    ensures EmailsUnique(Signup(st, crypto, body, newId).store.users)
  {
  }

  /** Signing up twice with the same email never yields two accounts: the
      second request is refused whatever the other fields say. */
  lemma SecondSignupRefused(st: Store, crypto: Crypto, b1: SignupBody, b2: SignupBody, id1: UserId, id2: UserId)
    requires id1 !in st.users
    requires Signup(st, crypto, b1, id1).response.Created?
    requires id2 !in Signup(st, crypto, b1, id1).store.users
    requires b2.email == b1.email && b2.name != "" && b2.password != ""
    ensures Signup(Signup(st, crypto, b1, id1).store, crypto, b2, id2).response == EmailExists
  {
    var users1 := Signup(st, crypto, b1, id1).store.users;
    assert users1[id1].email == b2.email;
  }
}
