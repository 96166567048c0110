/** What the account handlers share: the password hashing library, seen
    only through its two operations, and the unique-email index of the
    users table. */
module Accounts {
  import opened Models

  /** bcrypt as two uninterpreted functions: `hash` turns a plain password
      into the stored form, `matches(plain, stored)` is `bcrypt.compare`. */
  datatype Crypto = Crypto(hash: string -> string, matches: (string, string) -> bool)

  /** `prisma.user.findUnique({ where: { email } })` finds a record. */
  predicate EmailTaken(users: map<UserId, User>, email: string) {
    exists id | id in users :: users[id].email == email
  }

  /** No two users share an email (the index is unique). */
  ghost predicate EmailsUnique(users: map<UserId, User>) {
    forall a, b | a in users && b in users && users[a].email == users[b].email :: a == b
  }
}
