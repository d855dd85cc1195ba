/** The User schema as far as saving is concerned: three required strings, and unique
    indexes on username and on email. */
module UserModel {
  import opened Documents

  datatype User = User(username: string, email: string, password: string)

  /** No two stored users share a username or an email. */
  ghost predicate UniqueCredentials(us: seq<Doc<User>>) {
    forall d, e ::
      (d in us && e in us && (d.body.username == e.body.username || d.body.email == e.body.email))
      ==> d == e
  }

  /** `new User(data).save()` succeeds: every required field is a non-empty string and
      neither unique index already holds the value. */
  predicate Insertable(us: seq<Doc<User>>, u: User) {
    && u.username != "" && u.email != "" && u.password != ""
    && (forall d :: d in us ==> d.body.username != u.username && d.body.email != u.email)
  }

  /** Saving only what is insertable keeps the indexes unique. */
  lemma InsertKeepsCredentialsUnique(us: seq<Doc<User>>, d: Doc<User>)
    requires UniqueCredentials(us) && Insertable(us, d.body)
    ensures UniqueCredentials(us + [d])
  {
  }
}
