/**
  The record shapes the cleanup sweep reads: the columns of the `users` and
  `sessions` tables that the selection looks at, or that tell records apart.
  Uniqueness, nullability and cascades are the database's rules, not code of
  the repository, and are not part of these types.
 */
module Records {

  /** A `DateTime` column, as a whole number of microseconds on one clock. */
  type Timestamp = int

  /** A column that may hold NULL (`None`). */
  datatype Option<T> = None | Some(value: T)

  /**
    A row of `users`: the key, the lifecycle columns and the invitation time,
    which the schema lets be NULL.
   */
  datatype User = User(id: int, activated: bool, inviteCode: string, invitedAt: Option<Timestamp>)

  /** A row of `sessions`: the owning user's key, the token and the login time, which may be NULL. */
  datatype Session = Session(user: int, token: string, createdAt: Option<Timestamp>)

  /** The contents of the two tables. */
  datatype Store = Store(users: seq<User>, sessions: seq<Session>)
}
