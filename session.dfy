/**
 * The shapes the authentication helpers read: the session returned by the
 * authentication library and the user table, queried by primary key.
 * Both are inputs of the model; neither is fetched.
 */
module Session {
  import opened Wrappers

  /** The `user` object of a session; every field is optional. */
  datatype SessionUser = SessionUser(id: Option<string>, name: Option<string>, email: Option<string>)

  /** A session; its `user` may be missing. An absent session is `None`. */
  datatype Session = Session(user: Option<SessionUser>)

  /** A row of the user table. The role is the stored enum value (`STUDENT`, `TEACHER`, `ADMIN`). */
  datatype DbUser = DbUser(id: string, name: Option<string>, email: Option<string>, role: string)

  /** The user table, keyed by id. */
  type UserTable = map<string, DbUser>

  /** `session?.user?.id`, before any truthiness test. */
  function RawUserId(session: Option<Session>): Option<string>
  {
    if session.Some? && session.value.user.Some? then session.value.user.value.id else None
  }

  /**
   * The session's user id where the source treats it as present: `!userId`
   * and `userId || null` both reject a missing id and the empty string.
   */
  function UserId(session: Option<Session>): (r: Option<string>)
    ensures r.Some? ==> r.value != "" && RawUserId(session) == r
    ensures r.None? <==> (RawUserId(session) == None || RawUserId(session) == Some(""))
  {
    match RawUserId(session)
    case Some(id) => if id != "" then Some(id) else None
    case None => None
  }

  /** `db.user.findUnique({ where: { id } })`. */
  function FindUnique(db: UserTable, id: string): (r: Option<DbUser>)
    ensures r.Some? <==> id in db
    ensures r.Some? ==> r.value == db[id]
  {
    if id in db then Some(db[id]) else None
  }
}
