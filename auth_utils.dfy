/** The session helpers of `lib/auth-utils.ts`. */
module AuthUtils {
  import opened Wrappers
  import opened Session
  import Auth

  /** `getCurrentUser`: `session?.user || null`. */
  function GetCurrentUser(session: Option<Session>): (r: Option<SessionUser>)
    ensures r.Some? <==> session.Some? && session.value.user.Some?
    ensures r.Some? ==> r == session.value.user
  {
    if session.Some? then session.value.user else None
  }

  /** `getCurrentUserId`: `session?.user?.id || null`; an empty id reads as none. */
  function GetCurrentUserId(session: Option<Session>): (r: Option<string>)
    ensures session.None? || session.value.user.None? ==> r.None?
    ensures r.Some? <==> RawUserId(session).Some? && RawUserId(session).value != ""
    ensures r.Some? ==> r == RawUserId(session)
  {
    UserId(session)
  }

  /**
   * `getCurrentUserWithDetails`: no session user id gives null without a
   * lookup; otherwise the table row for that id.
   */
  function GetCurrentUserWithDetails(session: Option<Session>, db: UserTable): (r: Option<DbUser>)
    ensures GetCurrentUserId(session).None? ==> r.None?
    ensures r.Some? <==> GetCurrentUserId(session).Some? && GetCurrentUserId(session).value in db
    ensures r.Some? ==> r.value == db[GetCurrentUserId(session).value]
  {
    if UserId(session).None? then None else FindUnique(db, UserId(session).value)
  }

  /** The two files' `getCurrentUser` with a table lookup agree on every input. */
  lemma DetailsAgreesWithAuth(session: Option<Session>, db: UserTable)
    ensures GetCurrentUserWithDetails(session, db) == Auth.GetCurrentUser(session, db)
  {
  }

  /**
   * The id `isTeacher(userId?)` looks up: `userId || getCurrentUserId()`.
   * A non-empty argument wins; an absent or empty one falls back to the session.
   */
  function ChosenId(userId: Option<string>, session: Option<Session>): (r: Option<string>)
    ensures userId.Some? && userId.value != "" ==> r == userId
    ensures userId.None? || userId.value == "" ==> r == GetCurrentUserId(session)
    ensures r.Some? ==> r.value != ""
  {
    if userId.Some? && userId.value != "" then userId else GetCurrentUserId(session)
  }

  /**
   * `isTeacher(userId?)`: false when no id is available; otherwise true
   * exactly when the table holds that user with role TEACHER or ADMIN.
   */
  function IsTeacher(userId: Option<string>, session: Option<Session>, db: UserTable): (r: bool)
    ensures ChosenId(userId, session).None? ==> !r
    ensures r <==> ChosenId(userId, session).Some? && ChosenId(userId, session).value in db
                   && Auth.IsTeacher(db[ChosenId(userId, session).value].role)
  {
    match ChosenId(userId, session)
    case None => false
    case Some(id) =>
      var user := FindUnique(db, id);
      (user.Some? && user.value.role == "TEACHER") || (user.Some? && user.value.role == "ADMIN")
  }

  /** A non-empty argument decides alone: the session is not consulted. */
  lemma {:induction false} ArgumentTakesPrecedence(id: string, s1: Option<Session>, s2: Option<Session>, db: UserTable)
    requires id != ""
    ensures IsTeacher(Some(id), s1, db) == IsTeacher(Some(id), s2, db)
    ensures IsTeacher(Some(id), s1, db) <==> id in db && Auth.IsTeacher(db[id].role)
  {
  }

  /** An absent or empty argument means the session's own user is checked. */
  lemma {:induction false} FallsBackToSession(userId: Option<string>, session: Option<Session>, db: UserTable)
    requires userId.None? || userId == Some("")
    ensures IsTeacher(userId, session, db) == IsTeacher(GetCurrentUserId(session), session, db)
  {
  }

  /** With no id anywhere the answer is false for every user table. */
  lemma NoIdNoLookup(session: Option<Session>, db: UserTable)
    requires GetCurrentUserId(session).None?
    ensures !IsTeacher(None, session, db) && !IsTeacher(Some(""), session, db)
  {
  }
}
