/**
 * Server-side guards of `lib/auth.ts`. A call to `redirect(path)` ends the
 * request; here it is the `Redirect(path)` outcome of a guard.
 */
module Auth {
  import opened Wrappers
  import opened Session

  /** What a guard yields: the value it returns, or the page it redirects to. */
  datatype Guard<+T> = Ok(value: T) | Redirect(path: string)

  const SignInPath := "/sign-in"
  const HomePath := "/"

  /** `isTeacher(role)`: teachers and administrators may author courses. */
  predicate IsTeacher(role: string)
  {
    role == "TEACHER" || role == "ADMIN"
  }

  /** `isAdmin(role)`. */
  predicate IsAdmin(role: string)
  {
    role == "ADMIN"
  }

  /** Every administrator is also a teacher, whatever the role string. */
  lemma AdminIsTeacher(role: string)
    ensures IsAdmin(role) ==> IsTeacher(role)
    ensures IsTeacher(role) <==> role in {"TEACHER", "ADMIN"}
    ensures IsAdmin(role) <==> role == "ADMIN"
  {
  }

  /**
   * `getCurrentUser`: no session user id means no user, and the table is not
   * consulted; otherwise the row with that id, if there is one.
   */
  function GetCurrentUser(session: Option<Session>, db: UserTable): (r: Option<DbUser>)
    ensures UserId(session).None? ==> r.None?
    ensures r.Some? <==> UserId(session).Some? && UserId(session).value in db
    ensures r.Some? ==> r.value == db[UserId(session).value]
  {
    match UserId(session)
    case None => None
    case Some(id) => FindUnique(db, id)
  }

  /** Without a session user id the result is the same for every user table. */
  lemma NoLookupWithoutId(session: Option<Session>, db1: UserTable, db2: UserTable)
    requires UserId(session).None?
    ensures GetCurrentUser(session, db1) == GetCurrentUser(session, db2) == None
  {
  }

  /** `requireAuth`: the session's user id, or a redirect to the sign-in page. */
  function RequireAuth(session: Option<Session>): (r: Guard<string>)
    ensures r.Redirect? <==> UserId(session).None?
    ensures r.Redirect? ==> r.path == SignInPath
    ensures r.Ok? ==> r.value != "" && RawUserId(session) == Some(r.value)
  {
    match UserId(session)
    case None => Redirect(SignInPath)
    case Some(id) => Ok(id)
  }

  /**
   * `requireTeacher`: no user sends to sign-in, a user who is neither teacher
   * nor administrator is sent home, anyone else is returned unchanged.
   */
  function RequireTeacher(session: Option<Session>, db: UserTable): (r: Guard<DbUser>)
    ensures r == Redirect(SignInPath) <==> GetCurrentUser(session, db).None?
    ensures r == Redirect(HomePath) <==>
      GetCurrentUser(session, db).Some? && !IsTeacher(GetCurrentUser(session, db).value.role)
    ensures r.Ok? <==> GetCurrentUser(session, db).Some? && IsTeacher(GetCurrentUser(session, db).value.role)
    ensures r.Ok? ==> Some(r.value) == GetCurrentUser(session, db)
  {
    match GetCurrentUser(session, db)
    case None => Redirect(SignInPath)
    case Some(user) =>
      if user.role != "TEACHER" && user.role != "ADMIN" then Redirect(HomePath) else Ok(user)
  }

  /**
   * `requireAdmin`: no user sends to sign-in, a non-administrator is sent
   * home, an administrator is returned unchanged.
   */
  function RequireAdmin(session: Option<Session>, db: UserTable): (r: Guard<DbUser>)
    ensures r == Redirect(SignInPath) <==> GetCurrentUser(session, db).None?
    ensures r == Redirect(HomePath) <==>
      GetCurrentUser(session, db).Some? && !IsAdmin(GetCurrentUser(session, db).value.role)
    ensures r.Ok? <==> GetCurrentUser(session, db).Some? && IsAdmin(GetCurrentUser(session, db).value.role)
    ensures r.Ok? ==> Some(r.value) == GetCurrentUser(session, db)
  {
    match GetCurrentUser(session, db)
    case None => Redirect(SignInPath)
    case Some(user) =>
      if user.role != "ADMIN" then Redirect(HomePath) else Ok(user)
  }

  /** Whoever passes the administrator guard passes the teacher guard, as the same user. */
  lemma AdminPassesTeacherGuard(session: Option<Session>, db: UserTable)
    ensures RequireAdmin(session, db).Ok? ==> RequireTeacher(session, db) == RequireAdmin(session, db)
    ensures RequireTeacher(session, db) == Redirect(SignInPath) <==> RequireAdmin(session, db) == Redirect(SignInPath)
  {
  }
}
