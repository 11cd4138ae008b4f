/** The `callbacks.authorized` route check of `lib/auth.config.ts`. */
module AuthConfig {
  import opened Wrappers
  import opened Strings
  import opened Session

  const SignInPrefix := "/sign-in"
  const SignUpPrefix := "/sign-up"

  /** `!!auth?.user`. */
  predicate IsLoggedIn(auth: Option<Session>)
  {
    auth.Some? && auth.value.user.Some?
  }

  /** `isOnAuth`: a prefix test, so every path under the auth pages matches too. */
  predicate IsOnAuth(pathname: string)
  {
    StartsWith(pathname, SignInPrefix) || StartsWith(pathname, SignUpPrefix)
  }

  /**
   * `authorized`: the auth pages are open to everyone; every other path is
   * open exactly to a logged-in user.
   */
  function Authorized(auth: Option<Session>, pathname: string): (r: bool)
    ensures IsOnAuth(pathname) ==> r
    ensures !IsOnAuth(pathname) ==> (r <==> IsLoggedIn(auth))
    ensures IsLoggedIn(auth) ==> r
    ensures !r ==> !IsLoggedIn(auth) && !StartsWith(pathname, "/sign-in")
  {
    if IsOnAuth(pathname) then true
    else if !IsLoggedIn(auth) then false
    else true
  }

  /** Any path beginning with an auth page's path is open, logged in or not. */
  lemma {:induction false} AuthPagesOpen(auth: Option<Session>, suffix: string)
    ensures Authorized(auth, SignInPrefix + suffix)
    ensures Authorized(auth, SignUpPrefix + suffix)
  {
  }

  /** The verdict depends on the session only through whether it has a user. */
  lemma OnlyUserPresenceMatters(a1: Option<Session>, a2: Option<Session>, pathname: string)
    requires IsLoggedIn(a1) == IsLoggedIn(a2)
    ensures Authorized(a1, pathname) == Authorized(a2, pathname)
  {
  }
}
