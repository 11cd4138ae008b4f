/**
 * The decision table of `NavbarRoutes` in `components/navbar-routes.tsx`:
 * which page the path names, and which action link the profile's role gets.
 * Only what is rendered is modelled, not how it is styled.
 */
module Navbar {
  import opened Wrappers
  import opened Strings

  /** The part of the signed-in profile the navbar reads. */
  datatype Profile = Profile(id: string, role: string)

  /** A navigation link: its text and its target. */
  datatype Link = Link(text: string, href: string)

  const ExitLink := Link("Exit", "/dashboard")
  const TeacherModeLink := Link("Teacher Mode", "/teacher/courses")

  /** What the navbar renders: the search input or not, the action links in order, the user button or not. */
  datatype Rendered = Rendered(searchInput: bool, links: seq<Link>, userButton: bool)

  /** The page classification derived from the path. */
  datatype PageFlags = PageFlags(isTeacherPage: bool, isPlayerPage: bool, isSearchPage: bool, isDashboardPage: bool)

  /**
   * The four page flags. An absent path makes every flag false (optional
   * chaining yields `undefined`, and `undefined` equals no string).
   */
  function Flags(pathname: Option<string>): (f: PageFlags)
    ensures pathname.None? ==> f == PageFlags(false, false, false, false)
    ensures f.isTeacherPage <==> pathname.Some? && StartsWith(pathname.value, "/teacher")
    ensures f.isPlayerPage <==> pathname.Some? && exists i :: OccursAt(pathname.value, "/chapters", i)
    ensures f.isSearchPage <==> pathname == Some("/search")
    ensures f.isDashboardPage <==> pathname in {Some("/dashboard"), Some("/"), Some("/search")}
  {
    match pathname
    case None => PageFlags(false, false, false, false)
    case Some(p) =>
      ContainsAt(p, "/chapters");
      PageFlags(StartsWith(p, "/teacher"), Contains(p, "/chapters"), p == "/search",
                p == "/dashboard" || p == "/" || p == "/search")
  }

  /** `currentProfile?.role === role`. */
  predicate HasRole(profile: Option<Profile>, role: string)
  {
    profile.Some? && profile.value.role == role
  }

  /** The rendered navbar: the three role fragments in source order, then the user button. */
  function NavbarRoutes(pathname: Option<string>, profile: Option<Profile>): (r: Rendered)
    ensures r.userButton && |r.links| <= 1
    ensures r.searchInput <==> pathname == Some("/search")
    ensures r.links != [] <==> HasRole(profile, "TEACHER") || (HasRole(profile, "STUDENT") && Flags(pathname).isPlayerPage)
  {
    var f := Flags(pathname);
    var adminLinks: seq<Link> := [];
    var teacherLinks :=
      if HasRole(profile, "TEACHER") then
        (if f.isTeacherPage || f.isPlayerPage then [ExitLink] else [TeacherModeLink])
      else [];
    var studentLinks := if HasRole(profile, "STUDENT") && f.isPlayerPage then [ExitLink] else [];
    Rendered(f.isSearchPage, adminLinks + teacherLinks + studentLinks, true)
  }

  /** The search input appears exactly on `/search`, whatever the role. */
  lemma SearchOnlyOnSearchPage(pathname: Option<string>, p1: Option<Profile>, p2: Option<Profile>)
    ensures NavbarRoutes(pathname, p1).searchInput <==> pathname == Some("/search")
    ensures NavbarRoutes(pathname, p1).searchInput == NavbarRoutes(pathname, p2).searchInput
  {
  }

  /** A teacher gets Exit on teacher and player pages and Teacher Mode everywhere else. */
  lemma TeacherLink(pathname: Option<string>, profile: Option<Profile>)
    requires HasRole(profile, "TEACHER")
    ensures var f := Flags(pathname);
      NavbarRoutes(pathname, profile).links ==
        if f.isTeacherPage || f.isPlayerPage then [ExitLink] else [TeacherModeLink]
  {
  }

  /** A student gets Exit on a player page and nothing elsewhere. */
  lemma StudentLink(pathname: Option<string>, profile: Option<Profile>)
    requires HasRole(profile, "STUDENT")
    ensures NavbarRoutes(pathname, profile).links ==
      if Flags(pathname).isPlayerPage then [ExitLink] else []
  {
  }

  /** An administrator, any other role and a missing profile get no action link. */
  lemma NoLinkForOthers(pathname: Option<string>, profile: Option<Profile>)
    requires !HasRole(profile, "TEACHER") && !HasRole(profile, "STUDENT")
    ensures NavbarRoutes(pathname, profile).links == []
  {
  }

  /** At most one action link is rendered, and the user button always is. */
  lemma AtMostOneLink(pathname: Option<string>, profile: Option<Profile>)
    ensures |NavbarRoutes(pathname, profile).links| <= 1
    ensures NavbarRoutes(pathname, profile).userButton
  {
  }
}
