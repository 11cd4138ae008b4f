# Course progress and access rules of an e-learning platform, in Dafny

This project models the decision logic of a Next.js learning platform
(courses made of video chapters with quizzes; students, teachers and
administrators):

- **Course progress** (`actions/get-progress.ts`): a published chapter is
  fully complete when the learner has a completed video-progress row for it
  and either it has no published quiz or every published quiz has a passed
  attempt. Progress is complete chapters over published chapters, times 100.
  The three store queries become inputs (`Option`s, `None` being a query that
  throws). The counting loop is a method proved against a recursive
  function that defines the count. The percentage is exact `real`
  arithmetic, with JavaScript's NaN as an explicit value.
- **Server guards** (`lib/auth.ts`, `lib/auth-utils.ts`): role predicates,
  `requireAuth`/`requireTeacher`/`requireAdmin` as `Ok(value) | Redirect(path)`,
  and the session helpers. The session and the user table (a map keyed by id)
  are inputs.
- **Route authorisation** (`lib/auth.config.ts`): the `authorized` callback.
- **Navbar** (`components/navbar-routes.tsx`): the page flags derived from
  the path and the action link each role gets.
- **Avatar initials** (`components/user-button.tsx`): `split`, first
  characters, `join`, upper-case, `slice(0, 2)`.
- **Environment check** (`lib/env-check.ts`): the missing required variables
  and the verdict.

Modules: `Wrappers` (Option), `Strings` (`startsWith`, `includes`, ASCII
`toUpperCase`), `Session` (session and user-table shapes), `Progress`,
`ProgressProperties`, `Auth`, `AuthUtils`, `AuthConfig`, `Navbar`,
`UserButton`, `EnvCheck`. Every module has its own `.dfy` file.

The per-chapter rule is stated twice in `actions/get-progress.ts`: the
comments at lines 59 and 77 say a chapter is complete when all its quizzes
are passed, and line 78 compares the number of distinct passed quiz ids with
the number of quiz ids. The model follows line 78.
`ProgressProperties.ChapterCompleteIff` and
`ProgressProperties.ChapterRowCompleteIff` prove that the comparison means
"every published quiz passed" whenever the quiz rows' ids are distinct, as
primary keys are.

## Model

| member | source | states |
|---|---|---|
| Progress.PublishedQuizIds | actions/get-progress.ts:15-22 | only published quizzes' ids are selected, at most one per quiz row |
| ProgressProperties.PublishedQuizIdsDistinct | actions/get-progress.ts:15-22 | with distinct quiz rows, the selected ids have no duplicate and there is exactly one per published quiz |
| ProgressProperties.PublishedQuizIdsConcat | actions/get-progress.ts:15-22 | the selection of a concatenation is the concatenation of the selections |
| Progress.PublishedChapters | actions/get-progress.ts:8-24 | a chapter is returned iff it is a published chapter of the course, with its published quiz ids |
| ProgressProperties.PublishedChaptersDistinct | actions/get-progress.ts:8-27 | with distinct chapter rows, the returned chapters' ids have no duplicate, there is exactly one chapter per published chapter row of the course, and the set of ids has one element per chapter |
| ProgressProperties.PublishedChaptersConcat | actions/get-progress.ts:8-24 | the chapters returned for a concatenation of rows are the concatenation of the chapters returned for each part |
| Progress.ChapterIds | actions/get-progress.ts:27 | an id is in the id list iff it is the id of a published chapter |
| Progress.VideoCompleted | actions/get-progress.ts:30-41 | a chapter id is selected iff it is published and this user has a completed progress row for it |
| Progress.PassedQuizIds | actions/get-progress.ts:60-75 | the de-duplicated ids of this chapter's quizzes that this user has a passed attempt for |
| Progress.CountComplete | actions/get-progress.ts:44-81 | the count of fully complete chapters never exceeds the number of published chapters |
| Progress.CountFullyCompleted | actions/get-progress.ts:44-81 | the loop computes exactly that count; it fails only when it reaches an attempt query and that query fails |
| Progress.Percentage | actions/get-progress.ts:85-86 | NaN iff there is no published chapter; otherwise a value in [0, 100] whose product with the chapter count is completed × 100; 100 iff every chapter is complete |
| Progress.ProgressAsWritten | actions/get-progress.ts:3-93 | 0 when the chapter query or the progress query fails, and 0 when the attempt query fails and the loop reaches it; NaN only when no chapter is published; any other value lies in [0, 100] |
| Progress.GetProgress | actions/get-progress.ts:3-93 | the result is the as-written progress: 0 on a failed query, NaN without chapters, else the percentage; never outside [0, 100] |
| ProgressProperties.NoVideoNeverCounts | actions/get-progress.ts:46-51 | a chapter without a completed video never counts, whatever its attempts |
| ProgressProperties.VideoWithoutQuizzesCounts | actions/get-progress.ts:53-57 | a chapter with a completed video and no published quiz always counts |
| ProgressProperties.CompleteMeansAllPassed | actions/get-progress.ts:59-80 | a counted chapter has its video done and a passed attempt by this user for each of its quizzes |
| Progress.ChapterComplete | actions/get-progress.ts:46-80 | a counted chapter has its video done; a chapter with its video done and no quiz counts; a chapter with quizzes and no passed attempt does not |
| ProgressProperties.ChapterCompleteIff | actions/get-progress.ts:59-80 | with distinct quiz ids, a chapter counts iff its video is done and every quiz has a passed attempt by this user |
| ProgressProperties.ChapterRowCompleteIff | actions/get-progress.ts:15-80 | with distinct quiz rows, a chapter row counts iff its video is done and every one of its published quiz rows has a passed attempt by this user |
| ProgressProperties.RepeatedPassCountsOnce | actions/get-progress.ts:74-78 | a second passed attempt on the same quiz leaves the passed-quiz set unchanged |
| ProgressProperties.IgnoredAttempt | actions/get-progress.ts:61-72 | another user's attempt or a failed attempt leaves the count unchanged |
| ProgressProperties.CountMonotone | actions/get-progress.ts:44-81 | if chapters' verdicts only improve, the count does not drop; if they agree, the counts are equal |
| ProgressProperties.ChapterCompleteMonotone | actions/get-progress.ts:46-80 | more completed videos and more attempts never undo a chapter's completion |
| ProgressProperties.ZeroChaptersGiveNaN | actions/get-progress.ts:85-86 | whenever no chapter row is a published chapter of the course (none at all, only unpublished ones, only other courses'), the as-written result is NaN |
| ProgressProperties.NaNExactlyWithoutChapters | actions/get-progress.ts:85-86 | the as-written result is NaN iff no query failed and no chapter is published |
| ProgressProperties.CorrectedPercentage | actions/get-progress.ts:85-86 | the corrected percentage is 0 without chapters, else the as-written value; always in [0, 100] |
| ProgressProperties.CorrectedPercentageMonotone | actions/get-progress.ts:85-86 | more complete chapters never give a smaller percentage |
| ProgressProperties.ProgressCorrected | actions/get-progress.ts:85-92 | the corrected progress lies in [0, 100], equals the as-written number when there is one, and is 0 where that is NaN |
| ProgressProperties.UnreachedAttemptsCountUnchanged | actions/get-progress.ts:46-81 | when no chapter has its video done and quizzes to check, the attempts do not change the count |
| ProgressProperties.UnreachedAttemptQueryIgnored | actions/get-progress.ts:46-92 | when the loop never reaches the attempt query, a failed attempt query gives the same result as any successful one |
| ProgressProperties.UnselectedChapterIgnored | actions/get-progress.ts:8-12 | an unpublished chapter row or one of another course changes nothing, wherever it sits among the rows |
| ProgressProperties.UnpublishedQuizIgnored | actions/get-progress.ts:15-22 | an unpublished quiz, wherever it sits among the chapter's quizzes, does not change the chapter the query returns |
| ProgressProperties.IrrelevantProgressRowIgnored | actions/get-progress.ts:30-41 | a progress row of another user, an incomplete one, or one outside the published chapters changes nothing |
| ProgressProperties.IrrelevantAttemptIgnored | actions/get-progress.ts:61-72 | another user's attempt or a failed attempt changes nothing |
| ProgressProperties.MoreProgressNeverLowers | actions/get-progress.ts:46-86 | one more progress row never lowers the progress |
| ProgressProperties.MoreAttemptsNeverLower | actions/get-progress.ts:60-86 | one more attempt never lowers the progress |
| Session.UserId | lib/auth.ts:9-10 | the session's user id counts as present iff it exists and is non-empty |
| Session.FindUnique | lib/auth-utils.ts:48-52 | a lookup finds a user iff the table holds that id, and returns that row |
| Auth.AdminIsTeacher | lib/auth.ts:61-67 | `isTeacher` holds exactly for TEACHER and ADMIN, `isAdmin` exactly for ADMIN, and every admin is a teacher |
| Auth.GetCurrentUser | lib/auth.ts:5-20 | no session id gives null; otherwise the table row for that id, if any |
| Auth.NoLookupWithoutId | lib/auth.ts:9-11 | without a session id the result is null for every user table |
| Auth.RequireAuth | lib/auth.ts:22-31 | redirects to /sign-in iff there is no user id; otherwise returns that non-empty id |
| Auth.RequireTeacher | lib/auth.ts:33-45 | no user redirects to /sign-in; a role other than TEACHER/ADMIN redirects to /; otherwise the user itself |
| Auth.RequireAdmin | lib/auth.ts:47-59 | no user redirects to /sign-in; a non-ADMIN role redirects to /; otherwise the user itself |
| Auth.AdminPassesTeacherGuard | lib/auth.ts:33-59 | a user accepted by requireAdmin is accepted by requireTeacher, and both send the same requests to sign-in |
| AuthUtils.GetCurrentUser | lib/auth-utils.ts:5-8 | null exactly when there is no session or no session user |
| AuthUtils.GetCurrentUserId | lib/auth-utils.ts:11-14 | null when there is no session, no user, or a missing or empty id; otherwise the id |
| AuthUtils.GetCurrentUserWithDetails | lib/auth-utils.ts:17-31 | null, whatever the table, when there is no session id; otherwise the table row for that id, if any |
| AuthUtils.DetailsAgreesWithAuth | lib/auth-utils.ts:17-31 | agrees on every input with the lookup of lib/auth.ts |
| AuthUtils.ChosenId | lib/auth-utils.ts:35 | a non-empty argument wins; an absent or empty one falls back to the session id |
| AuthUtils.IsTeacher | lib/auth-utils.ts:34-45 | false without an id; otherwise true iff the looked-up user exists with role TEACHER or ADMIN |
| AuthUtils.ArgumentTakesPrecedence | lib/auth-utils.ts:35-44 | with a non-empty argument the session is irrelevant and the answer is that user's role |
| AuthUtils.FallsBackToSession | lib/auth-utils.ts:35 | an absent or empty argument checks the session's own user |
| AuthUtils.NoIdNoLookup | lib/auth-utils.ts:37 | with no id anywhere the answer is false for every user table |
| AuthConfig.Authorized | lib/auth.config.ts:8-23 | auth pages are always authorised; any other path iff a user is present; a logged-in user everywhere |
| AuthConfig.AuthPagesOpen | lib/auth.config.ts:10-15 | every path beginning with /sign-in or /sign-up is authorised, logged in or not |
| AuthConfig.OnlyUserPresenceMatters | lib/auth.config.ts:9-10 | the verdict depends only on whether a user is present and on the path |
| Strings.ContainsAt | components/navbar-routes.tsx:20 | the `includes` test holds iff the substring occurs at some position |
| Navbar.Flags | components/navbar-routes.tsx:19-22 | teacher page iff the path starts with /teacher, player page iff it contains /chapters, search page iff it is /search; an absent path makes every flag false |
| Navbar.NavbarRoutes | components/navbar-routes.tsx:28-74 | the user button always shows; at most one action link; search input iff the path is /search; a link iff teacher, or student on a player page |
| Navbar.SearchOnlyOnSearchPage | components/navbar-routes.tsx:21 | the search input is shown iff the path is /search, for every profile |
| Navbar.TeacherLink | components/navbar-routes.tsx:43-60 | a teacher gets exactly Exit to /dashboard on teacher and player pages, exactly Teacher Mode to /teacher/courses elsewhere |
| Navbar.StudentLink | components/navbar-routes.tsx:63-70 | a student gets exactly Exit to /dashboard on a player page and no link elsewhere |
| Navbar.NoLinkForOthers | components/navbar-routes.tsx:24-40 | an admin, any other role, or no profile gets no action link |
| Navbar.AtMostOneLink | components/navbar-routes.tsx:24-72 | at most one action link is rendered and the user button always is |
| Strings.Upper | components/user-button.tsx:26 | upper-casing keeps the length and upper-cases each ASCII letter |
| UserButton.Split | components/user-button.tsx:23 | splitting on spaces gives at least one piece and no piece contains a space |
| UserButton.JoinSplit | components/user-button.tsx:23 | joining the pieces with spaces gives the name back |
| UserButton.FirstCharsAreWordStarts | components/user-button.tsx:23-25 | the first characters of the pieces, empty pieces giving nothing, are exactly the non-space characters that open the name or follow a space, in order |
| UserButton.WordStartsNoSpace | components/user-button.tsx:24-25 | no word start is a space |
| UserButton.Take2 | components/user-button.tsx:27 | exactly the first two characters, or the whole string when it is shorter |
| UserButton.Initials | components/user-button.tsx:21-28 | at most two characters; "U" for a missing or empty name |
| UserButton.InitialsAreWordStarts | components/user-button.tsx:21-28 | the initials are the first two word starts of the name, upper-cased, none a space |
| UserButton.SingleWordOneInitial | components/user-button.tsx:22-27 | a name without spaces gives exactly its first character, upper-cased |
| UserButton.TwoWordsTwoInitials | components/user-button.tsx:23-27 | two space-separated words give both first characters, upper-cased, in order |
| UserButton.OnlySpacesNoInitials | components/user-button.tsx:21-28 | a non-empty name of spaces only gives empty initials |
| UserButton.Render | components/user-button.tsx:16-28 | nothing iff there is no user; otherwise an avatar carrying the initials |
| EnvCheck.MissingFrom | lib/env-check.ts:9 | a name is kept iff it is listed and its variable is absent or empty |
| EnvCheck.MissingVars | lib/env-check.ts:3-9 | the missing list holds exactly the required names whose value is absent or empty |
| EnvCheck.MissingVarsInOrder | lib/env-check.ts:3-9 | the missing list is AUTH_SECRET, DATABASE_URL, NEXTAUTH_URL, each kept iff missing, in that order |
| EnvCheck.ValidateEnvironment | lib/env-check.ts:11-16 | false iff some required variable is missing; true iff all three are set and non-empty |
| EnvCheck.OnlyRequiredMatter | lib/env-check.ts:3-9 | variables outside the required list never change the missing list or the verdict |

## Findings

| source | as written | input that shows it | evidently intended | confidence | as-written member | corrected member |
|---|---|---|---|---|---|---|
| actions/get-progress.ts:85-86 | divides the completed count by the number of published chapters with no zero guard | a course with no published chapter: 0 / 0 gives NaN | a defined 0 %, as the failure path already returns 0 | high; not executed | ProgressProperties.ZeroChaptersGiveNaN | ProgressProperties.ProgressCorrected |

## Left out

- The Prisma queries, the authentication library's session, and the `redirect` mechanics. Query results, the session and the user table are inputs. A thrown query is `None`. A redirect is the `Redirect(path)` outcome, not a thrown control transfer.
- The one-query-per-chapter pattern of the progress loop. Attempts are one input. A failure of that query matters only when the loop reaches it, as in the source (`ProgressProperties.UnreachedAttemptQueryIgnored`).
- IEEE floating point. The percentage is an exact `real`. 0/0 is the explicit `NaN` value. Infinity cannot arise because the count never exceeds the chapter count. Rounding is not modelled.
- ProgressProperties.ChapterCompleteIff: requires distinct quiz ids in a chapter. With a repeated id the code's count comparison never succeeds. Store ids are primary keys, so this does not arise.
- ProgressProperties.ChapterRowCompleteIff: requires distinct quiz row ids, for the same reason.
- ProgressProperties.MoreProgressNeverLowers: stated for a successful attempt query. If that query fails, a new progress row can make the loop reach it, and the result drops to 0.
- Strings.Upper: ASCII letters only. Unicode case mapping, which can change length, is not modelled. Neither are UTF-16 surrogate pairs in `n[0]`.
- The `console.log`/`console.warn` calls, and the module-load evaluation of `isEnvironmentValid`.
- `lib/format.ts`, `scripts/create-admin.ts`, `actions/get-safe-profile.ts`, `lib/current-profile.ts`, `hooks/use-current-user.ts`, the pages, layouts, the theme switch, `middleware.ts`, `next.config.js` and `types.ts` are not part of this model. They are data fetches, I/O, configuration or rendering.
- The JSX styling of the navbar and the user button, and the dropdown menu with its sign-out action.
- Quiz grading (the submit route) is not part of this model.
