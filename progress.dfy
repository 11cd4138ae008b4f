/**
 * Course progress of `actions/get-progress.ts`: the share of a course's
 * published chapters that a learner has fully completed, as a percentage.
 *
 * The three store queries become inputs: the course's chapter rows (with
 * their quizzes), the progress rows and the quiz attempts. Each is an
 * `Option`, `None` standing for a query that throws; the source catches
 * every such failure and answers 0.
 */
module Progress {
  import opened Wrappers

  type Id = string

  datatype QuizRow = QuizRow(id: Id, isPublished: bool)
  datatype ChapterRow = ChapterRow(id: Id, courseId: Id, isPublished: bool, quizzes: seq<QuizRow>)
  /** Video-watch completion of one chapter by one user. */
  datatype ProgressRow = ProgressRow(userId: Id, chapterId: Id, isCompleted: bool)
  datatype AttemptRow = AttemptRow(userId: Id, quizId: Id, passed: bool)

  /** One element of the first query's answer: a published chapter and its published quizzes' ids. */
  datatype PublishedChapter = PublishedChapter(id: Id, quizIds: seq<Id>)

  /** A JavaScript number as this computation can produce it: a finite value, or NaN from 0/0. */
  datatype JsNumber = Num(value: real) | NaN

  // ---------------------------------------------------------------------
  // The queries

  /** The ids of the published quizzes, in order (the nested `quizzes` selection). */
  function PublishedQuizIds(quizzes: seq<QuizRow>): (ids: seq<Id>)
    ensures |ids| <= |quizzes|
    ensures forall q :: q in ids <==> exists z :: z in quizzes && z.isPublished && z.id == q
  {
    if quizzes == [] then []
    else
      var last := quizzes[|quizzes| - 1];
      var front := quizzes[..|quizzes| - 1];
      assert quizzes == front + [last];
      PublishedQuizIds(front) + (if last.isPublished then [last.id] else [])
  }

  /** A chapter row as the first query returns it. */
  function Publish(row: ChapterRow): PublishedChapter
  {
    PublishedChapter(row.id, PublishedQuizIds(row.quizzes))
  }

  /** Whether the first query selects a chapter row: it belongs to the course and is published. */
  predicate Selected(row: ChapterRow, courseId: Id)
  {
    row.courseId == courseId && row.isPublished
  }

  /** The first query: the course's published chapters, in order. */
  function PublishedChapters(rows: seq<ChapterRow>, courseId: Id): (r: seq<PublishedChapter>)
    ensures |r| <= |rows|
    ensures forall c :: c in r <==> exists row :: row in rows && Selected(row, courseId) && c == Publish(row)
  {
    if rows == [] then []
    else
      var last := rows[|rows| - 1];
      var front := rows[..|rows| - 1];
      assert rows == front + [last];
      PublishedChapters(front, courseId) + (if Selected(last, courseId) then [Publish(last)] else [])
  }

  /** `publishedChapterIds`. */
  function ChapterIds(chapters: seq<PublishedChapter>): (ids: set<Id>)
    ensures forall c :: c in chapters ==> c.id in ids
    ensures forall id :: id in ids <==> exists c :: c in chapters && c.id == id
  {
    set c | c in chapters :: c.id
  }

  /** The second query: the published chapters this user has a completed-video row for. */
  function VideoCompleted(rows: seq<ProgressRow>, userId: Id, chapterIds: set<Id>): (r: set<Id>)
    ensures forall id :: id in r <==> id in chapterIds && ProgressRow(userId, id, true) in rows
  {
    set p | p in rows && p.userId == userId && p.chapterId in chapterIds && p.isCompleted :: p.chapterId
  }

  /**
   * The per-chapter query followed by `Array.from(new Set(...))`: the distinct
   * quizzes among `quizIds` that this user has a passed attempt for.
   */
  function PassedQuizIds(attempts: seq<AttemptRow>, userId: Id, quizIds: seq<Id>): (r: set<Id>)
    ensures forall q :: q in r <==> q in quizIds && AttemptRow(userId, q, true) in attempts
  {
    set a | a in attempts && a.userId == userId && a.quizId in quizIds && a.passed :: a.quizId
  }

  // ---------------------------------------------------------------------
  // The completion rule and the count

  /**
   * A published chapter is fully complete when its video is done and either
   * it has no published quiz or as many distinct quizzes are passed as it has.
   */
  predicate ChapterComplete(c: PublishedChapter, video: set<Id>, attempts: seq<AttemptRow>, userId: Id)
    ensures ChapterComplete(c, video, attempts, userId) ==> c.id in video
    ensures c.id in video && c.quizIds == [] ==> ChapterComplete(c, video, attempts, userId)
    ensures c.quizIds != [] && PassedQuizIds(attempts, userId, c.quizIds) == {} ==> !ChapterComplete(c, video, attempts, userId)
  {
    c.id in video && (|c.quizIds| == 0 || |PassedQuizIds(attempts, userId, c.quizIds)| == |c.quizIds|)
  }

  /** Whether the loop reaches the attempt query for this chapter. */
  predicate NeedsAttemptQuery(c: PublishedChapter, video: set<Id>)
  {
    c.id in video && |c.quizIds| > 0
  }

  /** Whether the loop over `chapters` reaches the attempt query at all. */
  predicate ReachesAttemptQuery(chapters: seq<PublishedChapter>, video: set<Id>)
  {
    exists c :: c in chapters && NeedsAttemptQuery(c, video)
  }

  /** The number of fully complete chapters among `chapters`. */
  function CountComplete(chapters: seq<PublishedChapter>, video: set<Id>, attempts: seq<AttemptRow>, userId: Id): (n: nat)
    ensures n <= |chapters|
  {
    if chapters == [] then 0
    else
      CountComplete(chapters[..|chapters| - 1], video, attempts, userId)
      + (if ChapterComplete(chapters[|chapters| - 1], video, attempts, userId) then 1 else 0)
  }

  /**
   * The `for (const chapter of publishedChapters)` loop. `None` when it
   * reaches the attempt query and that query fails.
   */
  method CountFullyCompleted(userId: Id, chapters: seq<PublishedChapter>, video: set<Id>,
                             attemptsQuery: Option<seq<AttemptRow>>)
    returns (r: Option<nat>)
    ensures r.None? <==> attemptsQuery.None? && ReachesAttemptQuery(chapters, video)
    ensures r.Some? ==> r.value == CountComplete(chapters, video, attemptsQuery.GetOr([]), userId)
    ensures r.Some? ==> r.value <= |chapters|
  {
    ghost var attempts := attemptsQuery.GetOr([]);
    var fullyCompletedChapters := 0;
    for i := 0 to |chapters|
      invariant fullyCompletedChapters == CountComplete(chapters[..i], video, attempts, userId)
      invariant attemptsQuery.None? ==> forall j :: 0 <= j < i ==> !NeedsAttemptQuery(chapters[j], video)
    {
      var chapter := chapters[i];
      assert chapters[..i + 1][..i] == chapters[..i];
      var hasVideoProgress := chapter.id in video;
      if !hasVideoProgress {
        continue;
      }
      if |chapter.quizIds| == 0 {
        fullyCompletedChapters := fullyCompletedChapters + 1;
        continue;
      }
      if attemptsQuery.None? {
        assert chapter in chapters && NeedsAttemptQuery(chapter, video);
        return None;
      }
      var passedQuizIds := PassedQuizIds(attemptsQuery.value, userId, chapter.quizIds);
      if |passedQuizIds| == |chapter.quizIds| {
        fullyCompletedChapters := fullyCompletedChapters + 1;
      }
    }
    assert chapters[..|chapters|] == chapters;
    return Some(fullyCompletedChapters);
  }

  // ---------------------------------------------------------------------
  // The percentage

  /**
   * `(fullyCompletedChapters / publishedChapters.length) * 100` as written:
   * NaN for a course without published chapters.
   */
  function Percentage(completed: nat, total: nat): (r: JsNumber)
    requires completed <= total
    ensures r.NaN? <==> total == 0
    ensures r.Num? ==> 0.0 <= r.value <= 100.0
    ensures r.Num? ==> r.value * total as real == completed as real * 100.0
    ensures r == Num(100.0) <==> 0 < total == completed
  {
    if total == 0 then NaN
    else
      var ratio := completed as real / total as real;
      CancelPositive(ratio, 1.0, total as real, completed as real, total as real);
      Num(ratio * 100.0)
  }

  /** Dividing both sides of an order between products by the same positive factor. */
  lemma CancelPositive(x: real, y: real, t: real, a: real, b: real)
    requires t > 0.0 && x * t == a && y * t == b && a <= b
    ensures x <= y
  {
  }

  /** `getProgress` as written: 0 for a failed query that is reached, NaN for no published chapters. */
  function ProgressAsWritten(userId: Id, courseId: Id, chaptersQuery: Option<seq<ChapterRow>>,
                             progressQuery: Option<seq<ProgressRow>>,
                             attemptsQuery: Option<seq<AttemptRow>>): (r: JsNumber)
    ensures chaptersQuery.None? || progressQuery.None? ==> r == Num(0.0)
    ensures chaptersQuery.Some? && progressQuery.Some? && attemptsQuery.None? &&
      (var chapters := PublishedChapters(chaptersQuery.value, courseId);
       ReachesAttemptQuery(chapters, VideoCompleted(progressQuery.value, userId, ChapterIds(chapters))))
      ==> r == Num(0.0)
    ensures r.NaN? ==> chaptersQuery.Some? && progressQuery.Some? && PublishedChapters(chaptersQuery.value, courseId) == []
    ensures r.Num? ==> 0.0 <= r.value <= 100.0
  {
    if chaptersQuery.None? || progressQuery.None? then Num(0.0)
    else
      var chapters := PublishedChapters(chaptersQuery.value, courseId);
      var video := VideoCompleted(progressQuery.value, userId, ChapterIds(chapters));
      if attemptsQuery.None? && ReachesAttemptQuery(chapters, video) then Num(0.0)
      else Percentage(CountComplete(chapters, video, attemptsQuery.GetOr([]), userId), |chapters|)
  }

  /** `getProgress(userId, courseId)`. */
  method GetProgress(userId: Id, courseId: Id, chaptersQuery: Option<seq<ChapterRow>>,
                     progressQuery: Option<seq<ProgressRow>>, attemptsQuery: Option<seq<AttemptRow>>)
    returns (r: JsNumber)
    ensures r == ProgressAsWritten(userId, courseId, chaptersQuery, progressQuery, attemptsQuery)
    ensures r.Num? ==> 0.0 <= r.value <= 100.0
  {
    if chaptersQuery.None? {
      return Num(0.0);
    }
    var publishedChapters := PublishedChapters(chaptersQuery.value, courseId);
    var publishedChapterIds := ChapterIds(publishedChapters);
    if progressQuery.None? {
      return Num(0.0);
    }
    var chaptersWithVideoProgress := VideoCompleted(progressQuery.value, userId, publishedChapterIds);
    var fullyCompletedChapters := CountFullyCompleted(userId, publishedChapters, chaptersWithVideoProgress, attemptsQuery);
    if fullyCompletedChapters.None? {
      return Num(0.0);
    }
    r := Percentage(fullyCompletedChapters.value, |publishedChapters|);
  }
}
