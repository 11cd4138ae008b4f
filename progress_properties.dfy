/**
 * What `getProgress` promises, proved about the model in module Progress:
 * the completion rule read as "every published quiz passed", what the
 * computation ignores, that more progress never lowers the result, and the
 * corrected percentage for a course without published chapters.
 */
module ProgressProperties {
  import opened Wrappers
  import opened Progress

  // ---------------------------------------------------------------------
  // Sets of ids

  /** The distinct elements of a sequence of ids. */
  function Distinct(s: seq<Id>): (r: set<Id>)
    ensures forall x :: x in r <==> x in s
  {
    set x | x in s
  }

  /** No id occurs twice; the store's primary keys guarantee this for quiz ids. */
  predicate NoDuplicates(s: seq<Id>)
  {
    forall i, j :: 0 <= i < j < |s| ==> s[i] != s[j]
  }

  /** A sequence has at most as many distinct elements as entries, and exactly as many without duplicates. */
  lemma {:induction false} DistinctCard(s: seq<Id>)
    ensures |Distinct(s)| <= |s|
    ensures NoDuplicates(s) ==> |Distinct(s)| == |s|
  {
    if s != [] {
      var front := s[..|s| - 1];
      var last := s[|s| - 1];
      assert s == front + [last];
      DistinctCard(front);
      assert Distinct(s) == Distinct(front) + {last};
      if NoDuplicates(s) {
        assert NoDuplicates(front);
        assert last !in Distinct(front);
      }
    }
  }

  /** A subset is no larger, and a subset as large as its superset is the whole of it. */
  lemma SubsetCard(a: set<Id>, b: set<Id>)
    requires a <= b
    ensures |a| <= |b|
    ensures |a| == |b| ==> a == b
  {
    assert b == a + (b - a);
  }

  // ---------------------------------------------------------------------
  // The completion rule

  /** Whether this user holds a passed attempt for the quiz. */
  predicate Passed(attempts: seq<AttemptRow>, userId: Id, quizId: Id)
  {
    AttemptRow(userId, quizId, true) in attempts
  }

  /** A chapter without a completed video never counts, whatever its quiz attempts. */
  lemma NoVideoNeverCounts(c: PublishedChapter, video: set<Id>, attempts: seq<AttemptRow>, userId: Id)
    requires c.id !in video
    ensures !ChapterComplete(c, video, attempts, userId)
  {
  }

  /** A chapter with a completed video and no published quiz always counts. */
  lemma VideoWithoutQuizzesCounts(c: PublishedChapter, video: set<Id>, attempts: seq<AttemptRow>, userId: Id)
    requires c.id in video && c.quizIds == []
    ensures ChapterComplete(c, video, attempts, userId)
  {
  }

  /** A complete chapter has its video done and every one of its published quizzes passed. */
  lemma {:induction false} CompleteMeansAllPassed(c: PublishedChapter, video: set<Id>, attempts: seq<AttemptRow>, userId: Id)
    requires ChapterComplete(c, video, attempts, userId)
    ensures c.id in video
    ensures forall q :: q in c.quizIds ==> Passed(attempts, userId, q)
  {
    var passed := PassedQuizIds(attempts, userId, c.quizIds);
    var all := Distinct(c.quizIds);
    assert passed <= all;
    DistinctCard(c.quizIds);
    SubsetCard(passed, all);
  }

  /**
   * The completion rule read as the source's own comments state it ("all
   * quizzes are passed", actions/get-progress.ts:59 and :77): with distinct quiz ids,
   * a chapter counts exactly when its video is done and each of its published
   * quizzes has a passed attempt by this user.
   */
  lemma {:induction false} ChapterCompleteIff(c: PublishedChapter, video: set<Id>, attempts: seq<AttemptRow>, userId: Id)
    requires NoDuplicates(c.quizIds)
    ensures ChapterComplete(c, video, attempts, userId) <==>
      c.id in video && forall q :: q in c.quizIds ==> Passed(attempts, userId, q)
  {
    if ChapterComplete(c, video, attempts, userId) {
      CompleteMeansAllPassed(c, video, attempts, userId);
    }
    if c.id in video && forall q :: q in c.quizIds ==> Passed(attempts, userId, q) {
      var passed := PassedQuizIds(attempts, userId, c.quizIds);
      assert passed == Distinct(c.quizIds);
      DistinctCard(c.quizIds);
    }
  }

  /** Another passing attempt on an already passed quiz adds nothing: passes are de-duplicated. */
  lemma RepeatedPassCountsOnce(attempts: seq<AttemptRow>, userId: Id, quizIds: seq<Id>, quizId: Id)
    requires Passed(attempts, userId, quizId)
    ensures PassedQuizIds(attempts + [AttemptRow(userId, quizId, true)], userId, quizIds)
         == PassedQuizIds(attempts, userId, quizIds)
  {
  }

  /** Chapters whose verdicts agree, or only improve, give equal, or larger, counts. */
  lemma {:induction false} CountMonotone(chapters: seq<PublishedChapter>,
                                         v1: set<Id>, a1: seq<AttemptRow>, v2: set<Id>, a2: seq<AttemptRow>, userId: Id)
    requires forall c :: c in chapters && ChapterComplete(c, v1, a1, userId) ==> ChapterComplete(c, v2, a2, userId)
    ensures CountComplete(chapters, v1, a1, userId) <= CountComplete(chapters, v2, a2, userId)
    ensures (forall c :: c in chapters ==> (ChapterComplete(c, v1, a1, userId) <==> ChapterComplete(c, v2, a2, userId)))
      ==> CountComplete(chapters, v1, a1, userId) == CountComplete(chapters, v2, a2, userId)
  {
    if chapters != [] {
      var front := chapters[..|chapters| - 1];
      assert forall c :: c in front ==> c in chapters;
      CountMonotone(front, v1, a1, v2, a2, userId);
    }
  }

  /** More completed videos and more attempts never undo a chapter's completion. */
  lemma {:induction false} ChapterCompleteMonotone(c: PublishedChapter, v1: set<Id>, a1: seq<AttemptRow>,
                                                   v2: set<Id>, a2: seq<AttemptRow>, userId: Id)
    requires v1 <= v2
    requires forall a :: a in a1 ==> a in a2
    requires ChapterComplete(c, v1, a1, userId)
    ensures ChapterComplete(c, v2, a2, userId)
  {
    if |c.quizIds| > 0 {
      var p1 := PassedQuizIds(a1, userId, c.quizIds);
      var p2 := PassedQuizIds(a2, userId, c.quizIds);
      var all := Distinct(c.quizIds);
      assert p1 <= p2 <= all;
      DistinctCard(c.quizIds);
      SubsetCard(p1, p2);
      SubsetCard(p2, all);
    }
  }

  /** An attempt by another user, or a failed one, changes no chapter's verdict and so not the count. */
  lemma {:induction false} IgnoredAttempt(chapters: seq<PublishedChapter>, video: set<Id>,
                                          attempts: seq<AttemptRow>, userId: Id, a: AttemptRow)
    requires a.userId != userId || !a.passed
    ensures CountComplete(chapters, video, attempts + [a], userId) == CountComplete(chapters, video, attempts, userId)
  {
    forall c | c in chapters
      ensures ChapterComplete(c, video, attempts + [a], userId) <==> ChapterComplete(c, video, attempts, userId)
    {
      assert PassedQuizIds(attempts + [a], userId, c.quizIds) == PassedQuizIds(attempts, userId, c.quizIds);
    }
    CountMonotone(chapters, video, attempts + [a], video, attempts, userId);
  }

  // ---------------------------------------------------------------------
  // The percentage, and its correction for a course without published chapters

  /**
   * A course none of whose chapter rows is a published chapter of it (no
   * rows, or only unpublished ones, or only other courses') makes the source
   * divide 0 by 0.
   */
  lemma {:induction false} ZeroChaptersGiveNaN(userId: Id, courseId: Id, rows: seq<ChapterRow>,
                                               progressRows: seq<ProgressRow>,
                                               attemptsQuery: Option<seq<AttemptRow>>)
    requires forall row :: row in rows ==> !Selected(row, courseId)
    ensures ProgressAsWritten(userId, courseId, Some(rows), Some(progressRows), attemptsQuery) == NaN
  {
    NaNExactlyWithoutChapters(userId, courseId, Some(rows), Some(progressRows), attemptsQuery);
  }

  /**
   * The percentage with the zero-chapter case defined as 0, the value the
   * source already answers when it cannot compute progress (the catch path).
   */
  function CorrectedPercentage(completed: nat, total: nat): (r: real)
    requires completed <= total
    ensures 0.0 <= r <= 100.0
    ensures total == 0 ==> r == 0.0
    ensures total > 0 ==> Percentage(completed, total) == Num(r) && r * total as real == completed as real * 100.0
  {
    match Percentage(completed, total)
    case NaN => 0.0
    case Num(v) => v
  }

  /** More completed chapters of the same course never give a smaller percentage. */
  lemma CorrectedPercentageMonotone(c1: nat, c2: nat, total: nat)
    requires c1 <= c2 <= total
    ensures CorrectedPercentage(c1, total) <= CorrectedPercentage(c2, total)
  {
    if total > 0 {
      var v1, v2 := CorrectedPercentage(c1, total), CorrectedPercentage(c2, total);
      CancelPositive(v1, v2, total as real, c1 as real * 100.0, c2 as real * 100.0);
    }
  }

  /** `getProgress` with the zero-chapter case corrected: 0 on a failed query, else the corrected percentage. */
  function ProgressCorrected(userId: Id, courseId: Id, chaptersQuery: Option<seq<ChapterRow>>,
                             progressQuery: Option<seq<ProgressRow>>,
                             attemptsQuery: Option<seq<AttemptRow>>): (r: real)
    ensures 0.0 <= r <= 100.0
    ensures ProgressAsWritten(userId, courseId, chaptersQuery, progressQuery, attemptsQuery).Num? ==>
      r == ProgressAsWritten(userId, courseId, chaptersQuery, progressQuery, attemptsQuery).value
    ensures ProgressAsWritten(userId, courseId, chaptersQuery, progressQuery, attemptsQuery).NaN? ==> r == 0.0
  {
    match ProgressAsWritten(userId, courseId, chaptersQuery, progressQuery, attemptsQuery)
    case NaN => 0.0
    case Num(v) => v
  }

  /** The as-written result is NaN exactly when no query fails and the course has no published chapter. */
  lemma NaNExactlyWithoutChapters(userId: Id, courseId: Id, chaptersQuery: Option<seq<ChapterRow>>,
                                  progressQuery: Option<seq<ProgressRow>>, attemptsQuery: Option<seq<AttemptRow>>)
    ensures ProgressAsWritten(userId, courseId, chaptersQuery, progressQuery, attemptsQuery).NaN? <==>
      chaptersQuery.Some? && progressQuery.Some? && PublishedChapters(chaptersQuery.value, courseId) == []
  {
  }

  /** Without a chapter that reaches the attempt query, the attempts do not change the count. */
  lemma UnreachedAttemptsCountUnchanged(chapters: seq<PublishedChapter>, video: set<Id>, attempts: seq<AttemptRow>,
                                        userId: Id)
    requires !ReachesAttemptQuery(chapters, video)
    ensures CountComplete(chapters, video, [], userId) == CountComplete(chapters, video, attempts, userId)
  {
    CountMonotone(chapters, video, [], video, attempts, userId);
  }

  /**
   * The attempt query matters only when the loop reaches it: when no chapter
   * has its video done and quizzes to check, a failed attempt query gives the
   * same result as any successful one.
   */
  lemma {:induction false} UnreachedAttemptQueryIgnored(userId: Id, courseId: Id, rows: seq<ChapterRow>,
                                                        progressRows: seq<ProgressRow>, attempts: seq<AttemptRow>)
    requires var chapters := PublishedChapters(rows, courseId);
      !ReachesAttemptQuery(chapters, VideoCompleted(progressRows, userId, ChapterIds(chapters)))
    ensures ProgressAsWritten(userId, courseId, Some(rows), Some(progressRows), None)
         == ProgressAsWritten(userId, courseId, Some(rows), Some(progressRows), Some(attempts))
  {
    var chapters := PublishedChapters(rows, courseId);
    var video := VideoCompleted(progressRows, userId, ChapterIds(chapters));
    UnreachedAttemptsCountUnchanged(chapters, video, attempts, userId);
  }

  // ---------------------------------------------------------------------
  // What the computation ignores

  /** The first query distributes over a split of the chapter rows. */
  lemma {:induction false} PublishedChaptersConcat(a: seq<ChapterRow>, b: seq<ChapterRow>, courseId: Id)
    ensures PublishedChapters(a + b, courseId) == PublishedChapters(a, courseId) + PublishedChapters(b, courseId)
  {
    if b == [] {
      assert a + b == a;
    } else {
      var front := b[..|b| - 1];
      var last := b[|b| - 1];
      assert (a + b)[..|a + b| - 1] == a + front;
      assert (a + b)[|a + b| - 1] == last;
      PublishedChaptersConcat(a, front, courseId);
    }
  }

  /** The published-quiz selection distributes over a split of the quiz rows. */
  lemma {:induction false} PublishedQuizIdsConcat(a: seq<QuizRow>, b: seq<QuizRow>)
    ensures PublishedQuizIds(a + b) == PublishedQuizIds(a) + PublishedQuizIds(b)
  {
    if b == [] {
      assert a + b == a;
    } else {
      var front := b[..|b| - 1];
      var last := b[|b| - 1];
      assert (a + b)[..|a + b| - 1] == a + front;
      assert (a + b)[|a + b| - 1] == last;
      PublishedQuizIdsConcat(a, front);
    }
  }

  /** A chapter row of another course, or an unpublished one, changes nothing, wherever it sits. */
  lemma {:induction false} UnselectedChapterIgnored(userId: Id, courseId: Id, before: seq<ChapterRow>, row: ChapterRow,
                                                    after: seq<ChapterRow>,
                                                    progressQuery: Option<seq<ProgressRow>>,
                                                    attemptsQuery: Option<seq<AttemptRow>>)
    requires !Selected(row, courseId)
    ensures ProgressAsWritten(userId, courseId, Some(before + [row] + after), progressQuery, attemptsQuery)
         == ProgressAsWritten(userId, courseId, Some(before + after), progressQuery, attemptsQuery)
  {
    PublishedChaptersConcat(before + [row], after, courseId);
    PublishedChaptersConcat(before, [row], courseId);
    PublishedChaptersConcat(before, after, courseId);
    assert PublishedChapters([row], courseId) == [] by {
      assert [row][..0] == [];
    }
    assert PublishedChapters(before + [row] + after, courseId) == PublishedChapters(before + after, courseId);
  }

  /** An unpublished quiz, wherever it sits among the chapter's quizzes, does not change the chapter the query returns. */
  lemma {:induction false} UnpublishedQuizIgnored(row: ChapterRow, before: seq<QuizRow>, quiz: QuizRow, after: seq<QuizRow>)
    requires !quiz.isPublished
    ensures Publish(row.(quizzes := before + [quiz] + after)) == Publish(row.(quizzes := before + after))
  {
    PublishedQuizIdsConcat(before + [quiz], after);
    PublishedQuizIdsConcat(before, [quiz]);
    PublishedQuizIdsConcat(before, after);
    assert PublishedQuizIds([quiz]) == [] by {
      assert [quiz][..0] == [];
    }
  }

  /**
   * A progress row of another user, an incomplete one, or one for a chapter
   * outside the course's published chapters changes nothing.
   */
  lemma {:induction false} IrrelevantProgressRowIgnored(userId: Id, courseId: Id, rows: seq<ChapterRow>,
                                                        progressRows: seq<ProgressRow>, p: ProgressRow,
                                                        attemptsQuery: Option<seq<AttemptRow>>)
    requires p.userId != userId || !p.isCompleted || p.chapterId !in ChapterIds(PublishedChapters(rows, courseId))
    ensures ProgressAsWritten(userId, courseId, Some(rows), Some(progressRows + [p]), attemptsQuery)
         == ProgressAsWritten(userId, courseId, Some(rows), Some(progressRows), attemptsQuery)
  {
    var ids := ChapterIds(PublishedChapters(rows, courseId));
    assert VideoCompleted(progressRows + [p], userId, ids) == VideoCompleted(progressRows, userId, ids);
  }

  /** An attempt by another user, or a failed attempt, changes nothing. */
  lemma {:induction false} IrrelevantAttemptIgnored(userId: Id, courseId: Id, rows: seq<ChapterRow>,
                                                    progressRows: seq<ProgressRow>, attempts: seq<AttemptRow>,
                                                    a: AttemptRow)
    requires a.userId != userId || !a.passed
    ensures ProgressAsWritten(userId, courseId, Some(rows), Some(progressRows), Some(attempts + [a]))
         == ProgressAsWritten(userId, courseId, Some(rows), Some(progressRows), Some(attempts))
  {
    var chapters := PublishedChapters(rows, courseId);
    var video := VideoCompleted(progressRows, userId, ChapterIds(chapters));
    IgnoredAttempt(chapters, video, attempts, userId, a);
  }

  // ---------------------------------------------------------------------
  // More progress never lowers the result

  /** One more progress row never lowers the progress (when the attempt query succeeds). */
  lemma {:induction false} MoreProgressNeverLowers(userId: Id, courseId: Id, rows: seq<ChapterRow>,
                                                   progressRows: seq<ProgressRow>, p: ProgressRow,
                                                   attempts: seq<AttemptRow>)
    ensures ProgressCorrected(userId, courseId, Some(rows), Some(progressRows), Some(attempts))
         <= ProgressCorrected(userId, courseId, Some(rows), Some(progressRows + [p]), Some(attempts))
  {
    var chapters := PublishedChapters(rows, courseId);
    var ids := ChapterIds(chapters);
    var v1 := VideoCompleted(progressRows, userId, ids);
    var v2 := VideoCompleted(progressRows + [p], userId, ids);
    assert v1 <= v2;
    forall c | c in chapters && ChapterComplete(c, v1, attempts, userId)
      ensures ChapterComplete(c, v2, attempts, userId)
    {
      ChapterCompleteMonotone(c, v1, attempts, v2, attempts, userId);
    }
    CountMonotone(chapters, v1, attempts, v2, attempts, userId);
    CorrectedPercentageMonotone(CountComplete(chapters, v1, attempts, userId),
                                CountComplete(chapters, v2, attempts, userId), |chapters|);
  }

  /** One more attempt, passed or not, never lowers the progress. */
  lemma {:induction false} MoreAttemptsNeverLower(userId: Id, courseId: Id, rows: seq<ChapterRow>,
                                                  progressRows: seq<ProgressRow>, attempts: seq<AttemptRow>,
                                                  a: AttemptRow)
    ensures ProgressCorrected(userId, courseId, Some(rows), Some(progressRows), Some(attempts))
         <= ProgressCorrected(userId, courseId, Some(rows), Some(progressRows), Some(attempts + [a]))
  {
    var chapters := PublishedChapters(rows, courseId);
    var video := VideoCompleted(progressRows, userId, ChapterIds(chapters));
    forall c | c in chapters && ChapterComplete(c, video, attempts, userId)
      ensures ChapterComplete(c, video, attempts + [a], userId)
    {
      ChapterCompleteMonotone(c, video, attempts, video, attempts + [a], userId);
    }
    CountMonotone(chapters, video, attempts, video, attempts + [a], userId);
    CorrectedPercentageMonotone(CountComplete(chapters, video, attempts, userId),
                                CountComplete(chapters, video, attempts + [a], userId), |chapters|);
  }

  // ---------------------------------------------------------------------
  // From distinct store ids to the counts the source compares

  /** The quiz rows' ids are distinct, as primary keys are. */
  predicate DistinctQuizRows(quizzes: seq<QuizRow>)
  {
    forall i, j :: 0 <= i < j < |quizzes| ==> quizzes[i].id != quizzes[j].id
  }

  /** The chapter rows' ids are distinct, as primary keys are. */
  predicate DistinctChapterRows(rows: seq<ChapterRow>)
  {
    forall i, j :: 0 <= i < j < |rows| ==> rows[i].id != rows[j].id
  }

  /** Appending a new element keeps a sequence free of duplicates. */
  lemma NoDuplicatesAppend(s: seq<Id>, x: Id)
    requires NoDuplicates(s) && x !in s
    ensures NoDuplicates(s + [x])
  {
  }

  /** The ids of the published chapters, in order. */
  function PublishedIds(chapters: seq<PublishedChapter>): (ids: seq<Id>)
    ensures |ids| == |chapters|
    ensures forall i :: 0 <= i < |chapters| ==> ids[i] == chapters[i].id
  {
    seq(|chapters|, i requires 0 <= i < |chapters| => chapters[i].id)
  }

  /**
   * With distinct quiz rows, a chapter's published quiz ids are distinct and
   * there is exactly one per published quiz: `quizIds.length` counts the
   * chapter's published quizzes.
   */
  lemma {:induction false} PublishedQuizIdsDistinct(quizzes: seq<QuizRow>)
    requires DistinctQuizRows(quizzes)
    ensures NoDuplicates(PublishedQuizIds(quizzes))
    ensures |PublishedQuizIds(quizzes)| == |set z | z in quizzes && z.isPublished :: z.id|
  {
    var ids := PublishedQuizIds(quizzes);
    if quizzes != [] {
      var front := quizzes[..|quizzes| - 1];
      var last := quizzes[|quizzes| - 1];
      assert DistinctQuizRows(front);
      PublishedQuizIdsDistinct(front);
      var pf := PublishedQuizIds(front);
      if last.isPublished {
        assert ids == pf + [last.id];
        forall z | z in front ensures z.id != last.id {
          var k :| 0 <= k < |front| && front[k] == z;
          assert quizzes[k] == z;
        }
        NoDuplicatesAppend(pf, last.id);
      } else {
        assert ids == pf;
      }
    }
    assert Distinct(ids) == set z | z in quizzes && z.isPublished :: z.id;
    DistinctCard(ids);
  }

  /** With distinct chapter rows, no chapter id is returned twice. */
  lemma {:induction false} PublishedIdsNoDuplicates(rows: seq<ChapterRow>, courseId: Id)
    requires DistinctChapterRows(rows)
    ensures NoDuplicates(PublishedIds(PublishedChapters(rows, courseId)))
  {
    if rows != [] {
      var front := rows[..|rows| - 1];
      var last := rows[|rows| - 1];
      assert DistinctChapterRows(front);
      PublishedIdsNoDuplicates(front, courseId);
      var cf := PublishedChapters(front, courseId);
      if Selected(last, courseId) {
        assert PublishedIds(PublishedChapters(rows, courseId)) == PublishedIds(cf) + [last.id];
        forall row | row in front ensures row.id != last.id {
          var k :| 0 <= k < |front| && front[k] == row;
          assert rows[k] == row;
        }
        PublishedIdsAreSelectedIds(front, courseId);
        NoDuplicatesAppend(PublishedIds(cf), last.id);
      }
    }
  }

  /** The ids of the published chapters are those of the selected rows. */
  lemma PublishedIdsAreSelectedIds(rows: seq<ChapterRow>, courseId: Id)
    ensures Distinct(PublishedIds(PublishedChapters(rows, courseId)))
         == set row | row in rows && Selected(row, courseId) :: row.id
  {
    var chapters := PublishedChapters(rows, courseId);
    var ids := PublishedIds(chapters);
    forall x ensures x in Distinct(ids) <==> x in set row | row in rows && Selected(row, courseId) :: row.id {
      if x in Distinct(ids) {
        var i :| 0 <= i < |ids| && ids[i] == x;
        assert chapters[i] in chapters;
      }
      if x in set row | row in rows && Selected(row, courseId) :: row.id {
        var row :| row in rows && Selected(row, courseId) && row.id == x;
        assert Publish(row) in chapters;
        var i :| 0 <= i < |chapters| && chapters[i] == Publish(row);
        assert ids[i] == x;
      }
    }
  }

  /** The set of chapter ids `ChapterIds` builds is that of the published ids. */
  lemma ChapterIdsArePublishedIds(chapters: seq<PublishedChapter>)
    ensures ChapterIds(chapters) == Distinct(PublishedIds(chapters))
  {
    var ids := PublishedIds(chapters);
    forall x ensures x in ChapterIds(chapters) <==> x in Distinct(ids) {
      if x in ChapterIds(chapters) {
        var c :| c in chapters && c.id == x;
        var i :| 0 <= i < |chapters| && chapters[i] == c;
        assert ids[i] == x;
      }
    }
  }

  /**
   * With distinct chapter rows, there is exactly one published chapter per
   * selected row and one id per chapter: the percentage's denominator
   * `publishedChapters.length` counts the course's published chapters.
   */
  lemma {:induction false} PublishedChaptersDistinct(rows: seq<ChapterRow>, courseId: Id)
    requires DistinctChapterRows(rows)
    ensures NoDuplicates(PublishedIds(PublishedChapters(rows, courseId)))
    ensures |PublishedChapters(rows, courseId)| == |set row | row in rows && Selected(row, courseId) :: row.id|
    ensures |ChapterIds(PublishedChapters(rows, courseId))| == |PublishedChapters(rows, courseId)|
  {
    var chapters := PublishedChapters(rows, courseId);
    PublishedIdsNoDuplicates(rows, courseId);
    PublishedIdsAreSelectedIds(rows, courseId);
    ChapterIdsArePublishedIds(chapters);
    DistinctCard(PublishedIds(chapters));
  }

  /**
   * The completion rule stated on the store's rows: with distinct quiz rows,
   * a chapter counts exactly when its video is done and every one of its
   * published quizzes has a passed attempt by this user.
   */
  lemma {:induction false} ChapterRowCompleteIff(row: ChapterRow, video: set<Id>, attempts: seq<AttemptRow>, userId: Id)
    requires DistinctQuizRows(row.quizzes)
    ensures ChapterComplete(Publish(row), video, attempts, userId) <==>
      row.id in video && forall z :: z in row.quizzes && z.isPublished ==> Passed(attempts, userId, z.id)
  {
    PublishedQuizIdsDistinct(row.quizzes);
    ChapterCompleteIff(Publish(row), video, attempts, userId);
  }
}
