/**
 * The assignments repository: the student's exam overview, one row per published exam and
 * attempt of the student on it (LEFT JOIN), a row without attempt when there is none. A row is
 * `completed` when its attempt is submitted and `pending` otherwise.
 */
module AssignmentsRepository {
  import opened Wrappers
  import opened Store
  import opened Listing

  datatype OverviewStatus = Pending | Completed

  /** A row of the overview; the attempt columns are null when the student has no attempt. */
  datatype AvailableExam = AvailableExam(
    id: nat,
    examId: nat,
    title: string,
    description: Option<string>,
    status: OverviewStatus,
    publishedAt: Option<nat>,
    attemptId: Option<nat>,
    score: Option<real>,
    completedAt: Option<nat>)

  /** The row the join produces for an exam and, if any, one attempt on it. */
  function Row(e: Exam, a: Option<Attempt>): AvailableExam {
    AvailableExam(
      e.id, e.id, e.title, e.description,
      if a.Some? && a.value.status == Submitted then Completed else Pending,
      e.publishedAt,
      if a.Some? then Some(a.value.id) else None,
      if a.Some? then a.value.scorePercent else None,
      if a.Some? then a.value.submittedAt else None)
  }

  predicate NoAttempt(attempts: map<nat, Attempt>, examId: nat, studentId: nat) {
    forall id :: id in attempts ==> attempts[id].examId != examId || attempts[id].studentId != studentId
  }

  /** The rows of `findAllPublishedForStudent`: every published exam, joined with the student's
      attempts on it. */
  function Overview(exams: map<nat, Exam>, attempts: map<nat, Attempt>, studentId: nat): set<AvailableExam> {
    (set e, a | e in exams.Values && e.status == Published && a in attempts.Values
                && a.examId == e.id && a.studentId == studentId :: Row(e, Some(a)))
    + (set e | e in exams.Values && e.status == Published && NoAttempt(attempts, e.id, studentId) :: Row(e, None))
  }

  /** The ORDER BY key of `published_at DESC`. */
  function LatestPublishedFirst(r: AvailableExam): int {
    if r.publishedAt.Some? then 0 - r.publishedAt.value as int else 0
  }

  /** `findAllPublishedForStudent`: the overview rows, most recently published first. */
  method FindAllPublishedForStudent(db: Database, studentId: nat) returns (rows: seq<AvailableExam>)
    requires db.Valid()
    ensures IsListing(Overview(db.exams, db.attempts, studentId), LatestPublishedFirst, rows)
    ensures forall i :: 0 <= i < |rows| ==> rows[i].publishedAt.Some?
    ensures forall i, j :: 0 <= i < j < |rows| ==> rows[i].publishedAt.value >= rows[j].publishedAt.value
  {
    rows := SortedListing(Overview(db.exams, db.attempts, studentId), LatestPublishedFirst);
    forall i | 0 <= i < |rows| ensures rows[i].publishedAt.Some? {
      RowFacts(db.State(), studentId, rows[i]);
    }
  }

  /** Every overview row is about a published exam; a row without attempt is pending and has
      no attempt, score or completion time, and the student has no attempt on that exam; a row
      with an attempt is completed exactly when that attempt is submitted. */
  lemma RowFacts(s: DbState, studentId: nat, r: AvailableExam)
    requires WellFormed(s)
    requires r in Overview(s.exams, s.attempts, studentId)
    ensures r.examId in s.exams && s.exams[r.examId].status == Published && r.publishedAt.Some?
    ensures r.attemptId.None? ==>
      r.status == Pending && r.score.None? && r.completedAt.None? && NoAttempt(s.attempts, r.examId, studentId)
    ensures r.attemptId.Some? ==>
      && r.attemptId.value in s.attempts
      && s.attempts[r.attemptId.value].examId == r.examId
      && s.attempts[r.attemptId.value].studentId == studentId
      && (r.status == Completed <==> s.attempts[r.attemptId.value].status == Submitted)
      && r.score == s.attempts[r.attemptId.value].scorePercent
      && r.completedAt == s.attempts[r.attemptId.value].submittedAt
  {
    if e, a :| e in s.exams.Values && e.status == Published && a in s.attempts.Values
               && a.examId == e.id && a.studentId == studentId && r == Row(e, Some(a)) {
      var k :| k in s.exams && s.exams[k] == e;
      var j :| j in s.attempts && s.attempts[j] == a;
    } else {
      var e :| e in s.exams.Values && e.status == Published && NoAttempt(s.attempts, e.id, studentId) && r == Row(e, None);
      var k :| k in s.exams && s.exams[k] == e;
    }
  }

  /** Every published exam appears in the overview. */
  lemma PublishedExamListed(s: DbState, studentId: nat, examId: nat)
    requires WellFormed(s)
    requires examId in s.exams && s.exams[examId].status == Published
    ensures exists r :: r in Overview(s.exams, s.attempts, studentId) && r.examId == examId
  {
    var e := s.exams[examId];
    if NoAttempt(s.attempts, examId, studentId) {
      assert Row(e, None) in Overview(s.exams, s.attempts, studentId);
    } else {
      var j :| j in s.attempts && s.attempts[j].examId == examId && s.attempts[j].studentId == studentId;
      assert Row(e, Some(s.attempts[j])) in Overview(s.exams, s.attempts, studentId);
    }
  }

  /** With at most one attempt per exam and student, the overview has exactly one row per
      published exam. */
  lemma OneRowPerExam(s: DbState, studentId: nat, r1: AvailableExam, r2: AvailableExam)
    requires WellFormed(s) && OneAttemptPerStudent(s.attempts)
    requires r1 in Overview(s.exams, s.attempts, studentId) && r2 in Overview(s.exams, s.attempts, studentId)
    requires r1.examId == r2.examId
    ensures r1 == r2
  {
    RowFacts(s, studentId, r1);
    RowFacts(s, studentId, r2);
    var e := s.exams[r1.examId];
    if r1.attemptId.Some? {
      assert r2.attemptId.Some?;
      assert r1 == Row(e, Some(s.attempts[r1.attemptId.value]));
      assert r2 == Row(e, Some(s.attempts[r2.attemptId.value]));
    } else {
      assert r2.attemptId.None?;
      assert r1 == Row(e, None) && r2 == Row(e, None);
    }
  }
}
