/**
 * The attempts handler: saving an answer, submitting an attempt with its score, and reading the
 * result. Each operation runs its checks in a fixed order and fails at the first that does not
 * hold; a failure leaves the store unchanged.
 */
module AttemptsHandler {
  import opened Wrappers
  import opened Store
  import opened Listing
  import opened QuestionsRepository
  import AttemptsRepository
  import opened Scoring

  /** `saveAnswer`: not found, then not the student's attempt, then no longer in progress;
      only otherwise is the answer upserted. */
  method SaveAnswer(db: Database, attemptId: nat, studentId: nat, questionId: nat, optionId: nat)
    returns (r: Result<()>)
    requires db.Valid()
    modifies db
    ensures db.Valid()
    ensures attemptId !in old(db.attempts) ==> r == Err(NotFound())
    ensures attemptId in old(db.attempts) && old(db.attempts[attemptId].studentId) != studentId ==>
      r == Err(Forbidden())
    ensures (attemptId in old(db.attempts) && old(db.attempts[attemptId].studentId) == studentId
      && old(db.attempts[attemptId].status) != InProgress) ==> r == Err(BadRequest(ATTEMPT_SUBMITTED))
    ensures r.Err? ==> db.State() == old(db.State())
    ensures r.Ok? <==> (attemptId in old(db.attempts) && old(db.attempts[attemptId].studentId) == studentId
      && old(db.attempts[attemptId].status) == InProgress)
    ensures r.Ok? ==> db.State() == old(db.State()).(answers := old(db.answers)[(attemptId, questionId) := optionId])
  {
    if attemptId !in db.attempts {
      return Err(NotFound());
    }
    var attempt := db.attempts[attemptId];
    if attempt.studentId != studentId {
      return Err(Forbidden());
    }
    if attempt.status != InProgress {
      return Err(BadRequest(ATTEMPT_SUBMITTED));
    }
    AttemptsRepository.SaveAnswer(db, attemptId, questionId, optionId);
    r := Ok(());
  }

  /** The attempt as stored by a successful submit at `now`: submitted, with the exam's score,
      maximum and percentage computed from the attempt's answers. */
  ghost function SubmittedAttempt(s: DbState, attemptId: nat, now: nat): Attempt
    requires attemptId in s.attempts
  {
    var a := s.attempts[attemptId];
    var answers := AttemptsRepository.AnswersOf(s.answers, attemptId);
    var score := ExamScorePoints(s.questions, s.options, answers, a.examId);
    var max := ExamMaxPoints(s.questions, a.examId);
    a.(status := Submitted, submittedAt := Some(now),
       scorePoints := Some(score), maxPoints := Some(max), scorePercent := Some(ScorePercent(score, max)))
  }

  /** `submit`: not found, then not the student's attempt, then not in progress (so a second
      submit fails and leaves the stored scores alone); otherwise scores the attempt and stores
      the result. */
  method Submit(db: Database, attemptId: nat, studentId: nat, now: nat) returns (r: Result<Attempt>)
    requires db.Valid()
    modifies db
    ensures db.Valid()
    ensures attemptId !in old(db.attempts) ==> r == Err(NotFound())
    ensures attemptId in old(db.attempts) && old(db.attempts[attemptId].studentId) != studentId ==>
      r == Err(Forbidden())
    ensures (attemptId in old(db.attempts) && old(db.attempts[attemptId].studentId) == studentId
      && old(db.attempts[attemptId].status) != InProgress) ==> r == Err(BadRequest(ATTEMPT_SUBMITTED))
    ensures r.Err? ==> db.State() == old(db.State())
    ensures r.Ok? <==> (attemptId in old(db.attempts) && old(db.attempts[attemptId].studentId) == studentId
      && old(db.attempts[attemptId].status) == InProgress)
    ensures r.Ok? ==>
      && r.value == SubmittedAttempt(old(db.State()), attemptId, now)
      && db.State() == old(db.State()).(attempts := old(db.attempts)[attemptId := r.value])
  {
    if attemptId !in db.attempts {
      return Err(NotFound());
    }
    var attempt := db.attempts[attemptId];
    if attempt.studentId != studentId {
      return Err(Forbidden());
    }
    if attempt.status != InProgress {
      return Err(BadRequest(ATTEMPT_SUBMITTED));
    }
    var answers := AttemptsRepository.AnswersOf(db.answers, attemptId);
    var questions := FindByExam(db, attempt.examId);
    var scorePoints, maxPoints := ScoreQuestions(questions, answers, db.options);
    ListingGivesExamTotals(db.questions, db.options, answers, attempt.examId, questions);
    var scorePercent := ScorePercent(scorePoints, maxPoints);
    r := AttemptsRepository.Submit(db, attemptId, scorePoints, maxPoints, scorePercent, now);
  }

  /** A successfully submitted attempt, with positive question points stored, holds a score
      between 0 and its maximum and a percentage between 0 and 100. */
  lemma SubmittedScoreBounds(s: DbState, attemptId: nat, now: nat)
    requires attemptId in s.attempts
    requires PositivePoints(s.questions)
    ensures var a := SubmittedAttempt(s, attemptId, now);
      && a.status == Submitted
      && 0.0 <= a.scorePoints.value <= a.maxPoints.value
      && 0.0 <= a.scorePercent.value <= 100.0
  {
    var a := s.attempts[attemptId];
    ExamScoreBounds(s.questions, s.options, AttemptsRepository.AnswersOf(s.answers, attemptId), a.examId);
  }

  datatype ResultView = ResultView(scorePercent: Option<real>, correct: map<nat, bool>)

  /** `getResult`: not found, then not yet submitted, then (for a student) not their own
      attempt; otherwise the stored percentage and, per answered question, whether the
      answer is correct as the repository's join reports it: the selected option exists and is
      marked correct, whichever question it belongs to. A teacher may read any submitted
      attempt. */
  function GetResult(db: Database, attemptId: nat, userId: nat, role: Role): (r: Result<ResultView>)
    reads db
    ensures attemptId !in db.attempts ==> r == Err(NotFound())
    ensures attemptId in db.attempts && db.attempts[attemptId].status != Submitted ==>
      r == Err(BadRequest(ATTEMPT_NOT_SUBMITTED))
    ensures (attemptId in db.attempts && db.attempts[attemptId].status == Submitted
      && role.Student? && db.attempts[attemptId].studentId != userId) ==> r == Err(Forbidden())
    ensures r.Ok? <==> (attemptId in db.attempts && db.attempts[attemptId].status == Submitted
      && (role.Teacher? || db.attempts[attemptId].studentId == userId))
    ensures r.Ok? ==>
      && r.value.scorePercent == db.attempts[attemptId].scorePercent
      && (forall q :: q in r.value.correct <==> (attemptId, q) in db.answers)
      && (forall q :: q in r.value.correct ==>
            (r.value.correct[q] <==> (db.answers[(attemptId, q)] in db.options
              && db.options[db.answers[(attemptId, q)]].isCorrect)))
  {
    if attemptId !in db.attempts then Err(NotFound())
    else
      var attempt := db.attempts[attemptId];
      if attempt.status != Submitted then Err(BadRequest(ATTEMPT_NOT_SUBMITTED))
      else if role.Student? && attempt.studentId != userId then Err(Forbidden())
      else Ok(ResultView(attempt.scorePercent, AttemptsRepository.CorrectnessAsWritten(db.options, db.answers, attemptId)))
  }

  /** `getResult` over the corrected join: the same outcome, except that an answer is reported
      correct exactly when `IsOptionCorrect` holds for the selected option. */
  function GetResultCorrected(db: Database, attemptId: nat, userId: nat, role: Role): (r: Result<ResultView>)
    reads db
    ensures GetResult(db, attemptId, userId, role).Err? ==> r == GetResult(db, attemptId, userId, role)
    ensures attemptId !in db.attempts ==> r == Err(NotFound())
    ensures attemptId in db.attempts && db.attempts[attemptId].status != Submitted ==>
      r == Err(BadRequest(ATTEMPT_NOT_SUBMITTED))
    ensures (attemptId in db.attempts && db.attempts[attemptId].status == Submitted
      && role.Student? && db.attempts[attemptId].studentId != userId) ==> r == Err(Forbidden())
    ensures r.Ok? <==> GetResult(db, attemptId, userId, role).Ok?
    ensures r.Ok? ==>
      && r.value.scorePercent == db.attempts[attemptId].scorePercent
      && (forall q :: q in r.value.correct <==> (attemptId, q) in db.answers)
      && (forall q :: q in r.value.correct ==>
            (r.value.correct[q] <==> IsOptionCorrect(db.options, q, db.answers[(attemptId, q)])))
  {
    match GetResult(db, attemptId, userId, role)
    case Err(e) => Err(e)
    case Ok(view) => Ok(view.(correct := AttemptsRepository.Correctness(db.options, db.answers, attemptId)))
  }
}
