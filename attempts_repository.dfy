/**
 * The attempts repository: the `attempts` table and the `attempt_answers` table. The unique
 * key (attempt_id, question_id) that the upsert conflicts on makes the answers a map from
 * that pair to the selected option id.
 */
module AttemptsRepository {
  import opened Wrappers
  import opened Store
  import opened QuestionsRepository

  /** `findByExamAndStudent`: some attempt of the student on the exam, if there is one. */
  method FindByExamAndStudent(db: Database, examId: nat, studentId: nat) returns (r: Option<Attempt>)
    ensures r.Some? ==> r.value in db.attempts.Values && r.value.examId == examId && r.value.studentId == studentId
    ensures r.None? ==> forall id :: id in db.attempts ==>
      db.attempts[id].examId != examId || db.attempts[id].studentId != studentId
  {
    if a :| a in db.attempts.Values && a.examId == examId && a.studentId == studentId {
      r := Some(a);
    } else {
      r := None;
      assert forall id :: id in db.attempts ==> db.attempts[id] in db.attempts.Values;
    }
  }

  /** `create`: a new in-progress attempt under the next serial id, not yet submitted or
      scored. */
  method Create(db: Database, examId: nat, studentId: nat) returns (a: Attempt)
    requires db.Valid()
    modifies db
    ensures db.Valid()
    ensures a == Attempt(old(db.nextAttemptId), examId, studentId, InProgress, None, None, None, None)
    ensures a.id !in old(db.attempts)
    ensures db.State() == old(db.State()).(
      attempts := old(db.attempts)[a.id := a],
      nextAttemptId := old(db.nextAttemptId) + 1)
  {
    a := Attempt(db.nextAttemptId, examId, studentId, InProgress, None, None, None, None);
    db.attempts := db.attempts[a.id := a];
    db.nextAttemptId := db.nextAttemptId + 1;
  }

  /** `saveAnswer`: an upsert; the selected option for (attempt, question) becomes the given
      one, whether or not an answer existed. */
  method SaveAnswer(db: Database, attemptId: nat, questionId: nat, optionId: nat)
    requires db.Valid()
    modifies db
    ensures db.Valid()
    ensures db.State() == old(db.State()).(answers := old(db.answers)[(attemptId, questionId) := optionId])
  {
    db.answers := db.answers[(attemptId, questionId) := optionId];
  }

  /** `getAnswers`: the attempt's answers, as a map from question id to selected option id. */
  function AnswersOf(answers: map<(nat, nat), nat>, attemptId: nat): (r: map<nat, nat>)
    ensures forall q :: q in r <==> (attemptId, q) in answers
    ensures forall q :: q in r ==> r[q] == answers[(attemptId, q)]
  {
    map k | k in answers && k.0 == attemptId :: k.1 := answers[k]
  }

  /** An upsert is seen by `getAnswers` of that attempt as exactly one entry for the question:
      the last write wins, and the attempt's other answers stay as they were. */
  lemma SaveThenGet(answers: map<(nat, nat), nat>, attemptId: nat, questionId: nat, optionId: nat)
    ensures AnswersOf(answers[(attemptId, questionId) := optionId], attemptId)
      == AnswersOf(answers, attemptId)[questionId := optionId]
  {
    var after := answers[(attemptId, questionId) := optionId];
    var lhs, rhs := AnswersOf(after, attemptId), AnswersOf(answers, attemptId)[questionId := optionId];
    forall q ensures q in lhs <==> q in rhs {
      assert q in lhs <==> (attemptId, q) in after;
    }
    forall q | q in lhs ensures lhs[q] == rhs[q] {
      assert lhs[q] == after[(attemptId, q)];
    }
  }

  /** An upsert is not seen by `getAnswers` of any other attempt. */
  lemma SaveLeavesOtherAttempts(answers: map<(nat, nat), nat>, attemptId: nat, questionId: nat, optionId: nat, other: nat)
    requires other != attemptId
    ensures AnswersOf(answers[(attemptId, questionId) := optionId], other) == AnswersOf(answers, other)
  {
    var after := answers[(attemptId, questionId) := optionId];
    var lhs, rhs := AnswersOf(after, other), AnswersOf(answers, other);
    forall q ensures q in lhs <==> q in rhs {
      assert q in lhs <==> (other, q) in after;
    }
    forall q | q in lhs ensures lhs[q] == rhs[q] {
      assert lhs[q] == after[(other, q)];
    }
  }

  /** `getAnswersWithCorrectness` as written: each answer is reported correct when the selected
      option row exists and is marked correct (COALESCE to false), joining on the option id
      alone. */
  function CorrectnessAsWritten(options: map<nat, QuestionOption>, answers: map<(nat, nat), nat>, attemptId: nat)
    : (r: map<nat, bool>)
    ensures forall q :: q in r <==> (attemptId, q) in answers
    ensures forall q :: q in r && answers[(attemptId, q)] !in options ==> !r[q]
    ensures forall q :: q in r && answers[(attemptId, q)] in options ==>
      (r[q] <==> options[answers[(attemptId, q)]].isCorrect)
    ensures forall q :: (q in r && answers[(attemptId, q)] in options
      && options[answers[(attemptId, q)]].questionId == q) ==>
      (r[q] <==> IsOptionCorrect(options, q, answers[(attemptId, q)]))
  {
    map q | q in AnswersOf(answers, attemptId) ::
      var o := AnswersOf(answers, attemptId)[q];
      o in options && options[o].isCorrect
  }

  /** An option of another question that is marked correct is reported correct by the join as
      written, although scoring gives that answer no points. */
  lemma CorrectnessAsWrittenDisagreesWithScoring()
    ensures var options := map[7 := QuestionOption(7, 2, 1, "b", true)];
      var answers := map[(1, 1) := 7];
      CorrectnessAsWritten(options, answers, 1)[1] && !IsOptionCorrect(options, 1, 7)
  {
    var options := map[7 := QuestionOption(7, 2, 1, "b", true)];
    var answers := map[(1, 1) := 7];
    assert AnswersOf(answers, 1)[1] == 7;
  }

  /** `getAnswersWithCorrectness` with the join on both the option id and the question id:
      each answer is reported correct exactly when `IsOptionCorrect` holds for the selected
      option. */
  function Correctness(options: map<nat, QuestionOption>, answers: map<(nat, nat), nat>, attemptId: nat)
    : (r: map<nat, bool>)
    ensures forall q :: q in r <==> (attemptId, q) in answers
    ensures forall q :: q in r ==> (r[q] <==> IsOptionCorrect(options, q, answers[(attemptId, q)]))
    ensures forall q :: q in r && answers[(attemptId, q)] !in options ==> !r[q]
  {
    map q | q in AnswersOf(answers, attemptId) :: IsOptionCorrect(options, q, AnswersOf(answers, attemptId)[q])
  }

  /** The two joins differ only on answers selecting an option of another question: when every
      selected option that exists belongs to the answered question, they report the same. */
  lemma CorrectnessAgreesOnMatchingAnswers(options: map<nat, QuestionOption>, answers: map<(nat, nat), nat>, attemptId: nat)
    requires forall q :: (attemptId, q) in answers && answers[(attemptId, q)] in options ==>
      options[answers[(attemptId, q)]].questionId == q
    ensures CorrectnessAsWritten(options, answers, attemptId) == Correctness(options, answers, attemptId)
  {
    var w, c := CorrectnessAsWritten(options, answers, attemptId), Correctness(options, answers, attemptId);
    forall q | q in w ensures w[q] == c[q] {
      var o := answers[(attemptId, q)];
      if o !in options {
        assert !IsOptionCorrect(options, q, o);
      }
    }
  }

  /** `submit`: fails when no row has the id; otherwise marks the attempt submitted at `now` and
      stores exactly the given scores. */
  method Submit(db: Database, attemptId: nat, scorePoints: real, maxPoints: real, scorePercent: real, now: nat)
    returns (r: Result<Attempt>)
    requires db.Valid()
    modifies db
    ensures db.Valid()
    ensures attemptId !in old(db.attempts) ==> r == Err(Internal()) && db.State() == old(db.State())
    ensures attemptId in old(db.attempts) ==>
      && r == Ok(old(db.attempts[attemptId]).(
           status := Submitted, submittedAt := Some(now),
           scorePoints := Some(scorePoints), maxPoints := Some(maxPoints), scorePercent := Some(scorePercent)))
      && db.State() == old(db.State()).(attempts := old(db.attempts)[attemptId := r.value])
  {
    if attemptId !in db.attempts {
      return Err(Internal());
    }
    var a := db.attempts[attemptId].(
      status := Submitted, submittedAt := Some(now),
      scorePoints := Some(scorePoints), maxPoints := Some(maxPoints), scorePercent := Some(scorePercent));
    db.attempts := db.attempts[attemptId := a];
    r := Ok(a);
  }
}
