/**
 * The relational store the repositories work on, as an in-memory database:
 * one map per table keyed by the row id, the exam_assignments table as a set of
 * (examId, studentId) pairs and the attempt_answers table as a map from
 * (attemptId, questionId) to the selected option id. Serial ids come from one
 * counter per table.
 */
module Store {
  import opened Wrappers

  datatype ExamStatus = Draft | Published | Archived
  datatype AttemptStatus = InProgress | Submitted | Expired
  datatype Role = Teacher | Student

  /** A row of `exams`. Timestamps are abstract clock readings. */
  datatype Exam = Exam(
    id: nat,
    teacherId: nat,
    title: string,
    description: Option<string>,
    status: ExamStatus,
    publishedAt: Option<nat>,
    createdAt: nat)

  /** A row of `questions`. */
  datatype Question = Question(id: nat, examId: nat, position: int, prompt: string, points: real)

  /** A row of `question_options`. */
  datatype QuestionOption = QuestionOption(id: nat, questionId: nat, position: int, text: string, isCorrect: bool)

  /** A row of `attempts`; the three score columns are null until submission. */
  datatype Attempt = Attempt(
    id: nat,
    examId: nat,
    studentId: nat,
    status: AttemptStatus,
    submittedAt: Option<nat>,
    scorePoints: Option<real>,
    maxPoints: Option<real>,
    scorePercent: Option<real>)

  /** A snapshot of every table and id counter. */
  datatype DbState = DbState(
    exams: map<nat, Exam>,
    assignments: set<(nat, nat)>,
    questions: map<nat, Question>,
    options: map<nat, QuestionOption>,
    attempts: map<nat, Attempt>,
    answers: map<(nat, nat), nat>,
    nextExamId: nat,
    nextQuestionId: nat,
    nextOptionId: nat,
    nextAttemptId: nat)

  /** Every row is stored under its own id, ids are issued below the counters, and an exam
      carries a publication time exactly when it is published. */
  ghost predicate WellFormed(s: DbState) {
    && 0 < s.nextExamId && 0 < s.nextQuestionId && 0 < s.nextOptionId && 0 < s.nextAttemptId
    && (forall id :: id in s.exams ==>
          s.exams[id].id == id && 0 < id < s.nextExamId &&
          (s.exams[id].status == Published <==> s.exams[id].publishedAt.Some?))
    && (forall id :: id in s.questions ==> s.questions[id].id == id && 0 < id < s.nextQuestionId)
    && (forall id :: id in s.options ==> s.options[id].id == id && 0 < id < s.nextOptionId)
    && (forall id :: id in s.attempts ==> s.attempts[id].id == id && 0 < id < s.nextAttemptId)
  }

  /** Adding an option row under the next option id keeps the store well formed. */
  lemma AddOptionWellFormed(s: DbState, row: QuestionOption)
    requires WellFormed(s) && row.id == s.nextOptionId
    ensures WellFormed(s.(options := s.options[row.id := row], nextOptionId := s.nextOptionId + 1))
  {
  }

  /** Questions only ever reach the store through validated requests, so their points are positive. */
  ghost predicate PositivePoints(questions: map<nat, Question>) {
    forall id :: id in questions ==> questions[id].points > 0.0
  }

  /** At most one attempt per (exam, student), the rule startAttempt enforces. */
  ghost predicate OneAttemptPerStudent(attempts: map<nat, Attempt>) {
    forall a, b ::
      a in attempts && b in attempts &&
      attempts[a].examId == attempts[b].examId && attempts[a].studentId == attempts[b].studentId
      ==> a == b
  }

  class Database {
    var exams: map<nat, Exam>
    var assignments: set<(nat, nat)>
    var questions: map<nat, Question>
    var options: map<nat, QuestionOption>
    var attempts: map<nat, Attempt>
    var answers: map<(nat, nat), nat>
    var nextExamId: nat
    var nextQuestionId: nat
    var nextOptionId: nat
    var nextAttemptId: nat

    ghost function State(): DbState
      reads this
    {
      DbState(exams, assignments, questions, options, attempts, answers,
              nextExamId, nextQuestionId, nextOptionId, nextAttemptId)
    }

    ghost predicate Valid()
      reads this
    {
      WellFormed(State())
    }

    /** An empty database whose serial ids start at 1. */
    constructor ()
      ensures Valid()
      ensures State() == DbState(map[], {}, map[], map[], map[], map[], 1, 1, 1, 1)
    {
      exams, assignments, questions, options := map[], {}, map[], map[];
      attempts, answers := map[], map[];
      nextExamId, nextQuestionId, nextOptionId, nextAttemptId := 1, 1, 1, 1;
    }
  }
}
