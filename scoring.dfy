/**
 * Scoring of a submitted attempt. The maximum is the sum of the points of the exam's
 * questions; the score is the sum of the points of the questions whose saved answer selects an
 * option that is correct for that question. `answers` maps a question id to the selected
 * option id, as `getAnswers` returns them for one attempt.
 */
module Scoring {
  import opened Store
  import opened Listing
  import opened QuestionsRepository

  function Points(q: Question): real { q.points }

  /** The question has a saved answer and the selected option is a correct option of it. */
  predicate AnsweredCorrectly(q: Question, answers: map<nat, nat>, options: map<nat, QuestionOption>) {
    q.id in answers && IsOptionCorrect(options, q.id, answers[q.id])
  }

  /** What one question adds to the score. */
  function Credit(q: Question, answers: map<nat, nat>, options: map<nat, QuestionOption>): real {
    if AnsweredCorrectly(q, answers, options) then q.points else 0.0
  }

  function CreditFor(answers: map<nat, nat>, options: map<nat, QuestionOption>): Question -> real {
    q => Credit(q, answers, options)
  }

  function MaxPoints(qs: seq<Question>): real {
    Sum(qs, Points)
  }

  function ScorePoints(qs: seq<Question>, answers: map<nat, nat>, options: map<nat, QuestionOption>): real {
    Sum(qs, CreditFor(answers, options))
  }

  /** The questions of `qs` that are answered correctly, in order. */
  function CorrectlyAnswered(qs: seq<Question>, answers: map<nat, nat>, options: map<nat, QuestionOption>)
    : (r: seq<Question>)
    ensures forall q :: q in r <==> q in qs && AnsweredCorrectly(q, answers, options)
  {
    if qs == [] then []
    else
      var init := CorrectlyAnswered(qs[..|qs| - 1], answers, options);
      var last := qs[|qs| - 1];
      assert forall q :: q in qs <==> q in qs[..|qs| - 1] || q == last;
      if AnsweredCorrectly(last, answers, options) then init + [last] else init
  }

  ghost predicate NonNegativePoints(qs: seq<Question>) {
    forall i :: 0 <= i < |qs| ==> qs[i].points >= 0.0
  }

  /** The scoring loop of `submit`: both accumulators start at 0; every question adds its points
      to the maximum, and to the score when its answer is correct. */
  method ScoreQuestions(qs: seq<Question>, answers: map<nat, nat>, options: map<nat, QuestionOption>)
    returns (scorePoints: real, maxPoints: real)
    ensures maxPoints == MaxPoints(qs)
    ensures scorePoints == ScorePoints(qs, answers, options)
  {
    scorePoints, maxPoints := 0.0, 0.0;
    for i := 0 to |qs|
      invariant maxPoints == Sum(qs[..i], Points)
      invariant scorePoints == Sum(qs[..i], CreditFor(answers, options))
    {
      var question := qs[i];
      assert qs[..i + 1][..i] == qs[..i];
      maxPoints := maxPoints + question.points;
      if question.id in answers {
        var isCorrect := IsOptionCorrect(options, question.id, answers[question.id]);
        if isCorrect {
          scorePoints := scorePoints + question.points;
        }
      }
    }
    assert qs[..|qs|] == qs;
  }

  /** The score is the sum of the points of exactly the correctly answered questions;
      unanswered questions contribute nothing. */
  lemma {:induction false} ScoreIsCorrectPoints(qs: seq<Question>, answers: map<nat, nat>, options: map<nat, QuestionOption>)
    ensures ScorePoints(qs, answers, options) == MaxPoints(CorrectlyAnswered(qs, answers, options))
  {
    if qs != [] {
      var init := qs[..|qs| - 1];
      ScoreIsCorrectPoints(init, answers, options);
      var c := CorrectlyAnswered(init, answers, options);
      if AnsweredCorrectly(qs[|qs| - 1], answers, options) {
        assert (c + [qs[|qs| - 1]])[..|c|] == c;
      }
    }
  }

  /** With non-negative points the score lies between 0 and the maximum. */
  lemma {:induction false} ScoreBounds(qs: seq<Question>, answers: map<nat, nat>, options: map<nat, QuestionOption>)
    requires NonNegativePoints(qs)
    ensures 0.0 <= ScorePoints(qs, answers, options) <= MaxPoints(qs)
  {
    if qs != [] {
      ScoreBounds(qs[..|qs| - 1], answers, options);
    }
  }

  /** Every question answered correctly gives full marks. */
  lemma {:induction false} AllCorrectFullMarks(qs: seq<Question>, answers: map<nat, nat>, options: map<nat, QuestionOption>)
    requires forall i :: 0 <= i < |qs| ==> AnsweredCorrectly(qs[i], answers, options)
    ensures ScorePoints(qs, answers, options) == MaxPoints(qs)
  {
    if qs != [] {
      AllCorrectFullMarks(qs[..|qs| - 1], answers, options);
    }
  }

  /** An answer to a question that is not among `qs` does not change the score. */
  lemma {:induction false} ForeignAnswerIgnored(qs: seq<Question>, answers: map<nat, nat>, options: map<nat, QuestionOption>,
                                                questionId: nat, optionId: nat)
    requires forall i :: 0 <= i < |qs| ==> qs[i].id != questionId
    ensures ScorePoints(qs, answers[questionId := optionId], options) == ScorePoints(qs, answers, options)
  {
    if qs != [] {
      ForeignAnswerIgnored(qs[..|qs| - 1], answers, options, questionId, optionId);
    }
  }

  /** Answering a question that had no answer never lowers the score. */
  lemma {:induction false} NewAnswerMonotone(qs: seq<Question>, answers: map<nat, nat>, options: map<nat, QuestionOption>,
                                             questionId: nat, optionId: nat)
    requires NonNegativePoints(qs)
    requires questionId !in answers
    ensures ScorePoints(qs, answers, options) <= ScorePoints(qs, answers[questionId := optionId], options)
  {
    if qs != [] {
      NewAnswerMonotone(qs[..|qs| - 1], answers, options, questionId, optionId);
    }
  }

  /** Two listings of the same questions, in whatever order, give the same maximum and the
      same score. */
  lemma ScoreOrderIndependent(a: seq<Question>, b: seq<Question>, answers: map<nat, nat>, options: map<nat, QuestionOption>)
    requires Distinct(a) && Distinct(b)
    requires forall q :: q in a <==> q in b
    ensures MaxPoints(a) == MaxPoints(b)
    ensures ScorePoints(a, answers, options) == ScorePoints(b, answers, options)
  {
    SumPermutation(a, b, Points);
    SumPermutation(a, b, CreditFor(answers, options));
  }

  lemma HasEnumeration(s: set<Question>)
    ensures exists r :: Enumerates(s, r)
  {
    var r := EnumerationExists(s);
  }

  /** The maximum of an exam: the sum of the points of all its questions. */
  ghost function ExamMaxPoints(questions: map<nat, Question>, examId: nat): real {
    var s := ExamQuestions(questions, examId);
    HasEnumeration(s);
    var r :| Enumerates(s, r);
    MaxPoints(r)
  }

  /** The score of an attempt on an exam: the sum of the points of the exam's correctly
      answered questions. */
  ghost function ExamScorePoints(questions: map<nat, Question>, options: map<nat, QuestionOption>,
                                 answers: map<nat, nat>, examId: nat): real {
    var s := ExamQuestions(questions, examId);
    HasEnumeration(s);
    var r :| Enumerates(s, r);
    ScorePoints(r, answers, options)
  }

  /** Whatever order the exam's questions are listed in, the loop computes the exam's maximum
      and score. */
  lemma ListingGivesExamTotals(questions: map<nat, Question>, options: map<nat, QuestionOption>,
                               answers: map<nat, nat>, examId: nat, qs: seq<Question>)
    requires Enumerates(ExamQuestions(questions, examId), qs)
    ensures MaxPoints(qs) == ExamMaxPoints(questions, examId)
    ensures ScorePoints(qs, answers, options) == ExamScorePoints(questions, options, answers, examId)
  {
    var s := ExamQuestions(questions, examId);
    HasEnumeration(s);
    var r1 :| Enumerates(s, r1) && ExamMaxPoints(questions, examId) == MaxPoints(r1);
    ScoreOrderIndependent(qs, r1, answers, options);
    var r2 :| Enumerates(s, r2) && ExamScorePoints(questions, options, answers, examId) == ScorePoints(r2, answers, options);
    ScoreOrderIndependent(qs, r2, answers, options);
  }

  /** With positive points stored, an exam's score lies between 0 and its maximum. */
  lemma ExamScoreBounds(questions: map<nat, Question>, options: map<nat, QuestionOption>,
                        answers: map<nat, nat>, examId: nat)
    requires PositivePoints(questions)
    ensures 0.0 <= ExamScorePoints(questions, options, answers, examId) <= ExamMaxPoints(questions, examId)
  {
    var s := ExamQuestions(questions, examId);
    var qs := EnumerationExists(s);
    ListingGivesExamTotals(questions, options, answers, examId, qs);
    forall i | 0 <= i < |qs| ensures qs[i].points >= 0.0 {
      assert qs[i] in s;
    }
    ScoreBounds(qs, answers, options);
  }

  /** `scorePercent`: 0 when the maximum is 0, otherwise the score as a percentage of the
      maximum. */
  function ScorePercent(scorePoints: real, maxPoints: real): (p: real)
    ensures maxPoints <= 0.0 ==> p == 0.0
    ensures maxPoints > 0.0 ==> p * maxPoints == scorePoints * 100.0
    ensures 0.0 <= scorePoints <= maxPoints ==> 0.0 <= p <= 100.0
  {
    if maxPoints > 0.0 then scorePoints / maxPoints * 100.0 else 0.0
  }
}
