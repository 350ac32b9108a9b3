/**
 * The questions handler: editing and deleting a question. Both check, in order, that the
 * question exists, that its exam exists and belongs to the caller, and that the exam is still a
 * draft; a failed check leaves the store unchanged.
 */
module QuestionsHandler {
  import opened Wrappers
  import opened Store
  import opened QuestionsDto
  import QuestionsRepository

  /** The first failing check of the chain, or None when all pass. */
  function Guard(db: Database, questionId: nat, teacherId: nat): (r: Option<AppError>)
    reads db
    ensures questionId !in db.questions ==> r == Some(NotFound())
    ensures questionId in db.questions &&
      (db.questions[questionId].examId !in db.exams || db.exams[db.questions[questionId].examId].teacherId != teacherId)
      ==> r == Some(Forbidden())
    ensures questionId in db.questions && db.questions[questionId].examId in db.exams &&
      db.exams[db.questions[questionId].examId].teacherId == teacherId &&
      db.exams[db.questions[questionId].examId].status != Draft
      ==> r == Some(BadRequest(EXAM_NOT_EDITABLE))
    ensures r.None? <==> (questionId in db.questions && db.questions[questionId].examId in db.exams
      && db.exams[db.questions[questionId].examId].teacherId == teacherId
      && db.exams[db.questions[questionId].examId].status == Draft)
  {
    if questionId !in db.questions then Some(NotFound())
    else
      var examId := db.questions[questionId].examId;
      if examId !in db.exams || db.exams[examId].teacherId != teacherId then Some(Forbidden())
      else if db.exams[examId].status != Draft then Some(BadRequest(EXAM_NOT_EDITABLE))
      else None
  }

  /** `update`: the guard chain, then the repository update; only that question (and, when
      options are given, only its options) changes. */
  method Update(db: Database, questionId: nat, teacherId: nat, dto: UpdateQuestionDto) returns (r: Result<Question>)
    requires db.Valid() && PositivePoints(db.questions)
    requires ValidUpdate(dto)
    modifies db
    ensures db.Valid() && PositivePoints(db.questions)
    ensures old(Guard(db, questionId, teacherId)).Some? ==>
      r == Err(old(Guard(db, questionId, teacherId)).value) && db.State() == old(db.State())
    ensures r.Ok? <==> old(Guard(db, questionId, teacherId)).None?
    ensures r.Ok? ==>
      && r.value == QuestionsRepository.Updated(old(db.questions[questionId]), dto)
      && db.questions == old(db.questions)[questionId := r.value]
      && (dto.options.None? ==> db.State() == old(db.State()).(questions := db.questions))
      && (dto.options.Some? ==> db.State() == old(db.State()).(
            questions := db.questions,
            options := QuestionsRepository.WithoutOptionsOf(old(db.options), questionId)
              + QuestionsRepository.OptionRows(questionId, old(db.nextOptionId), dto.options.value),
            nextOptionId := old(db.nextOptionId) + |dto.options.value|))
  {
    var check := Guard(db, questionId, teacherId);
    if check.Some? {
      return Err(check.value);
    }
    r := QuestionsRepository.Update(db, questionId, dto);
  }

  /** `deleteQuestion`: the same guard chain, then the question row, and nothing else, is
      removed. */
  method Delete(db: Database, questionId: nat, teacherId: nat) returns (r: Result<()>)
    requires db.Valid()
    modifies db
    ensures db.Valid()
    ensures old(Guard(db, questionId, teacherId)).Some? ==>
      r == Err(old(Guard(db, questionId, teacherId)).value) && db.State() == old(db.State())
    ensures r.Ok? <==> old(Guard(db, questionId, teacherId)).None?
    ensures r.Ok? ==> db.State() == old(db.State()).(questions := old(db.questions) - {questionId})
  {
    var check := Guard(db, questionId, teacherId);
    if check.Some? {
      return Err(check.value);
    }
    QuestionsRepository.Delete(db, questionId);
    r := Ok(());
  }
}
