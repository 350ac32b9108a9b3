/**
 * The exams handler: the exam lifecycle. An exam is created as a draft, edited and given
 * questions only while it is a draft and only by its owner, and published once it has at least
 * one question; a student starts at most one attempt on a published exam they are assigned
 * to. Every operation runs its checks in a fixed order, fails at the first that does not hold
 * and then leaves the store unchanged.
 */
module ExamsHandler {
  import opened Wrappers
  import opened Store
  import opened Listing
  import opened QuestionsDto
  import opened QuestionsRepository
  import ExamsRepository
  import AttemptsRepository

  /** The checks shared by the teacher operations: the exam exists, then the caller owns it. */
  function OwnerCheck(exams: map<nat, Exam>, examId: nat, teacherId: nat): (r: Option<AppError>)
    ensures examId !in exams ==> r == Some(NotFound())
    ensures examId in exams && exams[examId].teacherId != teacherId ==> r == Some(Forbidden())
    ensures r.None? <==> examId in exams && exams[examId].teacherId == teacherId
  {
    if examId !in exams then Some(NotFound())
    else if exams[examId].teacherId != teacherId then Some(Forbidden())
    else None
  }

  /** `create`: a new draft exam owned by the teacher; answers its id and status. */
  method Create(db: Database, teacherId: nat, title: string, description: Option<string>, now: nat)
    returns (id: nat, status: ExamStatus)
    requires db.Valid()
    requires |title| >= 1
    modifies db
    ensures db.Valid()
    ensures status == Draft && id !in old(db.exams)
    ensures db.State() == old(db.State()).(
      exams := old(db.exams)[id := Exam(id, teacherId, title, description, Draft, None, now)],
      nextExamId := old(db.nextExamId) + 1)
  {
    var exam := ExamsRepository.Create(db, teacherId, title, description, now);
    id, status := exam.id, exam.status;
  }

  /** `list`: a teacher gets their own exams, a student the published exams assigned to them;
      newest first. */
  method List(db: Database, userId: nat, role: Role) returns (es: seq<Exam>)
    ensures role.Teacher? ==> forall e :: e in es <==> e in db.exams.Values && e.teacherId == userId
    ensures role.Student? ==> forall e :: e in es <==>
      e in db.exams.Values && e.status == Published && (e.id, userId) in db.assignments
    ensures Distinct(es)
    ensures forall i, j :: 0 <= i < j < |es| ==> es[i].createdAt >= es[j].createdAt
  {
    if role.Teacher? {
      es := ExamsRepository.FindByTeacher(db, userId);
    } else {
      es := ExamsRepository.FindAssignedToStudent(db, userId);
    }
  }

  /** `getById`: not found; then a teacher must own the exam and a student must be assigned to
      it (whatever its status). */
  function GetById(db: Database, examId: nat, userId: nat, role: Role): (r: Result<Exam>)
    reads db
    ensures examId !in db.exams ==> r == Err(NotFound())
    ensures examId in db.exams && role.Teacher? && db.exams[examId].teacherId != userId ==> r == Err(Forbidden())
    ensures examId in db.exams && role.Student? && (examId, userId) !in db.assignments ==> r == Err(Forbidden())
    ensures r.Ok? <==> (examId in db.exams
      && (role.Teacher? ==> db.exams[examId].teacherId == userId)
      && (role.Student? ==> (examId, userId) in db.assignments))
    ensures r.Ok? ==> r.value == db.exams[examId]
  {
    if examId !in db.exams then Err(NotFound())
    else
      var exam := db.exams[examId];
      if role.Teacher? && exam.teacherId != userId then Err(Forbidden())
      else if role.Student? && !ExamsRepository.IsStudentAssigned(db, examId, userId) then Err(Forbidden())
      else Ok(exam)
  }

  /** `update`: not found, forbidden, then `EXAM_NOT_EDITABLE` unless the exam is a draft;
      otherwise the supplied fields change and the exam stays a draft. */
  method Update(db: Database, examId: nat, teacherId: nat, title: Option<string>, description: Option<string>)
    returns (r: Result<Exam>)
    requires db.Valid()
    requires title.Some? ==> |title.value| >= 1
    modifies db
    ensures db.Valid()
    ensures OwnerCheck(old(db.exams), examId, teacherId).Some? ==>
      r == Err(OwnerCheck(old(db.exams), examId, teacherId).value)
    ensures OwnerCheck(old(db.exams), examId, teacherId).None? && old(db.exams[examId].status) != Draft ==>
      r == Err(BadRequest(EXAM_NOT_EDITABLE))
    ensures r.Err? ==> db.State() == old(db.State())
    ensures r.Ok? <==> (OwnerCheck(old(db.exams), examId, teacherId).None? && old(db.exams[examId].status) == Draft)
    ensures r.Ok? ==>
      && r.value == ExamsRepository.Edited(old(db.exams[examId]), title, description)
      && r.value.status == Draft
      && db.State() == old(db.State()).(exams := old(db.exams)[examId := r.value])
  {
    var check := OwnerCheck(db.exams, examId, teacherId);
    if check.Some? {
      return Err(check.value);
    }
    if db.exams[examId].status != Draft {
      return Err(BadRequest(EXAM_NOT_EDITABLE));
    }
    r := ExamsRepository.Update(db, examId, title, description);
  }

  /** `publish`: not found, forbidden, `ALREADY_PUBLISHED` unless a draft, `NO_QUESTIONS` when
      the exam has none; otherwise the exam is published at `now`. */
  method Publish(db: Database, examId: nat, teacherId: nat, now: nat) returns (r: Result<Exam>)
    requires db.Valid()
    modifies db
    ensures db.Valid()
    ensures OwnerCheck(old(db.exams), examId, teacherId).Some? ==>
      r == Err(OwnerCheck(old(db.exams), examId, teacherId).value)
    ensures OwnerCheck(old(db.exams), examId, teacherId).None? && old(db.exams[examId].status) != Draft ==>
      r == Err(BadRequest(ALREADY_PUBLISHED))
    ensures (OwnerCheck(old(db.exams), examId, teacherId).None? && old(db.exams[examId].status) == Draft
      && ExamQuestions(old(db.questions), examId) == {}) ==> r == Err(BadRequest(NO_QUESTIONS))
    ensures r.Err? ==> db.State() == old(db.State())
    ensures r.Ok? <==> (OwnerCheck(old(db.exams), examId, teacherId).None? && old(db.exams[examId].status) == Draft
      && ExamQuestions(old(db.questions), examId) != {})
    ensures r.Ok? ==>
      && r.value == old(db.exams[examId]).(status := Published, publishedAt := Some(now))
      && db.State() == old(db.State()).(exams := old(db.exams)[examId := r.value])
  {
    var check := OwnerCheck(db.exams, examId, teacherId);
    if check.Some? {
      return Err(check.value);
    }
    if db.exams[examId].status != Draft {
      return Err(BadRequest(ALREADY_PUBLISHED));
    }
    var questionCount := CountByExam(db, examId);
    if questionCount == 0 {
      return Err(BadRequest(NO_QUESTIONS));
    }
    r := ExamsRepository.Publish(db, examId, now);
  }

  /** `addQuestion`: not found, forbidden, `EXAM_NOT_EDITABLE` unless a draft; otherwise the
      validated question is stored one past the exam's largest position, with its options at
      positions 1..n. */
  method AddQuestion(db: Database, examId: nat, teacherId: nat, dto: CreateQuestionDto) returns (r: Result<Question>)
    requires db.Valid() && PositivePoints(db.questions)
    requires IsCreateQuestionDto(dto)
    modifies db
    ensures db.Valid() && PositivePoints(db.questions)
    ensures OwnerCheck(old(db.exams), examId, teacherId).Some? ==>
      r == Err(OwnerCheck(old(db.exams), examId, teacherId).value)
    ensures OwnerCheck(old(db.exams), examId, teacherId).None? && old(db.exams[examId].status) != Draft ==>
      r == Err(BadRequest(EXAM_NOT_EDITABLE))
    ensures r.Err? ==> db.State() == old(db.State())
    ensures r.Ok? <==> (OwnerCheck(old(db.exams), examId, teacherId).None? && old(db.exams[examId].status) == Draft)
    ensures r.Ok? ==>
      && r.value.id == old(db.nextQuestionId) && r.value.id !in old(db.questions)
      && r.value.examId == examId && r.value.prompt == dto.prompt && r.value.points == dto.points
      && IsNextPosition(old(db.questions), examId, r.value.position)
      && db.State() == old(db.State()).(
           questions := old(db.questions)[r.value.id := r.value],
           options := old(db.options) + OptionRows(r.value.id, old(db.nextOptionId), dto.options),
           nextQuestionId := old(db.nextQuestionId) + 1,
           nextOptionId := old(db.nextOptionId) + |dto.options|)
  {
    var check := OwnerCheck(db.exams, examId, teacherId);
    if check.Some? {
      return Err(check.value);
    }
    if db.exams[examId].status != Draft {
      return Err(BadRequest(EXAM_NOT_EDITABLE));
    }
    var position := GetNextPosition(db, examId);
    var q := QuestionsRepository.Create(db, examId, position, dto.prompt, dto.points, dto.options);
    r := Ok(q);
  }

  /** `assignStudents`: not found, forbidden; otherwise the students are assigned, whatever
      the exam's status. */
  method AssignStudents(db: Database, examId: nat, teacherId: nat, studentIds: seq<nat>) returns (r: Result<()>)
    requires db.Valid()
    modifies db
    ensures db.Valid()
    ensures OwnerCheck(old(db.exams), examId, teacherId).Some? ==>
      r == Err(OwnerCheck(old(db.exams), examId, teacherId).value) && db.State() == old(db.State())
    ensures r.Ok? <==> OwnerCheck(old(db.exams), examId, teacherId).None?
    ensures r.Ok? ==> db.State() == old(db.State()).(
      assignments := old(db.assignments) + ExamsRepository.Assignments(examId, studentIds))
  {
    var check := OwnerCheck(db.exams, examId, teacherId);
    if check.Some? {
      return Err(check.value);
    }
    ExamsRepository.AssignStudents(db, examId, studentIds);
    r := Ok(());
  }

  /** `startAttempt`: not found, `EXAM_NOT_AVAILABLE` unless published, forbidden unless
      assigned, `ALREADY_ATTEMPTED` when the student has an attempt on the exam; otherwise a new
      in-progress attempt. Hence at most one attempt per exam and student. */
  method StartAttempt(db: Database, examId: nat, studentId: nat) returns (r: Result<nat>)
    requires db.Valid() && OneAttemptPerStudent(db.attempts)
    modifies db
    ensures db.Valid() && OneAttemptPerStudent(db.attempts)
    ensures examId !in old(db.exams) ==> r == Err(NotFound())
    ensures examId in old(db.exams) && old(db.exams[examId].status) != Published ==>
      r == Err(BadRequest(EXAM_NOT_AVAILABLE))
    ensures (examId in old(db.exams) && old(db.exams[examId].status) == Published
      && (examId, studentId) !in old(db.assignments)) ==> r == Err(Forbidden())
    ensures (examId in old(db.exams) && old(db.exams[examId].status) == Published
      && (examId, studentId) in old(db.assignments) && HasAttempt(old(db.attempts), examId, studentId)) ==>
      r == Err(BadRequest(ALREADY_ATTEMPTED))
    ensures r.Err? ==> db.State() == old(db.State())
    ensures r.Ok? <==> (examId in old(db.exams) && old(db.exams[examId].status) == Published
      && (examId, studentId) in old(db.assignments) && !HasAttempt(old(db.attempts), examId, studentId))
    ensures r.Ok? ==>
      && r.value == old(db.nextAttemptId)
      && db.State() == old(db.State()).(
           attempts := old(db.attempts)[r.value := Attempt(r.value, examId, studentId, InProgress, None, None, None, None)],
           nextAttemptId := old(db.nextAttemptId) + 1)
  {
    if examId !in db.exams {
      return Err(NotFound());
    }
    if db.exams[examId].status != Published {
      return Err(BadRequest(EXAM_NOT_AVAILABLE));
    }
    if !ExamsRepository.IsStudentAssigned(db, examId, studentId) {
      return Err(Forbidden());
    }
    var existing := AttemptsRepository.FindByExamAndStudent(db, examId, studentId);
    if existing.Some? {
      return Err(BadRequest(ALREADY_ATTEMPTED));
    }
    var attempt := AttemptsRepository.Create(db, examId, studentId);
    r := Ok(attempt.id);
  }

  /** The student already has an attempt on the exam. */
  ghost predicate HasAttempt(attempts: map<nat, Attempt>, examId: nat, studentId: nat) {
    exists id :: id in attempts && attempts[id].examId == examId && attempts[id].studentId == studentId
  }
}
