/**
 * The exams repository: the `exams` table and the `exam_assignments` table.
 */
module ExamsRepository {
  import opened Wrappers
  import opened Store
  import opened Listing

  /** The ORDER BY key of `created_at DESC`: the newest exam has the smallest key. */
  function NewestFirst(e: Exam): int { 0 - e.createdAt as int }

  /** The exams a teacher owns (`WHERE teacher_id = $1`). */
  function OwnedBy(exams: map<nat, Exam>, teacherId: nat): set<Exam> {
    set e | e in exams.Values && e.teacherId == teacherId
  }

  /** The published exams a student is assigned to (the JOIN on `exam_assignments`). */
  function AssignedPublished(db: Database, studentId: nat): set<Exam>
    reads db
  {
    set e | e in db.exams.Values && e.status == Published && (e.id, studentId) in db.assignments
  }

  /** `findByTeacher`: the teacher's exams, newest first. */
  method FindByTeacher(db: Database, teacherId: nat) returns (es: seq<Exam>)
    ensures IsListing(OwnedBy(db.exams, teacherId), NewestFirst, es)
    ensures forall e :: e in es <==> e in db.exams.Values && e.teacherId == teacherId
    ensures forall i, j :: 0 <= i < j < |es| ==> es[i].createdAt >= es[j].createdAt
  {
    es := SortedListing(OwnedBy(db.exams, teacherId), NewestFirst);
  }

  /** `findAssignedToStudent`: exactly the published exams assigned to the student, newest
      first. */
  method FindAssignedToStudent(db: Database, studentId: nat) returns (es: seq<Exam>)
    ensures IsListing(AssignedPublished(db, studentId), NewestFirst, es)
    ensures forall e :: e in es <==>
      e in db.exams.Values && e.status == Published && (e.id, studentId) in db.assignments
    ensures forall i, j :: 0 <= i < j < |es| ==> es[i].createdAt >= es[j].createdAt
  {
    es := SortedListing(AssignedPublished(db, studentId), NewestFirst);
  }

  /** `create`: a new draft exam under the next serial id; a missing description is stored
      as null and nothing is published yet. */
  method Create(db: Database, teacherId: nat, title: string, description: Option<string>, now: nat)
    returns (e: Exam)
    requires db.Valid()
    modifies db
    ensures db.Valid()
    ensures e == Exam(old(db.nextExamId), teacherId, title, description, Draft, None, now)
    ensures e.id !in old(db.exams)
    ensures db.State() == old(db.State()).(
      exams := old(db.exams)[e.id := e],
      nextExamId := old(db.nextExamId) + 1)
  {
    e := Exam(db.nextExamId, teacherId, title, description, Draft, None, now);
    db.exams := db.exams[e.id := e];
    db.nextExamId := db.nextExamId + 1;
  }

  /** The exam row after `update`: only a supplied title or description changes. */
  function Edited(e: Exam, title: Option<string>, description: Option<string>): (r: Exam)
    ensures r.id == e.id && r.teacherId == e.teacherId && r.createdAt == e.createdAt
    ensures r.status == e.status && r.publishedAt == e.publishedAt
    ensures r.title == (if title.Some? then title.value else e.title)
    ensures r.description == (if description.Some? then description else e.description)
  {
    var e1 := if title.Some? then e.(title := title.value) else e;
    if description.Some? then e1.(description := description) else e1
  }

  /** `update`: fails when no row has the id; otherwise edits the supplied fields and never
      the status. */
  method Update(db: Database, id: nat, title: Option<string>, description: Option<string>)
    returns (r: Result<Exam>)
    requires db.Valid()
    modifies db
    ensures db.Valid()
    ensures id !in old(db.exams) ==> r == Err(Internal()) && db.State() == old(db.State())
    ensures id in old(db.exams) ==>
      && r == Ok(Edited(old(db.exams[id]), title, description))
      && r.value.status == old(db.exams[id].status)
      && db.State() == old(db.State()).(exams := old(db.exams)[id := r.value])
  {
    if id !in db.exams {
      return Err(Internal());
    }
    var e := Edited(db.exams[id], title, description);
    db.exams := db.exams[id := e];
    r := Ok(e);
  }

  /** `publish`: sets the status to published and records the publication time. */
  method Publish(db: Database, id: nat, now: nat) returns (r: Result<Exam>)
    requires db.Valid()
    modifies db
    ensures db.Valid()
    ensures id !in old(db.exams) ==> r == Err(Internal()) && db.State() == old(db.State())
    ensures id in old(db.exams) ==>
      && r == Ok(old(db.exams[id]).(status := Published, publishedAt := Some(now)))
      && db.State() == old(db.State()).(exams := old(db.exams)[id := r.value])
  {
    if id !in db.exams {
      return Err(Internal());
    }
    var e := db.exams[id].(status := Published, publishedAt := Some(now));
    db.exams := db.exams[id := e];
    r := Ok(e);
  }

  /** `unpublish`: sets the status back to draft and clears the publication time. */
  method Unpublish(db: Database, id: nat) returns (r: Result<Exam>)
    requires db.Valid()
    modifies db
    ensures db.Valid()
    ensures id !in old(db.exams) ==> r == Err(Internal()) && db.State() == old(db.State())
    ensures id in old(db.exams) ==>
      && r == Ok(old(db.exams[id]).(status := Draft, publishedAt := None))
      && db.State() == old(db.State()).(exams := old(db.exams)[id := r.value])
  {
    if id !in db.exams {
      return Err(Internal());
    }
    var e := db.exams[id].(status := Draft, publishedAt := None);
    db.exams := db.exams[id := e];
    r := Ok(e);
  }

  /** `isStudentAssigned`: an EXISTS over `exam_assignments`. */
  predicate IsStudentAssigned(db: Database, examId: nat, studentId: nat)
    reads db
  {
    (examId, studentId) in db.assignments
  }

  /** The pairs `assignStudents` inserts. */
  function Assignments(examId: nat, studentIds: seq<nat>): (pairs: set<(nat, nat)>)
    ensures forall e, s :: (e, s) in pairs <==> e == examId && s in studentIds
  {
    set s | s in studentIds :: (examId, s)
  }

  /** `assignStudents`: inserts one pair per student id; an existing pair is left alone
      (ON CONFLICT DO NOTHING). */
  method AssignStudents(db: Database, examId: nat, studentIds: seq<nat>)
    requires db.Valid()
    modifies db
    ensures db.Valid()
    ensures db.State() == old(db.State()).(assignments := old(db.assignments) + Assignments(examId, studentIds))
  {
    for i := 0 to |studentIds|
      invariant db.State() == old(db.State()).(assignments := old(db.assignments) + Assignments(examId, studentIds[..i]))
    {
      assert Assignments(examId, studentIds[..i + 1]) == Assignments(examId, studentIds[..i]) + {(examId, studentIds[i])} by {
        assert studentIds[..i + 1] == studentIds[..i] + [studentIds[i]];
      }
      db.assignments := db.assignments + {(examId, studentIds[i])};
    }
    assert studentIds[..|studentIds|] == studentIds;
  }

  /** After `assignStudents(e, ids)` a student is assigned to `e` exactly when it was before or
      is one of `ids`; other exams' assignments are untouched. */
  lemma AssignedAfterAssign(assignments: set<(nat, nat)>, examId: nat, studentIds: seq<nat>, e: nat, s: nat)
    ensures (e, s) in assignments + Assignments(examId, studentIds) <==>
      (e, s) in assignments || (e == examId && s in studentIds)
  {
  }

  /** Assigning is idempotent: repeating a call, or repeating ids within one call, changes
      nothing. */
  lemma {:induction false} AssignIdempotent(assignments: set<(nat, nat)>, examId: nat, studentIds: seq<nat>)
    ensures assignments + Assignments(examId, studentIds) + Assignments(examId, studentIds)
      == assignments + Assignments(examId, studentIds)
    ensures Assignments(examId, studentIds + studentIds) == Assignments(examId, studentIds)
  {
  }
}
