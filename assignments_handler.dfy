/**
 * The assignments handler: the student's overview together with how many of its rows are
 * completed and how many pending.
 */
module AssignmentsHandler {
  import opened Store
  import opened Listing
  import opened AssignmentsRepository

  datatype ExamStats = ExamStats(total: nat, completed: nat, pending: nat)

  /** The rows with the given status, in order (`filter`). */
  function WithStatus(rows: seq<AvailableExam>, status: OverviewStatus): (r: seq<AvailableExam>)
    ensures forall x :: x in r <==> x in rows && x.status == status
    ensures |r| <= |rows|
  {
    if rows == [] then []
    else
      var init := WithStatus(rows[..|rows| - 1], status);
      var last := rows[|rows| - 1];
      assert forall x :: x in rows <==> x in rows[..|rows| - 1] || x == last;
      if last.status == status then init + [last] else init
  }

  /** A single row is kept exactly when it has the status. */
  lemma WithStatusSingle(x: AvailableExam, status: OverviewStatus)
    ensures WithStatus([x], status) == if x.status == status then [x] else []
  {
    assert [x][..0] == [];
  }

  /** Filtering works row by row: it distributes over concatenation, so with `WithStatusSingle`
      the result holds each row with the status once per occurrence, in the original order. */
  lemma {:induction false} WithStatusOrder(a: seq<AvailableExam>, b: seq<AvailableExam>, status: OverviewStatus)
    ensures WithStatus(a + b, status) == WithStatus(a, status) + WithStatus(b, status)
    decreases |b|
  {
    if b == [] {
      assert a + b == a;
    } else {
      var n := |b| - 1;
      assert (a + b)[..|a + b| - 1] == a + b[..n];
      assert (a + b)[|a + b| - 1] == b[n];
      WithStatusOrder(a, b[..n], status);
    }
  }

  /** Every row is either completed or pending, so the two counts add up to the number of rows. */
  lemma {:induction false} CompletedPlusPending(rows: seq<AvailableExam>)
    ensures |WithStatus(rows, Completed)| + |WithStatus(rows, Pending)| == |rows|
  {
    if rows != [] {
      CompletedPlusPending(rows[..|rows| - 1]);
    }
  }

  /** The `stats` object: the number of rows, of completed rows and of pending rows. */
  function Stats(rows: seq<AvailableExam>): (s: ExamStats)
    ensures s.total == |rows|
    ensures s.completed == |WithStatus(rows, Completed)| && s.pending == |WithStatus(rows, Pending)|
    ensures s.completed + s.pending == s.total
  {
    CompletedPlusPending(rows);
    ExamStats(|rows|, |WithStatus(rows, Completed)|, |WithStatus(rows, Pending)|)
  }

  /** `getAvailableExams`: the overview rows unchanged, and their counts. */
  method GetAvailableExams(db: Database, studentId: nat) returns (exams: seq<AvailableExam>, stats: ExamStats)
    requires db.Valid()
    ensures IsListing(Overview(db.exams, db.attempts, studentId), LatestPublishedFirst, exams)
    ensures stats.total == |exams| && stats.completed + stats.pending == stats.total
    ensures stats.completed == |WithStatus(exams, Completed)| && stats.pending == |WithStatus(exams, Pending)|
  {
    exams := FindAllPublishedForStudent(db, studentId);
    stats := Stats(exams);
  }
}
