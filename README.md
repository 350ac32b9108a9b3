# Exam application core in Dafny

This project models the rule-bearing core of a small exam application. Teachers write exams
made of multiple-choice questions, publish them and assign students. Students start one
attempt per exam, answer questions and submit. The server then scores the attempt.

The backend is modelled over an in-memory store. `Store.Database` is a class with one map per
table (exams, questions, question options, attempts), a set of (exam, student) assignments and
a map from (attempt, question) to the selected option. It also holds the serial-id counters.
`Database.State()` snapshots the fields as a `DbState` value. Every store operation states its
whole effect as one equation of the form `db.State() == old(db.State()).(field := ...)`, so
"nothing else changes" is part of each contract.

Each repository is a module of store operations:

- `QuestionsRepository`, `ExamsRepository`, `AttemptsRepository` and `AssignmentsRepository`.
- SQL `SELECT ... ORDER BY` becomes a method whose result is any listing of the matching rows,
  each exactly once, sorted by the key (`Listing.IsListing`). Ties are left in unspecified
  order, as in SQL.
- A repository write that finds no row (the "Failed to ..." errors) returns `Err(Internal())`
  and leaves the store unchanged.

Each handler is a module too:

- `ExamsHandler`, `QuestionsHandler`, `AttemptsHandler` and `AssignmentsHandler`.
- Every operation runs its fixed chain of early-exit checks. Each check maps to an `AppError`
  with the HTTP status and error code the source uses.
- Contracts state which check fails first, that a failing check leaves the store unchanged,
  and exactly when the operation succeeds.

Scoring (`Scoring`) is the loop of `submit`. It is proved to compute the sum of all question
points and the sum of the points of correctly answered questions. It is also proved to give
the same totals whatever order the exam's questions are listed in, to stay within bounds, and
to ignore answers to questions outside the exam.

The request schemas for questions are predicates in `QuestionsDto`.

Two frontend components are modelled:

- `QuestionForm` is the option editor. It is a class whose methods replace the option list
  the way the React handlers do. Form validation and the submit-time filtering are functions.
  A lemma shows that a form which passes validation, with the one-correct invariant the class
  keeps, sends a request the backend schema accepts.
- `QuestionList` is the drag-and-drop reorder. The two `splice` calls are done in place on an
  array copy. The result is proved to be a permutation of the input with the dragged question
  at the drop index, the others in their old relative order, and positions 1..n.

External inputs are parameters:

- Clock readings (`NOW()`) are `now: nat`.
- `parseFloat` is a parameter `string -> Option<real>`, where None stands for NaN.
- Points and percentages are exact `real`s.

## Model

| member | source | states |
|---|---|---|
| QuestionsDto.ParseCreate | apps/backend/src/contracts/questions.dto.ts:3-17 | a create body is accepted iff the prompt is non-empty, points (when given) are positive, there are at least two options, every label is non-empty and exactly one option is correct; an accepted body keeps prompt and options and defaults points to 1 |
| QuestionsDto.ExactlyOneCorrect | apps/backend/src/contracts/questions.dto.ts:14-16 | the refine's count of correct options is 1 iff some option is correct and no other is |
| QuestionsDto.NoneCorrect | apps/backend/src/contracts/questions.dto.ts:14-16 | the count of correct options is 0 iff no option is correct |
| QuestionsDto.UpdateRules | apps/backend/src/contracts/questions.dto.ts:19-29 | an update with no fields is accepted; an accepted update that carries options has at least two, exactly one correct |
| QuestionsDto.ParsedIsValid | apps/backend/src/contracts/questions.dto.ts:8-17 | whatever the create schema accepts is a valid create request, and every valid create request sent with its points is accepted unchanged |
| QuestionsRepository.CountByExam | apps/backend/src/repositories/questions.repository.ts:53-60 | the count is zero iff no question belongs to the exam |
| QuestionsRepository.FindByExam | apps/backend/src/repositories/questions.repository.ts:44-51 | exactly the exam's questions, each once, ordered by position; as many as `CountByExam` |
| QuestionsRepository.GetNextPosition | apps/backend/src/repositories/questions.repository.ts:62-69 | 1 when the exam has no questions, otherwise one more than the largest position of its questions |
| QuestionsRepository.InsertOption | apps/backend/src/repositories/questions.repository.ts:86-91 | one option row under the next option id with the given position, label and correctness; nothing else changes |
| QuestionsRepository.InsertOptions | apps/backend/src/repositories/questions.repository.ts:85-92 | the option loop adds one row per input option, ids consecutive from the next id, positions 1..n in input order, labels and correctness as given; nothing else changes |
| QuestionsRepository.OptionsReplaced | apps/backend/src/repositories/questions.repository.ts:127-138 | after deleting and re-inserting, the question's options are exactly the new rows, and every other question's options are as before |
| QuestionsRepository.Create | apps/backend/src/repositories/questions.repository.ts:71-95 | the question is stored under a fresh id with the given fields, followed by its option rows; nothing else changes |
| QuestionsRepository.Updated | apps/backend/src/repositories/questions.repository.ts:102-110 | prompt and points are replaced only when supplied; id, exam and position are kept |
| QuestionsRepository.Update | apps/backend/src/repositories/questions.repository.ts:97-141 | a missing question is an error and changes nothing; otherwise only that question changes, and its options are replaced by the new rows exactly when options are supplied |
| QuestionsRepository.Delete | apps/backend/src/repositories/questions.repository.ts:143-145 | only that question row is removed |
| QuestionsRepository.IsOptionCorrect | apps/backend/src/repositories/questions.repository.ts:147-155 | false when the option does not exist or belongs to another question; otherwise the option's correctness flag |
| ExamsRepository.FindByTeacher | apps/backend/src/repositories/exams.repository.ts:34-41 | exactly the teacher's exams, each once, newest first |
| ExamsRepository.FindAssignedToStudent | apps/backend/src/repositories/exams.repository.ts:43-53 | exactly the published exams the student is assigned to, each once, newest first |
| ExamsRepository.Create | apps/backend/src/repositories/exams.repository.ts:55-69 | a new draft exam under a fresh id, with no publication time, the given title and description (None is null), created now; nothing else changes |
| ExamsRepository.Edited | apps/backend/src/repositories/exams.repository.ts:76-84 | title and description change only when supplied; id, owner, status, publication and creation time are kept |
| ExamsRepository.Update | apps/backend/src/repositories/exams.repository.ts:71-101 | a missing exam is an error and changes nothing; otherwise only that exam is edited, and its status never changes |
| ExamsRepository.Publish | apps/backend/src/repositories/exams.repository.ts:103-117 | the exam becomes published with publication time now; only that exam changes; a missing exam is an error |
| ExamsRepository.Unpublish | apps/backend/src/repositories/exams.repository.ts:119-133 | the exam becomes a draft with no publication time; only that exam changes; a missing exam is an error |
| ExamsRepository.Assignments | apps/backend/src/repositories/exams.repository.ts:144-153 | the pairs inserted are exactly (exam, s) for each given student id s |
| ExamsRepository.AssignStudents | apps/backend/src/repositories/exams.repository.ts:144-153 | the assignment set becomes its old value united with the given pairs; nothing else changes |
| ExamsRepository.AssignedAfterAssign | apps/backend/src/repositories/exams.repository.ts:135-153 | after assigning, a student is assigned to an exam iff they were before or the exam is this one and the id was given |
| ExamsRepository.AssignIdempotent | apps/backend/src/repositories/exams.repository.ts:144-153 | assigning the same ids twice, or a list with duplicates, gives the same assignment set as assigning once |
| AttemptsRepository.FindByExamAndStudent | apps/backend/src/repositories/attempts.repository.ts:48-57 | an attempt is returned only if it matches both exam and student; none is returned only if no attempt matches |
| AttemptsRepository.Create | apps/backend/src/repositories/attempts.repository.ts:59-75 | a new in-progress attempt under a fresh id, with no submission time or scores; nothing else changes |
| AttemptsRepository.SaveAnswer | apps/backend/src/repositories/attempts.repository.ts:77-89 | the answer for (attempt, question) is upserted to the option; nothing else changes |
| AttemptsRepository.AnswersOf | apps/backend/src/repositories/attempts.repository.ts:91-99 | exactly the answers of that attempt, by question, with their selected options |
| AttemptsRepository.SaveThenGet | apps/backend/src/repositories/attempts.repository.ts:77-99 | after saving, the attempt's answers are the old ones with that question's answer set to the option (last write wins, one answer per question) |
| AttemptsRepository.SaveLeavesOtherAttempts | apps/backend/src/repositories/attempts.repository.ts:82-99 | saving an answer leaves every other attempt's answers unchanged |
| AttemptsRepository.CorrectnessAsWritten | apps/backend/src/repositories/attempts.repository.ts:101-114 | the join as written: one entry per answered question, true exactly when the selected option exists and is marked correct; it agrees with `IsOptionCorrect` when that option belongs to the answered question |
| AttemptsRepository.CorrectnessAsWrittenDisagreesWithScoring | apps/backend/src/repositories/attempts.repository.ts:101-114 | an answer selecting a correct option of another question is reported correct although scoring gives it no points |
| AttemptsRepository.Correctness | apps/backend/src/repositories/attempts.repository.ts:101-114 | the corrected join: one entry per answered question, true exactly when `IsOptionCorrect` holds for the selected option, false when the option no longer exists |
| AttemptsRepository.CorrectnessAgreesOnMatchingAnswers | apps/backend/src/repositories/attempts.repository.ts:101-114 | the two joins give the same map when every existing selected option belongs to its answered question |
| AttemptsRepository.Submit | apps/backend/src/repositories/attempts.repository.ts:116-138 | the attempt becomes submitted at now with exactly the given scores; only that attempt changes; a missing attempt is an error |
| Scoring.CorrectlyAnswered | apps/backend/src/handlers/attempts.handler.ts:46-55 | the questions that have an answer whose option is correct for that question |
| Scoring.ScoreQuestions | apps/backend/src/handlers/attempts.handler.ts:41-56 | the loop's accumulators end as the sum of all points and the sum of credited points |
| Scoring.ScoreIsCorrectPoints | apps/backend/src/handlers/attempts.handler.ts:44-55 | the score is the sum of the points of exactly the correctly answered questions; unanswered questions add nothing |
| Scoring.ScoreBounds | apps/backend/src/handlers/attempts.handler.ts:41-56 | with non-negative points, 0 <= score <= maximum |
| Scoring.AllCorrectFullMarks | apps/backend/src/handlers/attempts.handler.ts:41-56 | when every question is answered correctly the score equals the maximum |
| Scoring.ForeignAnswerIgnored | apps/backend/src/handlers/attempts.handler.ts:44-56 | an answer to a question outside the exam does not change the score |
| Scoring.NewAnswerMonotone | apps/backend/src/handlers/attempts.handler.ts:44-56 | answering a previously unanswered question never lowers the score |
| Scoring.ScoreOrderIndependent | apps/backend/src/handlers/attempts.handler.ts:39-56 | any two listings of the same questions give the same maximum and score |
| Scoring.ListingGivesExamTotals | apps/backend/src/handlers/attempts.handler.ts:39-56 | over any listing `findByExam` may return, the loop computes the exam's maximum and score |
| Scoring.ExamScoreBounds | apps/backend/src/handlers/attempts.handler.ts:41-56 | with positive question points, the exam's score lies between 0 and its maximum |
| Scoring.ScorePercent | apps/backend/src/handlers/attempts.handler.ts:58 | 0 when the maximum is 0; otherwise percent times maximum equals score times 100; within [0, 100] when 0 <= score <= maximum |
| AttemptsHandler.SaveAnswer | apps/backend/src/handlers/attempts.handler.ts:6-21 | not found, then forbidden for another student, then ATTEMPT_SUBMITTED unless in progress; a failure changes nothing; success upserts only that answer |
| AttemptsHandler.Submit | apps/backend/src/handlers/attempts.handler.ts:23-65 | the same guard chain, so a second submit fails and changes nothing; success stores the submitted attempt with the exam's score, maximum and percent; only that attempt changes |
| AttemptsHandler.SubmittedScoreBounds | apps/backend/src/handlers/attempts.handler.ts:41-64 | a submitted attempt is submitted, with 0 <= score <= maximum and a percent in [0, 100] |
| AttemptsHandler.GetResult | apps/backend/src/handlers/attempts.handler.ts:67-91 | not found, then ATTEMPT_NOT_SUBMITTED, then forbidden for a student reading another's attempt; the result carries the stored percent and one entry per answered question, true exactly when the selected option exists and is marked correct (the join as written) |
| AttemptsHandler.GetResultCorrected | apps/backend/src/handlers/attempts.handler.ts:67-91 | not found, then ATTEMPT_NOT_SUBMITTED, then forbidden for a student reading another's attempt, exactly as `GetResult`; the same percent; each entry is true exactly when `IsOptionCorrect` holds for the selected option |
| ExamsHandler.OwnerCheck | apps/backend/src/handlers/exams.handler.ts:46-53 | not found for a missing exam, forbidden for another teacher's exam, and no error exactly for an owned exam |
| ExamsHandler.Create | apps/backend/src/handlers/exams.handler.ts:8-16 | a new draft exam is stored under a fresh id; nothing else changes |
| ExamsHandler.List | apps/backend/src/handlers/exams.handler.ts:18-23 | a teacher gets exactly their exams and a student exactly their assigned published exams, each once, newest first |
| ExamsHandler.GetById | apps/backend/src/handlers/exams.handler.ts:25-43 | not found, then forbidden for a teacher who does not own it or a student not assigned to it; otherwise the stored exam |
| ExamsHandler.Update | apps/backend/src/handlers/exams.handler.ts:45-60 | owner check, then EXAM_NOT_EDITABLE unless draft; failure changes nothing; success edits only that exam and leaves it a draft |
| ExamsHandler.Publish | apps/backend/src/handlers/exams.handler.ts:62-82 | owner check, then ALREADY_PUBLISHED unless draft, then NO_QUESTIONS for an exam without questions; failure leaves it unchanged; success makes only that exam published |
| ExamsHandler.AddQuestion | apps/backend/src/handlers/exams.handler.ts:84-107 | owner check, then EXAM_NOT_EDITABLE unless draft; success adds the question at one past the largest position with its options; questions keep positive points |
| ExamsHandler.AssignStudents | apps/backend/src/handlers/exams.handler.ts:109-120 | only existence and ownership are checked, never status; success unites the assignments with the given pairs |
| ExamsHandler.StartAttempt | apps/backend/src/handlers/exams.handler.ts:122-148 | not found, EXAM_NOT_AVAILABLE unless published, forbidden unless assigned, ALREADY_ATTEMPTED if an attempt exists; success creates one in-progress attempt; at most one attempt per exam and student is preserved |
| QuestionsHandler.Guard | apps/backend/src/handlers/questions.handler.ts:6-19 | not found for a missing question, forbidden when its exam is missing or not owned, EXAM_NOT_EDITABLE unless draft, and no error exactly when all pass |
| QuestionsHandler.Update | apps/backend/src/handlers/questions.handler.ts:6-22 | the guard chain; failure changes nothing; success changes only that question (and its options when given) and keeps points positive |
| QuestionsHandler.Delete | apps/backend/src/handlers/questions.handler.ts:24-40 | the same guard chain; failure changes nothing; success removes only that question |
| AssignmentsRepository.FindAllPublishedForStudent | apps/backend/src/repositories/assignments.repository.ts:15-36 | every overview row once, each with a publication time, most recently published first |
| AssignmentsRepository.RowFacts | apps/backend/src/repositories/assignments.repository.ts:22-32 | rows are for published exams only; completed iff the student's attempt is submitted; without attempt the row is pending and attempt, score and completion are null |
| AssignmentsRepository.PublishedExamListed | apps/backend/src/repositories/assignments.repository.ts:15-36 | every published exam appears in the overview |
| AssignmentsRepository.OneRowPerExam | apps/backend/src/repositories/assignments.repository.ts:15-36 | with at most one attempt per exam and student there is exactly one row per published exam |
| AssignmentsHandler.WithStatus | apps/backend/src/handlers/assignments.handler.ts:15-16 | the rows with the given status, no more, no fewer |
| AssignmentsHandler.WithStatusSingle | apps/backend/src/handlers/assignments.handler.ts:15-16 | a single row is kept exactly when it has the status |
| AssignmentsHandler.WithStatusOrder | apps/backend/src/handlers/assignments.handler.ts:15-16 | filtering distributes over concatenation, so each matching row is kept once per occurrence and in order |
| AssignmentsHandler.CompletedPlusPending | apps/backend/src/handlers/assignments.handler.ts:15-23 | completed and pending counts add up to the number of rows |
| AssignmentsHandler.Stats | apps/backend/src/handlers/assignments.handler.ts:15-23 | total is the number of rows, completed and pending count those statuses, and completed + pending = total |
| AssignmentsHandler.GetAvailableExams | apps/backend/src/handlers/assignments.handler.ts:12-26 | the overview listing unchanged, with its stats |
| QuestionForm.Trim | apps/frontend/src/app/pages/teacher/components/QuestionForm.tsx:58 | empty iff the string is all white space; otherwise it starts and ends with a non-white-space character |
| QuestionForm.TrimIsSlice | apps/frontend/src/app/pages/teacher/components/QuestionForm.tsx:58 | the result is a slice of the string with only white space before and after it, so only edge white space is removed |
| QuestionForm.InitialOptions | apps/frontend/src/app/pages/teacher/components/QuestionForm.tsx:29-32 | two blank, incorrect options with distinct ids |
| QuestionForm.WithAddedOption | apps/frontend/src/app/pages/teacher/components/QuestionForm.tsx:39-42 | no change at six options; otherwise one blank incorrect option appended; never more than six; correct count unchanged |
| QuestionForm.OtherOptions | apps/frontend/src/app/pages/teacher/components/QuestionForm.tsx:46 | exactly the options with another id, never more correct ones |
| QuestionForm.OtherOptionsSingle | apps/frontend/src/app/pages/teacher/components/QuestionForm.tsx:46 | a single option is kept exactly when its id differs |
| QuestionForm.OtherOptionsOrder | apps/frontend/src/app/pages/teacher/components/QuestionForm.tsx:46 | filtering distributes over concatenation, so the kept options stay in their original order |
| QuestionForm.OtherOptionsFacts | apps/frontend/src/app/pages/teacher/components/QuestionForm.tsx:46 | with unique ids, filtering keeps ids unique and removes at most one option |
| QuestionForm.WithoutOption | apps/frontend/src/app/pages/teacher/components/QuestionForm.tsx:44-47 | no change at two options or fewer; otherwise exactly `OtherOptions`, which keeps the remaining options in order |
| QuestionForm.RemoveKeepsBounds | apps/frontend/src/app/pages/teacher/components/QuestionForm.tsx:44-47 | removal never goes below two options, keeps ids unique and adds no correct option |
| QuestionForm.Relabelled | apps/frontend/src/app/pages/teacher/components/QuestionForm.tsx:49-51 | only the label of the option with that id changes; order, length, ids and correctness are kept |
| QuestionForm.SameFlagsSameCount | apps/frontend/src/app/pages/teacher/components/QuestionForm.tsx:49-51 | lists with the same correctness flags have the same number of correct options |
| QuestionForm.MarkedCorrect | apps/frontend/src/app/pages/teacher/components/QuestionForm.tsx:53-55 | an option is correct iff it has that id; ids and labels are kept |
| QuestionForm.MarkedCorrectCount | apps/frontend/src/app/pages/teacher/components/QuestionForm.tsx:53-55 | with unique ids, exactly one option is correct afterwards if the id exists, and none otherwise |
| QuestionForm.Filled | apps/frontend/src/app/pages/teacher/components/QuestionForm.tsx:69 | exactly the options with a non-blank label |
| QuestionForm.FilledSingle | apps/frontend/src/app/pages/teacher/components/QuestionForm.tsx:69 | a single option is kept exactly when its label is not blank |
| QuestionForm.FilledOrder | apps/frontend/src/app/pages/teacher/components/QuestionForm.tsx:69 | dropping blank options distributes over concatenation, so the filled options stay in their original order |
| QuestionForm.Validate | apps/frontend/src/app/pages/teacher/components/QuestionForm.tsx:57-82 | rejects, in order, a blank prompt, points that are NaN or not positive, fewer than two filled options, and no filled correct option; accepts exactly otherwise |
| QuestionForm.Sent | apps/frontend/src/app/pages/teacher/components/QuestionForm.tsx:94-97 | one request option per option, with the trimmed label and its correctness |
| QuestionForm.SubmittedOptions | apps/frontend/src/app/pages/teacher/components/QuestionForm.tsx:92-97 | entry i is the trimmed label and flag of filled option i |
| QuestionForm.SubmittedOptionsOrder | apps/frontend/src/app/pages/teacher/components/QuestionForm.tsx:92-97 | submitting distributes over concatenation of the form's options |
| QuestionForm.SubmittedOptionsSingle | apps/frontend/src/app/pages/teacher/components/QuestionForm.tsx:92-97 | one option is sent as its trimmed label and flag, or not at all when its label is blank |
| QuestionForm.SentCorrectCount | apps/frontend/src/app/pages/teacher/components/QuestionForm.tsx:92-97 | the request has as many correct options as the filled options |
| QuestionForm.CorrectFilledCounted | apps/frontend/src/app/pages/teacher/components/QuestionForm.tsx:69-75 | when some filled option is correct, the filled options contain a correct one |
| QuestionForm.ValidFormGivesValidRequest | apps/frontend/src/app/pages/teacher/components/QuestionForm.tsx:57-111 | a form that passes validation with at most one correct option sends a request the backend create schema accepts |
| QuestionForm.QuestionFormState.constructor | apps/frontend/src/app/pages/teacher/components/QuestionForm.tsx:19-33 | empty prompt, points "1", two blank options, no error; the form invariant holds |
| QuestionForm.QuestionFormState.AddOption | apps/frontend/src/app/pages/teacher/components/QuestionForm.tsx:39-42 | options become `WithAddedOption` of the old ones; unique ids, 2..6 options and at most one correct are kept |
| QuestionForm.QuestionFormState.RemoveOption | apps/frontend/src/app/pages/teacher/components/QuestionForm.tsx:44-47 | options become `WithoutOption` of the old ones; the form invariant is kept |
| QuestionForm.QuestionFormState.ChangeLabel | apps/frontend/src/app/pages/teacher/components/QuestionForm.tsx:49-51 | options become `Relabelled` of the old ones; the form invariant is kept |
| QuestionForm.QuestionFormState.MarkCorrect | apps/frontend/src/app/pages/teacher/components/QuestionForm.tsx:53-55 | options become `MarkedCorrect` of the old ones; the form invariant is kept |
| QuestionForm.QuestionFormState.Submit | apps/frontend/src/app/pages/teacher/components/QuestionForm.tsx:84-111 | the error is the validation result; a request is sent iff there is none, with the trimmed prompt, parsed points and submitted options, and the backend schema accepts it |
| QuestionList.MovedFacts | apps/frontend/src/app/pages/teacher/components/QuestionList.tsx:55-56 | moving keeps length and contents as a multiset, puts the moved entry at the drop index (clamped to the end) and keeps the others in order |
| QuestionList.MoveInPlace | apps/frontend/src/app/pages/teacher/components/QuestionList.tsx:48-56 | the two in-place splices leave the array holding the moved list |
| QuestionList.Renumbered | apps/frontend/src/app/pages/teacher/components/QuestionList.tsx:59-62 | the same questions in the same order with positions 1..n |
| QuestionList.DropOutcome | apps/frontend/src/app/pages/teacher/components/QuestionList.tsx:39-67 | no reorder when nothing is dragged, the drop is on the dragged item, there is no reorder callback, or the dragged index is out of range; otherwise the list with the dragged question moved to the drop index and positions renumbered |
| QuestionList.DropReorders | apps/frontend/src/app/pages/teacher/components/QuestionList.tsx:48-62 | a reorder is a permutation with the dragged question at the drop index, the others in their old relative order, and positions 1..n |
| QuestionList.CorrectOption | apps/frontend/src/app/pages/teacher/components/QuestionList.tsx:74-76 | none iff no option is correct; otherwise the first correct option |
| QuestionList.QuestionListState.constructor | apps/frontend/src/app/pages/teacher/components/QuestionList.tsx:20-21 | nothing dragged and nothing dragged over |
| QuestionList.QuestionListState.DragStart | apps/frontend/src/app/pages/teacher/components/QuestionList.tsx:23-27 | the dragged index is recorded |
| QuestionList.QuestionListState.DragOver | apps/frontend/src/app/pages/teacher/components/QuestionList.tsx:29-33 | the index under the pointer is recorded |
| QuestionList.QuestionListState.DragLeave | apps/frontend/src/app/pages/teacher/components/QuestionList.tsx:35-37 | the drag-over index is cleared |
| QuestionList.QuestionListState.DragEnd | apps/frontend/src/app/pages/teacher/components/QuestionList.tsx:69-72 | both indices are cleared |
| QuestionList.QuestionListState.Drop | apps/frontend/src/app/pages/teacher/components/QuestionList.tsx:39-67 | the reorder handed to the callback is `DropOutcome` of the state before the drop; both indices are cleared in every case |

## Left out

- The SQL text and the `query`/`queryOne` layer: `../config/database.js` is not part of this model. Each repository function is a state update on the in-memory store.
- Database schema defaults and constraints are not part of this model. A new attempt is taken to start `in_progress` and a new exam `draft`. No uniqueness constraint is assumed beyond what the code enforces. At most one attempt per exam and student is an invariant that `ExamsHandler.StartAttempt` preserves.
- The schema's `ON DELETE` behaviour is not part of this model. `QuestionsRepository.Delete` removes the question row only.
- Concurrency is not modelled. The check-then-create race in `startAttempt` is out of scope, and operations run one at a time.
- Timestamps are `now` parameters. `updatedAt` is not stored.
- Floating point is not modelled. Points and percentages are exact reals, and `parseFloat` is a parameter.
- The `archived` exam status and the `expired` attempt status exist, but nothing moves into them.
- Unpublish and the questions listing have no handler: only the repository's `Unpublish` is modelled, with no guard.
- Authentication, roles and the HTTP layer are not modelled. User ids and roles are parameters. `findById` is a map lookup.
- The exam DTO is modelled only as the `title` length precondition of `ExamsHandler.Create` and `ExamsHandler.Update`.
- Answer rows keep only the selected option. Their ids and `answeredAt` columns are not modelled.
- The frontend service calls, loading flags and error messages are not modelled. The form's update path sends the same body as creation.
- The question form's initialisation from an existing question (QuestionForm.tsx:22-28) is not modelled. Such a form may hold several correct options, so `QuestionForm.ValidFormGivesValidRequest` requires at most one.
- DOM drag events and `crypto.randomUUID` are not modelled. Option ids are distinct strings supplied by the caller.
- `QuestionForm.Trim` uses the JavaScript white-space set as a fixed character predicate. Unicode handling beyond that set is not modelled.
- `ExamsRepository.IsStudentAssigned` is a membership test with no contract of its own. Its meaning is stated by `ExamsRepository.AssignedAfterAssign`.
- `AssignmentsRepository.FindAllPublishedForStudent` lists every published exam, whether or not the student is assigned, as the query is written.

## Findings

| source | as written | input that shows it | evidently intended | confidence | as-written member | corrected member |
|---|---|---|---|---|---|---|
| apps/backend/src/repositories/attempts.repository.ts:101-114 | `getAnswersWithCorrectness` joins the selected option by option id only, so an option of another question counts | attempt 1 answers question 1 with option 7, which belongs to question 2 and is correct: the result marks question 1 correct, while scoring (`isOptionCorrect`) awarded no points | an answer is correct only when the option belongs to the answered question, as in scoring | not executed | AttemptsRepository.CorrectnessAsWritten, AttemptsRepository.CorrectnessAsWrittenDisagreesWithScoring, AttemptsHandler.GetResult | AttemptsRepository.Correctness, AttemptsHandler.GetResultCorrected |
