/**
 * The questions repository: queries and updates on the `questions` and `question_options`
 * tables.
 */
module QuestionsRepository {
  import opened Wrappers
  import opened Store
  import opened Listing
  import opened QuestionsDto

  /** The rows of `questions` that belong to an exam (`WHERE exam_id = $1`). */
  function ExamQuestions(questions: map<nat, Question>, examId: nat): set<Question> {
    set q | q in questions.Values && q.examId == examId
  }

  /** The ORDER BY key of `findByExam`. */
  function Position(q: Question): int { q.position }

  /** `countByExam`: COUNT(*) over the exam's questions. */
  function CountByExam(db: Database, examId: nat): (n: nat)
    reads db
    ensures n == 0 <==> forall id :: id in db.questions ==> db.questions[id].examId != examId
  {
    var s := ExamQuestions(db.questions, examId);
    assert forall id :: id in db.questions && db.questions[id].examId == examId ==> db.questions[id] in s;
    |s|
  }

  /** `findByExam`: the exam's questions, each once, ordered by position; as many as
      `countByExam` counts. */
  method FindByExam(db: Database, examId: nat) returns (qs: seq<Question>)
    ensures IsListing(ExamQuestions(db.questions, examId), Position, qs)
    ensures forall q :: q in qs <==> q in db.questions.Values && q.examId == examId
    ensures |qs| == CountByExam(db, examId)
  {
    qs := SortedListing(ExamQuestions(db.questions, examId), Position);
    EnumerationLength(ExamQuestions(db.questions, examId), qs);
  }

  /** `p` is one past the largest position among the exam's questions, or 1 when it has
      none. */
  ghost predicate IsNextPosition(questions: map<nat, Question>, examId: nat, p: int) {
    && (ExamQuestions(questions, examId) == {} ==> p == 1)
    && (ExamQuestions(questions, examId) != {} ==>
          (exists q :: q in ExamQuestions(questions, examId) && p == q.position + 1) &&
          (forall q :: q in ExamQuestions(questions, examId) ==> q.position < p))
  }

  /** `getNextPosition`: one past the largest position in the exam, 1 for an exam without
      questions. */
  method GetNextPosition(db: Database, examId: nat) returns (p: int)
    ensures IsNextPosition(db.questions, examId, p)
  {
    var all := ExamQuestions(db.questions, examId);
    var remaining := all;
    var maxPosition: Option<int> := None;
    while remaining != {}
      invariant remaining <= all
      invariant maxPosition.None? <==> remaining == all
      invariant maxPosition.Some? ==> exists q :: q in all && q.position == maxPosition.value
      invariant maxPosition.Some? ==> forall q :: q in all - remaining ==> q.position <= maxPosition.value
      decreases remaining
    {
      var q :| q in remaining;
      if maxPosition.None? || q.position > maxPosition.value {
        maxPosition := Some(q.position);
      }
      remaining := remaining - {q};
    }
    p := (if maxPosition.Some? then maxPosition.value else 0) + 1;
  }

  /** The `question_options` rows inserted for `options`: ids from `firstId` on and
      positions 1..n, in input order. */
  function OptionRows(questionId: nat, firstId: nat, options: seq<OptionInput>): (rows: map<nat, QuestionOption>)
  {
    map k: nat | k in IdRange(firstId, |options|) ::
      QuestionOption(k, questionId, k - firstId + 1, options[k - firstId].text, options[k - firstId].isCorrect)
  }

  /** The ids `first`, ..., `first + n - 1`. */
  function IdRange(first: nat, n: nat): (ids: set<nat>)
    ensures forall k :: k in ids <==> first <= k < first + n
    decreases n
  {
    if n == 0 then {} else IdRange(first, n - 1) + {first + n - 1}
  }

  /** Inserting option `i` extends the rows of the first `i` options to the first `i + 1`. */
  lemma OptionRowsExtend(m: map<nat, QuestionOption>, questionId: nat, firstId: nat, options: seq<OptionInput>, i: nat)
    requires i < |options|
    ensures (m + OptionRows(questionId, firstId, options[..i]))[firstId + i :=
        QuestionOption(firstId + i, questionId, i + 1, options[i].text, options[i].isCorrect)]
      == m + OptionRows(questionId, firstId, options[..i + 1])
  {
    var row := QuestionOption(firstId + i, questionId, i + 1, options[i].text, options[i].isCorrect);
    var a := OptionRows(questionId, firstId, options[..i]);
    OptionRowsSnoc(questionId, firstId, options, i);
    assert (m + a)[firstId + i := row] == m + a[firstId + i := row];
  }

  /** The rows of the first `i + 1` options are those of the first `i` plus the row of option `i`. */
  lemma OptionRowsSnoc(questionId: nat, firstId: nat, options: seq<OptionInput>, i: nat)
    requires i < |options|
    ensures OptionRows(questionId, firstId, options[..i + 1])
      == OptionRows(questionId, firstId, options[..i])[firstId + i :=
           QuestionOption(firstId + i, questionId, i + 1, options[i].text, options[i].isCorrect)]
  {
    var a := OptionRows(questionId, firstId, options[..i]);
    var b := OptionRows(questionId, firstId, options[..i + 1]);
    var row := QuestionOption(firstId + i, questionId, i + 1, options[i].text, options[i].isCorrect);
    assert b.Keys == a[firstId + i := row].Keys;
    forall k | k in b ensures b[k] == a[firstId + i := row][k] {
      if k < firstId + i {
        assert options[..i][k - firstId] == options[k - firstId] == options[..i + 1][k - firstId];
      }
    }
  }

  /** The options of one question. */
  function OptionsOf(options: map<nat, QuestionOption>, questionId: nat): map<nat, QuestionOption> {
    map k | k in options && options[k].questionId == questionId :: options[k]
  }

  /** `DELETE FROM question_options WHERE question_id = $1`. */
  function WithoutOptionsOf(options: map<nat, QuestionOption>, questionId: nat): map<nat, QuestionOption> {
    map k | k in options && options[k].questionId != questionId :: options[k]
  }

  /** Replacing a question's options leaves it exactly the new rows and leaves the options
      of every other question as they were. */
  lemma OptionsReplaced(options: map<nat, QuestionOption>, questionId: nat, firstId: nat, newOptions: seq<OptionInput>, other: nat)
    requires forall k :: k in options ==> k < firstId
    ensures OptionsOf(WithoutOptionsOf(options, questionId) + OptionRows(questionId, firstId, newOptions), questionId)
         == OptionRows(questionId, firstId, newOptions)
    ensures other != questionId ==>
      OptionsOf(WithoutOptionsOf(options, questionId) + OptionRows(questionId, firstId, newOptions), other)
      == OptionsOf(options, other)
  {
    var rows := OptionRows(questionId, firstId, newOptions);
    forall k | k in rows ensures rows[k].questionId == questionId {
      assert rows[firstId + (k - firstId)].questionId == questionId;
    }
  }

  /** One `INSERT INTO question_options`: a row under the next serial id. */
  method InsertOption(db: Database, questionId: nat, position: int, option: OptionInput) returns (row: QuestionOption)
    requires db.Valid()
    modifies db
    ensures db.Valid()
    ensures row == QuestionOption(old(db.nextOptionId), questionId, position, option.text, option.isCorrect)
    ensures db.State() == old(db.State()).(
      options := old(db.options)[row.id := row],
      nextOptionId := old(db.nextOptionId) + 1)
  {
    row := QuestionOption(db.nextOptionId, questionId, position, option.text, option.isCorrect);
    AddOptionWellFormed(db.State(), row);
    db.options := db.options[row.id := row];
    db.nextOptionId := db.nextOptionId + 1;
  }

  /** The option loop of `create` and `update`: inserts the options with positions 1..n. */
  method InsertOptions(db: Database, questionId: nat, options: seq<OptionInput>)
    requires db.Valid()
    modifies db
    ensures db.Valid()
    ensures db.State() == old(db.State()).(
      options := old(db.options) + OptionRows(questionId, old(db.nextOptionId), options),
      nextOptionId := old(db.nextOptionId) + |options|)
  {
    ghost var s0 := db.State();
    assert OptionRows(questionId, s0.nextOptionId, options[..0]) == map[];
    assert s0.options + map[] == s0.options;
    for i := 0 to |options|
      invariant db.Valid()
      invariant db.State() == OptionsInserted(s0, questionId, options, i)
    {
      InsertNextOption(db, questionId, s0, options, i);
    }
    assert options[..|options|] == options;
  }

  /** The store after the first `i` options have been inserted into `s0`. */
  ghost function OptionsInserted(s0: DbState, questionId: nat, options: seq<OptionInput>, i: nat): DbState
    requires i <= |options|
  {
    s0.(options := s0.options + OptionRows(questionId, s0.nextOptionId, options[..i]),
        nextOptionId := s0.nextOptionId + i)
  }

  /** One turn of the option loop: option `i` goes in with position `i + 1`. */
  method InsertNextOption(db: Database, questionId: nat, ghost s0: DbState, options: seq<OptionInput>, i: nat)
    requires i < |options|
    requires db.Valid() && db.State() == OptionsInserted(s0, questionId, options, i)
    modifies db
    ensures db.Valid() && db.State() == OptionsInserted(s0, questionId, options, i + 1)
  {
    OptionRowsExtend(s0.options, questionId, s0.nextOptionId, options, i);
    var row := InsertOption(db, questionId, i + 1, options[i]);
  }

  /** `create`: inserts the question under a fresh id, then its options with positions 1..n. */
  method Create(db: Database, examId: nat, position: int, prompt: string, points: real, options: seq<OptionInput>)
    returns (q: Question)
    requires db.Valid()
    modifies db
    ensures db.Valid()
    ensures q == Question(old(db.nextQuestionId), examId, position, prompt, points)
    ensures q.id !in old(db.questions)
    ensures db.State() == old(db.State()).(
      questions := old(db.questions)[q.id := q],
      options := old(db.options) + OptionRows(q.id, old(db.nextOptionId), options),
      nextQuestionId := old(db.nextQuestionId) + 1,
      nextOptionId := old(db.nextOptionId) + |options|)
  {
    q := Question(db.nextQuestionId, examId, position, prompt, points);
    db.questions := db.questions[q.id := q];
    db.nextQuestionId := db.nextQuestionId + 1;
    InsertOptions(db, q.id, options);
  }

  /** The question row after `UPDATE questions SET ...`: only the supplied fields change. */
  function Updated(q: Question, dto: UpdateQuestionDto): (r: Question)
    ensures r.id == q.id && r.examId == q.examId && r.position == q.position
    ensures r.prompt == (if dto.prompt.Some? then dto.prompt.value else q.prompt)
    ensures r.points == (if dto.points.Some? then dto.points.value else q.points)
  {
    var q1 := if dto.prompt.Some? then q.(prompt := dto.prompt.value) else q;
    if dto.points.Some? then q1.(points := dto.points.value) else q1
  }

  /** `update`: fails (as the source's plain Error) when no row has the id; otherwise updates
      prompt and points when supplied and, when options are supplied, replaces all of the
      question's options by the new list. */
  method Update(db: Database, id: nat, dto: UpdateQuestionDto) returns (r: Result<Question>)
    requires db.Valid()
    modifies db
    ensures db.Valid()
    ensures id !in old(db.questions) ==> r == Err(Internal()) && db.State() == old(db.State())
    ensures id in old(db.questions) ==>
      && r == Ok(Updated(old(db.questions[id]), dto))
      && db.questions == old(db.questions)[id := r.value]
      && (dto.options.None? ==> db.State() == old(db.State()).(questions := db.questions))
      && (dto.options.Some? ==> db.State() == old(db.State()).(
            questions := db.questions,
            options := WithoutOptionsOf(old(db.options), id) + OptionRows(id, old(db.nextOptionId), dto.options.value),
            nextOptionId := old(db.nextOptionId) + |dto.options.value|))
  {
    if id !in db.questions {
      return Err(Internal());
    }
    var q := Updated(db.questions[id], dto);
    db.questions := db.questions[id := q];
    if dto.options.Some? {
      db.options := WithoutOptionsOf(db.options, id);
      InsertOptions(db, id, dto.options.value);
    }
    r := Ok(q);
  }

  /** `delete`: removes the question row and nothing else. */
  method Delete(db: Database, id: nat)
    requires db.Valid()
    modifies db
    ensures db.Valid()
    ensures db.State() == old(db.State()).(questions := old(db.questions) - {id})
  {
    db.questions := db.questions - {id};
  }

  /** `isOptionCorrect`: whether the option is marked correct and belongs to the question;
      false for a missing option or an option of another question. */
  function IsOptionCorrect(options: map<nat, QuestionOption>, questionId: nat, optionId: nat): (r: bool)
    ensures optionId !in options ==> !r
    ensures optionId in options && options[optionId].questionId != questionId ==> !r
    ensures r ==> options[optionId].isCorrect
    ensures optionId in options && options[optionId].questionId == questionId && options[optionId].isCorrect ==> r
  {
    optionId in options && options[optionId].questionId == questionId && options[optionId].isCorrect
  }
}
