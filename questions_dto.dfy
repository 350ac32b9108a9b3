/**
 * The request schemas for creating and updating a question, as validation functions over
 * the parsed request bodies.
 */
module QuestionsDto {
  import opened Wrappers

  /** One answer option of a request body. */
  datatype OptionInput = OptionInput(text: string, isCorrect: bool)

  /** A create-question body as it arrives; `points` may be absent. */
  datatype CreateQuestionBody = CreateQuestionBody(prompt: string, points: Option<real>, options: seq<OptionInput>)

  /** A create-question request after validation, with the default for `points` filled in. */
  datatype CreateQuestionDto = CreateQuestionDto(prompt: string, points: real, options: seq<OptionInput>)

  /** An update-question request: every field is optional. */
  datatype UpdateQuestionDto = UpdateQuestionDto(
    prompt: Option<string>,
    points: Option<real>,
    options: Option<seq<OptionInput>>)

  /** The number of options marked correct: `options.filter((o) => o.isCorrect).length`. */
  function CorrectCount(options: seq<OptionInput>): nat {
    if options == [] then 0
    else CorrectCount(options[..|options| - 1]) + (if options[|options| - 1].isCorrect then 1 else 0)
  }

  /** Option `i` is correct and no other option is. */
  ghost predicate OnlyCorrect(options: seq<OptionInput>, i: int) {
    0 <= i < |options| && options[i].isCorrect &&
    forall j :: 0 <= j < |options| && j != i ==> !options[j].isCorrect
  }

  /** The option list rule shared by both schemas: at least two options, each with a
      non-empty label, exactly one of them correct. */
  predicate ValidOptions(options: seq<OptionInput>) {
    && (forall o :: o in options ==> |o.text| >= 1)
    && |options| >= 2
    && CorrectCount(options) == 1
  }

  lemma {:induction false} NoneCorrect(options: seq<OptionInput>)
    ensures CorrectCount(options) == 0 <==> forall j :: 0 <= j < |options| ==> !options[j].isCorrect
    decreases |options|
  {
    if options != [] {
      var init := options[..|options| - 1];
      NoneCorrect(init);
      assert forall j :: 0 <= j < |init| ==> init[j] == options[j];
    }
  }

  /** "Exactly one option is correct" counted as the schema counts it is the same as one
      option being the only correct one. */
  lemma {:induction false} ExactlyOneCorrect(options: seq<OptionInput>)
    ensures CorrectCount(options) == 1 <==> exists i :: OnlyCorrect(options, i)
    decreases |options|
  {
    if options != [] {
      var n := |options| - 1;
      var init := options[..n];
      assert forall j :: 0 <= j < n ==> init[j] == options[j];
      ExactlyOneCorrect(init);
      NoneCorrect(init);
      if CorrectCount(options) == 1 {
        if options[n].isCorrect {
          assert OnlyCorrect(options, n);
        } else {
          var i :| OnlyCorrect(init, i);
          assert OnlyCorrect(options, i);
        }
      }
      if i :| OnlyCorrect(options, i) {
        if i == n {
          assert CorrectCount(init) == 0;
        } else {
          assert OnlyCorrect(init, i);
        }
      }
    }
  }

  /** `createQuestionSchema.parse`: the validated request, or None when the body is rejected. */
  function ParseCreate(body: CreateQuestionBody): (r: Option<CreateQuestionDto>)
    ensures r.Some? <==>
      && |body.prompt| >= 1
      && (body.points.Some? ==> body.points.value > 0.0)
      && |body.options| >= 2
      && (forall k :: 0 <= k < |body.options| ==> |body.options[k].text| >= 1)
      && (exists i :: OnlyCorrect(body.options, i))
    ensures r.Some? ==> r.value.prompt == body.prompt && r.value.options == body.options
    ensures r.Some? ==> r.value.points == (if body.points.Some? then body.points.value else 1.0)
    ensures r.Some? ==> r.value.points > 0.0
  {
    ExactlyOneCorrect(body.options);
    assert (forall o :: o in body.options ==> |o.text| >= 1) <==>
           (forall k :: 0 <= k < |body.options| ==> |body.options[k].text| >= 1);
    var points := if body.points.Some? then body.points.value else 1.0;
    if |body.prompt| >= 1 && points > 0.0 && ValidOptions(body.options)
    then Some(CreateQuestionDto(body.prompt, points, body.options))
    else None
  }

  /** A request the create schema accepts. */
  ghost predicate IsCreateQuestionDto(dto: CreateQuestionDto) {
    |dto.prompt| >= 1 && dto.points > 0.0 && ValidOptions(dto.options)
  }

  /** `updateQuestionSchema.parse`: each field is checked only when present. */
  predicate ValidUpdate(dto: UpdateQuestionDto) {
    && (dto.prompt.Some? ==> |dto.prompt.value| >= 1)
    && (dto.points.Some? ==> dto.points.value > 0.0)
    && (dto.options.Some? ==> ValidOptions(dto.options.value))
  }

  /** An accepted update that carries options carries exactly one correct option among at
      least two; an empty update is accepted. */
  lemma UpdateRules(dto: UpdateQuestionDto)
    ensures ValidUpdate(UpdateQuestionDto(None, None, None))
    ensures ValidUpdate(dto) && dto.options.Some? ==>
      |dto.options.value| >= 2 && exists i :: OnlyCorrect(dto.options.value, i)
  {
    if dto.options.Some? {
      ExactlyOneCorrect(dto.options.value);
    }
  }

  /** Everything the create schema returns is a valid request, and every valid request is
      accepted unchanged when sent with its points. */
  lemma ParsedIsValid(body: CreateQuestionBody, dto: CreateQuestionDto)
    ensures ParseCreate(body).Some? ==> IsCreateQuestionDto(ParseCreate(body).value)
    ensures IsCreateQuestionDto(dto) ==>
      ParseCreate(CreateQuestionBody(dto.prompt, Some(dto.points), dto.options)) == Some(dto)
  {
  }
}
