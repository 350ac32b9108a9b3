/**
 * The teacher's question form. Its state is the prompt and points as typed, the list of
 * answer options being edited (each with a client-side id) and the error shown. Each handler
 * replaces the option list by a new one; submitting validates the form and produces the
 * request the form sends.
 */
module QuestionForm {
  import opened Wrappers
  import opened QuestionsDto

  datatype FormOption = FormOption(id: string, text: string, isCorrect: bool)

  const MAX_OPTIONS: nat := 6
  const MIN_OPTIONS: nat := 2

  /** The characters JavaScript's `trim` removes: white space and line terminators. */
  predicate IsWhitespace(c: char) {
    || c == ' ' || c == '\t' || c == '\n' || c == '\r' || c == '\U{000B}' || c == '\U{000C}'
    || c == '\U{00A0}' || c == '\U{1680}' || ('\U{2000}' <= c <= '\U{200A}')
    || c == '\U{2028}' || c == '\U{2029}' || c == '\U{202F}' || c == '\U{205F}'
    || c == '\U{3000}' || c == '\U{FEFF}'
  }

  /** The number of white space characters at the start of `s`. */
  function Leading(s: string): (n: nat)
    ensures n <= |s|
    ensures forall k :: 0 <= k < n ==> IsWhitespace(s[k])
    ensures n < |s| ==> !IsWhitespace(s[n])
  {
    if s != [] && IsWhitespace(s[0]) then 1 + Leading(s[1..]) else 0
  }

  /** The number of white space characters at the end of `s`. */
  function Trailing(s: string): (n: nat)
    ensures n <= |s|
    ensures forall k :: |s| - n <= k < |s| ==> IsWhitespace(s[k])
    ensures n < |s| ==> !IsWhitespace(s[|s| - n - 1])
  {
    if s != [] && IsWhitespace(s[|s| - 1]) then 1 + Trailing(s[..|s| - 1]) else 0
  }

  /** `String.prototype.trim`: `s` without its leading and trailing white space. */
  function Trim(s: string): (t: string)
    ensures t == [] <==> forall k :: 0 <= k < |s| ==> IsWhitespace(s[k])
    ensures t != [] ==> !IsWhitespace(t[0]) && !IsWhitespace(t[|t| - 1])
    ensures |t| <= |s|
  {
    var u := s[Leading(s)..];
    var t := u[..|u| - Trailing(u)];
    assert t != [] ==> t[0] == u[0];
    assert t == [] ==> Leading(s) == |s|;
    t
  }

  /** `trim` takes out a slice of `s`: everything before the slice and everything after it is
      white space (and, by `Trim`'s contract, the slice neither starts nor ends with white
      space), so only the white space at the two edges is removed. */
  lemma TrimIsSlice(s: string)
    ensures exists i, j :: (0 <= i <= j <= |s| && Trim(s) == s[i..j]
      && (forall k :: 0 <= k < i ==> IsWhitespace(s[k]))
      && (forall k :: j <= k < |s| ==> IsWhitespace(s[k])))
  {
    var i := Leading(s);
    var u := s[i..];
    var j := i + |u| - Trailing(u);
    assert Trim(s) == s[i..j];
    assert forall k :: j <= k < |s| ==> s[k] == u[k - i];
  }

  /** A blank string: one that `trim` turns into the empty string. */
  predicate IsBlank(s: string) {
    Trim(s) == []
  }

  predicate UniqueIds(options: seq<FormOption>) {
    forall i, j :: 0 <= i < j < |options| ==> options[i].id != options[j].id
  }

  function CorrectOptions(options: seq<FormOption>): nat {
    if options == [] then 0
    else CorrectOptions(options[..|options| - 1]) + (if options[|options| - 1].isCorrect then 1 else 0)
  }

  /** The two blank, incorrect options a new question starts with. */
  function InitialOptions(id1: string, id2: string): (r: seq<FormOption>)
    requires id1 != id2
    ensures |r| == MIN_OPTIONS && UniqueIds(r) && CorrectOptions(r) == 0
    ensures forall i :: 0 <= i < |r| ==> r[i].text == "" && !r[i].isCorrect
  {
    var r := [FormOption(id1, "", false), FormOption(id2, "", false)];
    assert r[..1][..0] == [];
    assert CorrectOptions(r[..1]) == 0;
    r
  }

  /** `handleAddOption`: nothing at six options; otherwise one blank incorrect option appended. */
  function WithAddedOption(options: seq<FormOption>, newId: string): (r: seq<FormOption>)
    ensures |options| >= MAX_OPTIONS ==> r == options
    ensures |options| < MAX_OPTIONS ==>
      |r| == |options| + 1 && r[..|options|] == options && r[|options|] == FormOption(newId, "", false)
    ensures |options| <= MAX_OPTIONS ==> |r| <= MAX_OPTIONS
    ensures CorrectOptions(r) == CorrectOptions(options)
  {
    if |options| >= MAX_OPTIONS then options
    else
      var r := options + [FormOption(newId, "", false)];
      assert r[..|r| - 1] == options;
      r
  }

  /** The options whose id differs from `id`, in order (`filter`). */
  function OtherOptions(options: seq<FormOption>, id: string): (r: seq<FormOption>)
    ensures forall o :: o in r <==> o in options && o.id != id
    ensures |r| <= |options|
    ensures CorrectOptions(r) <= CorrectOptions(options)
  {
    if options == [] then []
    else
      var init := OtherOptions(options[..|options| - 1], id);
      var last := options[|options| - 1];
      assert forall o :: o in options <==> o in options[..|options| - 1] || o == last;
      if last.id != id then
        var r := init + [last];
        assert r[..|r| - 1] == init;
        r
      else init
  }

  /** Appending one option appends it to the filtered list unless it has the id. */
  lemma OtherOptionsSnoc(s: seq<FormOption>, x: FormOption, id: string)
    ensures OtherOptions(s + [x], id) == if x.id != id then OtherOptions(s, id) + [x] else OtherOptions(s, id)
  {
    assert (s + [x])[..|s|] == s;
  }

  /** Filtering out an id that no option has changes nothing. */
  lemma {:induction false} OtherOptionsAbsent(options: seq<FormOption>, id: string)
    requires forall k :: 0 <= k < |options| ==> options[k].id != id
    ensures OtherOptions(options, id) == options
  {
    if options != [] {
      var n := |options| - 1;
      var init, x := options[..n], options[n];
      assert forall k :: 0 <= k < |init| ==> init[k] == options[k];
      assert options == init + [x];
      OtherOptionsAbsent(init, id);
      OtherOptionsSnoc(init, x, id);
    }
  }

  /** Filtering keeps ids unique and, with unique ids, removes at most one option. */
  lemma {:induction false} OtherOptionsFacts(options: seq<FormOption>, id: string)
    requires UniqueIds(options)
    ensures UniqueIds(OtherOptions(options, id))
    ensures |OtherOptions(options, id)| >= |options| - 1
  {
    if options != [] {
      var init := options[..|options| - 1];
      var last := options[|options| - 1];
      var rest := OtherOptions(init, id);
      OtherOptionsFacts(init, id);
      if last.id != id {
        forall i | 0 <= i < |rest| ensures rest[i].id != last.id {
          assert rest[i] in rest;
          var k :| 0 <= k < |init| && init[k] == rest[i];
          assert options[k] == init[k];
        }
      } else {
        OtherOptionsAbsent(init, id);
      }
    }
  }

  /** A single option is kept exactly when its id differs. */
  lemma OtherOptionsSingle(x: FormOption, id: string)
    ensures OtherOptions([x], id) == if x.id != id then [x] else []
  {
    assert [x][..0] == [];
  }

  /** Filtering works option by option: it distributes over concatenation, so with
      `OtherOptionsSingle` the result is the other options in their original order. */
  lemma {:induction false} OtherOptionsOrder(a: seq<FormOption>, b: seq<FormOption>, id: string)
    ensures OtherOptions(a + b, id) == OtherOptions(a, id) + OtherOptions(b, id)
    decreases |b|
  {
    if b == [] {
      assert a + b == a;
    } else {
      var n := |b| - 1;
      assert (a + b)[..|a + b| - 1] == a + b[..n];
      assert (a + b)[|a + b| - 1] == b[n];
      OtherOptionsOrder(a, b[..n], id);
    }
  }

  /** `handleRemoveOption`: nothing at two options or fewer; otherwise the option with that id
      is removed. */
  function WithoutOption(options: seq<FormOption>, id: string): (r: seq<FormOption>)
    ensures |options| <= MIN_OPTIONS ==> r == options
    ensures |options| > MIN_OPTIONS ==> r == OtherOptions(options, id)
  {
    if |options| <= MIN_OPTIONS then options else OtherOptions(options, id)
  }

  /** With unique ids removing an option never takes the list below two options nor adds a
      correct one. */
  lemma RemoveKeepsBounds(options: seq<FormOption>, id: string)
    requires UniqueIds(options) && |options| >= MIN_OPTIONS
    ensures MIN_OPTIONS <= |WithoutOption(options, id)| <= |options|
    ensures UniqueIds(WithoutOption(options, id))
    ensures CorrectOptions(WithoutOption(options, id)) <= CorrectOptions(options)
  {
    OtherOptionsFacts(options, id);
  }

  /** `handleOptionChange`: the option with that id gets the new label; order, length, ids and
      correctness are unchanged. */
  function Relabelled(options: seq<FormOption>, id: string, text: string): (r: seq<FormOption>)
    ensures |r| == |options|
    ensures forall i :: 0 <= i < |r| ==> r[i].id == options[i].id && r[i].isCorrect == options[i].isCorrect
    ensures forall i :: 0 <= i < |r| ==> r[i].text == (if options[i].id == id then text else options[i].text)
  {
    seq(|options|, i requires 0 <= i < |options| =>
      if options[i].id == id then options[i].(text := text) else options[i])
  }

  /** Correctness depends only on the flags, so relabelling keeps the correct count. */
  lemma {:induction false} SameFlagsSameCount(a: seq<FormOption>, b: seq<FormOption>)
    requires |a| == |b| && forall i :: 0 <= i < |a| ==> a[i].isCorrect == b[i].isCorrect
    ensures CorrectOptions(a) == CorrectOptions(b)
  {
    if a != [] {
      SameFlagsSameCount(a[..|a| - 1], b[..|b| - 1]);
    }
  }

  /** `handleCorrectChange`: exactly the options with that id are correct. */
  function MarkedCorrect(options: seq<FormOption>, id: string): (r: seq<FormOption>)
    ensures |r| == |options|
    ensures forall i :: 0 <= i < |r| ==> r[i].id == options[i].id && r[i].text == options[i].text
    ensures forall i :: 0 <= i < |r| ==> (r[i].isCorrect <==> options[i].id == id)
  {
    seq(|options|, i requires 0 <= i < |options| => options[i].(isCorrect := options[i].id == id))
  }

  /** With unique ids marking an option correct leaves exactly one correct option when the id
      is present and none otherwise. */
  lemma {:induction false} MarkedCorrectCount(options: seq<FormOption>, id: string)
    requires UniqueIds(options)
    ensures (exists i :: 0 <= i < |options| && options[i].id == id) ==> CorrectOptions(MarkedCorrect(options, id)) == 1
    ensures (forall i :: 0 <= i < |options| ==> options[i].id != id) ==> CorrectOptions(MarkedCorrect(options, id)) == 0
  {
    if options != [] {
      var n := |options| - 1;
      var init := options[..n];
      MarkedCorrectCount(init, id);
      assert MarkedCorrect(options, id)[..n] == MarkedCorrect(init, id);
      if options[n].id == id {
        assert forall i :: 0 <= i < n ==> init[i].id != id;
      } else if exists i :: 0 <= i < |options| && options[i].id == id {
        var i :| 0 <= i < |options| && options[i].id == id;
        assert init[i].id == id;
      }
    }
  }

  /** The options with a non-blank label, in order. */
  function Filled(options: seq<FormOption>): (r: seq<FormOption>)
    ensures forall o :: o in r <==> o in options && !IsBlank(o.text)
    ensures |r| <= |options|
    ensures CorrectOptions(r) <= CorrectOptions(options)
  {
    if options == [] then []
    else
      var init := Filled(options[..|options| - 1]);
      var last := options[|options| - 1];
      assert forall o :: o in options <==> o in options[..|options| - 1] || o == last;
      if !IsBlank(last.text) then
        var r := init + [last];
        assert r[..|r| - 1] == init;
        r
      else init
  }

  /** A single option is kept exactly when its label is not blank. */
  lemma FilledSingle(x: FormOption)
    ensures Filled([x]) == if IsBlank(x.text) then [] else [x]
  {
    assert [x][..0] == [];
  }

  /** Dropping blank options works option by option: it distributes over concatenation, so
      with `FilledSingle` the result is the filled options in their original order. */
  lemma {:induction false} FilledOrder(a: seq<FormOption>, b: seq<FormOption>)
    ensures Filled(a + b) == Filled(a) + Filled(b)
    decreases |b|
  {
    if b == [] {
      assert a + b == a;
    } else {
      var n := |b| - 1;
      assert (a + b)[..|a + b| - 1] == a + b[..n];
      assert (a + b)[|a + b| - 1] == b[n];
      FilledOrder(a, b[..n]);
    }
  }

  /** The messages `validateForm` shows. */
  datatype FormError =
    | PromptRequired      // "Question prompt is required"
    | PointsNotPositive   // "Points must be a positive number"
    | TooFewOptions       // "At least 2 answer options are required"
    | NoCorrectOption     // "Please mark one option as the correct answer"

  /** Some option is marked correct and has a non-blank label (`options.some(...)`). */
  predicate HasCorrectFilled(options: seq<FormOption>) {
    exists i :: 0 <= i < |options| && options[i].isCorrect && !IsBlank(options[i].text)
  }

  /** `validateForm`: the first failing check, or None. `parse` is `parseFloat`, None standing for
      NaN. */
  function Validate(prompt: string, points: string, options: seq<FormOption>, parse: string -> Option<real>)
    : (r: Option<FormError>)
    ensures IsBlank(prompt) ==> r == Some(PromptRequired)
    ensures !IsBlank(prompt) && (parse(points).None? || parse(points).value <= 0.0) ==> r == Some(PointsNotPositive)
    ensures (!IsBlank(prompt) && parse(points).Some? && parse(points).value > 0.0
      && |Filled(options)| < 2) ==> r == Some(TooFewOptions)
    ensures (!IsBlank(prompt) && parse(points).Some? && parse(points).value > 0.0
      && |Filled(options)| >= 2 && !HasCorrectFilled(options)) ==> r == Some(NoCorrectOption)
    ensures r.None? <==> (!IsBlank(prompt) && parse(points).Some? && parse(points).value > 0.0
      && |Filled(options)| >= 2 && HasCorrectFilled(options))
  {
    if IsBlank(prompt) then Some(PromptRequired)
    else if parse(points).None? || parse(points).value <= 0.0 then Some(PointsNotPositive)
    else if |Filled(options)| < 2 then Some(TooFewOptions)
    else if !HasCorrectFilled(options) then Some(NoCorrectOption)
    else None
  }

  /** Each option as sent: its trimmed label and its flag (`map`). */
  function Sent(filled: seq<FormOption>): (r: seq<OptionInput>)
    ensures |r| == |filled|
    ensures forall i :: 0 <= i < |r| ==> r[i] == OptionInput(Trim(filled[i].text), filled[i].isCorrect)
  {
    seq(|filled|, i requires 0 <= i < |filled| => OptionInput(Trim(filled[i].text), filled[i].isCorrect))
  }

  /** The options `handleSubmit` sends: the non-blank ones, trimmed, in their original order. */
  function SubmittedOptions(options: seq<FormOption>): (r: seq<OptionInput>)
    ensures |r| == |Filled(options)|
    ensures forall i :: 0 <= i < |r| ==>
      r[i] == OptionInput(Trim(Filled(options)[i].text), Filled(options)[i].isCorrect)
  {
    Sent(Filled(options))
  }

  /** Sending works option by option. */
  lemma SentConcat(x: seq<FormOption>, y: seq<FormOption>)
    ensures Sent(x + y) == Sent(x) + Sent(y)
  {
    var l, r := Sent(x + y), Sent(x) + Sent(y);
    forall i | 0 <= i < |l| ensures l[i] == r[i] {
      if i < |x| {
        assert (x + y)[i] == x[i];
      } else {
        assert (x + y)[i] == y[i - |x|];
      }
    }
  }

  /** The submitted options follow the form's order: submitting distributes over
      concatenation, and with `SubmittedOptionsSingle` each option contributes in its place. */
  lemma SubmittedOptionsOrder(a: seq<FormOption>, b: seq<FormOption>)
    ensures SubmittedOptions(a + b) == SubmittedOptions(a) + SubmittedOptions(b)
  {
    FilledOrder(a, b);
    SentConcat(Filled(a), Filled(b));
  }

  /** A single option is submitted as its trimmed label and flag unless its label is blank. */
  lemma SubmittedOptionsSingle(x: FormOption)
    ensures SubmittedOptions([x]) == if IsBlank(x.text) then [] else [OptionInput(Trim(x.text), x.isCorrect)]
  {
    FilledSingle(x);
  }

  /** Sending keeps the number of correct options. */
  lemma {:induction false} SentCorrectCount(filled: seq<FormOption>)
    ensures CorrectCount(Sent(filled)) == CorrectOptions(filled)
  {
    if filled != [] {
      var n := |filled| - 1;
      SentCorrectCount(filled[..n]);
      assert Sent(filled)[..n] == Sent(filled[..n]);
    }
  }

  /** A correct option among the filled ones makes their correct count positive. */
  lemma {:induction false} CorrectFilledCounted(options: seq<FormOption>)
    requires HasCorrectFilled(options)
    ensures CorrectOptions(Filled(options)) >= 1
  {
    var n := |options| - 1;
    var init := Filled(options[..n]);
    var last := options[n];
    if IsBlank(last.text) {
      assert Filled(options) == init;
      FilledWitnessEarlier(options);
      CorrectFilledCounted(options[..n]);
    } else {
      assert Filled(options) == init + [last];
      CorrectOptionsAppend(init, last);
      if !last.isCorrect {
        FilledWitnessEarlier(options);
        CorrectFilledCounted(options[..n]);
      }
    }
  }

  /** When the last option is not a filled correct one, an earlier option is. */
  lemma FilledWitnessEarlier(options: seq<FormOption>)
    requires HasCorrectFilled(options)
    requires !(options[|options| - 1].isCorrect && !IsBlank(options[|options| - 1].text))
    ensures HasCorrectFilled(options[..|options| - 1])
  {
    var i :| 0 <= i < |options| && options[i].isCorrect && !IsBlank(options[i].text);
    assert options[..|options| - 1][i] == options[i];
  }

  /** Appending an option adds one to the count exactly when it is marked correct. */
  lemma CorrectOptionsAppend(s: seq<FormOption>, x: FormOption)
    ensures CorrectOptions(s + [x]) == CorrectOptions(s) + (if x.isCorrect then 1 else 0)
  {
    assert (s + [x])[..|s|] == s;
  }

  /** A form that passes validation with at most one correct option sends a request the
      backend's create schema accepts: a non-empty prompt, positive points, at least two
      options with non-empty labels and exactly one correct. */
  lemma ValidFormGivesValidRequest(prompt: string, points: string, options: seq<FormOption>,
                                   parse: string -> Option<real>)
    requires Validate(prompt, points, options, parse).None?
    requires CorrectOptions(options) <= 1
    ensures IsCreateQuestionDto(CreateQuestionDto(Trim(prompt), parse(points).value, SubmittedOptions(options)))
  {
    var filled := Filled(options);
    var sent := SubmittedOptions(options);
    assert sent == Sent(filled);
    CorrectFilledCounted(options);
    SentCorrectCount(filled);
    assert CorrectCount(sent) == 1;
    forall o | o in sent ensures |o.text| >= 1 {
      var i :| 0 <= i < |sent| && sent[i] == o;
      assert filled[i] in filled;
    }
    assert ValidOptions(sent);
  }

  /** The form's state. Client-side ids are unique, there are between two and six options and
      at most one of them is marked correct. */
  class QuestionFormState {
    var prompt: string
    var points: string
    var options: seq<FormOption>
    var error: Option<FormError>

    ghost predicate Valid()
      reads this
    {
      UniqueIds(options) && MIN_OPTIONS <= |options| <= MAX_OPTIONS && CorrectOptions(options) <= 1
    }

    /** A new question: empty prompt, one point, two blank options, no error. */
    constructor (id1: string, id2: string)
      requires id1 != id2
      ensures Valid()
      ensures prompt == "" && points == "1" && options == InitialOptions(id1, id2) && error == None
    {
      prompt, points := "", "1";
      options := InitialOptions(id1, id2);
      error := None;
    }

    method AddOption(newId: string)
      requires Valid()
      requires forall i :: 0 <= i < |options| ==> options[i].id != newId
      modifies this
      ensures Valid()
      ensures options == WithAddedOption(old(options), newId)
      ensures prompt == old(prompt) && points == old(points) && error == old(error)
    {
      options := WithAddedOption(options, newId);
    }

    method RemoveOption(id: string)
      requires Valid()
      modifies this
      ensures Valid()
      ensures options == WithoutOption(old(options), id)
      ensures prompt == old(prompt) && points == old(points) && error == old(error)
    {
      RemoveKeepsBounds(options, id);
      options := WithoutOption(options, id);
    }

    method ChangeLabel(id: string, text: string)
      requires Valid()
      modifies this
      ensures Valid()
      ensures options == Relabelled(old(options), id, text)
      ensures prompt == old(prompt) && points == old(points) && error == old(error)
    {
      SameFlagsSameCount(options, Relabelled(options, id, text));
      options := Relabelled(options, id, text);
    }

    method MarkCorrect(id: string)
      requires Valid()
      modifies this
      ensures Valid()
      ensures options == MarkedCorrect(old(options), id)
      ensures prompt == old(prompt) && points == old(points) && error == old(error)
    {
      MarkedCorrectCount(options, id);
      options := MarkedCorrect(options, id);
    }

    /** `handleSubmit` up to the request: clears the error, validates, and either shows the
        first failing check or yields the request, which the backend accepts. */
    method Submit(parse: string -> Option<real>) returns (request: Option<CreateQuestionDto>)
      requires Valid()
      modifies this
      ensures Valid()
      ensures options == old(options) && prompt == old(prompt) && points == old(points)
      ensures error == Validate(prompt, points, options, parse)
      ensures request.None? <==> error.Some?
      ensures request.Some? ==>
        && request.value == CreateQuestionDto(Trim(prompt), parse(points).value, SubmittedOptions(options))
        && IsCreateQuestionDto(request.value)
    {
      error := None;
      var check := Validate(prompt, points, options, parse);
      if check.Some? {
        error := check;
        return None;
      }
      ValidFormGivesValidRequest(prompt, points, options, parse);
      request := Some(CreateQuestionDto(Trim(prompt), parse(points).value, SubmittedOptions(options)));
    }
  }
}
