/**
 * The page for filling in a template: a blank answer per question, edited
 * through the shared answer dictionary, and submitted by three calls in a
 * fixed order.
 */
module FormCreatePage {
  import opened Wrappers
  import opened Js
  import opened Collections
  import opened AnswerMaps

  /** The blank answer of a question: `[]` for CHECKBOX, `''` otherwise. */
  function Blank(q: PageQuestion): JsValue {
    if q.qtype == Some("CHECKBOX") then Arr([]) else Str("")
  }

  /** The dictionary after the initialising `forEach` over the template's questions. */
  function BlankMap(questions: seq<PageQuestion>): AnswerMap
    decreases |questions|
  {
    if questions == [] then map[]
    else
      var last := questions[|questions| - 1];
      BlankMap(questions[..|questions| - 1])[Key(last.id) := Blank(last)]
  }

  /** The initialising loop, question by question. */
  method InitialAnswers(questions: seq<PageQuestion>) returns (m: AnswerMap)
    ensures m == BlankMap(questions)
  {
    m := map[];
    var i := 0;
    while i < |questions|
      invariant 0 <= i <= |questions|
      invariant m == BlankMap(questions[..i])
    {
      assert questions[..i + 1][..i] == questions[..i];
      if questions[i].qtype == Some("CHECKBOX") {
        m := m[Key(questions[i].id) := Arr([])];
      } else {
        m := m[Key(questions[i].id) := Str("")];
      }
      i := i + 1;
    }
    assert questions[..i] == questions;
  }

  function QuestionKeys(questions: seq<PageQuestion>): (r: seq<string>)
    ensures |r| == |questions| && forall i | 0 <= i < |questions| :: r[i] == Key(questions[i].id)
  {
    seq(|questions|, i requires 0 <= i < |questions| => Key(questions[i].id))
  }

  /** The dictionary's keys are exactly the questions' keys. */
  lemma {:induction false} BlankMapKeySet(questions: seq<PageQuestion>)
    ensures forall k :: k in BlankMap(questions) <==> k in QuestionKeys(questions)
    decreases |questions|
  {
    if questions != [] {
      var init := questions[..|questions| - 1];
      BlankMapKeySet(init);
      assert QuestionKeys(questions) == QuestionKeys(init) + [Key(questions[|questions| - 1].id)];
    }
  }

  /** Each question starts blank: `[]` for CHECKBOX and `''` for every other type. */
  lemma {:induction false} BlankMapValues(questions: seq<PageQuestion>, i: nat)
    requires i < |questions|
    requires forall j | i < j < |questions| :: questions[j].id != questions[i].id
    ensures Key(questions[i].id) in BlankMap(questions)
    ensures BlankMap(questions)[Key(questions[i].id)] == if questions[i].qtype == Some("CHECKBOX") then Arr([]) else Str("")
    decreases |questions|
  {
    var init := questions[..|questions| - 1];
    if i < |questions| - 1 {
      KeyInjective(questions[i].id, questions[|questions| - 1].id);
      assert init[i] == questions[i];
      BlankMapValues(init, i);
    }
  }

  /** One key per question when question ids are distinct, and every key is an id key. */
  lemma BlankMapSize(questions: seq<PageQuestion>)
    requires forall i, j | 0 <= i < j < |questions| :: questions[i].id != questions[j].id
    ensures |BlankMap(questions)| == |questions|
    ensures IdKeyed(BlankMap(questions))
  {
    var ids := QuestionKeys(questions);
    forall i, j | 0 <= i < j < |ids| ensures ids[i] != ids[j] {
      KeyInjective(questions[i].id, questions[j].id);
    }
    DistinctCard(ids);
    BlankMapKeySet(questions);
    assert (set x | x in ids) == BlankMap(questions).Keys;
    forall k | k in BlankMap(questions) ensures ParseInt(k).Some? && Key(ParseInt(k).value) == k {
      var i :| 0 <= i < |ids| && ids[i] == k;
      ParseIntNumToString(questions[i].id);
    }
  }

  // ---------------------------------------------------------------- submission

  /** The requests handleSubmit makes. */
  datatype Call = CreateForm(templateId: string) | UpdateAnswers(formId: int, answers: seq<SentAnswer>) | CompleteForm(formId: int)

  /** The calls made, and the form page navigated to at the end, if any. */
  datatype Submission = Submission(calls: seq<Call>, navigatedTo: Option<int>)

  /** The full sequence: create the form, then send its answers, then complete it. */
  function AllCalls(templateId: string, answers: seq<SentAnswer>, formId: int): seq<Call> {
    [CreateForm(templateId), UpdateAnswers(formId, answers), CompleteForm(formId)]
  }

  /**
   * handleSubmit: each call is made only after the previous one succeeded
   * (`created` is the new form's id, or `None` when the create failed);
   * the first failure ends the sequence and nothing is navigated to.
   */
  function Submit(templateId: string, m: AnswerMap, order: seq<string>, created: Option<int>, updateSucceeds: bool, completeSucceeds: bool): (r: Submission)
    requires ListsKeys(order, m)
    ensures r.calls != [] && r.calls[0] == CreateForm(templateId)
    ensures created.None? ==> r.calls == [CreateForm(templateId)]
    ensures created.Some? ==>
      && |r.calls| == (if updateSucceeds then 3 else 2)
      && r.calls == AllCalls(templateId, AnswersArray(m, order), created.value)[..|r.calls|]
    ensures r.navigatedTo.Some? <==> created.Some? && updateSucceeds && completeSucceeds
    ensures r.navigatedTo.Some? ==> r.navigatedTo == created
  {
    match created
    case None => Submission([CreateForm(templateId)], None)
    case Some(id) =>
      var all := AllCalls(templateId, AnswersArray(m, order), id);
      if !updateSucceeds then Submission(all[..2], None)
      else if !completeSucceeds then Submission(all, None)
      else Submission(all, Some(id))
  }

  /** The answers are never sent before the form exists, and the form is never completed before its answers are sent. */
  lemma CallsInOrder(templateId: string, m: AnswerMap, order: seq<string>, created: Option<int>, updateSucceeds: bool, completeSucceeds: bool, i: nat)
    requires ListsKeys(order, m)
    requires i < |Submit(templateId, m, order, created, updateSucceeds, completeSucceeds).calls|
    ensures var calls := Submit(templateId, m, order, created, updateSucceeds, completeSucceeds).calls;
      && (calls[i].UpdateAnswers? ==> i == 1 && calls[0].CreateForm?)
      && (calls[i].CompleteForm? ==> i == 2 && calls[1].UpdateAnswers? && calls[1].formId == calls[i].formId)
  {
  }
}
