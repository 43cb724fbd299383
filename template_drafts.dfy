/**
 * The template editor and the create-template page: both keep the draft
 * questions in a list, add, replace and remove entries, and on submit send
 * the form values, the image URL and the questions with options cleared
 * for non-choice types.
 */
module TemplateDrafts {
  import opened Wrappers
  import opened Collections
  import opened Payloads
  import QuestionEditor
  import TemplateRoutes

  /** The question addQuestion appends. */
  const NewQuestion := QuestionDraft(Some(""), None, Some("TEXT"), Some(true), Some(false), Some([]))

  /** addQuestion: one default question appended: TEXT, required, not shown in the table, no options. */
  function AddQuestion(qs: seq<QuestionDraft>): (r: seq<QuestionDraft>)
    ensures |r| == |qs| + 1 && r[..|qs|] == qs
    ensures var q := r[|qs|];
      q.qtype == Some("TEXT") && q.isRequired == Some(true) && q.displayInTable == Some(false) && q.options == Some([]) && q.text == Some("")
  {
    qs + [NewQuestion]
  }

  /** updateQuestion: the entry at `i` replaced, the others kept. */
  function UpdateQuestion(qs: seq<QuestionDraft>, i: nat, q: QuestionDraft): (r: seq<QuestionDraft>)
    requires i < |qs|
    ensures |r| == |qs| && r[i] == q
    ensures forall k | 0 <= k < |qs| && k != i :: r[k] == qs[k]
  {
    qs[i := q]
  }

  /** removeQuestion: the entry at `i` spliced out. */
  function RemoveQuestion(qs: seq<QuestionDraft>, i: nat): (r: seq<QuestionDraft>)
    ensures i < |qs| ==> |r| == |qs| - 1 && IsSubsequence(r, qs)
    ensures i < |qs| ==> (forall k | 0 <= k < i :: r[k] == qs[k]) && (forall k | i <= k < |r| :: r[k] == qs[k + 1])
    ensures i >= |qs| ==> r == qs
  {
    if i < |qs| then SpliceOutSubsequence(qs, i); SpliceOut(qs, i) else qs
  }

  /** Removing the question just added gives back the list. */
  lemma RemoveAddedQuestion(qs: seq<QuestionDraft>)
    ensures RemoveQuestion(AddQuestion(qs), |qs|) == qs
  {
    assert AddQuestion(qs)[..|qs|] == qs;
  }

  /** One question as submitted: its options kept only for SELECT, RADIO and CHECKBOX. */
  function Submitted(q: QuestionDraft): (r: QuestionDraft)
    ensures IsChoiceType(q.qtype) ==> r == q
    ensures !IsChoiceType(q.qtype) ==> r.options == Some([]) && r.(options := q.options) == q
  {
    q.(options := if IsChoiceType(q.qtype) then q.options else Some([]))
  }

  function SubmittedQuestions(qs: seq<QuestionDraft>): (r: seq<QuestionDraft>)
    ensures |r| == |qs| && forall i | 0 <= i < |qs| :: r[i] == Submitted(qs[i])
  {
    seq(|qs|, i requires 0 <= i < |qs| => Submitted(qs[i]))
  }

  /**
   * onFinish: nothing is sent without questions; otherwise the form values
   * with the page's image URL and the submitted questions.
   */
  function OnFinish(values: TemplateBody, imageUrl: string, qs: seq<QuestionDraft>): (r: Option<TemplateBody>)
    ensures r.None? <==> qs == []
    ensures r.Some? ==> r.value == values.(imageUrl := Some(imageUrl), questions := Some(SubmittedQuestions(qs)))
  {
    if |qs| == 0 then None
    else Some(values.(imageUrl := Some(imageUrl), questions := Some(SubmittedQuestions(qs))))
  }

  /** The create page after onFinish: the body sent, and the question list and image URL it keeps. */
  datatype CreateOutcome = CreateOutcome(sent: Option<TemplateBody>, questions: seq<QuestionDraft>, imageUrl: string)

  /**
   * The create page's onFinish: after a successful create the questions
   * and the image are reset; after a failure, or when nothing was sent,
   * they stay.
   */
  function OnCreateFinish(values: TemplateBody, imageUrl: string, qs: seq<QuestionDraft>, createSucceeds: bool): (r: CreateOutcome)
    ensures r.sent == OnFinish(values, imageUrl, qs)
    ensures r.sent.Some? && createSucceeds ==> r.questions == [] && r.imageUrl == ""
    ensures r.sent.None? || !createSucceeds ==> r.questions == qs && r.imageUrl == imageUrl
  {
    var sent := OnFinish(values, imageUrl, qs);
    if sent.Some? && createSucceeds then CreateOutcome(sent, [], "")
    else CreateOutcome(sent, qs, imageUrl)
  }

  /** Submitting a question twice is the same as once. */
  lemma SubmittedIdempotent(q: QuestionDraft)
    ensures Submitted(Submitted(q)) == Submitted(q)
  {
  }

  /** A type change in the editor already leaves the question as it would be submitted. */
  lemma TypeChangeAlreadySubmittable(q: QuestionDraft, qtype: string)
    ensures QuestionEditor.ChangeType(q, qtype).options.Some? || IsChoiceType(Some(qtype))
    ensures Submitted(QuestionEditor.ChangeType(q, qtype)) == QuestionEditor.ChangeType(q, qtype)
  {
  }

  /** The rows the server builds from a submitted body carry options only for choice types, in the given order. */
  lemma StoredOptionsOnlyForChoices(templateId: int, qs: seq<QuestionDraft>, i: nat)
    requires i < |qs|
    ensures var row := TemplateRoutes.BuildQuestion(templateId, SubmittedQuestions(qs)[i], i);
      && row.qtype == qs[i].qtype
      && row.order == i
      && (IsChoiceType(qs[i].qtype) ==> row.options == QuestionEditor.OptionsOf(qs[i]))
      && (!IsChoiceType(qs[i].qtype) ==> row.options == [])
  {
    TemplateRoutes.BuildQuestionDefaults(templateId, SubmittedQuestions(qs)[i], i);
  }
}
