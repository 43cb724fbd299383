/**
 * The question editor's handlers. Each builds a new question from the old
 * one by spreading it and replacing one field, and hands it to `onChange`;
 * the function result here is that new question.
 */
module QuestionEditor {
  import opened Wrappers
  import opened Collections
  import opened Payloads

  /** `question.options || []`: an absent option list reads as empty. */
  function OptionsOf(q: QuestionDraft): seq<string> {
    q.options.GetOr([])
  }

  /** handleTextChange: only the text changes. */
  function ChangeText(q: QuestionDraft, text: string): (r: QuestionDraft)
    ensures r.text == Some(text)
    ensures r.(text := q.text) == q
  {
    q.(text := Some(text))
  }

  /** handleTypeChange: the new type; options emptied unless the type is SELECT, RADIO or CHECKBOX. */
  function ChangeType(q: QuestionDraft, qtype: string): (r: QuestionDraft)
    ensures r.qtype == Some(qtype)
    ensures IsChoiceType(Some(qtype)) ==> r.options == q.options
    ensures !IsChoiceType(Some(qtype)) ==> r.options == Some([])
    ensures r.(qtype := q.qtype, options := q.options) == q
  {
    if IsChoiceType(Some(qtype)) then q.(qtype := Some(qtype))
    else q.(qtype := Some(qtype), options := Some([]))
  }

  /** handleOptionChange: the option at `i` becomes `value`; the others keep their place. */
  function ChangeOption(q: QuestionDraft, i: nat, value: string): (r: QuestionDraft)
    requires i < |OptionsOf(q)|
    ensures r.options.Some? && |r.options.value| == |OptionsOf(q)|
    ensures r.options.value[i] == value
    ensures forall k | 0 <= k < |OptionsOf(q)| && k != i :: r.options.value[k] == OptionsOf(q)[k]
    ensures r.(options := q.options) == q
  {
    q.(options := Some(OptionsOf(q)[i := value]))
  }

  /** addOption: one empty option appended. */
  function AddOption(q: QuestionDraft): (r: QuestionDraft)
    ensures r.options.Some? && |r.options.value| == |OptionsOf(q)| + 1
    ensures r.options.value[..|OptionsOf(q)|] == OptionsOf(q) && r.options.value[|OptionsOf(q)|] == ""
    ensures r.(options := q.options) == q
  {
    q.(options := Some(OptionsOf(q) + [""]))
  }

  /** removeOption: the option at `i` spliced out; an index past the end removes nothing. */
  function RemoveOption(q: QuestionDraft, i: nat): (r: QuestionDraft)
    ensures r.options == Some(SpliceOut(OptionsOf(q), i))
    ensures r.(options := q.options) == q
  {
    q.(options := Some(SpliceOut(OptionsOf(q), i)))
  }

  /** Removing the option just added gives back the options as they were. */
  lemma RemoveAddedOption(q: QuestionDraft)
    ensures OptionsOf(RemoveOption(AddOption(q), |OptionsOf(q)|)) == OptionsOf(q)
  {
    var opts := OptionsOf(AddOption(q));
    assert opts == OptionsOf(q) + [""];
    assert SpliceOut(opts, |OptionsOf(q)|) == opts[..|OptionsOf(q)|];
  }

  /** Removing an option keeps every other option, in order. */
  lemma RemoveOptionKeepsOthers(q: QuestionDraft, i: nat)
    requires i < |OptionsOf(q)|
    ensures var rest := OptionsOf(RemoveOption(q, i));
      |rest| == |OptionsOf(q)| - 1
      && multiset(rest) + multiset{OptionsOf(q)[i]} == multiset(OptionsOf(q))
      && IsSubsequence(rest, OptionsOf(q))
  {
    var s := OptionsOf(q);
    var rest := SpliceOut(s, i);
    assert rest == s[..i] + s[i + 1..];
    SpliceOutSubsequence(s, i);
  }

  /** Changing the type twice to the same value is the same as once. */
  lemma ChangeTypeIdempotent(q: QuestionDraft, qtype: string)
    ensures ChangeType(ChangeType(q, qtype), qtype) == ChangeType(q, qtype)
  {
  }
}
