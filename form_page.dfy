/**
 * The page showing one filled form: the answer dictionary it loads, who
 * may edit, and how each stored answer is displayed.
 */
module FormPage {
  import opened Wrappers
  import opened Js
  import opened Store
  import opened Collections
  import opened AnswerMaps
  import FormRoutes

  // ---------------------------------------------------------------- loading

  /** The dictionary after `answers.forEach(a => initial[a.questionId] = a.value)`: a later answer to the same question wins. */
  function LoadedMap(answers: seq<Answer>): AnswerMap
    decreases |answers|
  {
    if answers == [] then map[]
    else
      var last := answers[|answers| - 1];
      LoadedMap(answers[..|answers| - 1])[Key(last.questionId) := last.value]
  }

  /** The loading loop, entry by entry. */
  method InitialAnswers(answers: seq<Answer>) returns (m: AnswerMap)
    ensures m == LoadedMap(answers)
  {
    m := map[];
    var i := 0;
    while i < |answers|
      invariant 0 <= i <= |answers|
      invariant m == LoadedMap(answers[..i])
    {
      assert answers[..i + 1][..i] == answers[..i];
      m := m[Key(answers[i].questionId) := answers[i].value];
      i := i + 1;
    }
    assert answers[..i] == answers;
  }

  /** The keys the loaded answers write, in order. */
  function KeysWritten(answers: seq<Answer>): (r: seq<string>)
    ensures |r| == |answers| && forall i | 0 <= i < |answers| :: r[i] == Key(answers[i].questionId)
  {
    seq(|answers|, i requires 0 <= i < |answers| => Key(answers[i].questionId))
  }

  /** The dictionary's keys are exactly the keys the answers write. */
  lemma {:induction false} LoadedMapKeySet(answers: seq<Answer>)
    ensures forall k :: k in LoadedMap(answers) <==> k in KeysWritten(answers)
    decreases |answers|
  {
    if answers != [] {
      var init := answers[..|answers| - 1];
      LoadedMapKeySet(init);
      assert KeysWritten(answers) == KeysWritten(init) + [Key(answers[|answers| - 1].questionId)];
    }
  }

  /** The dictionary has a key for a question exactly when some loaded answer is to that question, and only id keys. */
  lemma LoadedMapKeys(answers: seq<Answer>, q: int)
    ensures Key(q) in LoadedMap(answers) <==> exists i | 0 <= i < |answers| :: answers[i].questionId == q
  {
    LoadedMapKeySet(answers);
    if Key(q) in LoadedMap(answers) {
      var i :| 0 <= i < |answers| && KeysWritten(answers)[i] == Key(q);
      KeyInjective(answers[i].questionId, q);
    }
  }

  /** Every key of the loaded dictionary is the key of a question id. */
  lemma LoadedMapIdKeyed(answers: seq<Answer>)
    ensures IdKeyed(LoadedMap(answers))
  {
    LoadedMapKeySet(answers);
    forall k | k in LoadedMap(answers) ensures ParseInt(k).Some? && Key(ParseInt(k).value) == k {
      var i :| 0 <= i < |answers| && KeysWritten(answers)[i] == k;
      ParseIntNumToString(answers[i].questionId);
    }
  }

  /** A loaded answer that no later answer overrides is the dictionary's value for its question. */
  lemma {:induction false} LoadedMapLatest(answers: seq<Answer>, i: nat)
    requires i < |answers|
    requires forall j | i < j < |answers| :: answers[j].questionId != answers[i].questionId
    ensures Key(answers[i].questionId) in LoadedMap(answers)
    ensures LoadedMap(answers)[Key(answers[i].questionId)] == answers[i].value
    decreases |answers|
  {
    var init := answers[..|answers| - 1];
    var last := answers[|answers| - 1];
    if i < |answers| - 1 {
      KeyInjective(answers[i].questionId, last.questionId);
      assert init[i] == answers[i];
      LoadedMapLatest(init, i);
    }
  }

  /** With one answer per question, the dictionary has exactly one key per loaded answer. */
  lemma LoadedMapSize(answers: seq<Answer>)
    requires forall i, j | 0 <= i < j < |answers| :: answers[i].questionId != answers[j].questionId
    ensures |LoadedMap(answers)| == |answers|
  {
    var ids := KeysWritten(answers);
    forall i, j | 0 <= i < j < |ids| ensures ids[i] != ids[j] {
      KeyInjective(answers[i].questionId, answers[j].questionId);
    }
    DistinctCard(ids);
    LoadedMapKeySet(answers);
    assert (set x | x in ids) == LoadedMap(answers).Keys;
  }

  // ---------------------------------------------------------------- who may edit

  /** `form.userId` on the form object the server sends: it has no such property (the author is `authorId`). */
  function UserIdProperty(f: Form): JsValue {
    Undefined
  }

  /** canEdit as written: no user, no; ADMIN, yes; `form.userId === user.id`, yes; else no. */
  predicate CanEditAsWritten(user: Option<Caller>, form: Option<Form>)
    ensures CanEditAsWritten(user, form) ==> user.Some?
    ensures user.Some? && user.value.role == "ADMIN" ==> CanEditAsWritten(user, form)
  {
    user.Some? && (user.value.role == "ADMIN" || (form.Some? && UserIdProperty(form.value) == Num(user.value.id)))
  }

  /** As written, a form's own author who is not an ADMIN is never offered editing, though the server would accept the change. */
  lemma AuthorCannotEditOwnForm(user: Caller, form: Form)
    requires user.role != "ADMIN" && form.authorId == user.id
    ensures !CanEditAsWritten(Some(user), Some(form))
    ensures FormRoutes.MayManageForm(form, user)
  {
  }

  /** canEdit comparing the author the server records. */
  predicate CanEdit(user: Option<Caller>, form: Option<Form>)
    ensures CanEdit(user, form) ==> user.Some?
    ensures user.Some? && user.value.role == "ADMIN" ==> CanEdit(user, form)
  {
    user.Some? && (user.value.role == "ADMIN" || (form.Some? && form.value.authorId == user.value.id))
  }

  /** The page offers editing exactly to those the server lets change the form. */
  lemma CanEditMatchesServer(user: Option<Caller>, form: Form)
    ensures CanEdit(user, Some(form)) <==> user.Some? && FormRoutes.MayManageForm(form, user.value)
    ensures !CanEdit(None, Some(form))
  {
  }

  // ---------------------------------------------------------------- display

  /** What is shown for one answer. */
  datatype Shown = QuestionMissing | NoAnswer | Text(value: JsValue) | Listed(items: seq<JsValue>)

  /** `options.find(opt => opt.id === v)` */
  function FindOption(options: seq<OptionRow>, v: JsValue): (r: Option<OptionRow>)
    ensures r.Some? ==> r.value in options && v == Num(r.value.id)
    ensures r.None? <==> forall o | o in options :: v != Num(o.id)
  {
    if options == [] then None
    else if v == Num(options[0].id) then Some(options[0])
    else FindOption(options[1..], v)
  }

  /** `find(...)?.value || id`: the option's text, or the raw id when there is no option or its text is empty. */
  function OptionLabel(options: seq<OptionRow>, id: JsValue): JsValue {
    match FindOption(options, id)
    case Some(o) => if o.value != "" then Str(o.value) else id
    case None => id
  }

  function Labels(options: seq<OptionRow>, ids: seq<JsValue>): (r: seq<JsValue>)
    ensures |r| == |ids| && forall i | 0 <= i < |ids| :: r[i] == OptionLabel(options, ids[i])
  {
    seq(|ids|, i requires 0 <= i < |ids| => OptionLabel(options, ids[i]))
  }

  /** renderAnswer */
  function RenderAnswer(value: JsValue, question: Option<PageQuestion>): (r: Shown)
    ensures r == QuestionMissing <==> question.None?
    ensures question.Some? && question.value.qtype in {Some("TEXT"), Some("TEXTAREA"), Some("NUMBER")} ==>
      r == (if Truthy(value) then Text(value) else NoAnswer)
    ensures question.Some? && question.value.qtype == Some("CHECKBOX") ==>
      r.Listed? && (value.Arr? ==> |r.items| == |value.items|) && (!value.Arr? ==> r.items == [])
    ensures question.Some? && question.value.qtype == Some("CHECKBOX") && value.Arr? ==>
      forall i | 0 <= i < |value.items| ::
        var o := FindOption(question.value.options, value.items[i]);
        r.items[i] == (if o.Some? && o.value.value != "" then Str(o.value.value) else value.items[i])
    ensures question.Some? && question.value.qtype in {Some("RADIO"), Some("SELECT")} ==>
      r.Text? && (FindOption(question.value.options, value).Some? ==> r.value == Str(FindOption(question.value.options, value).value.value))
      && (FindOption(question.value.options, value).None? ==> r.value == value)
  {
    match question
    case None => QuestionMissing
    case Some(q) =>
      if q.qtype == Some("TEXT") || q.qtype == Some("TEXTAREA") || q.qtype == Some("NUMBER") then
        if Truthy(value) then Text(value) else NoAnswer
      else if q.qtype == Some("CHECKBOX") then
        if value.Arr? then Listed(Labels(q.options, value.items)) else Listed([])
      else if q.qtype == Some("RADIO") || q.qtype == Some("SELECT") then
        match FindOption(q.options, value)
        case Some(o) => Text(Str(o.value))
        case None => Text(value)
      else Text(value)
  }

  /** A CHECKBOX answer listing ids of options with non-empty text shows exactly those texts, in answer order. */
  lemma CheckboxShowsOptionTexts(q: PageQuestion, ids: seq<int>, texts: seq<string>)
    requires q.qtype == Some("CHECKBOX") && |texts| == |ids|
    requires forall i | 0 <= i < |ids| :: OptionRow(ids[i], texts[i]) in q.options && texts[i] != ""
    requires forall o1, o2 | o1 in q.options && o2 in q.options && o1.id == o2.id :: o1 == o2
    ensures RenderAnswer(Arr(seq(|ids|, i requires 0 <= i < |ids| => Num(ids[i]))), Some(q))
      == Listed(seq(|texts|, i requires 0 <= i < |texts| => Str(texts[i])))
  {
    var value := Arr(seq(|ids|, i requires 0 <= i < |ids| => Num(ids[i])));
    forall i | 0 <= i < |ids| ensures OptionLabel(q.options, value.items[i]) == Str(texts[i]) {
      var o := FindOption(q.options, Num(ids[i]));
      assert o.Some? && o.value.id == ids[i];
    }
  }

  /** An id that matches no option is shown as it is. */
  lemma UnknownOptionShownRaw(options: seq<OptionRow>, id: JsValue)
    requires forall o | o in options :: id != Num(o.id)
    ensures OptionLabel(options, id) == id
  {
  }
}
