/**
 * The form routes: read one form, list the caller's forms, replace a form's
 * answers, delete a form with its answers, and create a form.
 */
module FormRoutes {
  import opened Wrappers
  import opened Js
  import opened Payloads
  import opened Store

  /** Author or administrator: who may read, change or delete a form. */
  predicate MayManageForm(f: Form, user: Caller) {
    f.authorId == user.id || user.role == "ADMIN"
  }

  /** How the lookup and the author check of a form route end. */
  datatype FormCheck = LookupRejected | FormMissing | Denied | Allowed

  /**
   * `findUnique({ where: { id: parseInt(id) } })`, then 404 for no row, then
   * the author-or-ADMIN check. The database rejects a NaN id outright.
   */
  function CheckForm(forms: map<int, Form>, id: IdParam, user: Caller): (r: FormCheck)
    ensures r == LookupRejected <==> id.NotANumber?
    ensures r == FormMissing <==> id.Id? && id.n !in forms
    ensures r == Allowed <==> id.Id? && id.n in forms && MayManageForm(forms[id.n], user)
    ensures r == Denied <==> id.Id? && id.n in forms && !MayManageForm(forms[id.n], user)
  {
    match id
    case NotANumber => LookupRejected
    case Id(n) =>
      if n !in forms then FormMissing
      else if forms[n].authorId != user.id && user.role != "ADMIN" then Denied
      else Allowed
  }

  /** The status a refused check answers with. */
  function RefusalStatus(c: FormCheck): int
    requires c != Allowed
  {
    match c
    case LookupRejected => ServerError
    case FormMissing => NotFound
    case Denied => Forbidden
  }

  /** A missing form is reported as such to everyone: the author check never runs on it. */
  lemma MissingBeforeAccess(forms: map<int, Form>, n: int, u1: Caller, u2: Caller)
    requires n !in forms
    ensures CheckForm(forms, Id(n), u1) == CheckForm(forms, Id(n), u2) == FormMissing
  {
  }

  /**
   * GET /:id with `key` as the value passed to `findUnique`: a refused
   * lookup is 500, no row is 404, a caller who is neither the author nor an
   * ADMIN gets 403, and anyone else the form. With a number it is the
   * route with the conversion.
   */
  function GetFormByKey(forms: map<int, Form>, key: JsValue, user: Caller): (r: (int, Option<Form>))
    ensures key.Num? ==> r == GetForm(forms, Id(key.n), user)
    ensures !key.Num? ==> r == (ServerError, None)
  {
    match FindUnique(forms, key)
    case None => (ServerError, None)
    case Some(None) => (NotFound, None)
    case Some(Some(f)) => if !MayManageForm(f, user) then (Forbidden, None) else (Ok, Some(f))
  }

  /** GET /:id as written: the path parameter goes to `findUnique` as the string it is, so the lookup always fails. */
  function GetFormAsWritten(forms: map<int, Form>, rawId: string, user: Caller): (r: (int, Option<Form>))
    ensures r.0 == ServerError && r.1.None?
  {
    GetFormByKey(forms, Str(rawId), user)
  }

  /** GET /:id with the id converted like the other form routes: 404, then 403, then the form. */
  function GetForm(forms: map<int, Form>, id: IdParam, user: Caller): (r: (int, Option<Form>))
    ensures r.0 == Ok <==> CheckForm(forms, id, user) == Allowed
    ensures r.0 == Ok ==> r.1 == Some(forms[id.n])
    ensures r.0 != Ok ==> r.0 == RefusalStatus(CheckForm(forms, id, user)) && r.1 == None
  {
    var c := CheckForm(forms, id, user);
    if c == Allowed then (Ok, Some(forms[id.n])) else (RefusalStatus(c), None)
  }

  /** As written, even the author of an existing form cannot read it; with the conversion the author can. */
  lemma AuthorCannotReadOwnForm(forms: map<int, Form>, n: int, user: Caller)
    requires n in forms && forms[n].authorId == user.id
    ensures GetFormAsWritten(forms, NumToString(n), user).0 == ServerError
    ensures GetForm(forms, Id(n), user) == (Ok, Some(forms[n]))
  {
  }

  /** GET /: the caller's forms, newest first. */
  function OwnForms(forms: map<int, Form>, user: Caller): (r: seq<int>)
    ensures forall k | k in r :: k in forms && forms[k].authorId == user.id
    ensures forall k | k in forms && forms[k].authorId == user.id :: k in r
    ensures forall i, j | 0 <= i < j < |r| :: r[i] != r[j]
    ensures forall i | 0 <= i < |r| :: r[i] in forms
    ensures forall i, j | 0 <= i < j < |r| :: forms[r[i]].createdAt >= forms[r[j]].createdAt
  {
    FindManyOrderedDesc(forms, (f: Form) => f.authorId == user.id, (f: Form) => f.createdAt)
  }

  // ------------------------------------------------------------ answer rows

  /** The answer rows created for `answers.map(...)` under form `formId`, with ids from `base` on. */
  function AnswerRows(formId: int, inputs: seq<AnswerInput>, base: int): map<int, Answer> {
    map k | base <= k < base + |inputs| :: RowAnswer(formId, inputs, base, k)
  }

  /** The answer created with id `k` when the inputs get ids from `base` on. */
  function RowAnswer(formId: int, inputs: seq<AnswerInput>, base: int, k: int): Answer
    requires base <= k < base + |inputs|
  {
    Answer(formId, inputs[k - base].questionId, inputs[k - base].value)
  }

  /** The i-th input becomes the answer with id `base + i`, and there are no other rows. */
  lemma AnswerRowsSpec(formId: int, inputs: seq<AnswerInput>, base: int)
    ensures var rows := AnswerRows(formId, inputs, base);
      && (forall i | 0 <= i < |inputs| :: base + i in rows && rows[base + i] == Answer(formId, inputs[i].questionId, inputs[i].value))
      && (forall k | k in rows :: base <= k < base + |inputs| && rows[k].formId == formId)
  {
    var rows := AnswerRows(formId, inputs, base);
    forall i | 0 <= i < |inputs|
      ensures base + i in rows && rows[base + i] == Answer(formId, inputs[i].questionId, inputs[i].value)
    {
      assert RowAnswer(formId, inputs, base, base + i) == Answer(formId, inputs[i].questionId, inputs[i].value);
    }
  }

  /** Every answer refers to an existing question (the foreign key the nested create needs). */
  predicate AnswersReferToQuestions(questions: map<int, Question>, inputs: seq<AnswerInput>) {
    forall i | 0 <= i < |inputs| :: inputs[i].questionId in questions
  }

  /** The answers of one form, by row id. */
  function AnswersOf(answers: map<int, Answer>, formId: int): map<int, Answer> {
    map k | k in answers && answers[k].formId == formId :: answers[k]
  }

  /** `answer.deleteMany({ where: { formId } })`. */
  function DeleteAnswersOf(answers: map<int, Answer>, formId: int): map<int, Answer> {
    map k | k in answers && answers[k].formId != formId :: answers[k]
  }

  /** The answer table after the form's answers are deleted and `inputs` created with ids from `base`. */
  function ReplaceAnswers(answers: map<int, Answer>, formId: int, inputs: seq<AnswerInput>, base: int): map<int, Answer> {
    DeleteAnswersOf(answers, formId) + AnswerRows(formId, inputs, base)
  }

  /** Deleting a form's answers leaves none of them and keeps every other form's answers. */
  lemma DeleteAnswersOfSpec(answers: map<int, Answer>, formId: int)
    ensures var r := DeleteAnswersOf(answers, formId);
      && AnswersOf(r, formId) == map[]
      && (forall k | k in answers && answers[k].formId != formId :: k in r && r[k] == answers[k])
      && (forall k | k in r :: k in answers && r[k] == answers[k])
  {
    var r := DeleteAnswersOf(answers, formId);
    assert AnswersOf(r, formId).Keys == {};
  }

  /** After a replace, the form's answers are exactly the rows built from the payload. */
  lemma ReplacedAnswersArePayload(answers: map<int, Answer>, formId: int, inputs: seq<AnswerInput>, base: int)
    requires IdsBelow(answers, base)
    ensures AnswersOf(ReplaceAnswers(answers, formId, inputs, base), formId) == AnswerRows(formId, inputs, base)
  {
    var a := AnswersOf(ReplaceAnswers(answers, formId, inputs, base), formId);
    var c := AnswerRows(formId, inputs, base);
    assert forall k | k in a :: k in c && a[k] == c[k];
    assert forall k | k in c :: k in a;
  }

  /** A replace touches no other form's answers. */
  lemma ReplaceKeepsOtherForms(answers: map<int, Answer>, formId: int, inputs: seq<AnswerInput>, base: int, other: int)
    requires IdsBelow(answers, base) && other != formId
    ensures AnswersOf(ReplaceAnswers(answers, formId, inputs, base), other) == AnswersOf(answers, other)
  {
    var a := AnswersOf(ReplaceAnswers(answers, formId, inputs, base), other);
    var c := AnswersOf(answers, other);
    assert forall k | k in a :: k in c && a[k] == c[k];
    assert forall k | k in c :: k in a;
  }

  /** After a replace, the form answers a question only if the payload does: earlier answers to other questions are gone. */
  lemma ReplaceDropsUnsubmitted(answers: map<int, Answer>, formId: int, inputs: seq<AnswerInput>, base: int, k: int)
    requires IdsBelow(answers, base)
    requires var r := ReplaceAnswers(answers, formId, inputs, base); k in r && r[k].formId == formId
    ensures exists i | 0 <= i < |inputs| :: inputs[i].questionId == ReplaceAnswers(answers, formId, inputs, base)[k].questionId
  {
    var r := ReplaceAnswers(answers, formId, inputs, base);
    assert k in AnswerRows(formId, inputs, base);
    var i := k - base;
    assert inputs[i].questionId == r[k].questionId;
  }

  // ---------------------------------------------------------------- handlers

  /**
   * PUT /:id: after the checks, delete the form's answers, then create the
   * payload's answers. A missing `answers` list (the `.map` throws) or an
   * answer to an unknown question fails after the delete, which stays done.
   * The form row itself is not written: author, template and date stay.
   */
  method UpdateForm(db: Db, id: IdParam, user: Caller, answers: Option<seq<AnswerInput>>, answerBase: int) returns (status: int)
    requires db.Valid()
    requires IdsBelow(db.answers, answerBase)
    modifies db
    ensures db.Valid()
    ensures CheckForm(old(db.forms), id, user) != Allowed ==>
      status == RefusalStatus(CheckForm(old(db.forms), id, user)) && unchanged(db)
    ensures CheckForm(old(db.forms), id, user) == Allowed && answers.Some? && AnswersReferToQuestions(old(db.questions), answers.value) ==>
      && status == Ok
      && db.State() == old(db.State()).(answers := ReplaceAnswers(old(db.answers), id.n, answers.value, answerBase))
    ensures CheckForm(old(db.forms), id, user) == Allowed && !(answers.Some? && AnswersReferToQuestions(old(db.questions), answers.value)) ==>
      && status == ServerError
      && db.State() == old(db.State()).(answers := DeleteAnswersOf(old(db.answers), id.n))
  {
    var c := CheckForm(db.forms, id, user);
    if c != Allowed {
      return RefusalStatus(c);
    }
    var n := id.n;
    db.answers := DeleteAnswersOf(db.answers, n);
    if answers.None? || !AnswersReferToQuestions(db.questions, answers.value) {
      return ServerError;
    }
    db.answers := db.answers + AnswerRows(n, answers.value, answerBase);
    status := Ok;
  }

  /** DELETE /:id: after the checks, delete the form's answers, then the form. */
  method DeleteForm(db: Db, id: IdParam, user: Caller) returns (status: int)
    requires db.Valid()
    modifies db
    ensures db.Valid()
    ensures status == Ok <==> CheckForm(old(db.forms), id, user) == Allowed
    ensures status != Ok ==> status == RefusalStatus(CheckForm(old(db.forms), id, user)) && unchanged(db)
    ensures status == Ok ==>
      db.State() == old(db.State()).(answers := DeleteAnswersOf(old(db.answers), id.n), forms := old(db.forms) - {id.n})
  {
    var c := CheckForm(db.forms, id, user);
    if c != Allowed {
      return RefusalStatus(c);
    }
    db.answers := DeleteAnswersOf(db.answers, id.n);
    db.forms := db.forms - {id.n};
    status := Ok;
  }

  /**
   * POST /: create a form authored by the caller for `templateId`, with the
   * payload's answers, under the fresh ids `id` and `answerBase`... There is
   * no check that the caller may fill the template. A missing `answers` list,
   * an unknown template or an answer to an unknown question creates nothing.
   */
  method CreateForm(db: Db, user: Caller, templateId: int, answers: Option<seq<AnswerInput>>, now: int, id: int, answerBase: int)
    returns (status: int)
    requires db.Valid()
    requires id !in db.forms && IdsBelow(db.answers, answerBase)
    modifies db
    ensures db.Valid()
    ensures status == Created <==>
      answers.Some? && templateId in old(db.templates) && AnswersReferToQuestions(old(db.questions), answers.value)
    ensures status != Created ==> status == ServerError && unchanged(db)
    ensures status == Created ==>
      db.State() == old(db.State()).(
        forms := old(db.forms)[id := Form(templateId, user.id, now)],
        answers := old(db.answers) + AnswerRows(id, answers.value, answerBase))
  {
    if answers.None? || templateId !in db.templates || !AnswersReferToQuestions(db.questions, answers.value) {
      return ServerError;
    }
    db.forms := db.forms[id := Form(templateId, user.id, now)];
    db.answers := db.answers + AnswerRows(id, answers.value, answerBase);
    status := Created;
  }

  /** A new form's answers are exactly the payload's (no earlier answer can carry a fresh form id). */
  lemma CreatedAnswersArePayload(answers: map<int, Answer>, formId: int, inputs: seq<AnswerInput>, base: int)
    requires IdsBelow(answers, base)
    requires forall k | k in answers :: answers[k].formId != formId
    ensures AnswersOf(answers + AnswerRows(formId, inputs, base), formId) == AnswerRows(formId, inputs, base)
  {
    var a := AnswersOf(answers + AnswerRows(formId, inputs, base), formId);
    var c := AnswerRows(formId, inputs, base);
    assert forall k | k in a :: k in c && a[k] == c[k];
    assert forall k | k in c :: k in a;
  }
}
