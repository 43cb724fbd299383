/**
 * The template routes: the access check, the public listing, create, the
 * caller's own list, read, full replace and delete.
 */
module TemplateRoutes {
  import opened Wrappers
  import opened Js
  import opened Collections
  import opened Payloads
  import opened Store

  datatype AccessError = InvalidId | TemplateMissing | NoAccess

  /** What `checkAccess` resolves to: the template, or one of three errors. */
  datatype Access = Granted(template: Template) | Refused(error: AccessError)

  /** Owner or administrator: who may read, replace or delete a template. */
  predicate MayManage(t: Template, user: Caller) {
    t.ownerId == user.id || user.role == "ADMIN"
  }

  /** `checkAccess`: NaN id, then a missing row, then neither owner nor admin. */
  function CheckAccess(templates: map<int, Template>, id: IdParam, user: Caller): (r: Access)
    ensures r.Granted? <==> id.Id? && id.n in templates && MayManage(templates[id.n], user)
    ensures r.Granted? ==> r.template == templates[id.n]
    ensures r == Refused(InvalidId) <==> id.NotANumber?
    ensures r == Refused(TemplateMissing) <==> id.Id? && id.n !in templates
  {
    match id
    case NotANumber => Refused(InvalidId)
    case Id(n) =>
      if n !in templates then Refused(TemplateMissing)
      else if !(templates[n].ownerId == user.id) && !(user.role == "ADMIN") then Refused(NoAccess)
      else Granted(templates[n])
  }

  /** Being public does not open a template to anyone but its owner and administrators. */
  lemma PublicIsNotAccess(templates: map<int, Template>, n: int, user: Caller)
    requires n in templates && templates[n].isPublic
    requires templates[n].ownerId != user.id && user.role != "ADMIN"
    ensures CheckAccess(templates, Id(n), user) == Refused(NoAccess)
  {
  }

  /** GET /public: the ids of all public templates. */
  function PublicTemplates(templates: map<int, Template>): (r: seq<int>)
    ensures forall k | k in r :: k in templates && templates[k].isPublic
    ensures forall k | k in templates && templates[k].isPublic :: k in r
    ensures forall i, j | 0 <= i < j < |r| :: r[i] != r[j]
  {
    FindMany(templates, (t: Template) => t.isPublic)
  }

  /** GET /user: the caller's templates, newest first. */
  function OwnTemplates(templates: map<int, Template>, user: Caller): (r: seq<int>)
    ensures forall k | k in r :: k in templates && templates[k].ownerId == user.id
    ensures forall k | k in templates && templates[k].ownerId == user.id :: k in r
    ensures forall i, j | 0 <= i < j < |r| :: r[i] != r[j]
    ensures forall i | 0 <= i < |r| :: r[i] in templates
    ensures forall i, j | 0 <= i < j < |r| :: templates[r[i]].createdAt >= templates[r[j]].createdAt
  {
    FindManyOrderedDesc(templates, (t: Template) => t.ownerId == user.id, (t: Template) => t.createdAt)
  }

  /**
   * The question row built from the draft at position `i`: it belongs to the
   * template at order `i` with the draft's type, and it has a title exactly
   * when the draft has a text or a title.
   */
  function BuildQuestion(templateId: int, q: QuestionDraft, i: int): (r: Question)
    ensures r.templateId == templateId && r.order == i && r.qtype == q.qtype
    ensures TruthyString(r.title) <==> TruthyString(q.text) || TruthyString(q.title)
  {
    Question(
      templateId,
      if TruthyString(q.text) then q.text else q.title,
      q.qtype,
      i,
      q.displayInTable == Some(true),
      q.isRequired != Some(false),
      q.options.GetOr([]))
  }

  /** A created question keeps the draft's type and options, is required unless the draft says false, and is shown in the table only when the draft says true. */
  lemma BuildQuestionDefaults(templateId: int, q: QuestionDraft, i: int)
    ensures BuildQuestion(templateId, q, i).isRequired <==> q.isRequired != Some(false)
    ensures BuildQuestion(templateId, q, i).displayInTable <==> q.displayInTable == Some(true)
    ensures BuildQuestion(templateId, q, i).title == (if q.text.Some? && q.text.value != "" then q.text else q.title)
    ensures BuildQuestion(templateId, q, i).options == (if q.options.Some? then q.options.value else [])
  {
    TruthyStringIff(q.text);
  }

  /** The rows created for `questions.map(...)`, with ids from `base` on. */
  function QuestionRows(templateId: int, qs: seq<QuestionDraft>, base: int): map<int, Question> {
    map k | base <= k < base + |qs| :: RowQuestion(templateId, qs, base, k)
  }

  /** The question created with id `k` when the drafts get ids from `base` on. */
  function RowQuestion(templateId: int, qs: seq<QuestionDraft>, base: int, k: int): Question
    requires base <= k < base + |qs|
  {
    BuildQuestion(templateId, qs[k - base], k - base)
  }

  /** The rows created for `tags.map(...)`, with ids from `base` on. */
  function TagLinkRows(templateId: int, tagIds: seq<int>, base: int): map<int, TemplateTag> {
    map k | base <= k < base + |tagIds| :: RowTagLink(templateId, tagIds, base, k)
  }

  /** The link created with id `k` when the tag ids get ids from `base` on. */
  function RowTagLink(templateId: int, tagIds: seq<int>, base: int, k: int): TemplateTag
    requires base <= k < base + |tagIds|
  {
    TemplateTag(templateId, tagIds[k - base])
  }

  /** Every tag to connect exists (otherwise the nested write is rejected). */
  predicate AllTagsExist(tags: map<int, Tag>, tagIds: seq<int>) {
    forall i | 0 <= i < |tagIds| :: tagIds[i] in tags
  }

  /** The questions of one template, by row id. */
  function QuestionsOf(questions: map<int, Question>, templateId: int): map<int, Question> {
    map k | k in questions && questions[k].templateId == templateId :: questions[k]
  }

  /** `question.deleteMany({ where: { templateId } })`. */
  function DeleteQuestionsOf(questions: map<int, Question>, templateId: int): map<int, Question> {
    map k | k in questions && questions[k].templateId != templateId :: questions[k]
  }

  /** The question table after the template's questions are deleted and `qs` created with ids from `base`. */
  function ReplaceQuestions(questions: map<int, Question>, templateId: int, qs: seq<QuestionDraft>, base: int): map<int, Question> {
    DeleteQuestionsOf(questions, templateId) + QuestionRows(templateId, qs, base)
  }

  /**
   * Replacing keeps every other template's questions, creates one row per
   * draft with consecutive fresh ids, and leaves no other row of the template.
   */
  lemma ReplaceQuestionsSpec(questions: map<int, Question>, templateId: int, qs: seq<QuestionDraft>, base: int)
    requires IdsBelow(questions, base)
    ensures var r := ReplaceQuestions(questions, templateId, qs, base);
      && (forall k | k in questions && questions[k].templateId != templateId :: k in r && r[k] == questions[k])
      && (forall k | base <= k < base + |qs| :: k in r && r[k] == BuildQuestion(templateId, qs[k - base], k - base))
      && (forall k | k in r ::
           || (k in questions && questions[k].templateId != templateId && r[k] == questions[k])
           || (base <= k < base + |qs| && r[k] == BuildQuestion(templateId, qs[k - base], k - base)))
      && IdsBelow(r, base + |qs|)
  {
  }

  /** After a replace, the template's questions are exactly the rows built from the payload. */
  lemma ReplacedQuestionsArePayload(questions: map<int, Question>, templateId: int, qs: seq<QuestionDraft>, base: int)
    requires IdsBelow(questions, base)
    ensures QuestionsOf(ReplaceQuestions(questions, templateId, qs, base), templateId) == QuestionRows(templateId, qs, base)
  {
    var a := QuestionsOf(ReplaceQuestions(questions, templateId, qs, base), templateId);
    var c := QuestionRows(templateId, qs, base);
    assert forall k | k in a :: k in c && a[k] == c[k];
    assert forall k | k in c :: k in a;
  }

  /** Replace is total: the template's questions afterwards depend on the payload only, not on the questions it had. */
  lemma ReplaceForgetsOld(q1: map<int, Question>, q2: map<int, Question>, templateId: int, qs: seq<QuestionDraft>, base: int)
    requires IdsBelow(q1, base) && IdsBelow(q2, base)
    ensures QuestionsOf(ReplaceQuestions(q1, templateId, qs, base), templateId)
         == QuestionsOf(ReplaceQuestions(q2, templateId, qs, base), templateId)
  {
    ReplacedQuestionsArePayload(q1, templateId, qs, base);
    ReplacedQuestionsArePayload(q2, templateId, qs, base);
  }

  /** The i-th draft becomes the template's only question of order i. */
  lemma ReplacedOrderIsPayloadOrder(questions: map<int, Question>, templateId: int, qs: seq<QuestionDraft>, base: int, i: int)
    requires IdsBelow(questions, base) && 0 <= i < |qs|
    ensures var r := ReplaceQuestions(questions, templateId, qs, base);
      forall k | k in r && r[k].templateId == templateId && r[k].order == i :: k == base + i && r[k] == BuildQuestion(templateId, qs[i], i)
  {
    ReplaceQuestionsSpec(questions, templateId, qs, base);
  }

  /** `templateTag.deleteMany({ where: { templateId } })`. */
  function DeleteTagLinksOf(links: map<int, TemplateTag>, templateId: int): map<int, TemplateTag> {
    map k | k in links && links[k].templateId != templateId :: links[k]
  }

  /** The template-tag table after the template's links are deleted and `tagIds` connected with ids from `base`. */
  function ReplaceTagLinks(links: map<int, TemplateTag>, templateId: int, tagIds: seq<int>, base: int): map<int, TemplateTag> {
    DeleteTagLinksOf(links, templateId) + TagLinkRows(templateId, tagIds, base)
  }

  /** Replacing keeps every other template's links and links the template to exactly `tagIds`, in order. */
  lemma ReplaceTagLinksSpec(links: map<int, TemplateTag>, templateId: int, tagIds: seq<int>, base: int)
    requires IdsBelow(links, base)
    ensures var r := ReplaceTagLinks(links, templateId, tagIds, base);
      && (forall k | k in links && links[k].templateId != templateId :: k in r && r[k] == links[k])
      && (forall k | base <= k < base + |tagIds| :: k in r && r[k] == TemplateTag(templateId, tagIds[k - base]))
      && (forall k | k in r ::
           || (k in links && links[k].templateId != templateId && r[k] == links[k])
           || (base <= k < base + |tagIds| && r[k] == TemplateTag(templateId, tagIds[k - base])))
      && IdsBelow(r, base + |tagIds|)
  {
  }

  /** POST /: create a template owned by the caller, with its tag links and questions, under the fresh ids `id`, `linkBase`.. and `questionBase`.. */
  method CreateTemplate(db: Db, user: Caller, body: TemplateBody, now: int, id: int, linkBase: int, questionBase: int) returns (status: int)
    requires db.Valid()
    requires id !in db.templates && IdsBelow(db.templateTags, linkBase) && IdsBelow(db.questions, questionBase)
    modifies db
    ensures db.Valid()
    ensures status == (if AllTagsExist(old(db.tags), body.tags.GetOr([])) then Created else ServerError)
    ensures status == ServerError ==> unchanged(db)
    ensures status == Created ==>
      db.State() == old(db.State()).(
        templates := old(db.templates)[id := Template(body.title, body.description, body.theme, body.imageUrl, body.isPublic.GetOr(false), user.id, now)],
        templateTags := old(db.templateTags) + TagLinkRows(id, body.tags.GetOr([]), linkBase),
        questions := old(db.questions) + QuestionRows(id, body.questions.GetOr([]), questionBase))
  {
    var tagIds := body.tags.GetOr([]);
    var qs := body.questions.GetOr([]);
    if !AllTagsExist(db.tags, tagIds) {
      return ServerError;
    }
    db.templates := db.templates[id := Template(body.title, body.description, body.theme, body.imageUrl, body.isPublic.GetOr(false), user.id, now)];
    db.templateTags := db.templateTags + TagLinkRows(id, tagIds, linkBase);
    db.questions := db.questions + QuestionRows(id, qs, questionBase);
    status := Created;
  }

  /** A created template's questions are exactly the rows built from the drafts. */
  lemma CreatedQuestionsArePayload(questions: map<int, Question>, templateId: int, qs: seq<QuestionDraft>, base: int)
    requires IdsBelow(questions, base)
    requires forall k | k in questions :: questions[k].templateId != templateId
    ensures QuestionsOf(questions + QuestionRows(templateId, qs, base), templateId) == QuestionRows(templateId, qs, base)
  {
    var a := QuestionsOf(questions + QuestionRows(templateId, qs, base), templateId);
    var c := QuestionRows(templateId, qs, base);
    assert forall k | k in a :: k in c && a[k] == c[k];
    assert forall k | k in c :: k in a;
  }

  /** GET /:id: 400 for NaN, 403 for every access error (a missing template included), else the template. */
  function GetTemplate(templates: map<int, Template>, id: IdParam, user: Caller): (r: (int, Option<Template>))
    ensures r.0 == Ok <==> CheckAccess(templates, id, user).Granted?
    ensures r.0 == Ok ==> r.1 == Some(templates[id.n])
    ensures r.0 == BadRequest <==> id.NotANumber?
    ensures r.0 == Forbidden <==> id.Id? && CheckAccess(templates, id, user).Refused?
    ensures r.0 != Ok ==> r.1 == None
  {
    if id.NotANumber? then (BadRequest, None)
    else match CheckAccess(templates, id, user)
      case Refused(_) => (Forbidden, None)
      case Granted(_) =>
        if id.n in templates then (Ok, Some(templates[id.n])) else (NotFound, None)
  }

  /** A missing template answers 403, never 404. */
  lemma MissingTemplateIsForbidden(templates: map<int, Template>, n: int, user: Caller)
    requires n !in templates
    ensures GetTemplate(templates, Id(n), user).0 == Forbidden
  {
  }

  /** The row after `update`: a field the body leaves out is kept. */
  function UpdatedTemplate(t: Template, body: TemplateBody): Template {
    t.(title := if body.title.Some? then body.title else t.title,
       description := if body.description.Some? then body.description else t.description,
       theme := if body.theme.Some? then body.theme else t.theme,
       imageUrl := if body.imageUrl.Some? then body.imageUrl else t.imageUrl,
       isPublic := body.isPublic.GetOr(t.isPublic))
  }

  /** Updating never moves a template to another owner or changes its creation date, and an empty body changes nothing. */
  lemma UpdateKeepsOwner(t: Template, body: TemplateBody)
    ensures UpdatedTemplate(t, body).ownerId == t.ownerId
    ensures UpdatedTemplate(t, body).createdAt == t.createdAt
    ensures body.title.None? && body.description.None? && body.theme.None? && body.imageUrl.None? && body.isPublic.None?
      ==> UpdatedTemplate(t, body) == t
  {
  }

  /**
   * PUT /:id: after the checks, delete the template's questions and tag links,
   * then update the row and create the new links and questions. The deletes
   * are not undone when the update fails on an unknown tag.
   */
  method UpdateTemplate(db: Db, id: IdParam, user: Caller, body: TemplateBody, linkBase: int, questionBase: int) returns (status: int)
    requires db.Valid()
    requires IdsBelow(db.templateTags, linkBase) && IdsBelow(db.questions, questionBase)
    modifies db
    ensures db.Valid()
    ensures status == BadRequest <==> id.NotANumber?
    ensures status == Forbidden <==> id.Id? && CheckAccess(old(db.templates), id, user).Refused?
    ensures status == BadRequest || status == Forbidden ==> unchanged(db)
    ensures CheckAccess(old(db.templates), id, user).Granted? && AllTagsExist(old(db.tags), body.tags.GetOr([])) ==>
      && status == Ok
      && db.State() == old(db.State()).(
        templates := old(db.templates)[id.n := UpdatedTemplate(old(db.templates)[id.n], body)],
        templateTags := ReplaceTagLinks(old(db.templateTags), id.n, body.tags.GetOr([]), linkBase),
        questions := ReplaceQuestions(old(db.questions), id.n, body.questions.GetOr([]), questionBase))
    ensures CheckAccess(old(db.templates), id, user).Granted? && !AllTagsExist(old(db.tags), body.tags.GetOr([])) ==>
      && status == ServerError
      && db.State() == old(db.State()).(
        templateTags := DeleteTagLinksOf(old(db.templateTags), id.n),
        questions := DeleteQuestionsOf(old(db.questions), id.n))
  {
    if id.NotANumber? {
      return BadRequest;
    }
    if CheckAccess(db.templates, id, user).Refused? {
      return Forbidden;
    }
    var n := id.n;
    db.questions := DeleteQuestionsOf(db.questions, n);
    db.templateTags := DeleteTagLinksOf(db.templateTags, n);
    if !AllTagsExist(db.tags, body.tags.GetOr([])) {
      return ServerError;
    }
    db.templates := db.templates[n := UpdatedTemplate(db.templates[n], body)];
    db.templateTags := db.templateTags + TagLinkRows(n, body.tags.GetOr([]), linkBase);
    db.questions := db.questions + QuestionRows(n, body.questions.GetOr([]), questionBase);
    status := Ok;
  }

  /** DELETE /:id: 400 for NaN, 403 for every access error, else the row is removed. */
  method DeleteTemplate(db: Db, id: IdParam, user: Caller) returns (status: int)
    requires db.Valid()
    modifies db
    ensures db.Valid()
    ensures status == Ok <==> CheckAccess(old(db.templates), id, user).Granted?
    ensures status == BadRequest <==> id.NotANumber?
    ensures status == Forbidden <==> id.Id? && CheckAccess(old(db.templates), id, user).Refused?
    ensures status == Ok ==> db.State() == old(db.State()).(templates := old(db.templates) - {id.n})
    ensures status != Ok ==> db.State() == old(db.State())
  {
    if id.NotANumber? {
      return BadRequest;
    }
    if CheckAccess(db.templates, id, user).Refused? {
      return Forbidden;
    }
    db.templates := db.templates - {id.n};
    status := Ok;
  }
}
