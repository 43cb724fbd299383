/**
 * The relational store the routes read and write, as one map per table from
 * row id to record, plus the status codes the handlers answer with.
 */
module Store {
  import opened Wrappers
  import opened Js
  import opened Collections

  const Ok := 200
  const Created := 201
  const BadRequest := 400
  const Unauthorized := 401
  const Forbidden := 403
  const NotFound := 404
  const Conflict := 409
  const ServerError := 500

  /** A path parameter after `Number(...)`: NaN, or an integer. */
  datatype IdParam = NotANumber | Id(n: int)

  /** `parseInt(s)` of a path or body string, as an id parameter. */
  function ParseId(s: string): (r: IdParam)
    ensures r.Id? <==> ParseInt(s).Some?
    ensures r.Id? ==> r.n == ParseInt(s).value
  {
    match ParseInt(s)
    case None => NotANumber
    case Some(n) => Id(n)
  }

  /**
   * `findUnique({ where: { id: key } })` on an integer id column: a key that
   * is not a number is refused before any row is read (`None`, which the
   * routes catch as 500); a number finds its row, if there is one.
   */
  function FindUnique<T>(m: map<int, T>, key: JsValue): (r: Option<Option<T>>)
    ensures r.None? <==> !key.Num?
    ensures key.Num? ==> (r.value.Some? <==> key.n in m)
    ensures key.Num? && key.n in m ==> r.value.value == m[key.n]
  {
    match key
    case Num(n) => Some(if n in m then Some(m[n]) else None)
    case _ => None
  }

  /** What a middleware does with a request: pass it on with `next()`, or answer it. */
  datatype Gate = Next | Stop(status: int)

  /** `req.user` as the authentication middleware attaches it. */
  datatype Caller = Caller(id: int, email: string, role: string, isBlocked: bool, lastActive: int)

  datatype User = User(
    name: Option<string>,
    email: string,
    passwordHash: string,
    avatar: Option<string>,
    role: string,
    isBlocked: bool,
    lastActive: int)

  datatype Template = Template(
    title: Option<string>,
    description: Option<string>,
    theme: Option<string>,
    imageUrl: Option<string>,
    isPublic: bool,
    ownerId: int,
    createdAt: int)

  /** A question row; its option rows are kept as the ordered list of their values. */
  datatype Question = Question(
    templateId: int,
    title: Option<string>,
    qtype: Option<string>,
    order: int,
    displayInTable: bool,
    isRequired: bool,
    options: seq<string>)

  datatype TemplateTag = TemplateTag(templateId: int, tagId: int)

  datatype Tag = Tag(name: string, count: int)

  datatype Form = Form(templateId: int, authorId: int, createdAt: int)

  datatype Answer = Answer(formId: int, questionId: int, value: JsValue)

  datatype Like = Like(templateId: int, userId: int)

  datatype Comment = Comment(templateId: int, authorId: int, text: string, createdAt: int)

  // ---------------------------------------------------------------- queries

  /** The rows of `m` that satisfy `p` (`where`). */
  function Where<T>(m: map<int, T>, p: T -> bool): (r: map<int, T>)
    ensures forall k | k in r :: k in m && r[k] == m[k] && p(m[k])
    ensures forall k | k in m && p(m[k]) :: k in r
  {
    map k | k in m && p(m[k]) :: m[k]
  }

  /** The rows of `m` that do not satisfy `p` (`deleteMany({ where })` leaves these). */
  function Without<T>(m: map<int, T>, p: T -> bool): (r: map<int, T>)
    ensures forall k | k in r :: k in m && r[k] == m[k] && !p(m[k])
    ensures forall k | k in m && !p(m[k]) :: k in r
  {
    map k | k in m && !p(m[k]) :: m[k]
  }

  /** `findMany({ where })` without `orderBy`: the ids of the matching rows, ascending. */
  function FindMany<T>(m: map<int, T>, p: T -> bool): (r: seq<int>)
    ensures forall k | k in r :: k in m && p(m[k])
    ensures forall k | k in m && p(m[k]) :: k in r
    ensures forall i, j | 0 <= i < j < |r| :: r[i] < r[j]
  {
    SortedKeys(Where(m, p).Keys)
  }

  /** `findFirst({ where })`: the matching row with the lowest id. */
  function FindFirst<T>(m: map<int, T>, p: T -> bool): (r: Option<int>)
    ensures r.Some? ==> r.value in m && p(m[r.value])
    ensures r.None? <==> forall k | k in m :: !p(m[k])
  {
    var ids := FindMany(m, p);
    if ids == [] then None else Some(ids[0])
  }

  /** The value of `key` on row `k`, 0 for an id that is not a row. */
  function KeyOf<T>(m: map<int, T>, key: T -> int, k: int): int {
    if k in m then key(m[k]) else 0
  }

  /** `findMany({ where, orderBy: { <key>: 'desc' } })`: the ids of the matching rows, largest key first. */
  function FindManyOrderedDesc<T>(m: map<int, T>, p: T -> bool, key: T -> int): (r: seq<int>)
    ensures forall k | k in r :: k in m && p(m[k])
    ensures forall k | k in m && p(m[k]) :: k in r
    ensures forall i, j | 0 <= i < j < |r| :: r[i] != r[j]
    ensures forall i | 0 <= i < |r| :: r[i] in m
    ensures forall i, j | 0 <= i < j < |r| :: key(m[r[i]]) >= key(m[r[j]])
  {
    var ids := FindMany(m, p);
    OrderByDescSpec(m, p, key, ids);
    OrderByDesc(m, key, ids)
  }

  /** A matching row whose key is larger than every other matching row's comes first. */
  lemma LargestKeyFirst<T>(m: map<int, T>, p: T -> bool, key: T -> int, k: int)
    requires k in m && p(m[k])
    requires forall j | j in m && p(m[j]) && j != k :: key(m[j]) < key(m[k])
    ensures var r := FindManyOrderedDesc(m, p, key); r != [] && r[0] == k
  {
    var r := FindManyOrderedDesc(m, p, key);
    assert k in r;
    var i :| 0 <= i < |r| && r[i] == k;
    assert r[0] in m && p(m[r[0]]);
    assert key(m[r[0]]) >= key(m[r[i]]);
  }

  /** `ids` stably sorted by the key of their rows, largest first. */
  function OrderByDesc<T>(m: map<int, T>, key: T -> int, ids: seq<int>): seq<int> {
    SortDesc(ids, k => KeyOf(m, key, k))
  }

  /** Sorting the ascending ids of the matching rows by key lists each matching row once, largest key first. */
  lemma OrderByDescSpec<T>(m: map<int, T>, p: T -> bool, key: T -> int, ids: seq<int>)
    requires forall k | k in ids :: k in m && p(m[k])
    requires forall k | k in m && p(m[k]) :: k in ids
    requires forall i, j | 0 <= i < j < |ids| :: ids[i] < ids[j]
    ensures var r := OrderByDesc(m, key, ids);
      && (forall k | k in r :: k in m && p(m[k]))
      && (forall k | k in m && p(m[k]) :: k in r)
      && (forall i, j | 0 <= i < j < |r| :: r[i] != r[j])
      && (forall i | 0 <= i < |r| :: r[i] in m)
      && (forall i, j | 0 <= i < j < |r| :: key(m[r[i]]) >= key(m[r[j]]))
  {
    var r := OrderByDesc(m, key, ids);
    PermutationOfDistinct(ids, r);
    forall i | 0 <= i < |r| ensures r[i] in m {
      assert r[i] in r;
    }
    forall i, j | 0 <= i < j < |r| ensures key(m[r[i]]) >= key(m[r[j]]) {
      assert r[i] in r && r[j] in r;
    }
  }

  /** Every id used so far is below `next`. */
  predicate IdsBelow<T>(m: map<int, T>, next: int) {
    forall k | k in m :: k < next
  }

  /** At most one like row per (template, user) pair. */
  predicate LikesUnique(likes: map<int, Like>) {
    forall a, b | a in likes && b in likes && likes[a] == likes[b] :: a == b
  }

  /** Tag names are unique. */
  predicate TagNamesUnique(tags: map<int, Tag>) {
    forall a, b | a in tags && b in tags && tags[a].name == tags[b].name :: a == b
  }

  /** E-mail addresses are unique. */
  predicate EmailsUnique(users: map<int, User>) {
    forall a, b | a in users && b in users && users[a].email == users[b].email :: a == b
  }

  /** A snapshot of every table. */
  datatype Tables = Tables(
    users: map<int, User>,
    templates: map<int, Template>,
    questions: map<int, Question>,
    templateTags: map<int, TemplateTag>,
    tags: map<int, Tag>,
    forms: map<int, Form>,
    answers: map<int, Answer>,
    likes: map<int, Like>,
    comments: map<int, Comment>)

  /** The unique constraints of the schema hold. */
  predicate ValidTables(t: Tables) {
    LikesUnique(t.likes) && TagNamesUnique(t.tags) && EmailsUnique(t.users)
  }

  /**
   * The database: one map per table, updated in place by the route handlers.
   * The ids the database assigns to new rows are parameters of the handlers,
   * required to be unused.
   */
  class Db {
    var users: map<int, User>
    var templates: map<int, Template>
    var questions: map<int, Question>
    var templateTags: map<int, TemplateTag>
    var tags: map<int, Tag>
    var forms: map<int, Form>
    var answers: map<int, Answer>
    var likes: map<int, Like>
    var comments: map<int, Comment>

    function State(): Tables
      reads this
    {
      Tables(users, templates, questions, templateTags, tags, forms, answers, likes, comments)
    }

    ghost predicate Valid()
      reads this
    {
      ValidTables(State())
    }

    constructor ()
      ensures Valid()
      ensures State() == Tables(map[], map[], map[], map[], map[], map[], map[], map[], map[])
    {
      users, templates, questions, templateTags, tags := map[], map[], map[], map[], map[];
      forms, answers, likes, comments := map[], map[], map[], map[];
    }
  }
}
