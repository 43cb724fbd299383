/**
 * The comment routes: list a template's comments newest first, post a
 * comment, and delete one as its author or an administrator.
 */
module CommentRoutes {
  import opened Wrappers
  import opened Js
  import opened Store

  /** GET /template/:templateId: 500 when the id is NaN, else the template's comments, newest first. */
  function ListComments(comments: map<int, Comment>, templateId: IdParam): (r: (int, seq<int>))
    ensures r.0 == Ok <==> templateId.Id?
    ensures r.0 != Ok ==> r.0 == ServerError && r.1 == []
    ensures r.0 == Ok ==> forall k | k in r.1 :: k in comments && comments[k].templateId == templateId.n
    ensures r.0 == Ok ==> forall k | k in comments && comments[k].templateId == templateId.n :: k in r.1
    ensures forall i, j | 0 <= i < j < |r.1| :: r.1[i] != r.1[j]
    ensures forall i, j | 0 <= i < j < |r.1| :: r.1[i] in comments && r.1[j] in comments && comments[r.1[i]].createdAt >= comments[r.1[j]].createdAt
  {
    match templateId
    case NotANumber => (ServerError, [])
    case Id(t) => (Ok, FindManyOrderedDesc(comments, (c: Comment) => c.templateId == t, (c: Comment) => c.createdAt))
  }

  /** `parseInt(templateId)` of the body field, which converts it to a string first. */
  function CommentTarget(templateId: JsValue): Option<int> {
    ParseInt(ToString(templateId))
  }

  /** A numeric template id, sent as a number or as its decimal string, names that template. */
  lemma CommentTargetOfId(n: int)
    ensures CommentTarget(Num(n)) == Some(n)
    ensures CommentTarget(Str(NumToString(n))) == Some(n)
  {
    ParseIntNumToString(n);
  }

  /**
   * The template a POST / creates its comment on: both fields truthy, the
   * text a string (anything else fails the create), the id parsing to a
   * number, and that template existing (else the foreign key fails).
   */
  function PostTarget(templates: map<int, Template>, text: JsValue, templateId: JsValue): (r: Option<int>)
    ensures r.Some? <==>
      Truthy(text) && Truthy(templateId) && text.Str? && CommentTarget(templateId).Some? && CommentTarget(templateId).value in templates
    ensures r.Some? ==> r == CommentTarget(templateId) && r.value in templates
  {
    if !Truthy(text) || !Truthy(templateId) || !text.Str? then None
    else
      match CommentTarget(templateId)
      case None => None
      case Some(t) => if t in templates then Some(t) else None
  }

  /**
   * POST /: 400 unless both `text` and `templateId` are truthy; 500 when the
   * create fails; else 201 and the new comment by the caller under the fresh
   * id `id`.
   */
  method CreateComment(db: Db, user: Caller, text: JsValue, templateId: JsValue, now: int, id: int)
    returns (status: int, comment: Option<Comment>)
    requires db.Valid() && id !in db.comments
    modifies db
    ensures db.Valid()
    ensures status == BadRequest <==> !Truthy(text) || !Truthy(templateId)
    ensures status == Created <==> PostTarget(old(db.templates), text, templateId).Some?
    ensures status == Created ==>
      && comment == Some(Comment(PostTarget(old(db.templates), text, templateId).value, user.id, text.s, now))
      && db.State() == old(db.State()).(comments := old(db.comments)[id := comment.value])
    ensures status != Created ==> unchanged(db) && comment.None? && (status == BadRequest || status == ServerError)
  {
    if !Truthy(text) || !Truthy(templateId) {
      return BadRequest, None;
    }
    var target := PostTarget(db.templates, text, templateId);
    if target.None? {
      return ServerError, None;
    }
    comment := Some(Comment(target.value, user.id, text.s, now));
    db.comments := db.comments[id := comment.value];
    status := Created;
  }

  /** Author or administrator: who may delete a comment. */
  predicate MayDeleteComment(c: Comment, user: Caller) {
    c.authorId == user.id || user.role == "ADMIN"
  }

  /**
   * DELETE /:id: 500 when the id is NaN, 404 for no comment, 403 unless the
   * caller wrote it or is an administrator, else the comment is removed and
   * nothing else changes.
   */
  method DeleteComment(db: Db, id: IdParam, user: Caller) returns (status: int)
    requires db.Valid()
    modifies db
    ensures db.Valid()
    ensures status == ServerError <==> id.NotANumber?
    ensures status == NotFound <==> id.Id? && id.n !in old(db.comments)
    ensures status == Forbidden <==> id.Id? && id.n in old(db.comments) && !MayDeleteComment(old(db.comments)[id.n], user)
    ensures status == Ok <==> id.Id? && id.n in old(db.comments) && MayDeleteComment(old(db.comments)[id.n], user)
    ensures status == Ok ==> db.State() == old(db.State()).(comments := old(db.comments) - {id.n})
    ensures status != Ok ==> unchanged(db)
  {
    if id.NotANumber? {
      return ServerError;
    }
    var n := id.n;
    if n !in db.comments {
      return NotFound;
    }
    var c := db.comments[n];
    if c.authorId != user.id && user.role != "ADMIN" {
      return Forbidden;
    }
    db.comments := db.comments - {n};
    status := Ok;
  }

  /** After a deletion the template's listing holds the same comments less the deleted one. */
  lemma ListAfterDelete(comments: map<int, Comment>, n: int, t: int)
    ensures forall k :: k in ListComments(comments - {n}, Id(t)).1 <==> k in ListComments(comments, Id(t)).1 && k != n
  {
  }

  /** A new comment is listed first on its template when it is the newest there. */
  lemma NewestCommentListedFirst(comments: map<int, Comment>, id: int, c: Comment)
    requires id !in comments
    requires forall k | k in comments && comments[k].templateId == c.templateId :: comments[k].createdAt < c.createdAt
    ensures var r := ListComments(comments[id := c], Id(c.templateId)).1; r != [] && r[0] == id
  {
    var m := comments[id := c];
    forall j | j in m && m[j].templateId == c.templateId && j != id
      ensures m[j].createdAt < m[id].createdAt
    {
      assert j in comments;
    }
    LargestKeyFirst(m, (x: Comment) => x.templateId == c.templateId, (x: Comment) => x.createdAt, id);
  }
}
