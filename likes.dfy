/**
 * The like routes: toggle the caller's like on a template, count a
 * template's likes, and tell whether the caller likes it.
 */
module LikeRoutes {
  import opened Wrappers
  import opened Store

  /** The (template, user) pairs that have a like row. */
  function Pairs(likes: map<int, Like>): set<Like> {
    set k | k in likes :: likes[k]
  }

  /** `like.count({ where: { templateId } })`. */
  function LikeCount(likes: map<int, Like>, templateId: int): nat {
    |LikesOn(likes, templateId)|
  }

  /** `like.findFirst({ where: { templateId, userId } })`. */
  function FindLike(likes: map<int, Like>, templateId: int, userId: int): (r: Option<int>)
    ensures r.Some? <==> Like(templateId, userId) in Pairs(likes)
    ensures r.Some? ==> r.value in likes && likes[r.value] == Like(templateId, userId)
  {
    var r := FindFirst(likes, (l: Like) => l.templateId == templateId && l.userId == userId);
    assert r.Some? ==> likes[r.value] in Pairs(likes);
    assert Like(templateId, userId) in Pairs(likes) ==> r.Some? by {
      if Like(templateId, userId) in Pairs(likes) {
        var k :| k in likes && likes[k] == Like(templateId, userId);
      }
    }
    r
  }

  /** The like table after the toggle: the found row deleted, or a row created under the fresh id `likeId`. */
  function Toggled(likes: map<int, Like>, templateId: int, userId: int, likeId: int): (r: map<int, Like>)
    ensures r.Keys <= likes.Keys + {likeId}
    ensures forall k | k in r && k != likeId :: k in likes && r[k] == likes[k]
  {
    match FindLike(likes, templateId, userId)
    case Some(k) => likes - {k}
    case None => likes[likeId := Like(templateId, userId)]
  }

  /** A toggle flips whether the pair has a like, touches no other pair, and keeps pairs unique. */
  lemma ToggleFlipsPair(likes: map<int, Like>, templateId: int, userId: int, likeId: int)
    requires LikesUnique(likes) && likeId !in likes
    ensures var p := Like(templateId, userId);
      Pairs(Toggled(likes, templateId, userId, likeId)) == if p in Pairs(likes) then Pairs(likes) - {p} else Pairs(likes) + {p}
    ensures LikesUnique(Toggled(likes, templateId, userId, likeId))
  {
    match FindLike(likes, templateId, userId)
    case Some(k) => DeletePair(likes, k);
    case None => InsertPair(likes, likeId, Like(templateId, userId));
  }

  /** Deleting the row of a unique pair removes that pair and no other. */
  lemma DeletePair(likes: map<int, Like>, k: int)
    requires LikesUnique(likes) && k in likes
    ensures Pairs(likes - {k}) == Pairs(likes) - {likes[k]}
    ensures LikesUnique(likes - {k})
  {
    var r := likes - {k};
    forall x | x in Pairs(likes) - {likes[k]} ensures x in Pairs(r) {
      var j :| j in likes && likes[j] == x;
      assert j != k && r[j] == x;
    }
  }

  /** Adding a row for a missing pair under a fresh id adds that pair. */
  lemma InsertPair(likes: map<int, Like>, id: int, p: Like)
    requires LikesUnique(likes) && id !in likes && p !in Pairs(likes)
    ensures Pairs(likes[id := p]) == Pairs(likes) + {p}
    ensures LikesUnique(likes[id := p])
  {
    var r := likes[id := p];
    assert r[id] == p;
    forall x | x in Pairs(likes) ensures x in Pairs(r) {
      var j :| j in likes && likes[j] == x;
      assert r[j] == x;
    }
    forall x | x in Pairs(r) ensures x in Pairs(likes) + {p} {
      var j :| j in r && r[j] == x;
    }
  }

  /** Two toggles by the same user leave the same set of likes as before. */
  lemma DoubleToggleRestores(likes: map<int, Like>, templateId: int, userId: int, id1: int, id2: int)
    requires LikesUnique(likes) && id1 !in likes
    requires id2 !in Toggled(likes, templateId, userId, id1)
    ensures Pairs(Toggled(Toggled(likes, templateId, userId, id1), templateId, userId, id2)) == Pairs(likes)
  {
    var once := Toggled(likes, templateId, userId, id1);
    ToggleFlipsPair(likes, templateId, userId, id1);
    ToggleFlipsPair(once, templateId, userId, id2);
  }

  /** The ids of the template's like rows. */
  function LikesOn(likes: map<int, Like>, t: int): set<int> {
    set k | k in likes && likes[k].templateId == t
  }

  /** Deleting one row lowers its template's count by one and no other count. */
  lemma CountAfterDelete(likes: map<int, Like>, k: int, t: int)
    requires k in likes
    ensures LikeCount(likes - {k}, t) == LikeCount(likes, t) - (if likes[k].templateId == t then 1 else 0)
  {
    var before := LikesOn(likes, t);
    var after := LikesOn(likes - {k}, t);
    if likes[k].templateId == t {
      assert after == before - {k} by {
        forall x ensures x in after <==> x in before - {k} {}
      }
    } else {
      assert after == before by {
        forall x ensures x in after <==> x in before {}
      }
    }
  }

  /** Creating one row under a fresh id raises its template's count by one and no other count. */
  lemma CountAfterCreate(likes: map<int, Like>, id: int, l: Like, t: int)
    requires id !in likes
    ensures LikeCount(likes[id := l], t) == LikeCount(likes, t) + (if l.templateId == t then 1 else 0)
  {
    var before := LikesOn(likes, t);
    var after := LikesOn(likes[id := l], t);
    if l.templateId == t {
      assert after == before + {id} by {
        forall x ensures x in after <==> x in before + {id} {}
      }
    } else {
      assert after == before by {
        forall x ensures x in after <==> x in before {}
      }
    }
  }

  /** A toggle changes the template's count by exactly one, up for a new like and down for a removed one, and no other template's count. */
  lemma ToggleCount(likes: map<int, Like>, templateId: int, userId: int, likeId: int, t: int)
    requires likeId !in likes
    ensures var r := Toggled(likes, templateId, userId, likeId);
      LikeCount(r, t) == LikeCount(likes, t) + (if t != templateId then 0 else if FindLike(likes, templateId, userId).None? then 1 else -1)
  {
    match FindLike(likes, templateId, userId)
    case Some(k) => CountAfterDelete(likes, k, t);
    case None => CountAfterCreate(likes, likeId, Like(templateId, userId), t);
  }

  /**
   * POST /:templateId: 400 for NaN, 404 for an unknown template, else the
   * toggle; `liked` says no like existed before, `count` is the template's
   * count afterwards.
   */
  method ToggleLike(db: Db, templateId: IdParam, user: Caller, likeId: int) returns (status: int, liked: bool, count: int)
    requires db.Valid() && likeId !in db.likes
    modifies db
    ensures db.Valid()
    ensures status == BadRequest <==> templateId.NotANumber?
    ensures status == NotFound <==> templateId.Id? && templateId.n !in old(db.templates)
    ensures status == Ok <==> templateId.Id? && templateId.n in old(db.templates)
    ensures status != Ok ==> unchanged(db)
    ensures status == Ok ==>
      && templateId.Id? && templateId.n in old(db.templates)
      && db.State() == old(db.State()).(likes := Toggled(old(db.likes), templateId.n, user.id, likeId))
      && (liked <==> Like(templateId.n, user.id) !in Pairs(old(db.likes)))
      && count == LikeCount(db.likes, templateId.n)
  {
    liked, count := false, 0;
    if templateId.NotANumber? {
      return BadRequest, liked, count;
    }
    var n := templateId.n;
    if n !in db.templates {
      return NotFound, liked, count;
    }
    var existing := FindLike(db.likes, n, user.id);
    ToggleFlipsPair(db.likes, n, user.id, likeId);
    match existing {
      case Some(k) =>
        db.likes := db.likes - {k};
      case None =>
        db.likes := db.likes[likeId := Like(n, user.id)];
    }
    count := LikeCount(db.likes, n);
    liked := existing.None?;
    status := Ok;
  }

  /** GET /:templateId/count: 400 for NaN, else the count (an unknown template counts 0). */
  function CountRoute(likes: map<int, Like>, templateId: IdParam): (r: (int, nat))
    ensures r.0 == BadRequest <==> templateId.NotANumber?
    ensures r.0 == Ok <==> templateId.Id?
    ensures r.0 == Ok ==> r.1 == |set k | k in likes && likes[k].templateId == templateId.n|
  {
    if templateId.NotANumber? then (BadRequest, 0) else (Ok, LikeCount(likes, templateId.n))
  }

  /** GET /:templateId/status: 400 for NaN, else whether the caller has a like on the template. */
  function StatusRoute(likes: map<int, Like>, templateId: IdParam, user: Caller): (r: (int, bool))
    ensures r.0 == BadRequest <==> templateId.NotANumber?
    ensures r.0 == Ok <==> templateId.Id?
    ensures r.0 == Ok ==> (r.1 <==> exists k | k in likes :: likes[k] == Like(templateId.n, user.id))
  {
    if templateId.NotANumber? then (BadRequest, false)
    else (Ok, FindLike(likes, templateId.n, user.id).Some?)
  }

  /** After a toggle, the status route reports what the toggle answered. */
  lemma StatusAfterToggle(likes: map<int, Like>, templateId: int, user: Caller, likeId: int)
    requires LikesUnique(likes) && likeId !in likes
    ensures StatusRoute(Toggled(likes, templateId, user.id, likeId), Id(templateId), user).1
        <==> FindLike(likes, templateId, user.id).None?
  {
    ToggleFlipsPair(likes, templateId, user.id, likeId);
  }
}
