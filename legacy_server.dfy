/**
 * The stand-alone server entry point: its own registration, login, bearer
 * authentication, public template listing and template creation, over the
 * same tables. Hashing, hash comparison and token verification are oracles.
 */
module LegacyServer {
  import opened Wrappers
  import opened Text
  import opened Js
  import opened Store
  import AuthMiddleware

  /**
   * POST /api/auth/register: 400 unless name, email and password are all
   * truthy; the create fails on a registered address and the error is
   * answered with 400; else 201 and one new user with the model's default
   * role 'user'.
   */
  method Register(db: Db, name: Option<string>, email: Option<string>, password: Option<string>, hash: string -> string, now: int, id: int)
    returns (status: int)
    requires db.Valid() && id !in db.users
    modifies db
    ensures db.Valid()
    ensures status == Created <==>
      TruthyString(name) && TruthyString(email) && TruthyString(password)
      && forall k | k in old(db.users) :: old(db.users)[k].email != email.value
    ensures status == Created ==>
      db.State() == old(db.State()).(users := old(db.users)[id := User(name, email.value, hash(password.value), None, "user", false, now)])
    ensures status != Created ==> status == BadRequest && unchanged(db)
  {
    if !TruthyString(name) || !TruthyString(email) || !TruthyString(password) {
      return BadRequest;
    }
    if exists k | k in db.users :: db.users[k].email == email.value {
      return BadRequest;
    }
    db.users := db.users[id := User(name, email.value, hash(password.value), None, "user", false, now)];
    status := Created;
  }

  /** `User.findOne({ where: { email } })`: the matching row with the lowest id. */
  function FindByEmail(users: map<int, User>, email: string): (r: Option<int>)
    ensures r.Some? ==> r.value in users && users[r.value].email == email
    ensures r.None? <==> forall k | k in users :: users[k].email != email
  {
    FindFirst(users, (u: User) => u.email == email)
  }

  /**
   * POST /api/auth/login: 400 unless both fields are truthy; 401 for an
   * unknown address or a wrong password alike; else the user.
   */
  function Login(users: map<int, User>, email: Option<string>, password: Option<string>, compare: (string, string) -> bool): (r: (int, Option<int>))
    ensures r.0 == BadRequest <==> !TruthyString(email) || !TruthyString(password)
    ensures r.0 == Ok <==>
      TruthyString(email) && TruthyString(password) && FindByEmail(users, email.value).Some?
      && compare(password.value, users[FindByEmail(users, email.value).value].passwordHash)
    ensures r.0 != Ok ==> r.1.None? && (r.0 == BadRequest || r.0 == Unauthorized)
    ensures r.0 == Ok ==> r.1.Some? && r.1.value in users && users[r.1.value].email == email.value
  {
    if !TruthyString(email) || !TruthyString(password) then (BadRequest, None)
    else match FindByEmail(users, email.value)
      case None => (Unauthorized, None)
      case Some(k) => if compare(password.value, users[k].passwordHash) then (Ok, Some(k)) else (Unauthorized, None)
  }

  /** `header.startsWith('Bearer ')`, then `header.slice(7)`. */
  function BearerSlice(header: Option<string>): (r: Option<string>)
    ensures r.Some? <==> TruthyString(header) && StartsWith(header.value, "Bearer ")
    ensures r.Some? ==> header.value == "Bearer " + r.value
  {
    if !TruthyString(header) || !StartsWith(header.value, "Bearer ") then None
    else Some(header.value[7..])
  }

  /**
   * The `auth` middleware of this server: 401 for a missing or malformed
   * header, for a token the verifier rejects (`None`), and for a token
   * whose user does not exist; else that user.
   */
  function Authenticate(users: map<int, User>, header: Option<string>, verify: string -> Option<JsValue>): (r: Option<int>)
    ensures r.Some? <==>
      BearerSlice(header).Some? && verify(BearerSlice(header).value).Some?
      && verify(BearerSlice(header).value).value.Num? && verify(BearerSlice(header).value).value.n in users
    ensures r.Some? ==> r.value in users
  {
    match BearerSlice(header)
    case None => None
    case Some(token) =>
      match verify(token)
      case None => None
      case Some(id) => if id.Num? && id.n in users then Some(id.n) else None
  }

  /**
   * This server's header check and the shared middleware's take the same
   * token from 'Bearer ' and a token without spaces; a token with a space
   * in it passes here and is refused there.
   */
  lemma HeaderChecksAgreeOnPlainTokens(token: string)
    ensures ' ' !in token ==> BearerSlice(Some("Bearer " + token)) == AuthMiddleware.BearerToken(Some("Bearer " + token)) == Some(token)
    ensures ' ' in token ==> BearerSlice(Some("Bearer " + token)) == Some(token) && AuthMiddleware.BearerToken(Some("Bearer " + token)).None?
  {
    var header := "Bearer " + token;
    assert IsPrefix("Bearer ", header) by {
      assert header[..7] == "Bearer ";
    }
    AuthMiddleware.BearerTokenShape(header);
    forall t | header == "Bearer " + t ensures t == token {
      assert t == header[7..];
    }
  }

  /** GET /api/templates: the public templates. */
  function PublicTemplates(templates: map<int, Template>): (r: seq<int>)
    ensures forall k | k in r :: k in templates && templates[k].isPublic
    ensures forall k | k in templates && templates[k].isPublic :: k in r
  {
    FindMany(templates, (t: Template) => t.isPublic)
  }

  /**
   * POST /api/templates: the caller owns the new template, `isPublic ?? true`
   * makes it public unless the body says otherwise, and a falsy image URL
   * is stored as null. The model's `topic` column is kept in `theme`.
   */
  method CreateTemplate(db: Db, user: Caller, title: Option<string>, description: Option<string>, topic: Option<string>,
                        imageUrl: Option<string>, isPublic: Option<bool>, now: int, id: int)
    returns (status: int, created: Template)
    requires db.Valid() && id !in db.templates
    modifies db
    ensures db.Valid()
    ensures status == Created
    ensures created.ownerId == user.id
    ensures created.isPublic == (isPublic.None? || isPublic.value)
    ensures created.imageUrl == if TruthyString(imageUrl) then imageUrl else None
    ensures created.title == title && created.description == description && created.theme == topic
    ensures db.State() == old(db.State()).(templates := old(db.templates)[id := created])
  {
    created := Template(title, description, topic, if TruthyString(imageUrl) then imageUrl else None, isPublic.GetOr(true), user.id, now);
    db.templates := db.templates[id := created];
    status := Created;
  }
}
