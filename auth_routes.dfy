/**
 * The account routes: registration with e-mail and password validation,
 * login, partial profile update and profile deletion. Password hashing,
 * hash comparison and token signing are oracles.
 */
module AccountRoutes {
  import opened Wrappers
  import opened Text
  import opened Js
  import opened Store

  const MinPasswordLength := 6

  // ---------------------------------------------------------------- e-mail

  /** A non-empty run of characters that are neither '@' nor whitespace: `[^\s@]+`. */
  predicate Plain(s: string) {
    s != [] && forall k | 0 <= k < |s| :: s[k] != '@' && !IsSpace(s[k])
  }

  /** `/^[^\s@]+@[^\s@]+\.[^\s@]+$/.test(s)`: three plain runs separated by '@' and '.'. */
  predicate EmailPattern(s: string) {
    exists i, j | 0 <= i < j < |s| :: s[i] == '@' && s[j] == '.' && Plain(s[..i]) && Plain(s[i + 1..j]) && Plain(s[j + 1..])
  }

  /** No whitespace, exactly one '@' and not first, and a '.' after it with text on both sides. */
  predicate EmailRule(s: string) {
    && (forall k | 0 <= k < |s| :: !IsSpace(s[k]))
    && exists i | 0 < i < |s| ::
         && s[i] == '@'
         && (forall k | 0 <= k < |s| && s[k] == '@' :: k == i)
         && exists j | i + 1 < j < |s| - 1 :: s[j] == '.'
  }

  /** The pattern's runs cover the whole string apart from the '@' and the '.'. */
  lemma PatternParts(s: string, i: int, j: int)
    requires 0 <= i < j < |s| && s[i] == '@' && s[j] == '.'
    requires Plain(s[..i]) && Plain(s[i + 1..j]) && Plain(s[j + 1..])
    ensures forall k | 0 <= k < |s| :: !IsSpace(s[k])
    ensures forall k | 0 <= k < |s| && s[k] == '@' :: k == i
    ensures 0 < i && i + 1 < j < |s| - 1
  {
    forall k | 0 <= k < |s| ensures !IsSpace(s[k]) && (s[k] == '@' ==> k == i) {
      if k < i {
        assert s[k] == s[..i][k];
      } else if i < k < j {
        assert s[k] == s[i + 1..j][k - i - 1];
      } else if j < k {
        assert s[k] == s[j + 1..][k - j - 1];
      }
    }
  }

  /** Cutting at the only '@' and at a '.' after it gives the pattern's three runs. */
  lemma RuleParts(s: string, i: int, j: int)
    requires forall k | 0 <= k < |s| :: !IsSpace(s[k])
    requires 0 < i < |s| && s[i] == '@' && forall k | 0 <= k < |s| && s[k] == '@' :: k == i
    requires i + 1 < j < |s| - 1 && s[j] == '.'
    ensures Plain(s[..i]) && Plain(s[i + 1..j]) && Plain(s[j + 1..])
  {
    assert forall k | 0 <= k < i :: s[..i][k] == s[k];
    assert forall k | i + 1 <= k < j :: s[i + 1..j][k - i - 1] == s[k];
    assert forall k | j + 1 <= k < |s| :: s[j + 1..][k - j - 1] == s[k];
  }

  /** The registration pattern accepts exactly the addresses the rule describes. */
  lemma EmailPatternIff(s: string)
    ensures EmailPattern(s) <==> EmailRule(s)
  {
    if EmailPattern(s) {
      var i, j :| 0 <= i < j < |s| && s[i] == '@' && s[j] == '.' && Plain(s[..i]) && Plain(s[i + 1..j]) && Plain(s[j + 1..]);
      PatternParts(s, i, j);
    }
    if EmailRule(s) {
      var i :| 0 < i < |s| && s[i] == '@' && (forall k | 0 <= k < |s| && s[k] == '@' :: k == i) && exists j | i + 1 < j < |s| - 1 :: s[j] == '.';
      var j :| i + 1 < j < |s| - 1 && s[j] == '.';
      RuleParts(s, i, j);
    }
  }

  // ---------------------------------------------------------------- passwords

  /** `v.length`: defined for strings and arrays, `undefined` otherwise. */
  function Length(v: JsValue): Option<nat> {
    match v
    case Str(s) => Some(Utf16Length(s))
    case Arr(items) => Some(|items|)
    case _ => None
  }

  /** `!password || password.length < MIN_PASSWORD_LENGTH` (a comparison with `undefined` is false). */
  function PasswordRejected(password: JsValue): (r: bool)
    ensures password.Str? ==> (r <==> Utf16Length(password.s) < MinPasswordLength)
    ensures password.Str? && |password.s| >= MinPasswordLength ==> !r
    ensures password.Undefined? || password.Null? ==> r
  {
    !Truthy(password) || (Length(password).Some? && Length(password).value < MinPasswordLength)
  }

  /** The length is in UTF-16 units: three characters beyond U+FFFF are six units, enough for a password. */
  lemma {:induction false} AstralPasswordAccepted()
    ensures !PasswordRejected(Str("\U{1F600}\U{1F600}\U{1F600}"))
  {
    var s := "\U{1F600}\U{1F600}\U{1F600}";
    assert s[1..][1..][1..] == [];
    assert Utf16Length(s[1..][1..]) == 2;
    assert Utf16Length(s[1..]) == 4;
  }

  // ---------------------------------------------------------------- users

  /** `user.findUnique({ where: { email } })`. */
  function FindUserByEmail(users: map<int, User>, email: string): (r: Option<int>)
    ensures r.Some? <==> exists k | k in users :: users[k].email == email
    ensures r.Some? ==> r.value in users && users[r.value].email == email
  {
    FindFirst(users, (u: User) => u.email == email)
  }

  /** The row `user.create({ data: { name, email, passwordHash } })` inserts; the schema's defaults are parameters. */
  function NewUser(name: Option<string>, email: string, passwordHash: string, defaultRole: string, now: int): User {
    User(name, email, passwordHash, None, defaultRole, false, now)
  }

  /**
   * POST /register: 400 for an address the pattern refuses (matched against its
   * string form) or a rejected password; a non-string address fails the
   * lookup and a non-string password the hash (500); 409 for a registered
   * address; else 201 and exactly one new user under the fresh id `id`.
   */
  method Register(db: Db, name: Option<string>, email: JsValue, password: JsValue, hash: string -> string, defaultRole: string, now: int, id: int)
    returns (status: int)
    requires db.Valid() && id !in db.users
    modifies db
    ensures db.Valid()
    ensures status == BadRequest <==> !EmailPattern(ToString(email)) || PasswordRejected(password)
    ensures status == Conflict <==>
      EmailPattern(ToString(email)) && !PasswordRejected(password) && email.Str? && FindUserByEmail(old(db.users), email.s).Some?
    ensures status == Created <==>
      EmailPattern(ToString(email)) && !PasswordRejected(password) && email.Str? && password.Str? && FindUserByEmail(old(db.users), email.s).None?
    ensures status == Created ==>
      && db.State() == old(db.State()).(users := old(db.users)[id := NewUser(name, email.s, hash(password.s), defaultRole, now)])
      && |db.users| == |old(db.users)| + 1
    ensures status != Created ==> unchanged(db) && (status == BadRequest || status == Conflict || status == ServerError)
  {
    if !EmailPattern(ToString(email)) || PasswordRejected(password) {
      return BadRequest;
    }
    if !email.Str? {
      return ServerError;
    }
    if FindUserByEmail(db.users, email.s).Some? {
      return Conflict;
    }
    if !password.Str? {
      return ServerError;
    }
    db.users := db.users[id := NewUser(name, email.s, hash(password.s), defaultRole, now)];
    status := Created;
  }

  /** The outcome of POST /login: the signed-in user's id, or an error status. */
  datatype LoginResult = LoggedIn(userId: int) | LoginRefused(status: int)

  /**
   * POST /login: a non-string address fails the lookup (500); an unknown
   * address gives 400; a non-string password fails the comparison (500); a
   * wrong password gives the same 400; else the user.
   */
  function Login(users: map<int, User>, email: JsValue, password: JsValue, compare: (string, string) -> bool): (r: LoginResult)
    ensures r.LoggedIn? <==>
      email.Str? && password.Str? && FindUserByEmail(users, email.s).Some?
      && compare(password.s, users[FindUserByEmail(users, email.s).value].passwordHash)
    ensures r.LoggedIn? ==> r.userId in users && users[r.userId].email == email.s
    ensures r == LoginRefused(BadRequest) <==>
      email.Str? && (FindUserByEmail(users, email.s).None?
        || (password.Str? && !compare(password.s, users[FindUserByEmail(users, email.s).value].passwordHash)))
    ensures r.LoginRefused? ==> r.status == BadRequest || r.status == ServerError
  {
    if !email.Str? then LoginRefused(ServerError)
    else match FindUserByEmail(users, email.s)
      case None => LoginRefused(BadRequest)
      case Some(k) =>
        if !password.Str? then LoginRefused(ServerError)
        else if !compare(password.s, users[k].passwordHash) then LoginRefused(BadRequest)
        else LoggedIn(k)
  }

  /** An unknown address and a wrong password get the same answer, so the response does not tell which. */
  lemma LoginFailuresAgree(users: map<int, User>, unknown: string, known: string, p1: JsValue, p2: string, compare: (string, string) -> bool)
    requires FindUserByEmail(users, unknown).None?
    requires FindUserByEmail(users, known).Some? && !compare(p2, users[FindUserByEmail(users, known).value].passwordHash)
    ensures Login(users, Str(unknown), p1, compare) == Login(users, Str(known), Str(p2), compare) == LoginRefused(BadRequest)
  {
  }

  /** A user who has just registered can sign in with the same address and password, given a hash the comparison accepts. */
  lemma RegisteredUserCanLogIn(users: map<int, User>, id: int, name: Option<string>, email: string, password: string,
                               hash: string -> string, compare: (string, string) -> bool, defaultRole: string, now: int)
    requires EmailsUnique(users) && id !in users && FindUserByEmail(users, email).None?
    requires compare(password, hash(password))
    ensures Login(users[id := NewUser(name, email, hash(password), defaultRole, now)], Str(email), Str(password), compare) == LoggedIn(id)
  {
    var after := users[id := NewUser(name, email, hash(password), defaultRole, now)];
    var found := FindUserByEmail(after, email);
    assert after[id].email == email;
    assert forall k | k in users :: users[k].email != email;
    assert found.Some? && found.value == id;
  }

  // ---------------------------------------------------------------- profile

  /** The row after `update({ data: updates })`, where `updates` holds only the supplied truthy fields. */
  function Updated(u: User, name: Option<string>, avatar: Option<string>, passwordHash: Option<string>): (r: User)
    ensures r.email == u.email && r.role == u.role && r.isBlocked == u.isBlocked && r.lastActive == u.lastActive
  {
    u.(name := if TruthyString(name) then name else u.name,
       avatar := if TruthyString(avatar) then avatar else u.avatar,
       passwordHash := if passwordHash.Some? then passwordHash.value else u.passwordHash)
  }

  /** Supplying nothing changes nothing, and applying the same update twice is applying it once. */
  lemma UpdatedIdentityAndIdempotent(u: User, name: Option<string>, avatar: Option<string>, passwordHash: Option<string>)
    ensures Updated(u, None, None, None) == u
    ensures Updated(Updated(u, name, avatar, passwordHash), name, avatar, passwordHash) == Updated(u, name, avatar, passwordHash)
  {
  }

  /**
   * PUT /profile: a truthy password shorter than the minimum gives 400 and a
   * non-string one fails the hash (500); no truthy field gives 400; a caller
   * whose row is gone fails the update (500); else the caller's row gets
   * exactly the supplied fields and is returned whole.
   */
  method UpdateProfile(db: Db, user: Caller, name: Option<string>, avatar: Option<string>, password: JsValue, hash: string -> string)
    returns (status: int, updated: Option<User>)
    requires db.Valid()
    modifies db
    ensures db.Valid()
    ensures status == BadRequest <==>
      (Truthy(password) && Length(password).Some? && Length(password).value < MinPasswordLength)
      || (!TruthyString(name) && !TruthyString(avatar) && !Truthy(password))
    ensures status == Ok <==>
      && (TruthyString(name) || TruthyString(avatar) || Truthy(password))
      && (Truthy(password) ==> password.Str? && Utf16Length(password.s) >= MinPasswordLength)
      && user.id in old(db.users)
    ensures status == Ok ==>
      var row := Updated(old(db.users)[user.id], name, avatar, if Truthy(password) then Some(hash(password.s)) else None);
      && updated == Some(row)
      && db.State() == old(db.State()).(users := old(db.users)[user.id := row])
    ensures status != Ok ==> unchanged(db) && updated.None? && (status == BadRequest || status == ServerError)
  {
    var newHash: Option<string> := None;
    if Truthy(password) {
      if Length(password).Some? && Length(password).value < MinPasswordLength {
        return BadRequest, None;
      }
      if !password.Str? {
        return ServerError, None;
      }
      newHash := Some(hash(password.s));
    }
    if !TruthyString(name) && !TruthyString(avatar) && newHash.None? {
      return BadRequest, None;
    }
    if user.id !in db.users {
      return ServerError, None;
    }
    var row := Updated(db.users[user.id], name, avatar, newHash);
    db.users := db.users[user.id := row];
    status, updated := Ok, Some(row);
  }

  /** DELETE /profile: the caller's row is removed (dependent rows are left to the schema); a missing row fails (500). */
  method DeleteProfile(db: Db, user: Caller) returns (status: int)
    requires db.Valid()
    modifies db
    ensures db.Valid()
    ensures status == Ok <==> user.id in old(db.users)
    ensures status == Ok ==> db.State() == old(db.State()).(users := old(db.users) - {user.id})
    ensures status != Ok ==> status == ServerError && unchanged(db)
  {
    if user.id !in db.users {
      return ServerError;
    }
    db.users := db.users - {user.id};
    status := Ok;
  }
}
