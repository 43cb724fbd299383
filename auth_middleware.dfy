/**
 * The authentication middleware: the `Authorization` header format, the
 * verified token's claims, the user's existence and block flag, and the
 * best-effort `lastActive` write. Token verification is an oracle.
 */
module AuthMiddleware {
  import opened Wrappers
  import opened Text
  import opened Js
  import opened Store

  /** What `jwt.verify(token, secret)` yields: the decoded claims, or the error it throws. */
  datatype Verified =
    | Claims(id: JsValue, iss: JsValue)
    | TokenExpiredError
    | JsonWebTokenError
    | OtherError

  /** The middleware's verdict: `req.user` and `next()`, or an error status. */
  datatype AuthResult = Authenticated(user: Caller) | Refused(status: int)

  /** `authHeader.split(' ')` must give exactly two parts, the first 'Bearer'; the token is the second. */
  function BearerToken(header: Option<string>): (r: Option<string>)
    ensures r.Some? <==> TruthyString(header) && |Split(header.value, ' ')| == 2 && Split(header.value, ' ')[0] == "Bearer"
    ensures r.Some? ==> r.value == Split(header.value, ' ')[1]
  {
    if !TruthyString(header) then None
    else
      var parts := Split(header.value, ' ');
      if |parts| != 2 || parts[0] != "Bearer" then None else Some(parts[1])
  }

  /** The header is accepted exactly when it is 'Bearer', one space, and a token without spaces; that token is used. */
  lemma BearerTokenShape(header: string)
    ensures BearerToken(Some(header)).Some? <==> exists t :: ' ' !in t && header == "Bearer " + t
    ensures forall t | ' ' !in t && header == "Bearer " + t :: BearerToken(Some(header)) == Some(t)
  {
    TwoParts(header, ' ');
    forall t | ' ' !in t && header == "Bearer " + t ensures BearerToken(Some(header)) == Some(t) {
      assert header == "Bearer" + [' '] + t;
      SplitAtFirst("Bearer", t, ' ');
      SplitNoSeparator(t, ' ');
    }
    if BearerToken(Some(header)).Some? {
      var parts := Split(header, ' ');
      assert header == "Bearer" + [' '] + parts[1];
      SplitJoin(header, ' ');
      assert ' ' !in parts[1];
    }
  }

  /** `jwt.verify` applied to the token, when the header yields one. */
  function Decoded(header: Option<string>, verify: string -> Verified): Option<Verified> {
    match BearerToken(header)
    case None => None
    case Some(t) => Some(verify(t))
  }

  /** `!decoded.id || !decoded.iss || decoded.iss !== JWT_ISSUER` rejects the claims. */
  predicate ClaimsOk(v: Verified, issuer: Option<string>)
    requires v.Claims?
  {
    Truthy(v.id) && Truthy(v.iss) && v.iss == OfString(issuer)
  }

  /** The selected user fields that become `req.user`. */
  function CallerOf(id: int, u: User): Caller {
    Caller(id, u.email, u.role, u.isBlocked, u.lastActive)
  }

  /**
   * The check chain: 401 without a well-formed header, 401 for an expired or
   * invalid token, 500 for any other verification error, 403 for bad claims,
   * 500 when the id is not a number the lookup accepts, 403 for an unknown or
   * blocked user, else the user.
   */
  function Authenticate(users: map<int, User>, header: Option<string>, verify: string -> Verified, issuer: Option<string>): (r: AuthResult)
    ensures r.Authenticated? <==>
      && Decoded(header, verify).Some? && Decoded(header, verify).value.Claims?
      && ClaimsOk(Decoded(header, verify).value, issuer)
      && Decoded(header, verify).value.id.Num?
      && Decoded(header, verify).value.id.n in users
      && !users[Decoded(header, verify).value.id.n].isBlocked
    ensures r.Authenticated? ==>
      r.user == CallerOf(Decoded(header, verify).value.id.n, users[Decoded(header, verify).value.id.n])
    ensures r == Refused(Unauthorized) <==>
      Decoded(header, verify).None? || Decoded(header, verify) == Some(TokenExpiredError) || Decoded(header, verify) == Some(JsonWebTokenError)
    ensures r.Refused? ==> r.status == Unauthorized || r.status == Forbidden || r.status == ServerError
    ensures Decoded(header, verify) == Some(OtherError) ==> r == Refused(ServerError)
    ensures (Decoded(header, verify).Some? && Decoded(header, verify).value.Claims?
      && ClaimsOk(Decoded(header, verify).value, issuer) && !Decoded(header, verify).value.id.Num?) ==> r == Refused(ServerError)
  {
    match Decoded(header, verify)
    case None => Refused(Unauthorized)
    case Some(TokenExpiredError) => Refused(Unauthorized)
    case Some(JsonWebTokenError) => Refused(Unauthorized)
    case Some(OtherError) => Refused(ServerError)
    case Some(v) =>
      if !ClaimsOk(v, issuer) then Refused(Forbidden)
      else if !v.id.Num? then Refused(ServerError)
      else if v.id.n !in users then Refused(Forbidden)
      else if users[v.id.n].isBlocked then Refused(Forbidden)
      else Authenticated(CallerOf(v.id.n, users[v.id.n]))
  }

  /** The verdict depends on the token only through what `jwt.verify` says about the header's second part. */
  lemma OnlyTheTokenIsVerified(users: map<int, User>, header: string, v1: string -> Verified, v2: string -> Verified, issuer: Option<string>, token: string)
    requires ' ' !in token && header == "Bearer " + token
    requires v1(token) == v2(token)
    ensures Authenticate(users, Some(header), v1, issuer) == Authenticate(users, Some(header), v2, issuer)
  {
    BearerTokenShape(header);
  }

  /** Claims without an id, without an issuer, or from another issuer are refused with 403. */
  lemma BadClaimsForbidden(users: map<int, User>, header: Option<string>, verify: string -> Verified, issuer: Option<string>)
    requires Decoded(header, verify).Some? && Decoded(header, verify).value.Claims?
    requires !ClaimsOk(Decoded(header, verify).value, issuer)
    ensures Authenticate(users, header, verify, issuer) == Refused(Forbidden)
  {
  }

  /** A valid token for an unknown or blocked user is refused with 403. */
  lemma UnknownOrBlockedForbidden(users: map<int, User>, header: Option<string>, verify: string -> Verified, issuer: Option<string>)
    requires Decoded(header, verify).Some? && Decoded(header, verify).value.Claims?
    requires ClaimsOk(Decoded(header, verify).value, issuer) && Decoded(header, verify).value.id.Num?
    requires var n := Decoded(header, verify).value.id.n; n !in users || users[n].isBlocked
    ensures Authenticate(users, header, verify, issuer) == Refused(Forbidden)
  {
  }

  /**
   * The middleware: the verdict above, plus the `lastActive` write for an
   * authenticated user, which is not awaited; whether it succeeds
   * (`writeSucceeds`) changes the store but never the verdict. `req.user`
   * holds the values read before the write.
   */
  method RequireAuth(db: Db, header: Option<string>, verify: string -> Verified, issuer: Option<string>, now: int, writeSucceeds: bool)
    returns (r: AuthResult)
    requires db.Valid()
    modifies db
    ensures db.Valid()
    ensures r == Authenticate(old(db.users), header, verify, issuer)
    ensures r.Authenticated? && writeSucceeds ==>
      db.State() == old(db.State()).(users := old(db.users)[r.user.id := old(db.users)[r.user.id].(lastActive := now)])
    ensures !(r.Authenticated? && writeSucceeds) ==> unchanged(db)
  {
    r := Authenticate(db.users, header, verify, issuer);
    if r.Authenticated? && writeSucceeds {
      var id := r.user.id;
      db.users := db.users[id := db.users[id].(lastActive := now)];
    }
  }
}
