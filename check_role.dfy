/**
 * The role middleware factory: it refuses a non-array role list when it is
 * built, and the middleware it returns runs authentication, block, role and
 * freshness checks in that order.
 */
module RoleCheck {
  import opened Wrappers
  import opened Js
  import opened Store

  /** 24 hours in milliseconds. */
  const DayMillis := 24 * 60 * 60 * 1000

  /** The factory: an array of roles gives a middleware, anything else throws (`None`). */
  function MakeCheckRole(allowedRoles: JsValue): (r: Option<seq<JsValue>>)
    ensures r.Some? <==> allowedRoles.Arr?
    ensures r.Some? ==> r.value == allowedRoles.items
  {
    match allowedRoles
    case Arr(items) => Some(items)
    case _ => None
  }

  /** `allowedRoles.includes(role)`: strict equality with some element. */
  predicate Includes(allowedRoles: seq<JsValue>, role: string) {
    exists i | 0 <= i < |allowedRoles| :: allowedRoles[i] == Str(role)
  }

  /**
   * `req.params.userId && req.params.userId === req.user.id`: a path
   * parameter is a string and the id a number, so strict equality never holds.
   */
  predicate IsSelfAction(userIdParam: Option<string>, user: Caller) {
    TruthyString(userIdParam) && OfString(userIdParam) == Num(user.id)
  }

  /** `(now - lastActive) / (1000 * 60 * 60) > 24`, in whole milliseconds. */
  predicate Stale(lastActive: int, now: int) {
    now - lastActive > DayMillis
  }

  /**
   * The middleware built from `allowedRoles`: 401 without a user, 403 for a
   * blocked user, 403 without a listed role (unless the admin self-action
   * holds), 403 for a stale session on a non-GET request, else `next()`.
   */
  function CheckRole(allowedRoles: seq<JsValue>, user: Option<Caller>, userIdParam: Option<string>, httpMethod: string, now: int): (r: Gate)
    ensures r == Stop(Unauthorized) <==> user.None?
    ensures r == Next ==> user.Some? && !user.value.isBlocked
    ensures r == Next ==> httpMethod == "GET" || !Stale(user.value.lastActive, now)
    ensures r.Stop? ==> r.status == Unauthorized || r.status == Forbidden
  {
    if user.None? then Stop(Unauthorized)
    else if user.value.isBlocked then Stop(Forbidden)
    else
      var hasRequiredRole := Includes(allowedRoles, user.value.role);
      var isAdminAction := Includes(allowedRoles, "ADMIN") && user.value.role == "ADMIN" && IsSelfAction(userIdParam, user.value);
      if !hasRequiredRole && !isAdminAction then Stop(Forbidden)
      else if httpMethod != "GET" && Stale(user.value.lastActive, now) then Stop(Forbidden)
      else Next
  }

  /** The self-action test never holds, so it never lets anyone through. */
  lemma SelfActionNeverHolds(userIdParam: Option<string>, user: Caller)
    ensures !IsSelfAction(userIdParam, user)
  {
  }

  /** A request passes exactly when there is an unblocked user with a listed role and, for a non-GET request, a fresh session. */
  lemma CheckRolePasses(allowedRoles: seq<JsValue>, user: Option<Caller>, userIdParam: Option<string>, httpMethod: string, now: int)
    ensures CheckRole(allowedRoles, user, userIdParam, httpMethod, now) == Next <==>
      && user.Some? && !user.value.isBlocked
      && Includes(allowedRoles, user.value.role)
      && (httpMethod == "GET" || !Stale(user.value.lastActive, now))
  {
    if user.Some? {
      SelfActionNeverHolds(userIdParam, user.value);
    }
  }

  /** A blocked user is refused with 403 whatever the role list and role. */
  lemma BlockedIsForbidden(allowedRoles: seq<JsValue>, user: Caller, userIdParam: Option<string>, httpMethod: string, now: int)
    requires user.isBlocked
    ensures CheckRole(allowedRoles, Some(user), userIdParam, httpMethod, now) == Stop(Forbidden)
  {
  }

  /** A session exactly 24 hours old is still accepted on a write; one millisecond more is refused. */
  lemma FreshnessBoundary(allowedRoles: seq<JsValue>, user: Caller, userIdParam: Option<string>, httpMethod: string)
    requires !user.isBlocked && Includes(allowedRoles, user.role) && httpMethod != "GET"
    ensures CheckRole(allowedRoles, Some(user), userIdParam, httpMethod, user.lastActive + DayMillis) == Next
    ensures CheckRole(allowedRoles, Some(user), userIdParam, httpMethod, user.lastActive + DayMillis + 1) == Stop(Forbidden)
  {
  }

  /** GET requests skip the freshness check. */
  lemma GetSkipsFreshness(allowedRoles: seq<JsValue>, user: Caller, userIdParam: Option<string>, now: int)
    requires !user.isBlocked && Includes(allowedRoles, user.role)
    ensures CheckRole(allowedRoles, Some(user), userIdParam, "GET", now) == Next
  {
  }

  /** `checkRole(['admin'])` refuses a caller whose role is spelled 'ADMIN'. */
  lemma LowerCaseAdminListRefusesAdmin(user: Caller, userIdParam: Option<string>, httpMethod: string, now: int)
    requires user.role == "ADMIN" && !user.isBlocked
    ensures CheckRole([Str("admin")], Some(user), userIdParam, httpMethod, now) == Stop(Forbidden)
  {
  }
}
