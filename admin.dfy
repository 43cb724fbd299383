/**
 * The admin routes: list every user's public fields, and change a user's
 * role to one of a fixed set of lower-case names. Both sit behind
 * `checkRole(['admin'])`.
 */
module AdminRoutes {
  import opened Wrappers
  import opened Js
  import opened Collections
  import opened Store
  import opened RoleCheck

  /** The roles PUT /users/:id/role accepts. */
  const AssignableRoles: seq<string> := ["admin", "moderator", "user", "reader", "guest"]

  /** The role list both routes are mounted behind. */
  const AdminGate: seq<JsValue> := [Str("admin")]

  /** `select: { id, name, email, role }`: a user row without its hash, avatar, block flag or activity. */
  datatype UserSummary = UserSummary(id: int, name: Option<string>, email: string, role: string)

  function Summary(id: int, u: User): UserSummary {
    UserSummary(id, u.name, u.email, u.role)
  }

  /** The summaries of the rows with the given ids, in that order. */
  function Summaries(users: map<int, User>, ids: seq<int>): (r: seq<UserSummary>)
    requires forall k | k in ids :: k in users
    ensures |r| == |ids|
    ensures forall i | 0 <= i < |ids| :: r[i] == Summary(ids[i], users[ids[i]])
  {
    if ids == [] then [] else [Summary(ids[0], users[ids[0]])] + Summaries(users, ids[1..])
  }

  /** GET /users: one summary per user, in id order. */
  function ListUsers(users: map<int, User>): (r: seq<UserSummary>)
    ensures |r| == |users|
    ensures forall i | 0 <= i < |r| :: r[i].id in users && r[i] == Summary(r[i].id, users[r[i].id])
    ensures forall i, j | 0 <= i < j < |r| :: r[i].id < r[j].id
  {
    Summaries(users, SortedKeys(users.Keys))
  }

  /** Every user appears in the listing. */
  lemma EveryUserListed(users: map<int, User>, k: int)
    requires k in users
    ensures exists i | 0 <= i < |ListUsers(users)| :: ListUsers(users)[i].id == k
  {
    var ids := SortedKeys(users.Keys);
    assert k in ids;
    var i :| 0 <= i < |ids| && ids[i] == k;
    assert ListUsers(users)[i].id == k;
  }

  /** `allowedRoles.includes(newRole)`: the body's role is one of the assignable strings. */
  predicate Assignable(newRole: JsValue) {
    newRole.Str? && newRole.s in AssignableRoles
  }

  /**
   * PUT /users/:id/role: 400 for a role outside the list (checked before the
   * id), 500 when the id is NaN, 404 for no user, else only that user's role
   * changes.
   */
  method ChangeRole(db: Db, id: IdParam, newRole: JsValue) returns (status: int)
    requires db.Valid()
    modifies db
    ensures db.Valid()
    ensures status == BadRequest <==> !Assignable(newRole)
    ensures status == ServerError <==> Assignable(newRole) && id.NotANumber?
    ensures status == NotFound <==> Assignable(newRole) && id.Id? && id.n !in old(db.users)
    ensures status == Ok <==> Assignable(newRole) && id.Id? && id.n in old(db.users)
    ensures status == Ok ==>
      db.State() == old(db.State()).(users := old(db.users)[id.n := old(db.users)[id.n].(role := newRole.s)])
    ensures status != Ok ==> unchanged(db)
  {
    if !Assignable(newRole) {
      return BadRequest;
    }
    if id.NotANumber? {
      return ServerError;
    }
    var n := id.n;
    if n !in db.users {
      return NotFound;
    }
    db.users := db.users[n := db.users[n].(role := newRole.s)];
    status := Ok;
  }

  /** No role this route assigns is the upper-case 'ADMIN' the other routes compare against. */
  lemma AssignedRoleIsNeverAdmin(newRole: JsValue)
    requires Assignable(newRole)
    ensures newRole.s != "ADMIN"
  {
  }

  /** A caller whose role is 'ADMIN' is refused by the gate in front of both admin routes. */
  lemma AdminGateRefusesAdmin(user: Caller, userIdParam: Option<string>, httpMethod: string, now: int)
    requires user.role == "ADMIN"
    ensures CheckRole(AdminGate, Some(user), userIdParam, httpMethod, now) == Stop(Forbidden)
  {
    if !user.isBlocked {
      LowerCaseAdminListRefusesAdmin(user, userIdParam, httpMethod, now);
    }
  }

  /** The gate lets a caller through on a GET exactly when the caller is unblocked with role 'admin'. */
  lemma AdminGateOnGet(user: Caller, userIdParam: Option<string>, now: int)
    ensures CheckRole(AdminGate, Some(user), userIdParam, "GET", now) == Next <==> !user.isBlocked && user.role == "admin"
  {
    CheckRolePasses(AdminGate, Some(user), userIdParam, "GET", now);
    if user.role == "admin" {
      assert AdminGate[0] == Str(user.role);
    }
  }
}
