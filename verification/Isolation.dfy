/** The mutating HTTP views, and what callers without a role in a tenant can do to it. */
module Isolation {

  import opened Rows
  import opened AuthModel
  import opened Services
  import opened StoreInvariant
  import opened Queries
  import opened Gates

  /** The body of a request that its serializer accepted. */
  datatype Payload =
    | DefineRole(name: string, slug: string, weight: int, codes: seq<string>)
    | AssignTo(user: nat, role: string)
    | RevokeFrom(user: nat)
    | Toggle(feature: string, raw: RawFlag)

  /** A POST to a tenant-scoped URL; `valid` is the serializer's verdict on the body. */
  datatype Post = Post(req: Request, tenant: nat, payload: Payload, valid: bool, now: nat)

  datatype Status = Success | BadRequest | Unauthorized | Forbidden | NotFound404 | Failed(error: Error)

  const STAFF: seq<string> := ["owner", "admin"]

  function RequiredRoles(p: Payload): seq<string> {
    if p.DefineRole? then ["owner", "admin", "member"] else STAFF
  }

  function StatusOf<T>(r: Result<T>): Status {
    if r.Ok? then Success else Failed(r.error)
  }

  /** A view runs after authentication and the role gate; role definition checks the role again. */
  function Handle(db: Db, p: Post): (Db, Status) {
    if CallerOf(db, p.req).None? then (db, Unauthorized)
    else if !HasRolePermission(db, RequiredRoles(p.payload), Some(p.tenant), p.req) then (db, Forbidden)
    else if !Exists(db.tenants, TenantIs(p.tenant)) then (db, NotFound404)
    else if p.payload.DefineRole? && !HasRole(db, CallerOf(db, p.req), p.tenant, STAFF) then (db, Forbidden)
    else if !p.valid then (db, BadRequest)
    else Perform(db, p, CallerOf(db, p.req).value)
  }

  function Perform(db: Db, p: Post, caller: User): (Db, Status) {
    match p.payload
    case DefineRole(name, slug, weight, codes) =>
      var out := CreateRole(db, p.tenant, name, slug, weight, codes, p.now);
      (out.db, StatusOf(out.result))
    case AssignTo(user, role) =>
      if !Exists(db.users, UserIs(user)) then (db, BadRequest)
      else
        var out := AssignRole(db, user, p.tenant, role, Some(caller.id), p.now);
        (out.db, StatusOf(out.result))
    case RevokeFrom(user) =>
      if !Exists(db.users, UserIs(user)) then (db, BadRequest) else (RevokeRole(db, user, p.tenant).db, Success)
    case Toggle(feature, raw) =>
      if feature == "" then (db, BadRequest)
      else
        var out := SetFeature(db, Some(p.tenant), feature, raw, p.now);
        (out.db, StatusOf(out.result))
  }

  /** Everything an authorization answer in tenant `t` depends on, besides users and permissions. */
  datatype TenantView = TenantView(
    roles: set<Role>, grants: set<Grant>, members: set<Membership>, own: set<Flag>, global: set<Flag>)

  ghost function ViewOf(db: Db, t: nat): TenantView {
    TenantView(
      set r | r in db.roles && r.tenant == t,
      set g | g in db.grants && IsRoleOf(db.roles, g.role, t),
      set m | m in db.members && m.tenant == t,
      set f | f in db.flags && f.tenant == Some(t),
      set f | f in db.flags && f.tenant == None)
  }

  /** The caller is a superuser, or an owner or admin of the tenant. */
  predicate InCharge(db: Db, req: Request, t: nat) {
    HasRole(db, CallerOf(db, req), t, STAFF)
  }

  // ---- One request -----------------------------------------------------------------------

  lemma HandleKeeps(db: Db, p: Post)
    requires Inv(db)
    ensures Inv(Handle(db, p).0)
    ensures Preserves(db, Handle(db, p).0)
  {
    if Handle(db, p).0 != db {
      var t :| t in db.tenants && TenantIs(p.tenant)(t);
      PerformKeeps(db, p, CallerOf(db, p.req).value);
    }
  }

  /** What a request leaves alone. */
  ghost predicate Preserves(db: Db, db': Db) {
    && db'.users == db.users && db'.permissions == db.permissions && db'.tenants == db.tenants
    && forall r | r in db.roles :: r in db'.roles
  }

  ghost predicate Keeps(db: Db, db': Db) {
    Inv(db') && Preserves(db, db')
  }

  lemma DefineKeeps(db: Db, tenant: nat, name: string, slug: string, weight: int, codes: seq<string>, now: nat)
    requires Inv(db) && IsTenant(db.tenants, tenant)
    ensures Keeps(db, CreateRole(db, tenant, name, slug, weight, codes, now).db)
  {
    CreateRoleKeeps(db, tenant, name, slug, weight, codes, now);
  }

  lemma AssignKeeps(db: Db, user: nat, tenant: nat, slug: string, actor: nat, now: nat)
    requires Inv(db) && IsUser(db.users, user) && IsUser(db.users, actor)
    ensures Keeps(db, AssignRole(db, user, tenant, slug, Some(actor), now).db)
  {
    AssignRoleKeeps(db, user, tenant, slug, Some(actor), now);
  }

  lemma RevokeKeeps(db: Db, user: nat, tenant: nat)
    requires Inv(db)
    ensures Keeps(db, RevokeRole(db, user, tenant).db)
  {
    DropMembersKeeps(db, SeatIs(user, tenant));
  }

  lemma ToggleKeeps(db: Db, scope: Option<nat>, name: string, raw: RawFlag, now: nat)
    requires Inv(db)
    ensures Keeps(db, SetFeature(db, scope, name, raw, now).db)
  {
    SetFeatureKeeps(db, scope, name, raw, now);
  }

  lemma PerformKeeps(db: Db, p: Post, caller: User)
    requires Inv(db) && IsTenant(db.tenants, p.tenant) && caller in db.users
    ensures Keeps(db, Perform(db, p, caller).0)
  {
    match p.payload
    case DefineRole(name, slug, weight, codes) => DefineKeeps(db, p.tenant, name, slug, weight, codes, p.now);
    case AssignTo(user, role) =>
      if u :| u in db.users && UserIs(user)(u) {
        AssignKeeps(db, user, p.tenant, role, caller.id, p.now);
      }
    case RevokeFrom(user) => RevokeKeeps(db, user, p.tenant);
    case Toggle(feature, raw) => ToggleKeeps(db, Some(p.tenant), feature, raw, p.now);
  }

  /** A role added to one tenant is not in the view of another. */
  lemma AddedRoleView(db: Db, r: Role, t: nat)
    requires r.tenant != t
    ensures ViewOf(AddRole(db, r), t) == ViewOf(db, t)
  {
    assert forall q: Role | q.tenant == t :: q in AddRole(db, r).roles <==> q in db.roles;
    assert forall id :: IsRoleOf(AddRole(db, r).roles, id, t) <==> IsRoleOf(db.roles, id, t);
  }

  lemma CreateRoleView(
    db: Db, tenant: nat, name: string, slug: string, weight: int, codes: seq<string>, now: nat, t: nat)
    requires Inv(db) && IsTenant(db.tenants, tenant) && t != tenant
    ensures ViewOf(CreateRole(db, tenant, name, slug, weight, codes, now).db, t) == ViewOf(db, t)
  {
    var out := CreateRole(db, tenant, name, slug, weight, codes, now);
    if out.result.Ok? {
      var r := out.result.value;
      AddedRoleView(db, r, t);
      if codes != [] {
        SetGrantsRows(db.grants, r.id, Where(db.permissions, CodeIn(codes)));
        assert !IsRoleOf(out.db.roles, r.id, t);
      }
    } else {
      CreateRoleKeeps(db, tenant, name, slug, weight, codes, now);
    }
  }

  lemma AssignRoleView(db: Db, user: nat, tenant: nat, slug: string, actor: Option<nat>, now: nat, t: nat)
    requires Inv(db) && t != tenant
    ensures ViewOf(AssignRole(db, user, tenant, slug, actor, now).db, t) == ViewOf(db, t)
  {
    var found := First(db.members, SeatIs(user, tenant));
    if found.Some? {
      assert SeatIs(user, tenant)(found.value);
      forall n | n in db.members && n.id == found.value.id ensures n == found.value {
        SameRow(db.members, MemberId, n, found.value);
      }
    }
    var db' := AssignRole(db, user, tenant, slug, actor, now).db;
    assert forall m: Membership | m.tenant == t :: m in db'.members <==> m in db.members;
  }

  lemma SetFeatureView(db: Db, tenant: nat, name: string, raw: RawFlag, now: nat, t: nat)
    requires Inv(db) && t != tenant
    ensures ViewOf(SetFeature(db, Some(tenant), name, raw, now).db, t) == ViewOf(db, t)
  {
    var db' := SetFeature(db, Some(tenant), name, raw, now).db;
    forall f: Flag | f.tenant != Some(tenant) ensures f in db'.flags <==> f in db.flags {
      OtherFlagRow(db, Some(tenant), name, raw, now, f);
    }
    OtherFlagsView(db, db', tenant, t);
  }

  /** A flag write leaves the rows of other tenants alone. */
  lemma OtherFlagRow(db: Db, scope: Option<nat>, name: string, raw: RawFlag, now: nat, f: Flag)
    requires Inv(db) && f.tenant != scope
    ensures f in SetFeature(db, scope, name, raw, now).db.flags <==> f in db.flags
  {
    var found := Where(db.flags, FlagIs(scope, name));
    if found != [] {
      assert found[0] in found;
      if f in db.flags && f.id == found[0].id {
        SameRow(db.flags, FlagId, f, found[0]);
      }
    }
  }

  lemma OtherFlagsView(db: Db, db': Db, tenant: nat, t: nat)
    requires t != tenant && db'.roles == db.roles && db'.grants == db.grants && db'.members == db.members
    requires forall f: Flag | f.tenant != Some(tenant) :: f in db'.flags <==> f in db.flags
    ensures ViewOf(db', t) == ViewOf(db, t)
  {
  }

  lemma RevokeRoleView(db: Db, user: nat, tenant: nat, t: nat)
    requires t != tenant
    ensures ViewOf(RevokeRole(db, user, tenant).db, t) == ViewOf(db, t)
  {
    assert forall m: Membership | m.tenant == t :: !SeatIs(user, tenant)(m);
  }

  /** A request changes a tenant's view only if it is addressed to that tenant by someone in charge
      of it at that moment. */
  lemma OnlyThoseInCharge(db: Db, p: Post, t: nat)
    requires Inv(db) && !(p.tenant == t && InCharge(db, p.req, t))
    ensures ViewOf(Handle(db, p).0, t) == ViewOf(db, t)
  {
    if Handle(db, p).0 != db {
      var x :| x in db.tenants && TenantIs(p.tenant)(x);
      assert p.tenant != t;
      match p.payload
      case DefineRole(name, slug, weight, codes) => CreateRoleView(db, p.tenant, name, slug, weight, codes, p.now, t);
      case AssignTo(user, role) =>
        AssignRoleView(db, user, p.tenant, role, Some(CallerOf(db, p.req).value.id), p.now, t);
      case RevokeFrom(user) => RevokeRoleView(db, user, p.tenant, t);
      case Toggle(feature, raw) => SetFeatureView(db, p.tenant, feature, raw, p.now, t);
    }
  }

  // ---- Answers depend on the view --------------------------------------------------------

  lemma RoleFromView(db: Db, db': Db, t: nat, user: nat)
    requires Inv(db) && Inv(db') && ViewOf(db, t) == ViewOf(db', t) && forall r | r in db.roles :: r in db'.roles
    ensures GetRole(db', user, t) == GetRole(db, user, t)
  {
    assert forall m: Membership | m.tenant == t :: m in db.members <==> m in ViewOf(db, t).members;
    assert forall m: Membership | m.tenant == t :: m in db'.members <==> m in ViewOf(db', t).members;
    SameSeat(db, db', user, t);
  }

  lemma InChargeFromView(db: Db, db': Db, t: nat, req: Request)
    requires Inv(db) && Inv(db') && ViewOf(db, t) == ViewOf(db', t) && forall r | r in db.roles :: r in db'.roles
    requires db'.users == db.users
    ensures InCharge(db', req, t) == InCharge(db, req, t)
  {
    var caller := CallerOf(db, req);
    if caller.Some? && !caller.value.isSuperuser {
      RoleFromView(db, db', t, caller.value.id);
      HasRoleIsLookup(db, caller.value, t, STAFF);
      HasRoleIsLookup(db', caller.value, t, STAFF);
    }
  }

  lemma PermissionFromView(db: Db, db': Db, t: nat, u: User, code: string)
    requires Inv(db) && ViewOf(db, t) == ViewOf(db', t) && db'.permissions == db.permissions
    requires HasPermission(db, Some(u), t, code)
    ensures HasPermission(db', Some(u), t, code)
  {
    if !u.isSuperuser {
      var m :| m in db.members && CodeJoin(db, u.id, t, code)(m);
      assert SeatIs(u.id, t)(m);
      GrantedJoin(db, m.role, code);
      GrantedJoin(db', m.role, code);
      GrantedFromView(db, db', t, m, code);
      assert m in ViewOf(db', t).members;
      assert CodeJoin(db', u.id, t, code)(m);
    }
  }

  lemma GrantedFromView(db: Db, db': Db, t: nat, m: Membership, code: string)
    requires Inv(db) && ViewOf(db, t) == ViewOf(db', t) && db'.permissions == db.permissions
    requires m in db.members && m.tenant == t && Granted(db, m.role, code)
    ensures m in ViewOf(db', t).members && Granted(db', m.role, code)
  {
    assert Seated(m, db.roles, db.users) && m in ViewOf(db, t).members;
    var g, p :| g in db.grants && p in db.permissions && g.role == m.role && g.permission == p.id && p.code == code;
    assert g in ViewOf(db, t).grants;
    assert g in db'.grants;
  }

  lemma FlagFromView(db: Db, db': Db, t: nat, scope: Option<nat>, name: string)
    requires Inv(db) && Inv(db') && ViewOf(db, t) == ViewOf(db', t) && (scope == Some(t) || scope == None)
    ensures First(db'.flags, FlagIs(scope, name)) == First(db.flags, FlagIs(scope, name))
  {
    var a, b := First(db.flags, FlagIs(scope, name)), First(db'.flags, FlagIs(scope, name));
    var v := if scope.Some? then ViewOf(db, t).own else ViewOf(db, t).global;
    assert forall f | FlagIs(scope, name)(f) :: (f in db.flags <==> f in v) && (f in db'.flags <==> f in v);
    if a.Some? {
      assert a.value in db'.flags;
      SameRow(db'.flags, FlagName, a.value, b.value);
    }
  }

  // ---- Runs ------------------------------------------------------------------------------

  function Serve(db: Db, posts: seq<Post>): Db {
    if posts == [] then db else Handle(Serve(db, posts[..|posts| - 1]), posts[|posts| - 1]).0
  }

  lemma {:induction false} ServeKeeps(db: Db, posts: seq<Post>, t: nat)
    requires Inv(db) && forall p | p in posts :: !InCharge(db, p.req, t)
    ensures var db' := Serve(db, posts);
      && Inv(db') && ViewOf(db', t) == ViewOf(db, t)
      && Preserves(db, db')
  {
    if posts != [] {
      var n := |posts| - 1;
      ServeKeeps(db, posts[..n], t);
      var before := Serve(db, posts[..n]);
      assert posts[n] in posts;
      InChargeFromView(db, before, t, posts[n].req);
      HandleKeeps(before, posts[n]);
      OnlyThoseInCharge(before, posts[n], t);
    }
  }

  /** Tenant isolation: whatever requests are served, in whatever order and to whatever tenants, if no
      caller is initially a superuser or an owner or admin of `t`, then the roles, grants,
      memberships and flags of `t` never change, and every permission and feature answer in `t` is
      the one it was. */
  lemma TenantIsolation(db: Db, posts: seq<Post>, t: nat, u: User, code: string, feature: string)
    requires Inv(db) && forall p | p in posts :: !InCharge(db, p.req, t)
    ensures var db' := Serve(db, posts);
      && ViewOf(db', t) == ViewOf(db, t)
      && GetRole(db', u.id, t) == GetRole(db, u.id, t)
      && HasPermission(db', Some(u), t, code) == HasPermission(db, Some(u), t, code)
      && IsFeatureActive(db'.flags, Some(t), feature) == IsFeatureActive(db.flags, Some(t), feature)
  {
    ServeKeeps(db, posts, t);
    var db' := Serve(db, posts);
    RoleFromView(db, db', t, u.id);
    if HasPermission(db, Some(u), t, code) {
      PermissionFromView(db, db', t, u, code);
    }
    if HasPermission(db', Some(u), t, code) {
      PermissionFromView(db', db, t, u, code);
    }
    FlagFromView(db, db', t, Some(t), feature);
    FlagFromView(db, db', t, None, feature);
  }
}
