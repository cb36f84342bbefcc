/** The mutating views at work on the store object. */
module Views {

  import opened Rows
  import opened AuthModel
  import opened AuthStore
  import Gates
  import opened Isolation
  import Queries
  import StoreInvariant

  method HasRole(store: Store, caller: Option<User>, tenant: nat, slugs: seq<string>) returns (held: bool)
    ensures held == Queries.HasRole(store.Value(), caller, tenant, slugs)
  {
    if caller.None? {
      return false;
    }
    if caller.value.isSuperuser {
      return true;
    }
    var roles, user := store.roles, caller.value.id;
    var joined := (m: Membership) =>
      SeatIs(user, tenant)(m) && Exists(roles, Queries.RoleAmong(m.role, slugs));
    held := Exists(store.members, joined);
    SameJoin(store.Value(), user, tenant, slugs, joined);
  }

  lemma SameJoin(db: Db, user: nat, tenant: nat, slugs: seq<string>, joined: Membership -> bool)
    requires forall m :: joined(m) <==>
      SeatIs(user, tenant)(m) && Exists(db.roles, Queries.RoleAmong(m.role, slugs))
    ensures Exists(db.members, joined) == Exists(db.members, Queries.SlugJoin(db, user, tenant, slugs))
  {
    assert forall m :: joined(m) <==> Queries.SlugJoin(db, user, tenant, slugs)(m);
  }

  method ResolveTenant(store: Store, keyword: Option<nat>, req: Gates.Request) returns (tenant: Option<nat>)
    ensures tenant == Gates.ResolveTenant(store.Value(), keyword, req)
  {
    var id := if keyword.Some? then keyword else req.header;
    if id.Some? {
      if Exists(store.tenants, TenantIs(id.value)) {
        return id;
      }
      return None;
    }
    tenant := req.hostTenant;
  }

  method FindCaller(store: Store, req: Gates.Request) returns (caller: Option<User>)
    ensures caller == Gates.CallerOf(store.Value(), req)
  {
    caller := None;
    if req.caller.Some? {
      caller := First(store.users, UserIs(req.caller.value));
    }
  }

  /** `HasRolePermission.has_permission`. */
  method CheckRole(store: Store, required: seq<string>, keyword: Option<nat>, req: Gates.Request)
    returns (allowed: bool)
    ensures allowed == Gates.HasRolePermission(store.Value(), required, keyword, req)
  {
    if required == [] {
      return true;
    }
    var tenant := ResolveTenant(store, keyword, req);
    if tenant.None? {
      return false;
    }
    var caller := FindCaller(store, req);
    if caller.None? {
      return false;
    }
    allowed := HasRole(store, caller, tenant.value, required);
  }

  /** A request through authentication, the role gate and the view. */
  method Respond(store: Store, p: Post) returns (status: Status)
    modifies store
    ensures (store.Value(), status) == Handle(old(store.Value()), p)
  {
    var caller := FindCaller(store, p.req);
    if caller.None? {
      return Unauthorized;
    }
    var allowed := CheckRole(store, RequiredRoles(p.payload), Some(p.tenant), p.req);
    if !allowed {
      return Forbidden;
    }
    if !Exists(store.tenants, TenantIs(p.tenant)) {
      return NotFound404;
    }
    if p.payload.DefineRole? {
      var inCharge := HasRole(store, caller, p.tenant, STAFF);
      if !inCharge {
        return Forbidden;
      }
    }
    if !p.valid {
      return BadRequest;
    }
    status := RunView(store, p, caller.value);
  }

  method RunView(store: Store, p: Post, caller: User) returns (status: Status)
    modifies store
    ensures (store.Value(), status) == Perform(old(store.Value()), p, caller)
  {
    match p.payload
    case DefineRole(name, slug, weight, codes) =>
      var made := store.CreateRole(p.tenant, name, slug, weight, codes, p.now);
      status := StatusOf(made);
    case AssignTo(user, role) =>
      if !Exists(store.users, UserIs(user)) {
        return BadRequest;
      }
      var seated := store.AssignRole(user, p.tenant, role, Some(caller.id), p.now);
      status := StatusOf(seated);
    case RevokeFrom(user) =>
      if !Exists(store.users, UserIs(user)) {
        return BadRequest;
      }
      var _ := store.RevokeRole(user, p.tenant);
      status := Success;
    case Toggle(feature, raw) =>
      if feature == "" {
        return BadRequest;
      }
      var written := store.SetFeature(Some(p.tenant), feature, raw, p.now);
      status := StatusOf(written);
  }

  /** In a store that is as it should be, no caller of the requests is in charge of the tenant. */
  ghost predicate Outsiders(db: Db, posts: seq<Post>, t: nat) {
    StoreInvariant.Inv(db) && forall p | p in posts :: !InCharge(db, p.req, t)
  }

  /** Requests served one after the other. For a tenant that no caller is in charge of, nothing that an
      authorization answer depends on changes. */
  method ServeAll(store: Store, posts: seq<Post>, ghost t: nat)
    modifies store
    ensures store.Value() == Serve(old(store.Value()), posts)
    ensures Outsiders(old(store.Value()), posts, t) ==> ViewOf(store.Value(), t) == ViewOf(old(store.Value()), t)
  {
    for i := 0 to |posts|
      invariant store.Value() == Serve(old(store.Value()), posts[..i])
    {
      var _ := Respond(store, posts[i]);
      assert posts[..i + 1][..i] == posts[..i];
    }
    assert posts[..|posts|] == posts;
    if Outsiders(old(store.Value()), posts, t) {
      ServeKeeps(old(store.Value()), posts, t);
    }
  }
}
