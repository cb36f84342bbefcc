/** The authorization gates of the server, and the client-side guard fed by the user's context. */
module Gates {

  import opened Rows
  import opened AuthModel
  import opened StoreInvariant
  import opened Queries
  import Runs

  // ---- Server ----------------------------------------------------------------------------

  /** What a gate sees of a request: the caller's id, the tenant header, and the tenant that the
      middleware resolved from the host. */
  datatype Request = Request(caller: Option<nat>, header: Option<nat>, hostTenant: Option<nat>)

  function CallerOf(db: Db, req: Request): Option<User> {
    if req.caller.None? then None else First(db.users, UserIs(req.caller.value))
  }

  /** URL keyword first, then the header, then the host. */
  function ResolveTenant(db: Db, keyword: Option<nat>, req: Request): Option<nat> {
    var id := if keyword.Some? then keyword else req.header;
    if id.None? then req.hostTenant
    else if Exists(db.tenants, TenantIs(id.value)) then id
    else None
  }

  predicate HasRolePermission(db: Db, required: seq<string>, keyword: Option<nat>, req: Request) {
    required == [] ||
    var tenant := ResolveTenant(db, keyword, req);
    tenant.Some? && CallerOf(db, req).Some? && HasRole(db, CallerOf(db, req), tenant.value, required)
  }

  /** The decorator lets the view run. */
  predicate RequireRole(db: Db, roles: seq<string>, keyword: Option<nat>, req: Request) {
    var tenant := ResolveTenant(db, keyword, req);
    tenant.Some? && HasRole(db, CallerOf(db, req), tenant.value, roles)
  }

  /** With a tenant in the URL, neither the header nor the host can change a decision, and the two
      role gates decide the same. */
  lemma UrlTenantDecides(db: Db, roles: seq<string>, tenant: nat, req: Request, other: Request)
    requires req.caller == other.caller && roles != []
    ensures HasRolePermission(db, roles, Some(tenant), req) == HasRolePermission(db, roles, Some(tenant), other)
    ensures HasRolePermission(db, roles, Some(tenant), req) == RequireRole(db, roles, Some(tenant), req)
    ensures HasRolePermission(db, roles, Some(tenant), req) ==> Exists(db.tenants, TenantIs(tenant))
  {
  }

  /** Where the tenant of a request comes from: the URL first, then the header, then the host. An identifier from
      the URL or the header that no tenant has gives none, and nothing further is tried. */
  lemma TenantPriority(db: Db, keyword: Option<nat>, req: Request)
    ensures keyword.Some? ==>
      ResolveTenant(db, keyword, req) == if IsTenant(db.tenants, keyword.value) then keyword else None
    ensures keyword.None? && req.header.Some? ==>
      ResolveTenant(db, keyword, req) == if IsTenant(db.tenants, req.header.value) then req.header else None
    ensures keyword.None? && req.header.None? ==> ResolveTenant(db, keyword, req) == req.hostTenant
  {
    var id := if keyword.Some? then keyword else req.header;
    if id.Some? {
      assert forall t: Tenant :: TenantIs(id.value)(t) <==> t.id == id.value;
    }
  }

  /** The user is a superuser, or has a membership in the tenant whose role is one of those listed. */
  ghost predicate Qualifies(db: Db, u: User, tenant: nat, slugs: seq<string>) {
    u.isSuperuser ||
    exists m, r | m in db.members && r in db.roles ::
      m.user == u.id && m.tenant == tenant && m.role == r.id && r.slug in slugs
  }

  /** The two role gates, in terms of rows. The decorator lets a request through exactly when it has a tenant and its
      caller qualifies there; the permission class does too when nothing is required. */
  lemma RoleGatesExact(db: Db, required: seq<string>, keyword: Option<nat>, req: Request)
    requires Inv(db)
    ensures var tenant := ResolveTenant(db, keyword, req);
      && (RequireRole(db, required, keyword, req) <==>
          tenant.Some? &&
          exists u | u in db.users :: req.caller == Some(u.id) && Qualifies(db, u, tenant.value, required))
      && (HasRolePermission(db, required, keyword, req) <==>
          required == [] || RequireRole(db, required, keyword, req))
  {
    var tenant := ResolveTenant(db, keyword, req);
    forall u | u in db.users && req.caller == Some(u.id) ensures CallerOf(db, req) == Some(u) {
      CallerIs(db, req, u);
    }
    if tenant.Some? {
      HasRoleExact(db, CallerOf(db, req), tenant.value, required);
    }
  }

  /** The caller of a request is the user with its id. */
  lemma CallerIs(db: Db, req: Request, u: User)
    requires Inv(db)
    ensures CallerOf(db, req) == Some(u) <==> u in db.users && req.caller == Some(u.id)
  {
    if u in db.users && req.caller == Some(u.id) {
      assert UserIs(u.id)(u);
      SameRow(db.users, UserId, u, First(db.users, UserIs(u.id)).value);
    }
  }

  /** An empty requirement is the string "". */
  predicate IsTenantAuthorized(db: Db, tenant: Option<nat>, caller: Option<User>, feature: string, permission: string) {
    tenant.Some? &&
    (feature != "" ==> IsFeatureActive(db.flags, tenant, feature)) &&
    (permission != "" ==> HasPermission(db, caller, tenant.value, permission))
  }

  // ---- The user's context and the client -------------------------------------------------

  datatype RoleInfo = RoleInfo(id: nat, name: string, slug: string, weight: nat)

  datatype AuthContext = AuthContext(role: Option<RoleInfo>, permissions: seq<string>, features: seq<string>)

  /** The answer of the `/me/` endpoint. */
  function Me(db: Db, user: nat, tenant: nat): AuthContext {
    var r := GetRoleObject(db, user, tenant);
    AuthContext(
      if r.None? then None else Some(RoleInfo(r.value.id, r.value.name, r.value.slug, r.value.weight)),
      GetUserPermissions(db, user, tenant),
      GetActiveFeatures(db.flags, Some(tenant)))
  }

  const NO_CONTEXT := AuthContext(None, [], [])

  /** The provider component: the last context, and whether a fetch is under way. */
  class AuthProvider {
    var state: AuthContext
    var isLoading: bool
    var failed: bool

    constructor ()
      ensures state == NO_CONTEXT && isLoading && !failed
    {
      state, isLoading, failed := NO_CONTEXT, true, false;
    }

    /** `loadContext`; `answer` is None when the request fails. A failed fetch keeps the context of
        the previous one, whichever tenant that was for. */
    method LoadContext(tenantId: string, token: string, answer: Option<AuthContext>)
      modifies this
      ensures tenantId != "" && token != "" && answer.Some? ==> state == answer.value && !failed
      ensures tenantId != "" && token != "" && answer.None? ==> state == old(state) && failed
      ensures tenantId == "" || token == "" ==> state == old(state) && failed == old(failed)
      ensures !isLoading
    {
      if tenantId == "" || token == "" {
        isLoading := false;
        return;
      }
      isLoading := true;
      failed := false;
      if answer.Some? {
        state := answer.value;
      } else {
        failed := true;
      }
      isLoading := false;
    }
  }

  /** `Guard` renders its children. */
  predicate GuardShows(context: AuthContext, isLoading: bool, feature: string, permission: string) {
    if isLoading then false
    else if feature != "" && feature !in context.features then false
    else if permission != "" && permission !in context.permissions then false
    else true
  }

  /** The answer of the endpoint, in terms of rows: the role of the user's membership in the tenant, if any; the codes
      granted to that role and no others, each once; and the features that are on, each once. */
  lemma MeExact(db: Db, user: nat, tenant: nat)
    requires Inv(db)
    ensures var me := Me(db, user, tenant);
      && (me.role.None? <==> forall m | m in db.members :: !(m.user == user && m.tenant == tenant))
      && (forall m, r | m in db.members && r in db.roles && m.user == user && m.tenant == tenant && m.role == r.id ::
          me.role == Some(RoleInfo(r.id, r.name, r.slug, r.weight)))
      && (forall code :: code in me.permissions <==>
          exists m | m in db.members :: m.user == user && m.tenant == tenant && Granted(db, m.role, code))
      && Distinct(me.permissions, Itself)
      && (forall name :: name in me.features <==> IsFeatureActive(db.flags, Some(tenant), name))
      && Distinct(me.features, Itself)
  {
    RoleObjectExact(db, user, tenant);
    UserPermissionsExact(db, user, tenant);
    forall name ensures name in GetActiveFeatures(db.flags, Some(tenant)) <==>
      IsFeatureActive(db.flags, Some(tenant), name)
    {
      MergedListIsPointQuery(db.flags, Some(tenant), name);
    }
    MergedListIsPointQuery(db.flags, Some(tenant), "");
  }

  /** The combined check: there is a tenant, the feature asked for is on there, and the permission asked for is held;
      for a superuser the last is always so, and for an anonymous caller never. */
  lemma TenantAuthorizedExact(db: Db, tenant: Option<nat>, caller: Option<User>, feature: string, permission: string)
    requires Inv(db)
    ensures var allowed := IsTenantAuthorized(db, tenant, caller, feature, permission);
      && (tenant.None? ==> !allowed)
      && (tenant.Some? ==>
          var on := feature == "" || feature in GetActiveFeatures(db.flags, tenant);
          && (permission == "" ==> (allowed <==> on))
          && (permission != "" && caller.None? ==> !allowed)
          && (permission != "" && caller.Some? && caller.value.isSuperuser ==> (allowed <==> on))
          && (permission != "" && caller.Some? && !caller.value.isSuperuser ==>
              (allowed <==> on && permission in GetUserPermissions(db, caller.value.id, tenant.value))))
  {
    if tenant.Some? {
      MergedListIsPointQuery(db.flags, tenant, feature);
      HasPermissionExact(db, caller, tenant.value, permission);
      if caller.Some? && !caller.value.isSuperuser {
        HasPermissionIsLookup(db, caller.value, tenant.value, permission);
      }
    }
  }

  /** The client guard refines the server gate: on a fresh context it shows its children exactly when
      the server would allow them, except that it does not know a superuser's unlisted permissions; while a context
      is being fetched it shows nothing. */
  lemma GuardRefinesGate(db: Db, u: User, tenant: nat, feature: string, permission: string)
    requires Inv(db)
    ensures !GuardShows(Me(db, u.id, tenant), true, feature, permission)
    ensures var shows := GuardShows(Me(db, u.id, tenant), false, feature, permission);
      var allowed := IsTenantAuthorized(db, Some(tenant), Some(u), feature, permission);
      && (!u.isSuperuser ==> (shows <==> allowed))
      && (u.isSuperuser ==>
          (shows <==> allowed && (permission == "" || permission in GetUserPermissions(db, u.id, tenant))))
  {
    MergedListIsPointQuery(db.flags, Some(tenant), feature);
    if !u.isSuperuser {
      HasPermissionIsLookup(db, u, tenant, permission);
    }
  }

  /** The same in every state that a run of service calls reaches, whatever it did to the log. */
  lemma GuardInEveryRun(steps: seq<Runs.Step>, u: User, tenant: nat, feature: string, permission: string)
    requires Runs.AlwaysEnabled(steps) && !u.isSuperuser
    ensures var db := Runs.Exec(EMPTY, steps);
      GuardShows(Me(db, u.id, tenant), false, feature, permission) <==>
      IsTenantAuthorized(db, Some(tenant), Some(u), feature, permission)
  {
    Runs.RunInv(steps);
    GuardRefinesGate(Runs.Exec(EMPTY, steps), u, tenant, feature, permission);
  }
}
