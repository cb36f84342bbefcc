/** What a request to one of the mutating views is answered, and what it does. */
module ViewEffects {

  import opened Rows
  import opened AuthModel
  import opened Services
  import opened StoreInvariant
  import opened Queries
  import opened Gates
  import opened Isolation
  import opened ServiceEffects
  import TwoLogs

  ghost predicate SignedIn(db: Db, req: Request) {
    exists u | u in db.users :: req.caller == Some(u.id)
  }

  /** The tenant is there, and the caller is a superuser or holds its owner or admin role. */
  ghost predicate MayPost(db: Db, req: Request, tenant: nat) {
    IsTenant(db.tenants, tenant) &&
    exists u | u in db.users ::
      req.caller == Some(u.id) &&
      (u.isSuperuser || GetRole(db, u.id, tenant) in [Some("owner"), Some("admin")])
  }

  /** The serializer refuses the body, it names a user that is not there, or a feature without a name. */
  ghost predicate BadBody(db: Db, p: Post) {
    !p.valid ||
    match p.payload
    case DefineRole(_, _, _, _) => false
    case AssignTo(user, _) => !IsUser(db.users, user)
    case RevokeFrom(user) => !IsUser(db.users, user)
    case Toggle(feature, _) => feature == ""
  }

  /** When each refusal is given: 401 to a caller who is not a user, 403 to a user who may not post there, 400 to a
      body that cannot be used, and 404 never, because the gate answers for a tenant that is not there. A refusal
      changes nothing. */
  lemma AnswerExact(db: Db, p: Post)
    requires Inv(db)
    ensures var (db', status) := Handle(db, p);
      && (status == Unauthorized <==> !SignedIn(db, p.req))
      && (status == Forbidden <==> SignedIn(db, p.req) && !MayPost(db, p.req, p.tenant))
      && status != NotFound404
      && (status == BadRequest <==> MayPost(db, p.req, p.tenant) && BadBody(db, p))
      && (!MayPost(db, p.req, p.tenant) || BadBody(db, p) ==> db' == db)
  {
    if u :| u in db.users && p.req.caller == Some(u.id) {
      CallerIs(db, p.req, u);
      GateExact(db, p, u);
      if MayPost(db, p.req, p.tenant) {
        PassesGates(db, p, u);
        if p.valid {
          PerformRefusal(db, p, u);
        }
      }
    }
  }

  lemma SameCaller(db: Db, req: Request, u: User, v: User)
    requires Inv(db) && u in db.users && v in db.users && req.caller == Some(u.id) && req.caller == Some(v.id)
    ensures u == v
  {
    SameRow(db.users, UserId, u, v);
  }

  lemma LeadsExact(db: Db, u: User, tenant: nat)
    requires Inv(db)
    ensures HasRole(db, Some(u), tenant, STAFF) <==>
      u.isSuperuser || GetRole(db, u.id, tenant) in [Some("owner"), Some("admin")]
  {
    if !u.isSuperuser {
      HasRoleIsLookup(db, u, tenant, STAFF);
    } else {
      HasRoleExact(db, Some(u), tenant, STAFF);
    }
  }

  /** A wider role list lets nobody in who could not pass the check in the view. */
  lemma StaffAmong(db: Db, u: User, tenant: nat, slugs: seq<string>)
    requires HasRole(db, Some(u), tenant, STAFF) && forall s | s in STAFF :: s in slugs
    ensures HasRole(db, Some(u), tenant, slugs)
  {
    HasRoleExact(db, Some(u), tenant, STAFF);
    HasRoleExact(db, Some(u), tenant, slugs);
  }

  /** Both role checks together. */
  lemma GateExact(db: Db, p: Post, u: User)
    requires Inv(db) && CallerOf(db, p.req) == Some(u) && u in db.users && p.req.caller == Some(u.id)
    ensures var passes :=
        && HasRolePermission(db, RequiredRoles(p.payload), Some(p.tenant), p.req)
        && (p.payload.DefineRole? ==> HasRole(db, Some(u), p.tenant, STAFF));
      passes <==> MayPost(db, p.req, p.tenant)
    ensures HasRolePermission(db, RequiredRoles(p.payload), Some(p.tenant), p.req) ==>
      Exists(db.tenants, TenantIs(p.tenant))
  {
    TenantPriority(db, Some(p.tenant), p.req);
    LeadsExact(db, u, p.tenant);
    if HasRole(db, Some(u), p.tenant, STAFF) {
      StaffAmong(db, u, p.tenant, RequiredRoles(p.payload));
    }
    forall v | v in db.users && p.req.caller == Some(v.id) ensures v == u {
      SameCaller(db, p.req, u, v);
    }
  }

  lemma PassesGates(db: Db, p: Post, u: User)
    requires Inv(db) && u in db.users && p.req.caller == Some(u.id) && MayPost(db, p.req, p.tenant)
    ensures Handle(db, p) == if p.valid then Perform(db, p, u) else (db, BadRequest)
  {
    CallerIs(db, p.req, u);
    GateExact(db, p, u);
  }

  lemma UserThere(db: Db, user: nat)
    ensures Exists(db.users, UserIs(user)) <==> IsUser(db.users, user)
  {
    assert forall u: User :: UserIs(user)(u) <==> u.id == user;
  }

  /** The view gives 400 exactly for the bodies that it cannot use. */
  lemma PerformRefusal(db: Db, p: Post, u: User)
    requires p.valid
    ensures Perform(db, p, u).1 == BadRequest <==> BadBody(db, p)
    ensures Perform(db, p, u).1 !in [Unauthorized, Forbidden, NotFound404]
    ensures BadBody(db, p) ==> Perform(db, p, u).0 == db
  {
    match p.payload
    case AssignTo(user, _) => UserThere(db, user);
    case RevokeFrom(user) => UserThere(db, user);
    case _ =>
  }

  /** A request that may change the store: by the user `caller`, who may post there, with a usable body. */
  ghost predicate Admitted(db: Db, p: Post, caller: nat) {
    Inv(db) && p.req.caller == Some(caller) && MayPost(db, p.req, p.tenant) && !BadBody(db, p)
  }

  lemma AdmittedRuns(db: Db, p: Post, caller: nat)
    requires Admitted(db, p, caller)
    ensures exists u | u in db.users :: u.id == caller && Handle(db, p) == Perform(db, p, u)
  {
    var u :| u in db.users && p.req.caller == Some(u.id);
    PassesGates(db, p, u);
  }

  // ---- The four views --------------------------------------------------------------------

  /** An assignment that is admitted seats the named user, in the tenant of the URL, with the named role, assigned by
      the caller; every other seat stays. It fails, without effect, exactly when the tenant has no such role. */
  lemma AssignToServed(db: Db, p: Post, caller: nat)
    requires Admitted(db, p, caller) && p.payload.AssignTo?
    ensures var (db', status) := Handle(db, p); var user, role := p.payload.user, p.payload.role;
      && (status == Success <==> exists r | r in db.roles :: r.tenant == p.tenant && r.slug == role)
      && (status != Success ==> status == Failed(NotFound) && db' == db)
      && (status == Success ==>
          && GetRole(db', user, p.tenant) == Some(role)
          && (exists m :: Reseated(db, db', m, user, p.tenant, role, Some(caller), p.now))
          && db'.events == db.events + [RoleAssigned(user, p.tenant, role, Some(caller))])
      && OnlySeatsChange(db, db') && OtherRolesStay(db, db', user, p.tenant)
  {
    AdmittedRuns(db, p, caller);
    AssignRoleExact(db, p.payload.user, p.tenant, p.payload.role, Some(caller), p.now);
    UserThere(db, p.payload.user);
  }

  /** A revocation that is admitted succeeds and leaves the named user without a seat in the tenant of the URL; every
      other seat stays. */
  lemma RevokeFromServed(db: Db, p: Post, caller: nat)
    requires Admitted(db, p, caller) && p.payload.RevokeFrom?
    ensures var (db', status) := Handle(db, p); var user := p.payload.user;
      && status == Success && GetRole(db', user, p.tenant) == None
      && (forall m :: m in db'.members <==> m in db.members && !(m.user == user && m.tenant == p.tenant))
      && OnlySeatsChange(db, db') && OtherRolesStay(db, db', user, p.tenant)
  {
    AdmittedRuns(db, p, caller);
    RevokeRoleExact(db, p.payload.user, p.tenant);
    UserThere(db, p.payload.user);
  }

  /** The role is added with exactly these codes, and the others keep theirs. */
  ghost predicate RoleDefined(db: Db, db': Db, r: Role, codes: seq<string>) {
    && db'.roles == db.roles + [r]
    && (forall c :: Granted(db', r.id, c) <==> c in codes)
    && (forall q, c | q in db.roles :: Granted(db', q.id, c) <==> Granted(db, q.id, c))
  }

  /** The slug is free in the tenant, the columns take the values and every code is that of a permission. */
  ghost predicate Definable(db: Db, tenant: nat, name: string, slug: string, weight: int, codes: seq<string>) {
    && (forall r | r in db.roles :: !(r.tenant == tenant && r.slug == slug))
    && RoleStorable(name, slug, weight) && AllClean(codes)
    && (forall c | c in codes :: exists p | p in db.permissions :: p.code == c)
  }

  lemma DefinableExact(db: Db, tenant: nat, name: string, slug: string, weight: int, codes: seq<string>)
    ensures Definable(db, tenant, name, slug, weight, codes) <==>
      !Exists(db.roles, RoleIs(tenant, slug)) && RoleStorable(name, slug, weight) && AllClean(codes) &&
      forall c | c in codes :: Exists(db.permissions, CodeIs(c))
  {
    assert forall r: Role :: RoleIs(tenant, slug)(r) <==> r.tenant == tenant && r.slug == slug;
    forall c ensures Exists(db.permissions, CodeIs(c)) <==> exists p | p in db.permissions :: p.code == c {
      assert forall p: Permission :: CodeIs(c)(p) <==> p.code == c;
    }
  }

  /** A role definition that is admitted adds the role described to the tenant of the URL, with exactly the codes asked
      for, exactly when that can be done. */
  lemma DefineRoleServed(db: Db, p: Post, caller: nat, name: string, slug: string, weight: int, codes: seq<string>)
    requires Admitted(db, p, caller) && p.payload == DefineRole(name, slug, weight, codes)
    ensures var (db', status) := Handle(db, p);
      && (status == Success <==> Definable(db, p.tenant, name, slug, weight, codes))
      && (status == Success ==>
          exists id, w :: w == weight && RoleDefined(db, db', Role(id, p.tenant, name, slug, false, w, p.now), codes))
  {
    AdmittedRuns(db, p, caller);
    DefinableExact(db, p.tenant, name, slug, weight, codes);
    RoleCreated(db, p.tenant, name, slug, weight, codes, p.now);
  }

  lemma RoleCreated(db: Db, tenant: nat, name: string, slug: string, weight: int, codes: seq<string>, now: nat)
    requires Inv(db) && IsTenant(db.tenants, tenant)
    ensures var out := CreateRole(db, tenant, name, slug, weight, codes, now);
      && (out.result.Ok? <==>
          !Exists(db.roles, RoleIs(tenant, slug)) && RoleStorable(name, slug, weight) && AllClean(codes) &&
          forall c | c in codes :: Exists(db.permissions, CodeIs(c)))
      && (out.result.Ok? ==>
          exists id, w :: w == weight && RoleDefined(db, out.db, Role(id, tenant, name, slug, false, w, now), codes))
  {
    CreateRoleAllOrNothing(db, tenant, name, slug, weight, codes, now);
    var out := CreateRole(db, tenant, name, slug, weight, codes, now);
    if out.result.Ok? {
      var r := out.result.value;
      assert RoleDefined(db, out.db, Role(r.id, tenant, name, slug, false, r.weight, now), codes);
    }
  }

  /** Only the evaluation of one feature for one tenant is set. */
  ghost predicate Toggled(db: Db, db': Db, tenant: nat, feature: string, active: bool) {
    && IsFeatureActive(db'.flags, Some(tenant), feature) == active
    && forall t: Option<nat>, n: string | (t, n) != (Some(tenant), feature) ::
      IsFeatureActive(db'.flags, t, n) == IsFeatureActive(db.flags, t, n)
  }

  /** A toggle that is admitted sets the feature for the tenant of the URL, whatever the global flag says, and leaves
      every other evaluation as it was; it does so exactly when the value is a Boolean one and the column takes the
      name, and otherwise has no effect. */
  lemma ToggleServed(db: Db, p: Post, caller: nat, feature: string, raw: RawFlag)
    requires Admitted(db, p, caller) && p.payload == Toggle(feature, raw)
    ensures var (db', status) := Handle(db, p);
      && (status == Success <==> ToPython(raw).Some? && FlagNameOk(db.flags, Some(p.tenant), feature))
      && (status == Success ==> Toggled(db, db', p.tenant, feature, ToPython(raw).value))
      && (status != Success ==> db' == db)
  {
    AdmittedRuns(db, p, caller);
    FeatureSet(db, p.tenant, feature, raw, p.now);
  }

  lemma FeatureSet(db: Db, tenant: nat, feature: string, raw: RawFlag, now: nat)
    requires Inv(db)
    ensures var out := SetFeature(db, Some(tenant), feature, raw, now);
      && (out.result.Ok? <==> ToPython(raw).Some? && FlagNameOk(db.flags, Some(tenant), feature))
      && (out.result.Ok? ==> Toggled(db, out.db, tenant, feature, ToPython(raw).value))
      && (out.result.Err? ==> out.db == db)
  {
    SetFeatureFrame(db, Some(tenant), feature, raw, now, Some(tenant), feature);
    var db' := SetFeature(db, Some(tenant), feature, raw, now).db;
    forall t: Option<nat>, n: string | (t, n) != (Some(tenant), feature)
      ensures IsFeatureActive(db'.flags, t, n) == IsFeatureActive(db.flags, t, n)
    {
      SetFeatureFrame(db, Some(tenant), feature, raw, now, t, n);
    }
  }

  // ---- Runs of requests ------------------------------------------------------------------

  /** The request assigns or revokes a role of this user in this tenant. */
  predicate Concerns(p: Post, user: nat, tenant: nat) {
    p.tenant == tenant &&
    ((p.payload.AssignTo? && p.payload.user == user) || (p.payload.RevokeFrom? && p.payload.user == user))
  }

  lemma UnconcernedKeeps(db: Db, p: Post, user: nat, tenant: nat)
    requires Inv(db) && !Concerns(p, user, tenant)
    ensures GetRole(Handle(db, p).0, user, tenant) == GetRole(db, user, tenant)
  {
    AnswerExact(db, p);
    if MayPost(db, p.req, p.tenant) && !BadBody(db, p) {
      var caller := p.req.caller.value;
      match p.payload
      case AssignTo(_, _) => AssignToServed(db, p, caller);
      case RevokeFrom(_) => RevokeFromServed(db, p, caller);
      case _ =>
        HandleKeeps(db, p);
        AdmittedRuns(db, p, caller);
        TwoLogs.SameMembers(db, Handle(db, p).0, user, tenant);
    }
  }

  /** The last request about a seat decides: once an admitted assignment is served, the user has its role until another
      request about the same user and tenant is served, whatever else is served in between. */
  lemma {:induction false} LastRequestDecides(db: Db, p: Post, caller: nat, later: seq<Post>)
    requires Admitted(db, p, caller) && p.payload.AssignTo? && Handle(db, p).1 == Success
    requires forall q | q in later :: !Concerns(q, p.payload.user, p.tenant)
    ensures var db' := Serve(Handle(db, p).0, later);
      Inv(db') && GetRole(db', p.payload.user, p.tenant) == Some(p.payload.role)
  {
    HandleKeeps(db, p);
    AssignToServed(db, p, caller);
    LaterRequestsKeep(Handle(db, p).0, later, p.payload.user, p.tenant);
  }

  lemma {:induction false} LaterRequestsKeep(db: Db, posts: seq<Post>, user: nat, tenant: nat)
    requires Inv(db) && forall q | q in posts :: !Concerns(q, user, tenant)
    ensures Inv(Serve(db, posts)) && GetRole(Serve(db, posts), user, tenant) == GetRole(db, user, tenant)
  {
    if posts != [] {
      var n := |posts| - 1;
      LaterRequestsKeep(db, posts[..n], user, tenant);
      HandleKeeps(Serve(db, posts[..n]), posts[n]);
      UnconcernedKeeps(Serve(db, posts[..n]), posts[n], user, tenant);
    }
  }
}
