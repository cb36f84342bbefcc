/** Runs of service calls: the invariant, and replaying the change log forward and backward. */
module Runs {

  import opened Rows
  import opened Text
  import opened DeltaLog
  import opened AuthModel
  import opened Services
  import opened StoreInvariant
  import opened AuditReplay
  import opened Seeding

  datatype Call =
    | RegisterUserCall(username: string, email: string, superuser: bool)
    | CreatePermissionCall(code: string, description: string)
    | CreateTenantCall(name: string, schemaName: string, domain: string, isPrimary: bool)
    | DefaultRolesCall(tenant: nat)
    | CreateRoleCall(tenant: nat, name: string, slug: string, weight: int, codes: seq<string>)
    | AssignRoleCall(user: nat, tenant: nat, slug: string, actor: Option<nat>)
    | RevokeRoleCall(user: nat, tenant: nat)
    | SetFeatureCall(scope: Option<nat>, name: string, raw: RawFlag)
    | AnonymizeCall(account: User, tag: string)
    | HardDeleteCall(user: nat)
    | SeedCall

  /** A call and the time at which it runs. */
  datatype Step = Step(call: Call, now: nat)

  function Next(db: Db, s: Step): Db {
    match s.call
    case RegisterUserCall(username, email, superuser) => RegisterUser(db, username, email, superuser).db
    case CreatePermissionCall(code, description) => CreatePermission(db, code, description).db
    case CreateTenantCall(name, schemaName, domain, isPrimary) =>
      CreateTenant(db, name, schemaName, domain, isPrimary, s.now).db
    case DefaultRolesCall(tenant) => EnsureRoles(db, tenant, DEFAULT_ROLES, s.now)
    case CreateRoleCall(tenant, name, slug, weight, codes) =>
      CreateRole(db, tenant, name, slug, weight, codes, s.now).db
    case AssignRoleCall(user, tenant, slug, actor) => AssignRole(db, user, tenant, slug, actor, s.now).db
    case RevokeRoleCall(user, tenant) => RevokeRole(db, user, tenant).db
    case SetFeatureCall(scope, name, raw) => SetFeature(db, scope, name, raw, s.now).db
    case AnonymizeCall(account, tag) => Anonymize(db, account, tag).db
    case HardDeleteCall(user) => HardDelete(db, user).db
    case SeedCall => Seed(db, s.now).db
  }

  /** The users and tenants that a caller passes are rows of the store. */
  ghost predicate Enabled(db: Db, c: Call) {
    match c
    case DefaultRolesCall(tenant) => IsTenant(db.tenants, tenant)
    case CreateRoleCall(tenant, _, _, _, _) => IsTenant(db.tenants, tenant)
    case AssignRoleCall(user, _, _, actor) =>
      IsUser(db.users, user) && (actor.Some? ==> IsUser(db.users, actor.value))
    case AnonymizeCall(account, _) => account in db.users
    case HardDeleteCall(user) => IsUser(db.users, user)
    case _ => true
  }

  /** The seeder inserted a demo tenant, with its roles, before it failed. */
  ghost predicate Inserted(db: Db, inside: Db) {
    exists spec | spec in DEMO_TENANTS :: IsTenant(inside.tenants, spec.id) && !IsTenant(db.tenants, spec.id)
  }

  /** The tenant will be inserted, with its roles, and its domain will be refused. */
  predicate DomainFailsLate(db: Db, name: string, schemaName: string, domain: string) {
    var slug, host := Slugs.Normal(schemaName), Lower(Strip(domain));
    Slugs.IsSlug(slug) && TenantInsertable(db, Strip(name), slug, host) && |host| > HOST_LIMIT
  }

  predicate AnonymizeGivenUp(db: Db, account: User, tag: string) {
    Exists(db.users, OtherNamed(account.id, "deleted_" + tag)) && Exists(db.members, HeldBy(account.id))
  }

  ghost predicate SeedGivenUp(db: Db, now: nat) {
    SeedInside(db, now).result.Err? && Inserted(db, SeedInside(db, now).db)
  }

  /** The call gives up an atomic block that had already sent deltas to the worker. */
  ghost predicate Leaks(db: Db, s: Step) {
    match s.call
    case CreateTenantCall(name, schemaName, domain, _) => DomainFailsLate(db, name, schemaName, domain)
    case AnonymizeCall(account, tag) => AnonymizeGivenUp(db, account, tag)
    case SeedCall => SeedGivenUp(db, s.now)
    case _ => false
  }

  /** The log entry of the call reads the same as the change it made: a flag value is spelled as it
      is stored, and an erased user is nobody's recorded assigner. */
  ghost predicate Plain(db: Db, c: Call) {
    match c
    case SetFeatureCall(scope, name, raw) => Spelled(raw) || !FlagNameOk(db.flags, scope, name)
    case HardDeleteCall(user) => forall m | m in db.members :: m.assignedBy == Some(user) ==> m.user == user
    case _ => true
  }

  // ---- One step --------------------------------------------------------------------------

  /** After a rollback the log rebuilds the store exactly when the block had no net effect. */
  lemma RolledBackLog(exact: bool, db: Db, inside: Db)
    requires Sound(exact, db) && Sound(exact, inside) && inside.erased == db.erased && Inv(RolledBack(db, inside))
    ensures LogOk(exact, RolledBack(db, inside)) <==> Shot(inside) == Shot(db)
  {
    assert RowsOf(RolledBack(db, inside)) == RowsOf(db);
  }

  lemma {:induction false} EnsurePermissionsFrame(db: Db, codes: seq<string>)
    ensures var db' := EnsurePermissions(db, codes);
      db' == db.(permissions := db'.permissions, nextId := db'.nextId) && db.nextId <= db'.nextId
  {
    if codes != [] {
      EnsurePermissionsFrame(db, codes[..|codes| - 1]);
    }
  }

  ghost predicate SameTenants(db: Db, db': Db) {
    forall id | IsTenant(db'.tenants, id) :: IsTenant(db.tenants, id)
  }

  /** What a part of the seeder before the assignment does to the audited tables: it adds roles for
      the demo tenants it inserts, and nothing else. */
  ghost predicate Frame(db: Db, db': Db) {
    && db'.members == db.members && db'.flags == db.flags && db'.erased == db.erased
    && db.queue <= db'.queue && db.nextId <= db'.nextId
    && (forall r | r in db.roles :: r in db'.roles)
    && (forall id | IsTenant(db.tenants, id) :: IsTenant(db'.tenants, id))
    && (forall id | IsTenant(db'.tenants, id) && !IsTenant(db.tenants, id) ::
        (exists spec | spec in DEMO_TENANTS :: spec.id == id) && exists r | r in db'.roles :: r.tenant == id)
    && (SameTenants(db, db') ==> db'.roles == db.roles && db'.queue == db.queue)
  }

  lemma FrameTransitive(a: Db, b: Db, c: Db)
    requires Frame(a, b) && Frame(b, c)
    ensures Frame(a, c)
  {
    if SameTenants(a, c) {
      assert SameTenants(a, b) && SameTenants(b, c);
    }
  }

  lemma AddTenantFrame(db: Db, spec: TenantSpec, t: Tenant, now: nat)
    requires Inv(db) && spec in DEMO_TENANTS && t.id == spec.id && t.id < db.nextId && !IsTenant(db.tenants, t.id)
    requires t.slug == t.schemaName && Slugs.IsSlug(t.slug) && forall s | s in db.tenants :: s.slug != t.slug
    ensures Frame(db, AddTenant(db, t, now))
  {
    var db' := AddTenant(db, t, now);
    AddTenantKeeps(db, t, now);
    AppendedTenant(db.tenants, t);
    assert t in db'.tenants && DEFAULT_ROLES[0] in DEFAULT_ROLES;
    assert HasDefaultRole(db'.roles, t.id, DEFAULT_ROLES[0]);
    assert IsTenant(db'.tenants, t.id);
  }

  lemma UpsertTenantFrame(db: Db, spec: TenantSpec, now: nat)
    requires Inv(db) && spec in DEMO_TENANTS
    ensures Frame(db, UpsertTenant(db, spec, now).db)
  {
    if UpsertTenant(db, spec, now).result.Ok? {
      DemoSlugs();
      assert forall t | t in db.tenants :: !OtherTenantSlug(spec.id, spec.slug)(t);
      match First(db.tenants, TenantIs(spec.id))
      case None =>
        assert forall t | t in db.tenants :: !TenantIs(spec.id)(t);
        AddTenantFrame(db, spec, Tenant(spec.id, spec.name, spec.slug, spec.slug, true), now);
      case Some(t) =>
        assert TenantIs(spec.id)(t) && IsTenant(db.tenants, spec.id);
        ReplacedTenant(db.tenants, Tenant(spec.id, spec.name, spec.slug, spec.slug, t.isActive));
    }
  }

  lemma AppendedTenant(tenants: seq<Tenant>, t: Tenant)
    ensures forall id :: IsTenant(tenants + [t], id) <==> IsTenant(tenants, id) || id == t.id
  {
    assert t in tenants + [t];
    assert forall s | s in tenants :: s in tenants + [t];
  }

  lemma ReplacedTenant(tenants: seq<Tenant>, row: Tenant)
    requires IsTenant(tenants, row.id)
    ensures forall id :: IsTenant(Replace(tenants, TenantId, row), id) <==> IsTenant(tenants, id)
  {
    var r := Replace(tenants, TenantId, row);
    assert row in r;
    forall id | IsTenant(tenants, id) ensures IsTenant(r, id) {
      var s :| s in tenants && s.id == id;
      assert if id == row.id then row in r else s in r;
    }
  }

  lemma FrameGrants(a: Db, b: Db, c: Db)
    requires Frame(a, b) && b.nextId <= c.nextId
    requires c == b.(domains := c.domains, grants := c.grants, nextId := c.nextId)
    ensures Frame(a, c)
  {
  }

  lemma SeedTenantFrame(db: Db, spec: TenantSpec, now: nat)
    requires Inv(db) && spec in DEMO_TENANTS
    ensures Frame(db, SeedTenant(db, spec, now).db)
  {
    UpsertTenantCarries(db, spec, now);
    UpsertTenantFrame(db, spec, now);
    var first := UpsertTenant(db, spec, now);
    if first.result.Ok? {
      EquipTenantCarries(first.db, spec, now);
      FrameGrants(db, first.db, EquipTenant(first.db, spec, now).db);
    }
  }

  lemma SeedTenantsFrame(db: Db, now: nat)
    requires Inv(db)
    ensures Frame(db, SeedTenants(db, now).db)
  {
    assert DEMO_TENANTS[0] in DEMO_TENANTS && DEMO_TENANTS[1] in DEMO_TENANTS;
    SeedTenantCarries(db, DEMO_TENANTS[0], now);
    SeedTenantFrame(db, DEMO_TENANTS[0], now);
    var first := SeedTenant(db, DEMO_TENANTS[0], now);
    if first.result.Ok? {
      SeedTenantFrame(first.db, DEMO_TENANTS[1], now);
      FrameTransitive(db, first.db, SeedTenants(db, now).db);
    }
  }

  lemma FailedAdminFrame(db: Db, now: nat)
    requires SeedAdmin(db, now).result.Err?
    ensures Frame(db, SeedAdmin(db, now).db)
  {
  }

  /** A seed that fails has added roles for the demo tenants it inserted, and nothing else. */
  lemma FailedSeedFrame(db: Db, now: nat)
    requires Inv(db) && SeedInside(db, now).result.Err?
    ensures Frame(db, SeedInside(db, now).db)
  {
    var zeroth := EnsurePermissions(db, PERMISSION_CODES);
    DemoPermissionsCarry(db);
    EnsurePermissionsFrame(db, PERMISSION_CODES);
    SeedTenantsFrame(zeroth, now);
    var tenants := SeedTenants(zeroth, now);
    FrameTransitive(db, zeroth, tenants.db);
    if tenants.result.Ok? {
      FailedAdminFrame(tenants.db, now);
      FrameTransitive(db, tenants.db, SeedAdmin(tenants.db, now).db);
    }
  }

  /** Its block had an effect on the audited tables exactly when it inserted a tenant. */
  lemma FailedSeedRows(db: Db, inside: Db)
    requires Consistent(db) && Frame(db, inside)
    ensures Inserted(db, inside) <==> RowsOf(inside) != RowsOf(db)
    ensures !Inserted(db, inside) ==> inside.queue == db.queue
  {
    if Inserted(db, inside) {
      var spec :| spec in DEMO_TENANTS && IsTenant(inside.tenants, spec.id) && !IsTenant(db.tenants, spec.id);
      var r :| r in inside.roles && r.tenant == spec.id;
      assert RoleRow(r) in RowsOf(inside);
      assert RoleRow(r) !in RowsOf(db);
    } else {
      assert SameTenants(db, inside);
    }
  }

  lemma SeedKeeps(db: Db, now: nat)
    requires Inv(db)
    ensures Inv(Seed(db, now).db)
  {
    SeedInsideCarries(db, now);
    var inside := SeedInside(db, now);
    if inside.result.Err? {
      FailedSeedFrame(db, now);
      RolledBackKeeps(db, inside.db);
    }
  }

  lemma SeedStep(exact: bool, db: Db, now: nat)
    requires Inv(db)
    ensures Inv(Seed(db, now).db)
    ensures LogOk(exact, db) ==> (LogOk(exact, Seed(db, now).db) <==> !SeedGivenUp(db, now))
  {
    SeedKeeps(db, now);
    SeedInsideCarries(db, now);
    var inside := SeedInside(db, now);
    if LogOk(exact, db) && inside.result.Err? {
      FailedSeedFrame(db, now);
      FailedSeedRows(db, inside.db);
      RolledBackLog(exact, db, inside.db);
      ShotsDiffer(db, inside.db);
    }
  }

  /** Stores with the same text have the same audited rows. */
  lemma ShotsDiffer(a: Db, b: Db)
    requires Consistent(a) && Consistent(b)
    ensures Shot(a) == Shot(b) <==> RowsOf(a) == RowsOf(b)
  {
    RowsUnique(a);
    RowsUnique(b);
    if Shot(a) == Shot(b) {
      SameShot(RowsOf(a), RowsOf(b));
      SameShot(RowsOf(b), RowsOf(a));
    }
  }

  lemma SameShot(a: set<Row>, b: set<Row>)
    requires OneRowPerKey(a) && OneRowPerKey(b) && Snapshot(a) == Snapshot(b)
    ensures a <= b
  {
    forall x | x in a ensures x in b {
      assert KeyOf(x) in Snapshot(b);
      var y :| y in b && KeyOf(y) == KeyOf(x);
      assert Snapshot(a)[KeyOf(x)] == TextOf(x) && Snapshot(b)[KeyOf(y)] == TextOf(y);
      TextDeterminesRow(x, y);
    }
  }

  lemma AnonymizeStep(exact: bool, db: Db, u: User, tag: string)
    requires Inv(db) && u in db.users
    ensures Inv(Anonymize(db, u, tag).db)
    ensures LogOk(exact, db) ==>
      (LogOk(exact, Anonymize(db, u, tag).db) <==> !AnonymizeGivenUp(db, u, tag))
  {
    AnonymizeKeeps(db, u, tag);
    if LogOk(exact, db) {
      EraseChildrenLog(exact, db, u.id);
      var inside, out := EraseChildren(db, u.id), Anonymize(db, u, tag);
      if out.result.Ok? {
        QuietLog(exact, inside, out.db);
      } else {
        RolledBackLog(exact, db, inside);
        ShotsDiffer(db, inside);
        HeldRows(db, u.id);
      }
    }
  }

  lemma HeldRows(db: Db, user: nat)
    ensures RowsOf(EraseChildren(db, user)) == RowsOf(db) <==> !Exists(db.members, HeldBy(user))
  {
    var inside := EraseChildren(db, user);
    if m :| m in db.members && HeldBy(user)(m) {
      assert MemberRow(m) in RowsOf(db) && MemberRow(m) !in RowsOf(inside);
    } else {
      assert forall m | m in db.members :: m in inside.members;
    }
  }

  lemma PlainErasure(db: Db, user: nat)
    ensures Plain(db, HardDeleteCall(user)) <==>
      forall m | m in EraseChildren(db, user).members :: m.assignedBy != Some(user)
  {
    assert forall m | m in db.members && m.user != user :: m in EraseChildren(db, user).members by {
      assert forall m: Membership :: HeldBy(user)(m) <==> m.user == user;
    }
  }

  /** Nulling an assigner without a delta makes the log, read as written, wrong. */
  lemma NamedAssigner(db: Db, user: nat, m: Membership)
    requires Sound(true, db) && Inv(DeleteUser(db, user)) && m in db.members && m.assignedBy == Some(user)
    ensures !LogOk(true, DeleteUser(db, user))
  {
    var db' := DeleteUser(db, user);
    assert forall i | 0 <= i < |db'.members| :: db'.members[i].assignedBy != Some(user);
    assert MemberRow(m) in RowsOf(db) && MemberRow(m) !in RowsOf(db');
    ShotsDiffer(db, db');
  }

  lemma HardDeleteStep(exact: bool, db: Db, user: nat)
    requires Inv(db) && IsUser(db.users, user)
    ensures Inv(HardDelete(db, user).db)
    ensures LogOk(exact, db) ==>
      (LogOk(exact, HardDelete(db, user).db) <==> (exact ==> Plain(db, HardDeleteCall(user))))
  {
    HardDeleteKeeps(db, user);
    if LogOk(exact, db) {
      EraseChildrenLog(exact, db, user);
      PlainErasure(db, user);
      var inside := EraseChildren(db, user);
      assert forall m | m in inside.members :: !HeldBy(user)(m);
      if m :| exact && m in inside.members && m.assignedBy == Some(user) {
        NamedAssigner(inside, user, m);
      } else {
        DeleteUserLog(exact, inside, user);
      }
    }
  }

  /** A flag value that is not spelled as stored makes the log, read as written, wrong. */
  lemma SetFeatureStep(exact: bool, db: Db, tenant: Option<nat>, name: string, raw: RawFlag, now: nat)
    requires Inv(db)
    ensures Inv(SetFeature(db, tenant, name, raw, now).db)
    ensures LogOk(exact, db) ==>
      (LogOk(exact, SetFeature(db, tenant, name, raw, now).db) <==>
        (exact ==> Spelled(raw) || !FlagNameOk(db.flags, tenant, name)))
  {
    SetFeatureKeeps(db, tenant, name, raw, now);
    if LogOk(exact, db) {
      if exact ==> Spelled(raw) || !FlagNameOk(db.flags, tenant, name) {
        SetFeatureLog(exact, db, tenant, name, raw, now);
      } else {
        MisspeltFlag(db, tenant, name, raw, now);
      }
    }
  }

  /** A row whose last logged text is not its stored text. */
  lemma WrongText(db: Db, db': Db, x: Row, t: Fields, ds: seq<Delta>)
    requires Sound(true, db) && Consistent(db') && db'.queue == db.queue + ds
    requires x in RowsOf(db') && t != TextOf(x) && Replay(Shot(db), ds) == Shot(db)[KeyOf(x) := t]
    ensures !LogOk(true, db')
  {
    RowsUnique(db');
    assert KeyOf(x) in Shot(db') && Shot(db')[KeyOf(x)] == TextOf(x);
    VerbatimLog(db.queue);
    VerbatimLog(db'.queue);
    ReplayConcat(map[], db.queue, ds);
    assert Replay(map[], db'.queue)[KeyOf(x)] == t;
  }

  lemma MisspeltFlag(db: Db, tenant: Option<nat>, name: string, raw: RawFlag, now: nat)
    requires Sound(true, db) && !Spelled(raw) && FlagNameOk(db.flags, tenant, name)
    requires Inv(SetFeature(db, tenant, name, raw, now).db)
    ensures !LogOk(true, SetFeature(db, tenant, name, raw, now).db)
  {
    SetFeatureKeeps(db, tenant, name, raw, now);
    var out, found := SetFeature(db, tenant, name, raw, now), Where(db.flags, FlagIs(tenant, name));
    var f := out.result.value;
    MisspeltText(f, raw);
    if found == [] {
      assert f in AddFlag(db, f, raw).flags;
      MisspeltCreate(db, FlagRow(f), FlagText(f, raw), out.db);
    } else {
      assert found[0] in found && f in SaveFlag(db, found[0], f, raw).flags;
      MisspeltUpdate(db, FlagRow(found[0]), FlagRow(f), FlagText(f, raw), out.db);
    }
  }

  lemma MisspeltText(f: Flag, raw: RawFlag)
    requires !Spelled(raw) && ToPython(raw) == Some(f.isActive)
    ensures FlagText(f, raw) != TextOf(FlagRow(f)) && FlagText(f, raw).Keys == TextOf(FlagRow(f)).Keys
  {
    assert FlagText(f, raw)["is_active"] != TextOf(FlagRow(f))["is_active"];
  }

  lemma MisspeltCreate(db: Db, x: Row, t: Fields, db': Db)
    requires Sound(true, db) && Inv(db') && x in RowsOf(db') && t.Keys == TextOf(x).Keys && t != TextOf(x)
    requires db'.queue == db.queue + SavedDelta(true, KeyOf(x), map[], t)
    ensures !LogOk(true, db')
  {
    SameFields(x, x);
    CreateRecorded(Shot(db), KeyOf(x), t);
    WrongText(db, db', x, t, SavedDelta(true, KeyOf(x), map[], t));
  }

  lemma MisspeltUpdate(db: Db, old_: Row, x: Row, t: Fields, db': Db)
    requires Sound(true, db) && Inv(db') && db'.erased == db.erased && old_ in RowsOf(db) && x in RowsOf(db')
    requires KeyOf(old_) == KeyOf(x) && t.Keys == TextOf(x).Keys && t != TextOf(x)
    requires db'.queue == db.queue + SavedDelta(false, KeyOf(x), TextOf(old_), t)
    ensures !LogOk(true, db')
  {
    StoredShot(db, old_);
    SameFields(old_, x);
    UpdateRecorded(Shot(db), KeyOf(x), TextOf(old_), t);
    WrongText(db, db', x, t, SavedDelta(false, KeyOf(x), TextOf(old_), t));
  }

  lemma StoredShot(db: Db, x: Row)
    requires Consistent(db) && x in RowsOf(db)
    ensures KeyOf(x) in Shot(db) && Shot(db)[KeyOf(x)] == TextOf(x)
  {
    RowsUnique(db);
  }

  lemma UpdateRecorded(t: Tables, key: Key, old_: Fields, raw: Fields)
    requires key in t && t[key] == old_ && raw.Keys == old_.Keys && "password" !in raw
    ensures Replay(t, SavedDelta(false, key, old_, raw)) == t[key := raw]
  {
    PlainText(Verbatim(), old_);
    PlainText(Verbatim(), raw);
    DiffRecorded(Verbatim(), t, key, old_, raw);
    VerbatimLog(SavedDelta(false, key, old_, raw));
  }

  lemma CreateRecorded(t: Tables, key: Key, raw: Fields)
    requires "password" !in raw
    ensures Replay(t, SavedDelta(true, key, map[], raw)) == t[key := raw]
  {
    assert raw - {"password"} == raw;
    assert [Create(key, raw)][..0] == [];
    assert Replay(t, []) == t;
  }

  // ---- Runs ------------------------------------------------------------------------------

  lemma RegistryStep(exact: bool, db: Db, s: Step)
    requires Sound(exact, db) && Enabled(db, s.call)
    requires s.call.RegisterUserCall? || s.call.CreatePermissionCall? || s.call.DefaultRolesCall?
    ensures Sound(exact, Next(db, s))
  {
    match s.call
    case RegisterUserCall(username, email, superuser) =>
      RegisterUserKeeps(db, username, email, superuser);
      QuietLog(exact, db, Next(db, s));
    case CreatePermissionCall(code, description) =>
      CreatePermissionKeeps(db, code, description);
      QuietLog(exact, db, Next(db, s));
    case DefaultRolesCall(tenant) => DefaultsThere(db, tenant, s.now);
  }

  lemma RoleStep(exact: bool, db: Db, s: Step)
    requires Sound(exact, db) && Enabled(db, s.call)
    requires s.call.CreateRoleCall? || s.call.AssignRoleCall? || s.call.RevokeRoleCall?
    ensures Sound(exact, Next(db, s))
  {
    match s.call
    case CreateRoleCall(tenant, name, slug, weight, codes) =>
      CreateRoleLog(exact, db, tenant, name, slug, weight, codes, s.now);
    case AssignRoleCall(user, tenant, slug, actor) => AssignRoleLog(exact, db, user, tenant, slug, actor, s.now);
    case RevokeRoleCall(user, tenant) => RevokeRoleLog(exact, db, user, tenant);
  }

  /** Every call keeps the store, whether it succeeds, fails, or fails after a partial effect, and
      whatever its log has become. */
  lemma InvStep(db: Db, s: Step)
    requires Inv(db) && Enabled(db, s.call)
    ensures Inv(Next(db, s))
  {
    match s.call
    case RegisterUserCall(username, email, superuser) => RegisterUserKeeps(db, username, email, superuser);
    case CreatePermissionCall(code, description) => CreatePermissionKeeps(db, code, description);
    case CreateTenantCall(name, schemaName, domain, isPrimary) =>
      CreateTenantKeeps(db, name, schemaName, domain, isPrimary, s.now);
    case DefaultRolesCall(tenant) => DefaultsThere(db, tenant, s.now);
    case CreateRoleCall(tenant, name, slug, weight, codes) =>
      CreateRoleKeeps(db, tenant, name, slug, weight, codes, s.now);
    case AssignRoleCall(user, tenant, slug, actor) => AssignRoleKeeps(db, user, tenant, slug, actor, s.now);
    case RevokeRoleCall(user, tenant) => DropMembersKeeps(db, SeatIs(user, tenant));
    case SetFeatureCall(scope, name, raw) => SetFeatureKeeps(db, scope, name, raw, s.now);
    case AnonymizeCall(account, tag) => AnonymizeKeeps(db, account, tag);
    case HardDeleteCall(user) => HardDeleteKeeps(db, user);
    case SeedCall => SeedKeeps(db, s.now);
  }

  /** A call keeps the log exactly when it does not leak and, for the log as written, is plain. */
  lemma StepExact(exact: bool, db: Db, s: Step)
    requires Inv(db) && Enabled(db, s.call)
    ensures Inv(Next(db, s))
    ensures LogOk(exact, db) ==>
      (LogOk(exact, Next(db, s)) <==> !Leaks(db, s) && (exact ==> Plain(db, s.call)))
  {
    InvStep(db, s);
    if LogOk(exact, db) {
      match s.call
      case CreateTenantCall(name, schemaName, domain, isPrimary) =>
        CreateTenantStep(exact, db, name, schemaName, domain, isPrimary, s.now);
      case SetFeatureCall(scope, name, raw) => SetFeatureStep(exact, db, scope, name, raw, s.now);
      case AnonymizeCall(account, tag) => AnonymizeStep(exact, db, account, tag);
      case HardDeleteCall(user) => HardDeleteStep(exact, db, user);
      case SeedCall => SeedStep(exact, db, s.now);
      case _ =>
        if s.call.RegisterUserCall? || s.call.CreatePermissionCall? || s.call.DefaultRolesCall? {
          RegistryStep(exact, db, s);
        } else {
          RoleStep(exact, db, s);
        }
    }
  }

  /** A tenant creation keeps a right log right exactly when its domain is not refused after its roles were
      sent. */
  lemma CreateTenantStep(
    exact: bool, db: Db, name: string, schemaName: string, domain: string, isPrimary: bool, now: nat)
    requires Inv(db)
    ensures var db' := CreateTenant(db, name, schemaName, domain, isPrimary, now).db;
      Inv(db') && (LogOk(exact, db) ==> (LogOk(exact, db') <==> !DomainFailsLate(db, name, schemaName, domain)))
  {
    CreateTenantKeeps(db, name, schemaName, domain, isPrimary, now);
    Slugs.ValidateSlugExact(schemaName);
    if LogOk(exact, db) && Slugs.IsSlug(Slugs.Normal(schemaName)) {
      if DomainFailsLate(db, name, schemaName, domain) {
        LateDomain(exact, db, Strip(name), Slugs.Normal(schemaName), Lower(Strip(domain)), isPrimary, now);
      } else {
        InsertTenantLog(exact, db, Strip(name), Slugs.Normal(schemaName), Lower(Strip(domain)), isPrimary, now);
      }
    }
  }

  lemma LateDomain(exact: bool, db: Db, name: string, slug: string, host: string, isPrimary: bool, now: nat)
    requires Sound(exact, db) && Slugs.IsSlug(slug) && TenantInsertable(db, name, slug, host) && |host| > HOST_LIMIT
    ensures var db' := InsertTenant(db, name, slug, host, isPrimary, now).db; Inv(db') && !LogOk(exact, db')
  {
    var t := Tenant(db.nextId, name, slug, slug, true);
    assert forall s | s in db.tenants :: !SlugIs(slug)(s);
    GivenUpTenant(exact, db, t, now);
    assert InsertTenant(db, name, slug, host, isPrimary, now).db ==
      RolledBack(db, AddTenant(db.(nextId := db.nextId + 1), t, now));
  }

  /** A tenant that is inserted with its roles and rolled back leaves the log wrong. */
  lemma GivenUpTenant(exact: bool, db: Db, t: Tenant, now: nat)
    requires Sound(exact, db) && t.id == db.nextId && t.slug == t.schemaName && Slugs.IsSlug(t.slug)
    requires forall s | s in db.tenants :: s.slug != t.slug
    ensures var db' := RolledBack(db, AddTenant(db.(nextId := db.nextId + 1), t, now)); Inv(db') && !LogOk(exact, db')
  {
    var db1 := db.(nextId := db.nextId + 1);
    var inside := AddTenant(db1, t, now);
    AddTenantKeeps(db1, t, now);
    QuietLog(exact, db, db1);
    AddTenantLog(exact, db1, t, now);
    RolledBackKeeps(db, inside);
    RolledBackLog(exact, db, inside);
    ShotsDiffer(inside, db);
    assert t in inside.tenants;
    RolesOfNewTenant(db, inside, t);
  }

  lemma RolesOfNewTenant(db: Db, inside: Db, t: Tenant)
    requires Inv(db) && Inv(inside) && t in inside.tenants && !IsTenant(db.tenants, t.id)
    ensures RowsOf(inside) != RowsOf(db)
  {
    assert DEFAULT_ROLES[0] in DEFAULT_ROLES && HasDefaultRole(inside.roles, t.id, DEFAULT_ROLES[0]);
    var r :| r in inside.roles && r.tenant == t.id;
    assert RoleRow(r) in RowsOf(inside) && RoleRow(r) !in RowsOf(db);
  }

  /** The log only grows, and an erased user stays erased. */
  ghost predicate Later(db: Db, db': Db) {
    db.queue <= db'.queue && db.erased <= db'.erased
  }

  lemma {:induction false} EnsureRolesLater(db: Db, tenant: nat, defaults: seq<DefaultRole>, now: nat)
    ensures Later(db, EnsureRoles(db, tenant, defaults, now))
  {
    if defaults != [] {
      EnsureRolesLater(db, tenant, defaults[..|defaults| - 1], now);
    }
  }

  lemma LaterTransitive(a: Db, b: Db, c: Db)
    requires Later(a, b) && Later(b, c)
    ensures Later(a, c)
  {
  }

  lemma AssignRoleLater(db: Db, user: nat, tenant: nat, slug: string, actor: Option<nat>, now: nat)
    ensures Later(db, AssignRole(db, user, tenant, slug, actor, now).db)
  {
  }

  lemma SeedAdminLater(db: Db, now: nat)
    ensures Later(db, SeedAdmin(db, now).db)
  {
    var (staffed, admin) := UpsertAdmin(db);
    AssignRoleLater(staffed, admin.id, DEMO_TENANTS[0].id, "admin", None, now);
  }

  lemma SeedLater(db: Db, now: nat)
    requires Inv(db)
    ensures Later(db, SeedInside(db, now).db)
  {
    var zeroth := EnsurePermissions(db, PERMISSION_CODES);
    DemoPermissionsCarry(db);
    EnsurePermissionsFrame(db, PERMISSION_CODES);
    SeedTenantsFrame(zeroth, now);
    var tenants := SeedTenants(zeroth, now).db;
    LaterTransitive(db, zeroth, tenants);
    SeedAdminLater(tenants, now);
    LaterTransitive(db, tenants, SeedAdmin(tenants, now).db);
  }

  lemma InsertTenantLater(db: Db, name: string, slug: string, host: string, isPrimary: bool, now: nat)
    ensures Later(db, InsertTenant(db, name, slug, host, isPrimary, now).db)
  {
    var t := Tenant(db.nextId, name, slug, slug, true);
    EnsureRolesLater(db.(nextId := db.nextId + 1, tenants := db.tenants + [t]), t.id, DEFAULT_ROLES, now);
  }

  lemma CreateTenantLater(
    db: Db, name: string, schemaName: string, domain: string, isPrimary: bool, now: nat)
    ensures Later(db, CreateTenant(db, name, schemaName, domain, isPrimary, now).db)
  {
    Slugs.ValidateSlugExact(schemaName);
    InsertTenantLater(db, Strip(name), Slugs.Normal(schemaName), Lower(Strip(domain)), isPrimary, now);
  }

  lemma AnonymizeLater(db: Db, u: User, tag: string)
    ensures Later(db, Anonymize(db, u, tag).db)
  {
  }

  lemma HardDeleteLater(db: Db, user: nat)
    ensures Later(db, HardDelete(db, user).db)
  {
  }

  lemma RowCallLater(db: Db, s: Step)
    requires s.call.CreateRoleCall? || s.call.RevokeRoleCall? || s.call.SetFeatureCall? ||
      s.call.RegisterUserCall? || s.call.CreatePermissionCall?
    ensures Later(db, Next(db, s))
  {
  }

  lemma CallLater(db: Db, s: Step)
    requires !s.call.SeedCall?
    ensures Later(db, Next(db, s))
  {
    match s.call
    case CreateTenantCall(name, schemaName, domain, isPrimary) =>
      CreateTenantLater(db, name, schemaName, domain, isPrimary, s.now);
    case DefaultRolesCall(tenant) => EnsureRolesLater(db, tenant, DEFAULT_ROLES, s.now);
    case AssignRoleCall(user, tenant, slug, actor) => AssignRoleLater(db, user, tenant, slug, actor, s.now);
    case AnonymizeCall(account, tag) => AnonymizeLater(db, account, tag);
    case HardDeleteCall(user) => HardDeleteLater(db, user);
    case _ => RowCallLater(db, s);
  }

  lemma StepLater(db: Db, s: Step)
    requires Inv(db)
    ensures Later(db, Next(db, s))
  {
    if s.call.SeedCall? {
      SeedLater(db, s.now);
    } else {
      CallLater(db, s);
    }
  }

  function Exec(db: Db, steps: seq<Step>): Db {
    if steps == [] then db else Next(Exec(db, steps[..|steps| - 1]), steps[|steps| - 1])
  }

  /** Each step of the run gets rows of the store for the users and tenants it names. */
  ghost predicate AlwaysEnabled(steps: seq<Step>) {
    forall n | 0 <= n < |steps| :: Enabled(Exec(EMPTY, steps[..n]), steps[n].call)
  }

  lemma EnabledPrefix(steps: seq<Step>)
    requires AlwaysEnabled(steps) && steps != []
    ensures var n := |steps| - 1;
      AlwaysEnabled(steps[..n]) && Enabled(Exec(EMPTY, steps[..n]), steps[n].call)
  {
    var init := steps[..|steps| - 1];
    assert forall n | 0 <= n < |init| :: init[..n] == steps[..n];
  }

  lemma EmptyInv()
    ensures Inv(EMPTY)
  {
  }

  /** The store invariant holds after every run, leaking ones included. */
  lemma {:induction false} RunInv(steps: seq<Step>)
    requires AlwaysEnabled(steps)
    ensures Inv(Exec(EMPTY, steps))
  {
    if steps == [] {
      EmptyInv();
    } else {
      EnabledPrefix(steps);
      RunInv(steps[..|steps| - 1]);
      InvStep(Exec(EMPTY, steps[..|steps| - 1]), steps[|steps| - 1]);
    }
  }

  /** After every run every tenant has an owner, an admin and a member role, weighing 30, 20 and 10. */
  lemma RunWeights(steps: seq<Step>, t: Tenant)
    requires AlwaysEnabled(steps) && t in Exec(EMPTY, steps).tenants
    ensures var roles := Exec(EMPTY, steps).roles;
      && (exists r | r in roles :: r.tenant == t.id && r.slug == "owner" && r.weight == 30)
      && (exists r | r in roles :: r.tenant == t.id && r.slug == "admin" && r.weight == 20)
      && (exists r | r in roles :: r.tenant == t.id && r.slug == "member" && r.weight == 10)
  {
    RunInv(steps);
    WeightsOf(Exec(EMPTY, steps), t);
  }

  lemma WeightsOf(db: Db, t: Tenant)
    requires Inv(db) && t in db.tenants
    ensures exists r | r in db.roles :: r.tenant == t.id && r.slug == "owner" && r.weight == 30
    ensures exists r | r in db.roles :: r.tenant == t.id && r.slug == "admin" && r.weight == 20
    ensures exists r | r in db.roles :: r.tenant == t.id && r.slug == "member" && r.weight == 10
  {
    assert DEFAULT_ROLES[0] in DEFAULT_ROLES && HasDefaultRole(db.roles, t.id, DEFAULT_ROLES[0]);
    assert DEFAULT_ROLES[1] in DEFAULT_ROLES && HasDefaultRole(db.roles, t.id, DEFAULT_ROLES[1]);
    assert DEFAULT_ROLES[2] in DEFAULT_ROLES && HasDefaultRole(db.roles, t.id, DEFAULT_ROLES[2]);
  }

  /** Each step is enabled when it runs, does not leak, and is plain if the log is to be exact. */
  ghost predicate Allowed(exact: bool, db: Db, steps: seq<Step>) {
    steps == [] ||
    var before, last := Exec(db, steps[..|steps| - 1]), steps[|steps| - 1];
    Allowed(exact, db, steps[..|steps| - 1]) && Enabled(before, last.call) && !Leaks(before, last) &&
    (exact ==> Plain(before, last.call))
  }

  lemma EmptySound(exact: bool)
    ensures Sound(exact, EMPTY)
  {
    assert RowsOf(EMPTY) == {};
    assert OnLog(Reading(exact, {}), []) == [];
    assert Shot(EMPTY) == map[];
  }

  lemma {:induction false} RunSound(exact: bool, steps: seq<Step>)
    requires Allowed(exact, EMPTY, steps)
    ensures Sound(exact, Exec(EMPTY, steps))
  {
    if steps == [] {
      EmptySound(exact);
    } else {
      RunSound(exact, steps[..|steps| - 1]);
      StepExact(exact, Exec(EMPTY, steps[..|steps| - 1]), steps[|steps| - 1]);
    }
  }

  /** The store and its log are right after every step of the run. */
  ghost predicate AlwaysSound(exact: bool, steps: seq<Step>) {
    forall n | 0 <= n <= |steps| :: Sound(exact, Exec(EMPTY, steps[..n]))
  }

  /** The log rebuilds the tables throughout a run exactly when no step leaks and, for the log as
      written, every step is plain. */
  lemma {:induction false} RunExact(exact: bool, steps: seq<Step>)
    requires AlwaysEnabled(steps)
    ensures AlwaysSound(exact, steps) <==> Allowed(exact, EMPTY, steps)
  {
    if steps == [] {
      EmptySound(exact);
      assert steps[..0] == [];
    } else {
      var init, last := steps[..|steps| - 1], steps[|steps| - 1];
      assert forall n | 0 <= n <= |init| :: init[..n] == steps[..n];
      assert steps[..|steps|] == steps;
      RunExact(exact, init);
      AlwaysSoundAppend(exact, steps);
      if AlwaysSound(exact, init) {
        assert init[..|init|] == init;
        StepExact(exact, Exec(EMPTY, init), last);
      }
    }
  }

  lemma AlwaysSoundAppend(exact: bool, steps: seq<Step>)
    requires steps != []
    ensures var init := steps[..|steps| - 1];
      AlwaysSound(exact, steps) <==> AlwaysSound(exact, init) && Sound(exact, Exec(EMPTY, steps))
  {
    var init := steps[..|steps| - 1];
    assert forall n | 0 <= n <= |init| :: init[..n] == steps[..n];
    assert steps[..|steps|] == steps;
    if AlwaysSound(exact, init) && Sound(exact, Exec(EMPTY, steps)) {
      forall n | 0 <= n <= |steps| ensures Sound(exact, Exec(EMPTY, steps[..n])) {
        if n < |steps| {
          assert Sound(exact, Exec(EMPTY, init[..n]));
        }
      }
    }
    if AlwaysSound(exact, steps) {
      forall n | 0 <= n <= |init| ensures Sound(exact, Exec(EMPTY, init[..n])) {
        assert Sound(exact, Exec(EMPTY, steps[..n]));
      }
      assert Sound(exact, Exec(EMPTY, steps[..|steps|]));
    }
  }

  lemma {:induction false} RunPrefix(exact: bool, a: seq<Step>, b: seq<Step>)
    requires Allowed(exact, EMPTY, a + b)
    ensures Allowed(exact, EMPTY, a)
    ensures Later(Exec(EMPTY, a), Exec(EMPTY, a + b))
  {
    if b == [] {
      assert a + b == a;
    } else {
      var n := |b| - 1;
      assert (a + b)[..|a + b| - 1] == a + b[..n];
      RunPrefix(exact, a, b[..n]);
      RunSound(exact, a + b[..n]);
      StepLater(Exec(EMPTY, a + b[..n]), b[n]);
    }
  }

  /** Forward replay: after every run, folding the queued deltas over empty tables gives the audited
      tables, up to the references to erased users and the spelling of Booleans. */
  lemma ForwardReplay(steps: seq<Step>)
    requires Allowed(false, EMPTY, steps)
    ensures var db := Exec(EMPTY, steps);
      Inv(db) && OnTables(Canonical(db.erased), Replay(map[], db.queue)) == Shot(db)
  {
    RunSound(false, steps);
    var db := Exec(EMPTY, steps);
    ReplayRewrite(Canonical(db.erased), map[], db.queue);
    assert OnTables(Canonical(db.erased), map[]) == map[];
  }

  /** Forward replay is exact, to the letter, when every step is plain. */
  lemma ForwardReplayExact(steps: seq<Step>)
    requires Allowed(true, EMPTY, steps)
    ensures var db := Exec(EMPTY, steps); Inv(db) && Replay(map[], db.queue) == Shot(db)
  {
    RunSound(true, steps);
    VerbatimLog(Exec(EMPTY, steps).queue);
  }

  /** Backward replay: undoing the last `k` deltas of a run gives what the earlier deltas build. */
  lemma BackwardReplay(steps: seq<Step>, k: nat)
    requires Allowed(false, EMPTY, steps) && k <= |Exec(EMPTY, steps).queue|
    ensures var db := Exec(EMPTY, steps); var c, n := Canonical(db.erased), |db.queue| - k;
      Inv(db) && Rewind(Shot(db), OnLog(c, db.queue[n..])) == OnTables(c, Replay(map[], db.queue[..n]))
  {
    RunSound(false, steps);
    var db := Exec(EMPTY, steps);
    RewindLast(Canonical(db.erased), db.queue, Shot(db), k);
  }

  lemma RewindLast(c: Rewrite, queue: seq<Delta>, now_: Tables, k: nat)
    requires Records(map[], OnLog(c, queue), now_) && k <= |queue|
    ensures var n := |queue| - k; Rewind(now_, OnLog(c, queue[n..])) == OnTables(c, Replay(map[], queue[..n]))
  {
    var log, n := OnLog(c, queue), |queue| - k;
    RewindSuffix(map[], log, k);
    assert log[n..] == OnLog(c, queue[n..]) && log[..n] == OnLog(c, queue[..n]);
    ReplayRewrite(c, map[], queue[..n]);
    assert OnTables(c, map[]) == map[];
  }

  /** Undoing the part of a log that follows a prefix gives what the prefix built. */
  lemma RewindToPrefix(c: Rewrite, c0: Rewrite, past: seq<Delta>, log: seq<Delta>, then_: Tables, now_: Tables)
    requires past <= log && Coarser(c, c0)
    requires Records(map[], OnLog(c0, past), then_) && Records(map[], OnLog(c, log), now_)
    ensures Rewind(now_, OnLog(c, log[|past|..])) == OnTables(c, then_)
  {
    var all := OnLog(c, log);
    RewindSuffix(map[], all, |log| - |past|);
    assert all[|past|..] == OnLog(c, log[|past|..]) && all[..|past|] == OnLog(c, past);
    RewriteTwice(c, c0, past);
    ReplayRewrite(c, map[], OnLog(c0, past));
    assert OnTables(c, map[]) == map[];
  }

  lemma TravelReading(exact: bool, a: seq<Step>, b: seq<Step>)
    requires Allowed(exact, EMPTY, a + b)
    ensures var past, db := Exec(EMPTY, a), Exec(EMPTY, a + b); var c := Reading(exact, db.erased);
      && Inv(past) && Inv(db) && past.queue <= db.queue
      && Rewind(Shot(db), OnLog(c, db.queue[|past.queue|..])) == OnTables(c, Shot(past))
  {
    RunPrefix(exact, a, b);
    RunSound(exact, a);
    RunSound(exact, a + b);
    var past, db := Exec(EMPTY, a), Exec(EMPTY, a + b);
    CanonicalCoarser(past.erased, db.erased);
    RewindToPrefix(
      Reading(exact, db.erased), Reading(exact, past.erased), past.queue, db.queue, Shot(past), Shot(db));
  }

  /** Time travel: undoing the deltas that the steps `b` queued gives the audited tables as they
      stood after the steps `a`, with the users erased since then nulled. */
  lemma TimeTravel(a: seq<Step>, b: seq<Step>)
    requires Allowed(false, EMPTY, a + b)
    ensures var past, db := Exec(EMPTY, a), Exec(EMPTY, a + b); var c := Canonical(db.erased);
      && Inv(past) && Inv(db) && past.queue <= db.queue
      && Rewind(Shot(db), OnLog(c, db.queue[|past.queue|..])) == OnTables(c, Shot(past))
  {
    TravelReading(false, a, b);
  }

  /** When every step is plain, the deltas themselves undo the steps, to the letter. */
  lemma TimeTravelExact(a: seq<Step>, b: seq<Step>)
    requires Allowed(true, EMPTY, a + b)
    ensures var past, db := Exec(EMPTY, a), Exec(EMPTY, a + b);
      && Inv(past) && Inv(db) && past.queue <= db.queue
      && Rewind(Shot(db), db.queue[|past.queue|..]) == Shot(past)
  {
    TravelReading(true, a, b);
    var past, db := Exec(EMPTY, a), Exec(EMPTY, a + b);
    VerbatimLog(db.queue[|past.queue|..]);
    VerbatimTables(Shot(past));
  }

  lemma VerbatimTables(t: Tables)
    ensures OnTables(Verbatim(), t) == t
  {
    forall k | k in t ensures OnFields(Verbatim(), t[k]) == t[k] {
      PlainText(Verbatim(), t[k]);
    }
  }
}
