/** The stores that stand between the single saves of one call, and backward replay to them. */
module InsideCalls {

  import opened Rows
  import opened Text
  import opened DeltaLog
  import opened AuthModel
  import opened Slugs
  import opened Services
  import opened StoreInvariant
  import opened AuditReplay
  import opened Seeding
  import opened Runs

  /** After the insert of the tenant and of the first few of its default roles. */
  ghost predicate WithinTenant(db: Db, t: Tenant, now: nat, mid: Db) {
    exists k | 0 <= k <= |DEFAULT_ROLES| ::
      mid == EnsureRoles(db.(tenants := db.tenants + [t]), t.id, DEFAULT_ROLES[..k], now)
  }

  /** The same for a demo tenant that the seeder inserts. */
  ghost predicate WithinUpsert(db: Db, spec: TenantSpec, now: nat, mid: Db) {
    && !Exists(db.tenants, OtherTenantSlug(spec.id, spec.slug)) && First(db.tenants, TenantIs(spec.id)).None?
    && WithinTenant(db, Tenant(spec.id, spec.name, spec.slug, spec.slug, true), now, mid)
  }

  ghost predicate WithinSeed(db: Db, now: nat, mid: Db) {
    var zeroth, one, two := EnsurePermissions(db, PERMISSION_CODES), DEMO_TENANTS[0], DEMO_TENANTS[1];
    var first := SeedTenant(zeroth, one, now);
    || WithinUpsert(zeroth, one, now, mid)
    || (first.result.Ok? &&
        (mid == first.db || WithinUpsert(first.db, two, now, mid) || mid == SeedTenant(first.db, two, now).db))
  }

  /** `mid` stands between two saves of the call. */
  ghost predicate Within(db: Db, s: Step, mid: Db) {
    match s.call
    case CreateTenantCall(name, schemaName, domain, _) =>
      var slug := Normal(schemaName);
      && IsSlug(slug) && TenantInsertable(db, Strip(name), slug, Lower(Strip(domain)))
      && WithinTenant(
        db.(nextId := db.nextId + 1), Tenant(db.nextId, Strip(name), slug, slug, true), s.now, mid)
    case CreateRoleCall(tenant, name, slug, weight, _) =>
      && !Exists(db.roles, RoleIs(tenant, slug)) && RoleStorable(name, slug, weight)
      && mid == AddRole(db, Role(db.nextId, tenant, name, slug, false, weight, s.now))
    case SeedCall => WithinSeed(db, s.now, mid)
    case _ => false
  }

  /** The log is right at `mid` wherever it was right at `db`, and everything it holds is still there later. */
  ghost predicate Stands(db: Db, mid: Db, queue: seq<Delta>)
    requires Consistent(db)
  {
    && Consistent(mid) && (forall exact | LogOk(exact, db) :: LogOk(exact, mid))
    && mid.queue <= queue && mid.erased == db.erased
  }

  lemma {:induction false} MoreRolesLater(db: Db, tenant: nat, defaults: seq<DefaultRole>, k: nat, now: nat)
    requires k <= |defaults|
    ensures EnsureRoles(db, tenant, defaults[..k], now).queue <= EnsureRoles(db, tenant, defaults, now).queue
  {
    if k < |defaults| {
      assert defaults[..|defaults| - 1][..k] == defaults[..k];
      MoreRolesLater(db, tenant, defaults[..|defaults| - 1], k, now);
    } else {
      assert defaults[..k] == defaults;
    }
  }

  lemma {:induction false} SameErased(db: Db, tenant: nat, defaults: seq<DefaultRole>, now: nat)
    ensures EnsureRoles(db, tenant, defaults, now).erased == db.erased
  {
    if defaults != [] {
      SameErased(db, tenant, defaults[..|defaults| - 1], now);
    }
  }

  lemma TenantStands(db: Db, t: Tenant, now: nat, mid: Db)
    requires Inv(db) && t.id < db.nextId && !IsTenant(db.tenants, t.id) && WithinTenant(db, t, now, mid)
    requires t.slug == t.schemaName && IsSlug(t.slug) && forall s | s in db.tenants :: s.slug != t.slug
    ensures Stands(db, mid, AddTenant(db, t, now).queue)
  {
    var k :| 0 <= k <= |DEFAULT_ROLES| &&
      mid == EnsureRoles(db.(tenants := db.tenants + [t]), t.id, DEFAULT_ROLES[..k], now);
    var db1 := db.(tenants := db.tenants + [t]);
    NewTenantConsistent(db, t);
    MoreRolesLater(db1, t.id, DEFAULT_ROLES, k, now);
    SameErased(db1, t.id, DEFAULT_ROLES[..k], now);
    assert forall d | d in DEFAULT_ROLES[..k] :: d in DEFAULT_ROLES;
    EnsureRolesKeeps(db1, t.id, DEFAULT_ROLES[..k], now);
    forall exact | LogOk(exact, db) ensures LogOk(exact, mid) {
      QuietLog(exact, db, db1);
      EnsureRolesLog(exact, db1, t.id, DEFAULT_ROLES[..k], now);
    }
  }

  lemma NewTenantConsistent(db: Db, t: Tenant)
    requires Inv(db) && t.id < db.nextId && !IsTenant(db.tenants, t.id)
    requires t.slug == t.schemaName && IsSlug(t.slug) && forall s | s in db.tenants :: s.slug != t.slug
    ensures var db1 := db.(tenants := db.tenants + [t]);
      Consistent(db1) && IsTenant(db1.tenants, t.id) && WeightsOk(db1.roles, t.id)
  {
    var db1 := db.(tenants := db.tenants + [t]);
    DistinctAppend(db.tenants, TenantId, t);
    DistinctAppend(db.tenants, TenantSlug, t);
    assert t in db1.tenants && IsTenant(db1.tenants, t.id);
    assert forall s | s in db.tenants :: s in db1.tenants;
    MoreTenants(db, db1.tenants);
    assert forall r | r in db.roles :: r.tenant != t.id;
  }

  lemma CreateTenantStands(db: Db, s: Step, mid: Db)
    requires Inv(db) && s.call.CreateTenantCall? && Within(db, s, mid)
    ensures Stands(db, mid, Next(db, s).queue)
  {
    var slug, host := Normal(s.call.schemaName), Lower(Strip(s.call.domain));
    ValidateSlugExact(s.call.schemaName);
    InsertStands(db, Strip(s.call.name), slug, host, s.call.isPrimary, s.now, mid);
    assert Next(db, s) == InsertTenant(db, Strip(s.call.name), slug, host, s.call.isPrimary, s.now).db;
  }

  lemma InsertStands(db: Db, name: string, slug: string, host: string, isPrimary: bool, now: nat, mid: Db)
    requires Inv(db) && IsSlug(slug) && TenantInsertable(db, name, slug, host)
    requires WithinTenant(db.(nextId := db.nextId + 1), Tenant(db.nextId, name, slug, slug, true), now, mid)
    ensures Stands(db, mid, InsertTenant(db, name, slug, host, isPrimary, now).db.queue)
  {
    var t, db1 := Tenant(db.nextId, name, slug, slug, true), db.(nextId := db.nextId + 1);
    assert forall u | u in db.tenants :: !SlugIs(slug)(u);
    TenantStands(db1, t, now, mid);
    InsertedQueue(db, name, slug, host, isPrimary, now);
    forall exact | LogOk(exact, db) ensures LogOk(exact, db1) {
      QuietLog(exact, db, db1);
    }
  }

  lemma InsertedQueue(db: Db, name: string, slug: string, host: string, isPrimary: bool, now: nat)
    requires TenantInsertable(db, name, slug, host)
    ensures InsertTenant(db, name, slug, host, isPrimary, now).db.queue ==
      AddTenant(db.(nextId := db.nextId + 1), Tenant(db.nextId, name, slug, slug, true), now).queue
  {
  }

  lemma CreateRoleStands(db: Db, s: Step, mid: Db)
    requires Inv(db) && Enabled(db, s.call) && s.call.CreateRoleCall? && Within(db, s, mid)
    ensures Stands(db, mid, Next(db, s).queue)
  {
    var r := Role(db.nextId, s.call.tenant, s.call.name, s.call.slug, false, s.call.weight, s.now);
    assert forall q | q in db.roles :: !RoleIs(r.tenant, r.slug)(q);
    AddRoleKeeps(db, r);
    forall exact | LogOk(exact, db) ensures LogOk(exact, mid) {
      AddRoleLog(exact, db, r);
    }
    assert Next(db, s) == EquipRole(db, r, s.call.codes).db;
  }

  lemma UpsertStands(db: Db, spec: TenantSpec, now: nat, mid: Db)
    requires Inv(db) && spec in DEMO_TENANTS && WithinUpsert(db, spec, now, mid)
    ensures Stands(db, mid, SeedTenant(db, spec, now).db.queue)
  {
    DemoSlugs();
    assert forall t | t in db.tenants :: !OtherTenantSlug(spec.id, spec.slug)(t);
    assert forall t | t in db.tenants :: !TenantIs(spec.id)(t);
    TenantStands(db, Tenant(spec.id, spec.name, spec.slug, spec.slug, true), now, mid);
    UpsertTenantCarries(db, spec, now);
    EquipTenantCarries(UpsertTenant(db, spec, now).db, spec, now);
  }

  /** A later point of a chain of stores that each carry the log on. */
  lemma StandsLater(db: Db, then_: Db, mid: Db, queue: seq<Delta>, queue': seq<Delta>)
    requires Inv(db) && Carries(db, then_) && then_.erased == db.erased
    requires Stands(then_, mid, queue) && queue <= queue'
    ensures Stands(db, mid, queue')
  {
  }

  lemma SeedStands(db: Db, now: nat, mid: Db)
    requires Inv(db) && WithinSeed(db, now, mid)
    ensures Stands(db, mid, Seed(db, now).db.queue)
  {
    var zeroth, one, two := EnsurePermissions(db, PERMISSION_CODES), DEMO_TENANTS[0], DEMO_TENANTS[1];
    var first := SeedTenant(zeroth, one, now);
    assert one in DEMO_TENANTS && two in DEMO_TENANTS;
    DemoPermissionsCarry(db);
    EnsurePermissionsFrame(db, PERMISSION_CODES);
    SeedTenantCarries(zeroth, one, now);
    SeedTenantFrame(zeroth, one, now);
    SeedQueueLater(db, now);
    if first.result.Ok? {
      SeedTenantCarries(first.db, two, now);
      SeedTenantFrame(first.db, two, now);
    }
    if WithinUpsert(zeroth, one, now, mid) {
      UpsertStands(zeroth, one, now, mid);
      StandsLater(db, zeroth, mid, first.db.queue, Seed(db, now).db.queue);
    } else if mid != first.db && WithinUpsert(first.db, two, now, mid) {
      UpsertStands(first.db, two, now, mid);
      StandsLater(db, first.db, mid, SeedTenant(first.db, two, now).db.queue, Seed(db, now).db.queue);
    }
  }

  /** What the parts of the seeder have sent stays sent. */
  lemma SeedQueueLater(db: Db, now: nat)
    requires Inv(db)
    ensures var first := SeedTenant(EnsurePermissions(db, PERMISSION_CODES), DEMO_TENANTS[0], now);
      && first.db.queue <= Seed(db, now).db.queue
      && (first.result.Ok? ==> SeedTenant(first.db, DEMO_TENANTS[1], now).db.queue <= Seed(db, now).db.queue)
  {
    var zeroth, one, two := EnsurePermissions(db, PERMISSION_CODES), DEMO_TENANTS[0], DEMO_TENANTS[1];
    assert one in DEMO_TENANTS && two in DEMO_TENANTS;
    DemoPermissionsCarry(db);
    SeedTenantCarries(zeroth, one, now);
    var tenants := SeedTenants(zeroth, now);
    if SeedTenant(zeroth, one, now).result.Ok? {
      SeedTenantFrame(SeedTenant(zeroth, one, now).db, two, now);
    }
    if tenants.result.Ok? {
      SeedAdminLater(tenants.db, now);
    }
    assert Seed(db, now).db.queue == SeedInside(db, now).db.queue;
  }

  lemma WithinStands(db: Db, s: Step, mid: Db)
    requires Inv(db) && Enabled(db, s.call) && Within(db, s, mid)
    ensures Stands(db, mid, Next(db, s).queue)
  {
    match s.call
    case CreateTenantCall(_, _, _, _) => CreateTenantStands(db, s, mid);
    case CreateRoleCall(_, _, _, _, _) => CreateRoleStands(db, s, mid);
    case SeedCall => SeedStands(db, s.now, mid);
  }

  /** Undoing the deltas queued since a store stood between two saves of a call gives its audited tables, in
      either reading. */
  lemma TravelInside(exact: bool, a: seq<Step>, s: Step, b: seq<Step>, mid: Db)
    requires Allowed(exact, EMPTY, a + [s] + b) && Within(Exec(EMPTY, a), s, mid)
    ensures var db := Exec(EMPTY, a + [s] + b); var c := Reading(exact, db.erased);
      && Consistent(mid) && Inv(db) && mid.queue <= db.queue
      && Rewind(Shot(db), OnLog(c, db.queue[|mid.queue|..])) == OnTables(c, Shot(mid))
  {
    var past, db := Exec(EMPTY, a), Exec(EMPTY, a + [s] + b);
    RunPrefix(exact, a + [s], b);
    assert (a + [s])[..|a|] == a;
    RunSound(exact, a);
    RunSound(exact, a + [s] + b);
    StepLater(past, s);
    WithinStands(past, s, mid);
    CanonicalCoarser(mid.erased, db.erased);
    RewindToPrefix(
      Reading(exact, db.erased), Reading(exact, mid.erased), mid.queue, db.queue, Shot(mid), Shot(db));
  }
}
