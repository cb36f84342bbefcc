/** The demo seeder: what it does to the store, and that it keeps the store and its log. */
module Seeding {

  import opened Rows
  import opened Text
  import opened AuthModel
  import opened Slugs
  import opened Services
  import opened StoreInvariant
  import opened AuditReplay

  datatype TenantSpec = TenantSpec(id: nat, name: string, slug: string)

  const DEMO_TENANTS: seq<TenantSpec> :=
    [TenantSpec(1, "Tenant One", "tenant1"), TenantSpec(2, "Tenant Two", "tenant2")]

  const ADMIN_NAME := "admin@tenant1.localhost"

  const PERMISSION_CODES: seq<string> :=
    ["user:invite", "po:create", "po:approve", "grn:create", "audit:view", "feature:toggle"]

  function Description(code: string): string {
    if code == "user:invite" then "Invite a new user to the tenant"
    else if code == "po:create" then "Create a Purchase Order"
    else if code == "po:approve" then "Approve a Purchase Order"
    else if code == "grn:create" then "Create a Goods Received Note"
    else if code == "audit:view" then "View the tenant audit logs"
    else "Toggle tenant feature flags"
  }

  /** The codes that the seeder maps to a default role. */
  function MappedCodes(slug: string): seq<string> {
    if slug == "owner" then PERMISSION_CODES
    else if slug == "admin" then ["user:invite", "po:create", "grn:create", "audit:view"]
    else if slug == "member" then ["po:create", "grn:create"]
    else []
  }

  function HostOf(spec: TenantSpec): string {
    spec.slug + ".localhost"
  }

  function EnsurePermissions(db: Db, codes: seq<string>): Db {
    if codes == [] then db
    else
      var n := |codes| - 1;
      GetOrCreatePermission(EnsurePermissions(db, codes[..n]), codes[n], Description(codes[n])).db
  }

  function OtherTenantSlug(id: nat, slug: string): Tenant -> bool {
    (t: Tenant) => t.id != id && (t.slug == slug || t.schemaName == slug)
  }

  /** `Tenant.objects.update_or_create(id=..., ...)`. */
  function UpsertTenant(db: Db, spec: TenantSpec, now: nat): Outcome<()> {
    if Exists(db.tenants, OtherTenantSlug(spec.id, spec.slug)) then Outcome(db, Err(Integrity))
    else match First(db.tenants, TenantIs(spec.id))
      case None => Outcome(AddTenant(db, Tenant(spec.id, spec.name, spec.slug, spec.slug, true), now), Ok(()))
      case Some(t) =>
        var row := Tenant(spec.id, spec.name, spec.slug, spec.slug, t.isActive);
        Outcome(db.(tenants := Replace(db.tenants, TenantId, row)), Ok(()))
  }

  function DomainIs(tenant: nat, host: string): Domain -> bool {
    (d: Domain) => d.tenant == tenant && d.domain == host
  }

  /** `Domain.objects.update_or_create(tenant=..., domain=..., ...)`. */
  function UpsertDomain(db: Db, tenant: nat, host: string): Outcome<()> {
    match First(db.domains, DomainIs(tenant, host))
    case Some(d) => Outcome(db.(domains := Replace(db.domains, DomainId, d.(isPrimary := true))), Ok(()))
    case None =>
      if Exists(db.domains, HostIs(host)) then Outcome(db, Err(Integrity))
      else Outcome(AddDomain(db, tenant, host, true), Ok(()))
  }

  /** The permissions that the seeder gives to a role with this slug. */
  function MappedPermissions(db: Db, slug: string): seq<Permission> {
    Where(db.permissions, CodeIn(MappedCodes(slug)))
  }

  function MapRole(db: Db, tenant: nat, slug: string): Db {
    match First(db.roles, RoleIs(tenant, slug))
    case None => db
    case Some(r) => db.(grants := SetGrants(db.grants, r.id, MappedPermissions(db, slug)))
  }

  function MapRoles(db: Db, tenant: nat): Db {
    MapRole(MapRole(MapRole(db, tenant, "owner"), tenant, "admin"), tenant, "member")
  }

  /** The domain, the default roles and their permissions, for a tenant that exists. */
  function EquipTenant(db: Db, spec: TenantSpec, now: nat): Outcome<()> {
    var first := UpsertDomain(db, spec.id, HostOf(spec));
    if first.result.Err? then first
    else Outcome(MapRoles(EnsureRoles(first.db, spec.id, DEFAULT_ROLES, now), spec.id), Ok(()))
  }

  function SeedTenant(db: Db, spec: TenantSpec, now: nat): Outcome<()> {
    var first := UpsertTenant(db, spec, now);
    if first.result.Err? then first else EquipTenant(first.db, spec, now)
  }

  function UpsertAdmin(db: Db): (Db, User) {
    match First(db.users, (u: User) => u.username == ADMIN_NAME)
    case Some(u) =>
      var v := u.(email := ADMIN_NAME, firstName := "Demo", lastName := "Admin", usablePassword := true);
      (db.(users := Replace(db.users, UserId, v)), v)
    case None =>
      var v := User(db.nextId, ADMIN_NAME, ADMIN_NAME, "Demo", "Admin", true, false, true);
      (db.(users := db.users + [v], nextId := db.nextId + 1), v)
  }

  function SeedTenants(db: Db, now: nat): Outcome<()> {
    var first := SeedTenant(db, DEMO_TENANTS[0], now);
    if first.result.Err? then first else SeedTenant(first.db, DEMO_TENANTS[1], now)
  }

  function SeedAdmin(db: Db, now: nat): Outcome<()> {
    var (staffed, admin) := UpsertAdmin(db);
    var seated := AssignRole(staffed, admin.id, DEMO_TENANTS[0].id, "admin", None, now);
    Outcome(seated.db, if seated.result.Err? then Err(seated.result.error) else Ok(()))
  }

  /** The body of `seed`, inside its atomic block. */
  function SeedInside(db: Db, now: nat): Outcome<()> {
    var tenants := SeedTenants(EnsurePermissions(db, PERMISSION_CODES), now);
    if tenants.result.Err? then tenants else SeedAdmin(tenants.db, now)
  }

  /** An atomic block: on an error the tables of before it, with what had been sent to the worker. */
  function Atomic(before: Db, inside: Outcome<()>): Outcome<()> {
    if inside.result.Err? then Outcome(RolledBack(before, inside.db), inside.result) else inside
  }

  function Seed(db: Db, now: nat): Outcome<()> {
    Atomic(db, SeedInside(db, now))
  }

  // ---- The store and the log are kept at every point of the seeder -----------------------

  ghost predicate Sound(exact: bool, db: Db) {
    Inv(db) && LogOk(exact, db)
  }

  /** The store is kept, and so is a right log, in either reading. */
  ghost predicate Carries(db: Db, db': Db)
    requires Inv(db)
  {
    Inv(db') && forall exact | LogOk(exact, db) :: LogOk(exact, db')
  }

  lemma QuietCarries(db: Db, db': Db)
    requires Inv(db) && Inv(db')
    requires db'.roles == db.roles && db'.members == db.members && db'.flags == db.flags
    requires db'.queue == db.queue && db'.erased == db.erased
    ensures Carries(db, db')
  {
    forall exact | LogOk(exact, db) ensures LogOk(exact, db') {
      QuietLog(exact, db, db');
    }
  }

  ghost predicate HasCode(permissions: seq<Permission>, code: string) {
    exists p | p in permissions :: p.code == code
  }

  /** The seeder's permissions. */
  lemma DemoPermissionsCarry(db: Db)
    requires Inv(db)
    ensures var db' := EnsurePermissions(db, PERMISSION_CODES);
      && Carries(db, db') && (forall p | p in db.permissions :: p in db'.permissions)
      && forall c | c in PERMISSION_CODES :: HasCode(db'.permissions, c)
  {
    assert forall i | 0 <= i < |PERMISSION_CODES| :: Storable(PERMISSION_CODES[i], 100);
    EnsurePermissionsCarries(db, PERMISSION_CODES);
  }

  lemma {:induction false} EnsurePermissionsCarries(db: Db, codes: seq<string>)
    requires Inv(db) && forall c | c in codes :: Storable(c, 100)
    ensures Carries(db, EnsurePermissions(db, codes))
    ensures forall p | p in db.permissions :: p in EnsurePermissions(db, codes).permissions
    ensures forall c | c in codes :: HasCode(EnsurePermissions(db, codes).permissions, c)
  {
    if codes != [] {
      var init, c := codes[..|codes| - 1], codes[|codes| - 1];
      assert codes == init + [c];
      EnsurePermissionsCarries(db, init);
      EnsurePermissionCarries(EnsurePermissions(db, init), c, Description(c));
    }
  }

  lemma EnsurePermissionCarries(db: Db, code: string, description: string)
    requires Inv(db) && Storable(code, 100)
    ensures var out := GetOrCreatePermission(db, code, description);
      && Carries(db, out.db) && HasCode(out.db.permissions, code)
      && (forall p | p in db.permissions :: p in out.db.permissions)
      && (forall c | HasCode(db.permissions, c) :: HasCode(out.db.permissions, c))
  {
    match First(db.permissions, CodeIs(code))
    case Some(p) => assert CodeIs(code)(p);
    case None =>
      assert forall p | p in db.permissions :: !CodeIs(code)(p);
      CreatePermissionKeeps(db, code, description);
      var out := CreatePermission(db, code, description);
      assert out.result.value in out.db.permissions;
      QuietCarries(db, out.db);
  }

  lemma DemoSlugs()
    ensures forall spec | spec in DEMO_TENANTS :: IsSlug(spec.slug) && spec.id < FIRST_FREE_ID
  {
    TenantWord("tenant1");
    TenantWord("tenant2");
  }

  lemma TenantWord(w: string)
    requires |w| == 7 && w[..6] == "tenant" && '1' <= w[6] <= '2'
    ensures IsSlug(w)
  {
    assert forall i | 0 <= i < 6 :: w[i] == w[..6][i];
    WordIsSlug(w);
  }

  lemma UpsertTenantCarries(db: Db, spec: TenantSpec, now: nat)
    requires Inv(db) && spec in DEMO_TENANTS
    ensures var out := UpsertTenant(db, spec, now);
      && Carries(db, out.db) && (out.result.Err? ==> out.db == db)
      && (out.result.Ok? ==> IsTenant(out.db.tenants, spec.id))
  {
    DemoSlugs();
    if !Exists(db.tenants, OtherTenantSlug(spec.id, spec.slug)) {
      assert forall t | t in db.tenants :: !OtherTenantSlug(spec.id, spec.slug)(t);
      match First(db.tenants, TenantIs(spec.id))
      case None =>
        assert forall t | t in db.tenants :: !TenantIs(spec.id)(t);
        var t := Tenant(spec.id, spec.name, spec.slug, spec.slug, true);
        AddTenantKeeps(db, t, now);
        forall exact | LogOk(exact, db) ensures LogOk(exact, AddTenant(db, t, now)) {
          AddTenantLog(exact, db, t, now);
        }
        assert t in AddTenant(db, t, now).tenants;
      case Some(t) =>
        RenameTenantCarries(db, t, Tenant(spec.id, spec.name, spec.slug, spec.slug, t.isActive));
    }
  }

  lemma RenameTenantCarries(db: Db, t: Tenant, row: Tenant)
    requires Inv(db) && t in db.tenants && t.id == row.id && row.slug == row.schemaName && IsSlug(row.slug)
    requires forall s | s in db.tenants :: s.id != row.id ==> s.slug != row.slug
    ensures Carries(db, db.(tenants := Replace(db.tenants, TenantId, row)))
    ensures IsTenant(Replace(db.tenants, TenantId, row), row.id)
  {
    var tenants := Replace(db.tenants, TenantId, row);
    DistinctReplace(db.tenants, TenantId, row, TenantId);
    forall i, j | 0 <= i < j < |tenants| ensures TenantSlug(tenants[i]) != TenantSlug(tenants[j]) {
      assert TenantId(db.tenants[i]) != TenantId(db.tenants[j]);
      assert TenantSlug(db.tenants[i]) != TenantSlug(db.tenants[j]);
      assert db.tenants[i] in db.tenants && db.tenants[j] in db.tenants;
    }
    forall id | IsTenant(db.tenants, id) ensures IsTenant(tenants, id) {
      var s :| s in db.tenants && s.id == id;
      assert if s.id == row.id then row in tenants else s in tenants;
    }
    MoreTenants(db, tenants);
    assert forall s | s in tenants :: IsTenant(db.tenants, s.id);
    var db' := db.(tenants := tenants);
    forall s, d | s in tenants && d in DEFAULT_ROLES ensures HasDefaultRole(db.roles, s.id, d) {
      var u :| u in db.tenants && u.id == s.id;
    }
    QuietCarries(db, db');
  }

  lemma UpsertDomainCarries(db: Db, tenant: nat, host: string)
    requires Inv(db) && IsTenant(db.tenants, tenant)
    ensures var out := UpsertDomain(db, tenant, host);
      && Carries(db, out.db) && db.nextId <= out.db.nextId
      && out.db == db.(domains := out.db.domains, nextId := out.db.nextId)
  {
    var out := UpsertDomain(db, tenant, host);
    match First(db.domains, DomainIs(tenant, host))
    case Some(d) =>
      var row := d.(isPrimary := true);
      ReplaceDomainKeeps(db, d, row);
      QuietCarries(db, out.db);
    case None =>
      if out.result.Ok? {
        AddDomainKeeps(db, tenant, host, true);
        QuietCarries(db, out.db);
      }
  }

  lemma ReplaceDomainKeeps(db: Db, d: Domain, row: Domain)
    requires Inv(db) && d in db.domains && row == d.(isPrimary := row.isPrimary)
    ensures Inv(db.(domains := Replace(db.domains, DomainId, row)))
  {
    var domains := Replace(db.domains, DomainId, row);
    forall y | y in db.domains && DomainId(y) == DomainId(row) ensures DomainName(y) == DomainName(row) {
      SameRow(db.domains, DomainId, y, d);
    }
    DistinctReplace(db.domains, DomainId, row, DomainId);
    DistinctReplace(db.domains, DomainId, row, DomainName);
  }

  lemma MapRoleCarries(db: Db, tenant: nat, slug: string)
    requires Inv(db)
    ensures Carries(db, MapRole(db, tenant, slug))
    ensures MapRole(db, tenant, slug) == db.(grants := MapRole(db, tenant, slug).grants)
  {
    match First(db.roles, RoleIs(tenant, slug))
    case None =>
    case Some(r) =>
      SetGrantsKeeps(db, r.id, MappedPermissions(db, slug));
      QuietCarries(db, MapRole(db, tenant, slug));
  }

  lemma MapRolesCarries(db: Db, tenant: nat)
    requires Inv(db)
    ensures Carries(db, MapRoles(db, tenant)) && MapRoles(db, tenant) == db.(grants := MapRoles(db, tenant).grants)
  {
    MapRoleCarries(db, tenant, "owner");
    var next := MapRole(db, tenant, "owner");
    MapRoleCarries(next, tenant, "admin");
    MapRoleCarries(MapRole(next, tenant, "admin"), tenant, "member");
  }

  lemma {:induction false} EnsureRolesDone(db: Db, tenant: nat, defaults: seq<DefaultRole>, now: nat)
    requires forall d | d in defaults :: HasDefaultRole(db.roles, tenant, d)
    ensures EnsureRoles(db, tenant, defaults, now) == db
  {
    if defaults != [] {
      var n := |defaults| - 1;
      EnsureRolesDone(db, tenant, defaults[..n], now);
      assert defaults[n] in defaults && HasDefaultRole(db.roles, tenant, defaults[n]);
      assert Exists(db.roles, RoleIs(tenant, defaults[n].slug));
    }
  }

  /** The default roles of an existing tenant are all there. */
  lemma DefaultsThere(db: Db, tenant: nat, now: nat)
    requires Inv(db) && IsTenant(db.tenants, tenant)
    ensures EnsureRoles(db, tenant, DEFAULT_ROLES, now) == db
  {
    var t :| t in db.tenants && t.id == tenant;
    EnsureRolesDone(db, tenant, DEFAULT_ROLES, now);
  }

  lemma EquipTenantCarries(db: Db, spec: TenantSpec, now: nat)
    requires Inv(db) && IsTenant(db.tenants, spec.id)
    ensures var db' := EquipTenant(db, spec, now).db;
      && Carries(db, db') && db.nextId <= db'.nextId
      && db' == db.(domains := db'.domains, grants := db'.grants, nextId := db'.nextId)
  {
    UpsertDomainCarries(db, spec.id, HostOf(spec));
    var first := UpsertDomain(db, spec.id, HostOf(spec));
    if first.result.Ok? {
      DefaultsThere(first.db, spec.id, now);
      MapRolesCarries(first.db, spec.id);
    }
  }

  lemma SeedTenantCarries(db: Db, spec: TenantSpec, now: nat)
    requires Inv(db) && spec in DEMO_TENANTS
    ensures Carries(db, SeedTenant(db, spec, now).db)
    ensures SeedTenant(db, spec, now).result.Ok? ==> IsTenant(SeedTenant(db, spec, now).db.tenants, spec.id)
  {
    UpsertTenantCarries(db, spec, now);
    if UpsertTenant(db, spec, now).result.Ok? {
      EquipTenantCarries(UpsertTenant(db, spec, now).db, spec, now);
    }
  }

  lemma UpsertAdminCarries(db: Db)
    requires Inv(db)
    ensures Carries(db, UpsertAdmin(db).0) && UpsertAdmin(db).1 in UpsertAdmin(db).0.users
    ensures UpsertAdmin(db).0 == db.(users := UpsertAdmin(db).0.users, nextId := UpsertAdmin(db).0.nextId)
  {
    var (db', v) := UpsertAdmin(db);
    match First(db.users, (u: User) => u.username == ADMIN_NAME)
    case Some(u) =>
      forall w | w in db.users && w.id == v.id ensures w == u {
        SameRow(db.users, UserId, w, u);
      }
      DistinctReplace(db.users, UserId, v, UserId);
      DistinctReplace(db.users, UserId, v, Username);
      forall id | IsUser(db.users, id) ensures IsUser(db'.users, id) {
        var w :| w in db.users && w.id == id;
        assert if w.id == v.id then v in db'.users else w in db'.users;
      }
      MoreUsers(db, db'.users);
      QuietCarries(db, db');
    case None =>
      DistinctAppend(db.users, UserId, v);
      DistinctAppend(db.users, Username, v);
      assert forall w | w in db.users :: w in db'.users;
      MoreUsers(db, db'.users);
      QuietCarries(db, db');
  }

  lemma SeedTenantsCarries(db: Db, now: nat)
    requires Inv(db)
    ensures Carries(db, SeedTenants(db, now).db)
  {
    assert DEMO_TENANTS[0] in DEMO_TENANTS && DEMO_TENANTS[1] in DEMO_TENANTS;
    SeedTenantCarries(db, DEMO_TENANTS[0], now);
    if SeedTenant(db, DEMO_TENANTS[0], now).result.Ok? {
      SeedTenantCarries(SeedTenant(db, DEMO_TENANTS[0], now).db, DEMO_TENANTS[1], now);
    }
  }

  lemma SeedAdminCarries(db: Db, now: nat)
    requires Inv(db)
    ensures Carries(db, SeedAdmin(db, now).db)
  {
    UpsertAdminCarries(db);
    var (staffed, admin) := UpsertAdmin(db);
    AssignRoleKeeps(staffed, admin.id, DEMO_TENANTS[0].id, "admin", None, now);
    forall exact | LogOk(exact, staffed) ensures LogOk(exact, SeedAdmin(db, now).db) {
      AssignRoleLog(exact, staffed, admin.id, DEMO_TENANTS[0].id, "admin", None, now);
    }
  }

  lemma SeedInsideCarries(db: Db, now: nat)
    requires Inv(db)
    ensures Carries(db, SeedInside(db, now).db)
  {
    DemoPermissionsCarry(db);
    SeedTenantsCarries(EnsurePermissions(db, PERMISSION_CODES), now);
    var tenants := SeedTenants(EnsurePermissions(db, PERMISSION_CODES), now);
    if tenants.result.Ok? {
      SeedAdminCarries(tenants.db, now);
    }
  }
}
