/** What the demo seeder leaves alone. */
module SeedFrame {

  import opened Rows
  import opened AuthModel
  import opened Services
  import opened StoreInvariant
  import opened Seeding
  import opened SeedIdempotence
  import Runs
  import opened ServiceEffects

  /** Tenants, hosts, roles and grants outside the tenants `ids` are as they were; no role and no permission is lost,
      roles are added to those tenants only, and none of them changes between active and inactive. */
  ghost predicate Apart(db: Db, db': Db, ids: set<nat>) {
    && (forall t: Tenant | t.id !in ids :: t in db'.tenants <==> t in db.tenants)
    && (forall t | t in db.tenants && t.id in ids :: Active(db'.tenants, t.id, t.isActive))
    && (forall d: Domain | d.tenant !in ids :: d in db'.domains <==> d in db.domains)
    && (forall r | r in db.roles :: r in db'.roles)
    && (forall r | r in db'.roles && r !in db.roles :: r.tenant in ids)
    && (forall r, p | r in db.roles && r.tenant !in ids ::
        Grant(r.id, p) in db'.grants <==> Grant(r.id, p) in db.grants)
    && (forall p | p in db.permissions :: p in db'.permissions)
  }

  ghost predicate Active(tenants: seq<Tenant>, id: nat, active: bool) {
    exists t | t in tenants :: t.id == id && t.isActive == active
  }

  /** Users, memberships, flags, notifications, tokens and events are as they were. */
  ghost predicate OthersSame(db: Db, db': Db) {
    && db'.users == db.users && db'.members == db.members && db'.flags == db.flags
    && db'.notifications == db.notifications && db'.tokens == db.tokens && db'.events == db.events
    && db'.erased == db.erased
  }

  lemma ApartTransitive(a: Db, b: Db, c: Db, ids: set<nat>, more: set<nat>)
    requires Apart(a, b, ids) && Apart(b, c, more)
    ensures Apart(a, c, ids + more)
  {
    forall t | t in a.tenants && t.id in ids + more ensures Active(c.tenants, t.id, t.isActive) {
      if t.id in ids {
        var s :| s in b.tenants && s.id == t.id && s.isActive == t.isActive;
        assert s.id !in more ==> s in c.tenants;
      }
    }
  }

  lemma PermissionsApart(db: Db)
    requires Inv(db)
    ensures var db' := EnsurePermissions(db, PERMISSION_CODES); Apart(db, db', {}) && OthersSame(db, db')
  {
    DemoPermissionsCarry(db);
    Runs.EnsurePermissionsFrame(db, PERMISSION_CODES);
  }

  lemma UpsertTenantApart(db: Db, spec: TenantSpec, now: nat)
    requires Inv(db) && spec in DEMO_TENANTS && UpsertTenant(db, spec, now).result.Ok?
    ensures var db' := UpsertTenant(db, spec, now).db; Apart(db, db', {spec.id}) && OthersSame(db, db')
  {
    UpsertTenantRows(db, spec, now);
    UpsertTenantExact(db, spec, now);
    Runs.UpsertTenantFrame(db, spec, now);
    match First(db.tenants, TenantIs(spec.id))
    case None => assert forall t | t in db.tenants :: !TenantIs(spec.id)(t);
    case Some(t) =>
      assert TenantIs(spec.id)(t);
      assert Tenant(spec.id, spec.name, spec.slug, spec.slug, t.isActive) in UpsertTenant(db, spec, now).db.tenants;
      forall s | s in db.tenants && s.id == spec.id ensures s == t {
        SameRow(db.tenants, TenantId, s, t);
      }
  }

  lemma UpsertDomainApart(db: Db, spec: TenantSpec)
    requires Inv(db) && UpsertDomain(db, spec.id, HostOf(spec)).result.Ok?
    ensures forall d: Domain | d.tenant != spec.id ::
      d in UpsertDomain(db, spec.id, HostOf(spec)).db.domains <==> d in db.domains
  {
    UpsertDomainRows(db, spec);
    var found := First(db.domains, DomainIs(spec.id, HostOf(spec)));
    if found.Some? {
      assert DomainIs(spec.id, HostOf(spec))(found.value);
    }
  }

  lemma EquipTenantApart(db: Db, spec: TenantSpec, now: nat)
    requires Inv(db) && TenantRow(db.tenants, spec) && EquipTenant(db, spec, now).result.Ok?
    ensures var db' := EquipTenant(db, spec, now).db; Apart(db, db', {spec.id}) && OthersSame(db, db')
  {
    EquipTenantRows(db, spec, now);
    EquipTenantCarries(db, spec, now);
    EquippedDomains(db, spec, now);
    UpsertDomainApart(db, spec);
    OwnRowsApart(db, EquipTenant(db, spec, now).db, spec.id);
  }

  lemma OwnRowsApart(db: Db, db': Db, id: nat)
    requires db' == db.(domains := db'.domains, grants := db'.grants, nextId := db'.nextId)
    requires OtherGrants(db, db', id) && forall d: Domain | d.tenant != id :: d in db'.domains <==> d in db.domains
    ensures Apart(db, db', {id}) && OthersSame(db, db')
  {
    assert forall t | t in db.tenants :: Active(db'.tenants, t.id, t.isActive);
  }

  lemma EquippedDomains(db: Db, spec: TenantSpec, now: nat)
    requires Inv(db) && IsTenant(db.tenants, spec.id) && EquipTenant(db, spec, now).result.Ok?
    ensures UpsertDomain(db, spec.id, HostOf(spec)).result.Ok?
    ensures EquipTenant(db, spec, now).db.domains == UpsertDomain(db, spec.id, HostOf(spec)).db.domains
  {
    UpsertDomainCarries(db, spec.id, HostOf(spec));
    var first := UpsertDomain(db, spec.id, HostOf(spec)).db;
    DefaultsThere(first, spec.id, now);
    MapRolesCarries(first, spec.id);
  }

  lemma SeedTenantApart(db: Db, spec: TenantSpec, now: nat)
    requires Inv(db) && spec in DEMO_TENANTS && SeedTenant(db, spec, now).result.Ok?
    ensures var db' := SeedTenant(db, spec, now).db; Apart(db, db', {spec.id}) && OthersSame(db, db')
  {
    UpsertTenantCarries(db, spec, now);
    UpsertTenantApart(db, spec, now);
    UpsertTenantRows(db, spec, now);
    var first := UpsertTenant(db, spec, now).db;
    EquipTenantApart(first, spec, now);
    ApartTransitive(db, first, EquipTenant(first, spec, now).db, {spec.id}, {spec.id});
  }

  lemma SeedTenantsApart(db: Db, now: nat)
    requires Inv(db) && SeedTenants(db, now).result.Ok?
    ensures var db' := SeedTenants(db, now).db; Apart(db, db', {1, 2}) && OthersSame(db, db')
    ensures Inv(SeedTenants(db, now).db) && IsTenant(SeedTenants(db, now).db.tenants, 1)
  {
    var one, two := DEMO_TENANTS[0], DEMO_TENANTS[1];
    assert one in DEMO_TENANTS && two in DEMO_TENANTS;
    SeedTenantCarries(db, one, now);
    SeedTenantApart(db, one, now);
    var first := SeedTenant(db, one, now).db;
    SecondTenantApart(db, first, two, now);
  }

  lemma SecondTenantApart(db: Db, first: Db, spec: TenantSpec, now: nat)
    requires Inv(first) && Apart(db, first, {1}) && OthersSame(db, first) && IsTenant(first.tenants, 1)
    requires spec in DEMO_TENANTS && spec.id == 2 && SeedTenant(first, spec, now).result.Ok?
    ensures var db' := SeedTenant(first, spec, now).db;
      Inv(db') && IsTenant(db'.tenants, 1) && Apart(db, db', {1, 2}) && OthersSame(db, db')
  {
    SeedTenantCarries(first, spec, now);
    SeedTenantApart(first, spec, now);
    BothApart(db, first, SeedTenant(first, spec, now).db);
  }

  lemma BothApart(db: Db, first: Db, second: Db)
    requires Apart(db, first, {1}) && OthersSame(db, first) && IsTenant(first.tenants, 1)
    requires Apart(first, second, {2}) && OthersSame(first, second)
    ensures IsTenant(second.tenants, 1) && Apart(db, second, {1, 2}) && OthersSame(db, second)
  {
    ApartTransitive(db, first, second, {1}, {2});
    assert {1} + {2} == {1, 2};
    var t :| t in first.tenants && t.id == 1;
    assert t in second.tenants;
  }

  // ---- The administrator -----------------------------------------------------------------

  /** Only the administrator's own row changes among the users. An account of that name keeps its identifier, stays as
      active and as privileged as it was; a new one is active and no superuser. */
  ghost predicate AdminKept(users: seq<User>, users': seq<User>, admin: User) {
    && admin in users' && admin.username == "admin@tenant1.localhost"
    && (forall u :: u in users' <==> u == admin || (u in users && u.username != admin.username))
    && (forall u | u in users && u.username == admin.username ::
        admin.id == u.id && admin.isActive == u.isActive && admin.isSuperuser == u.isSuperuser)
    && ((forall u | u in users :: u.username != admin.username) ==> admin.isActive && !admin.isSuperuser)
  }

  lemma UpsertAdminKept(db: Db)
    requires Inv(db)
    ensures AdminKept(db.users, UpsertAdmin(db).0.users, UpsertAdmin(db).1)
  {
    UpsertAdminCarries(db);
    var found := First(db.users, (u: User) => u.username == ADMIN_NAME);
    if found.Some? {
      forall u | u in db.users && (u.username == ADMIN_NAME || u.id == found.value.id) ensures u == found.value {
        if u.id == found.value.id {
          SameRow(db.users, UserId, u, found.value);
        } else {
          SameRow(db.users, Username, u, found.value);
        }
      }
    }
  }

  /** The administrator's seat in the first demo tenant is the one membership that may change, and one event is
      written. */
  ghost predicate AdminSeatOnly(db: Db, db': Db, admin: User) {
    && (forall m: Membership | !(m.user == admin.id && m.tenant == 1) :: m in db'.members <==> m in db.members)
    && db'.events == db.events + [RoleAssigned(admin.id, 1, "admin", None)]
    && db'.flags == db.flags && db'.notifications == db.notifications && db'.tokens == db.tokens
    && db'.erased == db.erased
  }

  ghost predicate SeedLeaves(db: Db, db': Db) {
    Apart(db, db', {1, 2}) &&
    exists admin :: AdminKept(db.users, db'.users, admin) && AdminSeatOnly(db, db', admin)
  }

  lemma SeedAdminLeaves(db: Db, now: nat)
    requires Inv(db) && IsTenant(db.tenants, 1)
    ensures var db' := SeedAdmin(db, now).db; var admin := UpsertAdmin(db).1;
      && AdminKept(db.users, db'.users, admin) && AdminSeatOnly(db, db', admin)
      && db'.tenants == db.tenants && db'.domains == db.domains && db'.roles == db.roles
      && db'.grants == db.grants && db'.permissions == db.permissions
  {
    SeedAdminSeats(db, now);
    UpsertAdminCarries(db);
    UpsertAdminKept(db);
    var (staffed, admin) := UpsertAdmin(db);
    AssignedRows(staffed, admin.id, 1, "admin", None, now);
  }

  lemma LeavesInTurn(db: Db, zeroth: Db, tenants: Db, db': Db, admin: User)
    requires Apart(db, zeroth, {}) && OthersSame(db, zeroth)
    requires Apart(zeroth, tenants, {1, 2}) && OthersSame(zeroth, tenants)
    requires AdminKept(tenants.users, db'.users, admin) && AdminSeatOnly(tenants, db', admin)
    requires db'.tenants == tenants.tenants && db'.domains == tenants.domains && db'.roles == tenants.roles
    requires db'.grants == tenants.grants && db'.permissions == tenants.permissions
    ensures SeedLeaves(db, db')
  {
    ApartTransitive(db, zeroth, tenants, {}, {1, 2});
    assert {} + {1, 2} == {1, 2};
  }

  lemma SuccessLeaves(db: Db, now: nat)
    requires Inv(db) && SeedInside(db, now).result.Ok?
    ensures SeedLeaves(db, SeedInside(db, now).db)
  {
    var zeroth := EnsurePermissions(db, PERMISSION_CODES);
    DemoPermissionsCarry(db);
    PermissionsApart(db);
    SeedTenantsApart(zeroth, now);
    var tenants := SeedTenants(zeroth, now).db;
    SeedAdminLeaves(tenants, now);
    LeavesInTurn(db, zeroth, tenants, SeedAdmin(tenants, now).db, UpsertAdmin(tenants).1);
  }

  /** A seed that fails gives back every table. One that succeeds touches nothing outside the two demo tenants, the
      administrator's account and the administrator's seat in the first of them. */
  lemma SeedLeavesAlone(db: Db, now: nat)
    requires Inv(db)
    ensures var out := Seed(db, now);
      if out.result.Ok? then SeedLeaves(db, out.db)
      else out.db == db.(queue := out.db.queue, nextId := out.db.nextId)
  {
    if Seed(db, now).result.Ok? {
      SuccessLeaves(db, now);
    }
  }
}
