/** When seeding succeeds, when a failure leaks, and that a second seed changes nothing but the audit
    events. */
module SeedIdempotence {

  import opened Rows
  import opened DeltaLog
  import opened AuthModel
  import opened Services
  import opened StoreInvariant
  import opened Seeding
  import opened Queries
  import opened Runs

  // ---- What a successful seed leaves -----------------------------------------------------

  ghost predicate TenantRow(tenants: seq<Tenant>, spec: TenantSpec) {
    exists t | t in tenants ::
      t.id == spec.id && t.name == spec.name && t.slug == spec.slug && t.schemaName == spec.slug
  }

  ghost predicate DomainRow(domains: seq<Domain>, spec: TenantSpec) {
    exists d | d in domains :: d.tenant == spec.id && d.domain == HostOf(spec) && d.isPrimary
  }

  /** The role holds exactly the permissions that the seeder maps to its slug. */
  ghost predicate MappedExactly(grants: seq<Grant>, permissions: seq<Permission>, r: Role) {
    forall p | p in permissions :: Grant(r.id, p.id) in grants <==> p.code in MappedCodes(r.slug)
  }

  ghost predicate RolesMapped(db: Db, tenant: nat) {
    forall r | r in db.roles && r.tenant == tenant && r.slug in ["owner", "admin", "member"] ::
      MappedExactly(db.grants, db.permissions, r)
  }

  ghost predicate TenantSettled(db: Db, spec: TenantSpec) {
    TenantRow(db.tenants, spec) && DomainRow(db.domains, spec) && RolesMapped(db, spec.id)
  }

  ghost predicate IsAdmin(u: User) {
    && u.username == ADMIN_NAME && u.email == ADMIN_NAME
    && u.firstName == "Demo" && u.lastName == "Admin" && u.usablePassword
  }

  ghost predicate AdminSeated(db: Db) {
    exists u, m, r | u in db.users && m in db.members && r in db.roles ::
      IsAdmin(u) && m.user == u.id && m.tenant == 1 && m.role == r.id && m.assignedBy == None &&
      r.tenant == 1 && r.slug == "admin"
  }

  ghost predicate Seeded(db: Db) {
    && (forall c | c in PERMISSION_CODES :: HasCode(db.permissions, c))
    && TenantSettled(db, DEMO_TENANTS[0]) && TenantSettled(db, DEMO_TENANTS[1])
    && AdminSeated(db)
  }

  // ---- A seeded store is a fixed point ---------------------------------------------------

  lemma {:induction false} WhereAll<T(!new)>(rows: seq<T>, p: T -> bool)
    requires forall x | x in rows :: p(x)
    ensures Where(rows, p) == rows
  {
    if rows != [] {
      WhereAll(rows[1..], p);
    }
  }

  lemma ReplaceSame<T(!new)>(rows: seq<T>, id: T -> nat, row: T)
    requires Distinct(rows, id) && row in rows
    ensures Replace(rows, id, row) == rows
  {
    forall i | 0 <= i < |rows| ensures Replace(rows, id, row)[i] == rows[i] {
      if id(rows[i]) == id(row) {
        SameRow(rows, id, rows[i], row);
      }
    }
  }

  lemma {:induction false} EnsurePermissionsSettled(db: Db, codes: seq<string>)
    requires forall c | c in codes :: HasCode(db.permissions, c)
    ensures EnsurePermissions(db, codes) == db
  {
    if codes != [] {
      var n := |codes| - 1;
      EnsurePermissionsSettled(db, codes[..n]);
      assert HasCode(db.permissions, codes[n]);
      var p :| p in db.permissions && p.code == codes[n];
      assert CodeIs(codes[n])(p);
    }
  }

  lemma UpsertTenantSettled(db: Db, spec: TenantSpec, now: nat)
    requires Inv(db) && TenantRow(db.tenants, spec)
    ensures UpsertTenant(db, spec, now) == Outcome(db, Ok(()))
  {
    var t :| t in db.tenants &&
      t.id == spec.id && t.name == spec.name && t.slug == spec.slug && t.schemaName == spec.slug;
    forall s | s in db.tenants ensures !OtherTenantSlug(spec.id, spec.slug)(s) {
      if s.slug == spec.slug {
        SameRow(db.tenants, TenantSlug, s, t);
      }
    }
    assert TenantIs(spec.id)(t);
    SameRow(db.tenants, TenantId, t, First(db.tenants, TenantIs(spec.id)).value);
    ReplaceSame(db.tenants, TenantId, t);
  }

  lemma UpsertDomainSettled(db: Db, spec: TenantSpec)
    requires Inv(db) && DomainRow(db.domains, spec)
    ensures UpsertDomain(db, spec.id, HostOf(spec)) == Outcome(db, Ok(()))
  {
    var d :| d in db.domains && d.tenant == spec.id && d.domain == HostOf(spec) && d.isPrimary;
    assert DomainIs(spec.id, HostOf(spec))(d);
    SameRow(db.domains, DomainName, d, First(db.domains, DomainIs(spec.id, HostOf(spec))).value);
    ReplaceSame(db.domains, DomainId, d);
  }

  lemma {:induction false} AddGrantsSettled(grants: seq<Grant>, role: nat, permissions: seq<Permission>)
    requires forall p | p in permissions :: Grant(role, p.id) in grants
    ensures AddGrants(grants, role, permissions) == grants
  {
    if permissions != [] {
      AddGrantsSettled(grants, role, permissions[..|permissions| - 1]);
    }
  }

  lemma MapRoleSettled(db: Db, tenant: nat, slug: string)
    requires Inv(db) && RolesMapped(db, tenant) && slug in ["owner", "admin", "member"]
    ensures MapRole(db, tenant, slug) == db
  {
    match First(db.roles, RoleIs(tenant, slug))
    case None =>
    case Some(r) =>
      assert RoleIs(tenant, slug)(r) && MappedExactly(db.grants, db.permissions, r);
      var mapped := MappedPermissions(db, slug);
      forall g | g in db.grants ensures Not(StaleGrant(r.id, mapped))(g) {
        if g.role == r.id {
          var p :| p in db.permissions && p.id == g.permission;
          assert g == Grant(r.id, p.id) && CodeIn(MappedCodes(slug))(p);
          assert p in mapped;
        }
      }
      WhereAll(db.grants, Not(StaleGrant(r.id, mapped)));
      assert forall p | p in mapped :: CodeIn(MappedCodes(slug))(p);
      AddGrantsSettled(db.grants, r.id, mapped);
  }

  lemma SeedTenantSettled(db: Db, spec: TenantSpec, now: nat)
    requires Inv(db) && TenantSettled(db, spec)
    ensures SeedTenant(db, spec, now) == Outcome(db, Ok(()))
  {
    UpsertTenantSettled(db, spec, now);
    UpsertDomainSettled(db, spec);
    DefaultsThere(db, spec.id, now);
    MapRoleSettled(db, spec.id, "owner");
    MapRoleSettled(db, spec.id, "admin");
    MapRoleSettled(db, spec.id, "member");
  }

  lemma UnchangedRow(text: Fields)
    ensures Changed(text.Keys, text, text) == map[]
  {
  }

  lemma UpsertAdminSettled(db: Db, u: User)
    requires Inv(db) && u in db.users && IsAdmin(u)
    ensures UpsertAdmin(db) == (db, u)
  {
    SameRow(db.users, Username, u, First(db.users, (v: User) => v.username == ADMIN_NAME).value);
    ReplaceSame(db.users, UserId, u);
  }

  lemma SeatMemberSettled(db: Db, m: Membership, now: nat)
    requires Inv(db) && m in db.members
    ensures SeatMember(db, m.user, m.tenant, m.role, m.assignedBy, now) == (db, m)
  {
    assert SeatIs(m.user, m.tenant)(m);
    SameRow(db.members, MemberSeat, m, First(db.members, SeatIs(m.user, m.tenant)).value);
    ReplaceSame(db.members, MemberId, m);
    UnchangedRow(TextOf(MemberRow(m)));
    assert db.queue + [] == db.queue;
  }

  lemma SeedAdminSettled(db: Db, now: nat)
    requires Inv(db) && AdminSeated(db)
    ensures exists id ::
      SeedAdmin(db, now) == Outcome(db.(events := db.events + [RoleAssigned(id, 1, "admin", None)]), Ok(()))
  {
    var u, m, r :| u in db.users && m in db.members && r in db.roles &&
      IsAdmin(u) && m.user == u.id && m.tenant == 1 && m.role == r.id && m.assignedBy == None &&
      r.tenant == 1 && r.slug == "admin";
    UpsertAdminSettled(db, u);
    assert RoleIs(1, "admin")(r);
    SameRow(db.roles, RoleName, r, First(db.roles, RoleIs(1, "admin")).value);
    SeatMemberSettled(db, m, now);
    assert SeedAdmin(db, now) == Outcome(db.(events := db.events + [RoleAssigned(u.id, 1, "admin", None)]), Ok(()));
  }

  lemma SeededIsFixed(db: Db, now: nat)
    requires Inv(db) && Seeded(db)
    ensures exists id ::
      Seed(db, now) == Outcome(db.(events := db.events + [RoleAssigned(id, 1, "admin", None)]), Ok(()))
  {
    EnsurePermissionsSettled(db, PERMISSION_CODES);
    SeedTenantSettled(db, DEMO_TENANTS[0], now);
    SeedTenantSettled(db, DEMO_TENANTS[1], now);
    SeedAdminSettled(db, now);
  }

  // ---- A successful seed leaves a seeded store -------------------------------------------

  lemma UpsertTenantRows(db: Db, spec: TenantSpec, now: nat)
    requires Inv(db) && spec in DEMO_TENANTS && UpsertTenant(db, spec, now).result.Ok?
    ensures var db' := UpsertTenant(db, spec, now).db;
      && TenantRow(db'.tenants, spec)
      && (forall t | t in db.tenants && t.id != spec.id :: t in db'.tenants)
      && (forall r | r in db'.roles && r !in db.roles :: !IsTenant(db.tenants, spec.id) && r.tenant == spec.id)
      && db' == db.(tenants := db'.tenants, roles := db'.roles, queue := db'.queue, nextId := db'.nextId)
  {
    DemoSlugs();
    assert forall t | t in db.tenants :: !OtherTenantSlug(spec.id, spec.slug)(t);
    match First(db.tenants, TenantIs(spec.id))
    case None =>
      assert forall t | t in db.tenants :: !TenantIs(spec.id)(t);
      var t := Tenant(spec.id, spec.name, spec.slug, spec.slug, true);
      AddTenantKeeps(db, t, now);
      EnsureRolesOwn(db.(tenants := db.tenants + [t]), t.id, DEFAULT_ROLES, now);
      assert t in UpsertTenant(db, spec, now).db.tenants;
    case Some(t) =>
      var row := Tenant(spec.id, spec.name, spec.slug, spec.slug, t.isActive);
      assert TenantIs(spec.id)(t);
      assert row in Replace(db.tenants, TenantId, row);
  }

  lemma {:induction false} EnsureRolesOwn(db: Db, tenant: nat, defaults: seq<DefaultRole>, now: nat)
    ensures forall r | r in EnsureRoles(db, tenant, defaults, now).roles && r !in db.roles :: r.tenant == tenant
  {
    if defaults != [] {
      EnsureRolesOwn(db, tenant, defaults[..|defaults| - 1], now);
    }
  }

  lemma UpsertDomainRows(db: Db, spec: TenantSpec)
    requires Inv(db) && UpsertDomain(db, spec.id, HostOf(spec)).result.Ok?
    ensures var db' := UpsertDomain(db, spec.id, HostOf(spec)).db;
      DomainRow(db'.domains, spec) && forall d | d in db.domains && d.tenant != spec.id :: d in db'.domains
  {
    var db' := UpsertDomain(db, spec.id, HostOf(spec)).db;
    match First(db.domains, DomainIs(spec.id, HostOf(spec)))
    case Some(d) =>
      assert DomainIs(spec.id, HostOf(spec))(d) && d.(isPrimary := true) in db'.domains;
      forall e | e in db.domains && e.tenant != spec.id ensures e in db'.domains {
        if e.id == d.id {
          SameRow(db.domains, DomainId, e, d);
        }
      }
    case None =>
      assert db'.domains[|db.domains|] in db'.domains;
  }

  /** Mapping one role gives it exactly its permissions, and leaves the other roles alone. */
  lemma MapRoleRows(db: Db, tenant: nat, slug: string)
    requires Inv(db)
    ensures forall r | r in db.roles :: if r.tenant == tenant && r.slug == slug
      then MappedExactly(MapRole(db, tenant, slug).grants, db.permissions, r)
      else forall p :: Grant(r.id, p) in MapRole(db, tenant, slug).grants <==> Grant(r.id, p) in db.grants
  {
    match First(db.roles, RoleIs(tenant, slug))
    case None => assert forall r | r in db.roles :: !RoleIs(tenant, slug)(r);
    case Some(q) =>
      assert RoleIs(tenant, slug)(q);
      SetGrantsRows(db.grants, q.id, MappedPermissions(db, slug));
      MappedById(db, slug);
      forall r | r in db.roles && (r.id == q.id || RoleName(r) == RoleName(q)) ensures r == q {
        if r.id == q.id {
          SameRow(db.roles, RoleId, r, q);
        } else {
          SameRow(db.roles, RoleName, r, q);
        }
      }
  }

  lemma MappedById(db: Db, slug: string)
    requires Inv(db)
    ensures forall p | p in db.permissions ::
      IsPermission(MappedPermissions(db, slug), p.id) <==> p.code in MappedCodes(slug)
  {
    forall p | p in db.permissions
      ensures IsPermission(MappedPermissions(db, slug), p.id) <==> p.code in MappedCodes(slug)
    {
      if q :| q in MappedPermissions(db, slug) && q.id == p.id {
        SameRow(db.permissions, PermissionId, p, q);
        assert CodeIn(MappedCodes(slug))(q);
      }
      if p.code in MappedCodes(slug) {
        assert CodeIn(MappedCodes(slug))(p) && p in MappedPermissions(db, slug);
      }
    }
  }

  /** The grants of the roles of another tenant. */
  ghost predicate OtherGrants(db: Db, db': Db, tenant: nat) {
    forall r, p | r in db.roles && r.tenant != tenant :: Grant(r.id, p) in db'.grants <==> Grant(r.id, p) in db.grants
  }

  lemma MapRolesRows(db: Db, tenant: nat)
    requires Inv(db)
    ensures RolesMapped(MapRoles(db, tenant), tenant)
    ensures OtherGrants(db, MapRoles(db, tenant), tenant)
  {
    MapRoleCarries(db, tenant, "owner");
    MapRoleRows(db, tenant, "owner");
    var a := MapRole(db, tenant, "owner");
    MapRoleCarries(a, tenant, "admin");
    MapRoleRows(a, tenant, "admin");
    var b := MapRole(a, tenant, "admin");
    MapRoleCarries(b, tenant, "member");
    MapRoleRows(b, tenant, "member");
  }

  lemma EquipTenantRows(db: Db, spec: TenantSpec, now: nat)
    requires Inv(db) && TenantRow(db.tenants, spec) && EquipTenant(db, spec, now).result.Ok?
    ensures var db' := EquipTenant(db, spec, now).db;
      && TenantSettled(db', spec) && OtherGrants(db, db', spec.id)
      && forall d | d in db.domains && d.tenant != spec.id :: d in db'.domains
  {
    UpsertDomainCarries(db, spec.id, HostOf(spec));
    UpsertDomainRows(db, spec);
    var first := UpsertDomain(db, spec.id, HostOf(spec)).db;
    DefaultsThere(first, spec.id, now);
    MapRolesRows(first, spec.id);
    MapRolesCarries(first, spec.id);
    EquipTenantCarries(db, spec, now);
  }

  lemma SeedTenantSettles(db: Db, spec: TenantSpec, now: nat)
    requires Inv(db) && spec in DEMO_TENANTS && SeedTenant(db, spec, now).result.Ok?
    ensures TenantSettled(SeedTenant(db, spec, now).db, spec)
    ensures SeedTenant(db, spec, now).db.permissions == db.permissions
  {
    UpsertTenantCarries(db, spec, now);
    UpsertTenantRows(db, spec, now);
    EquipTenantRows(UpsertTenant(db, spec, now).db, spec, now);
    EquipTenantCarries(UpsertTenant(db, spec, now).db, spec, now);
  }

  /** Seeding one tenant leaves another one settled. */
  lemma SeedTenantLeaves(db: Db, spec: TenantSpec, other: TenantSpec, now: nat)
    requires Inv(db) && spec in DEMO_TENANTS && SeedTenant(db, spec, now).result.Ok?
    requires TenantSettled(db, other) && other.id != spec.id
    ensures TenantSettled(SeedTenant(db, spec, now).db, other)
  {
    UpsertTenantCarries(db, spec, now);
    UpsertTenantRows(db, spec, now);
    var first := UpsertTenant(db, spec, now).db;
    EquipTenantRows(first, spec, now);
    EquipTenantCarries(first, spec, now);
    LeavesSettled(db, first, EquipTenant(first, spec, now).db, spec.id, other);
  }

  lemma LeavesSettled(db: Db, first: Db, second: Db, id: nat, other: TenantSpec)
    requires TenantSettled(db, other) && other.id != id
    requires forall t | t in db.tenants && t.id != id :: t in first.tenants
    requires forall r | r in first.roles && r !in db.roles :: r.tenant == id
    requires first.domains == db.domains && first.grants == db.grants && first.permissions == db.permissions
    requires second.tenants == first.tenants && second.roles == first.roles && second.permissions == first.permissions
    requires OtherGrants(first, second, id) && forall d | d in first.domains && d.tenant != id :: d in second.domains
    ensures TenantSettled(second, other)
  {
    forall r | r in second.roles && r.tenant == other.id && r.slug in ["owner", "admin", "member"]
      ensures MappedExactly(second.grants, second.permissions, r)
    {
      assert MappedExactly(db.grants, db.permissions, r);
    }
  }

  lemma SeedAdminSeats(db: Db, now: nat)
    requires Inv(db) && IsTenant(db.tenants, 1)
    ensures var out := SeedAdmin(db, now);
      && out.result.Ok? && AdminSeated(out.db)
      && out.db.tenants == db.tenants && out.db.domains == db.domains && out.db.roles == db.roles
      && out.db.grants == db.grants && out.db.permissions == db.permissions
  {
    UpsertAdminCarries(db);
    var (staffed, admin) := UpsertAdmin(db);
    var t :| t in db.tenants && t.id == 1;
    assert DEFAULT_ROLES[1] in DEFAULT_ROLES && HasDefaultRole(db.roles, t.id, DEFAULT_ROLES[1]);
    var q :| q in db.roles && q.tenant == 1 && q.slug == "admin";
    assert RoleIs(1, "admin")(q);
    var r := First(db.roles, RoleIs(1, "admin")).value;
    assert RoleIs(1, "admin")(r);
    var (seated, m) := SeatMember(staffed, admin.id, 1, r.id, None, now);
    NewSeat(staffed, admin.id, 1, r.id, now);
    var db' := SeedAdmin(db, now).db;
    assert admin in db'.users && m in db'.members && r in db'.roles;
    AdminRow(db);
    assert IsAdmin(admin);
  }

  lemma AdminRow(db: Db)
    ensures IsAdmin(UpsertAdmin(db).1)
  {
  }

  lemma NewSeat(db: Db, user: nat, tenant: nat, role: nat, now: nat)
    requires Inv(db)
    ensures var (db', m) := SeatMember(db, user, tenant, role, None, now);
      m in db'.members && m.user == user && m.tenant == tenant && m.role == role && m.assignedBy == None
  {
    match First(db.members, SeatIs(user, tenant))
    case None =>
    case Some(old_) => assert SeatIs(user, tenant)(old_);
  }

  lemma SeedSettles(db: Db, now: nat)
    requires Inv(db)
    ensures Seed(db, now).result.Ok? ==> Inv(Seed(db, now).db) && Seeded(Seed(db, now).db)
  {
    if Seed(db, now).result.Ok? {
      SuccessSettles(db, now);
    }
  }

  lemma SuccessSettles(db: Db, now: nat)
    requires Inv(db) && SeedInside(db, now).result.Ok?
    ensures Inv(Seed(db, now).db) && Seeded(Seed(db, now).db)
  {
    var zeroth := EnsurePermissions(db, PERMISSION_CODES);
    SeedInsideCarries(db, now);
    DemoPermissionsCarry(db);
    assert DEMO_TENANTS[0] in DEMO_TENANTS && DEMO_TENANTS[1] in DEMO_TENANTS;
    SeedTenantCarries(zeroth, DEMO_TENANTS[0], now);
    SeedTenantSettles(zeroth, DEMO_TENANTS[0], now);
    var first := SeedTenant(zeroth, DEMO_TENANTS[0], now).db;
    SeedTenantCarries(first, DEMO_TENANTS[1], now);
    SeedTenantSettles(first, DEMO_TENANTS[1], now);
    SeedTenantLeaves(first, DEMO_TENANTS[1], DEMO_TENANTS[0], now);
    SeedAdminSeats(SeedTenant(first, DEMO_TENANTS[1], now).db, now);
  }

  ghost predicate TenantNamed(db: Db, id: nat, name: string, slug: string, host: string) {
    && (exists t | t in db.tenants :: t.id == id && t.name == name && t.slug == slug && t.schemaName == slug)
    && (exists d | d in db.domains :: d.tenant == id && d.domain == host && d.isPrimary)
  }

  /** The tenant's role of that slug may do exactly what the codes say. */
  ghost predicate Holds(db: Db, tenant: nat, slug: string, codes: seq<string>) {
    && (exists r | r in db.roles :: r.tenant == tenant && r.slug == slug)
    && forall r | r in db.roles && r.tenant == tenant && r.slug == slug ::
      forall c :: Granted(db, r.id, c) <==> c in codes
  }

  ghost predicate DemoCodes(db: Db, tenant: nat) {
    && Holds(db, tenant, "owner",
             ["user:invite", "po:create", "po:approve", "grn:create", "audit:view", "feature:toggle"])
    && Holds(db, tenant, "admin", ["user:invite", "po:create", "grn:create", "audit:view"])
    && Holds(db, tenant, "member", ["po:create", "grn:create"])
  }

  /** The two tenants with their hosts, what each of their default roles may do, and the administrator of the first. */
  ghost predicate DemoStore(db: Db) {
    && TenantNamed(db, 1, "Tenant One", "tenant1", "tenant1.localhost")
    && TenantNamed(db, 2, "Tenant Two", "tenant2", "tenant2.localhost")
    && DemoCodes(db, 1) && DemoCodes(db, 2)
    && (exists u | u in db.users ::
        u.username == "admin@tenant1.localhost" && u.email == u.username && u.firstName == "Demo" &&
        u.lastName == "Admin" && u.usablePassword && GetRole(db, u.id, 1) == Some("admin"))
  }

  /** A seed that succeeds, written out. */
  lemma SeedWrittenOut(db: Db, now: nat)
    requires Inv(db)
    ensures Seed(db, now).result.Ok? ==> DemoStore(Seed(db, now).db)
  {
    SeedSettles(db, now);
    if Seed(db, now).result.Ok? {
      SeededWrittenOut(Seed(db, now).db);
    }
  }

  lemma SeededWrittenOut(db: Db)
    requires Inv(db) && Seeded(db)
    ensures DemoStore(db)
  {
    NamesWrittenOut(db);
    CodesWrittenOut(db, DEMO_TENANTS[0]);
    CodesWrittenOut(db, DEMO_TENANTS[1]);
    var u, m, r :| u in db.users && m in db.members && r in db.roles &&
      IsAdmin(u) && m.user == u.id && m.tenant == 1 && m.role == r.id && m.assignedBy == None &&
      r.tenant == 1 && r.slug == "admin";
    RoleOfSeat(db, m, r);
  }

  lemma NamesWrittenOut(db: Db)
    requires Seeded(db)
    ensures TenantNamed(db, 1, "Tenant One", "tenant1", "tenant1.localhost")
    ensures TenantNamed(db, 2, "Tenant Two", "tenant2", "tenant2.localhost")
  {
    assert "tenant1" + ".localhost" == "tenant1.localhost" && "tenant2" + ".localhost" == "tenant2.localhost";
    assert TenantSettled(db, DEMO_TENANTS[0]) && TenantSettled(db, DEMO_TENANTS[1]);
  }

  lemma CodesWrittenOut(db: Db, spec: TenantSpec)
    requires Inv(db) && Seeded(db) && spec in DEMO_TENANTS
    ensures DemoCodes(db, spec.id)
  {
    MappedHolds(db, spec, DEFAULT_ROLES[0]);
    MappedHolds(db, spec, DEFAULT_ROLES[1]);
    MappedHolds(db, spec, DEFAULT_ROLES[2]);
  }

  lemma MappedHolds(db: Db, spec: TenantSpec, d: DefaultRole)
    requires Inv(db) && Seeded(db) && spec in DEMO_TENANTS && d in DEFAULT_ROLES
    ensures Holds(db, spec.id, d.slug, MappedCodes(d.slug))
  {
    assert TenantSettled(db, spec);
    var t :| t in db.tenants && t.id == spec.id;
    assert HasDefaultRole(db.roles, t.id, d);
    forall r, c | r in db.roles && r.tenant == spec.id && r.slug == d.slug
      ensures Granted(db, r.id, c) <==> c in MappedCodes(d.slug)
    {
      assert MappedExactly(db.grants, db.permissions, r);
      if c in MappedCodes(d.slug) {
        assert HasCode(db.permissions, c);
        var p :| p in db.permissions && p.code == c;
        assert Grant(r.id, p.id) in db.grants;
      }
      if g, p :| g in db.grants && p in db.permissions && g.role == r.id && g.permission == p.id && p.code == c {
        assert g == Grant(r.id, p.id);
      }
    }
  }

  // ---- When a seed succeeds --------------------------------------------------------------

  /** No tenant but the ones named has the slug of the demo tenant. */
  predicate SlugFree(tenants: seq<Tenant>, spec: TenantSpec, own: set<nat>) {
    forall t | t in tenants :: t.slug == spec.slug ==> t.id in own
  }

  /** No other tenant has the host of the demo tenant. */
  predicate HostFree(domains: seq<Domain>, spec: TenantSpec) {
    forall d | d in domains :: d.domain == HostOf(spec) ==> d.tenant == spec.id
  }

  /** Nobody else holds a slug or a host of the demo tenants; the first one may hold the slug of the
      second, because it is renamed before the second is written. */
  predicate SeedReady(db: Db) {
    var one, two := DEMO_TENANTS[0], DEMO_TENANTS[1];
    && SlugFree(db.tenants, one, {1}) && SlugFree(db.tenants, two, {1, 2})
    && HostFree(db.domains, one) && HostFree(db.domains, two)
  }

  lemma UpsertTenantExact(db: Db, spec: TenantSpec, now: nat)
    requires Inv(db) && spec in DEMO_TENANTS
    ensures var out := UpsertTenant(db, spec, now);
      && (out.result.Ok? <==> SlugFree(db.tenants, spec, {spec.id}))
      && (out.result.Ok? ==> out.db.domains == db.domains)
      && (forall t: Tenant | t.id != spec.id :: t in out.db.tenants <==> t in db.tenants)
  {
    if SlugFree(db.tenants, spec, {spec.id}) {
      assert forall t | t in db.tenants :: !OtherTenantSlug(spec.id, spec.slug)(t);
      DemoSlugs();
      if First(db.tenants, TenantIs(spec.id)).None? {
        assert forall t | t in db.tenants :: !TenantIs(spec.id)(t);
        AddTenantKeeps(db, Tenant(spec.id, spec.name, spec.slug, spec.slug, true), now);
      }
    } else {
      var t :| t in db.tenants && t.slug == spec.slug && t.id !in {spec.id};
      assert OtherTenantSlug(spec.id, spec.slug)(t);
    }
  }

  lemma UpsertDomainExact(db: Db, spec: TenantSpec)
    requires Inv(db)
    ensures var out := UpsertDomain(db, spec.id, HostOf(spec));
      && (out.result.Ok? <==> HostFree(db.domains, spec))
      && forall d: Domain | d.domain != HostOf(spec) :: d in out.db.domains <==> d in db.domains
  {
    match First(db.domains, DomainIs(spec.id, HostOf(spec)))
    case Some(d) =>
      assert DomainIs(spec.id, HostOf(spec))(d);
      forall e | e in db.domains && (e.domain == d.domain || e.id == d.id) ensures e == d {
        if e.domain == d.domain {
          SameRow(db.domains, DomainName, e, d);
        } else {
          SameRow(db.domains, DomainId, e, d);
        }
      }
    case None =>
      assert forall d | d in db.domains :: !DomainIs(spec.id, HostOf(spec))(d);
      assert forall d :: HostIs(HostOf(spec))(d) <==> d.domain == HostOf(spec);
  }

  lemma SeedTenantExact(db: Db, spec: TenantSpec, now: nat)
    requires Inv(db) && spec in DEMO_TENANTS
    ensures var out := SeedTenant(db, spec, now);
      && (out.result.Ok? <==> SlugFree(db.tenants, spec, {spec.id}) && HostFree(db.domains, spec))
      && (out.result.Ok? ==>
          && (forall t: Tenant | t.id != spec.id :: t in out.db.tenants <==> t in db.tenants)
          && (forall d: Domain | d.domain != HostOf(spec) :: d in out.db.domains <==> d in db.domains))
  {
    UpsertTenantExact(db, spec, now);
    UpsertTenantCarries(db, spec, now);
    var first := UpsertTenant(db, spec, now);
    if first.result.Ok? {
      UpsertDomainExact(first.db, spec);
      UpsertDomainCarries(first.db, spec.id, HostOf(spec));
      var second := UpsertDomain(first.db, spec.id, HostOf(spec));
      if second.result.Ok? {
        DefaultsThere(second.db, spec.id, now);
        MapRolesCarries(second.db, spec.id);
      }
    }
  }

  /** Writing the first demo tenant frees the slug of the second for its own row. */
  lemma SecondReady(db: Db, first: Db)
    requires Inv(first) && TenantRow(first.tenants, DEMO_TENANTS[0])
    requires forall t: Tenant | t.id != 1 :: t in first.tenants <==> t in db.tenants
    requires forall d: Domain | d.domain != HostOf(DEMO_TENANTS[0]) :: d in first.domains <==> d in db.domains
    ensures SlugFree(first.tenants, DEMO_TENANTS[1], {2}) <==> SlugFree(db.tenants, DEMO_TENANTS[1], {1, 2})
    ensures HostFree(first.domains, DEMO_TENANTS[1]) <==> HostFree(db.domains, DEMO_TENANTS[1])
  {
    var one, two := DEMO_TENANTS[0], DEMO_TENANTS[1];
    var row :| row in first.tenants && row.id == 1 && row.slug == one.slug;
    assert one.slug[6] != two.slug[6];
    assert HostOf(one)[6] != HostOf(two)[6];
    forall t | t in first.tenants && t.id == 1 ensures t.slug != two.slug {
      SameRow(first.tenants, TenantId, t, row);
    }
  }

  /** Once the first demo tenant is there, the seeder can only fail on the second. */
  lemma OnlySecondFails(first: Db, now: nat)
    requires Inv(first) && TenantSettled(first, DEMO_TENANTS[0])
    ensures SeedTenant(first, DEMO_TENANTS[1], now).result.Ok? ==>
      SeedAdmin(SeedTenant(first, DEMO_TENANTS[1], now).db, now).result.Ok?
  {
    var one, two := DEMO_TENANTS[0], DEMO_TENANTS[1];
    assert one in DEMO_TENANTS && two in DEMO_TENANTS;
    if SeedTenant(first, two, now).result.Ok? {
      SeedTenantCarries(first, two, now);
      SeedTenantLeaves(first, two, one, now);
      var second := SeedTenant(first, two, now).db;
      var t :| t in second.tenants && t.id == 1;
      SeedAdminSeats(second, now);
    }
  }

  /** `seed` succeeds exactly when the store is ready for it. */
  lemma SeedSucceedsExactly(db: Db, now: nat)
    requires Inv(db)
    ensures Seed(db, now).result.Ok? <==> SeedReady(db)
  {
    var one, two := DEMO_TENANTS[0], DEMO_TENANTS[1];
    var zeroth := EnsurePermissions(db, PERMISSION_CODES);
    DemoPermissionsCarry(db);
    EnsurePermissionsFrame(db, PERMISSION_CODES);
    assert one in DEMO_TENANTS && two in DEMO_TENANTS;
    SeedTenantExact(zeroth, one, now);
    if SeedTenant(zeroth, one, now).result.Ok? {
      SeedTenantCarries(zeroth, one, now);
      SeedTenantSettles(zeroth, one, now);
      var first := SeedTenant(zeroth, one, now).db;
      SecondReady(zeroth, first);
      SeedTenantExact(first, two, now);
      OnlySecondFails(first, now);
    }
  }

  /** Which tenants exist after one demo tenant was seeded, successfully or not. */
  lemma SeedTenantIds(db: Db, spec: TenantSpec, now: nat, id: nat)
    requires Inv(db) && spec in DEMO_TENANTS
    ensures IsTenant(SeedTenant(db, spec, now).db.tenants, id) <==>
      IsTenant(db.tenants, id) || (id == spec.id && SlugFree(db.tenants, spec, {spec.id}))
  {
    UpsertTenantExact(db, spec, now);
    UpsertTenantCarries(db, spec, now);
    var first := UpsertTenant(db, spec, now);
    if first.result.Ok? {
      EquipTenantCarries(first.db, spec, now);
    }
    if id != spec.id {
      if t :| t in db.tenants && t.id == id {
        assert t in first.db.tenants;
      }
      if t :| t in first.db.tenants && t.id == id {
        assert t in db.tenants;
      }
    }
  }

  /** A seed that is going to fail after it has inserted a demo tenant. */
  ghost predicate SeedFailsLate(db: Db) {
    var one, two := DEMO_TENANTS[0], DEMO_TENANTS[1];
    && !SeedReady(db) && SlugFree(db.tenants, one, {1})
    && (!IsTenant(db.tenants, 1) ||
        (HostFree(db.domains, one) && SlugFree(db.tenants, two, {1, 2}) && !IsTenant(db.tenants, 2)))
  }

  lemma InsertedDemo(db: Db, tenants: seq<Tenant>)
    ensures Inserted(db, db.(tenants := tenants)) <==>
      (IsTenant(tenants, 1) && !IsTenant(db.tenants, 1)) || (IsTenant(tenants, 2) && !IsTenant(db.tenants, 2))
  {
    assert DEMO_TENANTS[0] in DEMO_TENANTS && DEMO_TENANTS[1] in DEMO_TENANTS;
  }

  /** `seed` leaks deltas exactly in the stores from which it fails late. */
  lemma SeedLeaksExactly(db: Db, now: nat)
    requires Inv(db)
    ensures Leaks(db, Step(SeedCall, now)) <==> SeedFailsLate(db)
  {
    SeedGivenUpExactly(db, now);
  }

  lemma SeedGivenUpExactly(db: Db, now: nat)
    requires Inv(db)
    ensures SeedGivenUp(db, now) <==> SeedFailsLate(db)
  {
    var one, two := DEMO_TENANTS[0], DEMO_TENANTS[1];
    var zeroth, inside := EnsurePermissions(db, PERMISSION_CODES), SeedInside(db, now);
    SeedSucceedsExactly(db, now);
    DemoPermissionsCarry(db);
    EnsurePermissionsFrame(db, PERMISSION_CODES);
    assert one in DEMO_TENANTS && two in DEMO_TENANTS;
    InsertedDemo(db, inside.db.tenants);
    if inside.result.Err? {
      SeedTenantExact(zeroth, one, now);
      SeedTenantIds(zeroth, one, now, 1);
      SeedTenantIds(zeroth, one, now, 2);
      var first := SeedTenant(zeroth, one, now);
      if first.result.Ok? {
        SeedTenantCarries(zeroth, one, now);
        SeedTenantSettles(zeroth, one, now);
        SecondReady(zeroth, first.db);
        SeedTenantIds(first.db, two, now, 1);
        SeedTenantIds(first.db, two, now, 2);
        OnlySecondFails(first.db, now);
      }
    }
  }

  /** Seeding is idempotent: from any sound store where `seed` succeeds, a second `seed` succeeds,
      changes no table and queues no delta; it adds one `role_assigned` event. Both demo tenants'
      default roles then hold exactly their mapped permissions. */
  lemma SeedIdempotent(db: Db, first: nat, second: nat)
    requires Inv(db)
    ensures var once, twice := Seed(db, first).db, Seed(Seed(db, first).db, second);
      SeedReady(db) ==>
        && Seeded(once) && twice.result.Ok?
        && twice.db == once.(events := twice.db.events)
        && exists id :: twice.db.events == once.events + [RoleAssigned(id, 1, "admin", None)]
  {
    SeedSucceedsExactly(db, first);
    SeedSettles(db, first);
    if SeedReady(db) {
      SeededIsFixed(Seed(db, first).db, second);
    }
  }
}
