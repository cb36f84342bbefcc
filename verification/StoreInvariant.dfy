/** What every service call keeps true of the store. */
module StoreInvariant {

  import opened Rows
  import opened Text
  import opened AuthModel
  import opened Slugs
  import opened Services

  ghost predicate IsTenant(tenants: seq<Tenant>, id: nat) {
    exists t | t in tenants :: t.id == id
  }

  ghost predicate IsRole(roles: seq<Role>, id: nat) {
    exists r | r in roles :: r.id == id
  }

  ghost predicate IsRoleOf(roles: seq<Role>, id: nat, tenant: nat) {
    exists r | r in roles :: r.id == id && r.tenant == tenant
  }

  ghost predicate IsPermission(permissions: seq<Permission>, id: nat) {
    exists p | p in permissions :: p.id == id
  }

  ghost predicate IsUser(users: seq<User>, id: nat) {
    exists u | u in users :: u.id == id
  }

  ghost predicate HasDefaultRole(roles: seq<Role>, tenant: nat, d: DefaultRole) {
    exists r | r in roles :: r.tenant == tenant && r.slug == d.slug && r.weight == d.weight
  }

  /** Tenants use their schema name as their slug, and no two share it. */
  ghost predicate TenantsOk(tenants: seq<Tenant>) {
    && Distinct(tenants, TenantId)
    && Distinct(tenants, TenantSlug)
    && forall t | t in tenants :: t.slug == t.schemaName && IsSlug(t.slug)
  }

  ghost predicate DomainsOk(domains: seq<Domain>, tenants: seq<Tenant>) {
    && Distinct(domains, DomainId)
    && Distinct(domains, DomainName)
    && forall d | d in domains :: IsTenant(tenants, d.tenant)
  }

  ghost predicate PermissionsOk(permissions: seq<Permission>) {
    && Distinct(permissions, PermissionId)
    && Distinct(permissions, PermissionCode)
  }

  /** One role for each tenant and slug. */
  ghost predicate RolesOk(roles: seq<Role>, tenants: seq<Tenant>) {
    && Distinct(roles, RoleId)
    && Distinct(roles, RoleName)
    && forall r | r in roles :: IsTenant(tenants, r.tenant)
  }

  /** Role-permission pairs are not repeated and reference existing rows. */
  ghost predicate GrantsOk(grants: seq<Grant>, roles: seq<Role>, permissions: seq<Permission>) {
    && Distinct(grants, GrantItself)
    && forall g | g in grants :: IsRole(roles, g.role) && IsPermission(permissions, g.permission)
  }

  /** The references of a membership resolve, and its role belongs to its own tenant. */
  ghost predicate Seated(m: Membership, roles: seq<Role>, users: seq<User>) {
    && IsRoleOf(roles, m.role, m.tenant)
    && IsUser(users, m.user)
    && (m.assignedBy.Some? ==> IsUser(users, m.assignedBy.value))
  }

  /** One membership for each user and tenant. */
  ghost predicate MembersOk(members: seq<Membership>, roles: seq<Role>, users: seq<User>) {
    && Distinct(members, MemberId)
    && Distinct(members, MemberSeat)
    && forall m | m in members :: Seated(m, roles, users)
  }

  /** One flag for each tenant and name, the global flags included. */
  ghost predicate FlagsOk(flags: seq<Flag>) {
    && Distinct(flags, FlagId)
    && Distinct(flags, FlagName)
  }

  ghost predicate UsersOk(users: seq<User>, erased: set<nat>) {
    && Distinct(users, UserId)
    && Distinct(users, Username)
    && forall u | u in users :: u.id !in erased
  }

  /** Every tenant has the owner, admin and member roles with their weights. */
  ghost predicate DefaultsOk(tenants: seq<Tenant>, roles: seq<Role>) {
    forall t, d | t in tenants && d in DEFAULT_ROLES :: HasDefaultRole(roles, t.id, d)
  }

  ghost predicate IdsOk(db: Db) {
    && FIRST_FREE_ID <= db.nextId
    && Below(db.tenants, TenantId, db.nextId)
    && Below(db.domains, DomainId, db.nextId)
    && Below(db.permissions, PermissionId, db.nextId)
    && Below(db.roles, RoleId, db.nextId)
    && Below(db.members, MemberId, db.nextId)
    && Below(db.flags, FlagId, db.nextId)
    && Below(db.users, UserId, db.nextId)
    && forall id | id in db.erased :: id < db.nextId
  }

  ghost predicate Consistent(db: Db) {
    && TenantsOk(db.tenants)
    && DomainsOk(db.domains, db.tenants)
    && PermissionsOk(db.permissions)
    && RolesOk(db.roles, db.tenants)
    && GrantsOk(db.grants, db.roles, db.permissions)
    && MembersOk(db.members, db.roles, db.users)
    && FlagsOk(db.flags)
    && UsersOk(db.users, db.erased)
    && IdsOk(db)
  }

  ghost predicate Inv(db: Db) {
    Consistent(db) && DefaultsOk(db.tenants, db.roles)
  }

  lemma RowsUnique(db: Db)
    requires Consistent(db)
    ensures OneRowPerKey(RowsOf(db))
  {
    forall x, y | x in RowsOf(db) && y in RowsOf(db) && KeyOf(x) == KeyOf(y) ensures x == y {
      match x
      case RoleRow(r) => SameRow(db.roles, RoleId, r, y.role);
      case MemberRow(m) => SameRow(db.members, MemberId, m, y.member);
      case FlagRow(f) => SameRow(db.flags, FlagId, f, y.flag);
    }
  }

  // ---- Tables that only grow keep what refers to them ------------------------------------

  lemma MoreTenants(db: Db, tenants: seq<Tenant>)
    requires Consistent(db) && forall id | IsTenant(db.tenants, id) :: IsTenant(tenants, id)
    ensures DomainsOk(db.domains, tenants) && RolesOk(db.roles, tenants)
  {
  }

  lemma MoreRoles(db: Db, roles: seq<Role>)
    requires Consistent(db) && forall r | r in db.roles :: r in roles
    ensures GrantsOk(db.grants, roles, db.permissions) && MembersOk(db.members, roles, db.users)
    ensures DefaultsOk(db.tenants, db.roles) ==> DefaultsOk(db.tenants, roles)
  {
    assert forall id | IsRole(db.roles, id) :: IsRole(roles, id);
    assert forall m | Seated(m, db.roles, db.users) :: Seated(m, roles, db.users);
    assert forall t, d | HasDefaultRole(db.roles, t, d) :: HasDefaultRole(roles, t, d);
  }

  lemma MoreUsers(db: Db, users: seq<User>)
    requires Consistent(db) && forall id | IsUser(db.users, id) :: IsUser(users, id)
    ensures MembersOk(db.members, db.roles, users)
  {
    assert forall m | Seated(m, db.roles, db.users) :: Seated(m, db.roles, users);
  }

  // ---- Calls that add rows ---------------------------------------------------------------

  lemma RegisterUserKeeps(db: Db, username: string, email: string, superuser: bool)
    requires Inv(db)
    ensures Inv(RegisterUser(db, username, email, superuser).db)
  {
    var out := RegisterUser(db, username, email, superuser);
    if out.result.Ok? {
      var u := out.result.value;
      DistinctAppend(db.users, UserId, u);
      DistinctAppend(db.users, Username, u);
      assert forall v | v in db.users :: v in out.db.users;
      MoreUsers(db, out.db.users);
    }
  }

  lemma CreatePermissionKeeps(db: Db, code: string, description: string)
    requires Inv(db)
    ensures Inv(CreatePermission(db, code, description).db)
  {
    var out := CreatePermission(db, code, description);
    if out.result.Ok? {
      var p := out.result.value;
      DistinctAppend(db.permissions, PermissionId, p);
      DistinctAppend(db.permissions, PermissionCode, p);
      assert forall q | q in db.permissions :: q in out.db.permissions;
      assert forall id | IsPermission(db.permissions, id) :: IsPermission(out.db.permissions, id);
    }
  }

  lemma AddRoleKeeps(db: Db, r: Role)
    requires Consistent(db) && r.id == db.nextId && IsTenant(db.tenants, r.tenant)
    requires forall q | q in db.roles :: RoleName(q) != RoleName(r)
    ensures Consistent(AddRole(db, r))
    ensures DefaultsOk(db.tenants, db.roles) ==> DefaultsOk(db.tenants, AddRole(db, r).roles)
  {
    DistinctAppend(db.roles, RoleId, r);
    DistinctAppend(db.roles, RoleName, r);
    MoreRoles(db, AddRole(db, r).roles);
  }

  /** The roles of `tenant` with a default slug have the default weight. */
  ghost predicate WeightsOk(roles: seq<Role>, tenant: nat) {
    forall r, d | r in roles && r.tenant == tenant && d in DEFAULT_ROLES && r.slug == d.slug :: r.weight == d.weight
  }

  /** What creating default roles may change. */
  ghost predicate OnlyRoles(db: Db, db': Db) {
    && db' == db.(roles := db'.roles, queue := db'.queue, nextId := db'.nextId)
    && (forall r | r in db.roles :: r in db'.roles)
    && db.queue <= db'.queue
    && db.nextId <= db'.nextId
  }

  lemma EnsureRoleKeeps(db: Db, tenant: nat, d: DefaultRole, now: nat)
    requires Consistent(db) && IsTenant(db.tenants, tenant) && d in DEFAULT_ROLES && WeightsOk(db.roles, tenant)
    ensures var db' := EnsureRole(db, tenant, d, now);
      && Consistent(db') && WeightsOk(db'.roles, tenant)
      && OnlyRoles(db, db') && HasDefaultRole(db'.roles, tenant, d)
  {
    match First(db.roles, RoleIs(tenant, d.slug))
    case None =>
      var r := Role(db.nextId, tenant, d.name, d.slug, true, d.weight, now);
      assert forall q | q in db.roles :: !RoleIs(tenant, d.slug)(q);
      AddRoleKeeps(db, r);
      DefaultAdded(db.roles, r, d);
    case Some(r) =>
      assert RoleIs(tenant, d.slug)(r);
  }

  lemma DefaultAdded(roles: seq<Role>, r: Role, d: DefaultRole)
    requires d in DEFAULT_ROLES && r.slug == d.slug && r.weight == d.weight && WeightsOk(roles, r.tenant)
    ensures WeightsOk(roles + [r], r.tenant) && HasDefaultRole(roles + [r], r.tenant, d)
  {
    assert r in roles + [r];
  }

  lemma {:induction false} EnsureRolesKeeps(db: Db, tenant: nat, defaults: seq<DefaultRole>, now: nat)
    requires Consistent(db) && IsTenant(db.tenants, tenant) && WeightsOk(db.roles, tenant)
    requires forall d | d in defaults :: d in DEFAULT_ROLES
    ensures var db' := EnsureRoles(db, tenant, defaults, now);
      && Consistent(db') && WeightsOk(db'.roles, tenant)
      && OnlyRoles(db, db') && forall d | d in defaults :: HasDefaultRole(db'.roles, tenant, d)
  {
    if defaults != [] {
      var init, d := defaults[..|defaults| - 1], defaults[|defaults| - 1];
      assert defaults == init + [d];
      var before := EnsureRoles(db, tenant, init, now);
      EnsureRolesKeeps(db, tenant, init, now);
      EnsureRoleKeeps(before, tenant, d, now);
      DefaultsStay(before.roles, EnsureRole(before, tenant, d, now).roles, tenant, init);
    }
  }

  lemma DefaultsStay(roles: seq<Role>, roles': seq<Role>, tenant: nat, defaults: seq<DefaultRole>)
    requires forall r | r in roles :: r in roles'
    requires forall d | d in defaults :: HasDefaultRole(roles, tenant, d)
    ensures forall d | d in defaults :: HasDefaultRole(roles', tenant, d)
  {
  }

  lemma AddTenantKeeps(db: Db, t: Tenant, now: nat)
    requires Inv(db) && t.id < db.nextId && !IsTenant(db.tenants, t.id)
    requires t.slug == t.schemaName && IsSlug(t.slug) && forall s | s in db.tenants :: s.slug != t.slug
    ensures Inv(AddTenant(db, t, now))
    ensures OnlyRoles(db.(tenants := db.tenants + [t]), AddTenant(db, t, now))
  {
    var db1 := db.(tenants := db.tenants + [t]);
    DistinctAppend(db.tenants, TenantId, t);
    DistinctAppend(db.tenants, TenantSlug, t);
    assert t in db1.tenants && IsTenant(db1.tenants, t.id);
    assert forall s | s in db.tenants :: s in db1.tenants;
    MoreTenants(db, db1.tenants);
    assert forall r | r in db.roles :: r.tenant != t.id;
    EnsureRolesKeeps(db1, t.id, DEFAULT_ROLES, now);
    MoreRoles(db, AddTenant(db, t, now).roles);
  }

  lemma AddDomainKeeps(db: Db, tenant: nat, host: string, isPrimary: bool)
    requires Inv(db) && IsTenant(db.tenants, tenant) && !Exists(db.domains, HostIs(host))
    ensures Inv(AddDomain(db, tenant, host, isPrimary))
  {
    assert forall d | d in db.domains :: !HostIs(host)(d);
    DistinctAppend(db.domains, DomainId, Domain(db.nextId, tenant, host, isPrimary));
    DistinctAppend(db.domains, DomainName, Domain(db.nextId, tenant, host, isPrimary));
  }

  lemma AddTenantDomainKeeps(db: Db, t: Tenant, host: string, isPrimary: bool, now: nat)
    requires Inv(db) && t.id == db.nextId && t.slug == t.schemaName && IsSlug(t.slug)
    requires forall s | s in db.tenants :: s.slug != t.slug
    requires !Exists(db.domains, HostIs(host))
    ensures Inv(AddDomain(AddTenant(db.(nextId := db.nextId + 1), t, now), t.id, host, isPrimary))
  {
    var db1 := db.(nextId := db.nextId + 1);
    AddTenantKeeps(db1, t, now);
    var db2 := AddTenant(db1, t, now);
    assert t in db2.tenants && IsTenant(db2.tenants, t.id);
    AddDomainKeeps(db2, t.id, host, isPrimary);
  }

  lemma RolledBackKeeps(db: Db, inside: Db)
    requires Inv(db) && db.nextId <= inside.nextId
    ensures Inv(RolledBack(db, inside))
  {
  }

  lemma InsertTenantKeeps(db: Db, name: string, slug: string, host: string, isPrimary: bool, now: nat)
    requires Inv(db) && IsSlug(slug)
    ensures Inv(InsertTenant(db, name, slug, host, isPrimary, now).db)
  {
    if TenantInsertable(db, name, slug, host) {
      assert forall s | s in db.tenants :: !SlugIs(slug)(s);
      InsertedTenantKeeps(db, Tenant(db.nextId, name, slug, slug, true), host, isPrimary, now);
    }
  }

  /** The atomic block, committed or given up. */
  lemma InsertedTenantKeeps(db: Db, t: Tenant, host: string, isPrimary: bool, now: nat)
    requires Inv(db) && t.id == db.nextId && t.slug == t.schemaName && IsSlug(t.slug)
    requires (forall s | s in db.tenants :: s.slug != t.slug) && !Exists(db.domains, HostIs(host))
    ensures var inside := AddTenant(db.(nextId := db.nextId + 1), t, now);
      Inv(inside) && Inv(RolledBack(db, inside)) && Inv(AddDomain(inside, t.id, host, isPrimary))
  {
    var db1 := db.(nextId := db.nextId + 1);
    AddTenantKeeps(db1, t, now);
    AddTenantDomainKeeps(db, t, host, isPrimary, now);
    RolledBackKeeps(db, AddTenant(db1, t, now));
  }

  lemma CreateTenantKeeps(
    db: Db, name: string, schemaName: string, domain: string, isPrimary: bool, now: nat)
    requires Inv(db)
    ensures Inv(CreateTenant(db, name, schemaName, domain, isPrimary, now).db)
  {
    ValidateSlugExact(schemaName);
    if IsSlug(Normal(schemaName)) {
      InsertTenantKeeps(db, Strip(name), Normal(schemaName), Lower(Strip(domain)), isPrimary, now);
    }
  }

  // ---- Roles and grants ------------------------------------------------------------------

  lemma {:induction false} AddGrantsRows(grants: seq<Grant>, role: nat, permissions: seq<Permission>)
    requires Distinct(grants, GrantItself)
    ensures var r := AddGrants(grants, role, permissions);
      && Distinct(r, GrantItself)
      && forall g :: g in r <==> g in grants || (g.role == role && IsPermission(permissions, g.permission))
  {
    if permissions != [] {
      var n := |permissions| - 1;
      AddGrantsRows(grants, role, permissions[..n]);
      assert permissions == permissions[..n] + [permissions[n]];
      var rest, g := AddGrants(grants, role, permissions[..n]), Grant(role, permissions[n].id);
      if g !in rest {
        DistinctAppend(rest, GrantItself, g);
      }
    }
  }

  /** After `set`, the role has exactly the given permissions, and other roles have what they had. */
  lemma SetGrantsRows(grants: seq<Grant>, role: nat, permissions: seq<Permission>)
    requires Distinct(grants, GrantItself)
    ensures Distinct(SetGrants(grants, role, permissions), GrantItself)
    ensures forall g :: g in SetGrants(grants, role, permissions) <==>
      if g.role == role then IsPermission(permissions, g.permission) else g in grants
  {
    var kept := Unless(grants, StaleGrant(role, permissions));
    DistinctWhere(grants, GrantItself, Not(StaleGrant(role, permissions)));
    AddGrantsRows(kept, role, permissions);
  }

  lemma SetGrantsKeeps(db: Db, role: nat, permissions: seq<Permission>)
    requires Inv(db) && IsRole(db.roles, role) && forall p | p in permissions :: p in db.permissions
    ensures Inv(db.(grants := SetGrants(db.grants, role, permissions)))
  {
    SetGrantsRows(db.grants, role, permissions);
  }

  lemma CreateRoleKeeps(
    db: Db, tenant: nat, name: string, slug: string, weight: int, codes: seq<string>, now: nat)
    requires Inv(db) && IsTenant(db.tenants, tenant)
    ensures var out := CreateRole(db, tenant, name, slug, weight, codes, now);
      && Inv(out.db) && (forall r | r in db.roles :: r in out.db.roles)
      && (out.result.Err? && AllClean(codes) ==> out.db.roles == db.roles)
  {
    if !Exists(db.roles, RoleIs(tenant, slug)) && RoleStorable(name, slug, weight) {
      assert forall q | q in db.roles :: !RoleIs(tenant, slug)(q);
      EquipRoleKeeps(db, Role(db.nextId, tenant, name, slug, false, weight, now), codes);
    }
  }

  lemma EquipRoleKeeps(db: Db, r: Role, codes: seq<string>)
    requires Inv(db) && r.id == db.nextId && IsTenant(db.tenants, r.tenant)
    requires forall q | q in db.roles :: RoleName(q) != RoleName(r)
    ensures var out := EquipRole(db, r, codes);
      && Inv(out.db) && (forall q | q in db.roles :: q in out.db.roles)
      && (out.result.Err? && AllClean(codes) ==> out.db.roles == db.roles)
  {
    AddRoleKeeps(db, r);
    var added := AddRole(db, r);
    assert r in added.roles && IsRole(added.roles, r.id);
    if codes != [] {
      UnlessAppended(db.roles, r, RoleWithId(r.id));
      if MissingCodes(db, codes) == {} {
        SetGrantsKeeps(added, r.id, Where(db.permissions, CodeIn(codes)));
      }
    }
  }

  /** Deleting an appended row gives back the table. */
  lemma UnlessAppended<T(!new)>(rows: seq<T>, x: T, p: T -> bool)
    requires p(x) && forall y | y in rows :: !p(y)
    ensures Unless(rows + [x], p) == rows
  {
    if rows == [] {
      assert [x][1..] == [];
    } else {
      assert (rows + [x])[1..] == rows[1..] + [x];
      UnlessAppended(rows[1..], x, p);
    }
  }

  // ---- Memberships, flags and users ------------------------------------------------------

  lemma SeatMemberKeeps(db: Db, user: nat, tenant: nat, role: nat, actor: Option<nat>, now: nat)
    requires Inv(db) && IsRoleOf(db.roles, role, tenant) && IsUser(db.users, user)
    requires actor.Some? ==> IsUser(db.users, actor.value)
    ensures Inv(SeatMember(db, user, tenant, role, actor, now).0)
  {
    var (db', m) := SeatMember(db, user, tenant, role, actor, now);
    var found := First(db.members, SeatIs(user, tenant));
    if found.None? {
      assert forall n | n in db.members :: !SeatIs(user, tenant)(n);
      DistinctAppend(db.members, MemberId, m);
      DistinctAppend(db.members, MemberSeat, m);
    } else {
      assert SeatIs(user, tenant)(found.value);
      forall n | n in db.members && n.id == m.id ensures n == found.value {
        SameRow(db.members, MemberId, n, found.value);
      }
      DistinctReplace(db.members, MemberId, m, MemberId);
      DistinctReplace(db.members, MemberId, m, MemberSeat);
    }
  }

  lemma AssignRoleKeeps(db: Db, user: nat, tenant: nat, slug: string, actor: Option<nat>, now: nat)
    requires Inv(db) && IsUser(db.users, user) && (actor.Some? ==> IsUser(db.users, actor.value))
    ensures Inv(AssignRole(db, user, tenant, slug, actor, now).db)
  {
    var found := First(db.roles, RoleIs(tenant, slug));
    if found.Some? {
      assert RoleIs(tenant, slug)(found.value);
      SeatMemberKeeps(db, user, tenant, found.value.id, actor, now);
    }
  }

  lemma DropMembersKeeps(db: Db, p: Membership -> bool)
    requires Inv(db)
    ensures Inv(DropMembers(db, p))
  {
    DistinctWhere(db.members, MemberId, Not(p));
    DistinctWhere(db.members, MemberSeat, Not(p));
  }

  lemma SetFeatureKeeps(db: Db, tenant: Option<nat>, name: string, raw: RawFlag, now: nat)
    requires Inv(db)
    ensures Inv(SetFeature(db, tenant, name, raw, now).db)
    ensures SetFeature(db, tenant, name, raw, now).result.Ok? <==>
      ToPython(raw).Some? && FlagNameOk(db.flags, tenant, name)
  {
    var found := Where(db.flags, FlagIs(tenant, name));
    WhereUnique(db.flags, FlagName, FlagIs(tenant, name), (tenant, name));
    if SetFeature(db, tenant, name, raw, now).result.Ok? {
      var f := SetFeature(db, tenant, name, raw, now).result.value;
      if found == [] {
        assert forall g | g in db.flags :: FlagIs(tenant, name)(g) ==> g in found;
        DistinctAppend(db.flags, FlagId, f);
        DistinctAppend(db.flags, FlagName, f);
      } else {
        assert found[0] in found;
        forall g | g in db.flags && g.id == f.id ensures g == found[0] {
          SameRow(db.flags, FlagId, g, found[0]);
        }
        DistinctReplace(db.flags, FlagId, f, FlagId);
        DistinctReplace(db.flags, FlagId, f, FlagName);
      }
    }
  }

  lemma AnonymizeKeeps(db: Db, u: User, tag: string)
    requires Inv(db) && u in db.users
    ensures Inv(Anonymize(db, u, tag).db)
  {
    var cleared := db.(tokens := Unless(db.tokens, IssuedTo(u.id)),
                       notifications := Unless(db.notifications, NotifiedTo(u.id)));
    DropMembersKeeps(cleared, HeldBy(u.id));
    var v := Placeholder(u, tag);
    if Anonymize(db, u, tag).result.Ok? {
      var users := Replace(db.users, UserId, v);
      assert forall w | w in db.users :: !OtherNamed(u.id, v.username)(w);
      DistinctReplace(db.users, UserId, v, UserId);
      ReplaceDistinctName(db.users, v);
      forall id | IsUser(db.users, id) ensures IsUser(users, id) {
        var w :| w in db.users && w.id == id;
        assert if w.id == v.id then v in users else w in users;
      }
      MoreUsers(EraseChildren(db, u.id), users);
    }
  }

  lemma ReplaceDistinctName(users: seq<User>, v: User)
    requires Distinct(users, UserId) && Distinct(users, Username)
    requires forall w | w in users :: w.id != v.id ==> w.username != v.username
    ensures Distinct(Replace(users, UserId, v), Username)
  {
    var r := Replace(users, UserId, v);
    forall i, j | 0 <= i < j < |r| ensures Username(r[i]) != Username(r[j]) {
      assert UserId(users[i]) != UserId(users[j]);
      assert users[i] in users && users[j] in users;
    }
  }

  lemma HardDeleteKeeps(db: Db, user: nat)
    requires Inv(db) && IsUser(db.users, user)
    ensures Inv(HardDelete(db, user).db)
  {
    var cleared := db.(tokens := Unless(db.tokens, IssuedTo(user)),
                       notifications := Unless(db.notifications, NotifiedTo(user)));
    DropMembersKeeps(cleared, HeldBy(user));
    assert forall m | m in EraseChildren(db, user).members :: !HeldBy(user)(m);
    DeleteUserKeeps(EraseChildren(db, user), user);
  }

  lemma DeleteUserKeeps(db: Db, user: nat)
    requires Inv(db) && IsUser(db.users, user) && forall m | m in db.members :: m.user != user
    ensures Inv(DeleteUser(db, user))
  {
    var db' := DeleteUser(db, user);
    DistinctWhere(db.users, UserId, Not(UserIs(user)));
    DistinctWhere(db.users, Username, Not(UserIs(user)));
    NullAssignerRows(db, user);
  }

  lemma NullAssignerRows(db: Db, user: nat)
    requires Inv(db) && forall m | m in db.members :: m.user != user
    ensures MembersOk(DeleteUser(db, user).members, db.roles, Unless(db.users, UserIs(user)))
    ensures Below(DeleteUser(db, user).members, MemberId, db.nextId)
  {
    var members := DeleteUser(db, user).members;
    forall i | 0 <= i < |members|
      ensures Seated(members[i], db.roles, Unless(db.users, UserIs(user)))
      ensures MemberId(members[i]) == MemberId(db.members[i]) < db.nextId
      ensures MemberSeat(members[i]) == MemberSeat(db.members[i])
    {
      var m := db.members[i];
      assert m in db.members && Seated(m, db.roles, db.users);
      StillUser(db.users, user, m.user);
      if members[i].assignedBy.Some? {
        StillUser(db.users, user, m.assignedBy.value);
      }
    }
  }

  lemma StillUser(users: seq<User>, gone: nat, id: nat)
    requires IsUser(users, id) && id != gone
    ensures IsUser(Unless(users, UserIs(gone)), id)
  {
    var u :| u in users && u.id == id;
    assert u in Unless(users, UserIs(gone));
  }
}
