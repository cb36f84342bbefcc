/** The rows that the audit service writes itself, against the membership table and the deltas. */
module TwoLogs {

  import opened Rows
  import opened Text
  import opened DeltaLog
  import opened AuthModel
  import opened Services
  import opened StoreInvariant
  import opened AuditReplay
  import opened Seeding
  import opened Queries
  import opened Runs

  /** The role slug that the last event about a user in a tenant leaves them with. */
  function RoleByEvents(events: seq<Event>, user: nat, tenant: nat): Option<string> {
    if events == [] then None
    else
      var e := events[|events| - 1];
      if e.user == user && e.tenant == tenant then (if e.RoleAssigned? then Some(e.role) else None)
      else RoleByEvents(events[..|events| - 1], user, tenant)
  }

  ghost predicate Agree(db: Db, user: nat, tenant: nat) {
    RoleByEvents(db.events, user, tenant) == GetRole(db, user, tenant)
  }

  predicate About(e: Event, user: nat, tenant: nat) {
    e.user == user && e.tenant == tenant
  }

  /** Between the two stores an event about the seat was written. */
  ghost predicate NewEvent(db: Db, db': Db, user: nat, tenant: nat) {
    exists i | |db.events| <= i < |db'.events| :: About(db'.events[i], user, tenant)
  }

  /** Neither log shows a difference about the seat. */
  ghost predicate SameSides(db: Db, db': Db, user: nat, tenant: nat) {
    && RoleByEvents(db'.events, user, tenant) == RoleByEvents(db.events, user, tenant)
    && GetRole(db', user, tenant) == GetRole(db, user, tenant)
  }

  /** A call that writes an event about a seat leaves the logs in agreement about it, whatever they
      said before; otherwise it leaves both sides alone. */
  ghost predicate Faithful(db: Db, db': Db, user: nat, tenant: nat) {
    if NewEvent(db, db', user, tenant) then Agree(db', user, tenant) else SameSides(db, db', user, tenant)
  }

  /** The call deletes the membership of the user in the tenant without writing an event. */
  ghost predicate ErasesSilently(db: Db, c: Call, user: nat, tenant: nat) {
    Exists(db.members, SeatIs(user, tenant)) &&
    match c
    case AnonymizeCall(account, tag) =>
      account.id == user && !Exists(db.users, OtherNamed(account.id, "deleted_" + tag))
    case HardDeleteCall(id) => id == user
    case _ => false
  }

  /** The seat is emptied and the events go on showing its role. */
  ghost predicate Emptied(db: Db, db': Db, user: nat, tenant: nat) {
    && RoleByEvents(db'.events, user, tenant) == RoleByEvents(db.events, user, tenant)
    && GetRole(db, user, tenant).Some? && GetRole(db', user, tenant) == None
    && !NewEvent(db, db', user, tenant)
  }

  // ---- Events ----------------------------------------------------------------------------

  lemma EventAppend(events: seq<Event>, e: Event, user: nat, tenant: nat)
    ensures RoleByEvents(events + [e], user, tenant) ==
      if e.user == user && e.tenant == tenant then (if e.RoleAssigned? then Some(e.role) else None)
      else RoleByEvents(events, user, tenant)
  {
    assert (events + [e])[..|events|] == events;
  }

  lemma {:induction false} EventsNulled(events: seq<Event>, nulled: seq<Event>, gone: nat, user: nat, tenant: nat)
    requires |nulled| == |events| && forall i | 0 <= i < |events| :: nulled[i] == NullActor(gone, events[i])
    ensures RoleByEvents(nulled, user, tenant) == RoleByEvents(events, user, tenant)
  {
    if events != [] {
      var n := |events| - 1;
      EventsNulled(events[..n], nulled[..n], gone, user, tenant);
    }
  }

  // ---- Memberships -----------------------------------------------------------------------

  lemma SameMembers(db: Db, db': Db, user: nat, tenant: nat)
    requires Inv(db) && Inv(db') && db'.members == db.members && forall r | r in db.roles :: r in db'.roles
    ensures GetRole(db', user, tenant) == GetRole(db, user, tenant)
  {
    SameSeat(db, db', user, tenant);
  }

  /** After an assignment the user has the role, and every other seat is as it was. */
  lemma AssignedRole(
    db: Db, user: nat, tenant: nat, slug: string, actor: Option<nat>, now: nat, u: nat, t: nat)
    requires Inv(db) && Inv(AssignRole(db, user, tenant, slug, actor, now).db)
    ensures var out := AssignRole(db, user, tenant, slug, actor, now);
      GetRole(out.db, u, t) ==
        if out.result.Ok? && u == user && t == tenant then Some(slug) else GetRole(db, u, t)
  {
    var out, found := AssignRole(db, user, tenant, slug, actor, now), First(db.roles, RoleIs(tenant, slug));
    if found.Some? {
      var r := found.value;
      assert RoleIs(tenant, slug)(r);
      var (seated, m) := SeatMember(db, user, tenant, r.id, actor, now);
      SeatedRows(db, user, tenant, r.id, actor, now);
      if u == user && t == tenant {
        RoleOfSeat(out.db, m, r);
      } else {
        SameSeat(db, out.db, u, t);
      }
    }
  }

  lemma SeatedRows(db: Db, user: nat, tenant: nat, role: nat, actor: Option<nat>, now: nat)
    requires Inv(db)
    ensures var (db', m) := SeatMember(db, user, tenant, role, actor, now);
      && m in db'.members && SeatIs(user, tenant)(m) && m.role == role
      && forall n | !SeatIs(user, tenant)(n) :: n in db'.members <==> n in db.members
  {
    var (db', m) := SeatMember(db, user, tenant, role, actor, now);
    match First(db.members, SeatIs(user, tenant))
    case None =>
    case Some(old_) =>
      assert SeatIs(user, tenant)(old_);
      forall n | n in db.members && n.id == m.id ensures n == old_ {
        SameRow(db.members, MemberId, n, old_);
      }
  }

  /** After a queryset delete the deleted seats are empty, and every other seat is as it was. */
  lemma DroppedRole(db: Db, p: Membership -> bool, db': Db, user: nat, tenant: nat)
    requires Inv(db) && Inv(db') && db'.members == Unless(db.members, p) && db'.roles == db.roles
    requires (forall m | SeatIs(user, tenant)(m) :: p(m)) || (forall m | SeatIs(user, tenant)(m) :: !p(m))
    ensures GetRole(db', user, tenant) ==
      if forall m | SeatIs(user, tenant)(m) :: p(m) then None else GetRole(db, user, tenant)
  {
    var m0 := Membership(0, user, tenant, 0, None, 0);
    assert SeatIs(user, tenant)(m0);
    if forall m | SeatIs(user, tenant)(m) :: p(m) {
      assert forall m | m in db'.members :: !SeatIs(user, tenant)(m);
    } else {
      SameSeat(db, db', user, tenant);
    }
  }

  lemma NulledRole(db: Db, gone: nat, user: nat, tenant: nat)
    requires Inv(db) && Inv(DeleteUser(db, gone))
    ensures GetRole(DeleteUser(db, gone), user, tenant) == GetRole(db, user, tenant)
  {
    var db' := DeleteUser(db, gone);
    forall m | m in db.members && SeatIs(user, tenant)(m)
      ensures exists n | n in db'.members :: SeatIs(user, tenant)(n) && n.role == m.role
    {
      var i :| 0 <= i < |db.members| && db.members[i] == m;
      assert db'.members[i] in db'.members && SeatIs(user, tenant)(db'.members[i]);
    }
    forall n | n in db'.members && SeatIs(user, tenant)(n)
      ensures exists m | m in db.members :: SeatIs(user, tenant)(m)
    {
      var i :| 0 <= i < |db'.members| && db'.members[i] == n;
      assert db.members[i] in db.members && SeatIs(user, tenant)(db.members[i]);
    }
    SameSeat(db, db', user, tenant);
  }

  /** Having a role is having a seat. */
  lemma SeatedIffRole(db: Db, user: nat, tenant: nat)
    requires Inv(db)
    ensures GetRole(db, user, tenant).Some? <==> Exists(db.members, SeatIs(user, tenant))
  {
    SeatHasRole(db, user, tenant);
  }

  // ---- One step --------------------------------------------------------------------------

  lemma AssignFaithful(db: Db, user: nat, tenant: nat, slug: string, actor: Option<nat>, now: nat, u: nat, t: nat)
    requires Inv(db) && Inv(AssignRole(db, user, tenant, slug, actor, now).db)
    ensures Faithful(db, AssignRole(db, user, tenant, slug, actor, now).db, u, t)
  {
    AssignedRole(db, user, tenant, slug, actor, now, u, t);
    EventAppend(db.events, RoleAssigned(user, tenant, slug, actor), u, t);
    var db' := AssignRole(db, user, tenant, slug, actor, now).db;
    if AssignRole(db, user, tenant, slug, actor, now).result.Ok? && u == user && t == tenant {
      assert About(db'.events[|db.events|], u, t);
    }
  }

  lemma RevokeFaithful(db: Db, user: nat, tenant: nat, u: nat, t: nat)
    requires Inv(db) && Inv(RevokeRole(db, user, tenant).db)
    ensures Faithful(db, RevokeRole(db, user, tenant).db, u, t)
  {
    var db', gone := RevokeRole(db, user, tenant).db, Where(db.members, SeatIs(user, tenant));
    assert forall m | SeatIs(u, t)(m) :: SeatIs(user, tenant)(m) == (u == user && t == tenant);
    DroppedRole(db, SeatIs(user, tenant), db', u, t);
    EventAppend(db.events, RoleRevoked(user, tenant, None), u, t);
    Inhabited(gone);
    SeatedIffRole(db, u, t);
    if gone != [] && u == user && t == tenant {
      assert About(db'.events[|db.events|], u, t);
    }
  }

  lemma AnonymizeOutcome(db: Db, account: User, tag: string, u: nat, t: nat)
    requires Inv(db) && Inv(Anonymize(db, account, tag).db)
    ensures var db' := Anonymize(db, account, tag).db;
      if ErasesSilently(db, AnonymizeCall(account, tag), u, t) then Emptied(db, db', u, t) else Faithful(db, db', u, t)
  {
    AnonymizedRole(db, account, tag, u, t);
    SeatedIffRole(db, u, t);
  }

  lemma AnonymizedRole(db: Db, account: User, tag: string, u: nat, t: nat)
    requires Inv(db) && Inv(Anonymize(db, account, tag).db)
    ensures var out := Anonymize(db, account, tag);
      && out.db.events == db.events
      && (out.result.Ok? <==> !Exists(db.users, OtherNamed(account.id, "deleted_" + tag)))
      && GetRole(out.db, u, t) == if out.result.Ok? && u == account.id then None else GetRole(db, u, t)
  {
    var db' := Anonymize(db, account, tag).db;
    if Anonymize(db, account, tag).result.Ok? {
      assert forall m | SeatIs(u, t)(m) :: HeldBy(account.id)(m) == (u == account.id);
      DroppedRole(db, HeldBy(account.id), db', u, t);
    } else {
      SameMembers(db, db', u, t);
    }
  }

  lemma HardDeleteOutcome(db: Db, user: nat, u: nat, t: nat)
    requires Inv(db) && IsUser(db.users, user)
    ensures var db' := HardDelete(db, user).db;
      if ErasesSilently(db, HardDeleteCall(user), u, t) then Emptied(db, db', u, t) else Faithful(db, db', u, t)
  {
    HardDeletedRole(db, user, u, t);
    HardDeletedEvents(db, user, u, t);
    SeatedIffRole(db, u, t);
  }

  lemma HardDeletedEvents(db: Db, user: nat, u: nat, t: nat)
    ensures var db' := HardDelete(db, user).db;
      |db'.events| == |db.events| && RoleByEvents(db'.events, u, t) == RoleByEvents(db.events, u, t)
  {
    EventsNulled(db.events, HardDelete(db, user).db.events, user, u, t);
  }

  lemma HardDeletedRole(db: Db, user: nat, u: nat, t: nat)
    requires Inv(db) && IsUser(db.users, user)
    ensures GetRole(HardDelete(db, user).db, u, t) == if u == user then None else GetRole(db, u, t)
  {
    var inside := EraseChildren(db, user);
    HardDeleteKeeps(db, user);
    DropMembersKeeps(
      db.(tokens := Unless(db.tokens, IssuedTo(user)), notifications := Unless(db.notifications, NotifiedTo(user))),
      HeldBy(user));
    assert forall m | SeatIs(u, t)(m) :: HeldBy(user)(m) == (u == user);
    DroppedRole(db, HeldBy(user), inside, u, t);
    NulledRole(inside, user, u, t);
  }

  lemma SeedFaithful(db: Db, now: nat, u: nat, t: nat)
    requires Inv(db)
    ensures Faithful(db, Seed(db, now).db, u, t)
  {
    SeedKeeps(db, now);
    var zeroth := EnsurePermissions(db, PERMISSION_CODES);
    DemoPermissionsCarry(db);
    EnsurePermissionsFrame(db, PERMISSION_CODES);
    SeedTenantsCarries(zeroth, now);
    SeedTenantsFrame(zeroth, now);
    SeedTenantsEvents(zeroth, now);
    var tenants := SeedTenants(zeroth, now);
    if SeedInside(db, now).result.Err? {
      SameMembers(db, Seed(db, now).db, u, t);
    } else {
      SameMembers(db, tenants.db, u, t);
      UpsertAdminCarries(tenants.db);
      var (staffed, admin) := UpsertAdmin(tenants.db);
      SameMembers(tenants.db, staffed, u, t);
      AssignRoleKeeps(staffed, admin.id, DEMO_TENANTS[0].id, "admin", None, now);
      AssignFaithful(staffed, admin.id, DEMO_TENANTS[0].id, "admin", None, now, u, t);
      assert Seed(db, now).db == AssignRole(staffed, admin.id, DEMO_TENANTS[0].id, "admin", None, now).db;
    }
  }

  lemma {:induction false} EnsureRolesEvents(db: Db, tenant: nat, defaults: seq<DefaultRole>, now: nat)
    ensures EnsureRoles(db, tenant, defaults, now).events == db.events
    ensures EnsureRoles(db, tenant, defaults, now).members == db.members
    ensures EnsureRoles(db, tenant, defaults, now).erased == db.erased
  {
    if defaults != [] {
      EnsureRolesEvents(db, tenant, defaults[..|defaults| - 1], now);
    }
  }

  lemma SeedTenantEvents(db: Db, spec: TenantSpec, now: nat)
    requires Inv(db) && spec in DEMO_TENANTS
    ensures SeedTenant(db, spec, now).db.events == db.events
  {
    UpsertTenantCarries(db, spec, now);
    var t := Tenant(spec.id, spec.name, spec.slug, spec.slug, true);
    EnsureRolesEvents(db.(tenants := db.tenants + [t]), t.id, DEFAULT_ROLES, now);
    var first := UpsertTenant(db, spec, now);
    if first.result.Ok? {
      EquipTenantCarries(first.db, spec, now);
    }
  }

  lemma SeedTenantsEvents(db: Db, now: nat)
    requires Inv(db)
    ensures SeedTenants(db, now).db.events == db.events
  {
    assert DEMO_TENANTS[0] in DEMO_TENANTS && DEMO_TENANTS[1] in DEMO_TENANTS;
    SeedTenantCarries(db, DEMO_TENANTS[0], now);
    SeedTenantEvents(db, DEMO_TENANTS[0], now);
    if SeedTenant(db, DEMO_TENANTS[0], now).result.Ok? {
      SeedTenantEvents(SeedTenant(db, DEMO_TENANTS[0], now).db, DEMO_TENANTS[1], now);
    }
  }

  /** Calls that write neither a membership nor an event. */
  lemma OtherCallFrame(db: Db, s: Step)
    requires Inv(db) && Enabled(db, s.call)
    requires s.call.RegisterUserCall? || s.call.CreatePermissionCall? || s.call.CreateTenantCall? ||
      s.call.DefaultRolesCall? || s.call.CreateRoleCall? || s.call.SetFeatureCall?
    ensures forall r | r in db.roles :: r in Next(db, s).roles
    ensures Next(db, s).members == db.members && Next(db, s).events == db.events
    ensures Next(db, s).erased == db.erased
  {
    match s.call
    case CreateTenantCall(name, schemaName, domain, isPrimary) =>
      Slugs.ValidateSlugExact(schemaName);
      InsertTenantFrame(db, Strip(name), Slugs.Normal(schemaName), Lower(Strip(domain)), isPrimary, s.now);
    case DefaultRolesCall(tenant) => DefaultsThere(db, tenant, s.now);
    case CreateRoleCall(tenant, name, slug, weight, codes) =>
      CreateRoleKeeps(db, tenant, name, slug, weight, codes, s.now);
    case _ =>
  }

  lemma {:induction false} EnsureRolesGrow(db: Db, tenant: nat, defaults: seq<DefaultRole>, now: nat)
    ensures forall r | r in db.roles :: r in EnsureRoles(db, tenant, defaults, now).roles
  {
    if defaults != [] {
      EnsureRolesGrow(db, tenant, defaults[..|defaults| - 1], now);
    }
  }

  lemma InsertTenantFrame(db: Db, name: string, slug: string, host: string, isPrimary: bool, now: nat)
    ensures var db' := InsertTenant(db, name, slug, host, isPrimary, now).db;
      && db'.members == db.members && db'.events == db.events && db'.erased == db.erased
      && forall r | r in db.roles :: r in db'.roles
  {
    var t := Tenant(db.nextId, name, slug, slug, true);
    EnsureRolesEvents(db.(nextId := db.nextId + 1, tenants := db.tenants + [t]), t.id, DEFAULT_ROLES, now);
    EnsureRolesGrow(db.(nextId := db.nextId + 1, tenants := db.tenants + [t]), t.id, DEFAULT_ROLES, now);
  }

  /** What a call does to the two sides of a seat, with nothing assumed about either log. */
  lemma StepOutcome(db: Db, s: Step, u: nat, t: nat)
    requires Inv(db) && Enabled(db, s.call)
    ensures if ErasesSilently(db, s.call, u, t) then Emptied(db, Next(db, s), u, t)
      else Faithful(db, Next(db, s), u, t)
  {
    InvStep(db, s);
    match s.call
    case AssignRoleCall(user, tenant, slug, actor) => AssignFaithful(db, user, tenant, slug, actor, s.now, u, t);
    case RevokeRoleCall(user, tenant) => RevokeFaithful(db, user, tenant, u, t);
    case AnonymizeCall(account, tag) => AnonymizeOutcome(db, account, tag, u, t);
    case HardDeleteCall(user) => HardDeleteOutcome(db, user, u, t);
    case SeedCall => SeedFaithful(db, s.now, u, t);
    case _ =>
      OtherCallFrame(db, s);
      SameMembers(db, Next(db, s), u, t);
  }

  /** A call keeps the event log and the membership table in agreement about a seat exactly when it
      does not erase that seat. */
  lemma StepAgrees(db: Db, s: Step, u: nat, t: nat)
    requires Inv(db) && Enabled(db, s.call) && Agree(db, u, t)
    ensures Agree(Next(db, s), u, t) <==> !ErasesSilently(db, s.call, u, t)
  {
    StepOutcome(db, s, u, t);
  }

  // ---- Runs ------------------------------------------------------------------------------

  /** The last call of the run that wrote an event about the seat or erased it erased it. */
  ghost predicate EndsErased(steps: seq<Step>, u: nat, t: nat) {
    steps != [] &&
    var init, last := steps[..|steps| - 1], steps[|steps| - 1];
    var before := Exec(EMPTY, init);
    || ErasesSilently(before, last.call, u, t)
    || (!NewEvent(before, Next(before, last), u, t) && EndsErased(init, u, t))
  }

  /** After any run the event log and the membership table agree about a seat exactly when the last
      call that touched it was not a silent erasure. */
  lemma {:induction false} RunAgreesExactly(steps: seq<Step>, u: nat, t: nat)
    requires AlwaysEnabled(steps)
    ensures Inv(Exec(EMPTY, steps))
    ensures Agree(Exec(EMPTY, steps), u, t) <==> !EndsErased(steps, u, t)
    ensures EndsErased(steps, u, t) ==>
      GetRole(Exec(EMPTY, steps), u, t) == None && RoleByEvents(Exec(EMPTY, steps).events, u, t).Some?
  {
    RunInv(steps);
    if steps != [] {
      EnabledPrefix(steps);
      var n := |steps| - 1;
      RunAgreesExactly(steps[..n], u, t);
      RunInv(steps[..n]);
      OneMoreCall(Exec(EMPTY, steps[..n]), steps[n], u, t, EndsErased(steps[..n], u, t));
    }
  }

  lemma OneMoreCall(db: Db, s: Step, u: nat, t: nat, erased: bool)
    requires Inv(db) && Enabled(db, s.call)
    requires Agree(db, u, t) <==> !erased
    requires erased ==> GetRole(db, u, t) == None && RoleByEvents(db.events, u, t).Some?
    ensures var erased' := ErasesSilently(db, s.call, u, t) || (!NewEvent(db, Next(db, s), u, t) && erased);
      && (Agree(Next(db, s), u, t) <==> !erased')
      && (erased' ==> GetRole(Next(db, s), u, t) == None && RoleByEvents(Next(db, s).events, u, t).Some?)
  {
    StepOutcome(db, s, u, t);
  }

  /** The text of a membership and the text of a role that together seat a user. */
  predicate Links(m: Fields, r: Fields, user: nat, tenant: nat, slug: string) {
    && Lookup(m, "user") == Some(ShowNat(user)) && Lookup(m, "tenant") == Some(ShowNat(tenant))
    && Lookup(r, "id").Some? && Lookup(r, "id") == Lookup(m, "role")
    && Lookup(r, "slug") == Some(slug)
  }

  predicate LinkedKeys(tables: Tables, m: Key, r: Key, user: nat, tenant: nat, slug: string) {
    && m in tables && r in tables && m.model == MembershipModel && r.model == RoleModel
    && Links(tables[m], tables[r], user, tenant, slug)
  }

  /** The membership of a user in a tenant, read off table texts. */
  ghost predicate RoleInTables(tables: Tables, user: nat, tenant: nat, slug: string) {
    exists m, r :: LinkedKeys(tables, m, r, user, tenant, slug)
  }

  /** The fields used are read the same canonically and as written. */
  lemma LinksCanonical(erased: set<nat>, m: Fields, r: Fields, user: nat, tenant: nat, slug: string)
    ensures var c := Canonical(erased);
      Links(OnFields(c, m), OnFields(c, r), user, tenant, slug) <==> Links(m, r, user, tenant, slug)
  {
  }

  lemma RoleInCanonicalTables(erased: set<nat>, tables: Tables, user: nat, tenant: nat, slug: string)
    ensures RoleInTables(OnTables(Canonical(erased), tables), user, tenant, slug) <==>
      RoleInTables(tables, user, tenant, slug)
  {
    var read := OnTables(Canonical(erased), tables);
    forall m, r ensures LinkedKeys(read, m, r, user, tenant, slug) <==> LinkedKeys(tables, m, r, user, tenant, slug) {
      if m in tables && r in tables {
        LinksCanonical(erased, tables[m], tables[r], user, tenant, slug);
      }
    }
  }

  lemma LinksText(m: Membership, r: Role, user: nat, tenant: nat, slug: string)
    ensures Links(TextOf(MemberRow(m)), TextOf(RoleRow(r)), user, tenant, slug) <==>
      m.user == user && m.tenant == tenant && m.role == r.id && r.slug == slug
  {
    ShowNatInjective(m.user, user);
    ShowNatInjective(m.tenant, tenant);
    ShowNatInjective(m.role, r.id);
  }

  /** Read off the text of a store, the membership is the one that `get_role` finds. */
  lemma RoleInShot(db: Db, user: nat, tenant: nat, slug: string)
    requires Inv(db)
    ensures RoleInTables(Shot(db), user, tenant, slug) <==> GetRole(db, user, tenant) == Some(slug)
  {
    if RoleInTables(Shot(db), user, tenant, slug) {
      RoleOfShot(db, user, tenant, slug);
    }
    if GetRole(db, user, tenant) == Some(slug) {
      RoleToShot(db, user, tenant, slug);
    }
  }

  lemma RowOfShot(db: Db, k: Key) returns (x: Row)
    requires Consistent(db) && k in Shot(db)
    ensures x in RowsOf(db) && KeyOf(x) == k && Shot(db)[k] == TextOf(x)
  {
    RowsUnique(db);
    x :| x in RowsOf(db) && KeyOf(x) == k;
  }

  lemma RoleOfRows(db: Db, x: Row, y: Row, user: nat, tenant: nat, slug: string)
    requires Inv(db) && x in RowsOf(db) && y in RowsOf(db) && x.MemberRow? && y.RoleRow?
    requires Links(TextOf(x), TextOf(y), user, tenant, slug)
    ensures GetRole(db, user, tenant) == Some(slug)
  {
    LinksText(x.member, y.role, user, tenant, slug);
    RoleOfSeat(db, x.member, y.role);
  }

  lemma RoleOfShot(db: Db, user: nat, tenant: nat, slug: string)
    requires Inv(db) && RoleInTables(Shot(db), user, tenant, slug)
    ensures GetRole(db, user, tenant) == Some(slug)
  {
    var mk, rk :| LinkedKeys(Shot(db), mk, rk, user, tenant, slug);
    var x := RowOfShot(db, mk);
    var y := RowOfShot(db, rk);
    RoleOfRows(db, x, y, user, tenant, slug);
  }

  lemma RoleToShot(db: Db, user: nat, tenant: nat, slug: string)
    requires Inv(db) && GetRole(db, user, tenant) == Some(slug)
    ensures RoleInTables(Shot(db), user, tenant, slug)
  {
    SeatHasRole(db, user, tenant);
    var m, r := First(db.members, SeatIs(user, tenant)).value, GetRoleObject(db, user, tenant).value;
    assert SeatIs(user, tenant)(m);
    assert MemberRow(m) in RowsOf(db) && RoleRow(r) in RowsOf(db);
    StoredShot(db, MemberRow(m));
    StoredShot(db, RoleRow(r));
    LinksText(m, r, user, tenant, slug);
    assert LinkedKeys(Shot(db), KeyOf(MemberRow(m)), KeyOf(RoleRow(r)), user, tenant, slug);
  }

  /** Two logs agree: after any run the last event about a seat is the role that the lookup finds, exactly
      when the last call that touched the seat was not a silent erasure; and after a run that leaks no
      delta the role rebuilt from the deltas alone is the one that the lookup finds. */
  lemma TwoLogsAgree(steps: seq<Step>, u: nat, t: nat, slug: string)
    requires AlwaysEnabled(steps)
    ensures var db := Exec(EMPTY, steps);
      && (RoleByEvents(db.events, u, t) == GetRole(db, u, t) <==> !EndsErased(steps, u, t))
      && (Allowed(false, EMPTY, steps) ==>
          (RoleInTables(Replay(map[], db.queue), u, t, slug) <==> GetRole(db, u, t) == Some(slug)))
  {
    RunAgreesExactly(steps, u, t);
    if Allowed(false, EMPTY, steps) {
      RoleInReplay(steps, u, t, slug);
    }
  }

  lemma RoleInReplay(steps: seq<Step>, u: nat, t: nat, slug: string)
    requires Allowed(false, EMPTY, steps)
    ensures var db := Exec(EMPTY, steps);
      RoleInTables(Replay(map[], db.queue), u, t, slug) <==> GetRole(db, u, t) == Some(slug)
  {
    ForwardReplay(steps);
    var db := Exec(EMPTY, steps);
    RoleInShot(db, u, t, slug);
    RoleInCanonicalTables(db.erased, Replay(map[], db.queue), u, t, slug);
  }
}
