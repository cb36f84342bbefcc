/** What the writing services promise their callers, call by call. */
module ServiceEffects {

  import opened Rows
  import opened Text
  import opened DeltaLog
  import opened AuthModel
  import opened Slugs
  import opened Services
  import opened StoreInvariant
  import opened AuditReplay
  import opened Queries
  import TwoLogs

  // ---- Feature flags ---------------------------------------------------------------------

  lemma TheFlag(flags: seq<Flag>, f: Flag)
    requires FlagsOk(flags) && f in flags
    ensures First(flags, FlagIs(f.tenant, f.name)) == Some(f)
  {
    SameRow(flags, FlagName, f, First(flags, FlagIs(f.tenant, f.name)).value);
  }

  /** A flag write changes the row of its own key and no other. */
  lemma SetFeatureRow(
    db: Db, tenant: Option<nat>, name: string, raw: RawFlag, now: nat, t: Option<nat>, n: string)
    requires Inv(db)
    ensures var out := SetFeature(db, tenant, name, raw, now);
      && (out.result.Ok? <==> ToPython(raw).Some? && FlagNameOk(db.flags, tenant, name))
      && (out.result.Ok? ==> out.result.value.isActive == ToPython(raw).value)
      && First(out.db.flags, FlagIs(t, n)) ==
        if out.result.Ok? && (t, n) == (tenant, name) then Some(out.result.value) else First(db.flags, FlagIs(t, n))
  {
    SetFeatureKeeps(db, tenant, name, raw, now);
    if SetFeature(db, tenant, name, raw, now).result.Ok? {
      WrittenRow(db, tenant, name, raw, now, t, n);
    }
  }

  lemma WrittenRow(
    db: Db, tenant: Option<nat>, name: string, raw: RawFlag, now: nat, t: Option<nat>, n: string)
    requires Inv(db) && SetFeature(db, tenant, name, raw, now).result.Ok?
    ensures var out := SetFeature(db, tenant, name, raw, now);
      First(out.db.flags, FlagIs(t, n)) ==
        if (t, n) == (tenant, name) then Some(out.result.value) else First(db.flags, FlagIs(t, n))
  {
    SetFeatureKeeps(db, tenant, name, raw, now);
    var out, found := SetFeature(db, tenant, name, raw, now), Where(db.flags, FlagIs(tenant, name));
    var f := out.result.value;
    assert found != [] ==> found[0] in found;
    assert f in out.db.flags && f.tenant == tenant && f.name == name;
    TheFlag(out.db.flags, f);
    if (t, n) != (tenant, name) {
      OtherFlag(db.flags, out.db.flags, tenant, name, t, n) by {
        forall g | !FlagIs(tenant, name)(g) ensures g in db.flags <==> g in out.db.flags {
          if found != [] && g in db.flags && g.id == f.id {
            SameRow(db.flags, FlagId, g, found[0]);
          }
        }
      }
    }
  }

  lemma OtherFlag(a: seq<Flag>, b: seq<Flag>, tenant: Option<nat>, name: string, t: Option<nat>, n: string)
    requires FlagsOk(a) && FlagsOk(b) && (t, n) != (tenant, name)
    requires forall g | !FlagIs(tenant, name)(g) :: g in a <==> g in b
    ensures First(a, FlagIs(t, n)) == First(b, FlagIs(t, n))
  {
    match First(a, FlagIs(t, n))
    case Some(g) =>
      assert FlagIs(t, n)(g) && !FlagIs(tenant, name)(g);
      TheFlag(b, g);
    case None =>
      forall h | h in b ensures !FlagIs(t, n)(h) {
        assert FlagIs(t, n)(h) ==> !FlagIs(tenant, name)(h);
      }
  }

  /** The flag evaluations that a write to (`tenant`, `name`) reaches: its own key, and for a global
      write every tenant without an override of that name. */
  predicate Reaches(flags: seq<Flag>, tenant: Option<nat>, name: string, t: Option<nat>, n: string) {
    n == name && (t == tenant || (tenant.None? && First(flags, FlagIs(t, n)).None?))
  }

  /** A flag write sets the evaluations it reaches and leaves every other one as it was. */
  lemma SetFeatureFrame(
    db: Db, tenant: Option<nat>, name: string, raw: RawFlag, now: nat, t: Option<nat>, n: string)
    requires Inv(db)
    ensures var out := SetFeature(db, tenant, name, raw, now);
      && (out.result.Ok? <==> ToPython(raw).Some? && FlagNameOk(db.flags, tenant, name))
      && IsFeatureActive(out.db.flags, t, n) ==
        if out.result.Ok? && Reaches(db.flags, tenant, name, t, n) then ToPython(raw).value
        else IsFeatureActive(db.flags, t, n)
  {
    SetFeatureRow(db, tenant, name, raw, now, t, n);
    SetFeatureRow(db, tenant, name, raw, now, None, n);
  }

  /** When a flag write succeeds, and why it is refused otherwise, with no effect: a value that is neither a Boolean
      nor null, a null, or a name that no query or no new row takes. */
  lemma SetFeatureRefusals(db: Db, tenant: Option<nat>, name: string, raw: RawFlag, now: nat)
    requires Inv(db)
    ensures var out := SetFeature(db, tenant, name, raw, now);
      && (out.result.Ok? <==>
          ToPython(raw).Some? && '\0' !in name &&
          (|name| <= 100 || exists g | g in db.flags :: g.tenant == tenant && g.name == name))
      && (out.result == Err(Validation) <==> Clean(name) && ToPython(raw).None? && raw != RawNull)
      && (out.result == Err(Integrity) <==> FlagNameOk(db.flags, tenant, name) && raw == RawNull)
      && (out.result.Err? ==> out.db == db && out.result.error in [Validation, Integrity, DataRefused])
  {
    var found := Where(db.flags, FlagIs(tenant, name));
    WhereUnique(db.flags, FlagName, FlagIs(tenant, name), (tenant, name));
    assert forall g: Flag :: FlagIs(tenant, name)(g) <==> g.tenant == tenant && g.name == name;
    Inhabited(found);
  }

  /** The table after a flag write that succeeds. */
  lemma SetFeatureExact(db: Db, tenant: Option<nat>, name: string, raw: RawFlag, now: nat)
    requires Inv(db)
    ensures var out := SetFeature(db, tenant, name, raw, now);
      out.result.Ok? ==> FlagWritten(db, out.db, out.result.value, tenant, name, ToPython(raw).value, now)
  {
    var found := Where(db.flags, FlagIs(tenant, name));
    if SetFeature(db, tenant, name, raw, now).result.Ok? {
      forall g | g in db.flags && g.tenant == tenant && g.name == name ensures found != [] && g == found[0] {
        assert FlagIs(tenant, name)(g) && g in found && found[0] in found;
        SameRow(db.flags, FlagName, g, found[0]);
      }
      if found != [] {
        assert found[0] in found && FlagIs(tenant, name)(found[0]);
        forall g | g in db.flags && g.id == found[0].id ensures g == found[0] {
          SameRow(db.flags, FlagId, g, found[0]);
        }
      }
    }
  }

  /** `f` is the one row of its tenant and name. A row that was there keeps its identifier and creation time. */
  ghost predicate FlagWritten(
    db: Db, db': Db, f: Flag, tenant: Option<nat>, name: string, active: bool, now: nat)
  {
    && f == Flag(f.id, tenant, name, active, f.createdAt, now)
    && (forall g :: g in db'.flags <==> g == f || (g in db.flags && !(g.tenant == tenant && g.name == name)))
    && (forall g | g in db.flags && g.tenant == tenant && g.name == name :: f.id == g.id && f.createdAt == g.createdAt)
    && ((forall g | g in db.flags :: !(g.tenant == tenant && g.name == name)) ==> f.createdAt == now)
    && db' == db.(flags := db'.flags, queue := db'.queue, nextId := db'.nextId)
  }

  /** A later write to the same key makes the earlier one irrelevant to every evaluation. */
  lemma LaterWriteWins(
    db: Db, tenant: Option<nat>, name: string, raw: RawFlag, later: RawFlag, now: nat, after: nat,
    t: Option<nat>, n: string)
    requires Inv(db) && ToPython(later).Some?
    ensures var earlier := SetFeature(db, tenant, name, raw, now).db;
      IsFeatureActive(SetFeature(earlier, tenant, name, later, after).db.flags, t, n) ==
      IsFeatureActive(SetFeature(db, tenant, name, later, after).db.flags, t, n)
  {
    var first := SetFeature(db, tenant, name, raw, now);
    SetFeatureKeeps(db, tenant, name, raw, now);
    if first.result.Ok? {
      SameNames(db, tenant, name, raw, now);
      SetFeatureFrame(db, tenant, name, raw, now, t, n);
      SetFeatureFrame(db, tenant, name, later, after, t, n);
      SetFeatureFrame(first.db, tenant, name, later, after, t, n);
      SetFeatureRow(db, tenant, name, raw, now, t, n);
    }
  }

  /** A name that was taken once is taken again. */
  lemma SameNames(db: Db, tenant: Option<nat>, name: string, raw: RawFlag, now: nat)
    requires Inv(db) && SetFeature(db, tenant, name, raw, now).result.Ok?
    ensures FlagNameOk(SetFeature(db, tenant, name, raw, now).db.flags, tenant, name)
  {
    SetFeatureRow(db, tenant, name, raw, now, tenant, name);
    var out := SetFeature(db, tenant, name, raw, now);
    assert FlagIs(tenant, name)(out.result.value) && out.result.value in out.db.flags;
    assert out.result.value in Where(out.db.flags, FlagIs(tenant, name));
  }

  // ---- Users and permissions -------------------------------------------------------------

  /** `get_or_create_permission` gives the permission of that code: the one that is there, as it is, or a new one with
      the given description, unless its code is too long or holds a zero character. `create_permission` does the same
      for a new code and refuses one that is taken. */
  lemma PermissionExact(db: Db, code: string, description: string)
    requires Inv(db)
    ensures var got, made := GetOrCreatePermission(db, code, description), CreatePermission(db, code, description);
      var taken := exists p | p in db.permissions :: p.code == code;
      && (forall p | p in db.permissions && p.code == code :: got == Outcome(db, Ok(p)))
      && (taken ==> made == Outcome(db, Err(Conflict)))
      && (!taken ==> got == made && (made.result.Ok? <==> |code| <= 100 && '\0' !in code))
      && (made.result.Ok? ==> var p := made.result.value;
          && p == Permission(p.id, code, description) && made.db.permissions == db.permissions + [p]
          && made.db == db.(permissions := made.db.permissions, nextId := made.db.nextId))
      && (made.result.Err? ==> made.db == db)
  {
    assert forall p: Permission :: CodeIs(code)(p) <==> p.code == code;
    forall p | p in db.permissions && p.code == code ensures First(db.permissions, CodeIs(code)) == Some(p) {
      assert CodeIs(code)(p);
      SameRow(db.permissions, PermissionCode, p, First(db.permissions, CodeIs(code)).value);
    }
  }

  /** A registration adds one active user with the given name, e-mail and privilege, exactly when nobody has that name
      or that e-mail and both fit their columns. */
  lemma RegisterUserExact(db: Db, username: string, email: string, superuser: bool)
    ensures var out := RegisterUser(db, username, email, superuser);
      var free := forall u | u in db.users :: u.username != username && u.email != email;
      && (out.result == Err(Conflict) <==> !free)
      && (out.result.Ok? <==>
          free && |username| <= 150 && |email| <= 254 && '\0' !in username && '\0' !in email)
      && (out.result.Err? ==> out.db == db)
      && (out.result.Ok? ==> var u := out.result.value;
          && u.username == username && u.email == email && u.isSuperuser == superuser
          && u.isActive && u.usablePassword && u.firstName == "" && u.lastName == ""
          && out.db == db.(users := db.users + [u], nextId := db.nextId + 1) && u.id == db.nextId)
  {
    assert Exists(db.users, (u: User) => u.username == username) <==>
      exists u | u in db.users :: u.username == username;
    assert Exists(db.users, (u: User) => u.email == email) <==> exists u | u in db.users :: u.email == email;
  }

  // ---- Role creation ---------------------------------------------------------------------

  /** Name and slug have 100 characters at most and no zero character, and the weight is a positive 32-bit integer
      or zero. */
  predicate RoleColumnsTake(name: string, slug: string, weight: int) {
    |name| <= 100 && |slug| <= 100 && '\0' !in name && '\0' !in slug && 0 <= weight < 0x8000_0000
  }

  /** `create_role` succeeds exactly when the slug is free, the columns take the values and every code is a clean
      text that exists. Then the role has exactly the requested codes and every other role keeps its own.
      Otherwise no table changes, except exactly when a role that could be inserted was asked for with a code
      that the lookup refuses: then the role stays, without permissions. */
  lemma CreateRoleAllOrNothing(
    db: Db, tenant: nat, name: string, slug: string, weight: int, codes: seq<string>, now: nat)
    requires Inv(db) && IsTenant(db.tenants, tenant)
    ensures var out := CreateRole(db, tenant, name, slug, weight, codes, now);
      var insertable := !Exists(db.roles, RoleIs(tenant, slug)) && RoleColumnsTake(name, slug, weight);
      && out.result.Ok? ==
        (insertable && AllClean(codes) && forall c | c in codes :: Exists(db.permissions, CodeIs(c)))
      && (out.result == Err(Conflict) <==> Exists(db.roles, RoleIs(tenant, slug)))
      && (out.result == Err(Validation) <==>
          insertable && AllClean(codes) && exists c | c in codes :: !Exists(db.permissions, CodeIs(c)))
      && (out.result.Err? ==>
          (out.db == db.(queue := out.db.queue, nextId := out.db.nextId) <==> !(insertable && !AllClean(codes))))
      && (out.result.Ok? ==> var r := out.result.value;
          && out.db.roles == db.roles + [r] && r == Role(r.id, tenant, name, slug, false, weight, now)
          && (forall c :: Granted(out.db, r.id, c) <==> c in codes)
          && (forall q, c | q in db.roles :: Granted(out.db, q.id, c) <==> Granted(db, q.id, c)))
  {
    if !Exists(db.roles, RoleIs(tenant, slug)) && RoleStorable(name, slug, weight) {
      assert forall q | q in db.roles :: !RoleIs(tenant, slug)(q);
      EquipRoleExact(db, Role(db.nextId, tenant, name, slug, false, weight, now), codes);
    }
  }

  lemma EquipRoleExact(db: Db, r: Role, codes: seq<string>)
    requires Inv(db) && r.id == db.nextId && IsTenant(db.tenants, r.tenant)
    requires forall q | q in db.roles :: RoleName(q) != RoleName(r)
    ensures var out := EquipRole(db, r, codes);
      && out.result.Ok? == (AllClean(codes) && forall c | c in codes :: Exists(db.permissions, CodeIs(c)))
      && out.result != Err(Conflict)
      && (out.result == Err(Validation) <==>
          AllClean(codes) && exists c | c in codes :: !Exists(db.permissions, CodeIs(c)))
      && (out.result.Err? ==> (out.db == db.(queue := out.db.queue, nextId := out.db.nextId) <==> AllClean(codes)))
      && (out.result.Ok? ==>
          && out.result.value == r && out.db.roles == db.roles + [r]
          && (forall c :: Granted(out.db, r.id, c) <==> c in codes)
          && (forall q, c | q in db.roles :: Granted(out.db, q.id, c) <==> Granted(db, q.id, c)))
  {
    var out := EquipRole(db, r, codes);
    EquipRoleKeeps(db, r, codes);
    MissingExactly(db, codes);
    if out.result.Ok? {
      assert forall g | g in db.grants :: IsRole(db.roles, g.role);
      assert forall g | g in db.grants :: g.role != r.id;
      if codes != [] {
        SetGrantsRows(db.grants, r.id, Where(db.permissions, CodeIn(codes)));
        GrantsOfNewRole(db, out.db, r.id, codes);
      }
    }
  }

  /** When a code is unknown, the call has sent two deltas, and they cancel on the tables it found. */
  lemma FailedRoleDeltasCancel(
    db: Db, tenant: nat, name: string, slug: string, weight: int, codes: seq<string>, now: nat)
    requires Inv(db) && CreateRole(db, tenant, name, slug, weight, codes, now).result == Err(Validation)
    ensures var queue := CreateRole(db, tenant, name, slug, weight, codes, now).db.queue;
      && |queue| == |db.queue| + 2 && db.queue <= queue
      && Replay(Shot(db), queue[|db.queue|..]) == Shot(db)
  {
    var r := Role(db.nextId, tenant, name, slug, false, weight, now);
    var queue := CreateRole(db, tenant, name, slug, weight, codes, now).db.queue;
    var x, t := RoleRow(r), TextOf(RoleRow(r));
    var made, gone := Create(KeyOf(x), t - {"password"}), DeletedDelta(KeyOf(x), t);
    assert queue == db.queue + [made] + [gone];
    assert queue[|db.queue|..] == [made, gone];
    FreshKey(db);
    CreateDelete(Shot(db), KeyOf(x), made.after, gone.gone);
  }

  /** The next identifier is not in the audited tables. */
  lemma FreshKey(db: Db)
    requires Inv(db)
    ensures Key(RoleModel, db.nextId) !in Shot(db)
  {
    RowsUnique(db);
  }

  lemma MissingExactly(db: Db, codes: seq<string>)
    ensures MissingCodes(db, codes) == {} <==> forall c | c in codes :: Exists(db.permissions, CodeIs(c))
  {
    var found := Where(db.permissions, CodeIn(codes));
    forall c | c in codes ensures c in MissingCodes(db, codes) <==> !Exists(db.permissions, CodeIs(c)) {
      if p :| p in db.permissions && CodeIs(c)(p) {
        assert p in found && p.code == c;
      } else {
        assert forall p | p in found :: !CodeIs(c)(p);
      }
    }
  }

  lemma GrantsOfNewRole(db: Db, db': Db, role: nat, codes: seq<string>)
    requires Inv(db) && db'.permissions == db.permissions && role == db.nextId
    requires forall c | c in codes :: Exists(db.permissions, CodeIs(c))
    requires forall g :: g in db'.grants <==>
      if g.role == role then IsPermission(Where(db.permissions, CodeIn(codes)), g.permission) else g in db.grants
    ensures forall c :: Granted(db', role, c) <==> c in codes
    ensures forall q, c | q in db.roles :: Granted(db', q.id, c) <==> Granted(db, q.id, c)
  {
    var found := Where(db.permissions, CodeIn(codes));
    forall c ensures Granted(db', role, c) <==> c in codes {
      if c in codes {
        var p :| p in db.permissions && CodeIs(c)(p);
        assert p in found && IsPermission(found, p.id);
        assert Grant(role, p.id) in db'.grants;
      }
      if g, p :| g in db'.grants && p in db.permissions && g.role == role && g.permission == p.id && p.code == c {
        var q :| q in found && q.id == g.permission;
        SameRow(db.permissions, PermissionId, p, q);
        assert CodeIn(codes)(q);
      }
    }
  }

  // ---- Memberships -----------------------------------------------------------------------

  /** `m` is the one seat of the user in the tenant: it has a role of that slug there and was assigned by `actor`. A
      seat that was there keeps its identifier and its time; every other seat stays. */
  ghost predicate Reseated(
    db: Db, db': Db, m: Membership, user: nat, tenant: nat, slug: string, actor: Option<nat>, now: nat)
  {
    && m.user == user && m.tenant == tenant && m.assignedBy == actor
    && (exists r | r in db.roles :: r.id == m.role && r.tenant == tenant && r.slug == slug)
    && (forall n :: n in db'.members <==> n == m || (n in db.members && !(n.user == user && n.tenant == tenant)))
    && (forall n | n in db.members && n.user == user && n.tenant == tenant ::
        m.id == n.id && m.createdAt == n.createdAt)
    && ((forall n | n in db.members :: !(n.user == user && n.tenant == tenant)) ==> m.createdAt == now)
  }

  /** Only memberships and events may differ, besides what was sent and the identifiers used. */
  ghost predicate OnlySeatsChange(db: Db, db': Db) {
    db' == db.(members := db'.members, events := db'.events, queue := db'.queue, nextId := db'.nextId)
  }

  /** Every other user, and the user in every other tenant, has the role it had. */
  ghost predicate OtherRolesStay(db: Db, db': Db, user: nat, tenant: nat) {
    forall u: nat, t: nat | (u, t) != (user, tenant) :: GetRole(db', u, t) == GetRole(db, u, t)
  }

  /** `assign_role` succeeds exactly when the tenant has a role of that slug, and changes nothing otherwise. On
      success the user has that role there, by the named actor, and the event says so. */
  lemma AssignRoleExact(db: Db, user: nat, tenant: nat, slug: string, actor: Option<nat>, now: nat)
    requires Inv(db) && IsUser(db.users, user) && (actor.Some? ==> IsUser(db.users, actor.value))
    ensures var out := AssignRole(db, user, tenant, slug, actor, now);
      && (out.result.Ok? <==> exists r | r in db.roles :: r.tenant == tenant && r.slug == slug)
      && (out.result.Err? ==> out == Outcome(db, Err(NotFound)))
      && (out.result.Ok? ==>
          && Reseated(db, out.db, out.result.value, user, tenant, slug, actor, now)
          && out.db.events == db.events + [RoleAssigned(user, tenant, slug, actor)]
          && GetRole(out.db, user, tenant) == Some(slug))
      && OnlySeatsChange(db, out.db) && OtherRolesStay(db, out.db, user, tenant)
  {
    AssignedRows(db, user, tenant, slug, actor, now);
    AssignedLookups(db, user, tenant, slug, actor, now);
  }

  lemma AssignedLookups(db: Db, user: nat, tenant: nat, slug: string, actor: Option<nat>, now: nat)
    requires Inv(db) && IsUser(db.users, user) && (actor.Some? ==> IsUser(db.users, actor.value))
    ensures var out := AssignRole(db, user, tenant, slug, actor, now);
      && (out.result.Ok? ==> GetRole(out.db, user, tenant) == Some(slug))
      && OtherRolesStay(db, out.db, user, tenant)
  {
    AssignRoleKeeps(db, user, tenant, slug, actor, now);
    var db' := AssignRole(db, user, tenant, slug, actor, now).db;
    TwoLogs.AssignedRole(db, user, tenant, slug, actor, now, user, tenant);
    forall u: nat, t: nat | (u, t) != (user, tenant) ensures GetRole(db', u, t) == GetRole(db, u, t) {
      TwoLogs.AssignedRole(db, user, tenant, slug, actor, now, u, t);
    }
  }

  lemma AssignedRows(db: Db, user: nat, tenant: nat, slug: string, actor: Option<nat>, now: nat)
    requires Inv(db)
    ensures var out := AssignRole(db, user, tenant, slug, actor, now);
      && (out.result.Ok? <==> exists r | r in db.roles :: r.tenant == tenant && r.slug == slug)
      && (out.result.Err? ==> out == Outcome(db, Err(NotFound)))
      && (out.result.Ok? ==>
          && Reseated(db, out.db, out.result.value, user, tenant, slug, actor, now)
          && out.db.events == db.events + [RoleAssigned(user, tenant, slug, actor)])
      && OnlySeatsChange(db, out.db)
  {
    var found := First(db.roles, RoleIs(tenant, slug));
    assert forall r | r in db.roles && r.tenant == tenant && r.slug == slug :: RoleIs(tenant, slug)(r);
    if found.Some? {
      assert RoleIs(tenant, slug)(found.value);
      SeatedExactly(db, user, tenant, found.value, actor, now);
    }
  }

  lemma SeatedExactly(db: Db, user: nat, tenant: nat, r: Role, actor: Option<nat>, now: nat)
    requires Inv(db) && r in db.roles && r.tenant == tenant
    ensures var (db', m) := SeatMember(db, user, tenant, r.id, actor, now);
      Reseated(db, db', m, user, tenant, r.slug, actor, now) && OnlySeatsChange(db, db')
  {
    TwoLogs.SeatedRows(db, user, tenant, r.id, actor, now);
    var found := First(db.members, SeatIs(user, tenant));
    if found.Some? {
      assert SeatIs(user, tenant)(found.value);
    }
    forall n | n in db.members && n.user == user && n.tenant == tenant ensures found == Some(n) {
      assert SeatIs(user, tenant)(n);
      TheSeat(db, user, tenant, n);
    }
  }

  /** `revoke_role` leaves the user without a seat in the tenant and every other seat as it was; it reports whether
      there was one, and logs an event exactly then. */
  lemma RevokeRoleExact(db: Db, user: nat, tenant: nat)
    requires Inv(db)
    ensures var out := RevokeRole(db, user, tenant);
      var held := exists m | m in db.members :: m.user == user && m.tenant == tenant;
      && out.result == Ok(held)
      && (forall m :: m in out.db.members <==> m in db.members && !(m.user == user && m.tenant == tenant))
      && out.db.events == db.events + (if held then [RoleRevoked(user, tenant, None)] else [])
      && (!held ==> out.db == db)
      && GetRole(out.db, user, tenant) == None
      && OnlySeatsChange(db, out.db) && OtherRolesStay(db, out.db, user, tenant)
  {
    RevokedRows(db, user, tenant);
    RevokedLookups(db, user, tenant);
  }

  lemma RevokedRows(db: Db, user: nat, tenant: nat)
    ensures var out := RevokeRole(db, user, tenant);
      var held := exists m | m in db.members :: m.user == user && m.tenant == tenant;
      && out.result == Ok(held)
      && (forall m :: m in out.db.members <==> m in db.members && !(m.user == user && m.tenant == tenant))
      && out.db.events == db.events + (if held then [RoleRevoked(user, tenant, None)] else [])
      && (!held ==> out.db == db)
      && OnlySeatsChange(db, out.db)
  {
    assert forall m: Membership :: SeatIs(user, tenant)(m) <==> m.user == user && m.tenant == tenant;
    Inhabited(Where(db.members, SeatIs(user, tenant)));
    WhereSplit(db.members, SeatIs(user, tenant));
  }

  lemma RevokedLookups(db: Db, user: nat, tenant: nat)
    requires Inv(db)
    ensures var db' := RevokeRole(db, user, tenant).db;
      GetRole(db', user, tenant) == None && OtherRolesStay(db, db', user, tenant)
  {
    DropMembersKeeps(db, SeatIs(user, tenant));
    var db' := RevokeRole(db, user, tenant).db;
    TwoLogs.DroppedRole(db, SeatIs(user, tenant), db', user, tenant);
    forall u: nat, t: nat | (u, t) != (user, tenant) ensures GetRole(db', u, t) == GetRole(db, u, t) {
      assert SeatIs(u, t)(Membership(0, u, t, 0, None, 0));
      TwoLogs.DroppedRole(db, SeatIs(user, tenant), db', u, t);
    }
  }

  // ---- Tenant creation -------------------------------------------------------------------

  /** The roles that are new are an owner, an admin and a member role of the tenant, with the names and weights of
      the three default roles. */
  ghost predicate StarterRoles(roles: seq<Role>, roles': seq<Role>, tenant: nat, now: nat) {
    && (forall r | r in roles :: r in roles')
    && (forall r | r in roles' && r !in roles :: StarterRole(r, tenant, now))
    && NewSlug(roles, roles', "owner") && NewSlug(roles, roles', "admin") && NewSlug(roles, roles', "member")
  }

  predicate StarterRole(r: Role, tenant: nat, now: nat) {
    r == Role(r.id, tenant, "Owner", "owner", true, 30, now) ||
    r == Role(r.id, tenant, "Admin", "admin", true, 20, now) ||
    r == Role(r.id, tenant, "Member", "member", true, 10, now)
  }

  ghost predicate NewSlug(roles: seq<Role>, roles': seq<Role>, slug: string) {
    exists r | r in roles' && r !in roles :: r.slug == slug
  }

  /** Only roles described by the list are added. */
  lemma {:induction false} EnsureRolesRows(db: Db, tenant: nat, defaults: seq<DefaultRole>, now: nat)
    requires forall i | 0 <= i < |defaults| :: defaults[i] in DEFAULT_ROLES
    ensures var db' := EnsureRoles(db, tenant, defaults, now);
      && (forall r | r in db.roles :: r in db'.roles)
      && (forall r | r in db'.roles && r !in db.roles :: StarterRole(r, tenant, now))
  {
    if defaults != [] {
      var n := |defaults| - 1;
      EnsureRolesRows(db, tenant, defaults[..n], now);
      assert defaults[n] in DEFAULT_ROLES;
    }
  }

  lemma NewSlugThere(roles: seq<Role>, roles': seq<Role>, tenant: nat, d: DefaultRole)
    requires (forall r | r in roles :: r.tenant != tenant) && HasDefaultRole(roles', tenant, d)
    ensures NewSlug(roles, roles', d.slug)
  {
  }

  lemma StarterRolesThere(roles: seq<Role>, roles': seq<Role>, tenant: nat, now: nat)
    requires forall r | r in roles :: r.tenant != tenant && r in roles'
    requires forall r | r in roles' && r !in roles :: StarterRole(r, tenant, now)
    requires forall d | d in DEFAULT_ROLES :: HasDefaultRole(roles', tenant, d)
    ensures StarterRoles(roles, roles', tenant, now)
  {
    NewSlugThere(roles, roles', tenant, DEFAULT_ROLES[0]);
    NewSlugThere(roles, roles', tenant, DEFAULT_ROLES[1]);
    NewSlugThere(roles, roles', tenant, DEFAULT_ROLES[2]);
  }

  /** What a tenant creation that succeeds adds: the tenant, its host and its default roles, and nothing else. */
  ghost predicate TenantMade(
    db: Db, db': Db, t: Tenant, name: string, slug: string, host: string, isPrimary: bool, now: nat)
  {
    && t == Tenant(t.id, name, slug, slug, true) && db'.tenants == db.tenants + [t]
    && (exists id :: db'.domains == db.domains + [Domain(id, t.id, host, isPrimary)])
    && StarterRoles(db.roles, db'.roles, t.id, now)
    && db' == db.(tenants := db'.tenants, domains := db'.domains, roles := db'.roles,
                  queue := db'.queue, nextId := db'.nextId)
  }

  /** The two refusals that the service itself gives. */
  predicate TenantRefusal(db: Db, out: Outcome<Tenant>, slug: string, host: string) {
    && (out.result == Err(Validation) <==> host == "")
    && (out.result == Err(Conflict) <==>
        host != "" && (Exists(db.tenants, SlugIs(slug)) || (Clean(host) && Exists(db.domains, HostIs(host)))))
  }

  lemma InsertTenantRefusal(db: Db, name: string, slug: string, host: string, isPrimary: bool, now: nat)
    requires Exists(db.tenants, SchemaIs(slug)) <==> Exists(db.tenants, SlugIs(slug))
    ensures TenantRefusal(db, InsertTenant(db, name, slug, host, isPrimary, now), slug, host)
  {
  }

  /** A tenant creation with this slug and host: it succeeds exactly when both are free and every column takes
      its value; it never fails on the uniqueness of the slug; a failure gives back every table, and has sent
      deltas exactly when it is the column of the host that refuses. */
  ghost predicate TenantOutcome(
    db: Db, out: Outcome<Tenant>, name: string, slug: string, host: string, isPrimary: bool, now: nat)
  {
    && out.result.Ok? == (TenantInsertable(db, name, slug, host) && |host| <= 253)
    && out.result != Err(Integrity)
    && TenantRefusal(db, out, slug, host)
    && (out.result.Err? ==> out.db == db.(queue := out.db.queue, nextId := out.db.nextId))
    && (out.result.Err? ==> (out.db.queue != db.queue <==> TenantInsertable(db, name, slug, host)))
    && (out.result.Ok? ==> TenantMade(db, out.db, out.result.value, name, slug, host, isPrimary, now))
  }

  /** `create_tenant` rejects a bad slug without effect, and on a good one its check on the schema
      name is enough for the slug. */
  lemma CreateTenantExact(db: Db, name: string, schemaName: string, domain: string, isPrimary: bool, now: nat)
    requires Inv(db)
    ensures var out := CreateTenant(db, name, schemaName, domain, isPrimary, now);
      if IsSlug(Normal(schemaName)) then
        TenantOutcome(db, out, Strip(name), Normal(schemaName), Lower(Strip(domain)), isPrimary, now)
      else out == Outcome(db, Err(Validation))
  {
    ValidateSlugExact(schemaName);
    var slug := Normal(schemaName);
    if IsSlug(slug) {
      SchemaIsSlug(db, slug);
      InsertTenantExact(db, Strip(name), slug, Lower(Strip(domain)), isPrimary, now);
    }
  }

  lemma SchemaIsSlug(db: Db, slug: string)
    requires Inv(db)
    ensures Exists(db.tenants, SchemaIs(slug)) <==> Exists(db.tenants, SlugIs(slug))
  {
    if t :| t in db.tenants && SchemaIs(slug)(t) {
      assert SlugIs(slug)(t);
    }
    if t :| t in db.tenants && SlugIs(slug)(t) {
      assert SchemaIs(slug)(t);
    }
  }

  lemma InsertTenantExact(db: Db, name: string, slug: string, host: string, isPrimary: bool, now: nat)
    requires Inv(db) && IsSlug(slug) && (Exists(db.tenants, SchemaIs(slug)) <==> Exists(db.tenants, SlugIs(slug)))
    ensures TenantOutcome(db, InsertTenant(db, name, slug, host, isPrimary, now), name, slug, host, isPrimary, now)
  {
    InsertTenantRefusal(db, name, slug, host, isPrimary, now);
    InsertTenantCases(db, name, slug, host, isPrimary, now);
    if TenantInsertable(db, name, slug, host) {
      TenantInserted(db, Tenant(db.nextId, name, slug, slug, true), host, isPrimary, now);
    }
  }

  /** The three ways in which an insert ends. */
  lemma InsertTenantCases(db: Db, name: string, slug: string, host: string, isPrimary: bool, now: nat)
    requires Exists(db.tenants, SchemaIs(slug)) <==> Exists(db.tenants, SlugIs(slug))
    ensures var out, t := InsertTenant(db, name, slug, host, isPrimary, now), Tenant(db.nextId, name, slug, slug, true);
      var inside := AddTenant(db.(nextId := db.nextId + 1), t, now);
      if !TenantInsertable(db, name, slug, host) then
        out.db == db && out.result in [Err(Validation), Err(Conflict), Err(DataRefused)]
      else if |host| > 253 then out == Outcome(RolledBack(db, inside), Err(DataRefused))
      else out == Outcome(AddDomain(inside, t.id, host, isPrimary), Ok(t))
  {
  }

  lemma TenantInserted(db: Db, t: Tenant, host: string, isPrimary: bool, now: nat)
    requires Inv(db) && t == Tenant(db.nextId, t.name, t.slug, t.slug, true) && IsSlug(t.slug)
    requires !Exists(db.tenants, SlugIs(t.slug))
    ensures var inside := AddTenant(db.(nextId := db.nextId + 1), t, now);
      && TenantMade(db, AddDomain(inside, t.id, host, isPrimary), t, t.name, t.slug, host, isPrimary, now)
      && inside.queue != db.queue
  {
    assert forall s | s in db.tenants :: !SlugIs(t.slug)(s);
    NewTenantRoles(db.(nextId := db.nextId + 1), t, now);
    HostAdded(db, AddTenant(db.(nextId := db.nextId + 1), t, now), t, host, isPrimary, now);
  }

  lemma HostAdded(db: Db, inside: Db, t: Tenant, host: string, isPrimary: bool, now: nat)
    requires t.slug == t.schemaName && t.isActive
    requires inside.tenants == db.tenants + [t] && StarterRoles(db.roles, inside.roles, t.id, now)
    requires inside == db.(tenants := inside.tenants, roles := inside.roles, queue := inside.queue,
                           nextId := inside.nextId)
    ensures TenantMade(db, AddDomain(inside, t.id, host, isPrimary), t, t.name, t.slug, host, isPrimary, now)
  {
    var d := Domain(inside.nextId, t.id, host, isPrimary);
    assert AddDomain(inside, t.id, host, isPrimary).domains == db.domains + [d];
  }

  /** The roles of a new tenant are there, and were sent. */
  lemma NewTenantRoles(db: Db, t: Tenant, now: nat)
    requires Inv(db) && t.id < db.nextId && !IsTenant(db.tenants, t.id)
    requires t.slug == t.schemaName && IsSlug(t.slug) && forall s | s in db.tenants :: s.slug != t.slug
    ensures var inside := AddTenant(db, t, now);
      && inside.tenants == db.tenants + [t] && inside.domains == db.domains
      && StarterRoles(db.roles, inside.roles, t.id, now)
      && inside == db.(tenants := inside.tenants, roles := inside.roles, queue := inside.queue, nextId := inside.nextId)
      && inside.queue != db.queue
  {
    AddTenantKeeps(db, t, now);
    assert t in AddTenant(db, t, now).tenants;
    var db1 := db.(tenants := db.tenants + [t]);
    assert forall r | r in db.roles :: !RoleIs(t.id, DEFAULT_ROLES[0].slug)(r) by {
      assert forall r | r in db.roles :: IsTenant(db.tenants, r.tenant);
    }
    FirstRoleSent(db1, t.id, DEFAULT_ROLES, now);
    EnsureRolesRows(db1, t.id, DEFAULT_ROLES, now);
    StarterRolesThere(db.roles, AddTenant(db, t, now).roles, t.id, now);
    TwoLogs.EnsureRolesEvents(db1, t.id, DEFAULT_ROLES, now);
  }

  lemma {:induction false} FirstRoleSent(db: Db, tenant: nat, defaults: seq<DefaultRole>, now: nat)
    requires defaults != [] && forall r | r in db.roles :: !RoleIs(tenant, defaults[0].slug)(r)
    ensures |EnsureRoles(db, tenant, defaults, now).queue| > |db.queue|
  {
    var init := defaults[..|defaults| - 1];
    if init != [] {
      FirstRoleSent(db, tenant, init, now);
    } else {
      assert EnsureRoles(db, tenant, init, now) == db;
    }
  }

  // ---- Erasure ---------------------------------------------------------------------------

  function Blacklisted(t: Token): bool { t.blacklisted }

  lemma {:induction false} RowCountTokens(tokens: seq<Token>)
    ensures RowCount(tokens) == |tokens| + |Where(tokens, Blacklisted)|
  {
    if tokens != [] {
      RowCountTokens(tokens[1..]);
    }
  }

  /** Nothing that belongs to the user is left, the reported counts are the rows that went (for tokens, with the
      blacklist rows that hung on them), and what belongs to other users stays, in order. */
  ghost predicate Erased(db: Db, db': Db, user: nat, report: Erasure) {
    && (forall m | m in db'.members :: m.user != user)
    && (forall n :: n in db'.notifications <==> n in db.notifications && n.user != user)
    && (forall t :: t in db'.tokens <==> t in db.tokens && t.user != Some(user))
    && report.user == user
    && report.roles == |db.members| - |db'.members|
    && report.notifications == |db.notifications| - |db'.notifications|
    && report.tokens == |db.tokens| - |db'.tokens| + |Where(Where(db.tokens, IssuedTo(user)), Blacklisted)|
    && db'.roles == db.roles && db'.grants == db.grants && db'.flags == db.flags && db'.tenants == db.tenants
  }

  lemma EraseChildrenCounts(db: Db, user: nat)
    ensures Erased(db, EraseChildren(db, user), user, Report(db, user))
    ensures forall m :: m in EraseChildren(db, user).members <==> m in db.members && m.user != user
    ensures EraseChildren(db, user).members == Unless(db.members, HeldBy(user))
  {
    WhereSplit(db.members, HeldBy(user));
    WhereSplit(db.notifications, NotifiedTo(user));
    WhereSplit(db.tokens, IssuedTo(user));
    RowCountTokens(Where(db.tokens, IssuedTo(user)));
    assert forall m: Membership :: HeldBy(user)(m) <==> m.user == user;
    assert forall n: Notification :: NotifiedTo(user)(n) <==> n.user == user;
    assert forall t: Token :: IssuedTo(user)(t) <==> t.user == Some(user);
  }

  /** `anonymize` succeeds exactly when the placeholder name is free; then every membership of
      another user survives as it was, and the user's row is the placeholder. */
  lemma AnonymizeConserves(db: Db, u: User, tag: string)
    requires Inv(db) && u in db.users
    ensures var out := Anonymize(db, u, tag);
      && (out.result.Ok? <==> forall v | v in db.users && v.id != u.id :: v.username != "deleted_" + tag)
      && (out.result.Err? ==> out.db == db.(queue := out.db.queue, nextId := out.db.nextId))
      && (out.result.Ok? ==>
          && Erased(db, out.db, u.id, out.result.value)
          && (forall m :: m in out.db.members <==> m in db.members && m.user != u.id)
          && out.db.events == db.events && |out.db.users| == |db.users|
          && (forall v: User | v.id != u.id :: v in out.db.users <==> v in db.users)
          && IsUser(out.db.users, u.id)
          && (forall v | v in out.db.users && v.id == u.id ::
              && v.username == "deleted_" + tag && v.email == "deleted_" + tag + "@deleted.invalid"
              && v.firstName == "" && v.lastName == "" && !v.isActive && !v.usablePassword
              && v.isSuperuser == u.isSuperuser))
  {
    EraseChildrenCounts(db, u.id);
    forall v | v in db.users && v.id == u.id ensures v == u {
      SameRow(db.users, UserId, v, u);
    }
    if Anonymize(db, u, tag).result.Ok? {
      assert Placeholder(u, tag) in Anonymize(db, u, tag).db.users;
      assert forall v | v in db.users :: !OtherNamed(u.id, "deleted_" + tag)(v);
    } else {
      var v :| v in db.users && OtherNamed(u.id, "deleted_" + tag)(v);
    }
  }

  /** `hard_delete` nulls the references to the user in the rows of others and changes nothing else
      there; no reference dangles afterwards. */
  lemma HardDeleteConserves(db: Db, user: nat)
    requires Inv(db) && IsUser(db.users, user)
    ensures var out := HardDelete(db, user); var rest := Unless(db.members, HeldBy(user));
      && Inv(out.db) && out.result.Ok? && Erased(db, out.db, user, out.result.value)
      && (forall m :: m in rest <==> m in db.members && m.user != user)
      && |out.db.members| == |rest|
      && (forall i | 0 <= i < |rest| ::
          var m := rest[i];
          out.db.members[i] == m.(assignedBy := if m.assignedBy == Some(user) then None else m.assignedBy))
      && (forall m | m in out.db.members :: m.assignedBy != Some(user))
      && |out.db.events| == |db.events|
      && (forall i | 0 <= i < |db.events| ::
          var e := db.events[i];
          out.db.events[i] == e.(actor := if e.actor == Some(user) then None else e.actor))
      && (forall e | e in out.db.events :: e.actor != Some(user))
      && (forall v :: v in out.db.users <==> v in db.users && v.id != user)
  {
    EraseChildrenCounts(db, user);
    HardDeleteKeeps(db, user);
    var rest, out := Unless(db.members, HeldBy(user)), HardDelete(db, user).db;
    forall i | 0 <= i < |rest| ensures out.members[i] == NullAssigner(user, rest[i]) && rest[i] in rest {
    }
    assert forall i | 0 <= i < |db.events| :: out.events[i] == NullActor(user, db.events[i]);
    assert forall v: User :: UserIs(user)(v) <==> v.id == user;
  }
}
