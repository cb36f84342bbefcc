/** Each service call leaves a log that rebuilds the audited tables. */
module AuditReplay {

  import opened Rows
  import opened Text
  import opened DeltaLog
  import opened AuthModel
  import opened Services
  import opened StoreInvariant

  /** The audited tables of a store, as text. */
  ghost function Shot(db: Db): Tables
    requires Consistent(db)
  {
    RowsUnique(db);
    Snapshot(RowsOf(db))
  }

  /** The queued deltas rebuild the tables from nothing, each starting from the tables that its
      predecessors built, when the log is read as written (`exact`) or canonically. */
  ghost predicate LogOk(exact: bool, db: Db)
    requires Consistent(db)
  {
    Records(map[], OnLog(Reading(exact, db.erased), db.queue), Shot(db))
  }

  ghost predicate Records(t: Tables, log: seq<Delta>, t': Tables) {
    FitsAll(t, log) && Replay(t, log) == t'
  }

  lemma RecordsConcat(t: Tables, a: seq<Delta>, t': Tables, b: seq<Delta>, t'': Tables)
    requires Records(t, a, t') && Records(t', b, t'')
    ensures Records(t, a + b, t'')
  {
    ReplayConcat(t, a, b);
    FitsConcat(t, a, b);
  }

  lemma OnLogConcat(c: Rewrite, a: seq<Delta>, b: seq<Delta>)
    ensures OnLog(c, a + b) == OnLog(c, a) + OnLog(c, b)
  {
  }

  lemma Extends(exact: bool, db: Db, db': Db, ds: seq<Delta>)
    requires Consistent(db) && Consistent(db') && LogOk(exact, db)
    requires db'.erased == db.erased && db'.queue == db.queue + ds
    requires Records(Shot(db), OnLog(Reading(exact, db.erased), ds), Shot(db'))
    ensures LogOk(exact, db')
  {
    var c := Reading(exact, db.erased);
    OnLogConcat(c, db.queue, ds);
    RecordsConcat(map[], OnLog(c, db.queue), Shot(db), OnLog(c, ds), Shot(db'));
  }

  // ---- One save or delete, on sets of rows -----------------------------------------------

  lemma RecordsOne(t: Tables, d: Delta, t': Tables)
    requires Fits(t, d) && Apply(t, d) == t'
    ensures Records(t, [d], t')
  {
    assert [d][..0] == [];
    assert Replay(t, []) == t;
  }

  /** The `before` part of a diff is what the stored row holds. */
  lemma DiffFits(c: Rewrite, t: Tables, key: Key, old_: Fields, raw: Fields)
    requires key in t && t[key] == old_ && OnFields(c, old_) == old_ && raw.Keys == old_.Keys
    ensures Fits(t, Update(key, OnBefore(c, Was(raw.Keys, old_, raw)), OnFields(c, Changed(raw.Keys, old_, raw))))
  {
    var was := Was(raw.Keys, old_, raw);
    forall f | f in was ensures OnBefore(c, was)[f] == Lookup(old_, f) {
      assert was[f] == Some(old_[f]) && c(f, old_[f]) == OnFields(c, old_)[f];
    }
  }

  lemma PatchRewrite(c: Rewrite, old_: Fields, raw: Fields)
    requires OnFields(c, old_) == old_ && raw.Keys == old_.Keys && "password" !in raw
    ensures Patch(old_, OnFields(c, Changed(raw.Keys, old_, raw))) == OnFields(c, raw)
    ensures Changed(raw.Keys, old_, raw) == map[] ==> OnFields(c, raw) == old_
  {
    var changed := Changed(raw.Keys, old_, raw);
    DiffPatch(old_, raw);
    assert OnFields(c, Patch(old_, changed)) == Patch(OnFields(c, old_), OnFields(c, changed));
  }

  /** The diff of a save, read canonically, turns the stored text into the new one. */
  lemma DiffRecorded(c: Rewrite, t: Tables, key: Key, old_: Fields, raw: Fields)
    requires key in t && t[key] == old_ && OnFields(c, old_) == old_
    requires raw.Keys == old_.Keys && "password" !in raw
    ensures Records(t, OnLog(c, SavedDelta(false, key, old_, raw)), t[key := OnFields(c, raw)])
  {
    var was, changed := Was(raw.Keys, old_, raw), Changed(raw.Keys, old_, raw);
    var log := OnLog(c, SavedDelta(false, key, old_, raw));
    PatchRewrite(c, old_, raw);
    if changed == map[] {
      assert log == [] && t[key := OnFields(c, raw)] == t;
    } else {
      var d := Update(key, OnBefore(c, was), OnFields(c, changed));
      assert log == [d];
      DiffFits(c, t, key, old_, raw);
      RecordsOne(t, d, t[key := OnFields(c, raw)]);
    }
  }

  /** A logged insert; `raw` is the text of the instance in memory. */
  lemma SavedInsert(c: Rewrite, rows: set<Row>, x: Row, raw: Fields)
    requires OneRowPerKey(rows) && OneRowPerKey(rows + {x}) && forall y | y in rows :: KeyOf(y) != KeyOf(x)
    requires OnFields(c, raw) == TextOf(x)
    ensures Records(Snapshot(rows), OnLog(c, SavedDelta(true, KeyOf(x), map[], raw)), Snapshot(rows + {x}))
  {
    var d := Create(KeyOf(x), TextOf(x));
    assert "password" !in OnFields(c, raw);
    assert raw - {"password"} == raw;
    assert OnLog(c, SavedDelta(true, KeyOf(x), map[], raw)) == [d];
    TabulateInsert(rows, KeyOf, TextOf, x);
    RecordsOne(Snapshot(rows), d, Snapshot(rows + {x}));
  }

  /** A logged update, or an update that the diff found empty. */
  lemma SavedUpdate(c: Rewrite, rows: set<Row>, x: Row, y: Row, raw: Fields)
    requires OneRowPerKey(rows) && x in rows && KeyOf(x) == KeyOf(y)
    requires OneRowPerKey(rows - {x} + {y})
    requires OnFields(c, TextOf(x)) == TextOf(x) && OnFields(c, raw) == TextOf(y)
    ensures Records(
      Snapshot(rows), OnLog(c, SavedDelta(false, KeyOf(y), TextOf(x), raw)), Snapshot(rows - {x} + {y}))
  {
    TabulateUpdate(rows, KeyOf, TextOf, x, y);
    SameFields(x, y);
    assert raw.Keys == OnFields(c, raw).Keys;
    DiffRecorded(c, Snapshot(rows), KeyOf(y), TextOf(x), raw);
  }

  lemma SameFields(x: Row, y: Row)
    requires KeyOf(x).model == KeyOf(y).model
    ensures TextOf(x).Keys == TextOf(y).Keys && "password" !in TextOf(x)
  {
  }

  lemma DeletedOne(c: Rewrite, rows: set<Row>, x: Row)
    requires OneRowPerKey(rows) && x in rows && OnFields(c, TextOf(x)) == TextOf(x)
    ensures Records(Snapshot(rows), OnLog(c, [DeletedDelta(KeyOf(x), TextOf(x))]), Snapshot(rows - {x}))
  {
    var d := Delete(KeyOf(x), TextOf(x));
    SameFields(x, x);
    assert TextOf(x) - {"password"} == TextOf(x);
    assert OnLog(c, [DeletedDelta(KeyOf(x), TextOf(x))]) == [d];
    TabulateDelete(rows, KeyOf, TextOf, x);
    RecordsOne(Snapshot(rows), d, Snapshot(rows - {x}));
  }

  ghost function MemberRows(members: seq<Membership>): set<Row> {
    set m | m in members :: MemberRow(m)
  }

  /** The deltas of a queryset delete. */
  lemma {:induction false} DeletedRows(c: Rewrite, rows: set<Row>, gone: seq<Membership>)
    requires OneRowPerKey(rows) && Distinct(gone, MemberId) && MemberRows(gone) <= rows
    requires forall x | x in MemberRows(gone) :: OnFields(c, TextOf(x)) == TextOf(x)
    ensures Records(Snapshot(rows), OnLog(c, Deletions(gone)), Snapshot(rows - MemberRows(gone)))
  {
    if gone == [] {
      assert rows - MemberRows(gone) == rows;
      assert OnLog(c, Deletions(gone)) == [];
    } else {
      var n := |gone| - 1;
      LastMember(gone);
      DeletedRows(c, rows, gone[..n]);
      DeletedLast(c, rows, gone[..n], gone[n]);
    }
  }

  lemma LastMember(gone: seq<Membership>)
    requires gone != [] && Distinct(gone, MemberId)
    ensures var n := |gone| - 1;
      && gone == gone[..n] + [gone[n]]
      && MemberRows(gone) == MemberRows(gone[..n]) + {MemberRow(gone[n])}
      && MemberRow(gone[n]) !in MemberRows(gone[..n])
  {
    var n := |gone| - 1;
    assert gone == gone[..n] + [gone[n]];
    assert forall k | k in gone[..n] :: MemberId(k) != MemberId(gone[n]);
  }

  lemma DeletedLast(c: Rewrite, rows: set<Row>, init: seq<Membership>, m: Membership)
    requires OneRowPerKey(rows) && MemberRow(m) in rows && MemberRow(m) !in MemberRows(init)
    requires OnFields(c, TextOf(MemberRow(m))) == TextOf(MemberRow(m))
    requires MemberRows(init + [m]) == MemberRows(init) + {MemberRow(m)}
    requires Records(Snapshot(rows), OnLog(c, Deletions(init)), Snapshot(rows - MemberRows(init)))
    ensures Records(Snapshot(rows), OnLog(c, Deletions(init + [m])), Snapshot(rows - MemberRows(init + [m])))
  {
    var mid, d := rows - MemberRows(init), DeletedDelta(KeyOf(MemberRow(m)), TextOf(MemberRow(m)));
    DeletionsAppend(c, init, m);
    assert rows - MemberRows(init + [m]) == mid - {MemberRow(m)};
    DeletedOne(c, mid, MemberRow(m));
    RecordsConcat(
      Snapshot(rows), OnLog(c, Deletions(init)), Snapshot(mid), OnLog(c, [d]), Snapshot(mid - {MemberRow(m)}));
  }

  lemma DeletionsAppend(c: Rewrite, init: seq<Membership>, m: Membership)
    ensures OnLog(c, Deletions(init + [m])) ==
      OnLog(c, Deletions(init)) + OnLog(c, [DeletedDelta(KeyOf(MemberRow(m)), TextOf(MemberRow(m)))])
  {
    var d := DeletedDelta(KeyOf(MemberRow(m)), TextOf(MemberRow(m)));
    assert Deletions(init + [m]) == Deletions(init) + [d];
    OnLogConcat(c, Deletions(init), [d]);
  }

  /** Text outside the two special fields is already canonical. */
  lemma PlainText(c: Rewrite, row: Fields)
    requires forall f | f in row :: c(f, row[f]) == row[f]
    ensures OnFields(c, row) == row
  {
  }

  lemma ReferenceCanonical(erased: set<nat>, id: Option<nat>)
    requires id.Some? ==> id.value !in erased
    ensures Canonical(erased)("assigned_by", ShowRef(id)) == ShowRef(id)
  {
    forall u | u in erased ensures ShowNat(u) != ShowRef(id) {
      ShowNatInjective(u, if id.Some? then id.value else 0);
    }
  }

  /** The text of a stored row is already canonical. */
  lemma StoredText(exact: bool, db: Db, x: Row)
    requires Consistent(db) && x in RowsOf(db)
    ensures OnFields(Reading(exact, db.erased), TextOf(x)) == TextOf(x)
  {
    if exact {
      PlainText(Verbatim(), TextOf(x));
    } else {
      if x.MemberRow? {
        assert Seated(x.member, db.roles, db.users);
        ReferenceCanonical(db.erased, x.member.assignedBy);
      }
      CanonicalText(db.erased, x);
    }
  }

  lemma CanonicalText(erased: set<nat>, x: Row)
    requires x.MemberRow? ==>
      Canonical(erased)("assigned_by", ShowRef(x.member.assignedBy)) == ShowRef(x.member.assignedBy)
    ensures OnFields(Canonical(erased), TextOf(x)) == TextOf(x)
  {
    PlainText(Canonical(erased), TextOf(x));
  }

  // ---- Service calls ---------------------------------------------------------------------

  /** Calls that leave the audited tables and the queue alone. */
  lemma QuietLog(exact: bool, db: Db, db': Db)
    requires Consistent(db) && Consistent(db') && LogOk(exact, db)
    requires db'.roles == db.roles && db'.members == db.members && db'.flags == db.flags
    requires db'.queue == db.queue && db'.erased == db.erased
    ensures LogOk(exact, db')
  {
    assert RowsOf(db') == RowsOf(db);
  }

  lemma AddRoleLog(exact: bool, db: Db, r: Role)
    requires Consistent(db) && LogOk(exact, db) && r.id == db.nextId && Consistent(AddRole(db, r))
    ensures LogOk(exact, AddRole(db, r))
  {
    var db', x := AddRole(db, r), RoleRow(r);
    assert RowsOf(db') == RowsOf(db) + {x};
    RowsUnique(db);
    RowsUnique(db');
    StoredText(exact, db', x);
    SavedInsert(Reading(exact, db.erased), RowsOf(db), x, TextOf(x));
    Extends(exact, db, db', Created(x));
  }

  lemma {:induction false} EnsureRolesLog(exact: bool, db: Db, tenant: nat, defaults: seq<DefaultRole>, now: nat)
    requires Consistent(db) && IsTenant(db.tenants, tenant) && WeightsOk(db.roles, tenant)
    requires forall d | d in defaults :: d in DEFAULT_ROLES
    requires LogOk(exact, db)
    ensures Consistent(EnsureRoles(db, tenant, defaults, now)) && LogOk(exact, EnsureRoles(db, tenant, defaults, now))
  {
    EnsureRolesKeeps(db, tenant, defaults, now);
    if defaults != [] {
      var n := |defaults| - 1;
      var before, d := EnsureRoles(db, tenant, defaults[..n], now), defaults[n];
      EnsureRolesKeeps(db, tenant, defaults[..n], now);
      EnsureRolesLog(exact, db, tenant, defaults[..n], now);
      EnsureRoleKeeps(before, tenant, d, now);
      if First(before.roles, RoleIs(tenant, d.slug)).None? {
        AddRoleLog(exact, before, Role(before.nextId, tenant, d.name, d.slug, true, d.weight, now));
      }
    }
  }

  lemma AddTenantLog(exact: bool, db: Db, t: Tenant, now: nat)
    requires Inv(db) && LogOk(exact, db) && t.id < db.nextId && !IsTenant(db.tenants, t.id)
    requires t.slug == t.schemaName && Slugs.IsSlug(t.slug) && forall s | s in db.tenants :: s.slug != t.slug
    ensures Inv(AddTenant(db, t, now)) && LogOk(exact, AddTenant(db, t, now))
  {
    var db1 := db.(tenants := db.tenants + [t]);
    DistinctAppend(db.tenants, TenantId, t);
    DistinctAppend(db.tenants, TenantSlug, t);
    assert t in db1.tenants && IsTenant(db1.tenants, t.id);
    assert forall s | s in db.tenants :: s in db1.tenants;
    MoreTenants(db, db1.tenants);
    assert forall r | r in db.roles :: r.tenant != t.id;
    QuietLog(exact, db, db1);
    EnsureRolesLog(exact, db1, t.id, DEFAULT_ROLES, now);
    AddTenantKeeps(db, t, now);
  }

  lemma AddTenantDomainLog(exact: bool, db: Db, t: Tenant, host: string, isPrimary: bool, now: nat)
    requires Inv(db) && LogOk(exact, db) && t.id == db.nextId && t.slug == t.schemaName && Slugs.IsSlug(t.slug)
    requires forall s | s in db.tenants :: s.slug != t.slug
    requires !Exists(db.domains, HostIs(host))
    ensures var db' := AddDomain(AddTenant(db.(nextId := db.nextId + 1), t, now), t.id, host, isPrimary);
      Inv(db') && LogOk(exact, db')
  {
    var db1 := db.(nextId := db.nextId + 1);
    AddTenantDomainKeeps(db, t, host, isPrimary, now);
    QuietLog(exact, db, db1);
    AddTenantLog(exact, db1, t, now);
    QuietLog(exact, AddTenant(db1, t, now), AddDomain(AddTenant(db1, t, now), t.id, host, isPrimary));
  }

  /** A tenant creation that is not given up inside its atomic block. */
  lemma InsertTenantLog(exact: bool, db: Db, name: string, slug: string, host: string, isPrimary: bool, now: nat)
    requires Inv(db) && LogOk(exact, db) && Slugs.IsSlug(slug)
    requires TenantInsertable(db, name, slug, host) ==> |host| <= HOST_LIMIT
    ensures Inv(InsertTenant(db, name, slug, host, isPrimary, now).db)
    ensures LogOk(exact, InsertTenant(db, name, slug, host, isPrimary, now).db)
  {
    assert !Exists(db.tenants, SlugIs(slug)) ==> forall s | s in db.tenants :: !SlugIs(slug)(s);
    AddedTenantLog(
      exact, db, Tenant(db.nextId, name, slug, slug, true), host, isPrimary, now,
      InsertTenant(db, name, slug, host, isPrimary, now).db);
  }

  lemma AddedTenantLog(exact: bool, db: Db, t: Tenant, host: string, isPrimary: bool, now: nat, db': Db)
    requires Inv(db) && LogOk(exact, db) && t.id == db.nextId && t.slug == t.schemaName && Slugs.IsSlug(t.slug)
    requires db' == db || (
      && (forall s | s in db.tenants :: s.slug != t.slug) && !Exists(db.domains, HostIs(host))
      && db' == AddDomain(AddTenant(db.(nextId := db.nextId + 1), t, now), t.id, host, isPrimary))
    ensures Inv(db') && LogOk(exact, db')
  {
    if db' != db {
      AddTenantDomainLog(exact, db, t, host, isPrimary, now);
    }
  }

  /** The deltas of a role that is created and deleted again cancel under replay. */
  lemma UndoneRoleLog(exact: bool, db: Db, r: Role, db': Db)
    requires Consistent(db) && LogOk(exact, db) && r.id == db.nextId && Consistent(AddRole(db, r)) && Consistent(db')
    requires db'.roles == db.roles && db'.members == db.members && db'.flags == db.flags
    requires db'.queue == db.queue + Created(RoleRow(r)) + [DeletedDelta(KeyOf(RoleRow(r)), TextOf(RoleRow(r)))]
    requires db'.erased == db.erased
    ensures LogOk(exact, db')
  {
    var added, x := AddRole(db, r), RoleRow(r);
    AddRoleLog(exact, db, r);
    assert RowsOf(added) == RowsOf(db) + {x} && x !in RowsOf(db);
    assert RowsOf(db') == RowsOf(added) - {x};
    RowsUnique(added);
    StoredText(exact, added, x);
    DeletedOne(Reading(exact, db.erased), RowsOf(added), x);
    Extends(exact, added, db', [DeletedDelta(KeyOf(x), TextOf(x))]);
  }

  lemma CreateRoleLog(
    exact: bool, db: Db, tenant: nat, name: string, slug: string, weight: int, codes: seq<string>, now: nat)
    requires Inv(db) && LogOk(exact, db) && IsTenant(db.tenants, tenant)
    ensures Inv(CreateRole(db, tenant, name, slug, weight, codes, now).db)
    ensures LogOk(exact, CreateRole(db, tenant, name, slug, weight, codes, now).db)
  {
    if !Exists(db.roles, RoleIs(tenant, slug)) && RoleStorable(name, slug, weight) {
      assert forall q | q in db.roles :: !RoleIs(tenant, slug)(q);
      EquipRoleLog(exact, db, Role(db.nextId, tenant, name, slug, false, weight, now), codes);
    }
  }

  lemma EquipRoleLog(exact: bool, db: Db, r: Role, codes: seq<string>)
    requires Inv(db) && LogOk(exact, db) && r.id == db.nextId && IsTenant(db.tenants, r.tenant)
    requires forall q | q in db.roles :: RoleName(q) != RoleName(r)
    ensures Inv(EquipRole(db, r, codes).db) && LogOk(exact, EquipRole(db, r, codes).db)
  {
    EquipRoleKeeps(db, r, codes);
    AddRoleKeeps(db, r);
    AddRoleLog(exact, db, r);
    if EquipRole(db, r, codes).result == Err(Validation) {
      UndoneRoleLog(exact, db, r, EquipRole(db, r, codes).db);
    } else {
      QuietLog(exact, AddRole(db, r), EquipRole(db, r, codes).db);
    }
  }

  /** A stored membership that is rewritten in place. */
  lemma ReplaceMemberLog(exact: bool, db: Db, old_: Membership, m: Membership, db': Db)
    requires Consistent(db) && Consistent(db') && LogOk(exact, db) && old_ in db.members && old_.id == m.id
    requires db' == db.(members := Replace(db.members, MemberId, m),
                        queue := db.queue + Updated(MemberRow(old_), MemberRow(m)))
    ensures LogOk(exact, db')
  {
    var x, y := MemberRow(old_), MemberRow(m);
    ReplacedMemberRows(db, old_, m, db');
    RowsUnique(db);
    RowsUnique(db');
    StoredText(exact, db, x);
    StoredText(exact, db', y);
    SavedUpdate(Reading(exact, db.erased), RowsOf(db), x, y, TextOf(y));
    Extends(exact, db, db', Updated(x, y));
  }

  lemma ReplacedMemberRows(db: Db, old_: Membership, m: Membership, db': Db)
    requires Consistent(db) && old_ in db.members && old_.id == m.id
    requires db'.members == Replace(db.members, MemberId, m) && db'.roles == db.roles && db'.flags == db.flags
    ensures RowsOf(db') == RowsOf(db) - {MemberRow(old_)} + {MemberRow(m)}
  {
    forall n | n in db.members && n.id == m.id ensures n == old_ {
      SameRow(db.members, MemberId, n, old_);
    }
  }

  lemma NewMemberLog(exact: bool, db: Db, m: Membership, db': Db)
    requires Consistent(db) && Consistent(db') && LogOk(exact, db) && m.id == db.nextId
    requires db' == db.(members := db.members + [m], queue := db.queue + Created(MemberRow(m)), nextId := db.nextId + 1)
    ensures LogOk(exact, db')
  {
    var x := MemberRow(m);
    assert RowsOf(db') == RowsOf(db) + {x};
    RowsUnique(db);
    RowsUnique(db');
    StoredText(exact, db', x);
    SavedInsert(Reading(exact, db.erased), RowsOf(db), x, TextOf(x));
    Extends(exact, db, db', Created(x));
  }

  lemma SeatMemberLog(exact: bool, db: Db, user: nat, tenant: nat, role: nat, actor: Option<nat>, now: nat)
    requires Inv(db) && LogOk(exact, db) && IsRoleOf(db.roles, role, tenant) && IsUser(db.users, user)
    requires actor.Some? ==> IsUser(db.users, actor.value)
    ensures Inv(SeatMember(db, user, tenant, role, actor, now).0)
    ensures LogOk(exact, SeatMember(db, user, tenant, role, actor, now).0)
  {
    SeatMemberKeeps(db, user, tenant, role, actor, now);
    var (db', m) := SeatMember(db, user, tenant, role, actor, now);
    match First(db.members, SeatIs(user, tenant))
    case None => NewMemberLog(exact, db, m, db');
    case Some(old_) => ReplaceMemberLog(exact, db, old_, m, db');
  }

  lemma AssignRoleLog(exact: bool, db: Db, user: nat, tenant: nat, slug: string, actor: Option<nat>, now: nat)
    requires Inv(db) && LogOk(exact, db) && IsUser(db.users, user) && (actor.Some? ==> IsUser(db.users, actor.value))
    ensures Inv(AssignRole(db, user, tenant, slug, actor, now).db)
    ensures LogOk(exact, AssignRole(db, user, tenant, slug, actor, now).db)
  {
    AssignRoleKeeps(db, user, tenant, slug, actor, now);
    var found := First(db.roles, RoleIs(tenant, slug));
    if found.Some? {
      assert RoleIs(tenant, slug)(found.value);
      SeatMemberLog(exact, db, user, tenant, found.value.id, actor, now);
      QuietLog(exact, SeatMember(db, user, tenant, found.value.id, actor, now).0,
               AssignRole(db, user, tenant, slug, actor, now).db);
    }
  }

  lemma DropMembersLog(exact: bool, db: Db, p: Membership -> bool)
    requires Inv(db) && LogOk(exact, db)
    ensures Inv(DropMembers(db, p)) && LogOk(exact, DropMembers(db, p))
  {
    DropMembersKeeps(db, p);
    DroppedInAnyOrder(exact, db, p, Where(db.members, p));
  }

  /** The delete signals of one batch may come in any order: the log is right all the same. */
  lemma DroppedInAnyOrder(exact: bool, db: Db, p: Membership -> bool, gone: seq<Membership>)
    requires Inv(db) && LogOk(exact, db) && multiset(gone) == multiset(Where(db.members, p))
    ensures var db' := DropMembers(db, p).(queue := db.queue + Deletions(gone)); Inv(db') && LogOk(exact, db')
  {
    DropMembersKeeps(db, p);
    var db' := DropMembers(db, p).(queue := db.queue + Deletions(gone));
    RowsUnique(db);
    SameRowsGone(db, p, gone);
    forall x | x in MemberRows(gone)
      ensures x in RowsOf(db) && OnFields(Reading(exact, db.erased), TextOf(x)) == TextOf(x)
    {
      StoredText(exact, db, x);
    }
    DroppedRows(db, p);
    DeletedRows(Reading(exact, db.erased), RowsOf(db), gone);
    Extends(exact, db, db', Deletions(gone));
  }

  lemma SameRowsGone(db: Db, p: Membership -> bool, gone: seq<Membership>)
    requires Inv(db) && multiset(gone) == multiset(Where(db.members, p))
    ensures Distinct(gone, MemberId) && MemberRows(gone) == MemberRows(Where(db.members, p))
  {
    var rows := Where(db.members, p);
    DistinctWhere(db.members, MemberId, p);
    assert forall m :: m in gone <==> m in multiset(gone);
    assert forall m :: m in rows <==> m in multiset(rows);
    forall i, j | 0 <= i < j < |gone| ensures MemberId(gone[i]) != MemberId(gone[j]) {
      if MemberId(gone[i]) == MemberId(gone[j]) {
        SameRow(db.members, MemberId, gone[i], gone[j]);
        CountedTwice(gone, i, j);
        CountedOnce(rows, gone[i]);
      }
    }
  }

  lemma CountedTwice(rows: seq<Membership>, i: nat, j: nat)
    requires i < j < |rows| && rows[i] == rows[j]
    ensures multiset(rows)[rows[i]] >= 2
  {
    assert rows == rows[..j] + [rows[j]] + rows[j + 1..];
    assert rows[i] in rows[..j];
  }

  lemma {:induction false} CountedOnce(rows: seq<Membership>, m: Membership)
    requires Distinct(rows, MemberId)
    ensures multiset(rows)[m] <= 1
  {
    if rows != [] {
      var init, last := rows[..|rows| - 1], rows[|rows| - 1];
      assert rows == init + [last];
      CountedOnce(init, m);
      assert m == last ==> m !in init by {
        assert forall i | 0 <= i < |init| :: MemberId(init[i]) != MemberId(last);
      }
    }
  }

  lemma DroppedRows(db: Db, p: Membership -> bool)
    ensures RowsOf(DropMembers(db, p)) == RowsOf(db) - MemberRows(Where(db.members, p))
  {
  }

  lemma RevokeRoleLog(exact: bool, db: Db, user: nat, tenant: nat)
    requires Inv(db) && LogOk(exact, db)
    ensures Inv(RevokeRole(db, user, tenant).db) && LogOk(exact, RevokeRole(db, user, tenant).db)
  {
    DropMembersLog(exact, db, SeatIs(user, tenant));
    QuietLog(exact, DropMembers(db, SeatIs(user, tenant)), RevokeRole(db, user, tenant).db);
  }

  /** A value that the field accepts is written the way the database will hold it. */
  predicate Spelled(raw: RawFlag) {
    ToPython(raw).Some? ==> RawString(raw) == ShowBool(ToPython(raw).value)
  }

  /** Canonically, the raw value logs as the Boolean that was stored; as written, it does when it is
      spelled that way. */
  lemma FlagTextReading(exact: bool, f: Flag, raw: RawFlag, erased: set<nat>)
    requires ToPython(raw) == Some(f.isActive) && (exact ==> Spelled(raw))
    ensures OnFields(Reading(exact, erased), FlagText(f, raw)) == TextOf(FlagRow(f))
  {
    var c, row := Reading(exact, erased), TextOf(FlagRow(f));
    if exact {
      PlainText(c, row);
    } else {
      CanonicalText(erased, FlagRow(f));
      StoredRawText(raw);
      assert c("is_active", RawString(raw)) == StoredBool(RawString(raw));
    }
    RewriteField(c, row, "is_active", RawString(raw));
  }

  lemma StoredRawText(raw: RawFlag)
    requires ToPython(raw).Some?
    ensures StoredBool(RawString(raw)) == ShowBool(ToPython(raw).value)
  {
    match raw
    case RawBool(b) =>
    case RawInt(n) =>
    case RawFloat(x, negativeZero) =>
    case RawText(s) =>
  }

  lemma NewFlagLog(exact: bool, db: Db, f: Flag, raw: RawFlag, db': Db)
    requires Consistent(db) && Consistent(db') && LogOk(exact, db) && f.id == db.nextId
    requires ToPython(raw) == Some(f.isActive) && (exact ==> Spelled(raw))
    requires db' == db.(flags := db.flags + [f], nextId := db.nextId + 1,
                        queue := db.queue + SavedDelta(true, KeyOf(FlagRow(f)), map[], FlagText(f, raw)))
    ensures LogOk(exact, db')
  {
    var x := FlagRow(f);
    assert RowsOf(db') == RowsOf(db) + {x};
    RowsUnique(db);
    RowsUnique(db');
    FlagTextReading(exact, f, raw, db.erased);
    SavedInsert(Reading(exact, db.erased), RowsOf(db), x, FlagText(f, raw));
    Extends(exact, db, db', SavedDelta(true, KeyOf(x), map[], FlagText(f, raw)));
  }

  lemma ReplaceFlagLog(exact: bool, db: Db, old_: Flag, f: Flag, raw: RawFlag, db': Db)
    requires Consistent(db) && Consistent(db') && LogOk(exact, db) && old_ in db.flags && old_.id == f.id
    requires ToPython(raw) == Some(f.isActive) && (exact ==> Spelled(raw))
    requires db' == db.(flags := Replace(db.flags, FlagId, f),
                        queue := db.queue +
                          SavedDelta(false, KeyOf(FlagRow(f)), TextOf(FlagRow(old_)), FlagText(f, raw)))
    ensures LogOk(exact, db')
  {
    var x, y := FlagRow(old_), FlagRow(f);
    ReplacedFlagRows(db, old_, f, db');
    RowsUnique(db);
    RowsUnique(db');
    StoredText(exact, db, x);
    FlagTextReading(exact, f, raw, db.erased);
    SavedUpdate(Reading(exact, db.erased), RowsOf(db), x, y, FlagText(f, raw));
    Extends(exact, db, db', SavedDelta(false, KeyOf(y), TextOf(x), FlagText(f, raw)));
  }

  lemma ReplacedFlagRows(db: Db, old_: Flag, f: Flag, db': Db)
    requires Consistent(db) && old_ in db.flags && old_.id == f.id
    requires db'.flags == Replace(db.flags, FlagId, f) && db'.roles == db.roles && db'.members == db.members
    ensures RowsOf(db') == RowsOf(db) - {FlagRow(old_)} + {FlagRow(f)}
  {
    forall g | g in db.flags && g.id == f.id ensures g == old_ {
      SameRow(db.flags, FlagId, g, old_);
    }
  }

  lemma SetFeatureLog(exact: bool, db: Db, tenant: Option<nat>, name: string, raw: RawFlag, now: nat)
    requires Inv(db) && LogOk(exact, db) && (exact ==> Spelled(raw) || !FlagNameOk(db.flags, tenant, name))
    ensures Inv(SetFeature(db, tenant, name, raw, now).db)
    ensures LogOk(exact, SetFeature(db, tenant, name, raw, now).db)
  {
    SetFeatureKeeps(db, tenant, name, raw, now);
    if SetFeature(db, tenant, name, raw, now).result.Ok? {
      var out, found := SetFeature(db, tenant, name, raw, now), Where(db.flags, FlagIs(tenant, name));
      if found == [] {
        NewFlagLog(exact, db, out.result.value, raw, out.db);
      } else {
        assert found[0] in found;
        ReplaceFlagLog(exact, db, found[0], out.result.value, raw, out.db);
      }
    }
  }

  lemma EraseChildrenLog(exact: bool, db: Db, user: nat)
    requires Inv(db) && LogOk(exact, db)
    ensures Inv(EraseChildren(db, user)) && LogOk(exact, EraseChildren(db, user))
  {
    var cleared := db.(tokens := Unless(db.tokens, IssuedTo(user)),
                       notifications := Unless(db.notifications, NotifiedTo(user)));
    QuietLog(exact, db, cleared);
    DropMembersLog(exact, cleared, HeldBy(user));
  }

  /** Nulling the references to an erased user is what reading the log canonically does. */
  lemma DeleteUserLog(exact: bool, db: Db, user: nat)
    requires Inv(db) && LogOk(exact, db) && IsUser(db.users, user) && forall m | m in db.members :: m.user != user
    requires exact ==> forall m | m in db.members :: m.assignedBy != Some(user)
    ensures Inv(DeleteUser(db, user)) && LogOk(exact, DeleteUser(db, user))
  {
    DeleteUserKeeps(db, user);
    var db' := DeleteUser(db, user);
    if exact {
      assert forall i | 0 <= i < |db.members| :: db.members[i] in db.members && db'.members[i] == db.members[i];
      assert db'.members == db.members;
      assert RowsOf(db') == RowsOf(db);
    } else {
      var c, c' := Canonical(db.erased), Canonical(db'.erased);
      CanonicalCoarser(db.erased, db'.erased);
      RewriteTwice(c', c, db.queue);
      ReplayRewrite(c', map[], OnLog(c, db.queue));
      assert OnTables(c', map[]) == map[];
      NullAssignerText(db, user);
    }
  }

  /** The rows after nulling are the images of the rows before. */
  lemma NullAssignerImage(db: Db, user: nat)
    ensures forall x | x in RowsOf(db) :: NullRow(user)(x) in RowsOf(DeleteUser(db, user))
    ensures forall y | y in RowsOf(DeleteUser(db, user)) :: exists x | x in RowsOf(db) :: NullRow(user)(x) == y
  {
    var db' := DeleteUser(db, user);
    forall x | x in RowsOf(db) ensures NullRow(user)(x) in RowsOf(db') {
      if x.MemberRow? {
        var i :| 0 <= i < |db.members| && db.members[i] == x.member;
        assert db'.members[i] in db'.members;
      }
    }
    forall y | y in RowsOf(db') ensures exists x | x in RowsOf(db) :: NullRow(user)(x) == y {
      if y.MemberRow? {
        var i :| 0 <= i < |db'.members| && db'.members[i] == y.member;
        assert MemberRow(db.members[i]) in RowsOf(db) && NullRow(user)(MemberRow(db.members[i])) == y;
      } else {
        assert y in RowsOf(db) && NullRow(user)(y) == y;
      }
    }
  }

  lemma NullAssignerText(db: Db, user: nat)
    requires Inv(db) && Inv(DeleteUser(db, user))
    ensures OnTables(Canonical(DeleteUser(db, user).erased), Shot(db)) == Shot(DeleteUser(db, user))
  {
    var db' := DeleteUser(db, user);
    var c' := Canonical(db'.erased);
    RowsUnique(db);
    RowsUnique(db');
    NullAssignerImage(db, user);
    forall x | x in RowsOf(db)
      ensures KeyOf(NullRow(user)(x)) == KeyOf(x) && OnFields(c', TextOf(x)) == TextOf(NullRow(user)(x))
    {
      StoredText(false, db', NullRow(user)(x));
      NullText(db'.erased, user, x);
    }
    TabulateImage(RowsOf(db), RowsOf(db'), KeyOf, TextOf, c', NullRow(user));
  }

  function NullRow(user: nat): Row -> Row {
    (x: Row) => if x.MemberRow? then MemberRow(NullAssigner(user, x.member)) else x
  }

  lemma NullText(erased: set<nat>, user: nat, x: Row)
    requires user in erased
    requires OnFields(Canonical(erased), TextOf(NullRow(user)(x))) == TextOf(NullRow(user)(x))
    ensures OnFields(Canonical(erased), TextOf(x)) == TextOf(NullRow(user)(x))
  {
    var c := Canonical(erased);
    if x.MemberRow? && x.member.assignedBy == Some(user) {
      var t, t' := TextOf(x), TextOf(NullRow(user)(x));
      assert t == t'["assigned_by" := ShowNat(user)];
      assert c("assigned_by", ShowNat(user)) == "None";
      forall f | f in t ensures OnFields(c, t)[f] == t'[f] {
        if f != "assigned_by" {
          assert OnFields(c, t')[f] == c(f, t[f]);
        }
      }
    }
  }
}
