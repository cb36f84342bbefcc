/** The store as an object whose services update it step by step, through the audit signals. Each
    method is proved to do to the tables and the log what the function of the same call says. */
module AuthStore {

  import opened Rows
  import opened Text
  import opened DeltaLog
  import opened AuthModel
  import opened Slugs
  import opened Services
  import opened Seeding

  /** `_meta.fields` of the three audited models; the permissions of a role are not among them. */
  function FieldNames(model: Model): seq<string> {
    match model
    case RoleModel => ["id", "tenant", "name", "slug", "is_default", "weight", "created_at"]
    case MembershipModel => ["id", "user", "tenant", "role", "assigned_by", "created_at"]
    case FlagModel => ["id", "tenant", "name", "is_active", "created_at", "updated_at"]
  }

  ghost function Names(fields: seq<string>): set<string> {
    set f | f in fields
  }

  lemma FieldsCover(x: Row)
    ensures Names(FieldNames(KeyOf(x).model)) == TextOf(x).Keys
  {
    var fields, keys := FieldNames(KeyOf(x).model), TextOf(x).Keys;
    assert forall i | 0 <= i < |fields| :: fields[i] in keys;
    match x
    case RoleRow(_) =>
      assert keys == {fields[0], fields[1], fields[2], fields[3], fields[4], fields[5], fields[6]};
    case _ =>
      assert keys == {fields[0], fields[1], fields[2], fields[3], fields[4], fields[5]};
  }

  /** The diff over one more field. */
  lemma OneMoreField(fields: set<string>, f: string, old_: Fields, text: Fields)
    requires fields <= text.Keys && f in text
    ensures var changed := f != "password" && Lookup(old_, f) != Some(text[f]);
      && Was(fields + {f}, old_, text) ==
        (if changed then Was(fields, old_, text)[f := Lookup(old_, f)] else Was(fields, old_, text))
      && Changed(fields + {f}, old_, text) ==
        (if changed then Changed(fields, old_, text)[f := text[f]] else Changed(fields, old_, text))
  {
  }

  /** The tables as they were when an atomic block was entered. */
  datatype Saved = Saved(
    tenants: seq<Tenant>, domains: seq<Domain>, permissions: seq<Permission>, roles: seq<Role>,
    grants: seq<Grant>, members: seq<Membership>, flags: seq<Flag>, users: seq<User>,
    notifications: seq<Notification>, tokens: seq<Token>, events: seq<Event>)
  {
    predicate Of(db: Db) {
      && tenants == db.tenants && domains == db.domains && permissions == db.permissions && roles == db.roles
      && grants == db.grants && members == db.members && flags == db.flags && users == db.users
      && notifications == db.notifications && tokens == db.tokens && events == db.events
    }
  }

  class Store {
    var tenants: seq<Tenant>
    var domains: seq<Domain>
    var permissions: seq<Permission>
    var roles: seq<Role>
    var grants: seq<Grant>
    var members: seq<Membership>
    var flags: seq<Flag>
    var users: seq<User>
    var notifications: seq<Notification>
    var tokens: seq<Token>
    var queue: seq<Delta>
    var events: seq<Event>
    var nextId: nat
    var seeding: bool
    ghost var erased: set<nat>

    ghost function Value(): Db
      reads this
    {
      Db(tenants, domains, permissions, roles, grants, members, flags, users, notifications, tokens,
         queue, events, nextId, erased)
    }

    constructor ()
      ensures Value() == EMPTY && !seeding
    {
      tenants, domains, permissions, roles, grants := [], [], [], [], [];
      members, flags, users, notifications, tokens := [], [], [], [], [];
      queue, events, nextId, seeding := [], [], FIRST_FREE_ID, false;
      erased := {};
    }

    // ---- Signals -------------------------------------------------------------------------

    /** `audit_pre_save`: the texts of the stored row, or none when it is not there. */
    method AuditPreSave(fields: seq<string>, stored: Option<Fields>) returns (oldValues: Fields)
      requires stored.Some? ==> Names(fields) == stored.value.Keys
      ensures oldValues == if stored.Some? then stored.value else map[]
    {
      oldValues := map[];
      if stored.Some? {
        for i := 0 to |fields|
          invariant oldValues == map f | f in fields[..i] :: stored.value[f]
        {
          assert fields[..i + 1] == fields[..i] + [fields[i]];
          oldValues := oldValues[fields[i] := stored.value[fields[i]]];
        }
        assert fields[..|fields|] == fields;
      }
    }

    /** The `after` part of a creation: every field but the password. */
    method AllFields(fields: seq<string>, text: Fields) returns (after: Fields)
      requires Names(fields) == text.Keys
      ensures after == text - {"password"}
    {
      after := map[];
      for i := 0 to |fields|
        invariant after == map f | f in fields[..i] && f != "password" :: text[f]
      {
        assert fields[..i + 1] == fields[..i] + [fields[i]];
        if fields[i] != "password" {
          after := after[fields[i] := text[fields[i]]];
        }
      }
      assert fields[..|fields|] == fields;
    }

    /** The field-level diff of an update. */
    method ChangedFields(fields: seq<string>, oldValues: Fields, text: Fields)
      returns (before: map<string, Option<string>>, after: Fields)
      requires Names(fields) == text.Keys
      ensures before == Was(text.Keys, oldValues, text) && after == Changed(text.Keys, oldValues, text)
    {
      before, after := map[], map[];
      for i := 0 to |fields|
        invariant Names(fields[..i]) <= text.Keys
        invariant before == Was(Names(fields[..i]), oldValues, text)
        invariant after == Changed(Names(fields[..i]), oldValues, text)
      {
        var f := fields[i];
        assert fields[..i + 1] == fields[..i] + [f];
        assert Names(fields[..i + 1]) == Names(fields[..i]) + {f};
        OneMoreField(Names(fields[..i]), f, oldValues, text);
        if f == "password" {
          continue;
        }
        var newVal, oldVal := text[f], Lookup(oldValues, f);
        if oldVal != Some(newVal) {
          before := before[f := oldVal];
          after := after[f := newVal];
        }
      }
      assert fields[..|fields|] == fields;
    }

    /** `audit_post_save`: queues the field-level delta of a save; an update that changed no field
        queues nothing. */
    method AuditPostSave(key: Key, created: bool, fields: seq<string>, oldValues: Fields, text: Fields)
      requires Names(fields) == text.Keys
      modifies this`queue
      ensures queue == old(queue) + SavedDelta(created, key, oldValues, text)
    {
      if created {
        var after := AllFields(fields, text);
        queue := queue + [Create(key, after)];
        return;
      }
      var before, after := ChangedFields(fields, oldValues, text);
      assert before.Keys == after.Keys;
      if before == map[] && after == map[] {
        return;
      }
      queue := queue + [Update(key, before, after)];
    }

    method AuditPostDelete(key: Key, text: Fields)
      modifies this`queue
      ensures queue == old(queue) + [DeletedDelta(key, text)]
    {
      queue := queue + [Delete(key, text - {"password"})];
    }

    /** A save with its signals around the write, given the stored row and the text of the instance. */
    method Signal(x: Row, stored: Option<Row>, text: Fields)
      requires text.Keys == TextOf(x).Keys && (stored.Some? ==> KeyOf(stored.value) == KeyOf(x))
      modifies this`queue
      ensures queue == old(queue) +
        SavedDelta(stored.None?, KeyOf(x), if stored.Some? then TextOf(stored.value) else map[], text)
    {
      var fields := FieldNames(KeyOf(x).model);
      FieldsCover(x);
      if stored.Some? {
        FieldsCover(stored.value);
      }
      var oldValues := AuditPreSave(fields, if stored.Some? then Some(TextOf(stored.value)) else None);
      AuditPostSave(KeyOf(x), stored.None?, fields, oldValues, text);
    }

    // ---- Roles and memberships -----------------------------------------------------------

    method InsertRole(tenant: nat, name: string, slug: string, isDefault: bool, weight: nat, now: nat) returns (r: Role)
      modifies this
      ensures r == Role(old(nextId), tenant, name, slug, isDefault, weight, now)
      ensures Value() == AddRole(old(Value()), r) && seeding == old(seeding)
    {
      r := Role(nextId, tenant, name, slug, isDefault, weight, now);
      nextId := nextId + 1;
      roles := roles + [r];
      Signal(RoleRow(r), None, TextOf(RoleRow(r)));
    }

    /** `create_default_roles`: creates what is missing and returns the three roles. */
    method CreateDefaultRoles(tenant: nat, now: nat) returns (made: seq<Role>)
      modifies this
      ensures Value() == EnsureRoles(old(Value()), tenant, DEFAULT_ROLES, now) && seeding == old(seeding)
      ensures |made| == |DEFAULT_ROLES|
      ensures forall i | 0 <= i < |made| ::
        made[i] in roles && made[i].tenant == tenant && made[i].slug == DEFAULT_ROLES[i].slug
    {
      made := [];
      for i := 0 to |DEFAULT_ROLES|
        invariant Value() == EnsureRoles(old(Value()), tenant, DEFAULT_ROLES[..i], now) && seeding == old(seeding)
        invariant |made| == i
        invariant forall k | 0 <= k < i ::
          made[k] in roles && made[k].tenant == tenant && made[k].slug == DEFAULT_ROLES[k].slug
      {
        var d := DEFAULT_ROLES[i];
        assert DEFAULT_ROLES[..i + 1][..i] == DEFAULT_ROLES[..i];
        var found := First(roles, RoleIs(tenant, d.slug));
        var r;
        if found.Some? {
          r := found.value;
          assert RoleIs(tenant, d.slug)(r);
        } else {
          r := InsertRole(tenant, d.name, d.slug, true, d.weight, now);
        }
        made := made + [r];
      }
      assert DEFAULT_ROLES[..|DEFAULT_ROLES|] == DEFAULT_ROLES;
    }

    /** `role.permissions.set(permissions)`. */
    method SetPermissions(role: nat, chosen: seq<Permission>)
      modifies this`grants
      ensures grants == SetGrants(old(grants), role, chosen)
    {
      grants := Unless(grants, StaleGrant(role, chosen));
      ghost var kept := grants;
      for i := 0 to |chosen|
        invariant grants == AddGrants(kept, role, chosen[..i])
      {
        assert chosen[..i + 1][..i] == chosen[..i];
        if Grant(role, chosen[i].id) !in grants {
          grants := grants + [Grant(role, chosen[i].id)];
        }
      }
      assert chosen[..|chosen|] == chosen;
    }

    method DeleteRole(r: Role)
      modifies this`roles, this`queue
      ensures roles == Unless(old(roles), RoleWithId(r.id))
      ensures queue == old(queue) + [DeletedDelta(KeyOf(RoleRow(r)), TextOf(RoleRow(r)))]
    {
      roles := Unless(roles, RoleWithId(r.id));
      AuditPostDelete(KeyOf(RoleRow(r)), TextOf(RoleRow(r)));
    }

    method CreateRole(tenant: nat, name: string, slug: string, weight: int, codes: seq<string>, now: nat)
      returns (result: Result<Role>)
      modifies this
      ensures Outcome(Value(), result) == Services.CreateRole(old(Value()), tenant, name, slug, weight, codes, now)
    {
      if Exists(roles, RoleIs(tenant, slug)) {
        return Err(Conflict);
      }
      if !RoleStorable(name, slug, weight) {
        return Err(DataRefused);
      }
      var r := InsertRole(tenant, name, slug, false, weight, now);
      if codes != [] {
        if !AllClean(codes) {
          return Err(DataRefused);
        }
        var found := Where(permissions, CodeIn(codes));
        var foundCodes := set p | p in found :: p.code;
        var missing := (set c | c in codes) - foundCodes;
        if missing != {} {
          DeleteRole(r);
          return Err(Validation);
        }
        SetPermissions(r.id, found);
      }
      result := Ok(r);
    }

    method InsertMember(m: Membership)
      modifies this`members, this`queue, this`nextId
      ensures members == old(members) + [m] && nextId == old(nextId) + 1
      ensures queue == old(queue) + Created(MemberRow(m))
    {
      nextId := nextId + 1;
      members := members + [m];
      Signal(MemberRow(m), None, TextOf(MemberRow(m)));
    }

    method SaveMember(stored: Membership, m: Membership)
      requires stored.id == m.id
      modifies this`members, this`queue
      ensures members == Replace(old(members), MemberId, m)
      ensures queue == old(queue) + Updated(MemberRow(stored), MemberRow(m))
    {
      members := Replace(members, MemberId, m);
      Signal(MemberRow(m), Some(MemberRow(stored)), TextOf(MemberRow(m)));
    }

    /** `UserTenantRole.objects.update_or_create`. */
    method UpdateOrCreateMember(user: nat, tenant: nat, role: nat, actor: Option<nat>, now: nat) returns (m: Membership)
      modifies this
      ensures (Value(), m) == SeatMember(old(Value()), user, tenant, role, actor, now) && seeding == old(seeding)
    {
      var found := First(members, SeatIs(user, tenant));
      if found.None? {
        m := Membership(nextId, user, tenant, role, actor, now);
        InsertMember(m);
      } else {
        m := found.value.(role := role, assignedBy := actor);
        SaveMember(found.value, m);
      }
    }

    method AssignRole(user: nat, tenant: nat, slug: string, actor: Option<nat>, now: nat)
      returns (result: Result<Membership>)
      modifies this
      ensures Outcome(Value(), result) == Services.AssignRole(old(Value()), user, tenant, slug, actor, now)
      ensures seeding == old(seeding)
    {
      var role := First(roles, RoleIs(tenant, slug));
      if role.None? {
        return Err(NotFound);
      }
      var m := UpdateOrCreateMember(user, tenant, role.value.id, actor, now);
      events := events + [RoleAssigned(user, tenant, slug, actor)];
      result := Ok(m);
    }

    /** The delete signal for each of some rows. */
    method SignalDeletions(gone: seq<Membership>)
      modifies this`queue
      ensures queue == old(queue) + Deletions(gone)
    {
      for i := 0 to |gone|
        invariant queue == old(queue) + Deletions(gone)[..i]
      {
        var x := MemberRow(gone[i]);
        AuditPostDelete(KeyOf(x), TextOf(x));
        assert Deletions(gone)[i] == DeletedDelta(KeyOf(x), TextOf(x));
        assert Deletions(gone)[..i + 1] == Deletions(gone)[..i] + [Deletions(gone)[i]];
      }
      assert Deletions(gone)[..|gone|] == Deletions(gone);
    }

    /** A queryset delete on memberships, with its signals. */
    method DeleteMembers(p: Membership -> bool) returns (count: nat)
      modifies this`members, this`queue
      ensures Value() == DropMembers(old(Value()), p) && count == |Where(old(members), p)|
    {
      var gone := Where(members, p);
      members := Unless(members, p);
      SignalDeletions(gone);
      count := |gone|;
    }

    method RevokeRole(user: nat, tenant: nat) returns (removed: bool)
      modifies this
      ensures Outcome(Value(), Ok(removed)) == Services.RevokeRole(old(Value()), user, tenant)
    {
      var deleted := DeleteMembers(SeatIs(user, tenant));
      if deleted != 0 {
        events := events + [RoleRevoked(user, tenant, None)];
      }
      removed := deleted != 0;
    }

    // ---- Flags ---------------------------------------------------------------------------

    method InsertFlag(f: Flag, raw: RawFlag)
      requires ToPython(raw).Some?
      modifies this`flags, this`queue, this`nextId
      ensures Value() == AddFlag(old(Value()), f, raw)
    {
      nextId := nextId + 1;
      flags := flags + [f];
      Signal(FlagRow(f), None, FlagText(f, raw));
    }

    method SaveFlag(stored: Flag, f: Flag, raw: RawFlag)
      requires ToPython(raw).Some? && stored.id == f.id
      modifies this`flags, this`queue
      ensures Value() == Services.SaveFlag(old(Value()), stored, f, raw)
    {
      flags := Replace(flags, FlagId, f);
      Signal(FlagRow(f), Some(FlagRow(stored)), FlagText(f, raw));
    }

    method SetFeature(tenant: Option<nat>, name: string, raw: RawFlag, now: nat) returns (result: Result<Flag>)
      modifies this
      ensures Outcome(Value(), result) == Services.SetFeature(old(Value()), tenant, name, raw, now)
    {
      if !Clean(name) {
        return Err(DataRefused);
      }
      var found := Where(flags, FlagIs(tenant, name));
      if |found| > 1 {
        return Err(MultipleObjects);
      }
      var active := ToPython(raw);
      if active.None? && !raw.RawNull? {
        return Err(Validation);
      }
      if !FlagNameOk(flags, tenant, name) {
        return Err(DataRefused);
      }
      if raw.RawNull? {
        return Err(Integrity);
      }
      if found == [] {
        var f := Flag(nextId, tenant, name, active.value, now, now);
        InsertFlag(f, raw);
        return Ok(f);
      }
      var f := found[0].(isActive := active.value, updatedAt := now);
      SaveFlag(found[0], f, raw);
      result := Ok(f);
    }

    // ---- Users, permissions and tenants ---------------------------------------------------------

    method RegisterUser(username: string, email: string, superuser: bool) returns (result: Result<User>)
      modifies this
      ensures Outcome(Value(), result) == Services.RegisterUser(old(Value()), username, email, superuser)
    {
      if Exists(users, (u: User) => u.username == username) || Exists(users, (u: User) => u.email == email) {
        return Err(Conflict);
      }
      if !Storable(username, 150) || !Storable(email, 254) {
        return Err(Validation);
      }
      var u := User(nextId, username, email, "", "", true, superuser, true);
      nextId := nextId + 1;
      users := users + [u];
      result := Ok(u);
    }

    method CreatePermission(code: string, description: string) returns (result: Result<Permission>)
      modifies this
      ensures Outcome(Value(), result) == Services.CreatePermission(old(Value()), code, description)
      ensures seeding == old(seeding)
    {
      if Exists(permissions, CodeIs(code)) {
        return Err(Conflict);
      }
      if !Storable(code, 100) {
        return Err(DataRefused);
      }
      var p := Permission(nextId, code, description);
      nextId := nextId + 1;
      permissions := permissions + [p];
      result := Ok(p);
    }

    method GetOrCreatePermission(code: string, description: string) returns (result: Result<Permission>)
      modifies this
      ensures Outcome(Value(), result) == Services.GetOrCreatePermission(old(Value()), code, description)
      ensures seeding == old(seeding)
    {
      var found := First(permissions, CodeIs(code));
      if found.Some? {
        return Ok(found.value);
      }
      result := CreatePermission(code, description);
    }

    /** The insert of a tenant and its post-save signal. */
    method InsertTenantRow(t: Tenant, now: nat)
      modifies this
      ensures Value() == AddTenant(old(Value()), t, now) && seeding == old(seeding)
    {
      tenants := tenants + [t];
      var _ := CreateDefaultRoles(t.id, now);
    }

    method InsertDomain(tenant: nat, host: string, isPrimary: bool)
      modifies this
      ensures Value() == AddDomain(old(Value()), tenant, host, isPrimary) && seeding == old(seeding)
    {
      domains := domains + [Domain(nextId, tenant, host, isPrimary)];
      nextId := nextId + 1;
    }

    /** `create_tenant` once the schema name is valid and the domain is trimmed. */
    method InsertTenant(name: string, slug: string, host: string, isPrimary: bool, now: nat)
      returns (result: Result<Tenant>)
      modifies this
      ensures Outcome(Value(), result) == Services.InsertTenant(old(Value()), name, slug, host, isPrimary, now)
    {
      if host == "" {
        return Err(Validation);
      }
      if Exists(tenants, SchemaIs(slug)) {
        return Err(Conflict);
      }
      if !Clean(host) {
        return Err(DataRefused);
      }
      if Exists(domains, HostIs(host)) {
        return Err(Conflict);
      }
      if !Storable(name, 255) || |slug| > 100 {
        return Err(DataRefused);
      }
      if Exists(tenants, SlugIs(slug)) {
        return Err(Integrity);
      }
      result := InsertBoth(Tenant(nextId, name, slug, slug, true), host, isPrimary, now);
    }

    /** The atomic block of `create_tenant`; a host that its column refuses rolls the tables back. */
    method InsertBoth(t: Tenant, host: string, isPrimary: bool, now: nat) returns (result: Result<Tenant>)
      modifies this
      ensures var inside := AddTenant(old(Value()).(nextId := old(nextId) + 1), t, now);
        Outcome(Value(), result) ==
          if |host| > HOST_LIMIT then Outcome(RolledBack(old(Value()), inside), Err(DataRefused))
          else Outcome(AddDomain(inside, t.id, host, isPrimary), Ok(t))
    {
      ghost var before := Value();
      var saved := Saved(
        tenants, domains, permissions, roles, grants, members, flags, users, notifications, tokens, events);
      nextId := nextId + 1;
      InsertTenantRow(t, now);
      if |host| > HOST_LIMIT {
        LeaveAtomic(Err(DataRefused), saved, before);
        return Err(DataRefused);
      }
      InsertDomain(t.id, host, isPrimary);
      result := Ok(t);
    }

    method CreateTenant(name: string, schemaName: string, domain: string, isPrimary: bool, now: nat)
      returns (result: Result<Tenant>)
      modifies this
      ensures Outcome(Value(), result) == Services.CreateTenant(old(Value()), name, schemaName, domain, isPrimary, now)
    {
      var slug := ValidateSlug(schemaName);
      if slug.Err? {
        return Err(slug.error);
      }
      result := InsertTenant(Strip(name), slug.value, Lower(Strip(domain)), isPrimary, now);
    }

    // ---- Erasure -------------------------------------------------------------------------

    /** The three row-deleting helpers, in order; the report holds the counts of deleted rows. */
    method DeleteChildren(user: nat) returns (report: Erasure)
      modifies this
      ensures Value() == EraseChildren(old(Value()), user) && report == Report(old(Value()), user)
    {
      var nTokens := RowCount(Where(tokens, IssuedTo(user)));
      tokens := Unless(tokens, IssuedTo(user));
      var nNotifications := |Where(notifications, NotifiedTo(user))|;
      notifications := Unless(notifications, NotifiedTo(user));
      var nRoles := DeleteMembers(HeldBy(user));
      report := Erasure(user, nNotifications, nRoles, nTokens);
    }

    /** `anonymize`, with the rollback of its atomic block when the placeholder name is taken. */
    method Anonymize(u: User, tag: string) returns (result: Result<Erasure>)
      modifies this
      ensures Outcome(Value(), result) == Services.Anonymize(old(Value()), u, tag)
    {
      var tokensBefore, notificationsBefore, membersBefore := tokens, notifications, members;
      var report := DeleteChildren(u.id);
      if Exists(users, OtherNamed(u.id, "deleted_" + tag)) {
        tokens, notifications, members := tokensBefore, notificationsBefore, membersBefore;
        return Err(Integrity);
      }
      var name := "deleted_" + tag;
      users := Replace(users, UserId, u.(
        username := name, email := name + "@deleted.invalid", firstName := "", lastName := "",
        isActive := false, usablePassword := false));
      result := Ok(report);
    }

    /** `user.delete()`: references to the user become null, without any signal. */
    method DeleteUserRow(user: nat)
      modifies this`users, this`members, this`events, this`erased
      ensures Value() == DeleteUser(old(Value()), user)
    {
      var ms, es := members, events;
      users := Unless(users, UserIs(user));
      members := seq(|ms|, i requires 0 <= i < |ms| => NullAssigner(user, ms[i]));
      events := seq(|es|, i requires 0 <= i < |es| => NullActor(user, es[i]));
      erased := erased + {user};
    }

    method HardDelete(user: nat) returns (result: Result<Erasure>)
      modifies this
      ensures Outcome(Value(), result) == Services.HardDelete(old(Value()), user)
    {
      var report := DeleteChildren(user);
      DeleteUserRow(user);
      result := Ok(report);
    }

    // ---- The demo seeder -----------------------------------------------------------------

    method EnsureDemoPermissions()
      modifies this
      ensures Value() == EnsurePermissions(old(Value()), PERMISSION_CODES) && seeding == old(seeding)
    {
      for i := 0 to |PERMISSION_CODES|
        invariant Value() == EnsurePermissions(old(Value()), PERMISSION_CODES[..i]) && seeding == old(seeding)
      {
        assert PERMISSION_CODES[..i + 1][..i] == PERMISSION_CODES[..i];
        var _ := GetOrCreatePermission(PERMISSION_CODES[i], Description(PERMISSION_CODES[i]));
      }
      assert PERMISSION_CODES[..|PERMISSION_CODES|] == PERMISSION_CODES;
    }

    method UpdateOrCreateTenant(spec: TenantSpec, now: nat) returns (result: Result<()>)
      modifies this
      ensures Outcome(Value(), result) == UpsertTenant(old(Value()), spec, now) && seeding == old(seeding)
    {
      if Exists(tenants, OtherTenantSlug(spec.id, spec.slug)) {
        return Err(Integrity);
      }
      var found := First(tenants, TenantIs(spec.id));
      if found.Some? {
        tenants := Replace(tenants, TenantId, Tenant(spec.id, spec.name, spec.slug, spec.slug, found.value.isActive));
      } else {
        InsertTenantRow(Tenant(spec.id, spec.name, spec.slug, spec.slug, true), now);
      }
      result := Ok(());
    }

    method UpdateOrCreateDomain(tenant: nat, host: string) returns (result: Result<()>)
      modifies this
      ensures Outcome(Value(), result) == UpsertDomain(old(Value()), tenant, host) && seeding == old(seeding)
    {
      var found := First(domains, DomainIs(tenant, host));
      if found.Some? {
        domains := Replace(domains, DomainId, found.value.(isPrimary := true));
      } else if Exists(domains, HostIs(host)) {
        return Err(Integrity);
      } else {
        InsertDomain(tenant, host, true);
      }
      result := Ok(());
    }

    method MapDemoRole(tenant: nat, slug: string)
      modifies this
      ensures Value() == MapRole(old(Value()), tenant, slug) && seeding == old(seeding)
    {
      var found := First(roles, RoleIs(tenant, slug));
      if found.Some? {
        SetPermissions(found.value.id, Where(permissions, CodeIn(MappedCodes(slug))));
      }
    }

    method SeedDemoTenant(spec: TenantSpec, now: nat) returns (result: Result<()>)
      modifies this
      ensures Outcome(Value(), result) == SeedTenant(old(Value()), spec, now) && seeding == old(seeding)
    {
      result := UpdateOrCreateTenant(spec, now);
      if result.Err? {
        return;
      }
      result := UpdateOrCreateDomain(spec.id, HostOf(spec));
      if result.Err? {
        return;
      }
      var _ := CreateDefaultRoles(spec.id, now);
      MapDemoRole(spec.id, "owner");
      MapDemoRole(spec.id, "admin");
      MapDemoRole(spec.id, "member");
    }

    method EnsureAdminUser() returns (admin: User)
      modifies this
      ensures (Value(), admin) == UpsertAdmin(old(Value())) && seeding == old(seeding)
    {
      var found := First(users, (u: User) => u.username == ADMIN_NAME);
      if found.Some? {
        admin := found.value.(email := ADMIN_NAME, firstName := "Demo", lastName := "Admin", usablePassword := true);
        users := Replace(users, UserId, admin);
      } else {
        admin := User(nextId, ADMIN_NAME, ADMIN_NAME, "Demo", "Admin", true, false, true);
        nextId := nextId + 1;
        users := users + [admin];
      }
    }

    method SeedBody(now: nat) returns (result: Result<()>)
      modifies this
      ensures Outcome(Value(), result) == SeedInside(old(Value()), now) && seeding == old(seeding)
    {
      EnsureDemoPermissions();
      result := SeedDemoTenant(DEMO_TENANTS[0], now);
      if result.Err? {
        return;
      }
      result := SeedDemoTenant(DEMO_TENANTS[1], now);
      if result.Err? {
        return;
      }
      var admin := EnsureAdminUser();
      var seated := AssignRole(admin.id, DEMO_TENANTS[0].id, "admin", None, now);
      result := if seated.Err? then Err(seated.error) else Ok(());
    }

    /** Leaves the atomic block that `seed` runs in. */
    method LeaveAtomic(result: Result<()>, saved: Saved, ghost before: Db)
      requires saved.Of(before)
      modifies this
      ensures Outcome(Value(), result) == Atomic(before, Outcome(old(Value()), result)) && seeding == old(seeding)
    {
      if result.Err? {
        tenants, domains, permissions := saved.tenants, saved.domains, saved.permissions;
        roles, grants, members, flags := saved.roles, saved.grants, saved.members, saved.flags;
        users, notifications, tokens, events := saved.users, saved.notifications, saved.tokens, saved.events;
        erased := before.erased;
      }
    }

    /** `seed`: an atomic block, with the seeding mark set while it runs and cleared on every exit. */
    method Seed(now: nat) returns (result: Result<()>)
      modifies this
      ensures Outcome(Value(), result) == Seeding.Seed(old(Value()), now) && !seeding
    {
      ghost var before := Value();
      var saved := Saved(
        tenants, domains, permissions, roles, grants, members, flags, users, notifications, tokens, events);
      seeding := true;
      result := SeedBody(now);
      LeaveAtomic(result, saved, before);
      seeding := false;
    }
  }
}
