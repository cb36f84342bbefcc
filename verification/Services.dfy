/** What each service call does to the store, as a function of the store before the call.

    A call that raises inside an atomic block gives back every table, but the deltas it had already
    sent to the worker stay sent. */
module Services {

  import opened Rows
  import opened Text
  import opened DeltaLog
  import opened AuthModel
  import opened Slugs

  datatype Outcome<+T> = Outcome(db: Db, result: Result<T>)

  // ---- The audit signals -----------------------------------------------------------------

  /** The delta of one save, if any. `old_` and `new_` are the row's texts before and after. */
  function SavedDelta(created: bool, key: Key, old_: Fields, new_: Fields): seq<Delta> {
    if created then [Create(key, new_ - {"password"})]
    else if Changed(new_.Keys, old_, new_) == map[] then []
    else [Update(key, Was(new_.Keys, old_, new_), Changed(new_.Keys, old_, new_))]
  }

  function DeletedDelta(key: Key, text: Fields): Delta {
    Delete(key, text - {"password"})
  }

  function Created(x: Row): seq<Delta> {
    SavedDelta(true, KeyOf(x), map[], TextOf(x))
  }

  function Updated(x: Row, y: Row): seq<Delta> {
    SavedDelta(false, KeyOf(y), TextOf(x), TextOf(y))
  }

  function Deletions(members: seq<Membership>): seq<Delta> {
    seq(|members|, i requires 0 <= i < |members| =>
      DeletedDelta(KeyOf(MemberRow(members[i])), TextOf(MemberRow(members[i]))))
  }

  // ---- Users and permissions -------------------------------------------------------------

  function RegisterUser(db: Db, username: string, email: string, superuser: bool): Outcome<User> {
    if Exists(db.users, (u: User) => u.username == username) ||
       Exists(db.users, (u: User) => u.email == email) then Outcome(db, Err(Conflict))
    else if !Storable(username, 150) || !Storable(email, 254) then Outcome(db, Err(Validation))
    else
      var u := User(db.nextId, username, email, "", "", true, superuser, true);
      Outcome(db.(users := db.users + [u], nextId := db.nextId + 1), Ok(u))
  }

  function CreatePermission(db: Db, code: string, description: string): Outcome<Permission> {
    if Exists(db.permissions, CodeIs(code)) then Outcome(db, Err(Conflict))
    else if !Storable(code, 100) then Outcome(db, Err(DataRefused))
    else
      var p := Permission(db.nextId, code, description);
      Outcome(db.(permissions := db.permissions + [p], nextId := db.nextId + 1), Ok(p))
  }

  function GetOrCreatePermission(db: Db, code: string, description: string): Outcome<Permission> {
    match First(db.permissions, CodeIs(code))
    case Some(p) => Outcome(db, Ok(p))
    case None => CreatePermission(db, code, description)
  }

  // ---- Roles -----------------------------------------------------------------------------

  datatype DefaultRole = DefaultRole(slug: string, name: string, weight: nat)

  const DEFAULT_ROLES: seq<DefaultRole> :=
    [DefaultRole("owner", "Owner", 30), DefaultRole("admin", "Admin", 20), DefaultRole("member", "Member", 10)]

  function AddRole(db: Db, r: Role): Db {
    db.(roles := db.roles + [r], queue := db.queue + Created(RoleRow(r)), nextId := db.nextId + 1)
  }

  /** `Role.objects.get_or_create` for one default role. */
  function EnsureRole(db: Db, tenant: nat, d: DefaultRole, now: nat): Db {
    if First(db.roles, RoleIs(tenant, d.slug)).Some? then db
    else AddRole(db, Role(db.nextId, tenant, d.name, d.slug, true, d.weight, now))
  }

  function EnsureRoles(db: Db, tenant: nat, defaults: seq<DefaultRole>, now: nat): Db {
    if defaults == [] then db
    else EnsureRole(EnsureRoles(db, tenant, defaults[..|defaults| - 1], now), tenant, defaults[|defaults| - 1], now)
  }

  /** `related.add(*permissions)`: pairs that are already there are not repeated. */
  function AddGrants(grants: seq<Grant>, role: nat, permissions: seq<Permission>): seq<Grant> {
    if permissions == [] then grants
    else
      var rest := AddGrants(grants, role, permissions[..|permissions| - 1]);
      var g := Grant(role, permissions[|permissions| - 1].id);
      if g in rest then rest else rest + [g]
  }

  function StaleGrant(role: nat, permissions: seq<Permission>): Grant -> bool {
    (g: Grant) => g.role == role && g.permission !in (set p | p in permissions :: p.id)
  }

  /** `role.permissions.set(permissions)`. */
  function SetGrants(grants: seq<Grant>, role: nat, permissions: seq<Permission>): seq<Grant> {
    AddGrants(Unless(grants, StaleGrant(role, permissions)), role, permissions)
  }

  /** The requested codes that no permission has. */
  function MissingCodes(db: Db, codes: seq<string>): set<string> {
    (set c | c in codes) - (set p | p in Where(db.permissions, CodeIn(codes)) :: p.code)
  }

  const MAX_WEIGHT: int := 2147483647

  /** The columns of a role take these values. */
  predicate RoleStorable(name: string, slug: string, weight: int) {
    Storable(name, 100) && Storable(slug, 100) && 0 <= weight <= MAX_WEIGHT
  }

  predicate AllClean(codes: seq<string>) {
    forall c | c in codes :: Clean(c)
  }

  /** What follows the insert of a new role. The role is committed before the codes are looked up; a code that
      the query refuses leaves it there. */
  function EquipRole(db: Db, r: Role, codes: seq<string>): Outcome<Role> {
    var added := AddRole(db, r);
    if codes == [] then Outcome(added, Ok(r))
    else if !AllClean(codes) then Outcome(added, Err(DataRefused))
    else if MissingCodes(db, codes) != {} then
      Outcome(
        added.(roles := Unless(added.roles, RoleWithId(r.id)),
               queue := added.queue + [DeletedDelta(KeyOf(RoleRow(r)), TextOf(RoleRow(r)))]),
        Err(Validation))
    else
      Outcome(added.(grants := SetGrants(db.grants, r.id, Where(db.permissions, CodeIn(codes)))), Ok(r))
  }

  function CreateRole(
    db: Db, tenant: nat, name: string, slug: string, weight: int, codes: seq<string>, now: nat): Outcome<Role>
  {
    if Exists(db.roles, RoleIs(tenant, slug)) then Outcome(db, Err(Conflict))
    else if !RoleStorable(name, slug, weight) then Outcome(db, Err(DataRefused))
    else
      EquipRole(db, Role(db.nextId, tenant, name, slug, false, weight, now), codes)
  }

  // ---- Memberships -----------------------------------------------------------------------

  /** `UserTenantRole.objects.update_or_create` keyed by user and tenant. */
  function SeatMember(db: Db, user: nat, tenant: nat, role: nat, actor: Option<nat>, now: nat): (Db, Membership) {
    match First(db.members, SeatIs(user, tenant))
    case None =>
      var m := Membership(db.nextId, user, tenant, role, actor, now);
      (db.(members := db.members + [m], queue := db.queue + Created(MemberRow(m)), nextId := db.nextId + 1), m)
    case Some(old_) =>
      var m := old_.(role := role, assignedBy := actor);
      (db.(members := Replace(db.members, MemberId, m),
           queue := db.queue + Updated(MemberRow(old_), MemberRow(m))), m)
  }

  function AssignRole(db: Db, user: nat, tenant: nat, slug: string, actor: Option<nat>, now: nat): Outcome<Membership> {
    match First(db.roles, RoleIs(tenant, slug))
    case None => Outcome(db, Err(NotFound))
    case Some(r) =>
      var (seated, m) := SeatMember(db, user, tenant, r.id, actor, now);
      Outcome(seated.(events := db.events + [RoleAssigned(user, tenant, slug, actor)]), Ok(m))
  }

  /** A queryset delete on memberships: one delta for each row. */
  function DropMembers(db: Db, p: Membership -> bool): Db {
    db.(members := Unless(db.members, p), queue := db.queue + Deletions(Where(db.members, p)))
  }

  function RevokeRole(db: Db, user: nat, tenant: nat): Outcome<bool> {
    var dropped := DropMembers(db, SeatIs(user, tenant));
    if Where(db.members, SeatIs(user, tenant)) == [] then Outcome(dropped, Ok(false))
    else Outcome(dropped.(events := db.events + [RoleRevoked(user, tenant, None)]), Ok(true))
  }

  // ---- Feature flags ---------------------------------------------------------------------

  /** The value of `is_active` as the caller passes it: the toggle request hands over raw JSON.
      A float is zero up to its sign, which shows in its text. */
  datatype RawFlag =
    | RawBool(b: bool)
    | RawInt(n: int)
    | RawFloat(x: real, negativeZero: bool)
    | RawText(s: string)
    | RawNull
    | RawOther

  /** What the Boolean field makes of it; None is a refusal. */
  function ToPython(raw: RawFlag): Option<bool> {
    match raw
    case RawBool(b) => Some(b)
    case RawInt(n) => if n == 1 then Some(true) else if n == 0 then Some(false) else None
    case RawFloat(x, _) => if x == 1.0 then Some(true) else if x == 0.0 then Some(false) else None
    case RawText(s) =>
      if s in ["t", "True", "1"] then Some(true) else if s in ["f", "False", "0"] then Some(false) else None
    case _ => None
  }

  /** `str()` of the value held by the instance in memory, which saving does not convert. */
  function RawString(raw: RawFlag): string
    requires ToPython(raw).Some?
  {
    match raw
    case RawBool(b) => ShowBool(b)
    case RawInt(n) => if n == 1 then "1" else "0"
    case RawFloat(x, negativeZero) => if x == 1.0 then "1.0" else if negativeZero then "-0.0" else "0.0"
    case RawText(s) => s
  }

  /** The text the signals take of a flag instance that still holds the raw value. */
  function FlagText(f: Flag, raw: RawFlag): Fields
    requires ToPython(raw).Some?
  {
    TextOf(FlagRow(f))["is_active" := RawString(raw)]
  }

  function AddFlag(db: Db, f: Flag, raw: RawFlag): Db
    requires ToPython(raw).Some?
  {
    db.(flags := db.flags + [f],
        queue := db.queue + SavedDelta(true, KeyOf(FlagRow(f)), map[], FlagText(f, raw)),
        nextId := db.nextId + 1)
  }

  function SaveFlag(db: Db, stored: Flag, f: Flag, raw: RawFlag): Db
    requires ToPython(raw).Some?
  {
    db.(flags := Replace(db.flags, FlagId, f),
        queue := db.queue + SavedDelta(false, KeyOf(FlagRow(f)), TextOf(FlagRow(stored)), FlagText(f, raw)))
  }

  /** The name of a row that is there, or one that a new row takes. */
  predicate FlagNameOk(flags: seq<Flag>, tenant: Option<nat>, name: string) {
    Clean(name) && (|name| <= 100 || Where(flags, FlagIs(tenant, name)) != [])
  }

  /** A null reaches the column and violates it; other wrong values are refused by the field. */
  function SetFeature(db: Db, tenant: Option<nat>, name: string, raw: RawFlag, now: nat): Outcome<Flag> {
    var found := Where(db.flags, FlagIs(tenant, name));
    if !Clean(name) then Outcome(db, Err(DataRefused))
    else if |found| > 1 then Outcome(db, Err(MultipleObjects))
    else if ToPython(raw).None? && !raw.RawNull? then Outcome(db, Err(Validation))
    else if !FlagNameOk(db.flags, tenant, name) then Outcome(db, Err(DataRefused))
    else if raw.RawNull? then Outcome(db, Err(Integrity))
    else
      var active := ToPython(raw).value;
      if found == [] then
        var f := Flag(db.nextId, tenant, name, active, now, now);
        Outcome(AddFlag(db, f, raw), Ok(f))
      else
        var f := found[0].(isActive := active, updatedAt := now);
        Outcome(SaveFlag(db, found[0], f, raw), Ok(f))
  }

  // ---- Tenants ---------------------------------------------------------------------------

  /** The tenant insert, with the default roles its post-save signal creates. */
  function AddTenant(db: Db, t: Tenant, now: nat): Db {
    EnsureRoles(db.(tenants := db.tenants + [t]), t.id, DEFAULT_ROLES, now)
  }

  function AddDomain(db: Db, tenant: nat, host: string, isPrimary: bool): Db {
    db.(domains := db.domains + [Domain(db.nextId, tenant, host, isPrimary)], nextId := db.nextId + 1)
  }

  const HOST_LIMIT: nat := 253

  /** The tenant can be inserted: slug and host are free, and its own columns take the values. */
  predicate TenantInsertable(db: Db, name: string, slug: string, host: string) {
    && host != "" && Clean(host) && Storable(name, 255) && |slug| <= 100
    && !Exists(db.tenants, SchemaIs(slug)) && !Exists(db.tenants, SlugIs(slug)) && !Exists(db.domains, HostIs(host))
  }

  /** A failed atomic block: the tables of `before`, with what had been sent to the worker. */
  function RolledBack(before: Db, inside: Db): Db {
    before.(queue := inside.queue, nextId := inside.nextId)
  }

  /** `create_tenant` once the schema name is valid and the domain is trimmed. The tenant and its roles are
      inserted before the domain, whose column refuses a long host. */
  function InsertTenant(db: Db, name: string, slug: string, host: string, isPrimary: bool, now: nat): Outcome<Tenant>
  {
    if host == "" then Outcome(db, Err(Validation))
    else if Exists(db.tenants, SchemaIs(slug)) then Outcome(db, Err(Conflict))
    else if !Clean(host) then Outcome(db, Err(DataRefused))
    else if Exists(db.domains, HostIs(host)) then Outcome(db, Err(Conflict))
    else if !Storable(name, 255) || |slug| > 100 then Outcome(db, Err(DataRefused))
    else if Exists(db.tenants, SlugIs(slug)) then Outcome(db, Err(Integrity))
    else
      var t := Tenant(db.nextId, name, slug, slug, true);
      var inside := AddTenant(db.(nextId := db.nextId + 1), t, now);
      if |host| > HOST_LIMIT then Outcome(RolledBack(db, inside), Err(DataRefused))
      else Outcome(AddDomain(inside, t.id, host, isPrimary), Ok(t))
  }

  function CreateTenant(
    db: Db, name: string, schemaName: string, domain: string, isPrimary: bool, now: nat): Outcome<Tenant>
  {
    match ValidateSlug(schemaName)
    case Err(e) => Outcome(db, Err(e))
    case Ok(slug) => InsertTenant(db, Strip(name), slug, Lower(Strip(domain)), isPrimary, now)
  }

  // ---- Erasure ---------------------------------------------------------------------------

  datatype Erasure = Erasure(user: nat, notifications: nat, roles: nat, tokens: nat)

  /** Deleting a token also deletes, and counts, the blacklist row that hangs on it. */
  function RowCount(tokens: seq<Token>): nat {
    if tokens == [] then 0 else (if tokens[0].blacklisted then 2 else 1) + RowCount(tokens[1..])
  }

  function EraseChildren(db: Db, user: nat): Db {
    DropMembers(
      db.(tokens := Unless(db.tokens, IssuedTo(user)),
          notifications := Unless(db.notifications, NotifiedTo(user))),
      HeldBy(user))
  }

  function Report(db: Db, user: nat): Erasure {
    Erasure(
      user, |Where(db.notifications, NotifiedTo(user))|, |Where(db.members, HeldBy(user))|,
      RowCount(Where(db.tokens, IssuedTo(user))))
  }

  function Placeholder(u: User, tag: string): User {
    User(u.id, "deleted_" + tag, "deleted_" + tag + "@deleted.invalid", "", "", false, u.isSuperuser, false)
  }

  function OtherNamed(user: nat, username: string): User -> bool {
    (u: User) => u.id != user && u.username == username
  }

  function Anonymize(db: Db, u: User, tag: string): Outcome<Erasure> {
    var inside := EraseChildren(db, u.id);
    if Exists(db.users, OtherNamed(u.id, "deleted_" + tag)) then Outcome(RolledBack(db, inside), Err(Integrity))
    else Outcome(inside.(users := Replace(db.users, UserId, Placeholder(u, tag))), Ok(Report(db, u.id)))
  }

  function NullAssigner(user: nat, m: Membership): Membership {
    if m.assignedBy == Some(user) then m.(assignedBy := None) else m
  }

  function NullActor(user: nat, e: Event): Event {
    if e.actor == Some(user) then e.(actor := None) else e
  }

  /** `user.delete()` once no membership, notification or token of the user is left: references to
      the user become null, without any signal. */
  function DeleteUser(db: Db, user: nat): Db {
    db.(users := Unless(db.users, UserIs(user)),
        members := seq(|db.members|, i requires 0 <= i < |db.members| => NullAssigner(user, db.members[i])),
        events := seq(|db.events|, i requires 0 <= i < |db.events| => NullActor(user, db.events[i])),
        erased := db.erased + {user})
  }

  function HardDelete(db: Db, user: nat): Outcome<Erasure> {
    Outcome(DeleteUser(EraseChildren(db, user), user), Ok(Report(db, user)))
  }
}
