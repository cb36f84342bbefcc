/** The tables of the authorization store and the text that the audit signals take of a row. */
module AuthModel {

  import opened Rows
  import opened Text
  import opened DeltaLog

  datatype Tenant = Tenant(id: nat, name: string, slug: string, schemaName: string, isActive: bool)

  datatype Domain = Domain(id: nat, tenant: nat, domain: string, isPrimary: bool)

  datatype Permission = Permission(id: nat, code: string, description: string)

  datatype Role = Role(
    id: nat, tenant: nat, name: string, slug: string, isDefault: bool, weight: nat, createdAt: nat)

  /** A row of the role-permission join table. */
  datatype Grant = Grant(role: nat, permission: nat)

  /** `UserTenantRole`. */
  datatype Membership = Membership(
    id: nat, user: nat, tenant: nat, role: nat, assignedBy: Option<nat>, createdAt: nat)

  /** A flag without a tenant is global. */
  datatype Flag = Flag(
    id: nat, tenant: Option<nat>, name: string, isActive: bool, createdAt: nat, updatedAt: nat)

  datatype User = User(
    id: nat, username: string, email: string, firstName: string, lastName: string,
    isActive: bool, isSuperuser: bool, usablePassword: bool)

  datatype Notification = Notification(id: nat, user: nat, title: string)

  /** An outstanding token; a blacklist row hangs on it when `blacklisted`. */
  datatype Token = Token(id: nat, user: Option<nat>, blacklisted: bool)

  /** The audit rows that the service layer writes itself. */
  datatype Event =
    | RoleAssigned(user: nat, tenant: nat, role: string, actor: Option<nat>)
    | RoleRevoked(user: nat, tenant: nat, actor: Option<nat>)

  /** The whole store. `queue` holds the deltas sent to the log worker, `events` the rows written by
      the audit service, `nextId` bounds every identifier in use, and `erased` is a history
      variable: the users whose row was removed. */
  datatype Db = Db(
    tenants: seq<Tenant>,
    domains: seq<Domain>,
    permissions: seq<Permission>,
    roles: seq<Role>,
    grants: seq<Grant>,
    members: seq<Membership>,
    flags: seq<Flag>,
    users: seq<User>,
    notifications: seq<Notification>,
    tokens: seq<Token>,
    queue: seq<Delta>,
    events: seq<Event>,
    nextId: nat,
    erased: set<nat>)

  /** Identifiers 1 and 2 are the fixed identifiers of the demo tenants. */
  const FIRST_FREE_ID: nat := 3

  const EMPTY := Db([], [], [], [], [], [], [], [], [], [], [], [], FIRST_FREE_ID, {})

  // ---- Keys ------------------------------------------------------------------------------

  function TenantId(t: Tenant): nat { t.id }
  function TenantSlug(t: Tenant): string { t.slug }
  function DomainName(d: Domain): string { d.domain }
  function DomainId(d: Domain): nat { d.id }
  function PermissionId(p: Permission): nat { p.id }
  function PermissionCode(p: Permission): string { p.code }
  function RoleId(r: Role): nat { r.id }
  function RoleName(r: Role): (nat, string) { (r.tenant, r.slug) }
  function GrantItself(g: Grant): Grant { g }
  function MemberId(m: Membership): nat { m.id }
  function MemberSeat(m: Membership): (nat, nat) { (m.user, m.tenant) }
  function FlagId(f: Flag): nat { f.id }
  function FlagName(f: Flag): (Option<nat>, string) { (f.tenant, f.name) }
  function UserId(u: User): nat { u.id }
  function Username(u: User): string { u.username }

  // ---- Filters ---------------------------------------------------------------------------

  function TenantIs(id: nat): Tenant -> bool { (t: Tenant) => t.id == id }
  function SchemaIs(s: string): Tenant -> bool { (t: Tenant) => t.schemaName == s }
  function SlugIs(s: string): Tenant -> bool { (t: Tenant) => t.slug == s }
  function HostIs(host: string): Domain -> bool { (d: Domain) => d.domain == host }
  function CodeIs(code: string): Permission -> bool { (p: Permission) => p.code == code }
  function CodeIn(codes: seq<string>): Permission -> bool { (p: Permission) => p.code in codes }
  function RoleIs(tenant: nat, slug: string): Role -> bool {
    (r: Role) => r.tenant == tenant && r.slug == slug
  }
  function RoleWithId(id: nat): Role -> bool { (r: Role) => r.id == id }
  function SeatIs(user: nat, tenant: nat): Membership -> bool {
    (m: Membership) => m.user == user && m.tenant == tenant
  }
  function HeldBy(user: nat): Membership -> bool { (m: Membership) => m.user == user }
  function FlagIs(tenant: Option<nat>, name: string): Flag -> bool {
    (f: Flag) => f.tenant == tenant && f.name == name
  }
  function FlagOf(tenant: Option<nat>): Flag -> bool { (f: Flag) => f.tenant == tenant }
  function UserIs(id: nat): User -> bool { (u: User) => u.id == id }
  function NotifiedTo(user: nat): Notification -> bool { (n: Notification) => n.user == user }
  function IssuedTo(user: nat): Token -> bool { (t: Token) => t.user == Some(user) }

  // ---- The audited rows and their text ---------------------------------------------------

  /** A row of one of the three audited tables. */
  datatype Row = RoleRow(role: Role) | MemberRow(member: Membership) | FlagRow(flag: Flag)

  function KeyOf(x: Row): Key {
    match x
    case RoleRow(r) => Key(RoleModel, r.id)
    case MemberRow(m) => Key(MembershipModel, m.id)
    case FlagRow(f) => Key(FlagModel, f.id)
  }

  function ShowBool(b: bool): string { if b then "True" else "False" }

  function ShowRef(id: Option<nat>): string { if id.None? then "None" else ShowNat(id.value) }

  /** `field.value_to_string(row)` for each concrete field of the row. */
  function TextOf(x: Row): Fields {
    match x
    case RoleRow(r) => map[
      "id" := ShowNat(r.id), "tenant" := ShowNat(r.tenant), "name" := r.name, "slug" := r.slug,
      "is_default" := ShowBool(r.isDefault), "weight" := ShowNat(r.weight),
      "created_at" := ShowNat(r.createdAt)]
    case MemberRow(m) => map[
      "id" := ShowNat(m.id), "user" := ShowNat(m.user), "tenant" := ShowNat(m.tenant),
      "role" := ShowNat(m.role), "assigned_by" := ShowRef(m.assignedBy),
      "created_at" := ShowNat(m.createdAt)]
    case FlagRow(f) => map[
      "id" := ShowNat(f.id), "tenant" := ShowRef(f.tenant), "name" := f.name,
      "is_active" := ShowBool(f.isActive), "created_at" := ShowNat(f.createdAt),
      "updated_at" := ShowNat(f.updatedAt)]
  }

  lemma ShowRefInjective(a: Option<nat>, b: Option<nat>)
    ensures ShowRef(a) == ShowRef(b) ==> a == b
  {
    ShowNatInjective(if a.Some? then a.value else 0, if b.Some? then b.value else 0);
    ShowNatInjective(if b.Some? then b.value else 0, if a.Some? then a.value else 0);
  }

  /** The text of a row determines the row. */
  lemma TextDeterminesRow(x: Row, y: Row)
    requires KeyOf(x).model == KeyOf(y).model && TextOf(x) == TextOf(y)
    ensures x == y
  {
    var s, t := TextOf(x), TextOf(y);
    match x
    case RoleRow(r) =>
      var q := y.role;
      assert s["id"] == t["id"] && s["tenant"] == t["tenant"] && s["name"] == t["name"] &&
        s["slug"] == t["slug"] && s["is_default"] == t["is_default"] &&
        s["weight"] == t["weight"] && s["created_at"] == t["created_at"];
      ShowNatInjective(r.id, q.id);
      ShowNatInjective(r.tenant, q.tenant);
      ShowNatInjective(r.weight, q.weight);
      ShowNatInjective(r.createdAt, q.createdAt);
    case MemberRow(m) =>
      var n := y.member;
      assert s["id"] == t["id"] && s["user"] == t["user"] && s["tenant"] == t["tenant"] &&
        s["role"] == t["role"] && s["assigned_by"] == t["assigned_by"] &&
        s["created_at"] == t["created_at"];
      ShowNatInjective(m.id, n.id);
      ShowNatInjective(m.user, n.user);
      ShowNatInjective(m.tenant, n.tenant);
      ShowNatInjective(m.role, n.role);
      ShowRefInjective(m.assignedBy, n.assignedBy);
      ShowNatInjective(m.createdAt, n.createdAt);
    case FlagRow(f) =>
      var g := y.flag;
      assert s["id"] == t["id"] && s["tenant"] == t["tenant"] && s["name"] == t["name"] &&
        s["is_active"] == t["is_active"] && s["created_at"] == t["created_at"] &&
        s["updated_at"] == t["updated_at"];
      ShowNatInjective(f.id, g.id);
      ShowRefInjective(f.tenant, g.tenant);
      ShowNatInjective(f.createdAt, g.createdAt);
      ShowNatInjective(f.updatedAt, g.updatedAt);
  }

  /** All audited rows of a store. */
  ghost function RowsOf(db: Db): set<Row> {
    (set r | r in db.roles :: RoleRow(r)) +
    (set m | m in db.members :: MemberRow(m)) +
    (set f | f in db.flags :: FlagRow(f))
  }

  ghost predicate OneRowPerKey(rows: set<Row>) {
    OnePerKey(rows, KeyOf)
  }

  /** The audited tables as text. */
  ghost function Snapshot(rows: set<Row>): Tables
    requires OneRowPerKey(rows)
  {
    Tabulate(rows, KeyOf, TextOf)
  }

  // ---- What the log cannot tell apart ----------------------------------------------------

  /** The text of a Boolean field once the database has converted it. */
  function StoredBool(s: string): string {
    if s in ["t", "True", "1", "1.0"] then "True"
    else if s in ["f", "False", "0", "0.0", "-0.0"] then "False"
    else s
  }

  /** Reads a logged text as the tables hold it: a reference to an erased user is null, and a
      Boolean has its stored spelling. */
  ghost function Canonical(erased: set<nat>): Rewrite {
    (field, text) =>
      if field == "assigned_by" && (exists u | u in erased :: ShowNat(u) == text) then "None"
      else if field == "is_active" then StoredBool(text)
      else text
  }

  /** Reads a logged text as it is written. */
  ghost function Verbatim(): Rewrite {
    (field, text) => text
  }

  /** The two ways of reading a log. */
  ghost function Reading(exact: bool, erased: set<nat>): Rewrite {
    if exact then Verbatim() else Canonical(erased)
  }

  lemma VerbatimLog(log: seq<Delta>)
    ensures OnLog(Verbatim(), log) == log
  {
    forall i | 0 <= i < |log| ensures OnDelta(Verbatim(), log[i]) == log[i] {
      match log[i]
      case Create(_, after) => assert OnFields(Verbatim(), after) == after;
      case Update(_, before, after) =>
        assert OnFields(Verbatim(), after) == after && OnBefore(Verbatim(), before) == before;
      case Delete(_, gone) => assert OnFields(Verbatim(), gone) == gone;
    }
  }

  lemma CanonicalCoarser(a: set<nat>, b: set<nat>)
    requires a <= b
    ensures Coarser(Canonical(b), Canonical(a))
  {
    forall f, x ensures Canonical(b)(f, Canonical(a)(f, x)) == Canonical(b)(f, x) {
      if f == "assigned_by" && exists u | u in a :: ShowNat(u) == x {
        forall u | u in b ensures ShowNat(u) != "None" { ShowNatInjective(u, u); }
      }
    }
  }
}
