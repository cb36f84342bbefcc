/** From a signal or a service to a row of the audit table, and back: the table's columns hold the deltas
    and the role events, in order, however the calls and the worker interleave. */
module AuditTrail {

  import opened Rows
  import opened Text
  import opened DeltaLog
  import opened AuthModel

  // ---- The audit table -------------------------------------------------------------------

  /** The JSON of the `changes` column: objects of texts and nulls. */
  type Changes = map<string, map<string, Option<string>>>

  type Metadata = map<string, string>

  /** The columns of the audit table, besides its identifier and timestamp. */
  datatype LogRow = LogRow(
    tenant: Option<nat>, actor: Option<nat>, actorEmail: string, action: string, resourceType: string,
    resourceId: string, metadata: Metadata, changes: Changes, ip: Option<string>, userAgent: string)

  /** The arguments of `write_audit_log`, as queued; the references are not resolved yet. */
  type Job = LogRow

  function ModelName(m: Model): string {
    match m
    case RoleModel => "Role"
    case MembershipModel => "UserTenantRole"
    case FlagModel => "FeatureFlag"
  }

  function ModelNamed(name: string): Option<Model> {
    if name == "Role" then Some(RoleModel)
    else if name == "UserTenantRole" then Some(MembershipModel)
    else if name == "FeatureFlag" then Some(FlagModel)
    else None
  }

  // ---- Deltas as rows --------------------------------------------------------------------

  /** Everything in a queued message that does not describe the change. */
  datatype Header = Header(
    tenant: Option<nat>, actor: Option<nat>, actorEmail: string, ip: Option<string>, userAgent: string)

  function ActionOf(d: Delta): string {
    match d
    case Create(_, _) => "create"
    case Update(_, _, _) => "update"
    case Delete(_, _) => "delete"
  }

  /** A row's texts as a JSON object. */
  function Texts(row: Fields): map<string, Option<string>> {
    map f | f in row :: Some(row[f])
  }

  function ChangesOf(d: Delta): Changes {
    match d
    case Create(_, after) => map["after" := Texts(after)]
    case Update(_, before, after) => map["before" := before, "after" := Texts(after)]
    case Delete(_, gone) => map["before" := Texts(gone)]
  }

  function JobOf(h: Header, d: Delta): Job {
    LogRow(h.tenant, h.actor, h.actorEmail, ActionOf(d), ModelName(d.key.model), ShowNat(d.key.pk), map[],
           ChangesOf(d), h.ip, h.userAgent)
  }

  /** The texts of a JSON object, without its nulls. */
  function ReadTexts(o: map<string, Option<string>>): Fields {
    map f | f in o && o[f].Some? :: o[f].value
  }

  function ReadChange(action: string, key: Key, changes: Changes): Option<Delta> {
    if action == "create" && "after" in changes then Some(Create(key, ReadTexts(changes["after"])))
    else if action == "update" && "before" in changes && "after" in changes then
      Some(Update(key, changes["before"], ReadTexts(changes["after"])))
    else if action == "delete" && "before" in changes then Some(Delete(key, ReadTexts(changes["before"])))
    else None
  }

  /** The delta that a row records, if its action is one of the three. */
  function DeltaOf(row: LogRow): Option<Delta> {
    match ModelNamed(row.resourceType)
    case None => None
    case Some(m) =>
      var pk := ReadNat(row.resourceId);
      if pk < 0 then None else ReadChange(row.action, Key(m, pk), row.changes)
  }

  lemma ReadTextsBack(row: Fields)
    ensures ReadTexts(Texts(row)) == row
  {
  }

  lemma ModelBack(m: Model)
    ensures ModelNamed(ModelName(m)) == Some(m)
  {
  }

  lemma ChangeBack(d: Delta)
    ensures ReadChange(ActionOf(d), d.key, ChangesOf(d)) == Some(d)
  {
    match d
    case Create(_, after) => ReadTextsBack(after);
    case Update(_, before, after) => ReadTextsBack(after);
    case Delete(_, gone) => ReadTextsBack(gone);
  }

  /** Reading a row back gives the delta that was sent, whatever the header and however the references of
      the row were resolved. */
  lemma DeltaRoundTrip(h: Header, d: Delta, tenant: Option<nat>, actor: Option<nat>, ip: Option<string>)
    ensures DeltaOf(JobOf(h, d).(tenant := tenant, actor := actor, ip := ip)) == Some(d)
  {
    ReadShow(d.key.pk);
    ModelBack(d.key.model);
    ChangeBack(d);
  }

  // ---- The header of a signal ------------------------------------------------------------

  /** The request that the signals run under: its user, if authenticated, and its host's tenant. */
  datatype Context = Context(user: Option<User>, tenant: Option<nat>, ip: Option<string>, userAgent: string)

  /** The tenant of the row if it has one, else the tenant of the request. */
  function TenantOf(x: Row, ctx: Context): Option<nat> {
    match x
    case RoleRow(r) => Some(r.tenant)
    case MemberRow(m) => Some(m.tenant)
    case FlagRow(f) => if f.tenant.Some? then f.tenant else ctx.tenant
  }

  function HeaderFor(x: Row, ctx: Context): Header {
    Header(TenantOf(x, ctx),
           if ctx.user.Some? then Some(ctx.user.value.id) else None,
           if ctx.user.Some? then ctx.user.value.email else "",
           ctx.ip, ctx.userAgent)
  }

  const NO_REQUEST := Context(None, None, None, "")

  /** Only a change to a global flag can be filed under a tenant that its row does not name: it is
      filed under the tenant of the request. */
  lemma FiledUnderOwnTenant(x: Row, ctx: Context, d: Delta)
    ensures JobOf(HeaderFor(x, ctx), d).tenant == TenantOf(x, NO_REQUEST) <==>
      !(x.FlagRow? && x.flag.tenant.None? && ctx.tenant.Some?)
  {
  }

  // ---- Events as rows --------------------------------------------------------------------

  const ROLE_ASSIGNED := "role_assigned"
  const ROLE_REVOKED := "role_revoked"

  /** The row that the role service has the audit service write. */
  function EventRow(e: Event, actorEmail: string, targetEmail: string): LogRow {
    var metadata: Metadata :=
      if e.RoleAssigned? then map["role" := e.role, "target_email" := targetEmail]
      else map["target_email" := targetEmail];
    LogRow(Some(e.tenant), e.actor, actorEmail, if e.RoleAssigned? then ROLE_ASSIGNED else ROLE_REVOKED, "User",
           ShowNat(e.user), metadata, map[], None, "")
  }

  function EventOf(row: LogRow): Option<Event> {
    var user := ReadNat(row.resourceId);
    if row.tenant.None? || user < 0 then None
    else if row.action == ROLE_ASSIGNED && "role" in row.metadata then
      Some(RoleAssigned(user, row.tenant.value, row.metadata["role"], row.actor))
    else if row.action == ROLE_REVOKED then Some(RoleRevoked(user, row.tenant.value, row.actor))
    else None
  }

  /** Reading the row of an event back gives the event and no change. */
  lemma EventRoundTrip(e: Event, actorEmail: string, targetEmail: string)
    ensures EventOf(EventRow(e, actorEmail, targetEmail)) == Some(e)
    ensures DeltaOf(EventRow(e, actorEmail, targetEmail)) == None
  {
    ReadShow(e.user);
  }

  /** What the columns of such a row say. */
  lemma EventColumns(e: Event, actorEmail: string, targetEmail: string)
    ensures var row := EventRow(e, actorEmail, targetEmail);
      && row.action == (if e.RoleAssigned? then "role_assigned" else "role_revoked")
      && row.resourceType == "User" && row.resourceId == ShowNat(e.user)
      && row.tenant == Some(e.tenant) && row.actor == e.actor && row.actorEmail == actorEmail
      && "target_email" in row.metadata && row.metadata["target_email"] == targetEmail
  {
  }

  /** A row with none of the five actions, such as a login. */
  predicate Unrelated(row: LogRow) {
    row.action !in ["create", "update", "delete", ROLE_ASSIGNED, ROLE_REVOKED]
  }

  lemma UnrelatedRow(row: LogRow)
    requires Unrelated(row)
    ensures DeltaOf(row) == None && EventOf(row) == None
  {
  }

  // ---- Reading a mixed table -------------------------------------------------------------

  function Present<T>(x: Option<T>): seq<T> {
    if x.Some? then [x.value] else []
  }

  /** What `f` reads in the rows of a table, oldest first. */
  function Select<R, T>(f: R -> Option<T>, log: seq<R>): seq<T> {
    if log == [] then [] else Select(f, log[..|log| - 1]) + Present(f(log[|log| - 1]))
  }

  /** The deltas in a table, selected by action. */
  function DeltasIn(log: seq<LogRow>): seq<Delta> {
    Select(DeltaOf, log)
  }

  function EventsIn(log: seq<LogRow>): seq<Event> {
    Select(EventOf, log)
  }

  lemma SelectOne<R, T>(f: R -> Option<T>, log: seq<R>, row: R)
    ensures Select(f, log + [row]) == Select(f, log) + Present(f(row))
  {
    assert (log + [row])[..|log|] == log;
  }

  lemma {:induction false} SelectAll<R, T>(f: R -> Option<T>, log: seq<R>, rows: seq<R>, xs: seq<T>)
    requires |rows| == |xs| && forall i | 0 <= i < |rows| :: f(rows[i]) == Some(xs[i])
    ensures Select(f, log + rows) == Select(f, log) + xs
  {
    if rows == [] {
      assert log + rows == log;
    } else {
      var init, row, x := rows[..|rows| - 1], rows[|rows| - 1], xs[|rows| - 1];
      assert log + rows == (log + init) + [row];
      assert xs == xs[..|rows| - 1] + [x];
      SelectAll(f, log, init, xs[..|rows| - 1]);
      SelectOne(f, log + init, row);
    }
  }

  lemma {:induction false} SelectNone<R, T>(f: R -> Option<T>, log: seq<R>, rows: seq<R>)
    requires forall i | 0 <= i < |rows| :: f(rows[i]) == None
    ensures Select(f, log + rows) == Select(f, log)
  {
    if rows == [] {
      assert log + rows == log;
    } else {
      var init, row := rows[..|rows| - 1], rows[|rows| - 1];
      assert log + rows == (log + init) + [row];
      SelectNone(f, log, init);
      SelectOne(f, log + init, row);
    }
  }

  function MapOption<T>(h: T -> T, x: Option<T>): Option<T> {
    if x.Some? then Some(h(x.value)) else None
  }

  function MapAll<T>(h: T -> T, xs: seq<T>): seq<T> {
    seq(|xs|, i requires 0 <= i < |xs| => h(xs[i]))
  }

  lemma {:induction false} SelectMapped<R, T>(f: R -> Option<T>, log: seq<R>, log': seq<R>, h: T -> T)
    requires |log'| == |log| && forall i | 0 <= i < |log| :: f(log'[i]) == MapOption(h, f(log[i]))
    ensures Select(f, log') == MapAll(h, Select(f, log))
  {
    if log != [] {
      SelectMapped(f, log[..|log| - 1], log'[..|log| - 1], h);
    }
  }

  /** A message filed by the worker: a reference to a row that is gone by now becomes null. */
  function Resolved(id: Option<nat>, known: set<nat>): Option<nat> {
    if id.Some? && id.value in known then id else None
  }

  /** The row of a message; an empty address is stored as a null. */
  function RowFor(job: Job, tenants: set<nat>, users: set<nat>): LogRow {
    job.(tenant := Resolved(job.tenant, tenants), actor := Resolved(job.actor, users),
         ip := if job.ip == Some("") then None else job.ip)
  }

  /** The database's reading of an address; any text may come from a request. */
  type AddressParser = string -> bool

  /** The table's columns take the row: a non-empty address is one, and the other texts from outside fit. */
  predicate Acceptable(inet: AddressParser, row: LogRow) {
    && (row.ip.Some? && row.ip.value != "" ==> inet(row.ip.value))
    && Storable(row.actorEmail, 254) && Clean(row.userAgent)
  }

  /** What the worker adds to the table for a message: a row, or nothing when the insert raises. */
  function Filing(inet: AddressParser, job: Job, tenants: set<nat>, users: set<nat>): seq<LogRow> {
    if Acceptable(inet, job) then [RowFor(job, tenants, users)] else []
  }

  /** The message carries the delta. */
  ghost predicate CarriesDelta(job: Job, d: Delta) {
    exists h :: job == JobOf(h, d)
  }

  lemma FiledRow(job: Job, d: Delta, tenants: set<nat>, users: set<nat>)
    requires CarriesDelta(job, d)
    ensures DeltaOf(RowFor(job, tenants, users)) == Some(d) && EventOf(RowFor(job, tenants, users)) == None
  {
    var h :| job == JobOf(h, d);
    DeltaRoundTrip(h, d, Resolved(job.tenant, tenants), Resolved(job.actor, users), RowFor(job, tenants, users).ip);
  }

  /** What the table says of a change that was sent under a request and filed later. It names the tenant of the row,
      or for a global flag that of the request, and the request's user, each as long as it still exists; the e-mail
      address stays, and an empty address of the network is none. */
  lemma FiledChange(x: Row, ctx: Context, d: Delta, tenants: set<nat>, users: set<nat>)
    requires d.key == KeyOf(x)
    ensures var row := RowFor(JobOf(HeaderFor(x, ctx), d), tenants, users);
      var own := if x.RoleRow? then Some(x.role.tenant) else if x.MemberRow? then Some(x.member.tenant)
                 else x.flag.tenant;
      && (forall t :: row.tenant == Some(t) <==> t in tenants && Some(t) == if own.Some? then own else ctx.tenant)
      && (forall u :: row.actor == Some(u) <==> u in users && ctx.user.Some? && ctx.user.value.id == u)
      && row.actorEmail == (if ctx.user.Some? then ctx.user.value.email else "")
      && (forall a :: row.ip == Some(a) <==> ctx.ip == Some(a) && a != "")
      && row.action == (if d.Create? then "create" else if d.Update? then "update" else "delete")
      && row.resourceType ==
        (if x.RoleRow? then "Role" else if x.MemberRow? then "UserTenantRole" else "FeatureFlag")
      && row.resourceId == ShowNat(d.key.pk) && row.userAgent == ctx.userAgent
      && DeltaOf(row) == Some(d)
  {
    FiledRow(JobOf(HeaderFor(x, ctx), d), d, tenants, users);
  }
}
