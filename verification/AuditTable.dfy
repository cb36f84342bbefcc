/** The audit table at work: calls, the worker and other writers interleave on it, and it alone rebuilds
    the audited tables and the role events. */
module AuditTable {

  import opened Rows
  import opened Text
  import opened DeltaLog
  import opened AuthModel
  import opened Services
  import opened StoreInvariant
  import opened AuditReplay
  import opened Seeding
  import opened Runs
  import opened AuditTrail
  import TwoLogs

  // ---- What a call does to the events ----------------------------------------------------

  function NullEvent(gone: set<nat>, e: Event): Event {
    if e.actor.Some? && e.actor.value in gone then e.(actor := None) else e
  }

  function NullEvents(gone: set<nat>, events: seq<Event>): seq<Event> {
    MapAll(e => NullEvent(gone, e), events)
  }

  /** Events are only appended, and lose the actors that a call erases. */
  ghost predicate EventsGrow(db: Db, db': Db) {
    && |db.events| <= |db'.events|
    && db'.events[..|db.events|] == NullEvents(db'.erased - db.erased, db.events)
  }

  lemma QuietEvents(db: Db, db': Db)
    requires db'.erased == db.erased && db.events <= db'.events
    ensures EventsGrow(db, db')
  {
    assert db'.erased - db.erased == {};
  }

  lemma HardDeleteEvents(db: Db, user: nat)
    requires Inv(db) && IsUser(db.users, user)
    ensures EventsGrow(db, HardDelete(db, user).db)
  {
    var db' := HardDelete(db, user).db;
    assert db'.erased - db.erased == {user};
  }

  lemma SeedEvents(db: Db, now: nat)
    requires Inv(db)
    ensures EventsGrow(db, Seed(db, now).db)
  {
    if SeedInside(db, now).result.Ok? {
      var tenants := SeedTenants(EnsurePermissions(db, PERMISSION_CODES), now).db;
      SeedTenantsQuiet(db, now);
      SeedAdminQuiet(tenants, now);
    }
    QuietEvents(db, Seed(db, now).db);
  }

  lemma SeedTenantsQuiet(db: Db, now: nat)
    requires Inv(db)
    ensures var db' := SeedTenants(EnsurePermissions(db, PERMISSION_CODES), now).db;
      Inv(db') && db'.events == db.events && db'.erased == db.erased
  {
    var zeroth := EnsurePermissions(db, PERMISSION_CODES);
    DemoPermissionsCarry(db);
    EnsurePermissionsFrame(db, PERMISSION_CODES);
    SeedTenantsCarries(zeroth, now);
    SeedTenantsFrame(zeroth, now);
    TwoLogs.SeedTenantsEvents(zeroth, now);
  }

  lemma SeedAdminQuiet(db: Db, now: nat)
    requires Inv(db)
    ensures db.events <= SeedAdmin(db, now).db.events && SeedAdmin(db, now).db.erased == db.erased
  {
    UpsertAdminCarries(db);
  }

  lemma StepEvents(db: Db, s: Step)
    requires Inv(db) && Enabled(db, s.call)
    ensures EventsGrow(db, Next(db, s))
  {
    match s.call
    case HardDeleteCall(user) => HardDeleteEvents(db, user);
    case SeedCall => SeedEvents(db, s.now);
    case AssignRoleCall(_, _, _, _) => QuietEvents(db, Next(db, s));
    case RevokeRoleCall(_, _) => QuietEvents(db, Next(db, s));
    case AnonymizeCall(_, _) => QuietEvents(db, Next(db, s));
    case _ =>
      TwoLogs.OtherCallFrame(db, s);
      QuietEvents(db, Next(db, s));
  }

  // ---- The machine -----------------------------------------------------------------------

  /** A call under way, with the headers of the messages it sends. */
  datatype Running = Running(step: Step, headers: seq<Header>)

  /** The store as committed and the calls that led to it, the call under way, the messages sent so far, how
      many of them the worker has taken, and the audit table. */
  datatype Trail = Trail(
    db: Db, done: seq<Step>, call: Option<Running>, jobs: seq<Job>, filed: nat, table: seq<LogRow>)

  datatype Move =
    | Begin(step: Step, headers: seq<Header>)
    | Send
    | Finish
    | File
    | Note(row: LogRow)

  const START := Trail(EMPTY, [], None, [], 0, [])

  function HeaderAt(headers: seq<Header>, i: nat): Header {
    if i < |headers| then headers[i] else Header(None, None, "", None, "")
  }

  function JobsFor(headers: seq<Header>, ds: seq<Delta>): seq<Job> {
    seq(|ds|, i requires 0 <= i < |ds| => JobOf(HeaderAt(headers, i), ds[i]))
  }

  function EmailOf(db: Db, user: Option<nat>): string {
    if user.None? then ""
    else match First(db.users, UserIs(user.value))
      case Some(u) => u.email
      case None => ""
  }

  function EventRows(db: Db, events: seq<Event>): seq<LogRow> {
    seq(|events|, i requires 0 <= i < |events| =>
      EventRow(events[i], EmailOf(db, events[i].actor), EmailOf(db, Some(events[i].user))))
  }

  function NullRow(gone: set<nat>, row: LogRow): LogRow {
    if row.actor.Some? && row.actor.value in gone then row.(actor := None) else row
  }

  function NullRows(gone: set<nat>, log: seq<LogRow>): seq<LogRow> {
    seq(|log|, i requires 0 <= i < |log| => NullRow(gone, log[i]))
  }

  function TenantIds(db: Db): set<nat> { set t | t in db.tenants :: t.id }

  function UserIds(db: Db): set<nat> { set u | u in db.users :: u.id }

  /** The store that the call under way leads to. */
  function Target(t: Trail): Db {
    if t.call.None? then t.db else Next(t.db, t.call.value.step)
  }

  /** The next delta of a call that leads to `queue` is sent. */
  function AfterSending(t: Trail, queue: seq<Delta>): Trail {
    var n := |t.jobs|;
    if t.call.Some? && |t.db.queue| <= n < |queue| then
      t.(jobs := t.jobs + [JobOf(HeaderAt(t.call.value.headers, n - |t.db.queue|), queue[n])])
    else t
  }

  /** A call sends its deltas one at a time, with any headers; when it ends, its changes are there and its
      events are written, and erased actors become null. The worker takes the oldest message at any moment,
      also between two that one call sends, and sees what is committed. Any other row may be noted. */
  function Advance(inet: AddressParser, t: Trail, m: Move): Trail {
    match m
    case Begin(step, headers) => if t.call.None? then t.(call := Some(Running(step, headers))) else t
    case Send => AfterSending(t, Target(t).queue)
    case Finish =>
      var db' := Target(t);
      if t.call.Some? && |t.jobs| == |db'.queue| && |t.db.events| <= |db'.events| then
        t.(db := db', done := t.done + [t.call.value.step], call := None,
           table := NullRows(db'.erased - t.db.erased, t.table) + EventRows(db', db'.events[|t.db.events|..]))
      else t
    case File =>
      if t.filed >= |t.jobs| then t
      else t.(filed := t.filed + 1,
              table := t.table + Filing(inet, t.jobs[t.filed], TenantIds(t.db), UserIds(t.db)))
    case Note(row) => if Unrelated(row) then t.(table := t.table + [row]) else t
  }

  function Reached(inet: AddressParser, moves: seq<Move>): Trail {
    if |moves| == 0 then START else Advance(inet, Reached(inet, moves[..|moves| - 1]), moves[|moves| - 1])
  }

  /** The calls that ended, and the one under way. */
  function Calls(t: Trail): seq<Step> {
    t.done + if t.call.Some? then [t.call.value.step] else []
  }

  /** The first `n` deltas without those whose message the table refuses. */
  function Accepted(inet: AddressParser, jobs: seq<Job>, queue: seq<Delta>, n: nat): (r: seq<Delta>)
    requires n <= |jobs| && n <= |queue|
    ensures |r| <= n
  {
    if n == 0 then []
    else Accepted(inet, jobs, queue, n - 1) + if Acceptable(inet, jobs[n - 1]) then [queue[n - 1]] else []
  }

  lemma {:induction false} AcceptedPrefix(
    inet: AddressParser, jobs: seq<Job>, queue: seq<Delta>, jobs': seq<Job>, queue': seq<Delta>, n: nat)
    requires n <= |jobs| && n <= |queue| && jobs <= jobs' && queue <= queue'
    ensures Accepted(inet, jobs', queue', n) == Accepted(inet, jobs, queue, n)
  {
    if n > 0 {
      AcceptedPrefix(inet, jobs, queue, jobs', queue', n - 1);
    }
  }

  /** Nothing is missing exactly when no message was refused. */
  lemma {:induction false} NothingMissing(inet: AddressParser, jobs: seq<Job>, queue: seq<Delta>, n: nat)
    requires n <= |jobs| && n <= |queue|
    ensures Accepted(inet, jobs, queue, n) == queue[..n] <==> forall i | 0 <= i < n :: Acceptable(inet, jobs[i])
    ensures |Accepted(inet, jobs, queue, n)| == n ==> forall i | 0 <= i < n :: Acceptable(inet, jobs[i])
  {
    if n > 0 {
      NothingMissing(inet, jobs, queue, n - 1);
      assert queue[..n] == queue[..n - 1] + [queue[n - 1]];
    }
  }

  /** Where `queue` is that of the store which the call under way leads to. */
  ghost predicate Sent(t: Trail, queue: seq<Delta>) {
    && |t.db.queue| <= |t.jobs| <= |queue| && t.filed <= |t.jobs| && t.db.queue <= queue
    && (t.call.None? ==> |t.jobs| == |t.db.queue|)
    && (forall i | 0 <= i < |t.jobs| :: CarriesDelta(t.jobs[i], queue[i]))
  }

  ghost predicate Holds(inet: AddressParser, t: Trail, queue: seq<Delta>)
    requires Sent(t, queue)
  {
    && DeltasIn(t.table) == Accepted(inet, t.jobs, queue, t.filed)
    && EventsIn(t.table) == t.db.events
  }

  ghost predicate Kept(inet: AddressParser, t: Trail) {
    && Inv(t.db) && t.db == Exec(EMPTY, t.done)
    && (t.call.Some? ==> Enabled(t.db, t.call.value.step.call))
    && Sent(t, Target(t).queue) && Holds(inet, t, Target(t).queue)
  }

  lemma NulledTable(gone: set<nat>, log: seq<LogRow>)
    ensures DeltasIn(NullRows(gone, log)) == DeltasIn(log)
    ensures EventsIn(NullRows(gone, log)) == NullEvents(gone, EventsIn(log))
  {
    var log' := NullRows(gone, log);
    forall i | 0 <= i < |log|
      ensures DeltaOf(log'[i]) == MapOption((d: Delta) => d, DeltaOf(log[i]))
      ensures EventOf(log'[i]) == MapOption(e => NullEvent(gone, e), EventOf(log[i]))
    {
      NulledRow(gone, log[i]);
    }
    SelectMapped(DeltaOf, log, log', (d: Delta) => d);
    SelectMapped(EventOf, log, log', e => NullEvent(gone, e));
  }

  lemma NulledRow(gone: set<nat>, row: LogRow)
    ensures DeltaOf(NullRow(gone, row)) == DeltaOf(row)
    ensures EventOf(NullRow(gone, row)) == MapOption(e => NullEvent(gone, e), EventOf(row))
  {
  }

  lemma EventsWritten(log: seq<LogRow>, db: Db, events: seq<Event>)
    ensures DeltasIn(log + EventRows(db, events)) == DeltasIn(log)
    ensures EventsIn(log + EventRows(db, events)) == EventsIn(log) + events
  {
    var rows := EventRows(db, events);
    forall i | 0 <= i < |rows| ensures DeltaOf(rows[i]) == None && EventOf(rows[i]) == Some(events[i]) {
      EventRoundTrip(events[i], EmailOf(db, events[i].actor), EmailOf(db, Some(events[i].user)));
    }
    SelectNone(DeltaOf, log, rows);
    SelectAll(EventOf, log, rows, events);
  }

  lemma TableServed(table: seq<LogRow>, db: Db, db': Db)
    requires EventsIn(table) == db.events && EventsGrow(db, db')
    ensures var table' := NullRows(db'.erased - db.erased, table) + EventRows(db', db'.events[|db.events|..]);
      DeltasIn(table') == DeltasIn(table) && EventsIn(table') == db'.events
  {
    var gone, n := db'.erased - db.erased, |db.events|;
    assert db'.events == db'.events[..n] + db'.events[n..];
    NulledTable(gone, table);
    EventsWritten(NullRows(gone, table), db', db'.events[n..]);
  }

  lemma MessageTaken(
    inet: AddressParser, table: seq<LogRow>, job: Job, d: Delta, tenants: set<nat>, users: set<nat>)
    requires CarriesDelta(job, d)
    ensures var table' := table + Filing(inet, job, tenants, users);
      && DeltasIn(table') == DeltasIn(table) + (if Acceptable(inet, job) then [d] else [])
      && EventsIn(table') == EventsIn(table)
  {
    var row := RowFor(job, tenants, users);
    if Acceptable(inet, job) {
      FiledRow(job, d, tenants, users);
      SelectOne(DeltaOf, table, row);
      SelectOne(EventOf, table, row);
    } else {
      assert table + [] == table;
    }
  }

  lemma RowNoted(table: seq<LogRow>, row: LogRow)
    requires Unrelated(row)
    ensures DeltasIn(table + [row]) == DeltasIn(table) && EventsIn(table + [row]) == EventsIn(table)
  {
    UnrelatedRow(row);
    SelectNone(DeltaOf, table, [row]);
    SelectNone(EventOf, table, [row]);
  }

  lemma BeginKept(inet: AddressParser, t: Trail, step: Step, headers: seq<Header>)
    requires Kept(inet, t) && t.call.None? && Enabled(t.db, step.call)
    ensures Kept(inet, Advance(inet, t, Begin(step, headers)))
  {
    StepLater(t.db, step);
    AcceptedPrefix(inet, t.jobs, t.db.queue, t.jobs, Next(t.db, step).queue, t.filed);
  }

  lemma OneSent(inet: AddressParser, t: Trail, queue: seq<Delta>)
    requires Sent(t, queue) && Holds(inet, t, queue)
    ensures var t' := AfterSending(t, queue);
      && t'.db == t.db && t'.done == t.done && t'.call == t.call
      && Sent(t', queue) && Holds(inet, t', queue)
  {
    AcceptedPrefix(inet, t.jobs, queue, AfterSending(t, queue).jobs, queue, t.filed);
  }

  lemma SendKept(inet: AddressParser, t: Trail)
    requires Kept(inet, t)
    ensures Kept(inet, Advance(inet, t, Send))
  {
    OneSent(inet, t, Target(t).queue);
  }

  lemma FinishKept(inet: AddressParser, t: Trail)
    requires Kept(inet, t) && AlwaysEnabled(Calls(t))
    ensures Kept(inet, Advance(inet, t, Finish))
  {
    if t.call.Some? {
      var step := t.call.value.step;
      InvStep(t.db, step);
      StepEvents(t.db, step);
      TableServed(t.table, t.db, Next(t.db, step));
      assert (t.done + [step])[..|t.done|] == t.done;
    }
  }

  lemma FileKept(inet: AddressParser, t: Trail)
    requires Kept(inet, t)
    ensures Kept(inet, Advance(inet, t, File))
  {
    if t.filed < |t.jobs| {
      MessageTaken(inet, t.table, t.jobs[t.filed], Target(t).queue[t.filed], TenantIds(t.db), UserIds(t.db));
    }
  }

  lemma NoteKept(inet: AddressParser, t: Trail, row: LogRow)
    requires Kept(inet, t)
    ensures Kept(inet, Advance(inet, t, Note(row)))
  {
    if Unrelated(row) {
      RowNoted(t.table, row);
    }
  }

  /** A move adds at most the call that it begins. */
  lemma CallsGrow(inet: AddressParser, t: Trail, m: Move)
    ensures var calls, calls' := Calls(t), Calls(Advance(inet, t, m));
      calls' == calls || (m.Begin? && t.call.None? && calls' == calls + [m.step])
  {
    if m.Finish? && t.call.Some? {
      assert t.done + [t.call.value.step] + [] == t.done + [t.call.value.step];
    }
  }

  lemma EarlierCalls(calls: seq<Step>, step: Step)
    requires AlwaysEnabled(calls + [step])
    ensures AlwaysEnabled(calls) && Enabled(Exec(EMPTY, calls), step.call)
  {
    assert (calls + [step])[..|calls|] == calls;
    EnabledPrefix(calls + [step]);
  }

  lemma {:induction false} ReachedKept(inet: AddressParser, moves: seq<Move>)
    requires AlwaysEnabled(Calls(Reached(inet, moves)))
    ensures Kept(inet, Reached(inet, moves))
  {
    if |moves| == 0 {
      EmptyInv();
    } else {
      var init, m := moves[..|moves| - 1], moves[|moves| - 1];
      var t := Reached(inet, init);
      CallsGrow(inet, t, m);
      if Calls(Reached(inet, moves)) != Calls(t) {
        EarlierCalls(Calls(t), m.step);
      }
      ReachedKept(inet, init);
      MoveKept(inet, t, m);
    }
  }

  lemma MoveKept(inet: AddressParser, t: Trail, m: Move)
    requires Kept(inet, t) && AlwaysEnabled(Calls(t)) && AlwaysEnabled(Calls(Advance(inet, t, m)))
    ensures Kept(inet, Advance(inet, t, m))
  {
    match m
    case Begin(step, headers) =>
      if t.call.None? {
        assert Calls(t) == t.done;
        EarlierCalls(t.done, step);
        BeginKept(inet, t, step, headers);
      }
    case Send => SendKept(inet, t);
    case Finish => FinishKept(inet, t);
    case File => FileKept(inet, t);
    case Note(row) => NoteKept(inet, t, row);
  }

  /** Every interleaving: the audit table holds all events, in order, and of the deltas whose messages were taken
      so far those that its columns accepted, in order; so it holds them all exactly when no message taken was
      refused. */
  lemma TableHolds(inet: AddressParser, moves: seq<Move>)
    requires AlwaysEnabled(Calls(Reached(inet, moves)))
    ensures var t := Reached(inet, moves); var queue := Target(t).queue;
      && t.db == Exec(EMPTY, t.done) && t.filed <= |t.jobs| <= |queue|
      && EventsIn(t.table) == t.db.events
      && DeltasIn(t.table) == Accepted(inet, t.jobs, queue, t.filed)
      && (DeltasIn(t.table) == queue[..t.filed] <==> forall i | 0 <= i < t.filed :: Acceptable(inet, t.jobs[i]))
  {
    ReachedKept(inet, moves);
    var t := Reached(inet, moves);
    NothingMissing(inet, t.jobs, Target(t).queue, t.filed);
  }

  // ---- Rebuilding from the table ---------------------------------------------------------

  /** The messages that are not filed yet. */
  function PendingJobs(t: Trail): seq<Job>
    requires t.filed <= |t.jobs|
  {
    t.jobs[t.filed..]
  }

  /** What the worker adds for a queue of messages. */
  function FiledRows(inet: AddressParser, jobs: seq<Job>, tenants: set<nat>, users: set<nat>): seq<LogRow> {
    if jobs == [] then []
    else
      FiledRows(inet, jobs[..|jobs| - 1], tenants, users) + Filing(inet, jobs[|jobs| - 1], tenants, users)
  }

  /** The table alone tells the events, and replaying its deltas gives the audited tables. */
  ghost predicate Rebuilds(log: seq<LogRow>, db: Db)
    requires Consistent(db)
  {
    && EventsIn(log) == db.events
    && OnTables(Canonical(db.erased), Replay(map[], DeltasIn(log))) == Shot(db)
  }

  lemma {:induction false} FiledAll(
    inet: AddressParser, table: seq<LogRow>, jobs: seq<Job>, ds: seq<Delta>, tenants: set<nat>, users: set<nat>)
    requires |jobs| == |ds| && forall i | 0 <= i < |jobs| :: CarriesDelta(jobs[i], ds[i]) && Acceptable(inet, jobs[i])
    ensures var table' := table + FiledRows(inet, jobs, tenants, users);
      DeltasIn(table') == DeltasIn(table) + ds && EventsIn(table') == EventsIn(table)
  {
    if jobs == [] {
      assert table + [] == table;
    } else {
      var n := |jobs| - 1;
      var rows, last := FiledRows(inet, jobs[..n], tenants, users), Filing(inet, jobs[n], tenants, users);
      assert ds == ds[..n] + [ds[n]];
      assert table + (rows + last) == (table + rows) + last;
      FiledAll(inet, table, jobs[..n], ds[..n], tenants, users);
      MessageTaken(inet, table + rows, jobs[n], ds[n], tenants, users);
      assert DeltasIn(table + rows) + [ds[n]] == DeltasIn(table) + ds;
    }
  }

  /** Between two calls, with every message so far acceptable. */
  ghost predicate Drainable(inet: AddressParser, t: Trail) {
    && AlwaysEnabled(t.done) && Allowed(false, EMPTY, t.done)
    && t.call.None? && t.filed <= |t.jobs| && forall i | 0 <= i < |t.jobs| :: Acceptable(inet, t.jobs[i])
  }

  /** Filing what is pending, in any interleaving of calls that leak nothing and send nothing the table refuses,
      leaves a table that alone rebuilds the audited tables and the events. */
  lemma DrainedTableRebuilds(inet: AddressParser, moves: seq<Move>, tenants: set<nat>, users: set<nat>)
    requires Drainable(inet, Reached(inet, moves))
    ensures var t := Reached(inet, moves);
      Inv(t.db) && t.db == Exec(EMPTY, t.done) &&
      Rebuilds(t.table + FiledRows(inet, PendingJobs(t), tenants, users), t.db)
  {
    var t := Reached(inet, moves);
    assert Calls(t) == t.done;
    ReachedKept(inet, moves);
    ForwardReplay(t.done);
    KeptRebuilds(inet, t, tenants, users);
  }

  lemma KeptRebuilds(inet: AddressParser, t: Trail, tenants: set<nat>, users: set<nat>)
    requires Kept(inet, t) && Drainable(inet, t)
    requires OnTables(Canonical(t.db.erased), Replay(map[], t.db.queue)) == Shot(t.db)
    ensures Rebuilds(t.table + FiledRows(inet, PendingJobs(t), tenants, users), t.db)
  {
    var queue := t.db.queue;
    NothingMissing(inet, t.jobs, queue, t.filed);
    FiledAll(inet, t.table, PendingJobs(t), queue[t.filed..], tenants, users);
    assert queue == queue[..t.filed] + queue[t.filed..];
  }

  /** A message with an address that is none: the worker takes it, files nothing, and the table no longer
      rebuilds the store. */
  lemma BadAddressLosesChange(inet: AddressParser)
    requires !inet("x")
    ensures var step := Step(SetFeatureCall(None, "f", RawBool(true)), 0);
      var moves := [] + [Begin(step, [Header(None, None, "", Some("x"), "")])] + [Send] + [Finish] + [File];
      var t := Reached(inet, moves);
      && t.done == [step] && t.call.None? && |t.jobs| == 1 && t.filed == 1 && t.table == []
      && Inv(t.db) && !Rebuilds(t.table, t.db)
  {
    var step := Step(SetFeatureCall(None, "f", RawBool(true)), 0);
    OneFlag(step);
    OneLost(inet, step, Header(None, None, "", Some("x"), ""));
  }

  lemma ReachedMore(inet: AddressParser, moves: seq<Move>, m: Move)
    ensures Reached(inet, moves + [m]) == Advance(inet, Reached(inet, moves), m)
  {
    assert (moves + [m])[..|moves|] == moves;
  }

  /** A call that sends one delta, under a header that the table refuses. */
  lemma OneLost(inet: AddressParser, step: Step, h: Header)
    requires var db := Next(EMPTY, step); |db.queue| == 1 && db.events == [] && db.erased == {}
    requires h.ip.Some? && h.ip.value != "" && !inet(h.ip.value)
    ensures Reached(inet, [] + [Begin(step, [h])] + [Send] + [Finish] + [File]) ==
      Trail(Next(EMPTY, step), [step], None, [JobOf(h, Next(EMPTY, step).queue[0])], 1, [])
  {
    var db := Next(EMPTY, step);
    var job := JobOf(h, db.queue[0]);
    ReachedMore(inet, [], Begin(step, [h]));
    ReachedMore(inet, [] + [Begin(step, [h])], Send);
    ReachedMore(inet, [] + [Begin(step, [h])] + [Send], Finish);
    ReachedMore(inet, [] + [Begin(step, [h])] + [Send] + [Finish], File);
    var t1 := START.(call := Some(Running(step, [h])));
    assert Advance(inet, t1, Send) == t1.(jobs := [job]);
    assert Advance(inet, t1.(jobs := [job]), Finish) == Trail(db, [step], None, [job], 0, []);
    assert !Acceptable(inet, job);
  }

  lemma OneFlag(step: Step)
    requires step == Step(SetFeatureCall(None, "f", RawBool(true)), 0)
    ensures var db := Next(EMPTY, step);
      && Inv(db) && |db.queue| == 1 && db.events == [] && db.erased == {} && Shot(db) != map[]
  {
    EmptyInv();
    InvStep(EMPTY, step);
    FirstFlag();
    var db := Next(EMPTY, step);
    StoredShot(db, FlagRow(db.flags[0]));
  }

  lemma FirstFlag()
    ensures var out := SetFeature(EMPTY, None, "f", RawBool(true), 0);
      && |out.db.flags| == 1 && |out.db.queue| == 1
      && out.db == EMPTY.(flags := out.db.flags, queue := out.db.queue, nextId := out.db.nextId)
  {
    assert Clean("f");
  }

  // ---- The table as an object ------------------------------------------------------------

  /** What the audit service sees of a request; the user is there when authenticated. */
  datatype RequestMeta = RequestMeta(user: Option<User>, forwardedFor: string, remoteAddr: string, userAgent: string)

  /** `s.split(",")[0]`. */
  function FirstPart(s: string): (r: string)
    ensures r <= s && ',' !in r
    ensures r == s || s[|r|] == ','
  {
    if s == "" || s[0] == ',' then "" else [s[0]] + FirstPart(s[1..])
  }

  function ClientIp(r: RequestMeta): Option<string> {
    if r.forwardedFor != "" then Some(Strip(FirstPart(r.forwardedFor)))
    else if r.remoteAddr != "" then Some(r.remoteAddr)
    else None
  }

  /** The row of an explicit log call: a given actor overrides the user of the request. */
  function ServiceRow(
    action: string, request: Option<RequestMeta>, tenant: Option<nat>, actor: Option<User>, resourceType: string,
    resourceId: string, metadata: Metadata): LogRow
  {
    var who := if actor.None? && request.Some? then request.value.user else actor;
    LogRow(tenant, if who.Some? then Some(who.value.id) else None, if who.Some? then who.value.email else "",
           action, resourceType, resourceId, metadata, map[],
           if request.Some? && ClientIp(request.value) != Some("") then ClientIp(request.value) else None,
           if request.Some? then request.value.userAgent else "")
  }

  lemma {:induction false} FirstPartBack(a: string, rest: string)
    requires ',' !in a && (rest == "" || rest[0] == ',')
    ensures FirstPart(a + rest) == a
  {
    if a == "" {
      assert a + rest == rest;
    } else {
      assert (a + rest)[1..] == a[1..] + rest;
      FirstPartBack(a[1..], rest);
    }
  }

  /** The address of a request: what stands before the first comma of the forwarding header, without the spaces
      around it, and without such a header the peer's own address. */
  lemma AddressExact(r: RequestMeta, pre: string, address: string, post: string, rest: string)
    requires r.forwardedFor == pre + address + post + rest && ',' !in pre + address + post
    requires Blank(pre) && (Trimmed(address) || address == "") && Blank(post) && (rest == "" || rest[0] == ',')
    ensures ClientIp(r) ==
      if r.forwardedFor != "" then Some(address) else if r.remoteAddr == "" then None else Some(r.remoteAddr)
  {
    FirstPartBack(pre + address + post, rest);
    if address == "" {
      assert pre + address + post == pre + post;
      StripBlank(pre + post);
    } else {
      StripPadded(pre, address, post);
    }
  }

  /** Whom and what an explicit log call names: the given actor before the user of the request, that user's e-mail,
      and the address and agent of the request, where an empty address is none. */
  lemma ServiceRowExact(
    action: string, request: Option<RequestMeta>, tenant: Option<nat>, actor: Option<User>, resourceType: string,
    resourceId: string, metadata: Metadata)
    ensures var row := ServiceRow(action, request, tenant, actor, resourceType, resourceId, metadata);
      && (actor.Some? ==> row.actor == Some(actor.value.id) && row.actorEmail == actor.value.email)
      && (actor.None? && request.Some? && request.value.user.Some? ==>
          row.actor == Some(request.value.user.value.id) && row.actorEmail == request.value.user.value.email)
      && (actor.None? && (request.None? || request.value.user.None?) ==> row.actor == None && row.actorEmail == "")
      && (forall a :: row.ip == Some(a) <==> request.Some? && ClientIp(request.value) == Some(a) && a != "")
      && row.userAgent == (if request.Some? then request.value.userAgent else "")
      && row.tenant == tenant && row.action == action && row.metadata == metadata && row.changes == map[]
      && row.resourceType == resourceType && row.resourceId == resourceId
  {
  }

  class AuditLog {
    var log: seq<LogRow>

    constructor ()
      ensures log == []
    {
      log := [];
    }

    /** `AuditService.log`; a failing write is swallowed. */
    method Log(
      inet: AddressParser, action: string, request: Option<RequestMeta>, tenant: Option<nat>, actor: Option<User>,
      resourceType: string, resourceId: string, metadata: Metadata)
      modifies this
      ensures var row := ServiceRow(action, request, tenant, actor, resourceType, resourceId, metadata);
        log == if Acceptable(inet, row) then old(log) + [row] else old(log)
    {
      var resolvedActor := actor;
      var ipAddress: Option<string> := None;
      var userAgent, actorEmail := "", "";
      if request.Some? {
        if resolvedActor.None? && request.value.user.Some? {
          resolvedActor := request.value.user;
        }
        ipAddress := ClientIp(request.value);
        userAgent := request.value.userAgent;
      }
      if resolvedActor.Some? {
        actorEmail := resolvedActor.value.email;
      }
      if ipAddress == Some("") {
        ipAddress := None;
      }
      var row := LogRow(tenant, if resolvedActor.Some? then Some(resolvedActor.value.id) else None, actorEmail,
                        action, resourceType, resourceId, metadata, map[], ipAddress, userAgent);
      if Acceptable(inet, row) {
        log := log + [row];
      }
    }

    /** What the role service logs after an assignment or a revocation; reading the row back gives the
        event, and no delta. */
    method LogRoleEvent(inet: AddressParser, e: Event, actor: Option<User>, targetEmail: string)
      requires actor.Some? ==> Storable(actor.value.email, 254)
      requires e.actor == if actor.Some? then Some(actor.value.id) else None
      modifies this
      ensures log == old(log) + [EventRow(e, if actor.Some? then actor.value.email else "", targetEmail)]
      ensures EventsIn(log) == EventsIn(old(log)) + [e] && DeltasIn(log) == DeltasIn(old(log))
    {
      var actorEmail := if actor.Some? then actor.value.email else "";
      if e.RoleAssigned? {
        Log(inet, ROLE_ASSIGNED, None, Some(e.tenant), actor, "User", ShowNat(e.user),
            map["role" := e.role, "target_email" := targetEmail]);
      } else {
        Log(inet, ROLE_REVOKED, None, Some(e.tenant), actor, "User", ShowNat(e.user),
            map["target_email" := targetEmail]);
      }
      EventRoundTrip(e, actorEmail, targetEmail);
      SelectOne(EventOf, old(log), EventRow(e, actorEmail, targetEmail));
      SelectOne(DeltaOf, old(log), EventRow(e, actorEmail, targetEmail));
    }

    /** `write_audit_log`: a reference to a row that is gone by now becomes null; a message that the table
        refuses makes the task raise, and it is not tried again. */
    method WriteAuditLog(inet: AddressParser, job: Job, tenants: set<nat>, users: set<nat>) returns (raised: bool)
      modifies this
      ensures log == old(log) + Filing(inet, job, tenants, users) && raised == !Acceptable(inet, job)
    {
      var tenant, actor: Option<nat> := None, None;
      if job.tenant.Some? {
        if job.tenant.value in tenants {
          tenant := job.tenant;
        }
      }
      if job.actor.Some? {
        if job.actor.value in users {
          actor := job.actor;
        }
      }
      raised := !Acceptable(inet, job);
      if !raised {
        log := log + [LogRow(tenant, actor, job.actorEmail, job.action, job.resourceType, job.resourceId, job.metadata,
                             job.changes, if job.ip == Some("") then None else job.ip, job.userAgent)];
      }
    }

    /** The worker takes a queue of messages in order. Where the table and the queue are those of an
        interleaving whose calls leaked nothing and sent nothing the table refuses, the table then rebuilds
        the store. */
    method Drain(inet: AddressParser, jobs: seq<Job>, tenants: set<nat>, users: set<nat>, ghost moves: seq<Move>)
      returns (lost: nat)
      modifies this
      ensures log == old(log) + FiledRows(inet, jobs, tenants, users)
      ensures lost == 0 <==> forall i | 0 <= i < |jobs| :: Acceptable(inet, jobs[i])
      ensures var t := Reached(inet, moves);
        Drainable(inet, t) && old(log) == t.table && jobs == PendingJobs(t) ==> Inv(t.db) && Rebuilds(log, t.db)
    {
      lost := 0;
      for i := 0 to |jobs|
        invariant log == old(log) + FiledRows(inet, jobs[..i], tenants, users)
        invariant lost == 0 <==> forall k | 0 <= k < i :: Acceptable(inet, jobs[k])
      {
        var raised := WriteAuditLog(inet, jobs[i], tenants, users);
        if raised {
          lost := lost + 1;
        }
        assert jobs[..i + 1][..i] == jobs[..i];
      }
      assert jobs[..|jobs|] == jobs;
      if Drainable(inet, Reached(inet, moves)) {
        DrainedTableRebuilds(inet, moves, tenants, users);
      }
    }
  }
}
