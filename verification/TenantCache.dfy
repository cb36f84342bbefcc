/** Host-to-tenant resolution through a timed cache with negative entries.

    The machine lets any number of requests interleave: a lookup is a cache read, then on a miss a
    database read, then a cache write, with time passing between the steps. What the database answers
    for a host at each time is an arbitrary function. */
module TenantCache {

  import opened Rows
  import opened AuthModel

  const TENANT_TTL: nat := 300
  const NEGATIVE_TTL: nat := 60

  /** The database's answer for a host at a time; None is "no such domain". */
  type Answers = (nat, string) -> Option<Tenant>

  /** A cache entry; the sentinel for an unknown host is an entry with the answer None. */
  datatype Entry = Entry(answer: Option<Tenant>, expires: nat)

  type Cache = map<string, Entry>

  function Ttl(answer: Option<Tenant>): nat {
    if answer.Some? then TENANT_TTL else NEGATIVE_TTL
  }

  /** `cache.get`: an entry is there until it expires. */
  function Get(cache: Cache, host: string, now: nat): Option<Entry> {
    if host in cache && now < cache[host].expires then Some(cache[host]) else None
  }

  function Set(cache: Cache, host: string, answer: Option<Tenant>, now: nat): Cache {
    cache[host := Entry(answer, now + Ttl(answer))]
  }

  // ---- The interleaved machine -----------------------------------------------------------

  /** A lookup that missed the cache: before its database read, or between read and cache write. */
  datatype Pending = Missed(host: string) | Fetched(host: string, answer: Option<Tenant>, readAt: nat)

  datatype Resolution = Resolution(host: string, answer: Option<Tenant>, at: nat)

  datatype State = State(now: nat, cache: Cache, pending: map<nat, Pending>, resolved: seq<Resolution>)

  datatype Action =
    | Tick(dt: nat)
    | ReadCache(request: nat, host: string)
    | ReadDb(request: nat)
    | WriteCache(request: nat)
    | Invalidate(host: string)

  const IDLE := State(0, map[], map[], [])

  /** One step. An action that does not apply changes nothing. */
  function Act(db: Answers, s: State, a: Action): State {
    match a
    case Tick(dt) => s.(now := s.now + dt)
    case ReadCache(request, host) =>
      if request in s.pending then s
      else
        var e := Get(s.cache, host, s.now);
        if e.Some? then s.(resolved := s.resolved + [Resolution(host, e.value.answer, s.now)])
        else s.(pending := s.pending[request := Missed(host)])
    case ReadDb(request) =>
      if request in s.pending && s.pending[request].Missed? then
        var host := s.pending[request].host;
        s.(pending := s.pending[request := Fetched(host, db(s.now, host), s.now)])
      else s
    case WriteCache(request) =>
      if request in s.pending && s.pending[request].Fetched? then
        var p := s.pending[request];
        s.(cache := Set(s.cache, p.host, p.answer, s.now), pending := s.pending - {request},
           resolved := s.resolved + [Resolution(p.host, p.answer, s.now)])
      else s
    case Invalidate(host) => s.(cache := s.cache - {host})
  }

  function RunFrom(db: Answers, s: State, actions: seq<Action>): State {
    if actions == [] then s else Act(db, RunFrom(db, s, actions[..|actions| - 1]), actions[|actions| - 1])
  }

  function Run(db: Answers, actions: seq<Action>): State {
    RunFrom(db, IDLE, actions)
  }

  /** No cache write comes more than `d` after the database read it stores. */
  ghost predicate Prompt(db: Answers, actions: seq<Action>, d: nat) {
    actions == [] ||
    var before, last := Run(db, actions[..|actions| - 1]), actions[|actions| - 1];
    Prompt(db, actions[..|actions| - 1], d) &&
    (last.WriteCache? && last.request in before.pending && before.pending[last.request].Fetched? ==>
      before.now <= before.pending[last.request].readAt + d)
  }

  /** The database gave `answer` for `host` at some time from `from` to `to`. */
  ghost predicate Answered(db: Answers, host: string, answer: Option<Tenant>, from: int, to: nat) {
    exists s: nat :: from <= s <= to && db(s, host) == answer
  }

  ghost predicate Fresh(db: Answers, s: State, d: nat) {
    && (forall h | h in s.cache ::
        Answered(db, h, s.cache[h].answer, s.cache[h].expires - Ttl(s.cache[h].answer) - d, s.now))
    && (forall q | q in s.pending && s.pending[q].Fetched? ::
        s.pending[q].readAt <= s.now && db(s.pending[q].readAt, s.pending[q].host) == s.pending[q].answer)
    && (forall i | 0 <= i < |s.resolved| ::
        var r := s.resolved[i]; r.at <= s.now && Answered(db, r.host, r.answer, r.at - Ttl(r.answer) - d, r.at))
  }

  lemma AnsweredWider(db: Answers, host: string, answer: Option<Tenant>, from: int, to: nat, from': int, to': nat)
    requires Answered(db, host, answer, from, to) && from' <= from && to <= to'
    ensures Answered(db, host, answer, from', to')
  {
    var s: nat :| from <= s <= to && db(s, host) == answer;
  }

  lemma WriteFresh(db: Answers, s: State, q: nat, d: nat)
    requires Fresh(db, s, d) && q in s.pending && s.pending[q].Fetched? && s.now <= s.pending[q].readAt + d
    ensures Fresh(db, Act(db, s, WriteCache(q)), d)
  {
    var p, s' := s.pending[q], Act(db, s, WriteCache(q));
    assert Answered(db, p.host, p.answer, s.now - d, s.now);
    AnsweredWider(db, p.host, p.answer, s.now - d, s.now, s.now - Ttl(p.answer) - d, s.now);
    forall h | h in s'.cache
      ensures Answered(db, h, s'.cache[h].answer, s'.cache[h].expires - Ttl(s'.cache[h].answer) - d, s'.now)
    {
    }
  }

  lemma ActFresh(db: Answers, s: State, a: Action, d: nat)
    requires Fresh(db, s, d)
    requires a.WriteCache? && a.request in s.pending && s.pending[a.request].Fetched? ==>
      s.now <= s.pending[a.request].readAt + d
    ensures Fresh(db, Act(db, s, a), d)
  {
    match a
    case Tick(dt) =>
      forall h | h in s.cache
        ensures Answered(db, h, s.cache[h].answer, s.cache[h].expires - Ttl(s.cache[h].answer) - d, s.now + dt)
      {
        AnsweredWider(
          db, h, s.cache[h].answer, s.cache[h].expires - Ttl(s.cache[h].answer) - d, s.now,
          s.cache[h].expires - Ttl(s.cache[h].answer) - d, s.now + dt);
      }
    case ReadCache(request, host) =>
      if request !in s.pending && Get(s.cache, host, s.now).Some? {
        var e := s.cache[host];
        AnsweredWider(
          db, host, e.answer, e.expires - Ttl(e.answer) - d, s.now, s.now - Ttl(e.answer) - d, s.now);
      }
    case WriteCache(request) =>
      if request in s.pending && s.pending[request].Fetched? {
        WriteFresh(db, s, request, d);
      }
    case _ =>
  }

  lemma {:induction false} RunFresh(db: Answers, actions: seq<Action>, d: nat)
    requires Prompt(db, actions, d)
    ensures Fresh(db, Run(db, actions), d)
  {
    if actions != [] {
      RunFresh(db, actions[..|actions| - 1], d);
      ActFresh(db, Run(db, actions[..|actions| - 1]), actions[|actions| - 1], d);
    }
  }

  /** Bounded staleness: in every interleaving, a lookup that resolves at time `t` gives what the
      database answered at some time in [t - 300 - d, t], and in [t - 60 - d, t] for "not found". */
  lemma BoundedStaleness(db: Answers, actions: seq<Action>, d: nat, i: nat)
    requires Prompt(db, actions, d) && i < |Run(db, actions).resolved|
    ensures var r := Run(db, actions).resolved[i];
      Answered(db, r.host, r.answer, r.at - (if r.answer.Some? then 300 else 60) - d, r.at)
  {
    RunFresh(db, actions, d);
  }

  /** A host whose answer has not changed for 300 + d resolves as a plain database lookup. */
  lemma SettledHost(db: Answers, actions: seq<Action>, d: nat, i: nat)
    requires Prompt(db, actions, d) && i < |Run(db, actions).resolved|
    requires var r := Run(db, actions).resolved[i];
      forall s: nat | r.at - 300 - d <= s <= r.at :: db(s, r.host) == db(r.at, r.host)
    ensures var r := Run(db, actions).resolved[i]; r.answer == db(r.at, r.host)
  {
    BoundedStaleness(db, actions, d, i);
    var r := Run(db, actions).resolved[i];
    var s: nat :| r.at - (if r.answer.Some? then 300 else 60) - d <= s <= r.at && db(s, r.host) == r.answer;
  }

  function Before(change: nat, a: Option<Tenant>, b: Option<Tenant>): Answers {
    (t: nat, host: string) => if t < change then a else b
  }

  /** A lookup that misses and reads the database at time 0, an invalidation at time 1, and the wait
      until time `d`. */
  function OverlappingLookup(host: string, d: nat): seq<Action>
    requires d >= 1
  {
    [ReadCache(0, host), ReadDb(0), Tick(1), Invalidate(host), Tick(d - 1)]
  }

  lemma InvalidatedInFlight(t: Tenant, host: string, d: nat)
    requires d >= 1
    ensures var db, actions := Before(1, Some(t), None), OverlappingLookup(host, d);
      && Prompt(db, actions, d)
      && Run(db, actions) == State(d, map[], map[0 := Fetched(host, Some(t), 0)], [])
  {
    var db, a := Before(1, Some(t), None), OverlappingLookup(host, d);
    var s1 := State(0, map[], map[0 := Missed(host)], []);
    var s2 := State(0, map[], map[0 := Fetched(host, Some(t), 0)], []);
    assert s1.pending[0 := Fetched(host, db(0, host), 0)] == s2.pending;
    var a2 := [] + [ReadCache(0, host)] + [ReadDb(0)];
    RunStep(db, [], ReadCache(0, host), IDLE, s1, d);
    RunStep(db, [] + [ReadCache(0, host)], ReadDb(0), s1, s2, d);
    RunStep(db, a2, Tick(1), s2, s2.(now := 1), d);
    RunStep(db, a2 + [Tick(1)], Invalidate(host), s2.(now := 1), s2.(now := 1), d);
    RunStep(db, a2 + [Tick(1)] + [Invalidate(host)], Tick(d - 1), s2.(now := 1), s2.(now := d), d);
    assert a == a2 + [Tick(1)] + [Invalidate(host)] + [Tick(d - 1)];
  }

  /** The bound is reached, and invalidation does not help a lookup that is already under way: a
      domain deleted at time 1 and invalidated at once still resolves 299 + d later, when the lookup
      that read it at time 0 writes the cache at time d. */
  lemma StaleAfterInvalidation(t: Tenant, host: string, d: nat)
    requires d >= 1
    ensures var actions := OverlappingLookup(host, d) + [WriteCache(0), Tick(299), ReadCache(1, host)];
      var db := Before(1, Some(t), None);
      && Prompt(db, actions, d)
      && |Run(db, actions).resolved| == 2
      && Run(db, actions).resolved[1] == Resolution(host, Some(t), 299 + d)
      && forall s: nat | 1 <= s :: db(s, host) == None
  {
    var db := Before(1, Some(t), None);
    var a := OverlappingLookup(host, d);
    var s5 := State(d, map[], map[0 := Fetched(host, Some(t), 0)], []);
    var e := map[host := Entry(Some(t), d + 300)];
    var s6 := State(d, e, map[], [Resolution(host, Some(t), d)]);
    InvalidatedInFlight(t, host, d);
    assert s5.pending - {0} == map[];
    RunStep(db, a, WriteCache(0), s5, s6, d);
    RunStep(db, a + [WriteCache(0)], Tick(299), s6, s6.(now := d + 299), d);
    RunStep(db, a + [WriteCache(0)] + [Tick(299)], ReadCache(1, host), s6.(now := d + 299),
            State(d + 299, e, map[], s6.resolved + [Resolution(host, Some(t), d + 299)]), d);
    assert a + [WriteCache(0), Tick(299), ReadCache(1, host)] ==
      a + [WriteCache(0)] + [Tick(299)] + [ReadCache(1, host)];
  }

  lemma RunStep(db: Answers, actions: seq<Action>, a: Action, s: State, s': State, d: nat)
    requires Prompt(db, actions, d) && Run(db, actions) == s && Act(db, s, a) == s'
    requires a.WriteCache? && a.request in s.pending && s.pending[a.request].Fetched? ==>
      s.now <= s.pending[a.request].readAt + d
    ensures Prompt(db, actions + [a], d) && Run(db, actions + [a]) == s'
  {
    assert (actions + [a])[..|actions|] == actions;
  }

  // ---- When invalidation works -----------------------------------------------------------

  /** Every lookup of the host that is past its database read holds what the database answers now. */
  ghost predicate InFlightCurrent(db: Answers, s: State, host: string) {
    forall q | q in s.pending && s.pending[q].Fetched? && s.pending[q].host == host ::
      s.pending[q].answer == db(s.now, host)
  }

  /** After invalidating the host in `s` and taking `actions`, every resolution of the host since then
      gave what the database answered at some time since the invalidation. */
  ghost predicate CurrentAfter(db: Answers, s: State, host: string, actions: seq<Action>) {
    var s' := RunFrom(db, Act(db, s, Invalidate(host)), actions);
    CurrentSince(db, s', host, s.now, |s.resolved|)
  }

  ghost predicate CurrentSince(db: Answers, s: State, host: string, since: nat, n: nat) {
    forall i | n <= i < |s.resolved| && s.resolved[i].host == host ::
      Answered(db, host, s.resolved[i].answer, since, s.resolved[i].at)
  }

  /** Everything kept for the host was answered since `since`. */
  ghost predicate KeptSince(db: Answers, s: State, host: string, since: nat) {
    && since <= s.now
    && (host in s.cache ==> Answered(db, host, s.cache[host].answer, since, s.now))
    && (forall q | q in s.pending && s.pending[q].Fetched? && s.pending[q].host == host ::
        Answered(db, host, s.pending[q].answer, since, s.now))
  }

  lemma ActSince(db: Answers, s: State, a: Action, host: string, since: nat, n: nat)
    requires KeptSince(db, s, host, since) && CurrentSince(db, s, host, since, n) && n <= |s.resolved|
    ensures KeptSince(db, Act(db, s, a), host, since) && CurrentSince(db, Act(db, s, a), host, since, n)
    ensures n <= |Act(db, s, a).resolved|
  {
    match a
    case Tick(dt) =>
      if host in s.cache {
        AnsweredWider(db, host, s.cache[host].answer, since, s.now, since, s.now + dt);
      }
      forall q | q in s.pending && s.pending[q].Fetched? && s.pending[q].host == host
        ensures Answered(db, host, s.pending[q].answer, since, s.now + dt)
      {
        AnsweredWider(db, host, s.pending[q].answer, since, s.now, since, s.now + dt);
      }
    case ReadDb(request) =>
      assert Answered(db, host, db(s.now, host), since, s.now);
    case _ =>
  }

  lemma {:induction false} RunSince(db: Answers, s: State, actions: seq<Action>, host: string, since: nat, n: nat)
    requires KeptSince(db, s, host, since) && CurrentSince(db, s, host, since, n) && n <= |s.resolved|
    ensures var s' := RunFrom(db, s, actions);
      KeptSince(db, s', host, since) && CurrentSince(db, s', host, since, n) && n <= |s'.resolved|
  {
    if actions != [] {
      RunSince(db, s, actions[..|actions| - 1], host, since, n);
      ActSince(db, RunFrom(db, s, actions[..|actions| - 1]), actions[|actions| - 1], host, since, n);
    }
  }

  /** Invalidation works in every continuation exactly when no lookup already past its database read
      holds an answer that the database no longer gives. */
  lemma InvalidationExact(db: Answers, s: State, host: string)
    ensures (forall actions :: CurrentAfter(db, s, host, actions)) <==> InFlightCurrent(db, s, host)
  {
    if InFlightCurrent(db, s, host) {
      forall actions ensures CurrentAfter(db, s, host, actions) {
        InvalidationWorks(db, s, host, actions);
      }
    } else {
      var q :| q in s.pending && s.pending[q].Fetched? && s.pending[q].host == host &&
        s.pending[q].answer != db(s.now, host);
      StaleContinuation(db, s, host, q);
    }
  }

  lemma InvalidationWorks(db: Answers, s: State, host: string, actions: seq<Action>)
    requires InFlightCurrent(db, s, host)
    ensures CurrentAfter(db, s, host, actions)
  {
    var s0 := Act(db, s, Invalidate(host));
    forall q | q in s0.pending && s0.pending[q].Fetched? && s0.pending[q].host == host
      ensures Answered(db, host, s0.pending[q].answer, s.now, s.now)
    {
      assert db(s.now, host) == s0.pending[q].answer;
    }
    RunSince(db, s0, actions, host, s.now, |s.resolved|);
  }

  /** Otherwise that lookup, writing the cache at once, resolves stale. */
  lemma StaleContinuation(db: Answers, s: State, host: string, q: nat)
    requires q in s.pending && s.pending[q].Fetched? && s.pending[q].host == host
    requires s.pending[q].answer != db(s.now, host)
    ensures !CurrentAfter(db, s, host, [WriteCache(q)])
  {
    var s0, n := Act(db, s, Invalidate(host)), |s.resolved|;
    assert [WriteCache(q)][..0] == [];
    assert RunFrom(db, s0, []) == s0;
    var s' := RunFrom(db, s0, [WriteCache(q)]);
    assert s' == Act(db, s0, WriteCache(q));
    assert s'.resolved[n] == Resolution(host, s.pending[q].answer, s.now);
    assert !Answered(db, host, s'.resolved[n].answer, s.now, s'.resolved[n].at);
  }

  // ---- How long an entry serves ----------------------------------------------------------

  /** None of the actions invalidates the host or writes its entry. */
  ghost predicate LeavesEntry(db: Answers, s: State, host: string, actions: seq<Action>) {
    actions == [] ||
    var before, last := RunFrom(db, s, actions[..|actions| - 1]), actions[|actions| - 1];
    && LeavesEntry(db, s, host, actions[..|actions| - 1])
    && last != Invalidate(host)
    && (last.WriteCache? && last.request in before.pending && before.pending[last.request].Fetched? ==>
        before.pending[last.request].host != host)
  }

  lemma {:induction false} EntryKept(db: Answers, s: State, host: string, actions: seq<Action>)
    requires LeavesEntry(db, s, host, actions) && host in s.cache
    ensures var s' := RunFrom(db, s, actions); host in s'.cache && s'.cache[host] == s.cache[host]
  {
    if actions != [] {
      EntryKept(db, s, host, actions[..|actions| - 1]);
    }
  }

  /** An answer that a lookup writes, "not found" included, serves every later lookup of the host without a database
      read until its lifetime is over, and none from then on: 300 seconds for a tenant, 60 for "not found",
      whatever happens in between that leaves the entry alone. */
  lemma ServedFromCache(
    db: Answers, s: State, q: nat, host: string, answer: Option<Tenant>, readAt: nat, actions: seq<Action>, later: nat)
    requires q in s.pending && s.pending[q] == Fetched(host, answer, readAt)
    requires LeavesEntry(db, Act(db, s, WriteCache(q)), host, actions)
    requires later !in RunFrom(db, Act(db, s, WriteCache(q)), actions).pending
    ensures var s' := RunFrom(db, Act(db, s, WriteCache(q)), actions);
      Act(db, s', ReadCache(later, host)) ==
        if s'.now < s.now + (if answer.Some? then 300 else 60)
        then s'.(resolved := s'.resolved + [Resolution(host, answer, s'.now)])
        else s'.(pending := s'.pending[later := Missed(host)])
  {
    EntryKept(db, Act(db, s, WriteCache(q)), host, actions);
  }

  // ---- The middleware object -------------------------------------------------------------

  const EXEMPT_PREFIXES: seq<string> :=
    ["/admin/", "/health/", "/ready/", "/api/schema/", "/api/docs/", "/api/redoc/", "/static/"]

  predicate IsExempt(path: string) {
    path == "/" || exists i | 0 <= i < |EXEMPT_PREFIXES| :: EXEMPT_PREFIXES[i] <= path
  }

  /** The tenant decision of `__call__` on a resolved answer. */
  predicate Refused(path: string, answer: Option<Tenant>) {
    !IsExempt(path) && answer.Some? && !answer.value.isActive
  }

  /** `host.split(":")[0]`. */
  function StripPort(host: string): (r: string)
    ensures r <= host && ':' !in r
    ensures r == host || host[|r|] == ':'
  {
    if host == "" || host[0] == ':' then "" else [host[0]] + StripPort(host[1..])
  }

  /** What becomes of a request: the view runs with a tenant and a context variable, or 403. */
  datatype Response = Viewed(tenant: Option<Tenant>, context: Option<nat>) | Inactive403

  class TenantMiddleware {
    var cache: Cache
    var contextTenant: Option<nat>

    constructor ()
      ensures cache == map[] && contextTenant == None
    {
      cache, contextTenant := map[], None;
    }

    /** `_resolve_tenant`, reading the cache at `t0`, the database at `t1` and writing at `t2`. */
    method ResolveTenant(host: string, db: Answers, t0: nat, t1: nat, t2: nat) returns (tenant: Option<Tenant>)
      requires t0 <= t1 <= t2
      modifies this`cache
      ensures var hit := Get(old(cache), host, t0);
        && (hit.Some? ==> tenant == hit.value.answer && cache == old(cache))
        && (hit.None? ==> tenant == db(t1, host) && cache == Set(old(cache), host, db(t1, host), t2))
    {
      var cached := Get(cache, host, t0);
      if cached.Some? {
        return cached.value.answer;
      }
      tenant := db(t1, host);
      if tenant.Some? {
        cache := cache[host := Entry(tenant, t2 + TENANT_TTL)];
      } else {
        cache := cache[host := Entry(None, t2 + NEGATIVE_TTL)];
      }
    }

    method InvalidateCache(host: string)
      modifies this`cache
      ensures cache == old(cache) - {host}
    {
      cache := cache - {host};
    }

    /** `__call__`. The context variable is cleared after every view, so that it never outlives the
        request it was set for; a refused request leaves it as it was. */
    method Call(path: string, rawHost: string, db: Answers, t0: nat, t1: nat, t2: nat) returns (r: Response)
      requires t0 <= t1 <= t2
      modifies this
      ensures IsExempt(path) ==> r == Viewed(None, None) && cache == old(cache) && contextTenant == None
      ensures !IsExempt(path) ==>
        var hit := Get(old(cache), StripPort(rawHost), t0);
        var tenant := if hit.Some? then hit.value.answer else db(t1, StripPort(rawHost));
        && cache == (if hit.Some? then old(cache) else Set(old(cache), StripPort(rawHost), tenant, t2))
        && if Refused(path, tenant) then r == Inactive403 && contextTenant == old(contextTenant)
           else
             && r == Viewed(tenant, if tenant.Some? then Some(tenant.value.id) else old(contextTenant))
             && contextTenant == None
      ensures old(contextTenant) == None ==> contextTenant == None
    {
      if IsExempt(path) {
        contextTenant := None;
        r := Viewed(None, contextTenant);
        return;
      }
      var tenant := ResolveTenant(StripPort(rawHost), db, t0, t1, t2);
      if tenant.Some? && !tenant.value.isActive {
        return Inactive403;
      }
      if tenant.Some? {
        contextTenant := Some(tenant.value.id);
      }
      r := Viewed(tenant, contextTenant);
      contextTenant := None;
    }
  }

  /** `ResolveTenant` is the three steps of the machine taken by one request with nobody between. */
  lemma SequentialLookup(db: Answers, s: State, q: nat, host: string, d1: nat, d2: nat)
    requires q !in s.pending
    ensures var s1 := Act(db, s, ReadCache(q, host));
      var s2 := Act(db, Act(db, s1, Tick(d1)), ReadDb(q));
      var s3 := Act(db, Act(db, s2, Tick(d2)), WriteCache(q));
      var hit := Get(s.cache, host, s.now);
      && s3.pending == s.pending
      && |s3.resolved| == |s.resolved| + 1
      && if hit.Some? then s3.cache == s.cache && s3.resolved[|s.resolved|] == Resolution(host, hit.value.answer, s.now)
         else s3.cache == Set(s.cache, host, db(s.now + d1, host), s.now + d1 + d2) &&
              s3.resolved[|s.resolved|] == Resolution(host, db(s.now + d1, host), s.now + d1 + d2)
  {
  }

  /** Which requests are refused: those for an inactive tenant, except on the root path and below the seven exempt
      prefixes. */
  lemma RefusalExact(path: string, answer: Option<Tenant>)
    ensures Refused(path, answer) <==>
      && answer.Some? && !answer.value.isActive
      && path != "/" && !("/admin/" <= path) && !("/health/" <= path) && !("/ready/" <= path)
      && !("/api/schema/" <= path) && !("/api/docs/" <= path) && !("/api/redoc/" <= path) && !("/static/" <= path)
  {
    assert EXEMPT_PREFIXES[0] == "/admin/" && EXEMPT_PREFIXES[1] == "/health/" && EXEMPT_PREFIXES[2] == "/ready/";
    assert EXEMPT_PREFIXES[3] == "/api/schema/" && EXEMPT_PREFIXES[4] == "/api/docs/";
    assert EXEMPT_PREFIXES[5] == "/api/redoc/" && EXEMPT_PREFIXES[6] == "/static/";
  }

  /** A tenant inactive for 300 + d is refused on every path that is not exempt. */
  lemma InactiveIsRefused(db: Answers, actions: seq<Action>, d: nat, i: nat, path: string)
    requires Prompt(db, actions, d) && i < |Run(db, actions).resolved| && !IsExempt(path)
    requires var r := Run(db, actions).resolved[i];
      forall s: nat | r.at - 300 - d <= s <= r.at :: db(s, r.host).Some? && !db(s, r.host).value.isActive
    ensures Refused(path, Run(db, actions).resolved[i].answer)
  {
    BoundedStaleness(db, actions, d, i);
    var r := Run(db, actions).resolved[i];
    var s: nat :| r.at - (if r.answer.Some? then 300 else 60) - d <= s <= r.at && db(s, r.host) == r.answer;
  }
}
