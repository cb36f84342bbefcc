/** The idempotent task runner: a timed cache around an operation that may fail, retried by the
    task policy.

    One key is followed. Deliveries of it do not overlap, and the cache drops an entry only when it
    expires. */
module Idempotency {

  import opened Rows

  /** Retries after the first attempt of one delivery. */
  const TASK_MAX_RETRIES: nat := 3

  const KEY_PREFIX := "celery:idempotent"

  function BuildKey(taskName: string, businessId: string): string {
    taskName + ":" + businessId
  }

  function CacheKey(key: string): string {
    KEY_PREFIX + ":" + key
  }

  /** Keys of one task are as distinct as the business identifiers, and so are their cache keys. */
  lemma KeysDistinct(taskName: string, a: string, b: string)
    ensures CacheKey(BuildKey(taskName, a)) == "celery:idempotent:" + taskName + ":" + a
    ensures CacheKey(BuildKey(taskName, a)) == CacheKey(BuildKey(taskName, b)) ==> a == b
  {
    var p := KEY_PREFIX + ":" + (taskName + ":");
    assert CacheKey(BuildKey(taskName, a)) == p + a && CacheKey(BuildKey(taskName, b)) == p + b;
    assert (p + a)[|p|..] == a && (p + b)[|p|..] == b;
  }

  /** What the operation gives when it returns: `None` in Python, or another value. */
  datatype Value = PyNone | Value(text: string)

  /** A cached result; a timeout of zero or less leaves it expired at once. */
  datatype Entry = Entry(value: Value, expires: int)

  /** One attempt: when it starts, when its operation would finish, and what the operation does,
      None standing for an exception. */
  datatype Try = Try(start: nat, finish: nat, outcome: Option<Value>)

  datatype Result = Cached(value: Value) | Executed(value: Value) | Raised

  /** `cache.get`, where an entry holding `None` cannot be told from no entry. */
  function Hit(entry: Option<Entry>, now: nat): Option<Value> {
    if entry.Some? && now < entry.value.expires && entry.value.value != PyNone then Some(entry.value.value) else None
  }

  /** `run` for one attempt: the new entry and the result. */
  function RunOnce(entry: Option<Entry>, t: Try, ttl: int): (Option<Entry>, Result) {
    if Hit(entry, t.start).Some? then (entry, Cached(Hit(entry, t.start).value))
    else if t.outcome.None? then (entry, Raised)
    else (Some(Entry(t.outcome.value, t.finish + ttl)), Executed(t.outcome.value))
  }

  // ---- One key over many attempts --------------------------------------------------------

  /** Attempts one after the other. */
  ghost predicate InOrder(tries: seq<Try>) {
    (forall i | 0 <= i < |tries| :: tries[i].start <= tries[i].finish) &&
    (forall i, j | 0 <= i < j < |tries| :: tries[i].finish <= tries[j].start)
  }

  function EntryAfter(tries: seq<Try>, ttl: int): Option<Entry> {
    if tries == [] then None else RunOnce(EntryAfter(tries[..|tries| - 1], ttl), tries[|tries| - 1], ttl).0
  }

  function ResultOf(tries: seq<Try>, ttl: int, i: nat): Result
    requires i < |tries|
  {
    RunOnce(EntryAfter(tries[..i], ttl), tries[i], ttl).1
  }

  /** The completion times of the successful executions, oldest first. */
  function Successes(tries: seq<Try>, ttl: int): seq<nat> {
    if tries == [] then []
    else
      var n := |tries| - 1;
      Successes(tries[..n], ttl) +
      if RunOnce(EntryAfter(tries[..n], ttl), tries[n], ttl).1.Executed? then [tries[n].finish] else []
  }

  /** No operation returns `None`. */
  ghost predicate NeverNone(tries: seq<Try>) {
    forall i | 0 <= i < |tries| :: tries[i].outcome != Some(PyNone)
  }

  /** The entry in the cache is the last success, and it stays until its time to live is over. */
  lemma {:induction false} LastSuccess(tries: seq<Try>, ttl: int)
    requires NeverNone(tries)
    ensures var s, e := Successes(tries, ttl), EntryAfter(tries, ttl);
      if s == [] then e == None
      else e.Some? && e.value.value != PyNone && e.value.expires == s[|s| - 1] + ttl
  {
    if tries != [] {
      var n := |tries| - 1;
      LastSuccess(tries[..n], ttl);
      assert tries[n].outcome != Some(PyNone);
    }
  }

  lemma {:induction false} SuccessesBefore(tries: seq<Try>, ttl: int)
    requires InOrder(tries)
    ensures forall x | x in Successes(tries, ttl) :: exists i | 0 <= i < |tries| :: tries[i].finish == x
  {
    if tries != [] {
      SuccessesBefore(tries[..|tries| - 1], ttl);
    }
  }

  /** Successful executions complete in order, at least `ttl` apart. */
  ghost predicate Spaced(s: seq<nat>, ttl: int) {
    forall i, j | 0 <= i < j < |s| :: s[i] <= s[j] && s[i] + ttl <= s[j]
  }

  lemma SpacedAppend(s: seq<nat>, x: nat, ttl: int)
    requires Spaced(s, ttl) && forall y | y in s :: y <= x
    requires s != [] ==> s[|s| - 1] + ttl <= x
    ensures Spaced(s + [x], ttl)
  {
    assert forall i | 0 <= i < |s| :: s[i] in s;
  }

  lemma {:induction false} SuccessesSpaced(tries: seq<Try>, ttl: int)
    requires InOrder(tries) && NeverNone(tries)
    ensures Spaced(Successes(tries, ttl), ttl)
  {
    if tries != [] {
      var n := |tries| - 1;
      SuccessesSpaced(tries[..n], ttl);
      LastSuccess(tries[..n], ttl);
      SuccessesBefore(tries[..n], ttl);
      if RunOnce(EntryAfter(tries[..n], ttl), tries[n], ttl).1.Executed? {
        SpacedAppend(Successes(tries[..n], ttl), tries[n].finish, ttl);
      }
    }
  }

  lemma {:induction false} SpacedFrom(s: seq<nat>, ttl: int, i: nat, j: nat)
    requires Spaced(s, ttl) && ttl >= 0 && i <= j < |s|
    ensures s[i] + (j - i) * ttl <= s[j]
    decreases j - i
  {
    if i < j {
      SpacedFrom(s, ttl, i, j - 1);
      assert (j - i) * ttl == (j - 1 - i) * ttl + ttl;
      assert s[j - 1] + ttl <= s[j];
    }
  }

  /** The execution bound: a window of length `length` holds at most 1 + length / ttl successful
      executions. `i` and `j` are the first and the last success inside the window. */
  lemma ExecutionBound(tries: seq<Try>, ttl: int, length: nat, i: nat, j: nat)
    requires InOrder(tries) && NeverNone(tries) && ttl > 0
    requires i <= j < |Successes(tries, ttl)|
    requires Successes(tries, ttl)[j] - Successes(tries, ttl)[i] <= length
    ensures j - i + 1 <= 1 + length / ttl
  {
    SuccessesSpaced(tries, ttl);
    SpacedFrom(Successes(tries, ttl), ttl, i, j);
    QuotientBound(j - i, ttl, length);
  }

  lemma ScaledOrder(a: int, b: int, c: nat)
    requires a <= b
    ensures a * c <= b * c
  {
  }

  lemma QuotientBound(k: nat, ttl: int, length: nat)
    requires ttl > 0 && k * ttl <= length
    ensures k <= length / ttl
  {
    var q, r := length / ttl, length % ttl;
    assert length == q * ttl + r && r < ttl;
    assert (q + 1) * ttl == q * ttl + ttl;
    if k > q {
      ScaledOrder(q + 1, k, ttl);
    }
  }

  /** A duplicate within the time to live gets the cached result without running the operation,
      exactly when that result is not `None`. */
  lemma DuplicateExactly(entry: Option<Entry>, first: Try, again: Try, ttl: int)
    requires RunOnce(entry, first, ttl).1.Executed? && again.start < first.finish + ttl
    ensures var (after, r) := RunOnce(entry, first, ttl);
      RunOnce(after, again, ttl) == (after, Cached(r.value)) <==> r.value != PyNone
  {
  }

  /** What attempt `i` stored is still the entry before attempt `j`, as long as it lives. */
  lemma {:induction false} EntryStays(tries: seq<Try>, ttl: int, i: nat, j: nat)
    requires InOrder(tries) && i < j < |tries|
    requires var r := ResultOf(tries, ttl, i); r.Executed? && r.value != PyNone
    requires tries[j].start < tries[i].finish + ttl
    ensures EntryAfter(tries[..j], ttl) == Some(Entry(ResultOf(tries, ttl, i).value, tries[i].finish + ttl))
    decreases j
  {
    assert tries[..j][..j - 1] == tries[..j - 1];
    if j > i + 1 {
      EntryStays(tries, ttl, i, j - 1);
    }
  }

  /** Every duplicate within the time to live, however many attempts later, gets the cached result. */
  lemma DuplicatesAreCached(tries: seq<Try>, ttl: int, i: nat, j: nat)
    requires InOrder(tries) && i < j < |tries|
    requires var r := ResultOf(tries, ttl, i); r.Executed? && r.value != PyNone
    requires tries[j].start < tries[i].finish + ttl
    ensures ResultOf(tries, ttl, j) == Cached(ResultOf(tries, ttl, i).value)
  {
    EntryStays(tries, ttl, i, j);
  }

  /** Attempt `i` ran and gave something other than `None`, within the time to live before attempt `j` starts. */
  ghost predicate Covers(tries: seq<Try>, ttl: int, i: nat, j: nat)
    requires i < |tries| && j < |tries|
  {
    var r := ResultOf(tries, ttl, i);
    r.Executed? && r.value != PyNone && tries[i].finish + ttl > tries[j].start
  }

  /** A value in the cache was stored by an execution, which its lifetime starts from. */
  lemma {:induction false} EntryOrigin(tries: seq<Try>, ttl: int)
    ensures var e := EntryAfter(tries, ttl);
      e.Some? ==> exists i | 0 <= i < |tries| ::
        ResultOf(tries, ttl, i) == Executed(e.value.value) && e.value.expires == tries[i].finish + ttl
  {
    if tries != [] {
      var n := |tries| - 1;
      var init, e := tries[..n], EntryAfter(tries, ttl);
      EntryOrigin(init, ttl);
      if e == EntryAfter(init, ttl) && e.Some? {
        var i :| 0 <= i < n && ResultOf(init, ttl, i) == Executed(e.value.value) &&
          e.value.expires == init[i].finish + ttl;
        assert init[..i] == tries[..i];
      } else if e.Some? {
        assert ResultOf(tries, ttl, n) == Executed(e.value.value);
      }
    }
  }

  /** What every attempt does. It is answered from the cache exactly when an earlier execution covers it, with that
      execution's value; otherwise, and so again once every lifetime is over, the operation runs and the attempt
      gives what the operation gives. */
  lemma AttemptExactly(tries: seq<Try>, ttl: int, j: nat)
    requires InOrder(tries) && j < |tries|
    ensures (exists i | 0 <= i < j :: Covers(tries, ttl, i, j)) <==> ResultOf(tries, ttl, j).Cached?
    ensures forall i | 0 <= i < j && Covers(tries, ttl, i, j) ::
      ResultOf(tries, ttl, j) == Cached(ResultOf(tries, ttl, i).value)
    ensures (forall i | 0 <= i < j :: !Covers(tries, ttl, i, j)) ==>
      ResultOf(tries, ttl, j) == if tries[j].outcome.Some? then Executed(tries[j].outcome.value) else Raised
  {
    forall i | 0 <= i < j && Covers(tries, ttl, i, j)
      ensures ResultOf(tries, ttl, j) == Cached(ResultOf(tries, ttl, i).value)
    {
      DuplicatesAreCached(tries, ttl, i, j);
    }
    var before := tries[..j];
    EntryOrigin(before, ttl);
    var e := EntryAfter(before, ttl);
    if ResultOf(tries, ttl, j).Cached? {
      var i :| 0 <= i < j && ResultOf(before, ttl, i) == Executed(e.value.value) &&
        e.value.expires == before[i].finish + ttl;
      assert before[..i] == tries[..i];
      assert Covers(tries, ttl, i, j);
    }
  }

  /** An attempt that raises leaves the cache as it was. */
  lemma FailureKeepsCache(entry: Option<Entry>, t: Try, ttl: int)
    ensures RunOnce(entry, t, ttl).1.Raised? ==> RunOnce(entry, t, ttl).0 == entry
    ensures RunOnce(entry, t, ttl).1.Raised? <==> Hit(entry, t.start).None? && t.outcome.None?
  {
  }

  /** With an operation that returns `None`, two executions may complete at the same time. */
  lemma NoneIsRunAgain(ttl: int)
    requires ttl > 0
    ensures var t := Try(0, 0, Some(PyNone)); InOrder([t, t]) && !Spaced(Successes([t, t], ttl), ttl)
  {
    var t := Try(0, 0, Some(PyNone));
    var e := Some(Entry(PyNone, ttl));
    assert [t][..0] == [] && [t, t][..1] == [t];
    assert EntryAfter([t], ttl) == e;
    assert Successes([t], ttl) == [0];
    var s := Successes([t, t], ttl);
    assert s == [0, 0];
    assert s[0] + ttl > s[1];
  }

  // ---- Many deliveries -------------------------------------------------------------------

  /** Deliveries one after the other, each with a plan for all the attempts it may make. What a plan says
      of the attempts that are not made does not matter. */
  ghost predicate PlansInOrder(plans: seq<seq<Try>>) {
    && (forall k | 0 <= k < |plans| :: |plans[k]| == TASK_MAX_RETRIES + 1 && InOrder(plans[k]))
    && (forall k, l, i, j | 0 <= k < l < |plans| && 0 <= i < |plans[k]| && 0 <= j < |plans[l]| ::
        plans[k][i].finish <= plans[l][j].start)
  }

  ghost predicate NoPlanGivesNone(plans: seq<seq<Try>>) {
    forall k | 0 <= k < |plans| :: NeverNone(plans[k])
  }

  /** The attempts made so far come before those of the plans from `k` on. */
  ghost predicate Precedes(made: seq<Try>, plans: seq<seq<Try>>, k: nat) {
    forall m, l, j | 0 <= m < |made| && k <= l < |plans| && 0 <= j < |plans[l]| :: made[m].finish <= plans[l][j].start
  }

  /** The attempts made when delivery `k` makes the first `counts[k]` of its plan. */
  function Made(plans: seq<seq<Try>>, counts: seq<nat>): seq<Try>
    requires |counts| == |plans| && forall k | 0 <= k < |plans| :: counts[k] <= |plans[k]|
  {
    if plans == [] then []
    else
      var n := |plans| - 1;
      Made(plans[..n], counts[..n]) + plans[n][..counts[n]]
  }

  /** Every attempt from `from` to just before `end` raised. */
  ghost predicate RaisedUntil(made: seq<Try>, ttl: int, from: nat, end: nat)
    requires end <= |made|
  {
    forall i | from <= i < end :: ResultOf(made, ttl, i).Raised?
  }

  /** One delivery after some attempts: attempts that raised, and a last one. */
  lemma {:induction false} OneDelivery(made: seq<Try>, plan: seq<Try>, n: nat, ttl: int)
    requires 1 <= n <= |plan|
    requires var e := EntryAfter(made, ttl); forall i | 0 <= i < n - 1 :: RunOnce(e, plan[i], ttl) == (e, Raised)
    ensures var all := made + plan[..n];
      && (EntryAfter(all, ttl), ResultOf(all, ttl, |all| - 1)) == RunOnce(EntryAfter(made, ttl), plan[n - 1], ttl)
      && RaisedUntil(all, ttl, |made|, |all| - 1)
  {
    var all := made + plan[..n];
    assert all[..|all| - 1] == made + plan[..n - 1];
    if n > 1 {
      OneDelivery(made, plan, n - 1, ttl);
      LaterAttempts(made + plan[..n - 1], [plan[n - 1]], ttl);
      assert all == made + plan[..n - 1] + [plan[n - 1]];
    } else {
      assert made + plan[..0] == made;
    }
  }

  /** Later attempts do not change the results of the earlier ones. */
  lemma LaterAttempts(made: seq<Try>, more: seq<Try>, ttl: int)
    ensures forall i | 0 <= i < |made| :: ResultOf(made + more, ttl, i) == ResultOf(made, ttl, i)
  {
    forall i | 0 <= i < |made| ensures ResultOf(made + more, ttl, i) == ResultOf(made, ttl, i) {
      assert (made + more)[..i] == made[..i];
    }
  }

  /** What the deliveries from 0 to `n` did, when `starts[k]` is where delivery `k` begins in `made`. */
  ghost predicate Accounted(
    made: seq<Try>, ttl: int, starts: seq<nat>, counts: seq<nat>, results: seq<Result>, n: nat)
  {
    && |starts| == |counts| == |results| == n
    && forall k | 0 <= k < n ::
      && 1 <= counts[k] <= 4 && starts[k] + counts[k] <= |made|
      && results[k] == ResultOf(made, ttl, starts[k] + counts[k] - 1)
      && RaisedUntil(made, ttl, starts[k], starts[k] + counts[k] - 1)
      && (results[k].Raised? ==> counts[k] == 4)
  }

  lemma AccountedMore(
    made: seq<Try>, plan: seq<Try>, n: nat, ttl: int, starts: seq<nat>, counts: seq<nat>, results: seq<Result>,
    r: Result)
    requires Accounted(made, ttl, starts, counts, results, |starts|)
    requires 1 <= n <= |plan| == TASK_MAX_RETRIES + 1 && (r.Raised? ==> n == |plan|)
    requires var all := made + plan[..n]; r == ResultOf(all, ttl, |all| - 1) && RaisedUntil(all, ttl, |made|, |all| - 1)
    ensures Accounted(made + plan[..n], ttl, starts + [|made|], counts + [n], results + [r], |starts| + 1)
  {
    LaterAttempts(made, plan[..n], ttl);
  }

  /** Executions as dense as the bound allows: between any two, inclusive, 1 + distance / ttl at most. */
  ghost predicate Bounded(s: seq<nat>, ttl: int)
    requires ttl > 0
  {
    forall i, j | 0 <= i <= j < |s| :: s[i] <= s[j] && j - i + 1 <= 1 + (s[j] - s[i]) / ttl
  }

  lemma AllBounded(tries: seq<Try>, ttl: int)
    requires InOrder(tries) && NeverNone(tries) && ttl > 0
    ensures Bounded(Successes(tries, ttl), ttl)
  {
    var s := Successes(tries, ttl);
    SuccessesSpaced(tries, ttl);
    forall i, j | 0 <= i <= j < |s| ensures s[i] <= s[j] && j - i + 1 <= 1 + (s[j] - s[i]) / ttl {
      assert i < j ==> s[i] <= s[j];
      ExecutionBound(tries, ttl, s[j] - s[i], i, j);
    }
  }

  /** The attempts made are the chosen first parts of the first `k` plans, one part after the other. */
  ghost predicate FirstParts(
    plans: seq<seq<Try>>, made: seq<Try>, starts: seq<nat>, counts: seq<nat>, k: nat)
  {
    && |starts| == |counts| == k <= |plans|
    && (forall l | 0 <= l < k :: counts[l] <= |plans[l]|)
    && made == Made(plans[..k], counts)
    && (forall l | 0 <= l < k :: starts[l] == |Made(plans[..l], counts[..l])|)
  }

  lemma OneMorePart(plans: seq<seq<Try>>, made: seq<Try>, starts: seq<nat>, counts: seq<nat>, k: nat, n: nat)
    requires FirstParts(plans, made, starts, counts, k) && k < |plans| && n <= |plans[k]|
    ensures FirstParts(plans, made + plans[k][..n], starts + [|made|], counts + [n], k + 1)
  {
    var counts' := counts + [n];
    assert plans[..k + 1][..k] == plans[..k] && counts'[..k] == counts;
    forall l | 0 <= l < k ensures (starts + [|made|])[l] == |Made(plans[..l], counts'[..l])| {
      assert counts'[..l] == counts[..l];
    }
  }

  lemma DeliveryInOrder(made: seq<Try>, plans: seq<seq<Try>>, k: nat, n: nat)
    requires PlansInOrder(plans) && k < |plans| && n <= |plans[k]| && InOrder(made) && Precedes(made, plans, k)
    ensures InOrder(made + plans[k][..n]) && Precedes(made + plans[k][..n], plans, k + 1)
    ensures NoPlanGivesNone(plans) && NeverNone(made) ==> NeverNone(made + plans[k][..n])
  {
  }

  /** After the first `k` deliveries. */
  ghost predicate Delivered(
    plans: seq<seq<Try>>, made: seq<Try>, ttl: int, starts: seq<nat>, counts: seq<nat>, results: seq<Result>, k: nat)
  {
    && FirstParts(plans, made, starts, counts, k) && Accounted(made, ttl, starts, counts, results, k)
    && InOrder(made) && Precedes(made, plans, k) && (NoPlanGivesNone(plans) ==> NeverNone(made))
  }

  lemma DeliveredMore(
    plans: seq<seq<Try>>, made: seq<Try>, ttl: int, starts: seq<nat>, counts: seq<nat>, results: seq<Result>, k: nat,
    n: nat, r: Result)
    requires PlansInOrder(plans) && Delivered(plans, made, ttl, starts, counts, results, k) && k < |plans|
    requires 1 <= n <= |plans[k]| && (r.Raised? ==> n == |plans[k]|)
    requires var all := made + plans[k][..n];
      r == ResultOf(all, ttl, |all| - 1) && RaisedUntil(all, ttl, |made|, |all| - 1)
    ensures Delivered(
      plans, made + plans[k][..n], ttl, starts + [|made|], counts + [n], results + [r], k + 1)
  {
    DeliveryInOrder(made, plans, k, n);
    AccountedMore(made, plans[k], n, ttl, starts, counts, results, r);
    OneMorePart(plans, made, starts, counts, k, n);
  }

  /** What the attempts of all deliveries keep to when no operation gives `None`. */
  ghost predicate SpacedAndBounded(made: seq<Try>, ttl: int) {
    && NeverNone(made) && Spaced(Successes(made, ttl), ttl)
    && (ttl > 0 ==> Bounded(Successes(made, ttl), ttl))
  }

  lemma AllSpacedAndBounded(
    plans: seq<seq<Try>>, made: seq<Try>, ttl: int, starts: seq<nat>, counts: seq<nat>, results: seq<Result>)
    requires Delivered(plans, made, ttl, starts, counts, results, |plans|)
    ensures NoPlanGivesNone(plans) ==> SpacedAndBounded(made, ttl)
  {
    if NoPlanGivesNone(plans) {
      SuccessesSpaced(made, ttl);
      if ttl > 0 {
        AllBounded(made, ttl);
      }
    }
  }

  // ---- The service object ----------------------------------------------------------------

  class IdempotencyService {
    var cache: map<string, Entry>

    constructor ()
      ensures cache == map[]
    {
      cache := map[];
    }

    function EntryOf(key: string): Option<Entry>
      reads this
    {
      if CacheKey(key) in cache then Some(cache[CacheKey(key)]) else None
    }

    /** `run`: reads the cache at `t.start`; the operation, if called, ends at `t.finish`. */
    method Run(key: string, t: Try, ttl: int) returns (r: Result)
      requires t.start <= t.finish
      modifies this
      ensures (EntryOf(key), r) == RunOnce(old(EntryOf(key)), t, ttl)
      ensures cache - {CacheKey(key)} == old(cache) - {CacheKey(key)}
    {
      var fullKey := CacheKey(key);
      if fullKey in cache && t.start < cache[fullKey].expires && cache[fullKey].value != PyNone {
        return Cached(cache[fullKey].value);
      }
      match t.outcome
      case None => r := Raised;
      case Some(v) =>
        cache := cache[fullKey := Entry(v, t.finish + ttl)];
        r := Executed(v);
    }

    /** One delivery of a task: attempts until one does not raise, at most 1 + 3 of them. `plan` says
        how each attempt would go. */
    method Deliver(key: string, plan: seq<Try>, ttl: int) returns (attempts: nat, r: Result)
      requires |plan| == TASK_MAX_RETRIES + 1 && InOrder(plan)
      modifies this
      ensures 1 <= attempts <= 4
      ensures r.Raised? ==> attempts == 4
      ensures forall i | 0 <= i < attempts - 1 ::
        RunOnce(old(EntryOf(key)), plan[i], ttl) == (old(EntryOf(key)), Raised)
      ensures (EntryOf(key), r) == RunOnce(old(EntryOf(key)), plan[attempts - 1], ttl)
      ensures cache - {CacheKey(key)} == old(cache) - {CacheKey(key)}
    {
      attempts := 1;
      r := Run(key, plan[0], ttl);
      while r.Raised? && attempts <= TASK_MAX_RETRIES
        invariant 1 <= attempts <= TASK_MAX_RETRIES + 1
        invariant forall i | 0 <= i < attempts - 1 ::
          RunOnce(old(EntryOf(key)), plan[i], ttl) == (old(EntryOf(key)), Raised)
        invariant (EntryOf(key), r) == RunOnce(old(EntryOf(key)), plan[attempts - 1], ttl)
        invariant cache - {CacheKey(key)} == old(cache) - {CacheKey(key)}
        decreases TASK_MAX_RETRIES + 1 - attempts
      {
        FailureKeepsCache(old(EntryOf(key)), plan[attempts - 1], ttl);
        r := Run(key, plan[attempts], ttl);
        attempts := attempts + 1;
      }
    }

    /** The next delivery after the attempts `made`. */
    method DeliverNext(key: string, plans: seq<seq<Try>>, k: nat, ttl: int, ghost made: seq<Try>)
      returns (attempts: nat, r: Result)
      requires PlansInOrder(plans) && k < |plans| && EntryOf(key) == EntryAfter(made, ttl)
      modifies this
      ensures 1 <= attempts <= |plans[k]| && (r.Raised? ==> attempts == |plans[k]|)
      ensures var all := made + plans[k][..attempts];
        && EntryOf(key) == EntryAfter(all, ttl) && r == ResultOf(all, ttl, |all| - 1)
        && RaisedUntil(all, ttl, |made|, |all| - 1)
    {
      attempts, r := Deliver(key, plans[k], ttl);
      OneDelivery(made, plans[k], attempts, ttl);
    }

    /** Delivery `k`, added to what the deliveries before it did. */
    method DeliverMore(
      key: string, plans: seq<seq<Try>>, k: nat, ttl: int, made: seq<Try>, starts: seq<nat>, counts: seq<nat>,
      results: seq<Result>)
      returns (made': seq<Try>, starts': seq<nat>, counts': seq<nat>, results': seq<Result>)
      requires PlansInOrder(plans) && k < |plans| && Delivered(plans, made, ttl, starts, counts, results, k)
      requires EntryOf(key) == EntryAfter(made, ttl)
      modifies this
      ensures Delivered(plans, made', ttl, starts', counts', results', k + 1)
      ensures EntryOf(key) == EntryAfter(made', ttl)
    {
      var attempts, r := DeliverNext(key, plans, k, ttl, made);
      DeliveredMore(plans, made, ttl, starts, counts, results, k, attempts, r);
      made', starts' := made + plans[k][..attempts], starts + [|made|];
      counts', results' := counts + [attempts], results + [r];
    }

    /** Deliveries of one key, one after the other. Each makes the first attempts of its plan, up to one that does
        not raise and four at most, and gives that last attempt's result; together they are one sequence of
        attempts of the key, so that the execution bound holds for the deliveries. */
    method DeliverAll(key: string, plans: seq<seq<Try>>, ttl: int)
      returns (made: seq<Try>, starts: seq<nat>, counts: seq<nat>, results: seq<Result>)
      requires PlansInOrder(plans) && EntryOf(key) == None
      modifies this
      ensures Delivered(plans, made, ttl, starts, counts, results, |plans|)
      ensures EntryOf(key) == EntryAfter(made, ttl)
      ensures NoPlanGivesNone(plans) ==> SpacedAndBounded(made, ttl)
    {
      made, starts, counts, results := [], [], [], [];
      for k := 0 to |plans|
        invariant Delivered(plans, made, ttl, starts, counts, results, k) && EntryOf(key) == EntryAfter(made, ttl)
      {
        made, starts, counts, results := DeliverMore(key, plans, k, ttl, made, starts, counts, results);
      }
      AllSpacedAndBounded(plans, made, ttl, starts, counts, results);
    }
  }
}
