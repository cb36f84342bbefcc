/** The change log as a sequence of field-level deltas, with forward and backward replay.

    A table set maps the key of a row (model and primary key) to the text of its fields. */
module DeltaLog {

  import opened Rows

  type Fields = map<string, string>

  datatype Model = RoleModel | MembershipModel | FlagModel

  datatype Key = Key(model: Model, pk: nat)

  type Tables = map<Key, Fields>

  /** `before` holds None for a field that had no recorded old value. */
  datatype Delta =
    | Create(key: Key, after: Fields)
    | Update(key: Key, before: map<string, Option<string>>, after: Fields)
    | Delete(key: Key, gone: Fields)

  function Lookup(row: Fields, field: string): Option<string> {
    if field in row then Some(row[field]) else None
  }

  // ---- One delta -------------------------------------------------------------------------

  function Patch(row: Fields, after: Fields): Fields {
    row + after
  }

  function Unpatch(row: Fields, before: map<string, Option<string>>): Fields {
    map f | f in row.Keys + before.Keys && (f in before ==> before[f].Some?) ::
      if f in before then before[f].value else row[f]
  }

  function Apply(t: Tables, d: Delta): Tables {
    match d
    case Create(key, after) => t[key := after]
    case Update(key, _, after) => if key in t then t[key := Patch(t[key], after)] else t
    case Delete(key, _) => t - {key}
  }

  function Undo(t: Tables, d: Delta): Tables {
    match d
    case Create(key, _) => t - {key}
    case Update(key, before, _) => if key in t then t[key := Unpatch(t[key], before)] else t
    case Delete(key, gone) => t[key := gone]
  }

  /** `d` records a change that starts from `t`: its `before` part is what `t` holds. */
  ghost predicate Fits(t: Tables, d: Delta) {
    match d
    case Create(key, _) => key !in t
    case Update(key, before, after) =>
      key in t && before.Keys == after.Keys && forall f | f in before :: before[f] == Lookup(t[key], f)
    case Delete(key, gone) => key in t && t[key] == gone
  }

  lemma UndoApply(t: Tables, d: Delta)
    requires Fits(t, d)
    ensures Undo(Apply(t, d), d) == t
  {
    if d.Update? {
      assert Unpatch(Patch(t[d.key], d.after), d.before) == t[d.key];
    }
  }

  // ---- Whole logs ------------------------------------------------------------------------

  function Replay(t: Tables, log: seq<Delta>): Tables {
    if log == [] then t else Apply(Replay(t, log[..|log| - 1]), log[|log| - 1])
  }

  /** Undoes the deltas of `log`, the newest first. */
  function Rewind(t: Tables, log: seq<Delta>): Tables
    decreases |log|
  {
    if log == [] then t else Rewind(Undo(t, log[|log| - 1]), log[..|log| - 1])
  }

  ghost predicate FitsAll(t: Tables, log: seq<Delta>) {
    log == [] ||
    (FitsAll(t, log[..|log| - 1]) && Fits(Replay(t, log[..|log| - 1]), log[|log| - 1]))
  }

  lemma {:induction false} ReplayConcat(t: Tables, a: seq<Delta>, b: seq<Delta>)
    ensures Replay(t, a + b) == Replay(Replay(t, a), b)
  {
    if b == [] {
      assert a + b == a;
    } else {
      var n := |b| - 1;
      assert (a + b)[..|a + b| - 1] == a + b[..n];
      ReplayConcat(t, a, b[..n]);
    }
  }

  lemma {:induction false} FitsConcat(t: Tables, a: seq<Delta>, b: seq<Delta>)
    ensures FitsAll(t, a + b) <==> FitsAll(t, a) && FitsAll(Replay(t, a), b)
  {
    if b == [] {
      assert a + b == a;
    } else {
      var n := |b| - 1;
      assert (a + b)[..|a + b| - 1] == a + b[..n];
      FitsConcat(t, a, b[..n]);
      ReplayConcat(t, a, b[..n]);
    }
  }

  /** Backward replay inverts forward replay on every log that fits. */
  lemma {:induction false} RewindReplay(t: Tables, log: seq<Delta>)
    requires FitsAll(t, log)
    ensures Rewind(Replay(t, log), log) == t
  {
    if log != [] {
      var n := |log| - 1;
      UndoApply(Replay(t, log[..n]), log[n]);
      RewindReplay(t, log[..n]);
    }
  }

  /** Undoing the last `k` deltas of a log gives the tables as they stood before them. */
  lemma {:induction false} RewindSuffix(t: Tables, log: seq<Delta>, k: nat)
    requires FitsAll(t, log) && k <= |log|
    ensures Rewind(Replay(t, log), log[|log| - k..]) == Replay(t, log[..|log| - k])
  {
    var a, b := log[..|log| - k], log[|log| - k..];
    assert a + b == log;
    ReplayConcat(t, a, b);
    FitsConcat(t, a, b);
    RewindReplay(Replay(t, a), b);
  }

  /** A creation followed by the deletion of the same row changes nothing. */
  lemma CreateDelete(t: Tables, key: Key, after: Fields, gone: Fields)
    requires key !in t
    ensures Replay(t, [Create(key, after), Delete(key, gone)]) == t
  {
    var log := [Create(key, after), Delete(key, gone)];
    assert log[..1] == [Create(key, after)] && log[..1][..0] == [];
    assert Replay(t, log[..1]) == Apply(t, log[0]);
    assert Replay(t, log) == Apply(Replay(t, log[..1]), log[1]);
    assert t[key := after] - {key} == t;
  }

  // ---- The field-level diff --------------------------------------------------------------

  /** The new texts of the fields that changed, password excepted. */
  function Changed(fields: set<string>, old_: Fields, new_: Fields): (r: Fields)
    requires fields <= new_.Keys
  {
    map f | f in fields && f != "password" && Lookup(old_, f) != Some(new_[f]) :: new_[f]
  }

  /** The old texts of the same fields. */
  function Was(fields: set<string>, old_: Fields, new_: Fields): (r: map<string, Option<string>>)
    requires fields <= new_.Keys
  {
    map f | f in fields && f != "password" && Lookup(old_, f) != Some(new_[f]) :: Lookup(old_, f)
  }

  /** Diff and patch are mutual inverses when `fields` covers both versions of the row. */
  lemma DiffPatch(old_: Fields, new_: Fields)
    requires old_.Keys <= new_.Keys && "password" !in new_
    ensures Patch(old_, Changed(new_.Keys, old_, new_)) == new_
    ensures Unpatch(new_, Was(new_.Keys, old_, new_)) == old_
    ensures Changed(new_.Keys, old_, new_) == map[] <==> old_ == new_
  {
    DiffNothing(old_, new_);
    DiffForth(old_, new_);
    DiffBack(old_, new_);
  }

  lemma DiffNothing(old_: Fields, new_: Fields)
    requires old_.Keys <= new_.Keys && "password" !in new_
    ensures Changed(new_.Keys, old_, new_) == map[] <==> old_ == new_
  {
    if old_ != new_ {
      if old_.Keys == new_.Keys {
        var f :| f in old_ && old_[f] != new_[f];
        assert f in Changed(new_.Keys, old_, new_);
      } else {
        var f :| f in new_ && f !in old_;
        assert f in Changed(new_.Keys, old_, new_);
      }
    }
  }

  lemma DiffForth(old_: Fields, new_: Fields)
    requires old_.Keys <= new_.Keys && "password" !in new_
    ensures Patch(old_, Changed(new_.Keys, old_, new_)) == new_
  {
    var c := Changed(new_.Keys, old_, new_);
    forall f | f in new_ ensures Patch(old_, c)[f] == new_[f] {
      assert f in c || Lookup(old_, f) == Some(new_[f]);
    }
  }

  lemma DiffBack(old_: Fields, new_: Fields)
    requires old_.Keys <= new_.Keys && "password" !in new_
    ensures Unpatch(new_, Was(new_.Keys, old_, new_)) == old_
  {
    var w := Was(new_.Keys, old_, new_);
    forall f | f in old_ ensures f in Unpatch(new_, w) && Unpatch(new_, w)[f] == old_[f] {
      assert f in w ==> w[f] == Some(old_[f]);
    }
    forall f | f in Unpatch(new_, w) ensures f in old_ {
      assert f !in old_ ==> Lookup(old_, f) == None;
    }
  }

  // ---- Tables of rows --------------------------------------------------------------------

  ghost predicate OnePerKey<R(!new)>(rows: set<R>, key: R -> Key) {
    forall x, y | x in rows && y in rows && key(x) == key(y) :: x == y
  }

  /** The table set of some rows, given the key and the text of a row. */
  ghost function Tabulate<R(!new)>(rows: set<R>, key: R -> Key, text: R -> Fields): Tables
    requires OnePerKey(rows, key)
  {
    map x | x in rows :: key(x) := text(x)
  }

  lemma TabulateInsert<R(!new)>(rows: set<R>, key: R -> Key, text: R -> Fields, x: R)
    requires OnePerKey(rows, key) && forall y | y in rows :: key(y) != key(x)
    ensures OnePerKey(rows + {x}, key) && key(x) !in Tabulate(rows, key, text)
    ensures Tabulate(rows + {x}, key, text) == Tabulate(rows, key, text)[key(x) := text(x)]
  {
  }

  lemma TabulateDelete<R(!new)>(rows: set<R>, key: R -> Key, text: R -> Fields, x: R)
    requires OnePerKey(rows, key) && x in rows
    ensures key(x) in Tabulate(rows, key, text) && Tabulate(rows, key, text)[key(x)] == text(x)
    ensures Tabulate(rows - {x}, key, text) == Tabulate(rows, key, text) - {key(x)}
  {
  }

  lemma TabulateUpdate<R(!new)>(rows: set<R>, key: R -> Key, text: R -> Fields, x: R, y: R)
    requires OnePerKey(rows, key) && OnePerKey(rows - {x} + {y}, key) && x in rows && key(x) == key(y)
    ensures key(x) in Tabulate(rows, key, text) && Tabulate(rows, key, text)[key(x)] == text(x)
    ensures Tabulate(rows - {x} + {y}, key, text) == Tabulate(rows, key, text)[key(y) := text(y)]
  {
  }

  /** When `f` maps the rows onto `rows'` and `c` does to their text what `f` does to them, the
      tables of `rows'` are the rewritten tables of `rows`. */
  lemma TabulateImage<R(!new)>(
    rows: set<R>, rows': set<R>, key: R -> Key, text: R -> Fields, c: Rewrite, f: R -> R)
    requires OnePerKey(rows, key) && OnePerKey(rows', key)
    requires forall x | x in rows :: f(x) in rows' && key(f(x)) == key(x) && OnFields(c, text(x)) == text(f(x))
    requires forall y | y in rows' :: exists x | x in rows :: f(x) == y
    ensures OnTables(c, Tabulate(rows, key, text)) == Tabulate(rows', key, text)
  {
    var t, t' := Tabulate(rows, key, text), Tabulate(rows', key, text);
    forall k | k in t ensures k in t' && t'[k] == OnFields(c, t[k]) {
      var x :| x in rows && key(x) == k;
      assert key(f(x)) == k;
    }
    forall k | k in t' ensures k in t {
      var y :| y in rows' && key(y) == k;
      var x :| x in rows && f(x) == y;
    }
  }

  // ---- Rewriting the texts of a log ------------------------------------------------------

  /** Rewrites one field text, given the name of the field. */
  type Rewrite = (string, string) -> string

  function OnFields(c: Rewrite, row: Fields): Fields {
    map f | f in row :: c(f, row[f])
  }

  function OnBefore(c: Rewrite, before: map<string, Option<string>>): map<string, Option<string>> {
    map f | f in before :: if before[f].None? then None else Some(c(f, before[f].value))
  }

  function OnTables(c: Rewrite, t: Tables): Tables {
    map k | k in t :: OnFields(c, t[k])
  }

  function OnDelta(c: Rewrite, d: Delta): Delta {
    match d
    case Create(key, after) => Create(key, OnFields(c, after))
    case Update(key, before, after) => Update(key, OnBefore(c, before), OnFields(c, after))
    case Delete(key, gone) => Delete(key, OnFields(c, gone))
  }

  function OnLog(c: Rewrite, log: seq<Delta>): seq<Delta> {
    seq(|log|, i requires 0 <= i < |log| => OnDelta(c, log[i]))
  }

  lemma ApplyRewrite(c: Rewrite, t: Tables, d: Delta)
    ensures OnTables(c, Apply(t, d)) == Apply(OnTables(c, t), OnDelta(c, d))
  {
    if d.Update? && d.key in t {
      assert OnFields(c, Patch(t[d.key], d.after)) == Patch(OnFields(c, t[d.key]), OnFields(c, d.after));
    }
  }

  lemma FitsRewrite(c: Rewrite, t: Tables, d: Delta)
    requires Fits(t, d)
    ensures Fits(OnTables(c, t), OnDelta(c, d))
  {
  }

  /** Replaying a rewritten log is rewriting the replayed tables. */
  lemma {:induction false} ReplayRewrite(c: Rewrite, t: Tables, log: seq<Delta>)
    ensures OnTables(c, Replay(t, log)) == Replay(OnTables(c, t), OnLog(c, log))
    ensures FitsAll(t, log) ==> FitsAll(OnTables(c, t), OnLog(c, log))
  {
    if log != [] {
      var n := |log| - 1;
      ReplayRewrite(c, t, log[..n]);
      ApplyRewrite(c, Replay(t, log[..n]), log[n]);
      assert OnLog(c, log)[..n] == OnLog(c, log[..n]);
      if FitsAll(t, log) {
        FitsRewrite(c, Replay(t, log[..n]), log[n]);
      }
    }
  }

  /** A row that `c` leaves alone, with one field written in a way that `c` corrects. */
  lemma RewriteField(c: Rewrite, row: Fields, field: string, text: string)
    requires OnFields(c, row) == row && field in row && c(field, text) == row[field]
    ensures OnFields(c, row[field := text]) == row
  {
    forall f | f in row ensures OnFields(c, row[field := text])[f] == row[f] {
      assert OnFields(c, row)[f] == c(f, row[f]);
    }
  }

  /** `d` forgets at least what `c` forgets. */
  ghost predicate Coarser(d: Rewrite, c: Rewrite) {
    forall f, x :: d(f, c(f, x)) == d(f, x)
  }

  lemma RewriteTwice(d: Rewrite, c: Rewrite, log: seq<Delta>)
    requires Coarser(d, c)
    ensures OnLog(d, OnLog(c, log)) == OnLog(d, log)
  {
    forall i | 0 <= i < |log| ensures OnDelta(d, OnDelta(c, log[i])) == OnDelta(d, log[i]) {
      match log[i]
      case Create(_, after) => assert OnFields(d, OnFields(c, after)) == OnFields(d, after);
      case Update(_, before, after) =>
        assert OnFields(d, OnFields(c, after)) == OnFields(d, after);
        assert OnBefore(d, OnBefore(c, before)) == OnBefore(d, before);
      case Delete(_, gone) => assert OnFields(d, OnFields(c, gone)) == OnFields(d, gone);
    }
  }
}
