/** Options, results, and the queryset operations used on every table.

    A table is the sequence of its rows in storage order. */
module Rows {

  datatype Option<+T> = None | Some(value: T)

  /** `DataRefused` stands for what the database itself raises at a value that a column or a query cannot take. */
  datatype Error = Conflict | Validation | NotFound | Integrity | MultipleObjects | DataRefused

  datatype Result<+T> = Ok(value: T) | Err(error: Error)

  /** `queryset.filter(p)`, in storage order. */
  function Where<T(!new)>(rows: seq<T>, p: T -> bool): (r: seq<T>)
    ensures forall x :: x in r <==> x in rows && p(x)
    ensures |r| <= |rows|
    ensures |r| == |rows| ==> r == rows
  {
    if rows == [] then []
    else
      var rest := Where(rows[1..], p);
      if p(rows[0]) then [rows[0]] + rest else rest
  }

  /** `queryset.filter(p).exists()`. */
  predicate Exists<T(!new)>(rows: seq<T>, p: T -> bool)
    ensures Exists(rows, p) <==> exists x :: x in rows && p(x)
  {
    exists i | 0 <= i < |rows| :: p(rows[i])
  }

  /** `queryset.filter(p).first()`. */
  function First<T(!new)>(rows: seq<T>, p: T -> bool): (r: Option<T>)
    ensures r.Some? ==> r.value in rows && p(r.value)
    ensures r.None? ==> forall x | x in rows :: !p(x)
  {
    if rows == [] then None
    else if p(rows[0]) then Some(rows[0])
    else First(rows[1..], p)
  }

  function Not<T>(p: T -> bool): T -> bool {
    x => !p(x)
  }

  /** The rows that a delete of the rows satisfying `p` leaves behind. */
  function Unless<T(!new)>(rows: seq<T>, p: T -> bool): (r: seq<T>)
    ensures forall x :: x in r <==> x in rows && !p(x)
  {
    Where(rows, Not(p))
  }

  /** `UPDATE ... WHERE id = row.id`: the rows with the new row in place of its old version. */
  function Replace<T(!new)>(rows: seq<T>, id: T -> nat, row: T): (r: seq<T>)
    ensures |r| == |rows|
    ensures forall x :: x in r <==>
      (x in rows && id(x) != id(row)) || (x == row && exists y :: y in rows && id(y) == id(row))
  {
    var r := seq(|rows|, i requires 0 <= i < |rows| => if id(rows[i]) == id(row) then row else rows[i]);
    assert forall x | x in rows && id(x) != id(row) :: x in r by {
      forall x | x in rows && id(x) != id(row) ensures x in r {
        var i :| 0 <= i < |rows| && rows[i] == x;
        assert r[i] == x;
      }
    }
    assert forall y | y in rows && id(y) == id(row) :: row in r by {
      forall y | y in rows && id(y) == id(row) ensures row in r {
        var i :| 0 <= i < |rows| && rows[i] == y;
        assert r[i] == row;
      }
    }
    r
  }

  /** No two rows agree on `key`. */
  ghost predicate Distinct<T(!new), K>(rows: seq<T>, key: T -> K) {
    forall i, j | 0 <= i < j < |rows| :: key(rows[i]) != key(rows[j])
  }

  ghost predicate Below<T(!new)>(rows: seq<T>, id: T -> nat, bound: nat) {
    forall x | x in rows :: id(x) < bound
  }

  /** Two rows with the same key are the same row. */
  lemma SameRow<T(!new), K>(rows: seq<T>, key: T -> K, x: T, y: T)
    requires Distinct(rows, key) && x in rows && y in rows && key(x) == key(y)
    ensures x == y
  {
    var i :| 0 <= i < |rows| && rows[i] == x;
    var j :| 0 <= j < |rows| && rows[j] == y;
  }

  lemma DistinctAppend<T(!new), K>(rows: seq<T>, key: T -> K, x: T)
    requires Distinct(rows, key) && forall y | y in rows :: key(y) != key(x)
    ensures Distinct(rows + [x], key)
  {
  }

  lemma DistinctPrepend<T(!new), K>(x: T, rows: seq<T>, key: T -> K)
    requires Distinct(rows, key) && forall y | y in rows :: key(y) != key(x)
    ensures Distinct([x] + rows, key)
  {
  }

  lemma {:induction false} DistinctWhere<T(!new), K>(rows: seq<T>, key: T -> K, p: T -> bool)
    requires Distinct(rows, key)
    ensures Distinct(Where(rows, p), key)
  {
    if rows != [] {
      DistinctWhere(rows[1..], key, p);
      assert forall y | y in rows[1..] :: key(y) != key(rows[0]);
    }
  }

  /** Rewriting one row keeps a key distinct when the row keeps its own key. */
  lemma DistinctReplace<T(!new), K>(rows: seq<T>, id: T -> nat, row: T, key: T -> K)
    requires Distinct(rows, key)
    requires forall y | y in rows && id(y) == id(row) :: key(y) == key(row)
    ensures Distinct(Replace(rows, id, row), key)
  {
  }

  /** With a distinct key, a filter that fixes the key returns at most one row. */
  lemma {:induction false} WhereUnique<T(!new), K>(rows: seq<T>, key: T -> K, p: T -> bool, k: K)
    requires Distinct(rows, key)
    requires forall x | p(x) :: key(x) == k
    ensures |Where(rows, p)| <= 1
  {
    if rows != [] {
      WhereUnique(rows[1..], key, p, k);
      assert p(rows[0]) ==> forall x | x in rows[1..] :: !p(x);
      Inhabited(Where(rows[1..], p));
    }
  }

  lemma Inhabited<T(!new)>(rows: seq<T>)
    ensures rows == [] || exists x :: x in rows
  {
    if rows != [] {
      assert rows[0] in rows;
    }
  }

  /** A filter and its complement split a table: no row is lost or invented. */
  lemma {:induction false} WhereSplit<T(!new)>(rows: seq<T>, p: T -> bool)
    ensures |Where(rows, p)| + |Unless(rows, p)| == |rows|
    ensures multiset(Where(rows, p)) + multiset(Unless(rows, p)) == multiset(rows)
  {
    if rows != [] {
      WhereSplit(rows[1..], p);
      assert rows == [rows[0]] + rows[1..];
    }
  }
}
