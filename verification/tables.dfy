/** One SQLite table declared `id INTEGER PRIMARY KEY AUTOINCREMENT`,
    as used for `Dollar`, `Shipping` and `Car` in helper/db.ts. */
module Tables {
  import opened Wrappers
  import Collections

  /** A stored row: the AUTOINCREMENT id and the remaining columns. */
  datatype Row<R> = Row(id: int, data: R)

  /** Rows in insertion order, and the largest id the table has ever issued
      (SQLite keeps it in `sqlite_sequence`, so deleting rows never lowers it). */
  datatype RawTable<R> = RawTable(rows: seq<Row<R>>, lastId: nat)

  predicate Ascending<R>(rows: seq<Row<R>>) {
    forall i, j :: 0 <= i < j < |rows| ==> rows[i].id < rows[j].id
  }

  predicate Descending<R>(rows: seq<Row<R>>) {
    forall i, j :: 0 <= i < j < |rows| ==> rows[i].id > rows[j].id
  }

  /** Every id was issued by the table: positive and at most `lastId`. */
  predicate IdsIssued<R>(t: RawTable<R>) {
    forall i :: 0 <= i < |t.rows| ==> 1 <= t.rows[i].id <= t.lastId
  }

  /** The states an AUTOINCREMENT table can be in. */
  type Table<R> = t: RawTable<R> | Ascending(t.rows) && IdsIssued(t) witness RawTable([], 0)

  predicate HasId<R>(rows: seq<Row<R>>, id: int) {
    exists i :: 0 <= i < |rows| && rows[i].id == id
  }

  /** The columns of the row with that id, if any (`SELECT ... WHERE id = ?`). */
  function Find<R>(rows: seq<Row<R>>, id: int): (r: Option<R>)
    ensures r.Some? <==> HasId(rows, id)
    ensures r.Some? ==> Row(id, r.value) in rows
  {
    if |rows| == 0 then None
    else if rows[0].id == id then Some(rows[0].data)
    else
      var r := Find(rows[1..], id);
      assert HasId(rows[1..], id) ==> HasId(rows, id) by {
        if HasId(rows[1..], id) {
          var i :| 0 <= i < |rows[1..]| && rows[1..][i].id == id;
          assert rows[i + 1].id == id;
        }
      }
      r
  }

  /** The rows whose id is not in `ids`, in their original order. */
  function Without<R>(rows: seq<Row<R>>, ids: set<int>): seq<Row<R>> {
    Collections.Filter(rows, (row: Row<R>) => row.id !in ids)
  }

  /** Removing one set of ids and then another removes their union. */
  lemma {:induction false} WithoutWithout<R>(rows: seq<Row<R>>, a: set<int>, b: set<int>)
    ensures Without(Without(rows, a), b) == Without(rows, a + b)
  {
    if |rows| > 0 {
      WithoutWithout(rows[1..], a, b);
    }
  }

  /** Removing ids from an ascending sequence leaves it ascending. */
  lemma {:induction false} WithoutAscending<R>(rows: seq<Row<R>>, ids: set<int>)
    requires Ascending(rows)
    ensures Ascending(Without(rows, ids))
  {
    if |rows| > 0 {
      WithoutAscending(rows[1..], ids);
      var rest := Without(rows[1..], ids);
      forall j | 0 <= j < |rest|
        ensures rows[0].id < rest[j].id
      {
        var k :| 0 <= k < |rows[1..]| && rows[1..][k] == rest[j];
        assert rows[k + 1] == rest[j];
      }
    }
  }

  /** Removing ids that are absent changes nothing. */
  lemma {:induction false} WithoutAbsent<R>(rows: seq<Row<R>>, ids: set<int>)
    requires forall i :: 0 <= i < |rows| ==> rows[i].id !in ids
    ensures Without(rows, ids) == rows
  {
    Collections.FilterKeepsAll(rows, (row: Row<R>) => row.id !in ids);
  }

  /** In an ascending sequence an id occurs at most once, so removing it
      shortens the sequence by exactly one. */
  lemma {:induction false} WithoutOnePresent<R>(rows: seq<Row<R>>, id: int)
    requires Ascending(rows) && HasId(rows, id)
    ensures |Without(rows, {id})| == |rows| - 1
  {
    if rows[0].id == id {
      WithoutAbsent(rows[1..], {id});
    } else {
      var i :| 0 <= i < |rows| && rows[i].id == id;
      assert rows[1..][i - 1].id == id;
      WithoutOnePresent(rows[1..], id);
    }
  }

  /** The empty table that `CREATE TABLE` produces. */
  function Empty<R>(): (t: Table<R>)
    ensures |t.rows| == 0 && t.lastId == 0
  {
    RawTable([], 0)
  }

  /** `INSERT`: appends exactly one row, whose id is larger than any id the
      table has ever issued. */
  function Insert<R>(t: Table<R>, data: R): (r: Table<R>)
    ensures r.lastId > t.lastId
    ensures r.rows == t.rows + [Row(r.lastId, data)]
    ensures forall i :: 0 <= i < |t.rows| ==> t.rows[i].id < r.lastId
  {
    RawTable(t.rows + [Row(t.lastId + 1, data)], t.lastId + 1)
  }

  function UpdateRows<R>(rows: seq<Row<R>>, id: int, data: R): (r: seq<Row<R>>)
    ensures |r| == |rows|
    ensures forall i :: 0 <= i < |rows| ==> r[i].id == rows[i].id
    ensures forall i :: 0 <= i < |rows| && rows[i].id != id ==> r[i] == rows[i]
    ensures forall i :: 0 <= i < |rows| && rows[i].id == id ==> r[i].data == data
  {
    if |rows| == 0 then []
    else [if rows[0].id == id then Row(id, data) else rows[0]] + UpdateRows(rows[1..], id, data)
  }

  /** `UPDATE ... WHERE id = ?`: rewrites the columns of the matching row; ids,
      row order and every other row stay as they were. */
  function Update<R>(t: Table<R>, id: int, data: R): (r: Table<R>)
    ensures r.lastId == t.lastId
    ensures Find(r.rows, id) == if HasId(t.rows, id) then Some(data) else None
    ensures forall k :: k != id ==> Find(r.rows, k) == Find(t.rows, k)
    ensures !HasId(t.rows, id) ==> r == t
  {
    var rows := UpdateRows(t.rows, id, data);
    UpdateKeepsIds(t, id, data);
    FindAfterUpdate(t.rows, id, data);
    UpdateRowsAbsent(t.rows, id, data);
    RawTable(rows, t.lastId)
  }

  /** Rewriting a row keeps the ids, so the result is still a table state. */
  lemma UpdateKeepsIds<R>(t: Table<R>, id: int, data: R)
    ensures Ascending(UpdateRows(t.rows, id, data))
    ensures IdsIssued(RawTable(UpdateRows(t.rows, id, data), t.lastId))
  {
  }

  lemma {:induction false} UpdateRowsAbsent<R>(rows: seq<Row<R>>, id: int, data: R)
    ensures !HasId(rows, id) ==> UpdateRows(rows, id, data) == rows
  {
    if |rows| > 0 && !HasId(rows, id) {
      UpdateRowsAbsent(rows[1..], id, data);
    }
  }

  lemma {:induction false} FindAfterUpdate<R>(rows: seq<Row<R>>, id: int, data: R)
    ensures Find(UpdateRows(rows, id, data), id) == if HasId(rows, id) then Some(data) else None
    ensures forall k :: k != id ==> Find(UpdateRows(rows, id, data), k) == Find(rows, k)
  {
    if |rows| > 0 {
      FindAfterUpdate(rows[1..], id, data);
      var u := UpdateRows(rows, id, data);
      assert u[1..] == UpdateRows(rows[1..], id, data);
      if rows[0].id != id {
        assert HasId(rows, id) ==> HasId(rows[1..], id) by {
          if HasId(rows, id) {
            var i :| 0 <= i < |rows| && rows[i].id == id;
            assert rows[1..][i - 1].id == id;
          }
        }
      }
    }
  }

  /** `DELETE ... WHERE id = ?`: removes the row with that id, keeps the others
      in order, and never lowers the AUTOINCREMENT counter. */
  function Delete<R>(t: Table<R>, id: int): (r: Table<R>)
    ensures r.lastId == t.lastId
    ensures !HasId(r.rows, id)
    ensures forall i :: 0 <= i < |t.rows| && t.rows[i].id != id ==> t.rows[i] in r.rows
    ensures forall i :: 0 <= i < |r.rows| ==> r.rows[i] in t.rows
    ensures Collections.IsSubsequence(r.rows, t.rows)
    ensures |r.rows| == if HasId(t.rows, id) then |t.rows| - 1 else |t.rows|
    ensures !HasId(t.rows, id) ==> r == t
  {
    WithoutOne(t, id);
    RawTable(Without(t.rows, {id}), t.lastId)
  }

  /** The facts `Delete` rests on: removing one id keeps the table valid and
      shortens it by one exactly when the id was present. */
  lemma WithoutOne<R>(t: Table<R>, id: int)
    ensures Ascending(Without(t.rows, {id}))
    ensures IdsIssued(RawTable(Without(t.rows, {id}), t.lastId))
    ensures |Without(t.rows, {id})| == if HasId(t.rows, id) then |t.rows| - 1 else |t.rows|
    ensures !HasId(t.rows, id) ==> Without(t.rows, {id}) == t.rows
  {
    WithoutAscending(t.rows, {id});
    if HasId(t.rows, id) {
      WithoutOnePresent(t.rows, id);
    } else {
      WithoutAbsent(t.rows, {id});
    }
  }

  /** `SELECT * ... ORDER BY id DESC`. */
  function List<R>(t: Table<R>): (r: seq<Row<R>>)
    ensures |r| == |t.rows|
    ensures Descending(r)
    ensures forall i :: 0 <= i < |r| ==> r[i] in t.rows
    ensures forall i :: 0 <= i < |t.rows| ==> t.rows[i] in r
  {
    var n := |t.rows|;
    var r := seq(n, i requires 0 <= i < n => t.rows[n - 1 - i]);
    assert forall i :: 0 <= i < n ==> t.rows[i] == r[n - 1 - i];
    r
  }

  /** Two strictly descending sequences with the same elements are equal:
      `ORDER BY id DESC` leaves no freedom in the result. */
  lemma {:induction false} DescendingUnique<R>(a: seq<Row<R>>, b: seq<Row<R>>)
    requires Descending(a) && Descending(b)
    requires forall i :: 0 <= i < |a| ==> a[i] in b
    requires forall i :: 0 <= i < |b| ==> b[i] in a
    ensures a == b
  {
    NonEmptyTogether(a, b);
    if |a| > 0 {
      SameHead(a, b);
      DescendingTail(a, b);
      DescendingUnique(a[1..], b[1..]);
      assert |a| == |b|;
      forall i | 0 <= i < |a|
        ensures a[i] == b[i]
      {
        if i > 0 {
          assert a[i] == a[1..][i - 1] && b[i] == b[1..][i - 1];
        }
      }
    }
  }

  lemma NonEmptyTogether<R>(a: seq<Row<R>>, b: seq<Row<R>>)
    requires forall i :: 0 <= i < |a| ==> a[i] in b
    requires forall i :: 0 <= i < |b| ==> b[i] in a
    ensures |a| > 0 <==> |b| > 0
  {
    if |a| > 0 { assert a[0] in b; }
    if |b| > 0 { assert b[0] in a; }
  }

  /** The head of a descending sequence is its largest element, so two
      descending sequences with the same elements start alike. */
  lemma SameHead<R>(a: seq<Row<R>>, b: seq<Row<R>>)
    requires |a| > 0 && |b| > 0
    requires Descending(a) && Descending(b)
    requires forall i :: 0 <= i < |a| ==> a[i] in b
    requires forall i :: 0 <= i < |b| ==> b[i] in a
    ensures a[0] == b[0]
  {
    assert a[0] in b;
    assert b[0] in a;
    var j :| 0 <= j < |b| && b[j] == a[0];
    var k :| 0 <= k < |a| && a[k] == b[0];
    assert a[0].id >= a[k].id;
    assert b[0].id >= b[j].id;
  }

  lemma DescendingTail<R>(a: seq<Row<R>>, b: seq<Row<R>>)
    requires |a| > 0 && |b| > 0 && a[0] == b[0]
    requires Descending(a) && Descending(b)
    requires forall i :: 0 <= i < |a| ==> a[i] in b
    requires forall i :: 0 <= i < |b| ==> b[i] in a
    ensures Descending(a[1..]) && Descending(b[1..])
    ensures forall i :: 0 <= i < |a[1..]| ==> a[1..][i] in b[1..]
    ensures forall i :: 0 <= i < |b[1..]| ==> b[1..][i] in a[1..]
  {
    forall i | 0 <= i < |a[1..]|
      ensures a[1..][i] in b[1..]
    {
      assert a[i + 1] in b;
      var m :| 0 <= m < |b| && b[m] == a[i + 1];
      assert a[i + 1].id < a[0].id;
      assert b[1..][m - 1] == a[i + 1];
    }
    forall i | 0 <= i < |b[1..]|
      ensures b[1..][i] in a[1..]
    {
      assert b[i + 1] in a;
      var m :| 0 <= m < |a| && a[m] == b[i + 1];
      assert b[i + 1].id < b[0].id;
      assert a[1..][m - 1] == b[i + 1];
    }
  }

  /** Any strictly descending arrangement of the table's rows is `List(t)`. */
  lemma ListIsTheDescendingOrder<R>(t: Table<R>, s: seq<Row<R>>)
    requires Descending(s)
    requires forall i :: 0 <= i < |s| ==> s[i] in t.rows
    requires forall i :: 0 <= i < |t.rows| ==> t.rows[i] in s
    ensures s == List(t)
  {
    DescendingUnique(s, List(t));
  }

  /** The first row of `List`: the row with the largest id, if any. */
  function Newest<R>(t: Table<R>): (r: Option<Row<R>>)
    ensures r.None? <==> |t.rows| == 0
    ensures r.Some? ==> r.value in t.rows
    ensures r.Some? ==> forall i :: 0 <= i < |t.rows| ==> t.rows[i].id <= r.value.id
  {
    var l := List(t);
    if |l| == 0 then None else Some(l[0])
  }

  /** Deleting the newest row makes the row with the next-highest id the newest. */
  lemma DeleteNewest<R>(t: Table<R>)
    requires Newest(t).Some?
    ensures Newest(Delete(t, Newest(t).value.id)) == if |t.rows| >= 2 then Some(List(t)[1]) else None
  {
    var n := |t.rows|;
    var top := Newest(t).value;
    assert top == t.rows[n - 1];
    WithoutAbsent(t.rows[..n - 1], {top.id});
    assert t.rows == t.rows[..n - 1] + [top];
    assert Delete(t, top.id).rows == t.rows[..n - 1] by {
      WithoutAppend(t.rows[..n - 1], top, {top.id});
    }
  }

  lemma {:induction false} WithoutAppend<R>(rows: seq<Row<R>>, last: Row<R>, ids: set<int>)
    ensures Without(rows + [last], ids) == Without(rows, ids) + Without([last], ids)
  {
    if |rows| > 0 {
      WithoutAppend(rows[1..], last, ids);
      assert (rows + [last])[1..] == rows[1..] + [last];
    } else {
      assert rows + [last] == [last];
    }
  }

  /** Deletes every id of `ids`, one at a time and in no particular order, as
      the bulk-delete loops of the list screens do. */
  method DeleteAll<R>(t: Table<R>, ids: set<int>) returns (r: Table<R>)
    ensures r.lastId == t.lastId
    ensures r.rows == Without(t.rows, ids)
    ensures forall i :: 0 <= i < |r.rows| ==> r.rows[i].id !in ids
  {
    r := t;
    var left := ids;
    WithoutAbsent(t.rows, {});
    assert ids - left == {};
    while left != {}
      invariant left <= ids
      invariant r.lastId == t.lastId
      invariant r.rows == Without(t.rows, ids - left)
      decreases left
    {
      assert (forall y :: y !in left) ==> left == {};
      var x :| x in left;
      ghost var done := ids - left;
      WithoutWithout(t.rows, done, {x});
      r := Delete(r, x);
      left := left - {x};
      assert ids - left == done + {x};
    }
    assert left == {} && ids - {} == ids;
  }

  /** One write to a table, for reasoning about histories of operations. */
  datatype Op<R> = InsertOp(data: R) | UpdateOp(id: int, data: R) | DeleteOp(id: int)

  function Apply<R>(t: Table<R>, op: Op<R>): Table<R> {
    match op
    case InsertOp(d) => Insert(t, d)
    case UpdateOp(id, d) => Update(t, id, d)
    case DeleteOp(id) => Delete(t, id)
  }

  function Run<R>(t: Table<R>, ops: seq<Op<R>>): Table<R>
    decreases |ops|
  {
    if |ops| == 0 then t else Run(Apply(t, ops[0]), ops[1..])
  }

  /** The ids that the inserts of `ops` receive, in order. */
  function IssuedIds<R>(t: Table<R>, ops: seq<Op<R>>): seq<int>
    decreases |ops|
  {
    if |ops| == 0 then []
    else
      var t' := Apply(t, ops[0]);
      (if ops[0].InsertOp? then [t'.lastId] else []) + IssuedIds(t', ops[1..])
  }

  /** AUTOINCREMENT never reuses an id: over any history of inserts, updates and
      deletes, the ids handed out are strictly increasing, all above the
      starting counter and at most the final one. */
  lemma {:induction false} IdsNeverReused<R>(t: Table<R>, ops: seq<Op<R>>)
    ensures Run(t, ops).lastId >= t.lastId
    ensures forall i, j :: 0 <= i < j < |IssuedIds(t, ops)| ==> IssuedIds(t, ops)[i] < IssuedIds(t, ops)[j]
    ensures forall i :: 0 <= i < |IssuedIds(t, ops)| ==> t.lastId < IssuedIds(t, ops)[i] <= Run(t, ops).lastId
    decreases |ops|
  {
    if |ops| > 0 {
      var t' := Apply(t, ops[0]);
      IdsNeverReused(t', ops[1..]);
    }
  }
}
