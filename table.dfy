/** The semantics of one SQLite table declared with
      ID INTEGER PRIMARY KEY AUTOINCREMENT, CanvasId TEXT NOT NULL UNIQUE, ...
    as both repositories create it: rows kept in rowid (ID) order, the largest ID the
    table has ever issued (its sqlite_sequence entry), and the four statements the
    repositories run: SELECT by ID or CanvasId, INSERT, UPDATE by ID and DELETE by ID. */
module Table {
  import opened Wrappers
  import opened Exceptions

  datatype Row<F> = Row(id: int, canvasId: string, fields: F)

  datatype TableState<F> = TableState(rows: seq<Row<F>>, lastId: int)

  /** A table just created: no rows, no ID issued yet. */
  function EmptyTable<F>(): (t: TableState<F>)
    ensures Valid(t) && |t.rows| == 0
  {
    TableState([], 0)
  }

  /** The ID and the CanvasId of the row at position i. The pairwise clauses of Valid
      are stated on these, so that they are used only where a proof names them. */
  function IdAt<F>(rows: seq<Row<F>>, i: int): int
    requires 0 <= i < |rows|
  {
    rows[i].id
  }

  function CanvasIdAt<F>(rows: seq<Row<F>>, i: int): string
    requires 0 <= i < |rows|
  {
    rows[i].canvasId
  }

  /** IDs are positive, ascending, never above the last issued one; CanvasIds are unique. */
  predicate Valid<F>(t: TableState<F>) {
    && 0 <= t.lastId
    && (forall i :: 0 <= i < |t.rows| ==> 0 < t.rows[i].id <= t.lastId)
    && (forall i, j :: 0 <= i < j < |t.rows| ==> IdAt(t.rows, i) < IdAt(t.rows, j))
    && (forall i, j :: 0 <= i < j < |t.rows| ==> CanvasIdAt(t.rows, i) != CanvasIdAt(t.rows, j))
  }

  /** Two positions of a valid table hold different IDs and different CanvasIds, the
      earlier position the smaller ID. */
  lemma Distinct<F>(t: TableState<F>, i: int, j: int)
    requires Valid(t) && 0 <= i < |t.rows| && 0 <= j < |t.rows| && i != j
    ensures t.rows[i].id != t.rows[j].id && t.rows[i].canvasId != t.rows[j].canvasId
    ensures i < j ==> t.rows[i].id < t.rows[j].id
  {
    if i < j {
      assert IdAt(t.rows, i) < IdAt(t.rows, j) && CanvasIdAt(t.rows, i) != CanvasIdAt(t.rows, j);
    } else {
      assert IdAt(t.rows, j) < IdAt(t.rows, i) && CanvasIdAt(t.rows, j) != CanvasIdAt(t.rows, i);
    }
  }

  /** The table a statement builds is valid when its rows are pairwise distinct as Valid demands. */
  lemma ValidFromPairs<F>(t: TableState<F>)
    requires 0 <= t.lastId && forall i :: 0 <= i < |t.rows| ==> 0 < t.rows[i].id <= t.lastId
    requires forall i, j :: 0 <= i < j < |t.rows| ==>
      t.rows[i].id < t.rows[j].id && t.rows[i].canvasId != t.rows[j].canvasId
    ensures Valid(t)
  {
  }

  predicate HasId<F>(rows: seq<Row<F>>, id: int) {
    exists k :: 0 <= k < |rows| && rows[k].id == id
  }

  predicate HasCanvasId<F>(rows: seq<Row<F>>, canvasId: string) {
    exists k :: 0 <= k < |rows| && rows[k].canvasId == canvasId
  }

  /** SELECT * WHERE ID = @id: the first matching row, if any. */
  function FindById<F>(rows: seq<Row<F>>, id: int): (r: Option<Row<F>>)
    ensures r.Some? <==> HasId(rows, id)
    ensures r.Some? ==> r.value in rows && r.value.id == id
    decreases |rows|
  {
    if |rows| == 0 then None
    else if rows[0].id == id then Some(rows[0])
    else
      var r := FindById(rows[1..], id);
      assert HasId(rows, id) ==> HasId(rows[1..], id) by {
        if HasId(rows, id) {
          var k :| 0 <= k < |rows| && rows[k].id == id;
          assert rows[1..][k - 1] == rows[k];
        }
      }
      r
  }

  /** SELECT * WHERE CanvasId = @canvasId: the first matching row, if any. */
  function FindByCanvasId<F>(rows: seq<Row<F>>, canvasId: string): (r: Option<Row<F>>)
    ensures r.Some? <==> HasCanvasId(rows, canvasId)
    ensures r.Some? ==> r.value in rows && r.value.canvasId == canvasId
    decreases |rows|
  {
    if |rows| == 0 then None
    else if rows[0].canvasId == canvasId then Some(rows[0])
    else
      var r := FindByCanvasId(rows[1..], canvasId);
      assert HasCanvasId(rows, canvasId) ==> HasCanvasId(rows[1..], canvasId) by {
        if HasCanvasId(rows, canvasId) {
          var k :| 0 <= k < |rows| && rows[k].canvasId == canvasId;
          assert rows[1..][k - 1] == rows[k];
        }
      }
      r
  }

  /** In a valid table a row is the one found by its own ID and by its own CanvasId. */
  lemma FindsItsRow<F>(t: TableState<F>, k: int)
    requires Valid(t) && 0 <= k < |t.rows|
    ensures FindById(t.rows, t.rows[k].id) == Some(t.rows[k])
    ensures FindByCanvasId(t.rows, t.rows[k].canvasId) == Some(t.rows[k])
  {
    var r := FindById(t.rows, t.rows[k].id).value;
    var i :| 0 <= i < |t.rows| && t.rows[i] == r;
    if i != k {
      Distinct(t, i, k);
    }
    var q := FindByCanvasId(t.rows, t.rows[k].canvasId).value;
    var j :| 0 <= j < |t.rows| && t.rows[j] == q;
    if j != k {
      Distinct(t, j, k);
    }
  }

  /** The error SQLite raises for a second row with the same CanvasId. */
  function UniqueViolation(table: string): Exception {
    SqliteException(SqliteConstraint, "UNIQUE constraint failed: " + table + ".CanvasId")
  }

  /** INSERT without an ID: rejected when the CanvasId is taken, otherwise a row with the
      next AUTOINCREMENT ID is appended and becomes the last issued ID. */
  function Insert<F>(t: TableState<F>, table: string, canvasId: string, fields: F)
    : (r: Result<TableState<F>, Exception>)
  {
    if HasCanvasId(t.rows, canvasId) then Failure(UniqueViolation(table))
    else Success(TableState(t.rows + [Row(t.lastId + 1, canvasId, fields)], t.lastId + 1))
  }

  /** Insertion of a fresh CanvasId succeeds, issues an ID larger than every ID issued
      before, keeps every earlier row and keeps the table valid; a taken CanvasId is
      rejected with the UNIQUE error. */
  lemma InsertIssuesFreshId<F>(t: TableState<F>, table: string, canvasId: string, fields: F)
    requires Valid(t)
    ensures HasCanvasId(t.rows, canvasId) <==> Insert(t, table, canvasId, fields).Failure?
    ensures HasCanvasId(t.rows, canvasId) ==>
      Insert(t, table, canvasId, fields) == Failure(UniqueViolation(table))
    ensures !HasCanvasId(t.rows, canvasId) ==>
      var t' := Insert(t, table, canvasId, fields).value;
      && Valid(t')
      && t'.lastId > t.lastId
      && (forall k :: 0 <= k < |t.rows| ==> t.rows[k].id < t'.lastId)
      && FindById(t'.rows, t'.lastId) == Some(Row(t'.lastId, canvasId, fields))
      && t'.rows[..|t.rows|] == t.rows && |t'.rows| == |t.rows| + 1
  {
    if !HasCanvasId(t.rows, canvasId) {
      var t' := Insert(t, table, canvasId, fields).value;
      var n := |t.rows|;
      assert t'.rows[n] == Row(t'.lastId, canvasId, fields);
      forall i, j | 0 <= i < j < |t'.rows|
        ensures t'.rows[i].id < t'.rows[j].id && t'.rows[i].canvasId != t'.rows[j].canvasId
      {
        assert t'.rows[i] == t.rows[i];
        if j < n {
          assert t'.rows[j] == t.rows[j];
          Distinct(t, i, j);
        }
      }
      ValidFromPairs(t');
      FindsItsRow(t', n);
    }
  }

  /** The row with the item's ID, every column replaced. */
  function Replace<F>(rows: seq<Row<F>>, row: Row<F>): (r: seq<Row<F>>)
    ensures |r| == |rows|
  {
    seq(|rows|, k requires 0 <= k < |rows| => if rows[k].id == row.id then row else rows[k])
  }

  /** Another row already carries the CanvasId the update would write. */
  predicate Clashes<F>(rows: seq<Row<F>>, row: Row<F>) {
    exists k :: 0 <= k < |rows| && rows[k].canvasId == row.canvasId && rows[k].id != row.id
  }

  /** UPDATE ... WHERE ID = @ID: no row has that ID (nothing happens), the new CanvasId
      belongs to another row (the UNIQUE error), or every column of the row is replaced. */
  function Update<F>(t: TableState<F>, table: string, row: Row<F>)
    : (r: Result<TableState<F>, Exception>)
  {
    if !HasId(t.rows, row.id) then Success(t)
    else if Clashes(t.rows, row) then Failure(UniqueViolation(table))
    else Success(TableState(Replace(t.rows, row), t.lastId))
  }

  /** An update replaces exactly the row with that ID, leaves every other row where it
      was, issues no ID and keeps the table valid. */
  lemma UpdateReplacesOneRow<F>(t: TableState<F>, table: string, row: Row<F>)
    requires Valid(t)
    ensures Update(t, table, row).Failure? <==> HasId(t.rows, row.id) && Clashes(t.rows, row)
    ensures Update(t, table, row).Success? ==>
      var t' := Update(t, table, row).value;
      && Valid(t') && t'.lastId == t.lastId && |t'.rows| == |t.rows|
      && (HasId(t.rows, row.id) ==> FindById(t'.rows, row.id) == Some(row))
      && (forall k :: 0 <= k < |t.rows| && t.rows[k].id != row.id ==> t'.rows[k] == t.rows[k])
      && (forall k :: 0 <= k < |t.rows| ==> t'.rows[k] == t.rows[k] || t'.rows[k] == row)
  {
    if HasId(t.rows, row.id) && !Clashes(t.rows, row) {
      var t' := Update(t, table, row).value;
      var k :| 0 <= k < |t.rows| && t.rows[k].id == row.id;
      assert t'.rows[k] == row;
      forall i | 0 <= i < |t.rows| && i != k ensures t'.rows[i] == t.rows[i] {
        Distinct(t, i, k);
      }
      forall i, j | 0 <= i < j < |t'.rows|
        ensures t'.rows[i].id < t'.rows[j].id && t'.rows[i].canvasId != t'.rows[j].canvasId
      {
        Distinct(t, i, j);
      }
      ValidFromPairs(t');
      FindsItsRow(t', k);
    }
  }

  /** Appending a row adds exactly its CanvasId. */
  lemma HasCanvasIdAppend<F>(rows: seq<Row<F>>, r: Row<F>, canvasId: string)
    ensures HasCanvasId(rows + [r], canvasId) <==> HasCanvasId(rows, canvasId) || r.canvasId == canvasId
  {
    var all := rows + [r];
    if HasCanvasId(all, canvasId) {
      var k :| 0 <= k < |all| && all[k].canvasId == canvasId;
      if k < |rows| {
        assert rows[k] == all[k];
      }
    }
    if HasCanvasId(rows, canvasId) {
      var k :| 0 <= k < |rows| && rows[k].canvasId == canvasId;
      assert all[k] == rows[k];
    }
    assert all[|rows|] == r;
  }

  /** Every row of `rows` is still in its place in `rows'` with its ID and CanvasId. */
  predicate KeepsKeys<F, G>(rows: seq<Row<F>>, rows': seq<Row<G>>) {
    && |rows| <= |rows'|
    && forall k :: 0 <= k < |rows| ==> rows'[k].id == rows[k].id && rows'[k].canvasId == rows[k].canvasId
  }

  lemma KeepsKeysTransitive<F>(a: seq<Row<F>>, b: seq<Row<F>>, c: seq<Row<F>>)
    requires KeepsKeys(a, b) && KeepsKeys(b, c)
    ensures KeepsKeys(a, c)
  {
  }

  /** A CanvasId a row keeps stays present. */
  lemma KeptKeyPresent<F>(rows: seq<Row<F>>, rows': seq<Row<F>>, canvasId: string)
    requires KeepsKeys(rows, rows') && HasCanvasId(rows, canvasId)
    ensures HasCanvasId(rows', canvasId)
  {
    var k :| 0 <= k < |rows| && rows[k].canvasId == canvasId;
    assert rows'[k].canvasId == canvasId;
  }

  /** An update that writes a stored row's own CanvasId back under its own ID succeeds,
      replaces just that row and leaves every ID and CanvasId in its place. */
  lemma UpdateKeepsKeys<F>(t: TableState<F>, table: string, row: Row<F>, k: int)
    requires Valid(t) && 0 <= k < |t.rows|
    requires t.rows[k].id == row.id && t.rows[k].canvasId == row.canvasId
    ensures Update(t, table, row).Success?
    ensures var t' := Update(t, table, row).value;
      && Valid(t') && |t'.rows| == |t.rows| && t'.lastId == t.lastId
      && KeepsKeys(t.rows, t'.rows) && KeepsKeys(t'.rows, t.rows)
      && t'.rows[k] == row
      && (forall j :: 0 <= j < |t.rows| && j != k ==> t'.rows[j] == t.rows[j])
  {
    forall i | 0 <= i < |t.rows| && i != k ensures t.rows[i].canvasId != row.canvasId {
      Distinct(t, i, k);
    }
    assert !Clashes(t.rows, row);
    UpdateReplacesOneRow(t, table, row);
    var t' := Update(t, table, row).value;
    forall i | 0 <= i < |t.rows| && i != k ensures t'.rows[i] == t.rows[i] {
      Distinct(t, i, k);
    }
  }

  /** The position of the first row with ID `id`, or -1. */
  function IndexOfId<F>(rows: seq<Row<F>>, id: int): (k: int)
    ensures -1 <= k < |rows|
    ensures k >= 0 ==> rows[k].id == id
    ensures k < 0 <==> !HasId(rows, id)
    decreases |rows|
  {
    if |rows| == 0 then -1
    else if rows[0].id == id then 0
    else
      var k := IndexOfId(rows[1..], id);
      assert HasId(rows, id) ==> HasId(rows[1..], id) by {
        if HasId(rows, id) {
          var m :| 0 <= m < |rows| && rows[m].id == id;
          assert rows[1..][m - 1] == rows[m];
        }
      }
      if k < 0 then -1 else k + 1
  }

  /** The rows without the one at position k. */
  function RemoveAt<F>(rows: seq<Row<F>>, k: int): (r: seq<Row<F>>)
    requires 0 <= k < |rows|
    ensures |r| == |rows| - 1
    ensures forall i :: 0 <= i < |r| ==> r[i] == rows[if i < k then i else i + 1]
  {
    rows[..k] + rows[k + 1..]
  }

  lemma RemoveAtValid<F>(t: TableState<F>, k: int)
    requires Valid(t) && 0 <= k < |t.rows|
    ensures Valid(TableState(RemoveAt(t.rows, k), t.lastId))
    ensures !HasId(RemoveAt(t.rows, k), t.rows[k].id)
  {
    var r := RemoveAt(t.rows, k);
    forall i, j | 0 <= i < j < |r|
      ensures r[i].id < r[j].id && r[i].canvasId != r[j].canvasId
    {
      var i', j' := if i < k then i else i + 1, if j < k then j else j + 1;
      assert r[i] == t.rows[i'] && r[j] == t.rows[j'] && i' < j';
      Distinct(t, i', j');
    }
    ValidFromPairs(TableState(r, t.lastId));
    forall i | 0 <= i < |r| ensures r[i].id != t.rows[k].id {
      var i' := if i < k then i else i + 1;
      assert r[i] == t.rows[i'];
      Distinct(t, i', k);
    }
  }

  /** DELETE ... WHERE ID = @ID: the table without that row, and the rows affected. */
  function Delete<F>(t: TableState<F>, id: int): (TableState<F>, int) {
    var k := IndexOfId(t.rows, id);
    if k < 0 then (t, 0)
    else (TableState(RemoveAt(t.rows, k), t.lastId), 1)
  }

  /** A delete removes the row with that ID (reporting 1) or nothing (reporting 0),
      keeps every other row and keeps the table valid. */
  lemma DeleteRemovesOneRow<F>(t: TableState<F>, id: int)
    requires Valid(t)
    ensures var (t', n) := Delete(t, id);
      && Valid(t') && t'.lastId == t.lastId
      && n == (if HasId(t.rows, id) then 1 else 0)
      && |t'.rows| == |t.rows| - n
      && !HasId(t'.rows, id)
      && (forall i :: 0 <= i < |t.rows| && t.rows[i].id != id ==> t.rows[i] in t'.rows)
      && (forall i :: 0 <= i < |t'.rows| ==> t'.rows[i] in t.rows)
  {
    var k := IndexOfId(t.rows, id);
    if k >= 0 {
      RemoveAtValid(t, k);
      var r := RemoveAt(t.rows, k);
      forall i | 0 <= i < |t.rows| && t.rows[i].id != id ensures t.rows[i] in r {
        assert r[if i < k then i else i - 1] == t.rows[i];
      }
    }
  }
}
