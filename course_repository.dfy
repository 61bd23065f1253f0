/** The Course table and the repository object that owns it. Every public operation first
    runs Init(), which issues CREATE TABLE IF NOT EXISTS once per repository object (until
    DropTableAsync clears the flag); a failing CREATE is rethrown to the caller. */
module CourseRepository {
  import opened Wrappers
  import opened Exceptions
  import opened Models
  import opened Table
  import opened Ordering

  const TableName: string := "Course"

  /** The ten columns after ID, except CanvasId which the table keeps as the row key. */
  datatype CourseFields = CourseFields(
    name: string,
    code: string,
    term: string,
    accountId: string,
    sisCourseId: string,
    workflowState: string,
    startAt: DateTime,
    endAt: DateTime,
    createdAt: DateTime)

  type CourseTable = TableState<CourseFields>

  /** The parameters SaveItemAsync binds for a course. */
  function ToFields(c: Course): CourseFields {
    CourseFields(c.name, c.code, c.term, c.accountId, c.sisCourseId, c.workflowState,
                 c.startAt, c.endAt, c.createdAt)
  }

  /** The Course object the readers build from a row: no assignments are loaded. */
  function ReadCourse(r: Row<CourseFields>): Course {
    Course(r.id, r.canvasId, r.fields.name, r.fields.code, r.fields.term, [],
           r.fields.accountId, r.fields.sisCourseId, r.fields.workflowState,
           r.fields.startAt, r.fields.endAt, r.fields.createdAt)
  }

  /** What a save of `c` stores and a later read gives back: `c` without its assignments. */
  function Stored(c: Course): Course {
    c.(assignments := [])
  }

  /** ORDER BY Code. */
  function CodeKey(r: Row<CourseFields>): seq<int> {
    StringKey(r.fields.code)
  }

  /** SELECT * FROM Course ORDER BY Code, read into Course objects. */
  function ListOf(t: CourseTable): seq<Course> {
    var rows := SortBy(t.rows, CodeKey);
    seq(|rows|, k requires 0 <= k < |rows| => ReadCourse(rows[k]))
  }

  /** SELECT * FROM Course WHERE ID = @id. */
  function GetOf(t: CourseTable, id: int): Option<Course> {
    match FindById(t.rows, id)
    case None => None
    case Some(r) => Some(ReadCourse(r))
  }

  /** SELECT * FROM Course WHERE CanvasId = @canvasId. */
  function GetByCanvasIdOf(t: CourseTable, canvasId: string): Option<Course> {
    match FindByCanvasId(t.rows, canvasId)
    case None => None
    case Some(r) => Some(ReadCourse(r))
  }

  /** SaveItemAsync on the table: ID 0 inserts and writes the new ID back into the item,
      any other ID updates that row. The new table and the item as the caller then holds it. */
  function SaveOf(t: CourseTable, item: Course): Result<(CourseTable, Course), Exception> {
    if item.id == 0 then
      match Insert(t, TableName, item.canvasId, ToFields(item))
      case Failure(e) => Failure(e)
      case Success(t') => Success((t', item.(id := t'.lastId)))
    else
      match Update(t, TableName, Row(item.id, item.canvasId, ToFields(item)))
      case Failure(e) => Failure(e)
      case Success(t') => Success((t', item))
  }

  /** What a read of a row written from `c` gives back. */
  lemma ReadWritten(c: Course, id: int)
    ensures ReadCourse(Row(id, c.canvasId, ToFields(c))) == Stored(c.(id := id))
  {
  }

  /** In a valid table a row is what a lookup by its ID or its CanvasId gives back. */
  lemma GetsItsRow(t: CourseTable, k: int)
    requires Valid(t) && 0 <= k < |t.rows|
    ensures GetOf(t, t.rows[k].id) == Some(ReadCourse(t.rows[k]))
    ensures GetByCanvasIdOf(t, t.rows[k].canvasId) == Some(ReadCourse(t.rows[k]))
  {
    FindsItsRow(t, k);
  }

  lemma SortedRowsLength(t: CourseTable)
    ensures |SortBy(t.rows, CodeKey)| == |t.rows|
  {
    var rows := SortBy(t.rows, CodeKey);
    assert |multiset(rows)| == |multiset(t.rows)|;
  }

  /** Every stored course is listed once, and the list holds nothing else. */
  lemma ListIsPermutation(t: CourseTable)
    ensures |ListOf(t)| == |t.rows|
    ensures forall k :: 0 <= k < |t.rows| ==> ReadCourse(t.rows[k]) in ListOf(t)
    ensures forall c :: c in ListOf(t) ==> exists k :: 0 <= k < |t.rows| && c == ReadCourse(t.rows[k])
  {
    SortedRowsLength(t);
    ListHasEvery(t);
    ListHasOnly(t);
  }

  lemma ListHasEvery(t: CourseTable)
    ensures forall k :: 0 <= k < |t.rows| ==> ReadCourse(t.rows[k]) in ListOf(t)
  {
    var rows := SortBy(t.rows, CodeKey);
    Ordering.PermutationMembers(rows, t.rows);
    var l := ListOf(t);
    forall k | 0 <= k < |t.rows| ensures ReadCourse(t.rows[k]) in l {
      var m :| 0 <= m < |rows| && rows[m] == t.rows[k];
      assert l[m] == ReadCourse(rows[m]);
    }
  }

  lemma ListHasOnly(t: CourseTable)
    ensures forall c :: c in ListOf(t) ==> exists k :: 0 <= k < |t.rows| && c == ReadCourse(t.rows[k])
  {
    var rows := SortBy(t.rows, CodeKey);
    Ordering.PermutationMembers(t.rows, rows);
    var l := ListOf(t);
    forall c | c in l ensures exists k :: 0 <= k < |t.rows| && c == ReadCourse(t.rows[k]) {
      var m :| 0 <= m < |l| && l[m] == c;
      var k :| 0 <= k < |t.rows| && t.rows[k] == rows[m];
    }
  }

  /** Courses read one per sorted row, in order, are the list. */
  lemma ReadInOrderIsList(t: CourseTable, courses: seq<Course>)
    requires |courses| == |SortBy(t.rows, CodeKey)|
    requires forall k :: 0 <= k < |courses| ==> courses[k] == ReadCourse(SortBy(t.rows, CodeKey)[k])
    ensures courses == ListOf(t)
  {
  }

  /** The list is ordered by Code under the BINARY collation. */
  lemma ListIsSortedByCode(t: CourseTable)
    ensures forall i, j :: 0 <= i < j < |ListOf(t)| ==>
      LexLe(StringKey(ListOf(t)[i].code), StringKey(ListOf(t)[j].code))
  {
    var rows := SortBy(t.rows, CodeKey);
    var l := ListOf(t);
    forall i, j | 0 <= i < j < |l| ensures LexLe(StringKey(l[i].code), StringKey(l[j].code)) {
      assert CodeKey(rows[i]) == StringKey(l[i].code);
      assert CodeKey(rows[j]) == StringKey(l[j].code);
    }
  }

  /** A course saved with ID 0 and a new CanvasId gets the next AUTOINCREMENT ID, which is
      larger than every ID issued before; it is then found by that ID and by its CanvasId,
      and every earlier course is still there. A taken CanvasId fails with the UNIQUE error. */
  lemma SaveNewCourse(t: CourseTable, item: Course)
    requires Valid(t) && item.id == 0
    ensures HasCanvasId(t.rows, item.canvasId) ==> SaveOf(t, item) == Failure(UniqueViolation(TableName))
    ensures !HasCanvasId(t.rows, item.canvasId) ==>
      SaveOf(t, item).Success? &&
      var (t', saved) := SaveOf(t, item).value;
      && Valid(t')
      && saved == item.(id := t.lastId + 1)
      && (forall k :: 0 <= k < |t.rows| ==> t.rows[k].id < saved.id)
      && GetOf(t', saved.id) == Some(Stored(saved))
      && GetByCanvasIdOf(t', item.canvasId) == Some(Stored(saved))
      && (forall k :: 0 <= k < |t.rows| ==> GetOf(t', t.rows[k].id) == GetOf(t, t.rows[k].id))
  {
    InsertIssuesFreshId(t, TableName, item.canvasId, ToFields(item));
    if !HasCanvasId(t.rows, item.canvasId) {
      var t' := Insert(t, TableName, item.canvasId, ToFields(item)).value;
      var saved := item.(id := t'.lastId);
      assert t'.rows[|t.rows|] == Row(saved.id, item.canvasId, ToFields(item));
      GetsItsRow(t', |t.rows|);
      ReadWritten(item, saved.id);
      forall k | 0 <= k < |t.rows| ensures GetOf(t', t.rows[k].id) == GetOf(t, t.rows[k].id) {
        assert t'.rows[k] == t.rows[k];
        GetsItsRow(t', k);
        GetsItsRow(t, k);
      }
    }
  }

  /** A course with a non-zero ID overwrites every column of the row with that ID (a later
      read gives the item back) and no other row; with no such row nothing changes; a
      CanvasId held by another row fails with the UNIQUE error. */
  lemma SaveExistingCourse(t: CourseTable, item: Course)
    requires Valid(t) && item.id != 0
    ensures !HasId(t.rows, item.id) ==> SaveOf(t, item) == Success((t, item))
    ensures HasId(t.rows, item.id) ==>
      if Clashes(t.rows, Row(item.id, item.canvasId, ToFields(item))) then
        SaveOf(t, item) == Failure(UniqueViolation(TableName))
      else
        SaveOf(t, item).Success? &&
        var (t', saved) := SaveOf(t, item).value;
        && Valid(t') && saved == item && t'.lastId == t.lastId && |t'.rows| == |t.rows|
        && GetOf(t', item.id) == Some(Stored(item))
        && (forall k :: 0 <= k < |t.rows| && t.rows[k].id != item.id ==>
              GetOf(t', t.rows[k].id) == GetOf(t, t.rows[k].id))
  {
    var row := Row(item.id, item.canvasId, ToFields(item));
    UpdateReplacesOneRow(t, TableName, row);
    if HasId(t.rows, item.id) && !Clashes(t.rows, row) {
      var t' := Update(t, TableName, row).value;
      ReadWritten(item, item.id);
      assert item.(id := item.id) == item;
      forall k | 0 <= k < |t.rows| && t.rows[k].id != item.id
        ensures GetOf(t', t.rows[k].id) == GetOf(t, t.rows[k].id)
      {
        GetsItsRow(t', k);
        GetsItsRow(t, k);
      }
    }
  }

  /** Whatever a successful save writes is again a valid table. */
  lemma SaveKeepsValid(t: CourseTable, item: Course)
    requires Valid(t)
    ensures SaveOf(t, item).Success? ==> Valid(SaveOf(t, item).value.0)
  {
    if item.id == 0 {
      InsertIssuesFreshId(t, TableName, item.canvasId, ToFields(item));
    } else {
      UpdateReplacesOneRow(t, TableName, Row(item.id, item.canvasId, ToFields(item)));
    }
  }

  /** DeleteItemAsync removes the row with the item's ID and reports how many rows went. */
  lemma DeleteCourse(t: CourseTable, item: Course)
    requires Valid(t)
    ensures var (t', n) := Delete(t, item.id);
      && Valid(t') && GetOf(t', item.id) == None
      && n == (if GetOf(t, item.id).Some? then 1 else 0)
      && (forall k :: 0 <= k < |t.rows| && t.rows[k].id != item.id ==>
            GetOf(t', t.rows[k].id) == GetOf(t, t.rows[k].id))
  {
    DeleteRemovesOneRow(t, item.id);
    var t' := Delete(t, item.id).0;
    forall k | 0 <= k < |t.rows| && t.rows[k].id != item.id
      ensures GetOf(t', t.rows[k].id) == GetOf(t, t.rows[k].id)
    {
      var m :| 0 <= m < |t'.rows| && t'.rows[m] == t.rows[k];
      GetsItsRow(t', m);
      GetsItsRow(t, k);
    }
  }

  class CourseRepository {
    /** The Course table as the database file holds it. */
    var table: CourseTable
    /** _hasBeenInitialized. */
    var initialized: bool
    /** The engine's answer to CREATE TABLE IF NOT EXISTS Course: None when it succeeds. */
    const schemaError: Option<Exception>

    ghost predicate Valid()
      reads this
    {
      Table.Valid(table) && (schemaError.Some? ==> !initialized)
    }

    /** A repository over a database file that already holds `existing` (empty when the
        table does not exist yet). */
    constructor(existing: CourseTable, schemaError: Option<Exception>)
      requires Table.Valid(existing)
      ensures Valid() && table == existing && !initialized && this.schemaError == schemaError
    {
      table := existing;
      initialized := false;
      this.schemaError := schemaError;
    }

    /** Creates the table once; a failing CREATE is rethrown and leaves the flag clear. */
    method Init() returns (err: Option<Exception>)
      requires Valid()
      modifies this
      ensures Valid() && table == old(table)
      ensures err == schemaError
      ensures initialized <==> schemaError.None?
    {
      if initialized {
        return None;
      }
      if schemaError.Some? {
        return schemaError;
      }
      initialized := true;
      return None;
    }

    method ListAsync() returns (r: Result<seq<Course>, Exception>)
      requires Valid()
      modifies this
      ensures Valid() && table == old(table)
      ensures r == if schemaError.Some? then Failure(schemaError.value) else Success(ListOf(table))
    {
      var err := Init();
      if err.Some? {
        return Failure(err.value);
      }
      var rows := SortBy(table.rows, CodeKey);
      var courses: seq<Course> := [];
      var i := 0;
      while i < |rows|
        invariant 0 <= i <= |rows|
        invariant |courses| == i
        invariant forall k :: 0 <= k < i ==> courses[k] == ReadCourse(rows[k])
      {
        courses := courses + [ReadCourse(rows[i])];
        i := i + 1;
      }
      ReadInOrderIsList(table, courses);
      return Success(courses);
    }

    method GetAsync(id: int) returns (r: Result<Option<Course>, Exception>)
      requires Valid()
      modifies this
      ensures Valid() && table == old(table)
      ensures r == if schemaError.Some? then Failure(schemaError.value) else Success(GetOf(table, id))
    {
      var err := Init();
      if err.Some? {
        return Failure(err.value);
      }
      return Success(GetOf(table, id));
    }

    method GetByCanvasIdAsync(canvasId: string) returns (r: Result<Option<Course>, Exception>)
      requires Valid()
      modifies this
      ensures Valid() && table == old(table)
      ensures r == if schemaError.Some? then Failure(schemaError.value)
                   else Success(GetByCanvasIdOf(table, canvasId))
    {
      var err := Init();
      if err.Some? {
        return Failure(err.value);
      }
      return Success(GetByCanvasIdOf(table, canvasId));
    }

    /** Returns the item's ID, and the item as the caller holds it afterwards (its ID
        written back after an insert). A failed statement changes nothing. */
    method SaveItemAsync(item: Course) returns (r: Result<int, Exception>, item': Course)
      requires Valid()
      modifies this
      ensures Valid()
      ensures schemaError.Some? ==> r == Failure(schemaError.value) && item' == item && table == old(table)
      ensures schemaError.None? ==> match SaveOf(old(table), item)
        case Failure(e) => r == Failure(e) && item' == item && table == old(table)
        case Success((t', saved)) => r == Success(saved.id) && item' == saved && table == t'
    {
      item' := item;
      var err := Init();
      if err.Some? {
        return Failure(err.value), item';
      }
      var result := SaveOf(table, item);
      if result.Failure? {
        return Failure(result.error), item';
      }
      if item.id == 0 {
        InsertIssuesFreshId(table, TableName, item.canvasId, ToFields(item));
      } else {
        UpdateReplacesOneRow(table, TableName, Row(item.id, item.canvasId, ToFields(item)));
      }
      table := result.value.0;
      item' := result.value.1;
      return Success(item'.id), item';
    }

    /** The number of rows deleted. */
    method DeleteItemAsync(item: Course) returns (r: Result<int, Exception>)
      requires Valid()
      modifies this
      ensures Valid()
      ensures schemaError.Some? ==> r == Failure(schemaError.value) && table == old(table)
      ensures schemaError.None? ==>
        r == Success(Delete(old(table), item.id).1) && table == Delete(old(table), item.id).0
    {
      var err := Init();
      if err.Some? {
        return Failure(err.value);
      }
      DeleteRemovesOneRow(table, item.id);
      var (t', n) := Delete(table, item.id);
      table := t';
      return Success(n);
    }

    /** DROP TABLE IF EXISTS Course, which also discards its AUTOINCREMENT counter, and
        clears the flag so the next operation creates the table again. */
    method DropTableAsync() returns (r: Result<(), Exception>)
      requires Valid()
      modifies this
      ensures Valid()
      ensures schemaError.Some? ==> r == Failure(schemaError.value) && table == old(table)
      ensures schemaError.None? ==> r == Success(()) && table == EmptyTable() && !initialized
    {
      var err := Init();
      if err.Some? {
        return Failure(err.value);
      }
      table := EmptyTable();
      initialized := false;
      return Success(());
    }
  }
}
