/** The Assignment table and the repository object that owns it. Like the course
    repository it creates its table on first use; every assignment it reads is completed
    with its course, looked up by CourseID through the course repository it was given. */
module AssignmentRepository {
  import opened Wrappers
  import opened Exceptions
  import opened Models
  import opened Table
  import opened Ordering
  import CourseRepository

  const TableName: string := "Assignment"

  /** The twelve columns after ID, except CanvasId which the table keeps as the row key.
      Status holds the enum's ordinal and Published holds 1 or 0, as the INSERT binds them. */
  datatype AssignmentFields = AssignmentFields(
    title: string,
    description: string,
    dueDate: DateTime,
    courseId: int,
    pointsPossible: Points,
    status: int,
    assignmentGroupId: string,
    htmlUrl: string,
    published: int,
    createdAt: DateTime,
    updatedAt: DateTime)

  type AssignmentTable = TableState<AssignmentFields>

  /** A valid table whose every Status is the ordinal of a defined status. */
  predicate WellFormed(t: AssignmentTable) {
    Table.Valid(t) && forall k :: 0 <= k < |t.rows| ==> 0 <= t.rows[k].fields.status <= 4
  }

  /** The parameters SaveItemAsync binds for an assignment (its Course is not stored). */
  function ToFields(a: Assignment): AssignmentFields {
    AssignmentFields(a.title, a.description, a.dueDate, a.courseId, a.pointsPossible,
                     StatusToInt(a.status), a.assignmentGroupId, a.htmlUrl,
                     if a.published then 1 else 0, a.createdAt, a.updatedAt)
  }

  /** The Assignment object a reader builds from a row, before its course is loaded. */
  function ReadAssignment(r: Row<AssignmentFields>): Assignment
    requires 0 <= r.fields.status <= 4
  {
    var f := r.fields;
    Assignment(r.id, r.canvasId, f.title, f.description, f.dueDate, f.courseId, None,
               f.pointsPossible, StatusFromInt(f.status), f.assignmentGroupId, f.htmlUrl,
               f.published == 1, f.createdAt, f.updatedAt)
  }

  /** assignment.Course = await _courseRepository.GetAsync(assignment.CourseID). */
  function Attach(a: Assignment, courses: CourseRepository.CourseTable): Assignment {
    a.(course := CourseRepository.GetOf(courses, a.courseId))
  }

  /** Each assignment with its course loaded. */
  function AttachAll(list: seq<Assignment>, courses: CourseRepository.CourseTable): (r: seq<Assignment>)
    ensures |r| == |list|
    ensures forall k :: 0 <= k < |list| ==> r[k] == Attach(list[k], courses)
  {
    seq(|list|, k requires 0 <= k < |list| => Attach(list[k], courses))
  }

  /** The outcome of a read: the assignment table's CREATE fails first; then loading the
      course of at least one assignment fails when the course table's CREATE fails. */
  function Outcome<T>(err: Option<Exception>, courseErr: Option<Exception>, attaches: bool, v: T)
    : Result<T, Exception>
  {
    if err.Some? then Failure(err.value)
    else if attaches && courseErr.Some? then Failure(courseErr.value)
    else Success(v)
  }

  /** ORDER BY DueDate. */
  function DueKey(r: Row<AssignmentFields>): seq<int> {
    [r.fields.dueDate]
  }

  predicate StatusesDefined(rows: seq<Row<AssignmentFields>>) {
    forall k :: 0 <= k < |rows| ==> 0 <= rows[k].fields.status <= 4
  }

  /** Sorting keeps the rows, so it keeps their statuses defined. */
  lemma SortKeepsStatuses(rows: seq<Row<AssignmentFields>>)
    requires StatusesDefined(rows)
    ensures StatusesDefined(SortBy(rows, DueKey))
    ensures |SortBy(rows, DueKey)| == |rows|
  {
    var s := SortBy(rows, DueKey);
    assert |multiset(s)| == |multiset(rows)|;
    forall k | 0 <= k < |s| ensures 0 <= s[k].fields.status <= 4 {
      assert s[k] in multiset(rows);
    }
  }

  /** The rows read in order, each with its course loaded. */
  function ReadAll(rows: seq<Row<AssignmentFields>>, courses: CourseRepository.CourseTable)
    : (r: seq<Assignment>)
    requires StatusesDefined(rows)
    ensures |r| == |rows|
  {
    seq(|rows|, k requires 0 <= k < |rows| => Attach(ReadAssignment(rows[k]), courses))
  }

  /** SELECT * FROM Assignment ORDER BY DueDate ASC, with courses loaded. */
  function ListOf(t: AssignmentTable, courses: CourseRepository.CourseTable): seq<Assignment>
    requires WellFormed(t)
  {
    SortKeepsStatuses(t.rows);
    ReadAll(SortBy(t.rows, DueKey), courses)
  }

  /** WHERE DueDate >= @startDate AND DueDate <= @endDate, in table order. */
  function InRange(rows: seq<Row<AssignmentFields>>, startDate: DateTime, endDate: DateTime)
    : (r: seq<Row<AssignmentFields>>)
    ensures forall k :: 0 <= k < |r| ==> r[k] in rows && startDate <= r[k].fields.dueDate <= endDate
    ensures forall k :: 0 <= k < |rows| && startDate <= rows[k].fields.dueDate <= endDate ==> rows[k] in r
    decreases |rows|
  {
    if |rows| == 0 then []
    else
      var rest := InRange(rows[1..], startDate, endDate);
      assert forall k :: 1 <= k < |rows| ==> rows[k] == rows[1..][k - 1];
      if startDate <= rows[0].fields.dueDate <= endDate then [rows[0]] + rest else rest
  }

  /** GetAssignmentsDueInRangeAsync's query, with courses loaded. */
  function RangeOf(t: AssignmentTable, courses: CourseRepository.CourseTable,
                   startDate: DateTime, endDate: DateTime): seq<Assignment>
    requires WellFormed(t)
  {
    var rows := InRange(t.rows, startDate, endDate);
    assert StatusesDefined(rows) by {
      forall k | 0 <= k < |rows| ensures 0 <= rows[k].fields.status <= 4 {
        var m :| 0 <= m < |t.rows| && t.rows[m] == rows[k];
      }
    }
    SortKeepsStatuses(rows);
    ReadAll(SortBy(rows, DueKey), courses)
  }

  /** SELECT * FROM Assignment WHERE ID = @id, before its course is loaded. */
  function GetOf(t: AssignmentTable, id: int): Option<Assignment>
    requires WellFormed(t)
  {
    match FindById(t.rows, id)
    case None => None
    case Some(r) =>
      var k :| 0 <= k < |t.rows| && t.rows[k] == r;
      Some(ReadAssignment(r))
  }

  /** SELECT * FROM Assignment WHERE CanvasId = @canvasId, before its course is loaded. */
  function GetByCanvasIdOf(t: AssignmentTable, canvasId: string): Option<Assignment>
    requires WellFormed(t)
  {
    match FindByCanvasId(t.rows, canvasId)
    case None => None
    case Some(r) =>
      var k :| 0 <= k < |t.rows| && t.rows[k] == r;
      Some(ReadAssignment(r))
  }

  /** An optional assignment with its course loaded. */
  function AttachOpt(a: Option<Assignment>, courses: CourseRepository.CourseTable): Option<Assignment> {
    match a
    case None => None
    case Some(x) => Some(Attach(x, courses))
  }

  /** SaveItemAsync on the table: ID 0 inserts and writes the new ID back into the item,
      any other ID updates that row. The new table and the item as the caller then holds it. */
  function SaveOf(t: AssignmentTable, item: Assignment)
    : Result<(AssignmentTable, Assignment), Exception>
  {
    if item.id == 0 then
      match Insert(t, TableName, item.canvasId, ToFields(item))
      case Failure(e) => Failure(e)
      case Success(t') => Success((t', item.(id := t'.lastId)))
    else
      match Update(t, TableName, Row(item.id, item.canvasId, ToFields(item)))
      case Failure(e) => Failure(e)
      case Success(t') => Success((t', item))
  }

  /** Writing an assignment and reading it back gives every stored property back, Status
      and Published included, with the course of its CourseID loaded. */
  lemma ReadWritten(a: Assignment, id: int, courses: CourseRepository.CourseTable)
    ensures Attach(ReadAssignment(Row(id, a.canvasId, ToFields(a))), courses) == Attach(a.(id := id), courses)
  {
    StatusRoundTrip(a.status, 0);
  }

  /** In a valid table a row is what a lookup by its ID or its CanvasId gives back. */
  lemma GetsItsRow(t: AssignmentTable, k: int)
    requires WellFormed(t) && 0 <= k < |t.rows|
    ensures GetOf(t, t.rows[k].id) == Some(ReadAssignment(t.rows[k]))
    ensures GetByCanvasIdOf(t, t.rows[k].canvasId) == Some(ReadAssignment(t.rows[k]))
  {
    FindsItsRow(t, k);
  }

  /** A saved row is well formed: the ordinal of a status is in range. */
  lemma SaveKeepsWellFormed(t: AssignmentTable, item: Assignment)
    requires WellFormed(t)
    ensures SaveOf(t, item).Success? ==> WellFormed(SaveOf(t, item).value.0)
  {
    if item.id == 0 {
      InsertIssuesFreshId(t, TableName, item.canvasId, ToFields(item));
      if SaveOf(t, item).Success? {
        var t' := SaveOf(t, item).value.0;
        forall k | 0 <= k < |t'.rows| ensures 0 <= t'.rows[k].fields.status <= 4 {
          if k < |t.rows| {
            assert t'.rows[..|t.rows|][k] == t.rows[k];
          }
        }
      }
    } else {
      UpdateReplacesOneRow(t, TableName, Row(item.id, item.canvasId, ToFields(item)));
    }
  }

  /** Reading rows keeps one assignment per row, in the rows' order. */
  lemma ReadAllMembers(rows: seq<Row<AssignmentFields>>, courses: CourseRepository.CourseTable)
    requires StatusesDefined(rows)
    ensures forall k :: 0 <= k < |rows| ==> ReadAll(rows, courses)[k] == Attach(ReadAssignment(rows[k]), courses)
    ensures forall k :: 0 <= k < |rows| ==> Attach(ReadAssignment(rows[k]), courses) in ReadAll(rows, courses)
  {
    var l := ReadAll(rows, courses);
    forall k | 0 <= k < |rows| ensures Attach(ReadAssignment(rows[k]), courses) in l {
      assert l[k] == Attach(ReadAssignment(rows[k]), courses);
    }
  }

  /** Reading rows one by one and then loading each course is reading them with courses. */
  lemma ReadThenAttach(rows: seq<Row<AssignmentFields>>, list: seq<Assignment>,
                       courses: CourseRepository.CourseTable)
    requires StatusesDefined(rows) && |list| == |rows|
    requires forall k :: 0 <= k < |rows| ==> list[k] == ReadAssignment(rows[k])
    ensures AttachAll(list, courses) == ReadAll(rows, courses)
  {
  }

  /** Rows sorted by DueKey read as assignments ordered by due date. */
  lemma ReadAllSorted(rows: seq<Row<AssignmentFields>>, courses: CourseRepository.CourseTable)
    requires StatusesDefined(rows) && SortedBy(rows, DueKey)
    ensures forall i, j :: 0 <= i < j < |rows| ==>
      ReadAll(rows, courses)[i].dueDate <= ReadAll(rows, courses)[j].dueDate
  {
    var l := ReadAll(rows, courses);
    forall i, j | 0 <= i < j < |rows| ensures l[i].dueDate <= l[j].dueDate {
      assert LexLe(DueKey(rows[i]), DueKey(rows[j]));
      IntKeyOrder(rows[i].fields.dueDate, rows[j].fields.dueDate);
    }
  }

  /** Every assignment read from `rows` comes from one of them. */
  lemma ReadAllFrom(rows: seq<Row<AssignmentFields>>, courses: CourseRepository.CourseTable)
    requires StatusesDefined(rows)
    ensures forall a :: a in ReadAll(rows, courses) ==>
      exists k :: 0 <= k < |rows| && a == Attach(ReadAssignment(rows[k]), courses)
  {
    var l := ReadAll(rows, courses);
    forall a | a in l ensures exists k :: 0 <= k < |rows| && a == Attach(ReadAssignment(rows[k]), courses) {
      var m :| 0 <= m < |l| && l[m] == a;
    }
  }

  /** Reading a permutation of `rows` reads every row of `rows` and nothing else. */
  lemma ReadAllOfPermutation(rows: seq<Row<AssignmentFields>>, perm: seq<Row<AssignmentFields>>,
                             courses: CourseRepository.CourseTable)
    requires StatusesDefined(rows) && StatusesDefined(perm) && multiset(perm) == multiset(rows)
    ensures forall k :: 0 <= k < |rows| ==> Attach(ReadAssignment(rows[k]), courses) in ReadAll(perm, courses)
    ensures forall a :: a in ReadAll(perm, courses) ==>
      exists k :: 0 <= k < |rows| && a == Attach(ReadAssignment(rows[k]), courses)
  {
    ReadAllMembers(perm, courses);
    ReadAllFrom(perm, courses);
    forall k | 0 <= k < |rows| ensures Attach(ReadAssignment(rows[k]), courses) in ReadAll(perm, courses) {
      assert rows[k] in multiset(perm);
      var m :| 0 <= m < |perm| && perm[m] == rows[k];
    }
    forall a | a in ReadAll(perm, courses)
      ensures exists k :: 0 <= k < |rows| && a == Attach(ReadAssignment(rows[k]), courses)
    {
      var m :| 0 <= m < |perm| && a == Attach(ReadAssignment(perm[m]), courses);
      assert perm[m] in multiset(rows);
      var k :| 0 <= k < |rows| && rows[k] == perm[m];
    }
  }

  /** Every stored assignment is listed, with its course loaded, the list holds nothing
      else, and it is ordered by DueDate. */
  lemma ListIsSortedPermutation(t: AssignmentTable, courses: CourseRepository.CourseTable)
    requires WellFormed(t)
    ensures |ListOf(t, courses)| == |t.rows|
    ensures forall k :: 0 <= k < |t.rows| ==>
      Attach(ReadAssignment(t.rows[k]), courses) in ListOf(t, courses)
    ensures forall a :: a in ListOf(t, courses) ==>
      exists k :: 0 <= k < |t.rows| && a == Attach(ReadAssignment(t.rows[k]), courses)
    ensures forall i, j :: 0 <= i < j < |ListOf(t, courses)| ==>
      ListOf(t, courses)[i].dueDate <= ListOf(t, courses)[j].dueDate
  {
    SortKeepsStatuses(t.rows);
    var rows := SortBy(t.rows, DueKey);
    assert ListOf(t, courses) == ReadAll(rows, courses);
    ReadAllOfPermutation(t.rows, rows, courses);
    ReadAllSorted(rows, courses);
  }

  lemma InRangeStatuses(t: AssignmentTable, startDate: DateTime, endDate: DateTime)
    requires WellFormed(t)
    ensures StatusesDefined(InRange(t.rows, startDate, endDate))
    ensures StatusesDefined(SortBy(InRange(t.rows, startDate, endDate), DueKey))
  {
    var sel := InRange(t.rows, startDate, endDate);
    forall k | 0 <= k < |sel| ensures 0 <= sel[k].fields.status <= 4 {
      var m :| 0 <= m < |t.rows| && t.rows[m] == sel[k];
    }
    SortKeepsStatuses(sel);
  }

  /** The range query returns every stored assignment due between the two dates, both
      included, with its course loaded. */
  lemma RangeHasEveryDue(t: AssignmentTable, courses: CourseRepository.CourseTable,
                         startDate: DateTime, endDate: DateTime)
    requires WellFormed(t)
    ensures forall k :: 0 <= k < |t.rows| && startDate <= t.rows[k].fields.dueDate <= endDate ==>
      Attach(ReadAssignment(t.rows[k]), courses) in RangeOf(t, courses, startDate, endDate)
  {
    var rows := SortBy(InRange(t.rows, startDate, endDate), DueKey);
    RangeOfReads(t, courses, startDate, endDate);
    RangeCoversRows(t, startDate, endDate);
    var r := ReadAll(rows, courses);
    forall k | 0 <= k < |t.rows| && startDate <= t.rows[k].fields.dueDate <= endDate
      ensures Attach(ReadAssignment(t.rows[k]), courses) in r
    {
      var m :| 0 <= m < |rows| && rows[m] == t.rows[k];
      assert r[m] == Attach(ReadAssignment(t.rows[k]), courses);
    }
  }

  /** Every stored row due between the two dates is among the rows the range query orders. */
  lemma RangeCoversRows(t: AssignmentTable, startDate: DateTime, endDate: DateTime)
    ensures var rows := SortBy(InRange(t.rows, startDate, endDate), DueKey);
      forall k :: 0 <= k < |t.rows| && startDate <= t.rows[k].fields.dueDate <= endDate ==> t.rows[k] in rows
  {
    var sel := InRange(t.rows, startDate, endDate);
    var rows := SortBy(sel, DueKey);
    Ordering.PermutationMembers(rows, sel);
    forall k | 0 <= k < |t.rows| && startDate <= t.rows[k].fields.dueDate <= endDate
      ensures t.rows[k] in rows
    {
      var s :| 0 <= s < |sel| && sel[s] == t.rows[k];
    }
  }

  /** The range query reads the selected rows in DueDate order. */
  lemma RangeOfReads(t: AssignmentTable, courses: CourseRepository.CourseTable,
                     startDate: DateTime, endDate: DateTime)
    requires WellFormed(t)
    ensures StatusesDefined(SortBy(InRange(t.rows, startDate, endDate), DueKey))
    ensures RangeOf(t, courses, startDate, endDate) == ReadAll(SortBy(InRange(t.rows, startDate, endDate), DueKey), courses)
  {
    InRangeStatuses(t, startDate, endDate);
  }

  /** Each row the range query orders is a stored row due between the two dates. */
  lemma RangeRows(t: AssignmentTable, startDate: DateTime, endDate: DateTime)
    ensures var rows := SortBy(InRange(t.rows, startDate, endDate), DueKey);
      forall i :: 0 <= i < |rows| ==> startDate <= rows[i].fields.dueDate <= endDate && rows[i] in t.rows
  {
    var sel := InRange(t.rows, startDate, endDate);
    var rows := SortBy(sel, DueKey);
    Ordering.PermutationMembers(sel, rows);
    forall i | 0 <= i < |rows| ensures startDate <= rows[i].fields.dueDate <= endDate && rows[i] in t.rows {
      var k :| 0 <= k < |sel| && sel[k] == rows[i];
    }
  }

  /** The range query returns nothing but stored assignments due between the two dates. */
  lemma RangeHasOnlyDue(t: AssignmentTable, courses: CourseRepository.CourseTable,
                        startDate: DateTime, endDate: DateTime)
    requires WellFormed(t)
    ensures var r := RangeOf(t, courses, startDate, endDate);
      forall i :: 0 <= i < |r| ==>
        startDate <= r[i].dueDate <= endDate &&
        exists k :: 0 <= k < |t.rows| && r[i] == Attach(ReadAssignment(t.rows[k]), courses)
  {
    var rows := SortBy(InRange(t.rows, startDate, endDate), DueKey);
    RangeOfReads(t, courses, startDate, endDate);
    RangeRows(t, startDate, endDate);
    var r := ReadAll(rows, courses);
    forall i | 0 <= i < |r| ensures startDate <= r[i].dueDate <= endDate &&
      exists k :: 0 <= k < |t.rows| && r[i] == Attach(ReadAssignment(t.rows[k]), courses)
    {
      var k :| 0 <= k < |t.rows| && t.rows[k] == rows[i];
      assert r[i] == Attach(ReadAssignment(t.rows[k]), courses);
    }
  }

  /** The range query's result is ordered by DueDate. */
  lemma RangeIsOrdered(t: AssignmentTable, courses: CourseRepository.CourseTable,
                       startDate: DateTime, endDate: DateTime)
    requires WellFormed(t)
    ensures forall i, j :: 0 <= i < j < |RangeOf(t, courses, startDate, endDate)| ==>
      RangeOf(t, courses, startDate, endDate)[i].dueDate <= RangeOf(t, courses, startDate, endDate)[j].dueDate
  {
    var sel := InRange(t.rows, startDate, endDate);
    InRangeStatuses(t, startDate, endDate);
    var rows := SortBy(sel, DueKey);
    assert RangeOf(t, courses, startDate, endDate) == ReadAll(rows, courses);
    ReadAllSorted(rows, courses);
  }

  /** An assignment saved with ID 0 and a new CanvasId gets the next AUTOINCREMENT ID,
      larger than every ID issued before, and reads back (by ID and by CanvasId) as it was
      saved, with the course of its CourseID; every earlier assignment is still there. A
      taken CanvasId fails with the UNIQUE error. */
  lemma SaveNewAssignment(t: AssignmentTable, courses: CourseRepository.CourseTable, item: Assignment)
    requires WellFormed(t) && item.id == 0
    ensures HasCanvasId(t.rows, item.canvasId) ==> SaveOf(t, item) == Failure(UniqueViolation(TableName))
    ensures !HasCanvasId(t.rows, item.canvasId) ==>
      SaveOf(t, item).Success? &&
      var (t', saved) := SaveOf(t, item).value;
      && WellFormed(t')
      && saved == item.(id := t.lastId + 1)
      && (forall k :: 0 <= k < |t.rows| ==> t.rows[k].id < saved.id)
      && AttachOpt(GetOf(t', saved.id), courses) == Some(Attach(saved, courses))
      && AttachOpt(GetByCanvasIdOf(t', item.canvasId), courses) == Some(Attach(saved, courses))
      && (forall k :: 0 <= k < |t.rows| ==> GetOf(t', t.rows[k].id) == GetOf(t, t.rows[k].id))
  {
    InsertIssuesFreshId(t, TableName, item.canvasId, ToFields(item));
    SaveKeepsWellFormed(t, item);
    if !HasCanvasId(t.rows, item.canvasId) {
      var t' := Insert(t, TableName, item.canvasId, ToFields(item)).value;
      var saved := item.(id := t'.lastId);
      assert t'.rows[|t.rows|] == Row(saved.id, item.canvasId, ToFields(item));
      GetsItsRow(t', |t.rows|);
      ReadWritten(item, saved.id, courses);
      forall k | 0 <= k < |t.rows| ensures GetOf(t', t.rows[k].id) == GetOf(t, t.rows[k].id) {
        assert t'.rows[k] == t.rows[k];
        GetsItsRow(t', k);
        GetsItsRow(t, k);
      }
    }
  }

  /** An assignment with a non-zero ID overwrites every column of the row with that ID (a
      later read gives the item back, with the course of its CourseID) and no other row;
      with no such row nothing changes; a CanvasId held by another row fails with the
      UNIQUE error. */
  lemma SaveExistingAssignment(t: AssignmentTable, courses: CourseRepository.CourseTable, item: Assignment)
    requires WellFormed(t) && item.id != 0
    ensures !HasId(t.rows, item.id) ==> SaveOf(t, item) == Success((t, item))
    ensures HasId(t.rows, item.id) ==>
      if Clashes(t.rows, Row(item.id, item.canvasId, ToFields(item))) then
        SaveOf(t, item) == Failure(UniqueViolation(TableName))
      else
        SaveOf(t, item).Success? &&
        var (t', saved) := SaveOf(t, item).value;
        && WellFormed(t') && saved == item && t'.lastId == t.lastId && |t'.rows| == |t.rows|
        && AttachOpt(GetOf(t', item.id), courses) == Some(Attach(item, courses))
        && (forall k :: 0 <= k < |t.rows| && t.rows[k].id != item.id ==>
              GetOf(t', t.rows[k].id) == GetOf(t, t.rows[k].id))
  {
    var row := Row(item.id, item.canvasId, ToFields(item));
    UpdateReplacesOneRow(t, TableName, row);
    SaveKeepsWellFormed(t, item);
    if HasId(t.rows, item.id) && !Clashes(t.rows, row) {
      var t' := Update(t, TableName, row).value;
      ReadWritten(item, item.id, courses);
      assert item.(id := item.id) == item;
      var m :| 0 <= m < |t.rows| && t.rows[m].id == item.id;
      assert t'.rows[m] == row;
      GetsItsRow(t', m);
      forall k | 0 <= k < |t.rows| && t.rows[k].id != item.id
        ensures GetOf(t', t.rows[k].id) == GetOf(t, t.rows[k].id)
      {
        GetsItsRow(t', k);
        GetsItsRow(t, k);
      }
    }
  }

  lemma DeleteKeepsWellFormed(t: AssignmentTable, id: int)
    requires WellFormed(t)
    ensures WellFormed(Delete(t, id).0)
  {
    DeleteRemovesOneRow(t, id);
    var t' := Delete(t, id).0;
    forall i | 0 <= i < |t'.rows| ensures 0 <= t'.rows[i].fields.status <= 4 {
      var m :| 0 <= m < |t.rows| && t.rows[m] == t'.rows[i];
    }
  }

  /** DeleteItemAsync removes the row with the item's ID, reports how many rows went, and
      keeps every other assignment. */
  lemma DeleteAssignment(t: AssignmentTable, item: Assignment)
    requires WellFormed(t)
    ensures var (t', n) := Delete(t, item.id);
      && WellFormed(t') && GetOf(t', item.id) == None
      && n == (if GetOf(t, item.id).Some? then 1 else 0)
      && (forall k :: 0 <= k < |t.rows| && t.rows[k].id != item.id ==>
            GetOf(t', t.rows[k].id) == GetOf(t, t.rows[k].id))
  {
    DeleteKeepsWellFormed(t, item.id);
    DeleteRemovesOneRow(t, item.id);
    var t' := Delete(t, item.id).0;
    forall k | 0 <= k < |t.rows| && t.rows[k].id != item.id
      ensures GetOf(t', t.rows[k].id) == GetOf(t, t.rows[k].id)
    {
      var m :| 0 <= m < |t'.rows| && t'.rows[m] == t.rows[k];
      GetsItsRow(t', m);
      GetsItsRow(t, k);
    }
  }

  /** No course has ID 0, so an assignment stored with CourseID 0 is read without a course. */
  lemma CourseIdZeroHasNoCourse(courses: CourseRepository.CourseTable, a: Assignment)
    requires Table.Valid(courses) && a.courseId == 0
    ensures Attach(a, courses).course == None
  {
  }

  class AssignmentRepository {
    /** The Assignment table as the database file holds it. */
    var table: AssignmentTable
    /** _hasBeenInitialized. */
    var initialized: bool
    /** The engine's answer to CREATE TABLE IF NOT EXISTS Assignment: None when it succeeds. */
    const schemaError: Option<Exception>
    /** _courseRepository, which loads the course of every assignment read. */
    const courses: CourseRepository.CourseRepository

    ghost predicate Valid()
      reads this, courses
    {
      WellFormed(table) && (schemaError.Some? ==> !initialized) && courses.Valid()
    }

    /** A repository over a database file that already holds `existing` (empty when the
        table does not exist yet). */
    constructor(existing: AssignmentTable, schemaError: Option<Exception>,
                courses: CourseRepository.CourseRepository)
      requires WellFormed(existing) && courses.Valid()
      ensures Valid() && table == existing && !initialized
      ensures this.schemaError == schemaError && this.courses == courses
    {
      table := existing;
      initialized := false;
      this.schemaError := schemaError;
      this.courses := courses;
    }

    /** Creates the table once; a failing CREATE is rethrown and leaves the flag clear. */
    method Init() returns (err: Option<Exception>)
      requires Valid()
      modifies this
      ensures Valid() && table == old(table)
      ensures err == schemaError
      ensures initialized <==> schemaError.None?
    {
      if initialized {
        return None;
      }
      if schemaError.Some? {
        return schemaError;
      }
      initialized := true;
      return None;
    }

    /** The foreach loop that loads each assignment's course through the course repository;
        the first failing lookup is rethrown. */
    method LoadCourses(list: seq<Assignment>) returns (r: Result<seq<Assignment>, Exception>)
      requires Valid()
      modifies courses
      ensures Valid() && courses.table == old(courses.table)
      ensures r == Outcome(None, courses.schemaError, |list| > 0, AttachAll(list, courses.table))
    {
      var loaded := list;
      var i := 0;
      while i < |list|
        invariant 0 <= i <= |list| && |loaded| == |list|
        invariant Valid() && courses.table == old(courses.table)
        invariant i > 0 ==> courses.schemaError.None?
        invariant forall k :: 0 <= k < i ==> loaded[k] == Attach(list[k], courses.table)
        invariant forall k :: i <= k < |list| ==> loaded[k] == list[k]
      {
        var c := courses.GetAsync(list[i].courseId);
        if c.Failure? {
          return Failure(c.error);
        }
        loaded := loaded[i := list[i].(course := c.value)];
        i := i + 1;
      }
      assert loaded == AttachAll(list, courses.table);
      return Success(loaded);
    }

    /** The reader loop over rows the query returns. */
    method ReadRows(rows: seq<Row<AssignmentFields>>) returns (list: seq<Assignment>)
      requires StatusesDefined(rows)
      ensures |list| == |rows|
      ensures forall k :: 0 <= k < |rows| ==> list[k] == ReadAssignment(rows[k])
    {
      list := [];
      var i := 0;
      while i < |rows|
        invariant 0 <= i <= |rows| && |list| == i
        invariant forall k :: 0 <= k < i ==> list[k] == ReadAssignment(rows[k])
      {
        list := list + [ReadAssignment(rows[i])];
        i := i + 1;
      }
    }

    method ListAsync() returns (r: Result<seq<Assignment>, Exception>)
      requires Valid()
      modifies this, courses
      ensures Valid() && table == old(table) && courses.table == old(courses.table)
      ensures r == Outcome(schemaError, courses.schemaError, |table.rows| > 0, ListOf(table, courses.table))
    {
      var err := Init();
      if err.Some? {
        return Failure(err.value);
      }
      SortKeepsStatuses(table.rows);
      var rows := SortBy(table.rows, DueKey);
      var list := ReadRows(rows);
      r := LoadCourses(list);
      ReadThenAttach(rows, list, courses.table);
    }

    method GetAssignmentsDueInRangeAsync(startDate: DateTime, endDate: DateTime)
      returns (r: Result<seq<Assignment>, Exception>)
      requires Valid()
      modifies this, courses
      ensures Valid() && table == old(table) && courses.table == old(courses.table)
      ensures r == Outcome(schemaError, courses.schemaError,
                           |RangeOf(table, courses.table, startDate, endDate)| > 0,
                           RangeOf(table, courses.table, startDate, endDate))
    {
      var err := Init();
      if err.Some? {
        return Failure(err.value);
      }
      RangeOfReads(table, courses.table, startDate, endDate);
      var rows := SortBy(InRange(table.rows, startDate, endDate), DueKey);
      var list := ReadRows(rows);
      r := LoadCourses(list);
      ReadThenAttach(rows, list, courses.table);
    }

    /** Loads the course only when a row is found. */
    method GetAsync(id: int) returns (r: Result<Option<Assignment>, Exception>)
      requires Valid()
      modifies this, courses
      ensures Valid() && table == old(table) && courses.table == old(courses.table)
      ensures r == Outcome(schemaError, courses.schemaError, GetOf(table, id).Some?,
                           AttachOpt(GetOf(table, id), courses.table))
    {
      var err := Init();
      if err.Some? {
        return Failure(err.value);
      }
      var found := GetOf(table, id);
      if found.None? {
        return Success(None);
      }
      var c := courses.GetAsync(found.value.courseId);
      if c.Failure? {
        return Failure(c.error);
      }
      return Success(Some(found.value.(course := c.value)));
    }

    /** Loads the course only when a row is found. */
    method GetByCanvasIdAsync(canvasId: string) returns (r: Result<Option<Assignment>, Exception>)
      requires Valid()
      modifies this, courses
      ensures Valid() && table == old(table) && courses.table == old(courses.table)
      ensures r == Outcome(schemaError, courses.schemaError, GetByCanvasIdOf(table, canvasId).Some?,
                           AttachOpt(GetByCanvasIdOf(table, canvasId), courses.table))
    {
      var err := Init();
      if err.Some? {
        return Failure(err.value);
      }
      var found := GetByCanvasIdOf(table, canvasId);
      if found.None? {
        return Success(None);
      }
      var c := courses.GetAsync(found.value.courseId);
      if c.Failure? {
        return Failure(c.error);
      }
      return Success(Some(found.value.(course := c.value)));
    }

    /** Returns the item's ID, and the item as the caller holds it afterwards (its ID
        written back after an insert). A failed statement changes nothing. */
    method SaveItemAsync(item: Assignment) returns (r: Result<int, Exception>, item': Assignment)
      requires Valid()
      modifies this
      ensures Valid()
      ensures schemaError.Some? ==> r == Failure(schemaError.value) && item' == item && table == old(table)
      ensures schemaError.None? ==> match SaveOf(old(table), item)
        case Failure(e) => r == Failure(e) && item' == item && table == old(table)
        case Success((t', saved)) => r == Success(saved.id) && item' == saved && table == t'
    {
      item' := item;
      var err := Init();
      if err.Some? {
        return Failure(err.value), item';
      }
      var result := SaveOf(table, item);
      if result.Failure? {
        return Failure(result.error), item';
      }
      SaveKeepsWellFormed(table, item);
      table := result.value.0;
      item' := result.value.1;
      return Success(item'.id), item';
    }

    /** The number of rows deleted. */
    method DeleteItemAsync(item: Assignment) returns (r: Result<int, Exception>)
      requires Valid()
      modifies this
      ensures Valid()
      ensures schemaError.Some? ==> r == Failure(schemaError.value) && table == old(table)
      ensures schemaError.None? ==>
        r == Success(Delete(old(table), item.id).1) && table == Delete(old(table), item.id).0
    {
      var err := Init();
      if err.Some? {
        return Failure(err.value);
      }
      DeleteKeepsWellFormed(table, item.id);
      var (t', n) := Delete(table, item.id);
      table := t';
      return Success(n);
    }

    /** DROP TABLE IF EXISTS Assignment, which also discards its AUTOINCREMENT counter, and
        clears the flag so the next operation creates the table again. */
    method DropTableAsync() returns (r: Result<(), Exception>)
      requires Valid()
      modifies this
      ensures Valid()
      ensures schemaError.Some? ==> r == Failure(schemaError.value) && table == old(table)
      ensures schemaError.None? ==> r == Success(()) && table == EmptyTable() && !initialized
    {
      var err := Init();
      if err.Some? {
        return Failure(err.value);
      }
      table := EmptyTable();
      initialized := false;
      return Success(());
    }
  }
}
