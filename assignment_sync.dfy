/** The synchronisation of Canvas assignments into the local store. After a credential
    check it fetches the upcoming assignments, stores every embedded course not stored
    yet (one per CanvasId, first seen wins), then stores every assignment: re-parented to
    its local course, inserted when its CanvasId is new and otherwise merged into the
    stored row. Any exception ends the run with a failure result; nothing already written
    is undone. The run is specified by pure folds over the same repository operations. */
module AssignmentSync {
  import opened Wrappers
  import opened Exceptions
  import opened Models
  import opened Table
  import opened Text
  import CourseRepository
  import AssignmentRepository
  import Configuration
  import CanvasService

  const ConfigurationRequiredMessage: string :=
    "Configuration Required: Please configure your Canvas settings first."
  const TokenNotFoundMessage: string := "Canvas API token not found. Please configure it in Settings."
  const NoUpcomingMessage: string := "No upcoming assignments found for the next 7 days."
  const FailedMessage: string := "Failed to sync with Canvas. Please check your credentials and try again."

  /** $"Synchronized {syncedAssignments} new assignments from Canvas." */
  function SyncedMessage(n: int): string {
    "Synchronized " + IntToString(n) + " new assignments from Canvas."
  }

  datatype SyncResult = SyncResult(
    success: bool,
    syncedAssignments: int,
    syncedCourses: int,
    message: string,
    error: Option<Exception>)

  /** The result the catch block builds. */
  function Failed(e: Exception): SyncResult {
    SyncResult(false, 0, 0, FailedMessage, Some(e))
  }

  /** ValidateCredentials, over the two answers of the configuration service it asks. */
  function ValidateCredentials(hasCredentials: bool, apiToken: string): (r: SyncResult)
    ensures r.success <==> hasCredentials && apiToken != ""
    ensures !hasCredentials ==> r == SyncResult(false, 0, 0, ConfigurationRequiredMessage, None)
    ensures hasCredentials && apiToken == "" ==> r == SyncResult(false, 0, 0, TokenNotFoundMessage, None)
  {
    if !hasCredentials then SyncResult(false, 0, 0, ConfigurationRequiredMessage, None)
    else if apiToken == "" then SyncResult(false, 0, 0, TokenNotFoundMessage, None)
    else SyncResult(true, 0, 0, "", None)
  }

  /** The second guard cannot fire: credentials mean the token the guard reads is non-empty. */
  lemma TokenGuardUnreachable(secrets: map<string, string>, prefs: map<string, string>)
    ensures ValidateCredentials(Configuration.HasCredentials(secrets, prefs),
                                Configuration.CanvasApiToken(secrets, prefs)).message != TokenNotFoundMessage
  {
  }

  /** Among the first n courses, one has this CanvasId. */
  predicate HasCourseIn(cs: seq<Course>, n: int, canvasId: string) {
    exists k :: 0 <= k < n && k < |cs| && cs[k].canvasId == canvasId
  }

  lemma HasCourseNext(cs: seq<Course>, n: int, canvasId: string)
    requires 0 <= n < |cs|
    ensures HasCourseIn(cs, n + 1, canvasId) <==> HasCourseIn(cs, n, canvasId) || cs[n].canvasId == canvasId
  {
  }

  lemma HasCourseAppend(cs: seq<Course>, c: Course, canvasId: string)
    ensures HasCourseIn(cs + [c], |cs| + 1, canvasId) <==> HasCourseIn(cs, |cs|, canvasId) || c.canvasId == canvasId
  {
    var all := cs + [c];
    if HasCourseIn(all, |cs| + 1, canvasId) {
      var k :| 0 <= k < |cs| + 1 && all[k].canvasId == canvasId;
      if k < |cs| {
        assert cs[k] == all[k];
      }
    }
    if HasCourseIn(cs, |cs|, canvasId) {
      var k :| 0 <= k < |cs| && cs[k].canvasId == canvasId;
      assert all[k] == cs[k];
    }
    assert all[|cs|] == c;
  }

  /** The embedded courses of the first n assignments, nulls skipped, grouped by CanvasId,
      the first of each group. */
  function UniqueOf(fetched: seq<Assignment>, n: nat): seq<Course>
    requires n <= |fetched|
    decreases n
  {
    if n == 0 then []
    else
      var u := UniqueOf(fetched, n - 1);
      var a := fetched[n - 1];
      if a.course.Some? && !HasCourseIn(u, |u|, a.course.value.canvasId) then u + [a.course.value] else u
  }

  /** canvasAssignments.Where(a => a.Course != null).Select(a => a.Course!)
        .GroupBy(c => c.CanvasId).Select(g => g.First()). */
  function UniqueCourses(fetched: seq<Assignment>): seq<Course> {
    UniqueOf(fetched, |fetched|)
  }

  /** Assignment k is the first whose embedded course has this CanvasId. */
  predicate FirstWithCourse(fetched: seq<Assignment>, k: int, canvasId: string) {
    && 0 <= k < |fetched|
    && fetched[k].course.Some? && fetched[k].course.value.canvasId == canvasId
    && forall j :: 0 <= j < k ==> !(fetched[j].course.Some? && fetched[j].course.value.canvasId == canvasId)
  }

  /** No two of the courses share a CanvasId. */
  predicate DistinctCanvasIds(cs: seq<Course>) {
    forall i, j :: 0 <= i < j < |cs| ==> cs[i].canvasId != cs[j].canvasId
  }

  /** The unique courses have distinct CanvasIds. */
  lemma {:induction false} UniqueOfDistinct(fetched: seq<Assignment>, n: nat)
    requires n <= |fetched|
    ensures DistinctCanvasIds(UniqueOf(fetched, n))
    decreases n
  {
    if n > 0 {
      UniqueOfDistinct(fetched, n - 1);
      var p := UniqueOf(fetched, n - 1);
      var a := fetched[n - 1];
      var u := UniqueOf(fetched, n);
      if a.course.Some? && !HasCourseIn(p, |p|, a.course.value.canvasId) {
        forall i, j | 0 <= i < j < |u| ensures u[i].canvasId != u[j].canvasId {
          assert u[i] == p[i];
          if j < |p| {
            assert u[j] == p[j];
          } else {
            assert u[j] == a.course.value;
            assert !(i < |p| && p[i].canvasId == a.course.value.canvasId);
          }
        }
      }
    }
  }

  /** Every embedded course of the first n assignments has its CanvasId among them. */
  lemma {:induction false} UniqueOfCovers(fetched: seq<Assignment>, n: nat)
    requires n <= |fetched|
    ensures var u := UniqueOf(fetched, n);
      forall k :: 0 <= k < n && fetched[k].course.Some? ==> HasCourseIn(u, |u|, fetched[k].course.value.canvasId)
    decreases n
  {
    if n > 0 {
      UniqueOfCovers(fetched, n - 1);
      var p := UniqueOf(fetched, n - 1);
      var a := fetched[n - 1];
      if a.course.Some? && !HasCourseIn(p, |p|, a.course.value.canvasId) {
        forall x ensures HasCourseIn(UniqueOf(fetched, n), |p| + 1, x) <==> HasCourseIn(p, |p|, x) || a.course.value.canvasId == x {
          HasCourseAppend(p, a.course.value, x);
        }
      }
    }
  }

  /** Each of the courses is the course of the first of the first n assignments that
      carries its CanvasId. */
  predicate FirstSeenIn(fetched: seq<Assignment>, n: int, cs: seq<Course>) {
    forall i :: 0 <= i < |cs| ==>
      exists k :: 0 <= k < n && FirstWithCourse(fetched, k, cs[i].canvasId) && fetched[k].course == Some(cs[i])
  }

  /** Each unique course is the course of the first assignment carrying its CanvasId. */
  lemma {:induction false} UniqueOfFirstSeen(fetched: seq<Assignment>, n: nat)
    requires n <= |fetched|
    ensures FirstSeenIn(fetched, n, UniqueOf(fetched, n))
    decreases n
  {
    if n > 0 {
      UniqueOfFirstSeen(fetched, n - 1);
      var p := UniqueOf(fetched, n - 1);
      var a := fetched[n - 1];
      var u := UniqueOf(fetched, n);
      forall i | 0 <= i < |u|
        ensures exists k :: k < n && FirstWithCourse(fetched, k, u[i].canvasId) && fetched[k].course == Some(u[i])
      {
        if i < |p| {
          assert u[i] == p[i];
          var k :| 0 <= k < n - 1 && FirstWithCourse(fetched, k, p[i].canvasId) && fetched[k].course == Some(p[i]);
          assert k < n;
        } else {
          UniqueOfCovers(fetched, n - 1);
          var cid := a.course.value.canvasId;
          assert u[i] == a.course.value;
          forall j | 0 <= j < n - 1
            ensures !(fetched[j].course.Some? && fetched[j].course.value.canvasId == cid)
          {
            if fetched[j].course.Some? {
              assert HasCourseIn(p, |p|, fetched[j].course.value.canvasId);
            }
          }
          assert FirstWithCourse(fetched, n - 1, cid);
        }
      }
    }
  }

  /** The three facts about UniqueCourses the sync relies on. */
  lemma UniqueCoursesFirstSeen(fetched: seq<Assignment>)
    ensures var u := UniqueCourses(fetched);
      && DistinctCanvasIds(u)
      && (forall k :: 0 <= k < |fetched| && fetched[k].course.Some? ==>
            HasCourseIn(u, |u|, fetched[k].course.value.canvasId))
      && FirstSeenIn(fetched, |fetched|, u)
  {
    UniqueOfDistinct(fetched, |fetched|);
    UniqueOfCovers(fetched, |fetched|);
    UniqueOfFirstSeen(fetched, |fetched|);
  }

  /** A fold's state: the table so far, the inserts counted, and the exception, if any,
      that ended the loop. */
  datatype Pass<T> = Pass(table: T, count: int, error: Option<Exception>)

  /** One iteration of SyncCoursesAsync. */
  function CourseStep(p: Pass<CourseRepository.CourseTable>, courseErr: Option<Exception>, c: Course)
    : (r: Pass<CourseRepository.CourseTable>)
    requires Table.Valid(p.table)
    ensures Table.Valid(r.table)
  {
    if courseErr.Some? then p.(error := courseErr)
    else if CourseRepository.GetByCanvasIdOf(p.table, c.canvasId).Some? then p
    else
      match CourseRepository.SaveOf(p.table, c)
      case Failure(e) => p.(error := Some(e))
      case Success((t', _)) =>
        CourseRepository.SaveKeepsValid(p.table, c);
        Pass(t', p.count + 1, None)
  }

  /* Each fold below is written as three mutually recursive functions (the pass, the pass
     after one more element, and that element's iteration) so that the verifier unfolds an
     iteration only where a lemma asks for it. */

  /** SyncCoursesAsync over the first n courses: the loop up to its first exception. */
  function CoursesPass(ct: CourseRepository.CourseTable, courseErr: Option<Exception>, cs: seq<Course>, n: nat)
    : (r: Pass<CourseRepository.CourseTable>)
    requires Table.Valid(ct) && n <= |cs|
    ensures Table.Valid(r.table)
    decreases n, 2
  {
    if n == 0 then Pass(ct, 0, None) else AfterCourse(ct, courseErr, cs, n)
  }

  /** The pass after the n-th course: an exception before it stands, otherwise its
      iteration runs. */
  function AfterCourse(ct: CourseRepository.CourseTable, courseErr: Option<Exception>, cs: seq<Course>, n: nat)
    : (r: Pass<CourseRepository.CourseTable>)
    requires Table.Valid(ct) && 0 < n <= |cs|
    ensures Table.Valid(r.table)
    decreases n, 1
  {
    var p := CoursesPass(ct, courseErr, cs, n - 1);
    if p.error.Some? then p else CourseIteration(ct, courseErr, cs, n)
  }

  /** The n-th iteration of SyncCoursesAsync, on the pass the earlier ones left. */
  function CourseIteration(ct: CourseRepository.CourseTable, courseErr: Option<Exception>, cs: seq<Course>, n: nat)
    : (r: Pass<CourseRepository.CourseTable>)
    requires Table.Valid(ct) && 0 < n <= |cs|
    ensures Table.Valid(r.table)
    decreases n, 0
  {
    CourseStep(CoursesPass(ct, courseErr, cs, n - 1), courseErr, cs[n - 1])
  }

  lemma CourseIterationIsStep(ct: CourseRepository.CourseTable, courseErr: Option<Exception>, cs: seq<Course>, n: nat)
    requires Table.Valid(ct) && 0 < n <= |cs|
    ensures CourseIteration(ct, courseErr, cs, n) == CourseStep(CoursesPass(ct, courseErr, cs, n - 1), courseErr, cs[n - 1])
  {
  }

  /** The re-parenting: an embedded course found by its CanvasId replaces the assignment's
      CourseID and Course; otherwise both stay. */
  function Reparent(a: Assignment, ct: CourseRepository.CourseTable, courseErr: Option<Exception>)
    : Result<Assignment, Exception>
  {
    if a.course.None? then Success(a)
    else if courseErr.Some? then Failure(courseErr.value)
    else
      match CourseRepository.GetByCanvasIdOf(ct, a.course.value.canvasId)
      case None => Success(a)
      case Some(c) => Success(a.(courseId := c.id, course := Some(c)))
  }

  /** UpdateExistingAssignment: the stored assignment with the fetched title, description,
      due date and points, stamped now. */
  function UpdateExisting(existing: Assignment, updated: Assignment, now: DateTime): (r: Assignment)
    ensures r.title == updated.title && r.description == updated.description
    ensures r.dueDate == updated.dueDate && r.pointsPossible == updated.pointsPossible && r.updatedAt == now
    ensures r.(title := existing.title, description := existing.description, dueDate := existing.dueDate,
               pointsPossible := existing.pointsPossible, updatedAt := existing.updatedAt) == existing
  {
    existing.(title := updated.title, description := updated.description, dueDate := updated.dueDate,
              pointsPossible := updated.pointsPossible, updatedAt := now)
  }

  /** One iteration of SyncAssignmentsAsync. */
  function AssignmentStep(p: Pass<AssignmentRepository.AssignmentTable>, ct: CourseRepository.CourseTable,
                          courseErr: Option<Exception>, err: Option<Exception>, now: DateTime, a: Assignment)
    : (r: Pass<AssignmentRepository.AssignmentTable>)
    requires AssignmentRepository.WellFormed(p.table)
    ensures AssignmentRepository.WellFormed(r.table)
  {
    var found := AssignmentRepository.GetByCanvasIdOf(p.table, a.canvasId);
    match AssignmentRepository.Outcome(err, courseErr, found.Some?, AssignmentRepository.AttachOpt(found, ct))
    case Failure(e) => p.(error := Some(e))
    case Success(existing) =>
      match Reparent(a, ct, courseErr)
      case Failure(e) => p.(error := Some(e))
      case Success(a') => SaveStep(p, existing, a', now)
  }

  /** The save at the end of an iteration: a new assignment is inserted and counted, a
      stored one is merged and saved over its row. */
  function SaveStep(p: Pass<AssignmentRepository.AssignmentTable>, existing: Option<Assignment>,
                    a: Assignment, now: DateTime)
    : (r: Pass<AssignmentRepository.AssignmentTable>)
    requires AssignmentRepository.WellFormed(p.table)
    ensures AssignmentRepository.WellFormed(r.table)
  {
    var item := if existing.None? then a else UpdateExisting(existing.value, a, now);
    AssignmentRepository.SaveKeepsWellFormed(p.table, item);
    match AssignmentRepository.SaveOf(p.table, item)
    case Failure(e) => p.(error := Some(e))
    case Success((t', _)) => Pass(t', if existing.None? then p.count + 1 else p.count, None)
  }

  /** SyncAssignmentsAsync over the first n assignments: the loop up to its first exception. */
  function AssignmentsPass(at: AssignmentRepository.AssignmentTable, ct: CourseRepository.CourseTable,
                           courseErr: Option<Exception>, err: Option<Exception>, now: DateTime,
                           fetched: seq<Assignment>, n: nat)
    : (r: Pass<AssignmentRepository.AssignmentTable>)
    requires AssignmentRepository.WellFormed(at) && n <= |fetched|
    ensures AssignmentRepository.WellFormed(r.table)
    decreases n, 2
  {
    if n == 0 then Pass(at, 0, None) else AfterAssignment(at, ct, courseErr, err, now, fetched, n)
  }

  /** The pass after the n-th assignment: an exception before it stands, otherwise its
      iteration runs. */
  function AfterAssignment(at: AssignmentRepository.AssignmentTable, ct: CourseRepository.CourseTable,
                           courseErr: Option<Exception>, err: Option<Exception>, now: DateTime,
                           fetched: seq<Assignment>, n: nat)
    : (r: Pass<AssignmentRepository.AssignmentTable>)
    requires AssignmentRepository.WellFormed(at) && 0 < n <= |fetched|
    ensures AssignmentRepository.WellFormed(r.table)
    decreases n, 1
  {
    var p := AssignmentsPass(at, ct, courseErr, err, now, fetched, n - 1);
    if p.error.Some? then p else AssignmentIteration(at, ct, courseErr, err, now, fetched, n)
  }

  /** The n-th iteration of SyncAssignmentsAsync, on the pass the earlier ones left. */
  function AssignmentIteration(at: AssignmentRepository.AssignmentTable, ct: CourseRepository.CourseTable,
                               courseErr: Option<Exception>, err: Option<Exception>, now: DateTime,
                               fetched: seq<Assignment>, n: nat)
    : (r: Pass<AssignmentRepository.AssignmentTable>)
    requires AssignmentRepository.WellFormed(at) && 0 < n <= |fetched|
    ensures AssignmentRepository.WellFormed(r.table)
    decreases n, 0
  {
    AssignmentStep(AssignmentsPass(at, ct, courseErr, err, now, fetched, n - 1), ct, courseErr, err, now, fetched[n - 1])
  }

  lemma AssignmentIterationIsStep(at: AssignmentRepository.AssignmentTable, ct: CourseRepository.CourseTable,
                                  courseErr: Option<Exception>, err: Option<Exception>, now: DateTime,
                                  fetched: seq<Assignment>, n: nat)
    requires AssignmentRepository.WellFormed(at) && 0 < n <= |fetched|
    ensures AssignmentIteration(at, ct, courseErr, err, now, fetched, n)
         == AssignmentStep(AssignmentsPass(at, ct, courseErr, err, now, fetched, n - 1), ct, courseErr, err, now,
                           fetched[n - 1])
  {
  }

  /** What a run leaves behind: its result and both tables. */
  datatype SyncOutcome = SyncOutcome(
    result: SyncResult,
    courses: CourseRepository.CourseTable,
    assignments: AssignmentRepository.AssignmentTable)

  /** SyncWithCanvasAsync, given the configuration stores, the gateway (its answer for a
      URL and token, or the exception it throws), both tables with their CREATE outcomes,
      and the clock. */
  function Sync(secrets: map<string, string>, prefs: map<string, string>,
                fetch: (string, string) -> Result<seq<Assignment>, Exception>,
                ct: CourseRepository.CourseTable, courseErr: Option<Exception>,
                at: AssignmentRepository.AssignmentTable, err: Option<Exception>, now: DateTime)
    : SyncOutcome
    requires Table.Valid(ct) && AssignmentRepository.WellFormed(at)
  {
    var validation := ValidateCredentials(Configuration.HasCredentials(secrets, prefs),
                                          Configuration.CanvasApiToken(secrets, prefs));
    if !validation.success then SyncOutcome(validation, ct, at)
    else
      match fetch(Configuration.CanvasUrl(secrets, prefs), Configuration.CanvasApiToken(secrets, prefs))
      case Failure(e) => SyncOutcome(Failed(e), ct, at)
      case Success(fetched) =>
        if |fetched| == 0 then SyncOutcome(SyncResult(true, 0, 0, NoUpcomingMessage, None), ct, at)
        else
          var unique := UniqueCourses(fetched);
          var cp := CoursesPass(ct, courseErr, unique, |unique|);
          if cp.error.Some? then SyncOutcome(Failed(cp.error.value), cp.table, at)
          else
            var ap := AssignmentsPass(at, cp.table, courseErr, err, now, fetched, |fetched|);
            if ap.error.Some? then SyncOutcome(Failed(ap.error.value), cp.table, ap.table)
            else SyncOutcome(SyncResult(true, ap.count, cp.count, SyncedMessage(ap.count), None),
                             cp.table, ap.table)
  }

  /** Once a pass has failed, the rest of the input changes nothing. */
  lemma {:induction false} CoursesPassSticky(ct: CourseRepository.CourseTable, courseErr: Option<Exception>,
                                             cs: seq<Course>, i: nat, n: nat)
    requires Table.Valid(ct) && i <= n <= |cs|
    requires CoursesPass(ct, courseErr, cs, i).error.Some?
    ensures CoursesPass(ct, courseErr, cs, n) == CoursesPass(ct, courseErr, cs, i)
    decreases n
  {
    if i < n {
      CoursesPassSticky(ct, courseErr, cs, i, n - 1);
    }
  }

  lemma {:induction false} AssignmentsPassSticky(at: AssignmentRepository.AssignmentTable,
                                                 ct: CourseRepository.CourseTable,
                                                 courseErr: Option<Exception>, err: Option<Exception>,
                                                 now: DateTime, fetched: seq<Assignment>, i: nat, n: nat)
    requires AssignmentRepository.WellFormed(at) && i <= n <= |fetched|
    requires AssignmentsPass(at, ct, courseErr, err, now, fetched, i).error.Some?
    ensures AssignmentsPass(at, ct, courseErr, err, now, fetched, n)
         == AssignmentsPass(at, ct, courseErr, err, now, fetched, i)
    decreases n
  {
    if i < n {
      AssignmentsPassSticky(at, ct, courseErr, err, now, fetched, i, n - 1);
    }
  }

  /** A course with ID 0 and a new CanvasId is appended and counted; a stored CanvasId
      leaves the pass as it was. */
  lemma CourseStepStores(p: Pass<CourseRepository.CourseTable>, c: Course)
    requires Table.Valid(p.table) && c.id == 0
    ensures var r := CourseStep(p, None, c);
      if HasCanvasId(p.table.rows, c.canvasId) then r == p
      else
        && r.error.None? && r.count == p.count + 1
        && r.table.rows == p.table.rows + [Row(p.table.lastId + 1, c.canvasId, CourseRepository.ToFields(c))]
  {
    if !HasCanvasId(p.table.rows, c.canvasId) {
      InsertIssuesFreshId(p.table, CourseRepository.TableName, c.canvasId, CourseRepository.ToFields(c));
    }
  }

  /** The n-th iteration over a course not stored yet (ID 0) appends and counts it when its
      CanvasId is new, and otherwise changes nothing. */
  lemma CoursePassStepStores(ct: CourseRepository.CourseTable, cs: seq<Course>, n: nat)
    requires Table.Valid(ct) && 0 < n <= |cs| && cs[n - 1].id == 0
    requires CoursesPass(ct, None, cs, n - 1).error.None?
    ensures var q := CoursesPass(ct, None, cs, n - 1);
      var p := CoursesPass(ct, None, cs, n);
      var c := cs[n - 1];
      if HasCanvasId(q.table.rows, c.canvasId) then p == q
      else
        && p.error.None? && p.count == q.count + 1
        && p.table.rows == q.table.rows + [Row(q.table.lastId + 1, c.canvasId, CourseRepository.ToFields(c))]
  {
    CourseIterationIsStep(ct, None, cs, n);
    CourseStepStores(CoursesPass(ct, None, cs, n - 1), cs[n - 1]);
  }

  /** With the course table created, a pass over courses not stored yet (ID 0) never
      fails, never rewrites a stored row and counts one per appended row. */
  lemma {:induction false} CoursesPassAppends(ct: CourseRepository.CourseTable, cs: seq<Course>, n: nat)
    requires Table.Valid(ct) && n <= |cs| && forall k :: 0 <= k < n ==> cs[k].id == 0
    ensures var p := CoursesPass(ct, None, cs, n);
      && p.error.None?
      && |ct.rows| <= |p.table.rows| && p.table.rows[..|ct.rows|] == ct.rows
      && p.count == |p.table.rows| - |ct.rows|
    decreases n
  {
    if n > 0 {
      CoursesPassAppends(ct, cs, n - 1);
      CoursePassStepStores(ct, cs, n);
      var q := CoursesPass(ct, None, cs, n - 1);
      var p := CoursesPass(ct, None, cs, n);
      assert p.table.rows[..|ct.rows|] == q.table.rows[..|ct.rows|];
    }
  }

  /** ... and leaves in the table exactly the CanvasIds it held and those of the courses. */
  lemma {:induction false} CoursesPassStores(ct: CourseRepository.CourseTable, cs: seq<Course>, n: nat)
    requires Table.Valid(ct) && n <= |cs| && forall k :: 0 <= k < n ==> cs[k].id == 0
    ensures forall x :: HasCanvasId(CoursesPass(ct, None, cs, n).table.rows, x) <==>
                        HasCanvasId(ct.rows, x) || HasCourseIn(cs, n, x)
    decreases n
  {
    if n > 0 {
      var c := cs[n - 1];
      CoursesPassStores(ct, cs, n - 1);
      CoursesPassAppends(ct, cs, n - 1);
      CoursePassStepStores(ct, cs, n);
      var q := CoursesPass(ct, None, cs, n - 1);
      var p := CoursesPass(ct, None, cs, n);
      forall x ensures HasCanvasId(p.table.rows, x) <==> HasCanvasId(ct.rows, x) || HasCourseIn(cs, n, x) {
        HasCourseNext(cs, n - 1, x);
        if !HasCanvasId(q.table.rows, c.canvasId) {
          HasCanvasIdAppend(q.table.rows, p.table.rows[|q.table.rows|], x);
        }
      }
    }
  }

  /** The number of the first n courses whose CanvasId the table does not hold. */
  function NewCourseCount(ct: CourseRepository.CourseTable, cs: seq<Course>, n: nat): nat
    requires n <= |cs|
    decreases n
  {
    if n == 0 then 0
    else NewCourseCount(ct, cs, n - 1) + if HasCanvasId(ct.rows, cs[n - 1].canvasId) then 0 else 1
  }

  /** With distinct CanvasIds, SyncedCourses is the number of courses the table lacked. */
  lemma {:induction false} CoursesPassCountsNew(ct: CourseRepository.CourseTable, cs: seq<Course>, n: nat)
    requires Table.Valid(ct) && n <= |cs| && forall k :: 0 <= k < n ==> cs[k].id == 0
    requires forall i, j :: 0 <= i < j < n ==> cs[i].canvasId != cs[j].canvasId
    ensures CoursesPass(ct, None, cs, n).count == NewCourseCount(ct, cs, n)
    decreases n
  {
    if n > 0 {
      var c := cs[n - 1];
      CoursesPassCountsNew(ct, cs, n - 1);
      CoursesPassStores(ct, cs, n - 1);
      CoursesPassAppends(ct, cs, n - 1);
      var q := CoursesPass(ct, None, cs, n - 1);
      assert !HasCourseIn(cs, n - 1, c.canvasId);
      assert HasCanvasId(q.table.rows, c.canvasId) <==> HasCanvasId(ct.rows, c.canvasId);
      CoursePassStepStores(ct, cs, n);
    }
  }

  /** Courses that are all stored already change nothing and count nothing. */
  lemma {:induction false} CoursesPassAllStored(ct: CourseRepository.CourseTable, cs: seq<Course>, n: nat)
    requires Table.Valid(ct) && n <= |cs| && forall k :: 0 <= k < n ==> HasCanvasId(ct.rows, cs[k].canvasId)
    ensures CoursesPass(ct, None, cs, n) == Pass(ct, 0, None)
    decreases n
  {
    if n > 0 {
      CoursesPassAllStored(ct, cs, n - 1);
      CourseIterationIsStep(ct, None, cs, n);
    }
  }

  /** When the course table cannot be created, the first course fails the pass and
      nothing is written. */
  lemma {:induction false} CoursesPassFailsFirst(ct: CourseRepository.CourseTable, e: Exception,
                                                 cs: seq<Course>, n: nat)
    requires Table.Valid(ct) && 0 < n <= |cs|
    ensures CoursesPass(ct, Some(e), cs, n) == Pass(ct, 0, Some(e))
    decreases n
  {
    if n > 1 {
      CoursesPassFailsFirst(ct, e, cs, n - 1);
    }
    CourseIterationIsStep(ct, Some(e), cs, n);
  }

  /** Re-parenting changes nothing but CourseID and Course, and changes nothing at all
      when there is no embedded course or its CanvasId is not stored. */
  lemma ReparentKeepsRest(a: Assignment, ct: CourseRepository.CourseTable)
    ensures Reparent(a, ct, None).Success?
    ensures var a' := Reparent(a, ct, None).value;
      a'.(courseId := a.courseId, course := a.course) == a
    ensures a.course.None? || !HasCanvasId(ct.rows, a.course.value.canvasId) ==> Reparent(a, ct, None) == Success(a)
  {
  }

  /** An embedded course whose CanvasId is stored re-parents the assignment to that row:
      CourseID becomes the row's (positive) ID and Course the course read from it. */
  lemma ReparentToStoredCourse(a: Assignment, ct: CourseRepository.CourseTable, k: int)
    requires Table.Valid(ct) && 0 <= k < |ct.rows|
    requires a.course.Some? && a.course.value.canvasId == ct.rows[k].canvasId
    ensures Reparent(a, ct, None)
         == Success(a.(courseId := ct.rows[k].id, course := Some(CourseRepository.ReadCourse(ct.rows[k]))))
    ensures ct.rows[k].id > 0
  {
    CourseRepository.GetsItsRow(ct, k);
  }

  /** With both tables created, an iteration is the save of the re-parented assignment. */
  lemma StepIsSave(p: Pass<AssignmentRepository.AssignmentTable>, ct: CourseRepository.CourseTable,
                   now: DateTime, a: Assignment)
    requires AssignmentRepository.WellFormed(p.table)
    ensures AssignmentStep(p, ct, None, None, now, a)
         == SaveStep(p, AssignmentRepository.AttachOpt(AssignmentRepository.GetByCanvasIdOf(p.table, a.canvasId), ct),
                     Reparent(a, ct, None).value, now)
  {
    ReparentKeepsRest(a, ct);
  }

  /** An assignment not stored yet (ID 0) with a new CanvasId is appended and counted. */
  lemma StepInsertsNew(p: Pass<AssignmentRepository.AssignmentTable>, ct: CourseRepository.CourseTable,
                       now: DateTime, a: Assignment)
    requires AssignmentRepository.WellFormed(p.table) && a.id == 0 && !HasCanvasId(p.table.rows, a.canvasId)
    ensures var r := AssignmentStep(p, ct, None, None, now, a);
      && r.error.None? && r.count == p.count + 1
      && r.table.rows == p.table.rows + [Row(p.table.lastId + 1, a.canvasId,
                                             AssignmentRepository.ToFields(Reparent(a, ct, None).value))]
  {
    StepIsSave(p, ct, now, a);
    ReparentKeepsRest(a, ct);
    var a' := Reparent(a, ct, None).value;
    InsertIssuesFreshId(p.table, AssignmentRepository.TableName, a.canvasId, AssignmentRepository.ToFields(a'));
  }

  /** An assignment whose CanvasId is stored at row k is merged into that row: it keeps
      its ID, CanvasId and every other row, and counts nothing. */
  lemma StepMergesStored(p: Pass<AssignmentRepository.AssignmentTable>, ct: CourseRepository.CourseTable,
                         now: DateTime, a: Assignment, k: int)
    requires AssignmentRepository.WellFormed(p.table) && 0 <= k < |p.table.rows|
    requires p.table.rows[k].canvasId == a.canvasId
    ensures var r := AssignmentStep(p, ct, None, None, now, a);
      && r.error.None? && r.count == p.count
      && |r.table.rows| == |p.table.rows|
      && KeepsKeys(p.table.rows, r.table.rows) && KeepsKeys(r.table.rows, p.table.rows)
      && (forall j :: 0 <= j < |p.table.rows| && j != k ==> r.table.rows[j] == p.table.rows[j])
      && AssignmentRepository.ReadAssignment(r.table.rows[k])
         == UpdateExisting(AssignmentRepository.ReadAssignment(p.table.rows[k]), a, now)
  {
    var t := p.table;
    StepIsSave(p, ct, now, a);
    ReparentKeepsRest(a, ct);
    var a' := Reparent(a, ct, None).value;
    AssignmentRepository.GetsItsRow(t, k);
    var stored := AssignmentRepository.ReadAssignment(t.rows[k]);
    var item := UpdateExisting(AssignmentRepository.Attach(stored, ct), a', now);
    assert item.id == t.rows[k].id && item.canvasId == a.canvasId;
    var row := Row(item.id, item.canvasId, AssignmentRepository.ToFields(item));
    UpdateKeepsKeys(t, AssignmentRepository.TableName, row, k);
    StatusRoundTrip(item.status, 0);
    assert AssignmentRepository.ReadAssignment(row) == UpdateExisting(stored, a, now);
  }

  /** With both tables created, one iteration over an assignment not stored yet never
      fails, keeps every ID and CanvasId in place, leaves its CanvasId stored, adds no
      other CanvasId, and appends and counts a row exactly when the CanvasId was new. */
  lemma AssignmentStepStores(p: Pass<AssignmentRepository.AssignmentTable>, ct: CourseRepository.CourseTable,
                             now: DateTime, a: Assignment)
    requires AssignmentRepository.WellFormed(p.table) && a.id == 0
    ensures var r := AssignmentStep(p, ct, None, None, now, a);
      && r.error.None?
      && KeepsKeys(p.table.rows, r.table.rows)
      && HasCanvasId(r.table.rows, a.canvasId)
      && (forall x :: HasCanvasId(r.table.rows, x) ==> HasCanvasId(p.table.rows, x) || x == a.canvasId)
      && if HasCanvasId(p.table.rows, a.canvasId)
         then |r.table.rows| == |p.table.rows| && r.count == p.count
         else |r.table.rows| == |p.table.rows| + 1 && r.count == p.count + 1
  {
    var t := p.table;
    var r := AssignmentStep(p, ct, None, None, now, a);
    if !HasCanvasId(t.rows, a.canvasId) {
      StepInsertsNew(p, ct, now, a);
      var row := r.table.rows[|t.rows|];
      assert r.table.rows == t.rows + [row];
      forall x ensures HasCanvasId(r.table.rows, x) <==> HasCanvasId(t.rows, x) || x == a.canvasId {
        HasCanvasIdAppend(t.rows, row, x);
      }
    } else {
      var k :| 0 <= k < |t.rows| && t.rows[k].canvasId == a.canvasId;
      StepMergesStored(p, ct, now, a, k);
      forall x | HasCanvasId(r.table.rows, x) ensures HasCanvasId(t.rows, x) {
        KeptKeyPresent(r.table.rows, t.rows, x);
      }
      KeptKeyPresent(t.rows, r.table.rows, a.canvasId);
    }
  }

  /** The n-th iteration over an assignment not stored yet: the facts of
      AssignmentStepStores, about the passes before and after it. */
  lemma PassStepStores(at: AssignmentRepository.AssignmentTable, ct: CourseRepository.CourseTable, now: DateTime,
                       fetched: seq<Assignment>, n: nat)
    requires AssignmentRepository.WellFormed(at) && 0 < n <= |fetched| && fetched[n - 1].id == 0
    requires AssignmentsPass(at, ct, None, None, now, fetched, n - 1).error.None?
    ensures var q := AssignmentsPass(at, ct, None, None, now, fetched, n - 1);
      var r := AssignmentsPass(at, ct, None, None, now, fetched, n);
      var a := fetched[n - 1];
      && r.error.None?
      && KeepsKeys(q.table.rows, r.table.rows)
      && HasCanvasId(r.table.rows, a.canvasId)
      && (forall x :: HasCanvasId(r.table.rows, x) ==> HasCanvasId(q.table.rows, x) || x == a.canvasId)
      && if HasCanvasId(q.table.rows, a.canvasId)
         then |r.table.rows| == |q.table.rows| && r.count == q.count
         else |r.table.rows| == |q.table.rows| + 1 && r.count == q.count + 1
  {
    AssignmentIterationIsStep(at, ct, None, None, now, fetched, n);
    AssignmentStepStores(AssignmentsPass(at, ct, None, None, now, fetched, n - 1), ct, now, fetched[n - 1]);
  }

  /** With both tables created, a pass over assignments not stored yet never fails,
      keeps every stored ID and CanvasId in place and counts exactly the appended rows. */
  lemma {:induction false} AssignmentsPassAppends(at: AssignmentRepository.AssignmentTable,
                                                  ct: CourseRepository.CourseTable, now: DateTime,
                                                  fetched: seq<Assignment>, n: nat)
    requires AssignmentRepository.WellFormed(at) && n <= |fetched|
    requires forall k :: 0 <= k < n ==> fetched[k].id == 0
    ensures var p := AssignmentsPass(at, ct, None, None, now, fetched, n);
      && p.error.None?
      && KeepsKeys(at.rows, p.table.rows)
      && p.count == |p.table.rows| - |at.rows|
    decreases n
  {
    if n > 0 {
      AssignmentsPassAppends(at, ct, now, fetched, n - 1);
      PassStepStores(at, ct, now, fetched, n);
      var q := AssignmentsPass(at, ct, None, None, now, fetched, n - 1);
      KeepsKeysTransitive(at.rows, q.table.rows, AssignmentsPass(at, ct, None, None, now, fetched, n).table.rows);
    }
  }

  /** Keys kept by a step stay covered, and the step covers the last assignment. */
  lemma CoveredAfterStep<F>(before: seq<Row<F>>, after: seq<Row<F>>, fetched: seq<Assignment>, n: nat)
    requires 0 < n <= |fetched| && KeepsKeys(before, after)
    requires forall k :: 0 <= k < n - 1 ==> HasCanvasId(before, fetched[k].canvasId)
    requires HasCanvasId(after, fetched[n - 1].canvasId)
    ensures forall k :: 0 <= k < n ==> HasCanvasId(after, fetched[k].canvasId)
  {
    forall k | 0 <= k < n - 1 ensures HasCanvasId(after, fetched[k].canvasId) {
      KeptKeyPresent(before, after, fetched[k].canvasId);
    }
  }

  /** ... and leaves every fetched CanvasId stored. */
  lemma {:induction false} AssignmentsPassCovers(at: AssignmentRepository.AssignmentTable,
                                                 ct: CourseRepository.CourseTable, now: DateTime,
                                                 fetched: seq<Assignment>, n: nat)
    requires AssignmentRepository.WellFormed(at) && n <= |fetched|
    requires forall k :: 0 <= k < n ==> fetched[k].id == 0
    ensures forall k :: 0 <= k < n ==>
      HasCanvasId(AssignmentsPass(at, ct, None, None, now, fetched, n).table.rows, fetched[k].canvasId)
    decreases n
  {
    if n > 0 {
      AssignmentsPassCovers(at, ct, now, fetched, n - 1);
      AssignmentsPassAppends(at, ct, now, fetched, n - 1);
      PassStepStores(at, ct, now, fetched, n);
      var q := AssignmentsPass(at, ct, None, None, now, fetched, n - 1);
      CoveredAfterStep(q.table.rows, AssignmentsPass(at, ct, None, None, now, fetched, n).table.rows, fetched, n);
    }
  }

  /** ... and, when every fetched CanvasId was stored already, appends and counts nothing. */
  lemma {:induction false} AssignmentsPassAllStored(at: AssignmentRepository.AssignmentTable,
                                                    ct: CourseRepository.CourseTable, now: DateTime,
                                                    fetched: seq<Assignment>, n: nat)
    requires AssignmentRepository.WellFormed(at) && n <= |fetched|
    requires forall k :: 0 <= k < n ==> fetched[k].id == 0
    requires forall k :: 0 <= k < n ==> HasCanvasId(at.rows, fetched[k].canvasId)
    ensures var p := AssignmentsPass(at, ct, None, None, now, fetched, n);
      p.count == 0 && |p.table.rows| == |at.rows|
    decreases n
  {
    if n > 0 {
      AssignmentsPassAllStored(at, ct, now, fetched, n - 1);
      AssignmentsPassAppends(at, ct, now, fetched, n - 1);
      var q := AssignmentsPass(at, ct, None, None, now, fetched, n - 1);
      KeptKeyPresent(at.rows, q.table.rows, fetched[n - 1].canvasId);
      PassStepStores(at, ct, now, fetched, n);
    }
  }

  /** When the assignment table cannot be created, the first lookup fails the pass and
      nothing is written. */
  lemma {:induction false} AssignmentsPassFailsFirst(at: AssignmentRepository.AssignmentTable,
                                                     ct: CourseRepository.CourseTable,
                                                     courseErr: Option<Exception>, e: Exception,
                                                     now: DateTime, fetched: seq<Assignment>, n: nat)
    requires AssignmentRepository.WellFormed(at) && 0 < n <= |fetched|
    ensures AssignmentsPass(at, ct, courseErr, Some(e), now, fetched, n) == Pass(at, 0, Some(e))
    decreases n
  {
    if n > 1 {
      AssignmentsPassFailsFirst(at, ct, courseErr, e, now, fetched, n - 1);
    }
    AssignmentIterationIsStep(at, ct, courseErr, Some(e), now, fetched, n);
  }

  /** Among the first n assignments, one has this CanvasId. */
  predicate HasAssignmentIn(fetched: seq<Assignment>, n: int, canvasId: string) {
    exists k :: 0 <= k < n && k < |fetched| && fetched[k].canvasId == canvasId
  }

  /** ... and adds no CanvasId but those of the assignments. */
  lemma {:induction false} AssignmentsPassOnly(at: AssignmentRepository.AssignmentTable,
                                               ct: CourseRepository.CourseTable, now: DateTime,
                                               fetched: seq<Assignment>, n: nat)
    requires AssignmentRepository.WellFormed(at) && n <= |fetched|
    requires forall k :: 0 <= k < n ==> fetched[k].id == 0
    ensures forall x :: HasCanvasId(AssignmentsPass(at, ct, None, None, now, fetched, n).table.rows, x) ==>
      HasCanvasId(at.rows, x) || HasAssignmentIn(fetched, n, x)
    decreases n
  {
    if n > 0 {
      AssignmentsPassOnly(at, ct, now, fetched, n - 1);
      AssignmentsPassAppends(at, ct, now, fetched, n - 1);
      PassStepStores(at, ct, now, fetched, n);
      var p := AssignmentsPass(at, ct, None, None, now, fetched, n);
      forall x | HasCanvasId(p.table.rows, x) ensures HasCanvasId(at.rows, x) || HasAssignmentIn(fetched, n, x) {
        if HasAssignmentIn(fetched, n - 1, x) {
          var k :| 0 <= k < n - 1 && fetched[k].canvasId == x;
        }
      }
    }
  }

  /** The gateway's answer for the configured URL and token. */
  function Fetched(secrets: map<string, string>, prefs: map<string, string>,
                   fetch: (string, string) -> Result<seq<Assignment>, Exception>): Result<seq<Assignment>, Exception>
  {
    fetch(Configuration.CanvasUrl(secrets, prefs), Configuration.CanvasApiToken(secrets, prefs))
  }

  /** Each fetched assignment is as the gateway maps it: no local ID, CourseID or course ID yet. */
  predicate AllMapped(fetched: seq<Assignment>) {
    forall k :: 0 <= k < |fetched| ==> CanvasService.AsMapped(fetched[k])
  }

  /** Without credentials the run reports that configuration is required, writes nothing
      and never asks the gateway; a gateway exception fails the run and writes nothing; an
      empty answer succeeds with nothing synchronised. */
  lemma SyncShortCircuits(secrets: map<string, string>, prefs: map<string, string>,
                          fetch: (string, string) -> Result<seq<Assignment>, Exception>,
                          ct: CourseRepository.CourseTable, courseErr: Option<Exception>,
                          at: AssignmentRepository.AssignmentTable, err: Option<Exception>, now: DateTime)
    requires Table.Valid(ct) && AssignmentRepository.WellFormed(at)
    ensures !Configuration.HasCredentials(secrets, prefs) ==>
      Sync(secrets, prefs, fetch, ct, courseErr, at, err, now)
      == SyncOutcome(SyncResult(false, 0, 0, ConfigurationRequiredMessage, None), ct, at)
    ensures Configuration.HasCredentials(secrets, prefs) && Fetched(secrets, prefs, fetch).Failure? ==>
      Sync(secrets, prefs, fetch, ct, courseErr, at, err, now)
      == SyncOutcome(Failed(Fetched(secrets, prefs, fetch).error), ct, at)
    ensures Configuration.HasCredentials(secrets, prefs) && Fetched(secrets, prefs, fetch) == Success([]) ==>
      Sync(secrets, prefs, fetch, ct, courseErr, at, err, now)
      == SyncOutcome(SyncResult(true, 0, 0, NoUpcomingMessage, None), ct, at)
  {
  }

  /** The run asks the gateway one question, for the configured URL and token: two
      gateways that give the same answer to it give the same run. */
  lemma SyncAsksGatewayOnce(secrets: map<string, string>, prefs: map<string, string>,
                            fetch1: (string, string) -> Result<seq<Assignment>, Exception>,
                            fetch2: (string, string) -> Result<seq<Assignment>, Exception>,
                            ct: CourseRepository.CourseTable, courseErr: Option<Exception>,
                            at: AssignmentRepository.AssignmentTable, err: Option<Exception>, now: DateTime)
    requires Table.Valid(ct) && AssignmentRepository.WellFormed(at)
    requires Fetched(secrets, prefs, fetch1) == Fetched(secrets, prefs, fetch2)
    ensures Sync(secrets, prefs, fetch1, ct, courseErr, at, err, now)
         == Sync(secrets, prefs, fetch2, ct, courseErr, at, err, now)
  {
  }

  /** The unique courses of mapped assignments carry no local ID. */
  lemma UniqueCoursesMapped(fetched: seq<Assignment>)
    requires AllMapped(fetched)
    ensures var u := UniqueCourses(fetched);
      forall i :: 0 <= i < |u| ==> u[i].id == 0
  {
    var u := UniqueCourses(fetched);
    UniqueOfFirstSeen(fetched, |fetched|);
    forall i | 0 <= i < |u| ensures u[i].id == 0 {
      var k :| 0 <= k < |fetched| && FirstWithCourse(fetched, k, u[i].canvasId) && fetched[k].course == Some(u[i]);
      assert CanvasService.AsMapped(fetched[k]);
    }
  }

  /** With credentials, both tables created and mapped assignments from the gateway, the
      course pass succeeds, appends exactly the unique courses the table lacked and leaves
      every embedded course stored. */
  lemma CoursePassOfRun(ct: CourseRepository.CourseTable, fetched: seq<Assignment>)
    requires Table.Valid(ct) && AllMapped(fetched)
    ensures var u := UniqueCourses(fetched);
      var cp := CoursesPass(ct, None, u, |u|);
      && cp.error.None?
      && cp.count == NewCourseCount(ct, u, |u|) == |cp.table.rows| - |ct.rows|
      && |ct.rows| <= |cp.table.rows| && cp.table.rows[..|ct.rows|] == ct.rows
      && (forall x :: HasCanvasId(cp.table.rows, x) <==> HasCanvasId(ct.rows, x) || HasCourseIn(u, |u|, x))
      && (forall k :: 0 <= k < |fetched| && fetched[k].course.Some? ==>
            HasCanvasId(cp.table.rows, fetched[k].course.value.canvasId))
  {
    var u := UniqueCourses(fetched);
    UniqueCoursesMapped(fetched);
    UniqueOfDistinct(fetched, |fetched|);
    UniqueOfCovers(fetched, |fetched|);
    CoursesPassAppends(ct, u, |u|);
    CoursesPassStores(ct, u, |u|);
    CoursesPassCountsNew(ct, u, |u|);
  }

  /** With credentials, both tables created and a non-empty answer of mapped assignments,
      the run succeeds. It appends one course row per embedded CanvasId the course table
      lacked and one assignment row per new assignment CanvasId, rewrites no stored ID or
      CanvasId, reports exactly those counts, and leaves every fetched assignment and every
      embedded course stored. */
  lemma SyncStoresEverything(secrets: map<string, string>, prefs: map<string, string>,
                             fetch: (string, string) -> Result<seq<Assignment>, Exception>,
                             ct: CourseRepository.CourseTable, at: AssignmentRepository.AssignmentTable,
                             now: DateTime)
    requires Table.Valid(ct) && AssignmentRepository.WellFormed(at)
    requires Configuration.HasCredentials(secrets, prefs)
    requires Fetched(secrets, prefs, fetch).Success? && |Fetched(secrets, prefs, fetch).value| > 0
    requires AllMapped(Fetched(secrets, prefs, fetch).value)
    ensures var fetched := Fetched(secrets, prefs, fetch).value;
      var o := Sync(secrets, prefs, fetch, ct, None, at, None, now);
      var u := UniqueCourses(fetched);
      && o.result == SyncResult(true, o.result.syncedAssignments, o.result.syncedCourses,
                                SyncedMessage(o.result.syncedAssignments), None)
      && o.result.syncedCourses == NewCourseCount(ct, u, |u|) == |o.courses.rows| - |ct.rows|
      && |ct.rows| <= |o.courses.rows| && o.courses.rows[..|ct.rows|] == ct.rows
      && o.result.syncedAssignments == |o.assignments.rows| - |at.rows|
      && KeepsKeys(at.rows, o.assignments.rows)
      && (forall k :: 0 <= k < |fetched| ==> HasCanvasId(o.assignments.rows, fetched[k].canvasId))
      && (forall k :: 0 <= k < |fetched| && fetched[k].course.Some? ==>
            HasCanvasId(o.courses.rows, fetched[k].course.value.canvasId))
  {
    var fetched := Fetched(secrets, prefs, fetch).value;
    var u := UniqueCourses(fetched);
    CoursePassOfRun(ct, fetched);
    var cp := CoursesPass(ct, None, u, |u|);
    AssignmentsPassAppends(at, cp.table, now, fetched, |fetched|);
    AssignmentsPassCovers(at, cp.table, now, fetched, |fetched|);
  }

  /** ... and stores nothing else: afterwards the tables hold exactly the CanvasIds they
      held and those fetched. */
  lemma SyncStoresOnlyFetched(secrets: map<string, string>, prefs: map<string, string>,
                              fetch: (string, string) -> Result<seq<Assignment>, Exception>,
                              ct: CourseRepository.CourseTable, at: AssignmentRepository.AssignmentTable,
                              now: DateTime)
    requires Table.Valid(ct) && AssignmentRepository.WellFormed(at)
    requires Configuration.HasCredentials(secrets, prefs)
    requires Fetched(secrets, prefs, fetch).Success? && |Fetched(secrets, prefs, fetch).value| > 0
    requires AllMapped(Fetched(secrets, prefs, fetch).value)
    ensures var fetched := Fetched(secrets, prefs, fetch).value;
      var o := Sync(secrets, prefs, fetch, ct, None, at, None, now);
      && (forall x :: HasCanvasId(o.courses.rows, x) <==>
            HasCanvasId(ct.rows, x) || HasCourseIn(UniqueCourses(fetched), |UniqueCourses(fetched)|, x))
      && (forall x :: HasCanvasId(o.assignments.rows, x) <==>
            HasCanvasId(at.rows, x) || HasAssignmentIn(fetched, |fetched|, x))
  {
    var fetched := Fetched(secrets, prefs, fetch).value;
    var u := UniqueCourses(fetched);
    CoursePassOfRun(ct, fetched);
    var cp := CoursesPass(ct, None, u, |u|);
    AssignmentsPassAppends(at, cp.table, now, fetched, |fetched|);
    AssignmentsPassCovers(at, cp.table, now, fetched, |fetched|);
    AssignmentsPassOnly(at, cp.table, now, fetched, |fetched|);
    var p := AssignmentsPass(at, cp.table, None, None, now, fetched, |fetched|);
    forall x | HasCanvasId(at.rows, x) || HasAssignmentIn(fetched, |fetched|, x)
      ensures HasCanvasId(p.table.rows, x)
    {
      if HasCanvasId(at.rows, x) {
        KeptKeyPresent(at.rows, p.table.rows, x);
      }
    }
  }

  /** A run whose fetched assignments and embedded courses are all stored already
      succeeds, synchronises nothing, leaves the course table as it was and appends no
      assignment row. */
  lemma SyncAllStoredAddsNothing(secrets: map<string, string>, prefs: map<string, string>,
                                 fetch: (string, string) -> Result<seq<Assignment>, Exception>,
                                 ct: CourseRepository.CourseTable, at: AssignmentRepository.AssignmentTable,
                                 now: DateTime)
    requires Table.Valid(ct) && AssignmentRepository.WellFormed(at)
    requires Configuration.HasCredentials(secrets, prefs)
    requires Fetched(secrets, prefs, fetch).Success? && |Fetched(secrets, prefs, fetch).value| > 0
    requires AllMapped(Fetched(secrets, prefs, fetch).value)
    requires var fetched := Fetched(secrets, prefs, fetch).value;
      && (forall k :: 0 <= k < |fetched| ==> HasCanvasId(at.rows, fetched[k].canvasId))
      && (forall k :: 0 <= k < |fetched| && fetched[k].course.Some? ==>
            HasCanvasId(ct.rows, fetched[k].course.value.canvasId))
    ensures var o := Sync(secrets, prefs, fetch, ct, None, at, None, now);
      && o.result == SyncResult(true, 0, 0, SyncedMessage(0), None)
      && o.courses == ct
      && |o.assignments.rows| == |at.rows|
  {
    var fetched := Fetched(secrets, prefs, fetch).value;
    var u := UniqueCourses(fetched);
    UniqueOfFirstSeen(fetched, |fetched|);
    forall i | 0 <= i < |u| ensures HasCanvasId(ct.rows, u[i].canvasId) {
      var k :| 0 <= k < |fetched| && FirstWithCourse(fetched, k, u[i].canvasId) && fetched[k].course == Some(u[i]);
    }
    CoursesPassAllStored(ct, u, |u|);
    AssignmentsPassAppends(at, ct, now, fetched, |fetched|);
    AssignmentsPassAllStored(at, ct, now, fetched, |fetched|);
  }

  /** A second run on the same answer adds nothing: it succeeds with no course and no
      assignment synchronised, and appends no row. */
  lemma SyncTwiceAddsNothing(secrets: map<string, string>, prefs: map<string, string>,
                             fetch: (string, string) -> Result<seq<Assignment>, Exception>,
                             ct: CourseRepository.CourseTable, at: AssignmentRepository.AssignmentTable,
                             now: DateTime, later: DateTime)
    requires Table.Valid(ct) && AssignmentRepository.WellFormed(at)
    requires Configuration.HasCredentials(secrets, prefs)
    requires Fetched(secrets, prefs, fetch).Success? && |Fetched(secrets, prefs, fetch).value| > 0
    requires AllMapped(Fetched(secrets, prefs, fetch).value)
    ensures var o := Sync(secrets, prefs, fetch, ct, None, at, None, now);
      var o' := Sync(secrets, prefs, fetch, o.courses, None, o.assignments, None, later);
      && o'.result == SyncResult(true, 0, 0, SyncedMessage(0), None)
      && o'.courses == o.courses
      && |o'.assignments.rows| == |o.assignments.rows|
  {
    SyncStoresEverything(secrets, prefs, fetch, ct, at, now);
    var o := Sync(secrets, prefs, fetch, ct, None, at, None, now);
    SyncAllStoredAddsNothing(secrets, prefs, fetch, o.courses, o.assignments, later);
  }

  /** When the course table cannot be created and some fetched assignment embeds a course,
      the run fails with that exception and writes nothing. */
  lemma SyncCourseTableFails(secrets: map<string, string>, prefs: map<string, string>,
                             fetch: (string, string) -> Result<seq<Assignment>, Exception>,
                             ct: CourseRepository.CourseTable, e: Exception,
                             at: AssignmentRepository.AssignmentTable, err: Option<Exception>, now: DateTime,
                             k: int)
    requires Table.Valid(ct) && AssignmentRepository.WellFormed(at)
    requires Configuration.HasCredentials(secrets, prefs) && Fetched(secrets, prefs, fetch).Success?
    requires 0 <= k < |Fetched(secrets, prefs, fetch).value| && Fetched(secrets, prefs, fetch).value[k].course.Some?
    ensures Sync(secrets, prefs, fetch, ct, Some(e), at, err, now) == SyncOutcome(Failed(e), ct, at)
  {
    var fetched := Fetched(secrets, prefs, fetch).value;
    var u := UniqueCourses(fetched);
    UniqueOfCovers(fetched, |fetched|);
    assert HasCourseIn(u, |u|, fetched[k].course.value.canvasId);
    CoursesPassFailsFirst(ct, e, u, |u|);
  }

  /** When the assignment table cannot be created, the run fails with that exception and
      writes no assignment; the courses it stored first stay stored. */
  lemma SyncAssignmentTableFails(secrets: map<string, string>, prefs: map<string, string>,
                                 fetch: (string, string) -> Result<seq<Assignment>, Exception>,
                                 ct: CourseRepository.CourseTable, at: AssignmentRepository.AssignmentTable,
                                 e: Exception, now: DateTime)
    requires Table.Valid(ct) && AssignmentRepository.WellFormed(at)
    requires Configuration.HasCredentials(secrets, prefs)
    requires Fetched(secrets, prefs, fetch).Success? && |Fetched(secrets, prefs, fetch).value| > 0
    requires AllMapped(Fetched(secrets, prefs, fetch).value)
    ensures var fetched := Fetched(secrets, prefs, fetch).value;
      var o := Sync(secrets, prefs, fetch, ct, None, at, Some(e), now);
      && o.result == Failed(e)
      && o.assignments == at
      && |ct.rows| <= |o.courses.rows| && o.courses.rows[..|ct.rows|] == ct.rows
      && (forall k :: 0 <= k < |fetched| && fetched[k].course.Some? ==>
            HasCanvasId(o.courses.rows, fetched[k].course.value.canvasId))
  {
    var fetched := Fetched(secrets, prefs, fetch).value;
    var u := UniqueCourses(fetched);
    CoursePassOfRun(ct, fetched);
    AssignmentsPassFailsFirst(at, CoursesPass(ct, None, u, |u|).table, None, e, now, fetched, |fetched|);
  }

  class AssignmentSyncService {
    /** _assignmentRepository. */
    const assignments: AssignmentRepository.AssignmentRepository
    /** _courseRepository. */
    const courses: CourseRepository.CourseRepository
    /** _configurationService. */
    const configuration: Configuration.ConfigurationService

    /** The service and the assignment repository share the one course repository. */
    ghost predicate Valid()
      reads this, assignments, courses
    {
      assignments.courses == courses && assignments.Valid()
    }

    constructor(assignments: AssignmentRepository.AssignmentRepository,
                courses: CourseRepository.CourseRepository,
                configuration: Configuration.ConfigurationService)
      ensures this.assignments == assignments && this.courses == courses
      ensures this.configuration == configuration
    {
      this.assignments := assignments;
      this.courses := courses;
      this.configuration := configuration;
    }

    /** SyncWithCanvasAsync. `fetch` stands for ICanvasService.GetUpcomingAssignmentsAsync
        (its answer for a URL and token, or the exception it throws); `now` is the clock. */
    method SyncWithCanvasAsync(fetch: (string, string) -> Result<seq<Assignment>, Exception>, now: DateTime)
      returns (r: SyncResult)
      requires Valid()
      modifies assignments, courses
      ensures Valid()
      ensures SyncOutcome(r, courses.table, assignments.table)
           == Sync(configuration.secrets, configuration.preferences.entries, fetch,
                   old(courses.table), courses.schemaError, old(assignments.table), assignments.schemaError, now)
    {
      var validation := ValidateCredentials(configuration.HasCanvasCredentials(),
                                            configuration.GetCanvasApiToken());
      if !validation.success {
        return validation;
      }
      var apiToken := configuration.GetCanvasApiToken();
      var canvasUrl := configuration.GetCanvasUrl();
      var canvasAssignments := fetch(canvasUrl, apiToken);
      if canvasAssignments.Failure? {
        return Failed(canvasAssignments.error);
      }
      var fetched := canvasAssignments.value;
      if |fetched| == 0 {
        return SyncResult(true, 0, 0, NoUpcomingMessage, None);
      }
      var syncedCourses := SyncCoursesAsync(fetched);
      if syncedCourses.Failure? {
        return Failed(syncedCourses.error);
      }
      var syncedAssignments := SyncAssignmentsAsync(fetched, now);
      if syncedAssignments.Failure? {
        return Failed(syncedAssignments.error);
      }
      return SyncResult(true, syncedAssignments.value, syncedCourses.value,
                        SyncedMessage(syncedAssignments.value), None);
    }

    /** SyncCoursesAsync: stores each unique course whose CanvasId is not stored yet. */
    method SyncCoursesAsync(fetched: seq<Assignment>) returns (r: Result<int, Exception>)
      requires Valid()
      modifies courses
      ensures Valid()
      ensures var unique := UniqueCourses(fetched);
        var p := CoursesPass(old(courses.table), courses.schemaError, unique, |unique|);
        && courses.table == p.table
        && r == if p.error.Some? then Failure(p.error.value) else Success(p.count)
    {
      var uniqueCourses := UniqueCourses(fetched);
      ghost var t0 := courses.table;
      var syncedCount := 0;
      for i := 0 to |uniqueCourses|
        invariant Valid()
        invariant CoursesPass(t0, courses.schemaError, uniqueCourses, i) == Pass(courses.table, syncedCount, None)
      {
        var next := SyncCourseAsync(uniqueCourses[i], syncedCount);
        CourseIterationIsStep(t0, courses.schemaError, uniqueCourses, i + 1);
        if next.Failure? {
          CoursesPassSticky(t0, courses.schemaError, uniqueCourses, i + 1, |uniqueCourses|);
          return Failure(next.error);
        }
        syncedCount := next.value;
      }
      return Success(syncedCount);
    }

    /** One iteration of SyncCoursesAsync, given the count so far. */
    method SyncCourseAsync(course: Course, syncedCount: int) returns (r: Result<int, Exception>)
      requires Valid()
      modifies courses
      ensures Valid()
      ensures CourseStep(Pass(old(courses.table), syncedCount, None), courses.schemaError, course)
           == match r
              case Failure(e) => Pass(courses.table, syncedCount, Some(e))
              case Success(n) => Pass(courses.table, n, None)
    {
      var existing := courses.GetByCanvasIdAsync(course.canvasId);
      if existing.Failure? {
        return Failure(existing.error);
      }
      if existing.value.None? {
        var saved, _ := courses.SaveItemAsync(course);
        if saved.Failure? {
          return Failure(saved.error);
        }
        return Success(syncedCount + 1);
      }
      return Success(syncedCount);
    }

    /** One iteration of SyncAssignmentsAsync, given the count so far. */
    method SyncAssignmentAsync(assignment: Assignment, now: DateTime, syncedCount: int)
      returns (r: Result<int, Exception>)
      requires Valid()
      modifies assignments, courses
      ensures Valid() && courses.table == old(courses.table)
      ensures AssignmentStep(Pass(old(assignments.table), syncedCount, None), courses.table, courses.schemaError,
                             assignments.schemaError, now, assignment)
           == match r
              case Failure(e) => Pass(assignments.table, syncedCount, Some(e))
              case Success(n) => Pass(assignments.table, n, None)
    {
      var existing := assignments.GetByCanvasIdAsync(assignment.canvasId);
      if existing.Failure? {
        return Failure(existing.error);
      }
      var updated := assignment;
      if assignment.course.Some? {
        var course := courses.GetByCanvasIdAsync(assignment.course.value.canvasId);
        if course.Failure? {
          return Failure(course.error);
        }
        if course.value.Some? {
          updated := assignment.(courseId := course.value.value.id, course := course.value);
        }
      }
      r := SaveFetchedAsync(existing.value, updated, now, syncedCount);
    }

    /** The save of one iteration of SyncAssignmentsAsync. */
    method SaveFetchedAsync(existing: Option<Assignment>, updated: Assignment, now: DateTime, syncedCount: int)
      returns (r: Result<int, Exception>)
      requires Valid() && assignments.schemaError.None?
      modifies assignments
      ensures Valid()
      ensures SaveStep(Pass(old(assignments.table), syncedCount, None), existing, updated, now)
           == match r
              case Failure(e) => Pass(assignments.table, syncedCount, Some(e))
              case Success(n) => Pass(assignments.table, n, None)
    {
      var item := if existing.None? then updated else UpdateExisting(existing.value, updated, now);
      var saved, _ := assignments.SaveItemAsync(item);
      if saved.Failure? {
        return Failure(saved.error);
      }
      return Success(if existing.None? then syncedCount + 1 else syncedCount);
    }

    /** SyncAssignmentsAsync: re-parents every fetched assignment, inserts the new ones and
        merges the others into their stored rows. */
    method SyncAssignmentsAsync(fetched: seq<Assignment>, now: DateTime) returns (r: Result<int, Exception>)
      requires Valid()
      modifies assignments, courses
      ensures Valid() && courses.table == old(courses.table)
      ensures var p := AssignmentsPass(old(assignments.table), courses.table, courses.schemaError,
                                       assignments.schemaError, now, fetched, |fetched|);
        && assignments.table == p.table
        && r == if p.error.Some? then Failure(p.error.value) else Success(p.count)
    {
      ghost var t0 := assignments.table;
      ghost var ct := courses.table;
      var syncedCount := 0;
      for i := 0 to |fetched|
        invariant Valid() && courses.table == ct
        invariant AssignmentsPass(t0, ct, courses.schemaError, assignments.schemaError, now, fetched, i)
               == Pass(assignments.table, syncedCount, None)
      {
        var next := SyncAssignmentAsync(fetched[i], now, syncedCount);
        AssignmentIterationIsStep(t0, ct, courses.schemaError, assignments.schemaError, now, fetched, i + 1);
        if next.Failure? {
          AssignmentsPassSticky(t0, ct, courses.schemaError, assignments.schemaError, now, fetched, i + 1, |fetched|);
          return Failure(next.error);
        }
        syncedCount := next.value;
      }
      return Success(syncedCount);
    }
  }
}
