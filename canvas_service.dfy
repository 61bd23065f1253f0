/** The Canvas gateway's pure parts: URL normalisation, the mapping of the API's course and
    assignment objects to the local models, the upcoming-assignments window, and how each
    call turns a failed HTTP exchange into an empty answer. The exchange itself is an input. */
module CanvasService {
  import opened Wrappers
  import opened Exceptions
  import opened Text
  import opened Models

  const DefaultDays: int := 7

  /** NormalizeCanvasUrl: every trailing '/' removed. */
  function NormalizeCanvasUrl(canvasUrl: string): string {
    TrimEnd(canvasUrl, '/')
  }

  /** TrimEnd keeps a prefix, removes only slashes, and leaves no slash at the end. */
  lemma {:induction false} NormalizeRemovesTrailingSlashes(canvasUrl: string)
    ensures var r := NormalizeCanvasUrl(canvasUrl);
      && |r| <= |canvasUrl| && r == canvasUrl[..|r|]
      && (forall i :: |r| <= i < |canvasUrl| ==> canvasUrl[i] == '/')
      && (|r| == 0 || r[|r| - 1] != '/')
    decreases |canvasUrl|
  {
    if |canvasUrl| > 0 && canvasUrl[|canvasUrl| - 1] == '/' {
      var prefix := canvasUrl[..|canvasUrl| - 1];
      NormalizeRemovesTrailingSlashes(prefix);
      var r := NormalizeCanvasUrl(prefix);
      assert canvasUrl[..|r|] == prefix[..|r|];
      forall i | |r| <= i < |canvasUrl| ensures canvasUrl[i] == '/' {
        if i < |prefix| {
          assert canvasUrl[i] == prefix[i];
        }
      }
    }
  }

  /** Normalising twice is normalising once. */
  lemma NormalizeIdempotent(canvasUrl: string)
    ensures NormalizeCanvasUrl(NormalizeCanvasUrl(canvasUrl)) == NormalizeCanvasUrl(canvasUrl)
  {
    NormalizeRemovesTrailingSlashes(canvasUrl);
  }

  /** Unlike the inline logic of the URL test, normalisation adds no scheme. */
  lemma NormalizeAddsNoScheme()
    ensures NormalizeCanvasUrl("test.instructure.com") == "test.instructure.com"
    ensures NormalizeCanvasUrl("https://test.instructure.com/") == "https://test.instructure.com"
  {
    assert "https://test.instructure.com/"[..|"https://test.instructure.com/"| - 1] == "https://test.instructure.com";
  }

  datatype CanvasTermDto = CanvasTermDto(id: int, name: Option<string>)

  datatype CanvasCourseDto = CanvasCourseDto(
    id: int,
    name: Option<string>,
    courseCode: Option<string>,
    workflowState: Option<string>,
    accountId: Option<int>,
    sisCourseId: Option<string>,
    startAt: Option<DateTime>,
    endAt: Option<DateTime>,
    createdAt: Option<DateTime>,
    term: Option<CanvasTermDto>)

  datatype CanvasAssignmentDto = CanvasAssignmentDto(
    id: int,
    name: Option<string>,
    description: Option<string>,
    dueAt: Option<DateTime>,
    pointsPossible: Option<Points>,
    assignmentGroupId: Option<int>,
    htmlUrl: Option<string>,
    published: Option<bool>,
    createdAt: Option<DateTime>,
    updatedAt: Option<DateTime>,
    courseId: int,
    course: Option<CanvasCourseDto>)

  /** x?.ToString() ?? string.Empty. */
  function OptIntToString(x: Option<int>): string {
    match x
    case None => ""
    case Some(n) => IntToString(n)
  }

  /** MapCanvasCourseToModel; `now` is DateTime.Now. */
  function MapCourse(dto: CanvasCourseDto, now: DateTime): (c: Course)
    ensures c.id == 0 && c.assignments == []
    ensures c.canvasId == IntToString(dto.id)
    ensures c.term == (if dto.term.Some? then dto.term.value.name.GetOr("") else "")
    ensures c.createdAt == dto.createdAt.GetOr(now)
  {
    Course(0, IntToString(dto.id), dto.name.GetOr(""), dto.courseCode.GetOr(""),
           match dto.term case None => "" case Some(t) => t.name.GetOr(""),
           [], OptIntToString(dto.accountId), dto.sisCourseId.GetOr(""),
           dto.workflowState.GetOr(""), dto.startAt.GetOr(MinValue), dto.endAt.GetOr(MinValue),
           dto.createdAt.GetOr(now))
  }

  /** MapCanvasAssignmentToModel; `now` is DateTime.Now. */
  function MapAssignment(dto: CanvasAssignmentDto, now: DateTime): (a: Assignment)
    ensures a.id == 0 && a.courseId == 0 && a.status == New
    ensures a.canvasId == IntToString(dto.id)
    ensures a.course.Some? <==> dto.course.Some?
    ensures a.course.Some? ==> a.course.value == MapCourse(dto.course.value, now)
  {
    Assignment(0, IntToString(dto.id), dto.name.GetOr(""), dto.description.GetOr(""),
               dto.dueAt.GetOr(MaxValue), 0,
               match dto.course case None => None case Some(c) => Some(MapCourse(c, now)),
               dto.pointsPossible.GetOr(0.0), New, OptIntToString(dto.assignmentGroupId),
               dto.htmlUrl.GetOr(""), dto.published.GetOr(true),
               dto.createdAt.GetOr(now), dto.updatedAt.GetOr(now))
  }

  /** A course object with nothing but an ID maps to a fresh Course carrying that ID as
      its CanvasId and created now. */
  lemma MapBareCourse(id: int, now: DateTime)
    ensures MapCourse(CanvasCourseDto(id, None, None, None, None, None, None, None, None, None), now)
      == NewCourse().(canvasId := IntToString(id), createdAt := now)
  {
  }

  /** An assignment object with nothing but an ID maps to a fresh Assignment except for
      four defaults: due at DateTime.MaxValue, published (a fresh Assignment is not), and
      created and updated now. */
  lemma MapBareAssignment(id: int, courseId: int, now: DateTime)
    ensures var a := MapAssignment(CanvasAssignmentDto(id, None, None, None, None, None, None, None,
                                                     None, None, courseId, None), now);
      && a == NewAssignment().(canvasId := IntToString(id), dueDate := MaxValue, published := true,
                               createdAt := now, updatedAt := now)
      && a.published != NewAssignment().published
  {
  }

  /** The mapping never reads dto.CourseId. */
  lemma MapIgnoresCourseId(dto: CanvasAssignmentDto, courseId: int, now: DateTime)
    ensures MapAssignment(dto.(courseId := courseId), now) == MapAssignment(dto, now)
  {
  }

  /** Distinct Canvas IDs give distinct CanvasIds, so the UNIQUE column sees one row per
      Canvas object. */
  lemma CanvasIdsDistinct(d1: CanvasAssignmentDto, d2: CanvasAssignmentDto, now: DateTime)
    requires d1.id != d2.id
    ensures MapAssignment(d1, now).canvasId != MapAssignment(d2, now).canvasId
  {
    if IntToString(d1.id) == IntToString(d2.id) {
      IntToStringInjective(d1.id, d2.id);
    }
  }

  /** An assignment as the mapper builds it: not stored yet, no local course, and an
      embedded course (if any) not stored yet either. */
  predicate AsMapped(a: Assignment) {
    a.id == 0 && a.courseId == 0 && (a.course.Some? ==> a.course.value.id == 0)
  }

  lemma MappedIsAsMapped(dto: CanvasAssignmentDto, now: DateTime)
    ensures AsMapped(MapAssignment(dto, now))
  {
  }

  /** The window [now, now.AddDays(days)] of GetUpcomingAssignmentsAsync; AddDays throws
      when the end falls outside the DateTime range, and the fetch then answers []. */
  function UpcomingWindow(now: DateTime, days: int): (w: Option<(DateTime, DateTime)>)
    ensures w.Some? <==> 0 <= now + days * TicksPerDay <= MaxTicks
    ensures w.Some? ==> w.value.0 == now && w.value.1 - w.value.0 == days * TicksPerDay
  {
    var end := now + days * TicksPerDay;
    if 0 <= end <= MaxTicks then Some((now, end)) else None
  }

  /** With the default of 7 days the window spans 7 * 864000000000 ticks, unless now is
      within a week of DateTime.MaxValue. */
  lemma DefaultWindowIsAWeek(now: DateTime)
    requires now <= MaxTicks - DefaultDays * TicksPerDay
    ensures UpcomingWindow(now, DefaultDays).Some?
    ensures UpcomingWindow(now, DefaultDays).value.1 == now + 6048000000000
  {
  }

  /** What one HTTP exchange produced: an exception (network, JSON), or a status with the
      deserialised body, None for a JSON null. */
  datatype Response<T> = Threw(error: Exception) | Answered(isSuccessStatusCode: bool, body: Option<seq<T>>)

  /** The body of a successful exchange, mapped; [] for every failure. */
  function MapBody<T, U>(response: Response<T>, map1: T -> U): (r: seq<U>)
    ensures response.Answered? && response.isSuccessStatusCode && response.body.Some? ==>
      |r| == |response.body.value| &&
      forall k :: 0 <= k < |r| ==> r[k] == map1(response.body.value[k])
    ensures !(response.Answered? && response.isSuccessStatusCode && response.body.Some?) ==> r == []
  {
    match response
    case Threw(_) => []
    case Answered(ok, body) =>
      if ok && body.Some? then seq(|body.value|, k requires 0 <= k < |body.value| => map1(body.value[k]))
      else []
  }

  /** GetCoursesAsync. */
  function GetCourses(response: Response<CanvasCourseDto>, now: DateTime): seq<Course> {
    MapBody(response, (dto: CanvasCourseDto) => MapCourse(dto, now))
  }

  /** GetAssignmentsAsync. */
  function GetAssignments(response: Response<CanvasAssignmentDto>, now: DateTime): seq<Assignment> {
    MapBody(response, (dto: CanvasAssignmentDto) => MapAssignment(dto, now))
  }

  /** GetUpcomingAssignmentsAsync: no request is made when the window cannot be computed. */
  function GetUpcomingAssignments(now: DateTime, days: int, response: Response<CanvasAssignmentDto>)
    : seq<Assignment>
  {
    if UpcomingWindow(now, days).None? then [] else GetAssignments(response, now)
  }

  /** Every assignment the gateway returns is as the mapper builds it, and a failed
      exchange returns none. */
  lemma UpcomingAreMapped(now: DateTime, days: int, response: Response<CanvasAssignmentDto>)
    ensures forall a :: a in GetUpcomingAssignments(now, days, response) ==> AsMapped(a)
    ensures response.Threw? || UpcomingWindow(now, days).None? ==> GetUpcomingAssignments(now, days, response) == []
  {
    var r := GetUpcomingAssignments(now, days, response);
    forall a | a in r ensures AsMapped(a) {
      var k :| 0 <= k < |r| && r[k] == a;
      MappedIsAsMapped(response.body.value[k], now);
    }
  }

  /** ValidateCredentialsAsync: the status of GET /api/v1/users/self, false on an exception. */
  function ValidateCredentials(response: Result<bool, Exception>): (ok: bool)
    ensures ok <==> response == Success(true)
  {
    match response
    case Success(isSuccessStatusCode) => isSuccessStatusCode
    case Failure(_) => false
  }
}
