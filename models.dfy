/** The two entities the application stores: a Course and an Assignment, with their
    property initialisers as the defaults of a freshly constructed object. */
module Models {
  import opened Wrappers

  /** DateTime.MaxValue.Ticks; DateTime.MinValue is tick 0. */
  const MaxTicks: int := 3155378975999999999
  const TicksPerDay: int := 864000000000

  /** A DateTime as its tick count. */
  type DateTime = t: int | 0 <= t <= MaxTicks

  const MinValue: DateTime := 0
  const MaxValue: DateTime := MaxTicks

  /** PointsPossible is a double that is only ever copied. */
  type Points = real

  datatype AssignmentStatus = New | Scheduled | InProgress | Completed | Overdue

  /** The enum's ordinal, the integer persisted in the Status column. */
  function StatusToInt(s: AssignmentStatus): (n: int)
    ensures 0 <= n <= 4
    ensures n == 0 <==> s == New
  {
    match s
    case New => 0
    case Scheduled => 1
    case InProgress => 2
    case Completed => 3
    case Overdue => 4
  }

  /** The cast (AssignmentStatus)n for the five defined ordinals. */
  function StatusFromInt(n: int): AssignmentStatus
    requires 0 <= n <= 4
  {
    if n == 0 then New
    else if n == 1 then Scheduled
    else if n == 2 then InProgress
    else if n == 3 then Completed
    else Overdue
  }

  /** Persisting a status as its ordinal and casting it back gives the same status,
      and every ordinal in range is the ordinal of exactly one status. */
  lemma StatusRoundTrip(s: AssignmentStatus, n: int)
    ensures StatusFromInt(StatusToInt(s)) == s
    ensures 0 <= n <= 4 ==> StatusToInt(StatusFromInt(n)) == n
  {
  }

  datatype Course = Course(
    id: int,
    canvasId: string,
    name: string,
    code: string,
    term: string,
    assignments: seq<Assignment>,
    accountId: string,
    sisCourseId: string,
    workflowState: string,
    startAt: DateTime,
    endAt: DateTime,
    createdAt: DateTime)
  {
    /** ToString(): "Code - Name". */
    function ToString(): (r: string)
      ensures |r| == |code| + 3 + |name|
      ensures r[..|code|] == code && r[|code|..|code| + 3] == " - " && r[|code| + 3..] == name
    {
      code + " - " + name
    }
  }

  datatype Assignment = Assignment(
    id: int,
    canvasId: string,
    title: string,
    description: string,
    dueDate: DateTime,
    courseId: int,
    course: Option<Course>,
    pointsPossible: Points,
    status: AssignmentStatus,
    assignmentGroupId: string,
    htmlUrl: string,
    published: bool,
    createdAt: DateTime,
    updatedAt: DateTime)
  {
    /** ToString(): the title alone. */
    function ToString(): (r: string)
      ensures r == title
    {
      title
    }
  }

  /** `new Course()`: ID 0, empty strings, no assignments, default timestamps. */
  function NewCourse(): (c: Course)
    ensures c.id == 0 && c.assignments == []
    ensures c.canvasId == c.name == c.code == c.term == ""
    ensures c.accountId == c.sisCourseId == c.workflowState == ""
  {
    Course(0, "", "", "", "", [], "", "", "", MinValue, MinValue, MinValue)
  }

  /** `new Assignment()`: ID 0, status New, unpublished, empty strings, no course. */
  function NewAssignment(): (a: Assignment)
    ensures a.id == 0 && a.courseId == 0 && a.course == None
    ensures a.status == New && !a.published && a.pointsPossible == 0.0
    ensures a.canvasId == a.title == a.description == a.assignmentGroupId == a.htmlUrl == ""
  {
    Assignment(0, "", "", "", MinValue, 0, None, 0.0, New, "", "", false, MinValue, MinValue)
  }
}
