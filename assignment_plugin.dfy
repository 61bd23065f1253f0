/** The course lookup at the front of the assignment plugin's "get assignments by course"
    function: the configuration guard, the search-term normalisation, the first-match
    course search and the replies it gives when no course can be chosen; and the
    overdue flag and day count of the assignments it reports. */
module AssignmentPlugin {
  import opened Wrappers
  import opened Text
  import opened Models
  import Configuration

  const NotConfiguredMessage: string :=
    "Canvas configuration not found. Please configure Canvas URL and API token in settings."
  const NoCoursesMessage: string := "No courses found from Canvas API. Make sure you're connected to Canvas."

  /** Replace("-", "").Replace(" ", "").ToLower(). */
  function Normalize(s: string): string {
    ToLower(RemoveChar(RemoveChar(s, '-'), ' '))
  }

  /** RemoveChar leaves no `c` behind and keeps every other character. */
  lemma {:induction false} RemoveCharMembers(s: string, c: char)
    ensures c !in RemoveChar(s, c)
    ensures forall d :: d != c ==> (d in RemoveChar(s, c) <==> d in s)
    decreases |s|
  {
    if |s| > 0 {
      RemoveCharMembers(s[1..], c);
      assert s == [s[0]] + s[1..];
    }
  }

  /** Removing a character that does not occur changes nothing. */
  lemma {:induction false} RemoveCharAbsent(s: string, c: char)
    requires c !in s
    ensures RemoveChar(s, c) == s
    decreases |s|
  {
    if |s| > 0 {
      assert c !in s[1..] by {
        forall i | 0 <= i < |s[1..]| ensures s[1..][i] != c {
          assert s[1..][i] == s[i + 1];
        }
      }
      RemoveCharAbsent(s[1..], c);
      assert s == [s[0]] + s[1..];
    }
  }

  /** ASCII lowercasing is idempotent and maps no other character onto '-' or ' '. */
  lemma ToLowerFacts(s: string)
    ensures ToLower(ToLower(s)) == ToLower(s)
    ensures '-' in ToLower(s) <==> '-' in s
    ensures ' ' in ToLower(s) <==> ' ' in s
  {
    var l := ToLower(s);
    assert forall i :: 0 <= i < |s| ==> (l[i] == '-' <==> s[i] == '-') && (l[i] == ' ' <==> s[i] == ' ');
    if '-' in l {
      var i :| 0 <= i < |l| && l[i] == '-';
      assert s[i] == '-';
    }
    if ' ' in l {
      var i :| 0 <= i < |l| && l[i] == ' ';
      assert s[i] == ' ';
    }
  }

  /** A normalised string holds no '-' and no ' ', and normalising it again changes
      nothing. */
  lemma NormalizeFacts(s: string)
    ensures '-' !in Normalize(s) && ' ' !in Normalize(s)
    ensures Normalize(Normalize(s)) == Normalize(s)
  {
    var once := RemoveChar(s, '-');
    var twice := RemoveChar(once, ' ');
    RemoveCharMembers(s, '-');
    RemoveCharMembers(once, ' ');
    ToLowerFacts(twice);
    var n := Normalize(s);
    RemoveCharAbsent(n, '-');
    RemoveCharAbsent(n, ' ');
  }

  /** The FirstOrDefault predicate: the course's normalised name or code contains the
      (normalised) search term, or the term contains its normalised code. */
  predicate CourseMatches(term: string, c: Course) {
    Contains(Normalize(c.name), term) || Contains(Normalize(c.code), term) || Contains(term, Normalize(c.code))
  }

  /** A course whose code normalises to the empty string matches every search term. */
  lemma EmptyCodeMatchesAll(term: string, c: Course)
    requires Normalize(c.code) == ""
    ensures CourseMatches(term, c)
  {
    ContainsEmpty(term);
  }

  /** courses.FirstOrDefault(matching). */
  function FindCourse(courses: seq<Course>, term: string): Option<Course>
    decreases |courses|
  {
    if |courses| == 0 then None
    else if CourseMatches(term, courses[0]) then Some(courses[0])
    else FindCourse(courses[1..], term)
  }

  /** Course k matches and no course before it does. */
  predicate FirstMatch(courses: seq<Course>, term: string, k: int) {
    && 0 <= k < |courses| && CourseMatches(term, courses[k])
    && forall j :: 0 <= j < k ==> !CourseMatches(term, courses[j])
  }

  /** The search finds nothing exactly when no course matches, and otherwise finds the
      first matching course in list order. */
  lemma {:induction false} FindCourseIsFirst(courses: seq<Course>, term: string)
    ensures FindCourse(courses, term).None? <==> forall k :: 0 <= k < |courses| ==> !CourseMatches(term, courses[k])
    ensures FindCourse(courses, term).Some? ==>
      exists k :: FirstMatch(courses, term, k) && courses[k] == FindCourse(courses, term).value
    decreases |courses|
  {
    if |courses| > 0 && !CourseMatches(term, courses[0]) {
      var rest := courses[1..];
      FindCourseIsFirst(rest, term);
      assert forall k :: 1 <= k < |courses| ==> courses[k] == rest[k - 1];
      if FindCourse(rest, term).Some? {
        var k :| FirstMatch(rest, term, k) && rest[k] == FindCourse(rest, term).value;
        assert FirstMatch(courses, term, k + 1);
      }
    } else if |courses| > 0 {
      assert FirstMatch(courses, term, 0);
    }
  }

  /** string.Join(sep, parts). */
  function Join(sep: string, parts: seq<string>): string
    decreases |parts|
  {
    if |parts| == 0 then ""
    else if |parts| == 1 then parts[0]
    else parts[0] + sep + Join(sep, parts[1..])
  }

  /** Every part occurs in the joined text. */
  lemma {:induction false} JoinContainsPart(sep: string, parts: seq<string>, k: int)
    requires 0 <= k < |parts|
    ensures Contains(Join(sep, parts), parts[k])
    decreases |parts|
  {
    if |parts| == 1 {
      ContainsMiddle("", parts[0], "");
      assert "" + parts[0] + "" == parts[0];
    } else if k == 0 {
      ContainsMiddle("", parts[0], sep + Join(sep, parts[1..]));
      assert "" + parts[0] + (sep + Join(sep, parts[1..])) == Join(sep, parts);
    } else {
      JoinContainsPart(sep, parts[1..], k - 1);
      assert parts[1..][k - 1] == parts[k];
      ContainsAfter(parts[0] + sep, Join(sep, parts[1..]), parts[k]);
      assert (parts[0] + sep) + Join(sep, parts[1..]) == Join(sep, parts);
    }
  }

  /** courses.Select(c => $"{c.Code} - {c.Name}"). */
  function Listing(courses: seq<Course>): (r: seq<string>)
    ensures |r| == |courses|
    ensures forall k :: 0 <= k < |courses| ==> r[k] == courses[k].ToString()
  {
    seq(|courses|, k requires 0 <= k < |courses| => courses[k].ToString())
  }

  /** The reply when no course matches. */
  function NoMatchMessage(courseName: string, courses: seq<Course>): string {
    "No course found matching '" + courseName + "'. Available courses: " + Join(", ", Listing(courses))
  }

  /** Where the lookup ends: a success = false reply with its message, or the course whose
      assignments are fetched next. */
  datatype CourseLookup = Rejected(message: string) | Found(course: Course)

  /** The lookup, given the configuration stores, ICanvasService.GetCoursesAsync (which
      answers an empty list on any failure) and the requested course name. */
  function LookupCourse(secrets: map<string, string>, prefs: map<string, string>,
                        getCourses: (string, string) -> seq<Course>, courseName: string): CourseLookup
  {
    var canvasUrl := Configuration.CanvasUrl(secrets, prefs);
    var apiToken := Configuration.CanvasApiToken(secrets, prefs);
    if canvasUrl == "" || apiToken == "" then Rejected(NotConfiguredMessage)
    else
      var courses := getCourses(canvasUrl, apiToken);
      if |courses| == 0 then Rejected(NoCoursesMessage)
      else
        match FindCourse(courses, Normalize(courseName))
        case None => Rejected(NoMatchMessage(courseName, courses))
        case Some(c) => Found(c)
  }

  /** Without a URL or a token the lookup is rejected whatever the gateway would answer;
      with both it asks the gateway for the courses, is rejected when there are none or
      none matches (naming every course as "Code - Name"), and otherwise chooses the first
      course matching the normalised name. */
  lemma LookupCourseOutcomes(secrets: map<string, string>, prefs: map<string, string>,
                             getCourses: (string, string) -> seq<Course>, courseName: string)
    ensures var canvasUrl := Configuration.CanvasUrl(secrets, prefs);
      var apiToken := Configuration.CanvasApiToken(secrets, prefs);
      var courses := getCourses(canvasUrl, apiToken);
      var term := Normalize(courseName);
      var r := LookupCourse(secrets, prefs, getCourses, courseName);
      && (canvasUrl == "" || apiToken == "" ==> r == Rejected(NotConfiguredMessage))
      && (canvasUrl != "" && apiToken != "" ==>
            && (|courses| == 0 ==> r == Rejected(NoCoursesMessage))
            && (|courses| > 0 ==>
                  && (r.Found? <==> exists k :: 0 <= k < |courses| && CourseMatches(term, courses[k]))
                  && (r.Found? ==> exists k :: FirstMatch(courses, term, k) && courses[k] == r.course)
                  && (r.Rejected? ==>
                        && r.message == NoMatchMessage(courseName, courses)
                        && forall k :: 0 <= k < |courses| ==> Contains(r.message, courses[k].ToString()))))
  {
    var canvasUrl := Configuration.CanvasUrl(secrets, prefs);
    var apiToken := Configuration.CanvasApiToken(secrets, prefs);
    var courses := getCourses(canvasUrl, apiToken);
    FindCourseIsFirst(courses, Normalize(courseName));
    var prefix := "No course found matching '" + courseName + "'. Available courses: ";
    forall k | 0 <= k < |courses|
      ensures Contains(NoMatchMessage(courseName, courses), courses[k].ToString())
    {
      JoinContainsPart(", ", Listing(courses), k);
      ContainsAfter(prefix, Join(", ", Listing(courses)), courses[k].ToString());
    }
  }

  /** The isOverdue flag: due before now and not completed. */
  predicate IsOverdue(a: Assignment, now: DateTime) {
    a.dueDate < now && a.status != Completed
  }

  /** Once overdue, an assignment stays overdue as time passes, and a completed one never is. */
  lemma OverdueStays(a: Assignment, now: DateTime, later: DateTime)
    requires now <= later
    ensures IsOverdue(a, now) ==> IsOverdue(a, later)
    ensures a.status == Completed ==> !IsOverdue(a, now)
  {
  }

  /** Integer division of a TimeSpan's ticks, which truncates toward zero. */
  function TruncatingDiv(n: int, d: int): int
    requires d > 0
  {
    if n >= 0 then n / d else -((-n) / d)
  }

  /** daysUntilDue: (DueDate - now).Days, the whole days of the difference, truncated
      toward zero. */
  function DaysUntilDue(a: Assignment, now: DateTime): int {
    TruncatingDiv(a.dueDate - now, TicksPerDay)
  }

  /** The day count has the sign of the difference (or is 0) and is the number of whole
      days in its magnitude. */
  lemma DaysUntilDueBounds(a: Assignment, now: DateTime)
    ensures var d := a.dueDate - now;
      var days := DaysUntilDue(a, now);
      && (d >= 0 ==> days >= 0 && days * TicksPerDay <= d < (days + 1) * TicksPerDay)
      && (d < 0 ==> days <= 0 && -days * TicksPerDay <= -d < (-days + 1) * TicksPerDay)
  {
  }

  /** Overdue by less than a day still counts 0 days, not -1. */
  lemma JustOverdueIsDayZero(a: Assignment, now: DateTime)
    requires now - TicksPerDay < a.dueDate < now
    ensures DaysUntilDue(a, now) == 0
  {
  }
}
