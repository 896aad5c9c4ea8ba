/**
  The degree-chart endpoints: matching a student to a chart schema from the
  student number, the semester-aware priority score of a course, and the
  `recommendations` action that lists the courses of the student's next
  semester by descending priority. The ORM lookups become inputs: the
  student's profile, the course history, the chart schemas, the chart nodes
  of all schemas, the requirement rows and the set of elective courses.
 */
module ChartViews {
  import opened Wrappers
  import opened PythonBuiltins
  import opened CourseModels
  import opened StudentModels

  // ---------------------------------------------------------------------------
  // Chart schemas and their nodes
  // ---------------------------------------------------------------------------

  /** A versioned chart: one major, for the students who entered in [entryYearStart, entryYearEnd]. */
  datatype ChartSchema = ChartSchema(id: nat, major: string, entryYearStart: int, entryYearEnd: int)

  /**
    A group of elective courses. `courses` is a many-to-many relation, read
    through `Course`'s default ordering, so the sequence is in course-code order.
   */
  datatype CourseGroup = CourseGroup(id: nat, courses: seq<CourseId>)

  /** A slot of a chart in one semester: a fixed course, or an elective slot naming a group. */
  datatype ChartNode = ChartNode(schema: nat, semester: int, course: Option<CourseId>, courseGroup: Option<CourseGroup>)

  /** A row of the requirement table: `prerequisite` must be passed before `course`. */
  datatype Requirement = Requirement(course: CourseId, prerequisite: CourseId)

  /** Everything the endpoints read from the chart tables. */
  datatype ChartData = ChartData(
    charts: seq<ChartSchema>,
    nodes: seq<ChartNode>,
    requirements: seq<Requirement>,
    electives: set<CourseId>)

  // ---------------------------------------------------------------------------
  // Student number -> (entry year, major)
  // ---------------------------------------------------------------------------

  datatype Profile = Profile(studentNumber: Option<string>)

  datatype ViewError =
    | ProfileNotFound
    | InvalidStudentNumber
    | ParseError
    | UnknownMajor(code: string)
    | ChartNotFound(major: string, entryYear: int)

  /** The HTTP status of each error response. */
  function Status(e: ViewError): int
  {
    match e
    case ProfileNotFound => 404
    case ChartNotFound(_, _) => 404
    case _ => 400
  }

  /** The major codes of digits [2:5] and the chart majors they name. */
  function MajorOf(code: string): Option<string>
  {
    if code == "210" then Some("CS")
    else if code == "213" then Some("EE")
    else if code == "201" then Some("CE")
    else if code == "211" then Some("ME")
    else if code == "220" then Some("SE")
    else None
  }

  /** A two-digit prefix n is a year of the 1390s when n >= 92, otherwise of the 1400s. */
  function EntryYear(n: int): (year: int)
    ensures 0 <= n <= 99 ==> 1392 <= year <= 1491 && year % 100 == n
  {
    if n >= 92 then 1300 + n else 1400 + n
  }

  /**
    The parsing shared by `my_chart` and `recommendations`: reject a missing
    or short number, read `int(s[:2])` as the entry year and look up `s[2:5]`
    as the major code.
   */
  function ParseStudentNumber(number: Option<string>): (r: Result<(int, string), ViewError>)
    ensures number.None? || |number.value| < 5 ==> r == Failure(InvalidStudentNumber)
    ensures r.Success? ==>
      && number.Some? && |number.value| >= 5
      && PyIntOfTwo(number.value[..2]).Some?
      && r.value.0 == EntryYear(PyIntOfTwo(number.value[..2]).value)
      && 1391 <= r.value.0 <= 1491
      && MajorOf(number.value[2..5]) == Some(r.value.1)
    ensures r.Failure? && number.Some? && |number.value| >= 5 ==>
      || (r.error == ParseError && PyIntOfTwo(number.value[..2]).None?)
      || (r.error == UnknownMajor(number.value[2..5]) && MajorOf(number.value[2..5]).None?)
  {
    if number.None? || |number.value| < 5 then Failure(InvalidStudentNumber)
    else
      var s := number.value;
      var n := PyIntOfTwo(s[..2]);
      if n.None? then Failure(ParseError)
      else
        PyIntOfTwoRange(s[..2]);
        var major := MajorOf(s[2..5]);
        if major.None? then Failure(UnknownMajor(s[2..5]))
        else Success((EntryYear(n.value), major.value))
  }

  /** The two-digit year code of the entry years 1392..1491: the year's last two digits, zero padded. */
  function YearCode(year: int): (code: string)
    requires 1392 <= year <= 1491
    ensures |code| == 2
  {
    PyIntOfTwoRoundTrip(year % 100);
    ZFill(NatToDecimal(year % 100), 2)
  }

  /**
    Round trip: a number that starts with the year code of an entry year in
    1392..1491 followed by a known major code parses back to that year and major.
   */
  lemma StudentNumberRoundTrip(year: int, code: string, rest: string)
    requires 1392 <= year <= 1491 && MajorOf(code).Some? && |code| == 3
    ensures ParseStudentNumber(Some(YearCode(year) + code + rest)) == Success((year, MajorOf(code).value))
  {
    var s := YearCode(year) + code + rest;
    PyIntOfTwoRoundTrip(year % 100);
    assert s[..2] == YearCode(year);
    assert s[2..5] == code;
  }

  /** `ChartSchema.objects.filter(major=..., entry_year_start__lte=year, entry_year_end__gte=year)`. */
  predicate Covers(chart: ChartSchema, major: string, year: int)
  {
    chart.major == major && chart.entryYearStart <= year <= chart.entryYearEnd
  }

  /** `.first()` of that filter: the first covering schema in table order, if any. */
  function FindChart(charts: seq<ChartSchema>, major: string, year: int): (r: Option<ChartSchema>)
    ensures r.None? <==> forall i :: 0 <= i < |charts| ==> !Covers(charts[i], major, year)
    ensures r.Some? ==> exists i :: 0 <= i < |charts| && charts[i] == r.value && Covers(r.value, major, year)
                                   && forall j :: 0 <= j < i ==> !Covers(charts[j], major, year)
  {
    if charts == [] then None
    else if Covers(charts[0], major, year) then Some(charts[0])
    else
      var r := FindChart(charts[1..], major, year);
      assert forall j :: 1 <= j < |charts| ==> charts[j] == charts[1..][j - 1];
      r
  }

  /** `my_chart`: the schema matching the student and the courses the student passed (by grade). */
  function MyChart(profile: Option<Profile>, student: StudentId, history: seq<HistoryRecord>, charts: seq<ChartSchema>)
    : (r: Result<(ChartSchema, set<CourseId>), ViewError>)
    ensures profile.None? ==> r == Failure(ProfileNotFound)
    ensures profile.Some? && ParseStudentNumber(profile.value.studentNumber).Failure? ==>
              r == Failure(ParseStudentNumber(profile.value.studentNumber).error)
    ensures profile.Some? && ParseStudentNumber(profile.value.studentNumber).Success? ==>
              var year := ParseStudentNumber(profile.value.studentNumber).value.0;
              var major := ParseStudentNumber(profile.value.studentNumber).value.1;
              && (r.Success? <==> FindChart(charts, major, year).Some?)
              && (r.Success? ==> Some(r.value.0) == FindChart(charts, major, year) && Covers(r.value.0, major, year))
              && (r.Failure? ==> r.error == ChartNotFound(major, year))
    ensures r.Success? ==> r.value.1 == PassedByGrade(history, student) && r.value.0 in charts
  {
    if profile.None? then Failure(ProfileNotFound)
    else
      match ParseStudentNumber(profile.value.studentNumber)
      case Failure(e) => Failure(e)
      case Success((year, major)) =>
        match FindChart(charts, major, year)
        case None => Failure(ChartNotFound(major, year))
        case Some(chart) => Success((chart, PassedByGrade(history, student)))
  }

  // ---------------------------------------------------------------------------
  // calculate_priority_score
  // ---------------------------------------------------------------------------

  /** `CourseRequirement.objects.filter(course=c)`: the rows into `c`. */
  function RequirementsOf(reqs: seq<Requirement>, c: CourseId): (r: seq<Requirement>)
    ensures forall x :: x in r <==> x in reqs && x.course == c
  {
    if reqs == [] then []
    else
      assert reqs == [reqs[0]] + reqs[1..];
      (if reqs[0].course == c then [reqs[0]] else []) + RequirementsOf(reqs[1..], c)
  }

  /** Every requirement of `c` is passed. */
  predicate RequirementsMet(reqs: seq<Requirement>, c: CourseId, passed: set<CourseId>)
  {
    forall r :: r in reqs && r.course == c ==> r.prerequisite in passed
  }

  /** `CourseRequirement.objects.filter(prerequisite=c).values_list('course_id')`: the courses `c` unlocks, one per row. */
  function Unlocks(reqs: seq<Requirement>, c: CourseId): (u: seq<CourseId>)
    ensures |u| <= |reqs|
    ensures forall d :: d in u <==> exists r :: r in reqs && r.prerequisite == c && r.course == d
  {
    if reqs == [] then []
    else
      var init := reqs[..|reqs| - 1];
      var last := reqs[|reqs| - 1];
      assert reqs == init + [last];
      Unlocks(init, c) + (if last.prerequisite == c then [last.course] else [])
  }

  /** The node table has a node of the chart placing `c` itself in semester `sem`. */
  predicate InTargetSemester(nodes: seq<ChartNode>, chart: nat, c: CourseId, sem: int)
  {
    exists i :: 0 <= i < |nodes| && nodes[i].schema == chart && nodes[i].course == Some(c) && nodes[i].semester == sem
  }

  const BlockedReason: string := "پیشنیازهای درس تکمیل نشده است"
  const SemesterReason: string := "درس مقرر این ترم"
  const DefaultReason: string := "درس مهم"
  const ReasonSeparator: string := " | "

  function DependencyReason(n: nat): string
  {
    "پیشنیاز برای " + NatToDecimal(n) + " درس"
  }

  /** `sep.join(parts)`. */
  function Join(parts: seq<string>, sep: string): string
  {
    if parts == [] then ""
    else if |parts| == 1 then parts[0]
    else parts[0] + sep + Join(parts[1..], sep)
  }

  /** The reason parts present for `dependentCount` dependents and a (non-)target-semester course. */
  function ReasonParts(dependentCount: nat, inTarget: bool): seq<string>
  {
    (if dependentCount > 0 then [DependencyReason(dependentCount)] else []) + (if inTarget then [SemesterReason] else [])
  }

  function Reason(dependentCount: nat, inTarget: bool): string
  {
    var parts := ReasonParts(dependentCount, inTarget);
    if parts == [] then DefaultReason else Join(parts, ReasonSeparator)
  }

  /** The weights reported beside the total when the course is not blocked. */
  datatype Weights = Weights(base: int, dependency: int, semester: int, electiveBonus: int)

  datatype PriorityScore = PriorityScore(total: int, prerequisitesMet: bool, reason: string, weights: Option<Weights>)

  /**
    The score of `calculate_priority_score`: 0 when some requirement is not
    passed; otherwise 50, plus 10 per row naming the course as prerequisite,
    plus 25 when a node of the chart places the course in the target
    semester, plus 10 for an elective course, capped at 100.
   */
  function PriorityScoreOf(
    c: CourseId, passed: set<CourseId>, target: int, chart: nat, data: ChartData): (s: PriorityScore)
    ensures s.prerequisitesMet <==> RequirementsMet(data.requirements, c, passed)
    ensures 0 <= s.total <= 100
    ensures s.prerequisitesMet ==> s.total >= 50 && s.weights.Some?
    ensures !s.prerequisitesMet ==> s.total == 0 && s.reason == BlockedReason && s.weights.None?
  {
    if !RequirementsMet(data.requirements, c, passed) then PriorityScore(0, false, BlockedReason, None)
    else
      var dependentCount := |Unlocks(data.requirements, c)|;
      var inTarget := InTargetSemester(data.nodes, chart, c, target);
      var w := Weights(50, dependentCount * 10, if inTarget then 25 else 0, if c in data.electives then 10 else 0);
      var total := w.base + w.dependency + w.semester + w.electiveBonus;
      PriorityScore(if total < 100 then total else 100, true, Reason(dependentCount, inTarget), Some(w))
  }

  /** `calculate_priority_score`: the requirement scan stops at the first unpassed prerequisite. */
  method CalculatePriorityScore(
    course: CourseId, passedCourses: set<CourseId>, targetSemester: int, chart: nat, data: ChartData)
    returns (score: PriorityScore)
    ensures score == PriorityScoreOf(course, passedCourses, targetSemester, chart, data)
  {
    var prerequisites := RequirementsOf(data.requirements, course);
    var prerequisitesMet := true;
    for i := 0 to |prerequisites|
      invariant prerequisitesMet
      invariant forall j :: 0 <= j < i ==> prerequisites[j].prerequisite in passedCourses
    {
      if prerequisites[i].prerequisite !in passedCourses {
        prerequisitesMet := false;
        break;
      }
    }
    if !prerequisitesMet {
      return PriorityScore(0, false, BlockedReason, None);
    }
    var baseWeight := 50;
    var dependentCount := |Unlocks(data.requirements, course)|;
    var dependencyWeight := dependentCount * 10;
    var isInTargetSem := InTargetSemester(data.nodes, chart, course, targetSemester);
    var semesterWeight := if isInTargetSem then 25 else 0;
    var electiveBonus := 0;
    if course in data.electives {
      electiveBonus := 10;
    }
    var totalScore := baseWeight + dependencyWeight + semesterWeight + electiveBonus;
    if totalScore > 100 {
      totalScore := 100;
    }
    var reason := Reason(dependentCount, isInTargetSem);
    score := PriorityScore(totalScore, true, reason, Some(Weights(baseWeight, dependencyWeight, semesterWeight, electiveBonus)));
  }

  /**
    Landmarks of the score: five or more dependents reach the cap; a course
    with no dependents, outside the target semester and not elective scores
    exactly the base 50; and the total is the uncapped sum whenever that sum
    is at most 100.
   */
  lemma PriorityScoreLandmarks(c: CourseId, passed: set<CourseId>, target: int, chart: nat, data: ChartData)
    requires RequirementsMet(data.requirements, c, passed)
    ensures |Unlocks(data.requirements, c)| >= 5 ==> PriorityScoreOf(c, passed, target, chart, data).total == 100
    ensures (Unlocks(data.requirements, c) == [] && !InTargetSemester(data.nodes, chart, c, target) && c !in data.electives)
              ==> PriorityScoreOf(c, passed, target, chart, data).total == 50
    ensures var w := PriorityScoreOf(c, passed, target, chart, data).weights.value;
            w.base + w.dependency + w.semester + w.electiveBonus <= 100 ==>
              PriorityScoreOf(c, passed, target, chart, data).total == w.base + w.dependency + w.semester + w.electiveBonus
  {
  }

  /** Passing more courses never lowers a score; it can only unblock the course. */
  lemma PriorityScoreMonotoneInPassed(
    c: CourseId, passed: set<CourseId>, more: set<CourseId>, target: int, chart: nat, data: ChartData)
    requires passed <= more
    ensures PriorityScoreOf(c, passed, target, chart, data).total <= PriorityScoreOf(c, more, target, chart, data).total
    ensures PriorityScoreOf(c, passed, target, chart, data).prerequisitesMet ==> PriorityScoreOf(c, more, target, chart, data).prerequisitesMet
  {
  }

  /** One more course requiring `c` never lowers the score of `c`. */
  lemma {:induction false} MoreDependentsNeverLower(
    c: CourseId, d: CourseId, passed: set<CourseId>, target: int, chart: nat, data: ChartData)
    requires d != c
    ensures var more := data.(requirements := data.requirements + [Requirement(d, c)]);
            && |Unlocks(more.requirements, c)| == |Unlocks(data.requirements, c)| + 1
            && PriorityScoreOf(c, passed, target, chart, data).total <= PriorityScoreOf(c, passed, target, chart, more).total
  {
    var more := data.(requirements := data.requirements + [Requirement(d, c)]);
    var reqs := more.requirements;
    assert reqs[..|reqs| - 1] == data.requirements;
    assert RequirementsMet(data.requirements, c, passed) <==> RequirementsMet(reqs, c, passed);
  }

  /**
    The reason text: the generic reason exactly when there is no dependent and
    the course is not placed in the target semester; otherwise it starts with
    the dependency part when there are dependents and ends with the semester
    part when the course is placed there; and it is never the blocked reason.
   */
  lemma ReasonFacts(dependentCount: nat, inTarget: bool)
    ensures Reason(dependentCount, inTarget) == DefaultReason <==> dependentCount == 0 && !inTarget
    ensures dependentCount > 0 ==>
      var r := Reason(dependentCount, inTarget);
      var p := DependencyReason(dependentCount);
      |p| <= |r| && r[..|p|] == p
    ensures inTarget ==>
      var r := Reason(dependentCount, inTarget);
      |SemesterReason| <= |r| && r[|r| - |SemesterReason|..] == SemesterReason
    ensures dependentCount > 0 && inTarget ==>
      Reason(dependentCount, inTarget) == DependencyReason(dependentCount) + ReasonSeparator + SemesterReason
    ensures dependentCount > 0 && !inTarget ==> Reason(dependentCount, inTarget) == DependencyReason(dependentCount)
    ensures dependentCount == 0 && inTarget ==> Reason(dependentCount, inTarget) == SemesterReason
    ensures Reason(dependentCount, inTarget) != BlockedReason
  {
    var r := Reason(dependentCount, inTarget);
    var parts := ReasonParts(dependentCount, inTarget);
    if dependentCount > 0 {
      var p := DependencyReason(dependentCount);
      NatToDecimalRoundTrip(dependentCount);
      assert |p| >= 18;
      if inTarget {
        assert parts == [p, SemesterReason];
        assert Join(parts[1..], ReasonSeparator) == SemesterReason;
        assert r == p + ReasonSeparator + SemesterReason;
        assert r[..|p|] == p;
      } else {
        assert r == p;
        assert r[7] != BlockedReason[7];
      }
      assert |r| != |DefaultReason|;
    } else if inTarget {
      assert r == SemesterReason;
      assert |r| != |DefaultReason| && |r| != |BlockedReason|;
    } else {
      assert r == DefaultReason;
      assert |r| != |BlockedReason|;
    }
  }

  // ---------------------------------------------------------------------------
  // The recommendations action
  // ---------------------------------------------------------------------------

  /** One entry of the response. */
  datatype ChartRecommendation = ChartRecommendation(
    courseId: CourseId,
    priorityScore: int,
    reason: string,
    unlocks: seq<CourseId>,
    prerequisitesMet: bool,
    isMandatory: bool,
    isElective: bool)

  datatype RecommendationsResponse = RecommendationsResponse(
    nextSemester: int,
    recommendations: seq<ChartRecommendation>,
    message: Option<string>)

  const AllSemestersDone: string := "دانشجو تمام ترم‌ها را تکمیل کرده است"

  /** The semesters in the student's history, counted once each. */
  function HistorySemesters(h: seq<HistoryRecord>, student: StudentId): set<string>
  {
    set i | 0 <= i < |h| && h[i].student == student :: h[i].semester
  }

  /** A student has no more distinct semesters than history rows. */
  lemma {:induction false} HistorySemestersBound(h: seq<HistoryRecord>, student: StudentId)
    ensures |HistorySemesters(h, student)| <= |h|
  {
    if h != [] {
      var init := h[..|h| - 1];
      var sems := HistorySemesters(h, student);
      var bound := HistorySemesters(init, student) + {h[|h| - 1].semester};
      HistorySemestersBound(init, student);
      forall s | s in sems ensures s in bound {
        var i :| 0 <= i < |h| && h[i].student == student && h[i].semester == s;
        if i < |h| - 1 {
          assert init[i] == h[i];
        }
      }
      SubsetCardinality(sems, bound);
    }
  }

  /** A student has distinct semesters exactly when some history row is theirs. */
  lemma HistorySemestersEmpty(h: seq<HistoryRecord>, student: StudentId)
    ensures HistorySemesters(h, student) == {} <==> forall i :: 0 <= i < |h| ==> h[i].student != student
  {
    if exists i :: 0 <= i < |h| && h[i].student == student {
      var i :| 0 <= i < |h| && h[i].student == student;
      assert h[i].semester in HistorySemesters(h, student);
    }
  }

  lemma SubsetCardinality<T>(a: set<T>, b: set<T>)
    requires a <= b
    ensures |a| <= |b|
  {
    assert b == a + (b - a);
    assert a * (b - a) == {};
  }

  /**
    The semester after the ones the history shows: the first semester exactly
    when the student has no history, and never beyond one per history row.
   */
  function NextSemester(h: seq<HistoryRecord>, student: StudentId): (next: int)
    ensures next == 1 <==> forall i :: 0 <= i < |h| ==> h[i].student != student
    ensures 1 <= next <= |h| + 1
  {
    HistorySemestersBound(h, student);
    HistorySemestersEmpty(h, student);
    |HistorySemesters(h, student)| + 1
  }

  /** `ChartNode.objects.filter(schema=chart, semester=sem)`, in table order. */
  function SemesterNodes(nodes: seq<ChartNode>, chart: nat, sem: int): (r: seq<ChartNode>)
    ensures |r| <= |nodes|
    ensures forall n :: n in r <==> n in nodes && n.schema == chart && n.semester == sem
  {
    if nodes == [] then []
    else
      var init := nodes[..|nodes| - 1];
      var last := nodes[|nodes| - 1];
      assert nodes == init + [last];
      SemesterNodes(init, chart, sem) + (if last.schema == chart && last.semester == sem then [last] else [])
  }

  /**
    The course a node stands for and whether it is an elective slot: its own
    course, else the first course of its group; nothing when it has neither.
   */
  function SlotCourse(node: ChartNode): Option<(CourseId, bool)>
  {
    if node.course.Some? then Some((node.course.value, false))
    else if node.courseGroup.None? then None
    else if node.courseGroup.value.courses == [] then None
    else Some((node.courseGroup.value.courses[0], true))
  }

  /** The entry appended for a course `c` of the slot. */
  function EntryFor(c: CourseId, isElective: bool, passed: set<CourseId>, next: int, chart: nat, data: ChartData): ChartRecommendation
  {
    var score := PriorityScoreOf(c, passed, next, chart, data);
    ChartRecommendation(c, score.total, score.reason, Unlocks(data.requirements, c), score.prerequisitesMet, !isElective, isElective)
  }

  /** What one node contributes: nothing for an empty slot or a passed course, else its entry. */
  function NodeEntries(node: ChartNode, passed: set<CourseId>, next: int, chart: nat, data: ChartData): seq<ChartRecommendation>
  {
    match SlotCourse(node)
    case None => []
    case Some((c, isElective)) => if c in passed then [] else [EntryFor(c, isElective, passed, next, chart, data)]
  }

  /** The list the loop builds, node by node, before sorting. */
  function BuildEntries(nodes: seq<ChartNode>, passed: set<CourseId>, next: int, chart: nat, data: ChartData)
    : (r: seq<ChartRecommendation>)
    ensures |r| <= |nodes|
  {
    if nodes == [] then []
    else
      BuildEntries(nodes[..|nodes| - 1], passed, next, chart, data)
        + NodeEntries(nodes[|nodes| - 1], passed, next, chart, data)
  }

  function PriorityKey(r: ChartRecommendation): int
  {
    r.priorityScore
  }

  /** The response of the `recommendations` action (errors carry their HTTP status through `Status`). */
  function RecommendationsView(profile: Option<Profile>, student: StudentId, history: seq<HistoryRecord>, data: ChartData)
    : Result<RecommendationsResponse, ViewError>
  {
    if profile.None? then Failure(ProfileNotFound)
    else
      var passed := PassedByGrade(history, student);
      match ParseStudentNumber(profile.value.studentNumber)
      case Failure(e) => Failure(e)
      case Success((year, major)) =>
        match FindChart(data.charts, major, year)
        case None => Failure(ChartNotFound(major, year))
        case Some(chart) =>
          var next := NextSemester(history, student);
          if next > 8 then Success(RecommendationsResponse(next, [], Some(AllSemestersDone)))
          else
            var built := BuildEntries(SemesterNodes(data.nodes, chart.id, next), passed, next, chart.id, data);
            Success(RecommendationsResponse(next, SortDesc(built, PriorityKey), None))
  }

  /** The loop of the action over the nodes of the next semester. */
  method CollectRecommendations(nodes: seq<ChartNode>, passedCourses: set<CourseId>, nextSemester: int, chart: nat, data: ChartData)
    returns (recommendations: seq<ChartRecommendation>)
    ensures recommendations == BuildEntries(nodes, passedCourses, nextSemester, chart, data)
  {
    recommendations := [];
    for i := 0 to |nodes|
      invariant recommendations == BuildEntries(nodes[..i], passedCourses, nextSemester, chart, data)
    {
      assert nodes[..i + 1][..i] == nodes[..i];
      var node := nodes[i];
      var course: CourseId;
      var isElective: bool;
      if node.course.Some? {
        course := node.course.value;
        isElective := false;
      } else {
        if node.courseGroup.None? {
          continue;
        }
        if node.courseGroup.value.courses == [] {
          continue;
        }
        course := node.courseGroup.value.courses[0];
        isElective := true;
      }
      if course in passedCourses {
        continue;
      }
      var score := CalculatePriorityScore(course, passedCourses, nextSemester, chart, data);
      var unlocked := Unlocks(data.requirements, course);
      recommendations := recommendations + [ChartRecommendation(
        course, score.total, score.reason, unlocked, score.prerequisitesMet, !isElective, isElective)];
    }
    assert nodes[..|nodes|] == nodes;
  }

  /** `DegreeChartViewSet.recommendations`. */
  method Recommendations(profile: Option<Profile>, student: StudentId, history: seq<HistoryRecord>, data: ChartData)
    returns (response: Result<RecommendationsResponse, ViewError>)
    ensures response == RecommendationsView(profile, student, history, data)
  {
    if profile.None? {
      return Failure(ProfileNotFound);
    }
    var passedCourses := PassedByGrade(history, student);
    var parsed := ParseStudentNumber(profile.value.studentNumber);
    if parsed.Failure? {
      return Failure(parsed.error);
    }
    var (entryYear, major) := parsed.value;
    var chart := FindChart(data.charts, major, entryYear);
    if chart.None? {
      return Failure(ChartNotFound(major, entryYear));
    }
    var nextSemester := NextSemester(history, student);
    if nextSemester > 8 {
      return Success(RecommendationsResponse(nextSemester, [], Some(AllSemestersDone)));
    }
    var nodes := SemesterNodes(data.nodes, chart.value.id, nextSemester);
    var recommendations := CollectRecommendations(nodes, passedCourses, nextSemester, chart.value.id, data);
    recommendations := SortDesc(recommendations, PriorityKey);
    return Success(RecommendationsResponse(nextSemester, recommendations, None));
  }

  /** Every entry built from a node list: where it comes from and what it carries. */
  lemma {:induction false} BuildEntriesFacts(nodes: seq<ChartNode>, passed: set<CourseId>, next: int, chart: nat, data: ChartData)
    ensures forall r :: r in BuildEntries(nodes, passed, next, chart, data) ==>
      && r.courseId !in passed
      && (exists n :: n in nodes && SlotCourse(n) == Some((r.courseId, r.isElective)))
      && r == EntryFor(r.courseId, r.isElective, passed, next, chart, data)
    ensures forall n :: n in nodes && SlotCourse(n).Some? && SlotCourse(n).value.0 !in passed ==>
      EntryFor(SlotCourse(n).value.0, SlotCourse(n).value.1, passed, next, chart, data) in BuildEntries(nodes, passed, next, chart, data)
  {
    if nodes != [] {
      var init := nodes[..|nodes| - 1];
      BuildEntriesFacts(init, passed, next, chart, data);
      assert nodes == init + [nodes[|nodes| - 1]];
    }
  }

  /**
    The sorted list built from a node list: as long as the built list, in
    non-increasing priority, each entry the one of a node whose slot course
    is not passed, and every such node represented.
   */
  lemma SortedEntries(nodes: seq<ChartNode>, passed: set<CourseId>, next: int, chart: nat, data: ChartData)
    ensures var recs := SortDesc(BuildEntries(nodes, passed, next, chart, data), PriorityKey);
            && |recs| == |BuildEntries(nodes, passed, next, chart, data)|
            && (forall i, j :: 0 <= i < j < |recs| ==> recs[i].priorityScore >= recs[j].priorityScore)
            && (forall r :: r in recs ==>
                  && r.courseId !in passed
                  && r == EntryFor(r.courseId, r.isElective, passed, next, chart, data)
                  && exists n :: n in nodes && SlotCourse(n) == Some((r.courseId, r.isElective)))
            && (forall n :: n in nodes && SlotCourse(n).Some? && SlotCourse(n).value.0 !in passed ==>
                  EntryFor(SlotCourse(n).value.0, SlotCourse(n).value.1, passed, next, chart, data) in recs)
  {
    var built := BuildEntries(nodes, passed, next, chart, data);
    var recs := SortDesc(built, PriorityKey);
    BuildEntriesFacts(nodes, passed, next, chart, data);
    SortDescPermutation(built, PriorityKey);
    SortDescSorted(built, PriorityKey);
    SortDescMembers(built, PriorityKey);
    forall i, j | 0 <= i < j < |recs| ensures recs[i].priorityScore >= recs[j].priorityScore {
      assert PriorityKey(recs[i]) >= PriorityKey(recs[j]);
    }
    forall n | n in nodes && SlotCourse(n).Some? && SlotCourse(n).value.0 !in passed
      ensures EntryFor(SlotCourse(n).value.0, SlotCourse(n).value.1, passed, next, chart, data) in recs
    {
      assert EntryFor(SlotCourse(n).value.0, SlotCourse(n).value.1, passed, next, chart, data) in multiset(built);
    }
  }

  /**
    A successful response below the semester cap: the entries are those of
    the chart's nodes in the next semester whose slot course is not passed,
    one per such node, each with its priority score and unlocked courses,
    marked elective exactly for elective slots, in non-increasing priority.
    At the cap the list is empty and a message is given.
   */
  lemma RecommendationsContents(profile: Option<Profile>, student: StudentId, history: seq<HistoryRecord>, data: ChartData)
    requires RecommendationsView(profile, student, history, data).Success?
    ensures var resp := RecommendationsView(profile, student, history, data).value;
            var passed := PassedByGrade(history, student);
            var chart := MyChart(profile, student, history, data.charts).value.0;
            && resp.nextSemester == NextSemester(history, student)
            && (resp.nextSemester > 8 <==> resp.message.Some?)
            && (resp.nextSemester > 8 ==> resp.recommendations == [])
            && (resp.nextSemester <= 8 ==>
                  var recs := resp.recommendations;
                  && (forall i, j :: 0 <= i < j < |recs| ==> recs[i].priorityScore >= recs[j].priorityScore)
                  && (forall r :: r in recs ==>
                        && r.courseId !in passed
                        && 0 <= r.priorityScore <= 100
                        && r.isMandatory == !r.isElective
                        && r.unlocks == Unlocks(data.requirements, r.courseId)
                        && r.priorityScore == PriorityScoreOf(r.courseId, passed, resp.nextSemester, chart.id, data).total
                        && (r.prerequisitesMet <==> RequirementsMet(data.requirements, r.courseId, passed))
                        && exists n :: n in data.nodes && n.schema == chart.id && n.semester == resp.nextSemester
                                       && SlotCourse(n) == Some((r.courseId, r.isElective)))
                  && (forall n :: n in data.nodes && n.schema == chart.id && n.semester == resp.nextSemester
                                  && SlotCourse(n).Some? && SlotCourse(n).value.0 !in passed ==>
                        exists r :: r in recs && r.courseId == SlotCourse(n).value.0 && r.isElective == SlotCourse(n).value.1))
  {
    var resp := RecommendationsView(profile, student, history, data).value;
    var passed := PassedByGrade(history, student);
    var chart := MyChart(profile, student, history, data.charts).value.0;
    if resp.nextSemester <= 8 {
      var nodes := SemesterNodes(data.nodes, chart.id, resp.nextSemester);
      SortedEntries(nodes, passed, resp.nextSemester, chart.id, data);
      var recs := resp.recommendations;
      assert recs == SortDesc(BuildEntries(nodes, passed, resp.nextSemester, chart.id, data), PriorityKey);
      forall n | n in data.nodes && n.schema == chart.id && n.semester == resp.nextSemester
                 && SlotCourse(n).Some? && SlotCourse(n).value.0 !in passed
        ensures exists r :: r in recs && r.courseId == SlotCourse(n).value.0 && r.isElective == SlotCourse(n).value.1
      {
        assert n in nodes;
        var e := EntryFor(SlotCourse(n).value.0, SlotCourse(n).value.1, passed, resp.nextSemester, chart.id, data);
        assert e in recs;
      }
    }
  }

  /** Equal priorities keep the order in which the nodes produced them (the sort is stable). */
  lemma RecommendationTiesKeepNodeOrder(
    profile: Option<Profile>, student: StudentId, history: seq<HistoryRecord>, data: ChartData, i: nat, j: nat)
    requires RecommendationsView(profile, student, history, data).Success?
    requires var recs := RecommendationsView(profile, student, history, data).value.recommendations;
             i < j < |recs| && recs[i].priorityScore == recs[j].priorityScore
    ensures var resp := RecommendationsView(profile, student, history, data).value;
            var chart := MyChart(profile, student, history, data.charts).value.0;
            Before(resp.recommendations[i], resp.recommendations[j],
                   BuildEntries(SemesterNodes(data.nodes, chart.id, resp.nextSemester),
                                PassedByGrade(history, student), resp.nextSemester, chart.id, data))
  {
    var resp := RecommendationsView(profile, student, history, data).value;
    var chart := MyChart(profile, student, history, data.charts).value.0;
    var built := BuildEntries(SemesterNodes(data.nodes, chart.id, resp.nextSemester),
                              PassedByGrade(history, student), resp.nextSemester, chart.id, data);
    SortDescKeepsTies(built, PriorityKey, i, j);
  }

  /**
    Both endpoints resolve a student the same way: they fail with the same
    error up to the chart lookup, and the action succeeds exactly when
    `my_chart` does.
   */
  lemma EndpointsAgree(profile: Option<Profile>, student: StudentId, history: seq<HistoryRecord>, data: ChartData)
    ensures var mine := MyChart(profile, student, history, data.charts);
            var recs := RecommendationsView(profile, student, history, data);
            && (mine.Success? <==> recs.Success?)
            && (mine.Failure? ==> mine.error == recs.error)
  {
  }

  /** The error responses in the order the action checks for them. */
  lemma ErrorOrder(profile: Option<Profile>, student: StudentId, history: seq<HistoryRecord>, data: ChartData)
    ensures profile.None? ==> RecommendationsView(profile, student, history, data) == Failure(ProfileNotFound)
    ensures profile.Some? && (profile.value.studentNumber.None? || |profile.value.studentNumber.value| < 5) ==>
              RecommendationsView(profile, student, history, data) == Failure(InvalidStudentNumber)
    ensures profile.Some? && profile.value.studentNumber.Some? && |profile.value.studentNumber.value| >= 5
            && PyIntOfTwo(profile.value.studentNumber.value[..2]).None? ==>
              RecommendationsView(profile, student, history, data) == Failure(ParseError)
    ensures var r := RecommendationsView(profile, student, history, data);
            r.Failure? ==> (Status(r.error) == 404 <==> profile.None? || r.error.ChartNotFound?)
  {
  }
}
