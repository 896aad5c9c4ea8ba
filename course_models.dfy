/**
  The catalogue records of the `courses` app: degree charts, courses, the
  chart/course junction rows and the prerequisite relation. The field
  validators, unique-together keys and default orderings of the Django models
  are stated as predicates over these records; the lemmas say what the
  uniqueness keys and the ordering give the code that reads the tables.
 */
module CourseModels {
  import opened Wrappers

  type CourseId = nat
  type ChartId = nat

  datatype DegreeChart = DegreeChart(id: ChartId, name: string, code: string, totalCredits: int)

  /** `total_credits` validators: between 30 and 200. */
  predicate ValidDegreeChart(d: DegreeChart)
  {
    30 <= d.totalCredits <= 200
  }

  datatype UnitType = Theory | Practical | Both

  datatype Course = Course(
    id: CourseId,
    code: string,
    name: string,
    credits: int,
    unitType: UnitType,
    semester: Option<int>,
    isMandatory: bool,
    isOffered: bool)

  /** `credits` validators: between 1 and 6. */
  predicate ValidCourse(c: Course)
  {
    1 <= c.credits <= 6
  }

  /** Course codes are unique across the catalogue. */
  predicate UniqueCourseCodes(courses: seq<Course>)
  {
    forall i, j :: 0 <= i < j < |courses| ==> courses[i].code != courses[j].code
  }

  /** The credits of a list of courses, added up. */
  function TotalCredits(courses: seq<Course>): int
  {
    if courses == [] then 0 else courses[0].credits + TotalCredits(courses[1..])
  }

  /** Courses that pass the credit validators carry between one and six credits each. */
  lemma {:induction false} TotalCreditsBounds(courses: seq<Course>)
    requires forall i :: 0 <= i < |courses| ==> ValidCourse(courses[i])
    ensures |courses| <= TotalCredits(courses) <= 6 * |courses|
  {
    if courses != [] {
      assert ValidCourse(courses[0]);
      assert forall i :: 0 <= i < |courses[1..]| ==> ValidCourse(courses[1..][i]) by {
        forall i | 0 <= i < |courses[1..]| ensures ValidCourse(courses[1..][i]) {
          assert courses[1..][i] == courses[i + 1];
        }
      }
      TotalCreditsBounds(courses[1..]);
    }
  }

  /**
    With both validators in force, reaching a chart's total credits takes at
    least five courses, and any 200 courses reach it.
   */
  lemma CoursesToMeetCredits(d: DegreeChart, courses: seq<Course>)
    requires ValidDegreeChart(d)
    requires forall i :: 0 <= i < |courses| ==> ValidCourse(courses[i])
    ensures TotalCredits(courses) >= d.totalCredits ==> |courses| >= 5
    ensures |courses| >= 200 ==> TotalCredits(courses) >= d.totalCredits
  {
    TotalCreditsBounds(courses);
  }

  /** A row of the chart/course junction table. */
  datatype ChartCourse = ChartCourse(
    degreeChart: ChartId,
    course: CourseId,
    isMandatory: bool,
    recommendedSemester: Option<int>)

  /** `recommended_semester` is either null or between 1 and 8. */
  predicate ValidChartCourse(row: ChartCourse)
  {
    row.recommendedSemester.None? || 1 <= row.recommendedSemester.value <= 8
  }

  /** unique_together ('degree_chart', 'course'): a course appears at most once per chart. */
  predicate UniqueChartCourses(rows: seq<ChartCourse>)
  {
    forall i, j :: 0 <= i < j < |rows| ==>
      rows[i].degreeChart != rows[j].degreeChart || rows[i].course != rows[j].course
  }

  /**
    The ordering key ('recommended_semester', 'course__code'). Where a null
    semester falls is the database's choice; this model places it first.
   */
  datatype ChartKey = ChartKey(semester: Option<int>, code: string)

  predicate SemesterLe(a: Option<int>, b: Option<int>)
  {
    a.None? || (b.Some? && a.value <= b.value)
  }

  /** Code-point string order; the model takes this as the database collation for course codes. */
  predicate StringLe(a: string, b: string)
  {
    if a == [] then true
    else if b == [] then false
    else if a[0] != b[0] then a[0] < b[0]
    else StringLe(a[1..], b[1..])
  }

  predicate ChartKeyLe(a: ChartKey, b: ChartKey)
  {
    if a.semester == b.semester then StringLe(a.code, b.code) else SemesterLe(a.semester, b.semester)
  }

  /** Code-point order compares any two codes. */
  lemma {:induction false} StringLeTotal(a: string, b: string)
    ensures StringLe(a, b) || StringLe(b, a)
  {
    if a != [] && b != [] && a[0] == b[0] {
      StringLeTotal(a[1..], b[1..]);
    }
  }

  /** The chart ordering compares any two keys, so the listed order is determined up to equal keys. */
  lemma ChartKeyLeTotal(a: ChartKey, b: ChartKey)
    ensures ChartKeyLe(a, b) || ChartKeyLe(b, a)
  {
    StringLeTotal(a.code, b.code);
  }

  function RowKey(row: ChartCourse, codes: map<CourseId, string>): ChartKey
  {
    ChartKey(row.recommendedSemester, if row.course in codes then codes[row.course] else "")
  }

  /** Rows listed in the model's default ordering. */
  predicate ChartOrdered(rows: seq<ChartCourse>, codes: map<CourseId, string>)
  {
    forall i, j :: 0 <= i < j < |rows| ==> ChartKeyLe(RowKey(rows[i], codes), RowKey(rows[j], codes))
  }

  /**
    `ChartCourse.objects.filter(degree_chart=chart).values_list('course_id')`:
    the course ids of one chart, in table order.
   */
  function ChartCourseIds(rows: seq<ChartCourse>, chart: ChartId): (ids: seq<CourseId>)
    ensures |ids| <= |rows|
    ensures forall c :: c in ids <==> exists i :: 0 <= i < |rows| && rows[i].degreeChart == chart && rows[i].course == c
  {
    if rows == [] then []
    else
      var rest := ChartCourseIds(rows[1..], chart);
      assert forall c :: c in rest <==> exists i :: 1 <= i < |rows| && rows[i].degreeChart == chart && rows[i].course == c by {
        forall c | c in rest ensures exists i :: 1 <= i < |rows| && rows[i].degreeChart == chart && rows[i].course == c {
          var k :| 0 <= k < |rows[1..]| && rows[1..][k].degreeChart == chart && rows[1..][k].course == c;
          assert rows[k + 1] == rows[1..][k];
        }
        forall c | exists i :: 1 <= i < |rows| && rows[i].degreeChart == chart && rows[i].course == c ensures c in rest {
          var k :| 1 <= k < |rows| && rows[k].degreeChart == chart && rows[k].course == c;
          assert rows[1..][k - 1] == rows[k];
        }
      }
      if rows[0].degreeChart == chart then [rows[0].course] + rest else rest
  }

  /** The rows of one chart, in table order. */
  function ChartRows(rows: seq<ChartCourse>, chart: ChartId): seq<ChartCourse>
  {
    if rows == [] then []
    else (if rows[0].degreeChart == chart then [rows[0]] else []) + ChartRows(rows[1..], chart)
  }

  predicate Distinct<T(==)>(s: seq<T>)
  {
    forall i, j :: 0 <= i < j < |s| ==> s[i] != s[j]
  }

  /** The chart's course ids are its rows projected to their course, position by position. */
  lemma {:induction false} ChartRowsIds(rows: seq<ChartCourse>, chart: ChartId)
    ensures |ChartCourseIds(rows, chart)| == |ChartRows(rows, chart)|
    ensures forall i :: 0 <= i < |ChartRows(rows, chart)| ==> ChartCourseIds(rows, chart)[i] == ChartRows(rows, chart)[i].course
    ensures forall r :: r in ChartRows(rows, chart) ==> r in rows && r.degreeChart == chart
  {
    if rows != [] {
      ChartRowsIds(rows[1..], chart);
      var ids := ChartCourseIds(rows, chart);
      var restIds := ChartCourseIds(rows[1..], chart);
      var rs := ChartRows(rows, chart);
      var restRows := ChartRows(rows[1..], chart);
      if rows[0].degreeChart == chart {
        assert ids == [rows[0].course] + restIds;
        assert rs == [rows[0]] + restRows;
        forall i | 0 <= i < |rs| ensures ids[i] == rs[i].course {
          if i > 0 {
            assert ids[i] == restIds[i - 1] && rs[i] == restRows[i - 1];
          }
        }
      } else {
        assert ids == restIds;
        assert rs == restRows;
      }
      forall r | r in rs ensures r in rows && r.degreeChart == chart {
        if r != rows[0] {
          assert r in restRows;
        }
      }
    }
  }

  /** unique_together on (degree_chart, course) makes the chart's course list free of repeats. */
  lemma {:induction false} ChartCourseIdsDistinct(rows: seq<ChartCourse>, chart: ChartId)
    requires UniqueChartCourses(rows)
    ensures Distinct(ChartCourseIds(rows, chart))
  {
    if rows != [] {
      assert UniqueChartCourses(rows[1..]) by {
        forall i, j | 0 <= i < j < |rows[1..]|
          ensures rows[1..][i].degreeChart != rows[1..][j].degreeChart || rows[1..][i].course != rows[1..][j].course
        {
          assert rows[1..][i] == rows[i + 1] && rows[1..][j] == rows[j + 1];
        }
      }
      ChartCourseIdsDistinct(rows[1..], chart);
      var rest := ChartCourseIds(rows[1..], chart);
      if rows[0].degreeChart == chart {
        assert rows[0].course !in rest;
      }
    }
  }

  /** Filtering rows ordered by ('recommended_semester', 'course__code') down to one chart keeps them ordered. */
  lemma {:induction false} ChartRowsOrdered(rows: seq<ChartCourse>, chart: ChartId, codes: map<CourseId, string>)
    requires ChartOrdered(rows, codes)
    ensures ChartOrdered(ChartRows(rows, chart), codes)
    ensures forall r :: r in ChartRows(rows, chart) ==> r in rows
  {
    if rows != [] {
      assert ChartOrdered(rows[1..], codes) by {
        forall i, j | 0 <= i < j < |rows[1..]| ensures ChartKeyLe(RowKey(rows[1..][i], codes), RowKey(rows[1..][j], codes)) {
          assert rows[1..][i] == rows[i + 1] && rows[1..][j] == rows[j + 1];
        }
      }
      ChartRowsOrdered(rows[1..], chart, codes);
      var rest := ChartRows(rows[1..], chart);
      if rows[0].degreeChart == chart {
        var r := [rows[0]] + rest;
        forall i, j | 0 <= i < j < |r| ensures ChartKeyLe(RowKey(r[i], codes), RowKey(r[j], codes)) {
          if i == 0 {
            assert r[j] in rows[1..];
            var m :| 0 <= m < |rows[1..]| && rows[1..][m] == r[j];
            assert rows[m + 1] == r[j];
          } else {
            assert r[i] == rest[i - 1] && r[j] == rest[j - 1];
          }
        }
      }
    }
  }

  /** `codes` gives every catalogue course its code, as the `course__code` join reads it. */
  predicate CodesOf(courses: seq<Course>, codes: map<CourseId, string>)
  {
    forall k :: 0 <= k < |courses| ==> courses[k].id in codes && codes[courses[k].id] == courses[k].code
  }

  /** Every row names a course of the catalogue (the foreign key). */
  predicate RowsInCatalogue(rows: seq<ChartCourse>, courses: seq<Course>)
  {
    forall k :: 0 <= k < |rows| ==> exists m :: 0 <= m < |courses| && courses[m].id == rows[k].course
  }

  /**
    With unique course codes and one row per (chart, course), two rows of
    one chart never share an ordering key, so the default ordering leaves
    no ties inside a chart.
   */
  lemma ChartKeysDistinct(courses: seq<Course>, codes: map<CourseId, string>, rows: seq<ChartCourse>, i: nat, j: nat)
    requires UniqueCourseCodes(courses) && CodesOf(courses, codes)
    requires UniqueChartCourses(rows) && RowsInCatalogue(rows, courses)
    requires i < j < |rows| && rows[i].degreeChart == rows[j].degreeChart
    ensures RowKey(rows[i], codes) != RowKey(rows[j], codes)
  {
    var mi :| 0 <= mi < |courses| && courses[mi].id == rows[i].course;
    var mj :| 0 <= mj < |courses| && courses[mj].id == rows[j].course;
    assert rows[i].course != rows[j].course;
    assert mi != mj;
    assert courses[mi].code != courses[mj].code by {
      if mi < mj {
        assert courses[mi].code != courses[mj].code;
      } else {
        assert courses[mj].code != courses[mi].code;
      }
    }
  }

  lemma {:induction false} StringLeAntisymmetric(a: string, b: string)
    requires StringLe(a, b) && StringLe(b, a)
    ensures a == b
  {
    if a != [] {
      StringLeAntisymmetric(a[1..], b[1..]);
      assert a == [a[0]] + a[1..] && b == [b[0]] + b[1..];
    }
  }

  lemma ChartKeyLeAntisymmetric(a: ChartKey, b: ChartKey)
    requires ChartKeyLe(a, b) && ChartKeyLe(b, a)
    ensures a == b
  {
    if a.semester == b.semester {
      StringLeAntisymmetric(a.code, b.code);
    }
  }

  /**
    In the ordered table, of two rows of one chart the earlier has the
    strictly smaller key: the ordering alone fixes the order of a chart's rows.
   */
  lemma ChartOrderStrict(courses: seq<Course>, codes: map<CourseId, string>, rows: seq<ChartCourse>, i: nat, j: nat)
    requires UniqueCourseCodes(courses) && CodesOf(courses, codes)
    requires UniqueChartCourses(rows) && RowsInCatalogue(rows, courses) && ChartOrdered(rows, codes)
    requires i < j < |rows| && rows[i].degreeChart == rows[j].degreeChart
    ensures ChartKeyLe(RowKey(rows[i], codes), RowKey(rows[j], codes))
    ensures !ChartKeyLe(RowKey(rows[j], codes), RowKey(rows[i], codes))
  {
    ChartKeysDistinct(courses, codes, rows, i, j);
    if ChartKeyLe(RowKey(rows[j], codes), RowKey(rows[i], codes)) {
      ChartKeyLeAntisymmetric(RowKey(rows[i], codes), RowKey(rows[j], codes));
    }
  }

  /**
    Rows within the `recommended_semester` validators, listed in the default
    ordering: once a row has a semester every later row has one, no smaller,
    and all of them lie in 1..8.
   */
  lemma OrderedSemesters(rows: seq<ChartCourse>, codes: map<CourseId, string>, i: nat, j: nat)
    requires ChartOrdered(rows, codes)
    requires forall k :: 0 <= k < |rows| ==> ValidChartCourse(rows[k])
    requires i < j < |rows| && rows[i].recommendedSemester.Some?
    ensures rows[j].recommendedSemester.Some?
    ensures 1 <= rows[i].recommendedSemester.value <= rows[j].recommendedSemester.value <= 8
  {
    assert ChartKeyLe(RowKey(rows[i], codes), RowKey(rows[j], codes));
    assert ValidChartCourse(rows[i]) && ValidChartCourse(rows[j]);
  }

  /** A row of the prerequisite table: `prerequisiteCourse` must be passed before `course`. */
  datatype Prerequisite = Prerequisite(
    course: CourseId,
    prerequisiteCourse: CourseId,
    isCorequisite: bool,
    minGrade: string)

  /** A new row is a hard prerequisite (is_corequisite defaults to False) with minimum grade 'D'. */
  function NewPrerequisite(course: CourseId, prerequisiteCourse: CourseId): (e: Prerequisite)
    ensures IsHard(e) && e.course == course && e.prerequisiteCourse == prerequisiteCourse
  {
    Prerequisite(course, prerequisiteCourse, false, "D")
  }

  /** An edge is hard unless it is flagged as a co-requisite. */
  predicate IsHard(e: Prerequisite)
  {
    !e.isCorequisite
  }

  /** unique_together ('course', 'prerequisite_course'): at most one row per ordered pair. */
  predicate UniquePrerequisites(edges: seq<Prerequisite>)
  {
    forall i, j :: 0 <= i < j < |edges| ==>
      (edges[i].course, edges[i].prerequisiteCourse) != (edges[j].course, edges[j].prerequisiteCourse)
  }

  function EdgePairs(edges: seq<Prerequisite>): seq<(CourseId, CourseId)>
  {
    seq(|edges|, i requires 0 <= i < |edges| => (edges[i].course, edges[i].prerequisiteCourse))
  }

  /** A sequence without repeats has as many elements as its set. */
  lemma {:induction false} DistinctCardinality<T>(s: seq<T>)
    requires Distinct(s)
    ensures |set x | x in s| == |s|
  {
    if s != [] {
      assert Distinct(s[1..]) by {
        forall i, j | 0 <= i < j < |s[1..]| ensures s[1..][i] != s[1..][j] {
          assert s[1..][i] == s[i + 1] && s[1..][j] == s[j + 1];
        }
      }
      DistinctCardinality(s[1..]);
      assert (set x | x in s) == (set x | x in s[1..]) + {s[0]};
      assert s[0] !in (set x | x in s[1..]);
    }
  }

  /** With the unique key, the prerequisite table is a set of edges: as many distinct pairs as rows. */
  lemma PrerequisiteRowsAreEdgeSet(edges: seq<Prerequisite>)
    requires UniquePrerequisites(edges)
    ensures |set p | p in EdgePairs(edges)| == |edges|
  {
    DistinctCardinality(EdgePairs(edges));
  }
}
