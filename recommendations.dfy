/**
  The recommendation engine: which courses of a degree chart a student may
  take next, how important each of them is, and the ranked, truncated list
  that is returned. The database queries of the engine become inputs: the
  chart/course rows, the prerequisite rows, the passed set and the set of
  courses already selected for the semester.
 */
module Recommendations {
  import opened PythonBuiltins
  import opened CourseModels
  import StudentModels

  // ---------------------------------------------------------------------------
  // Eligibility
  // ---------------------------------------------------------------------------

  /** Every hard edge into `c` starts at a passed course; co-requisite edges never block. */
  predicate PrerequisitesMet(edges: seq<Prerequisite>, c: CourseId, passed: set<CourseId>)
  {
    forall e :: e in edges && e.course == c && IsHard(e) ==> e.prerequisiteCourse in passed
  }

  /** `Prerequisite.objects.filter(course=c)`: the rows into `c`, in table order. */
  function EdgesInto(edges: seq<Prerequisite>, c: CourseId): (r: seq<Prerequisite>)
    ensures forall e :: e in r <==> e in edges && e.course == c
  {
    if edges == [] then []
    else
      var rest := EdgesInto(edges[1..], c);
      assert edges == [edges[0]] + edges[1..];
      (if edges[0].course == c then [edges[0]] else []) + rest
  }

  /** `_check_prerequisites`: walk the rows into the course, failing at the first unpassed hard one. */
  method CheckPrerequisites(course: CourseId, edges: seq<Prerequisite>, passed: set<CourseId>) returns (ok: bool)
    ensures ok <==> PrerequisitesMet(edges, course, passed)
  {
    var prerequisites := EdgesInto(edges, course);
    for i := 0 to |prerequisites|
      invariant forall j :: 0 <= j < i && IsHard(prerequisites[j]) ==> prerequisites[j].prerequisiteCourse in passed
    {
      var prereq := prerequisites[i];
      if prereq.isCorequisite {
        continue;
      }
      if prereq.prerequisiteCourse !in passed {
        return false;
      }
    }
    return true;
  }

  /**
    The engine's candidate list: the chart's course ids in order, without the
    selected ones and without those whose hard prerequisites are not all passed.
    Passed courses are not removed.
   */
  function Available(ids: seq<CourseId>, edges: seq<Prerequisite>, passed: set<CourseId>, selected: set<CourseId>): (av: seq<CourseId>)
    ensures |av| <= |ids|
    ensures forall c :: c in av <==> c in ids && c !in selected && PrerequisitesMet(edges, c, passed)
  {
    if ids == [] then []
    else
      var init := ids[..|ids| - 1];
      var last := ids[|ids| - 1];
      assert ids == init + [last];
      Available(init, edges, passed, selected) +
        (if last !in selected && PrerequisitesMet(edges, last, passed) then [last] else [])
  }

  /** One more chart id extends the candidate list by that id when it is eligible. */
  lemma AvailableStep(ids: seq<CourseId>, i: nat, edges: seq<Prerequisite>, passed: set<CourseId>, selected: set<CourseId>)
    requires i < |ids|
    ensures Available(ids[..i + 1], edges, passed, selected)
            == Available(ids[..i], edges, passed, selected)
               + (if ids[i] !in selected && PrerequisitesMet(edges, ids[i], passed) then [ids[i]] else [])
  {
    assert ids[..i + 1][..i] == ids[..i];
  }

  /** `_get_available_courses`. */
  method GetAvailableCourses(
    rows: seq<ChartCourse>, chart: ChartId, edges: seq<Prerequisite>,
    passed: set<CourseId>, selected: set<CourseId>)
    returns (available: seq<CourseId>)
    ensures available == Available(ChartCourseIds(rows, chart), edges, passed, selected)
  {
    var chartCourses := ChartCourseIds(rows, chart);
    available := [];
    for i := 0 to |chartCourses|
      invariant available == Available(chartCourses[..i], edges, passed, selected)
    {
      AvailableStep(chartCourses, i, edges, passed, selected);
      var courseId := chartCourses[i];
      if courseId in selected {
        continue;
      }
      var ok := CheckPrerequisites(courseId, edges, passed);
      if ok {
        available := available + [courseId];
      }
    }
    assert chartCourses[..|chartCourses|] == chartCourses;
  }

  /** The candidate order is the chart order: the list is a filter of the chart's ids. */
  lemma {:induction false} AvailableKeepsOrder(
    ids: seq<CourseId>, edges: seq<Prerequisite>, passed: set<CourseId>, selected: set<CourseId>, x: CourseId, y: CourseId)
    requires Before(x, y, Available(ids, edges, passed, selected))
    ensures Before(x, y, ids)
  {
    var init := ids[..|ids| - 1];
    var last := ids[|ids| - 1];
    var a := Available(init, edges, passed, selected);
    var av := Available(ids, edges, passed, selected);
    var p, q :| 0 <= p < q < |av| && av[p] == x && av[q] == y;
    if q < |a| {
      assert a[p] == x && a[q] == y;
      AvailableKeepsOrder(init, edges, passed, selected, x, y);
      var i, j :| 0 <= i < j < |init| && init[i] == x && init[j] == y;
      assert ids[i] == x && ids[j] == y;
    } else {
      assert y == last && a[p] == x && x in init;
      var i :| 0 <= i < |init| && init[i] == x;
      assert ids[i] == x && ids[|ids| - 1] == y;
    }
  }

  /**
    A course without hard prerequisite rows is a candidate whatever has been
    passed, unless it is selected; a course with an unpassed hard prerequisite
    is never one; and passing a course can only add candidates.
   */
  lemma EligibilityFacts(
    ids: seq<CourseId>, edges: seq<Prerequisite>, passed: set<CourseId>, more: set<CourseId>,
    selected: set<CourseId>, c: CourseId)
    requires passed <= more
    ensures (forall e :: e in edges && e.course == c ==> !IsHard(e)) ==>
              (c in Available(ids, edges, passed, selected) <==> c in ids && c !in selected)
    ensures (exists e :: e in edges && e.course == c && IsHard(e) && e.prerequisiteCourse !in passed) ==>
              c !in Available(ids, edges, passed, selected)
    ensures c in Available(ids, edges, passed, selected) ==> c in Available(ids, edges, more, selected)
    ensures c in selected ==> c !in Available(ids, edges, passed, selected)
  {
  }

  /**
    Passing `x` unlocks `y`: if every hard prerequisite of `y` other than `x`
    is passed, `y` becomes a candidate once `x` is passed (it was not one
    before when `x` is a hard prerequisite of `y` that had not been passed).
   */
  lemma PassingUnlocks(
    ids: seq<CourseId>, edges: seq<Prerequisite>, passed: set<CourseId>, selected: set<CourseId>,
    x: CourseId, y: CourseId)
    requires y in ids && y !in selected
    requires forall e :: e in edges && e.course == y && IsHard(e) ==> e.prerequisiteCourse in passed + {x}
    ensures y in Available(ids, edges, passed + {x}, selected)
    ensures (x !in passed && exists e :: e in edges && IsHard(e) && e.course == y && e.prerequisiteCourse == x)
            ==> y !in Available(ids, edges, passed, selected)
  {
  }

  // ---------------------------------------------------------------------------
  // Importance
  // ---------------------------------------------------------------------------

  /**
    `Prerequisite.objects.filter(prerequisite_course=c, is_corequisite=False)
    .values_list('course_id')`: the direct hard dependents of `c`, one entry per row.
   */
  function DependentsOf(edges: seq<Prerequisite>, c: CourseId): (ds: seq<CourseId>)
    ensures |ds| <= |edges|
    ensures forall d :: d in ds <==> exists e :: e in edges && IsHard(e) && e.prerequisiteCourse == c && e.course == d
  {
    if edges == [] then []
    else
      var init := edges[..|edges| - 1];
      var last := edges[|edges| - 1];
      assert edges == init + [last];
      DependentsOf(init, c) + (if IsHard(last) && last.prerequisiteCourse == c then [last.course] else [])
  }

  /** How many entries of `s` lie in `xs`. */
  function CountIn(s: seq<CourseId>, xs: set<CourseId>): (n: nat)
    ensures n <= |s|
    ensures n == 0 <==> forall i :: 0 <= i < |s| ==> s[i] !in xs
  {
    if s == [] then 0
    else CountIn(s[..|s| - 1], xs) + (if s[|s| - 1] in xs then 1 else 0)
  }

  /** `_count_indirect_dependents`: the direct hard dependents that are candidates themselves. */
  method CountIndirectDependents(course: CourseId, available: seq<CourseId>, edges: seq<Prerequisite>) returns (count: nat)
    ensures count == CountIn(DependentsOf(edges, course), set c | c in available)
    ensures count <= |DependentsOf(edges, course)|
  {
    count := 0;
    var availableIds := set c | c in available;
    var direct := DependentsOf(edges, course);
    for i := 0 to |direct|
      invariant count == CountIn(direct[..i], availableIds)
    {
      assert direct[..i + 1][..i] == direct[..i];
      if direct[i] in availableIds {
        count := count + 1;
      }
    }
    assert direct[..|direct|] == direct;
  }

  /**
    The importance score: the number of hard dependent rows plus how many of
    those dependents are candidates. So it lies between the direct count and
    twice it, and is 0 exactly for a course nothing depends on.
   */
  function ImportanceScore(edges: seq<Prerequisite>, c: CourseId, available: seq<CourseId>): (score: nat)
    ensures |DependentsOf(edges, c)| <= score <= 2 * |DependentsOf(edges, c)|
    ensures score == 0 <==> DependentsOf(edges, c) == []
  {
    |DependentsOf(edges, c)| + CountIn(DependentsOf(edges, c), set x | x in available)
  }

  /** `_calculate_importance_score`. */
  method CalculateImportanceScore(course: CourseId, available: seq<CourseId>, edges: seq<Prerequisite>) returns (score: nat)
    ensures score == ImportanceScore(edges, course, available)
  {
    var directDependents := |DependentsOf(edges, course)|;
    var indirectDependents := CountIndirectDependents(course, available, edges);
    score := directDependents + indirectDependents;
  }

  /** A course that more than doubles another's direct dependents outranks it; one with dependents outranks one without. */
  lemma MoreDependentsOutrank(edges: seq<Prerequisite>, x: CourseId, z: CourseId, available: seq<CourseId>)
    requires |DependentsOf(edges, x)| > 2 * |DependentsOf(edges, z)|
    ensures ImportanceScore(edges, x, available) > ImportanceScore(edges, z, available)
  {
  }

  /** With unique (course, prerequisite) rows, the direct count is the number of distinct dependents. */
  lemma {:induction false} DirectCountIsDistinct(edges: seq<Prerequisite>, c: CourseId)
    requires UniquePrerequisites(edges)
    ensures Distinct(DependentsOf(edges, c))
    ensures |set d: CourseId | d in DependentsOf(edges, c)| == |DependentsOf(edges, c)|
  {
    if edges != [] {
      var init := edges[..|edges| - 1];
      var last := edges[|edges| - 1];
      assert UniquePrerequisites(init) by {
        forall i, j | 0 <= i < j < |init|
          ensures (init[i].course, init[i].prerequisiteCourse) != (init[j].course, init[j].prerequisiteCourse)
        {
          assert init[i] == edges[i] && init[j] == edges[j];
        }
      }
      DirectCountIsDistinct(init, c);
      var ds := DependentsOf(init, c);
      if IsHard(last) && last.prerequisiteCourse == c {
        assert last.course !in ds by {
          forall e | e in init && IsHard(e) && e.prerequisiteCourse == c
            ensures e.course != last.course
          {
            var i :| 0 <= i < |init| && init[i] == e;
            assert edges[i] == e;
          }
        }
        var r := ds + [last.course];
        assert DependentsOf(edges, c) == r;
        forall i, j | 0 <= i < j < |r| ensures r[i] != r[j] {
          if j < |ds| {
            assert r[i] == ds[i] && r[j] == ds[j];
          } else {
            assert r[i] in ds;
          }
        }
      } else {
        assert DependentsOf(edges, c) == ds;
      }
    }
    var all := DependentsOf(edges, c);
    DistinctCardinality(all);
    assert (set d: CourseId | d in all) == (set x | x in all);
  }

  // ---------------------------------------------------------------------------
  // Ranking
  // ---------------------------------------------------------------------------

  /** One entry of the returned list: the course and its importance score. */
  datatype Recommendation = Recommendation(id: CourseId, importanceScore: nat)

  /** The sort key: the score. The secondary key of the source is always 0 (see README). */
  function ScoreKey(r: Recommendation): int
  {
    r.importanceScore
  }

  /** Each candidate with its score, in candidate order. */
  function ScoreAll(available: seq<CourseId>, edges: seq<Prerequisite>): seq<Recommendation>
  {
    seq(|available|, i requires 0 <= i < |available| =>
      Recommendation(available[i], ImportanceScore(edges, available[i], available)))
  }

  /** The `limit` that `get_recommendations` uses when its caller gives none. */
  const DefaultLimit: int := 10

  /** What `get_recommendations` returns: the scored candidates, stably sorted by descending score, cut at `limit`. */
  function EngineRecommendations(
    rows: seq<ChartCourse>, chart: ChartId, edges: seq<Prerequisite>,
    passed: set<CourseId>, selected: set<CourseId>, limit: int): seq<Recommendation>
  {
    var available := Available(ChartCourseIds(rows, chart), edges, passed, selected);
    SliceTo(SortDesc(ScoreAll(available, edges), ScoreKey), limit)
  }

  /** The scoring loop of `get_recommendations`. */
  method ScoreCourses(availableCourses: seq<CourseId>, edges: seq<Prerequisite>) returns (scoredCourses: seq<Recommendation>)
    ensures scoredCourses == ScoreAll(availableCourses, edges)
  {
    ghost var all := ScoreAll(availableCourses, edges);
    scoredCourses := [];
    for i := 0 to |availableCourses|
      invariant scoredCourses == all[..i]
    {
      var score := CalculateImportanceScore(availableCourses[i], availableCourses, edges);
      assert all[i] == Recommendation(availableCourses[i], score);
      scoredCourses := scoredCourses + [Recommendation(availableCourses[i], score)];
      assert all[..i + 1] == all[..i] + [all[i]];
    }
    assert all[..|availableCourses|] == all;
  }

  /** `get_recommendations`. */
  method GetRecommendations(
    rows: seq<ChartCourse>, chart: ChartId, edges: seq<Prerequisite>,
    passed: set<CourseId>, selected: set<CourseId>, limit: int)
    returns (recommendations: seq<Recommendation>)
    ensures recommendations == EngineRecommendations(rows, chart, edges, passed, selected, limit)
  {
    var availableCourses := GetAvailableCourses(rows, chart, edges, passed, selected);
    var scoredCourses := ScoreCourses(availableCourses, edges);
    var sorted := SortDesc(scoredCourses, ScoreKey);
    recommendations := SliceTo(sorted, limit);
  }

  /**
    The returned list: no longer than `limit` (for a non-negative limit) nor
    than the candidate list, in non-increasing score order, and every entry is
    a candidate carrying its importance score, so never a selected course.
   */
  lemma RecommendationsShape(
    rows: seq<ChartCourse>, chart: ChartId, edges: seq<Prerequisite>,
    passed: set<CourseId>, selected: set<CourseId>, limit: int)
    ensures var recs := EngineRecommendations(rows, chart, edges, passed, selected, limit);
            var available := Available(ChartCourseIds(rows, chart), edges, passed, selected);
            && |recs| <= |available|
            && (limit >= 0 ==> |recs| == if limit <= |available| then limit else |available|)
            && (limit < 0 ==> |recs| == if |available| + limit >= 0 then |available| + limit else 0)
            && (forall i, j :: 0 <= i < j < |recs| ==> recs[i].importanceScore >= recs[j].importanceScore)
            && (forall i :: 0 <= i < |recs| ==>
                  && recs[i].id in available
                  && recs[i].id !in selected
                  && PrerequisitesMet(edges, recs[i].id, passed)
                  && recs[i].importanceScore == ImportanceScore(edges, recs[i].id, available))
  {
    var available := Available(ChartCourseIds(rows, chart), edges, passed, selected);
    var scored := ScoreAll(available, edges);
    var sorted := SortDesc(scored, ScoreKey);
    var recs := SliceTo(sorted, limit);
    SortDescPermutation(scored, ScoreKey);
    SortDescSorted(scored, ScoreKey);
    SortDescMembers(scored, ScoreKey);
    forall i | 0 <= i < |recs|
      ensures recs[i].id in available && recs[i].importanceScore == ImportanceScore(edges, recs[i].id, available)
    {
      assert recs[i] == sorted[i];
      var k :| 0 <= k < |scored| && scored[k] == sorted[i];
    }
    forall i, j | 0 <= i < j < |recs| ensures recs[i].importanceScore >= recs[j].importanceScore {
      assert recs[i] == sorted[i] && recs[j] == sorted[j];
      assert ScoreKey(sorted[i]) >= ScoreKey(sorted[j]);
    }
  }
  /** A course the student has selected for the semester is never among that semester's recommendations. */
  lemma SelectedNeverRecommended(
    rows: seq<ChartCourse>, chart: ChartId, edges: seq<Prerequisite>, passed: set<CourseId>,
    selections: seq<StudentModels.Selection>, student: StudentModels.StudentId, semester: string, limit: int, i: nat)
    requires i < |selections| && selections[i].student == student && selections[i].semester == semester
    ensures var recs := EngineRecommendations(rows, chart, edges, passed, StudentModels.SelectedFor(selections, student, semester), limit);
            forall j :: 0 <= j < |recs| ==> recs[j].id != selections[i].course
  {
    var selected := StudentModels.SelectedFor(selections, student, semester);
    assert selections[i].course in selected;
    RecommendationsShape(rows, chart, edges, passed, selected, limit);
  }

  /** Without an explicit limit the list holds the ten best candidates, or all of them when there are fewer. */
  lemma DefaultLimitShape(
    rows: seq<ChartCourse>, chart: ChartId, edges: seq<Prerequisite>,
    passed: set<CourseId>, selected: set<CourseId>)
    ensures var available := Available(ChartCourseIds(rows, chart), edges, passed, selected);
            |EngineRecommendations(rows, chart, edges, passed, selected, DefaultLimit)|
              == if |available| < 10 then |available| else 10
  {
    RecommendationsShape(rows, chart, edges, passed, selected, DefaultLimit);
  }


  /**
    A candidate scoring strictly more than an entry of the list is in the list,
    ahead of that entry.
   */
  lemma HigherScoreComesFirst(
    rows: seq<ChartCourse>, chart: ChartId, edges: seq<Prerequisite>,
    passed: set<CourseId>, selected: set<CourseId>, limit: int, x: CourseId, j: nat)
    requires j < |EngineRecommendations(rows, chart, edges, passed, selected, limit)|
    requires x in Available(ChartCourseIds(rows, chart), edges, passed, selected)
    requires ImportanceScore(edges, x, Available(ChartCourseIds(rows, chart), edges, passed, selected))
             > EngineRecommendations(rows, chart, edges, passed, selected, limit)[j].importanceScore
    ensures exists i :: 0 <= i < j && EngineRecommendations(rows, chart, edges, passed, selected, limit)[i].id == x
  {
    var available := Available(ChartCourseIds(rows, chart), edges, passed, selected);
    var scored := ScoreAll(available, edges);
    var sorted := SortDesc(scored, ScoreKey);
    var recs := SliceTo(sorted, limit);
    var k :| 0 <= k < |available| && available[k] == x;
    assert scored[k] in scored;
    assert recs[j] == sorted[j];
    SortDescHigherFirst(scored, ScoreKey, scored[k], j);
    var p :| 0 <= p < j && sorted[p] == scored[k];
    assert recs[p] == sorted[p];
  }

  /** MATH101-before-HIST101: a candidate with dependents comes before every listed candidate without any. */
  lemma FoundationalCoursesFirst(
    rows: seq<ChartCourse>, chart: ChartId, edges: seq<Prerequisite>,
    passed: set<CourseId>, selected: set<CourseId>, limit: int, x: CourseId, j: nat)
    requires j < |EngineRecommendations(rows, chart, edges, passed, selected, limit)|
    requires x in Available(ChartCourseIds(rows, chart), edges, passed, selected)
    requires DependentsOf(edges, x) != []
    requires DependentsOf(edges, EngineRecommendations(rows, chart, edges, passed, selected, limit)[j].id) == []
    ensures exists i :: 0 <= i < j && EngineRecommendations(rows, chart, edges, passed, selected, limit)[i].id == x
  {
    var recs := EngineRecommendations(rows, chart, edges, passed, selected, limit);
    var available := Available(ChartCourseIds(rows, chart), edges, passed, selected);
    RecommendationsShape(rows, chart, edges, passed, selected, limit);
    assert recs[j].importanceScore == ImportanceScore(edges, recs[j].id, available) == 0;
    HigherScoreComesFirst(rows, chart, edges, passed, selected, limit, x, j);
  }

  /**
    Ties keep chart order: two entries with the same score appear in the order
    of the chart's course list, so (with the table in its default ordering)
    by recommended semester and then by course code.
   */
  lemma TiesKeepChartOrder(
    rows: seq<ChartCourse>, chart: ChartId, edges: seq<Prerequisite>,
    passed: set<CourseId>, selected: set<CourseId>, limit: int, i: nat, j: nat)
    requires i < j < |EngineRecommendations(rows, chart, edges, passed, selected, limit)|
    requires EngineRecommendations(rows, chart, edges, passed, selected, limit)[i].importanceScore
             == EngineRecommendations(rows, chart, edges, passed, selected, limit)[j].importanceScore
    ensures Before(EngineRecommendations(rows, chart, edges, passed, selected, limit)[i].id,
                   EngineRecommendations(rows, chart, edges, passed, selected, limit)[j].id,
                   ChartCourseIds(rows, chart))
  {
    var ids := ChartCourseIds(rows, chart);
    var available := Available(ids, edges, passed, selected);
    var scored := ScoreAll(available, edges);
    var sorted := SortDesc(scored, ScoreKey);
    var recs := SliceTo(sorted, limit);
    assert recs[i] == sorted[i] && recs[j] == sorted[j];
    SortDescKeepsTies(scored, ScoreKey, i, j);
    var p, q :| 0 <= p < q < |scored| && scored[p] == sorted[i] && scored[q] == sorted[j];
    assert available[p] == recs[i].id && available[q] == recs[j].id;
    AvailableKeepsOrder(ids, edges, passed, selected, recs[i].id, recs[j].id);
  }
}
