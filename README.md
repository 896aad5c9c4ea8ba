# Course recommendation core of the university course-selection backend

This project models, in Dafny, the graph and scoring logic behind the course
recommendations of a Django course-selection backend. It also models the small
pure rules around that logic.

- **`RecommendationEngine`** (`backend/courses/recommendations.py`):
  - the eligibility filter over a degree chart's courses;
  - the importance score, which is direct dependents plus how many of them are available;
  - the stable descending sort and the `limit` slice;
  - the depth-first cycle detector over the hard prerequisite edges.
- **The degree-chart views** (`backend/courses/views_chart.py`):
  - the student-number parsing shared by `my_chart` and `recommendations`, which turns a two-digit prefix into a Solar Hijri entry year and a three-digit code into a major;
  - the chart lookup;
  - `calculate_priority_score`, which is capped arithmetic with a blocked case and a textual reason;
  - the `recommendations` action, which computes the next semester, caps it at 8, resolves each chart node (elective slots included), skips passed courses and sorts stably by priority.
- **The catalogue and student records** (`backend/courses/models.py`, `backend/students/models.py`):
  - field bounds;
  - unique-together keys;
  - the chart ordering;
  - the passing-grade predicate;
  - the schedule conflict test.
- **`generate_student_id`** (`backend/create_cs_data.py`): the seeding script's student-id encoder.

Every database query becomes an input. The inputs are:
- the chart/course rows;
- the prerequisite edges;
- the passed and selected sets;
- the chart schemas, nodes and course requirements;
- the history and selection rows.

The Python built-ins the code relies on are modelled explicitly in `PythonBuiltins`:
- the stable `list.sort`;
- the slice `s[:n]`, including a negative `n`;
- `str(int)`;
- `str.zfill`;
- `int()` on a two-character string.

Where comments and code disagree, the model follows the code:
- Importance is not transitive. `_count_indirect_dependents` counts only the direct hard dependents that are in the available list.
- `_get_available_courses` does not drop courses already passed.
- The secondary sort key is always 0. It reads `chartcourse_set`, but `ChartCourse.course` declares `related_name='chart_offerings'`. So ties keep the order of the available list, which is the chart order.
- The comment in `generate_student_id` says the year code of 1400 is "40". `str(1400)[-2:]` is "00", which is what the model computes.
- The generator writes the level ("12", "13", "14") at offsets 2..4. The views read the major code from offsets 2..5. Every generated id is therefore rejected by the views as an unknown major (`StudentIds.GeneratedIdsHaveUnknownMajor`). This is stated as a property of the code as it is. Nothing reconciles the two.

Modules:
- `Wrappers`: `Option` and `Result`.
- `PythonBuiltins`: the built-ins above.
- `CourseModels`: the catalogue records and their invariants.
- `StudentModels`: the student records and their invariants.
- `Recommendations`: the engine.
- `CycleDetection`: the DFS, as a class over the state its closure mutates.
- `ChartViews`: the degree-chart views.
- `StudentIds`: the id generator.

Loops in the source are methods with loop invariants, each proved equal to a specification function. Properties are then proved about those functions.

## Model

| member | source | states |
|---|---|---|
| PythonBuiltins.SortDescSorted | backend/courses/recommendations.py:72-75 | the sort by descending key yields a non-increasing sequence |
| PythonBuiltins.SortDescPermutation | backend/courses/recommendations.py:72-75 | the sort is a permutation of its input (same multiset, same length) |
| PythonBuiltins.SortDescStable | backend/courses/views_chart.py:269 | for every key, the elements with that key appear in the sorted output in their original order (Python's sort is stable) |
| PythonBuiltins.StableSortUnique | backend/courses/views_chart.py:269 | any two descending sequences that agree on every key's subsequence are equal, so the stable sort's output is determined by its input |
| PythonBuiltins.SortDescKeepsTies | backend/courses/recommendations.py:72-75 | two output entries with equal keys appear in the same relative order in the input |
| PythonBuiltins.SortDescHigherFirst | backend/courses/recommendations.py:72-75 | an input element whose key exceeds that of output position j appears before position j |
| PythonBuiltins.SortDescMembers | backend/courses/recommendations.py:72-75 | every element of the sorted output comes from the input |
| PythonBuiltins.InsertDescSorted | backend/courses/recommendations.py:72-75 | inserting into a descending sequence keeps it descending and adds exactly the inserted element |
| PythonBuiltins.InsertDescFilter | backend/courses/views_chart.py:269 | insertion places the new element ahead of all elements with the same key and leaves the other keys' subsequences unchanged |
| PythonBuiltins.BeforeFromKeyFilter | backend/courses/views_chart.py:269 | order within one key's subsequence is order in the whole sequence |
| PythonBuiltins.SliceTo | backend/courses/recommendations.py:79 | `s[:n]` is a prefix of s of length min(n, len) for n >= 0, and drops -n elements from the end for n < 0 |
| PythonBuiltins.NatToDecimalRoundTrip | backend/create_cs_data.py:212 | `str(n)` is a digit string without a leading zero whose decimal value is n |
| PythonBuiltins.NatToDecimalLength | backend/create_cs_data.py:211 | `str(n)` has k characters if 10^(k-1) <= n < 10^k |
| PythonBuiltins.NatToDecimalLengthIff | backend/create_cs_data.py:211 | `str(n)` has k characters if and only if k >= 1 and 10^(k-1) <= n < 10^k (any n < 10 for k = 1) |
| PythonBuiltins.LeadingDigitBound | backend/create_cs_data.py:214 | a digit string of length k without a leading zero is worth at least 10^(k-1) |
| PythonBuiltins.DecimalBound | backend/create_cs_data.py:214 | a digit string of length k is worth less than 10^k |
| PythonBuiltins.NatToDecimal | backend/create_cs_data.py:212 | `str(n)` for n >= 0: the digits of n / 10 followed by the digit n % 10; its meaning is proved in NatToDecimalRoundTrip and NatToDecimalLengthIff |
| PythonBuiltins.IntToStr | backend/create_cs_data.py:211-214 | `str(n)` for any int: a '-' before the digits of -n when n < 0 |
| PythonBuiltins.InsertDesc | backend/courses/recommendations.py:72-75 | one insertion step of the stable sort: the element goes before the first element whose key is not greater; its properties are InsertDescSorted and InsertDescFilter |
| PythonBuiltins.SortDesc | backend/courses/views_chart.py:269 | `list.sort` by a key in descending order, as an insertion sort; sortedness, permutation and stability are SortDescSorted, SortDescPermutation and SortDescStable |
| PythonBuiltins.ZFill | backend/create_cs_data.py:214 | `str.zfill(width)`: '0's inserted after a leading sign up to the width, the text unchanged when already that long; proved in ZFillKeepsText and ZFillRoundTrip |
| PythonBuiltins.PyIntOfTwo | backend/courses/views_chart.py:64 | `int()` of a two-character string: two ASCII digits, a sign or one of space, \t, \n, \v, \f, \r before one digit, or one digit followed by such a space; anything else (the separators \x1c..\x1f included) is ValueError; proved in PyIntOfTwoRoundTrip and PyIntOfTwoRange |
| PythonBuiltins.ZFillKeepsText | backend/create_cs_data.py:214 | `zfill` never truncates: for unsigned text, the text is kept as a suffix, preceded only by '0's, and the length is max(len, width) |
| PythonBuiltins.ZFillRoundTrip | backend/create_cs_data.py:214 | zero padding the digits of n keeps their value n |
| PythonBuiltins.PyIntOfTwoRoundTrip | backend/courses/views_chart.py:65 | `int()` reads the two-digit zero-padded text of any n < 100 back as n |
| PythonBuiltins.PyIntOfTwoRange | backend/courses/views_chart.py:167 | `int()` of two characters, when it succeeds, is in [-9, 99]; two digits always parse; no digit at all never parses |
| CourseModels.ValidDegreeChart | backend/courses/models.py:32-36 | `total_credits` lies between 30 and 200; CoursesToMeetCredits relies on it |
| CourseModels.ValidCourse | backend/courses/models.py:77-80 | `credits` lies between 1 and 6; TotalCreditsBounds and CoursesToMeetCredits rely on it |
| CourseModels.UniqueCourseCodes | backend/courses/models.py:66-70 | no two catalogue courses share a code (`unique=True`); ChartKeysDistinct and ChartOrderStrict rely on it |
| CourseModels.ValidChartCourse | backend/courses/models.py:183-188 | `recommended_semester` is null or between 1 and 8; OrderedSemesters relies on it |
| CourseModels.TotalCreditsBounds | backend/courses/models.py:77-80 | courses within the credit validators add up to between n and 6n credits |
| CourseModels.CoursesToMeetCredits | backend/courses/models.py:32-36 | under both validators, reaching a chart's total credits takes at least five courses, and any 200 courses reach it |
| CourseModels.ChartKeysDistinct | backend/courses/models.py:68 | with unique course codes and unique (chart, course) rows, two rows of one chart never share an ordering key |
| CourseModels.StringLeAntisymmetric | backend/courses/models.py:202 | two codes each at most the other in code order are equal |
| CourseModels.ChartKeyLeAntisymmetric | backend/courses/models.py:202 | two keys each at most the other in the chart ordering are equal |
| CourseModels.ChartOrderStrict | backend/courses/models.py:202 | in the ordered table, of two rows of one chart the earlier has the strictly smaller key, so the ordering alone fixes the order of a chart's rows |
| CourseModels.OrderedSemesters | backend/courses/models.py:183-202 | in the ordered table of valid rows, once a row has a semester every later row has one no smaller, and all lie in 1..8 |
| CourseModels.ChartCourseIds | backend/courses/recommendations.py:122-124 | the chart's course ids are exactly the courses of the rows for that chart |
| CourseModels.ChartRowsIds | backend/courses/recommendations.py:122-124 | the id list is the rows of the chart projected to their course, in table order |
| CourseModels.ChartCourseIdsDistinct | backend/courses/models.py:201 | unique_together (degree_chart, course) makes a chart's course list duplicate-free |
| CourseModels.ChartRowsOrdered | backend/courses/models.py:202 | restricting the rows to one chart keeps the (recommended_semester, course code) ordering |
| CourseModels.StringLeTotal | backend/courses/models.py:202 | the code order compares any two codes |
| CourseModels.ChartKeyLeTotal | backend/courses/models.py:202 | the (recommended_semester, code) order compares any two rows |
| CourseModels.NewPrerequisite | backend/courses/models.py:227-230 | a prerequisite row created with the defaults is a hard edge between the given courses |
| CourseModels.PrerequisiteRowsAreEdgeSet | backend/courses/models.py:243 | unique_together (course, prerequisite_course) makes the rows a set of distinct edges |
| StudentModels.PassingGradeChoices | backend/students/models.py:86-90 | a grade passes iff it is one of the grade choices other than F and W |
| StudentModels.HistoryRowsAreKeySet | backend/students/models.py:81 | history rows are unique per (student, course, semester) |
| StudentModels.SelectionRowsAreKeySet | backend/students/models.py:146 | selection rows are unique per (student, course, semester) |
| StudentModels.PassedByFlag | backend/courses/recommendations.py:95-101 | definition: the courses of the student's rows with `is_passed` set; related to the views' rule by PassedRulesAgree and PassedRulesDiffer |
| StudentModels.PassedRulesAgree | backend/courses/recommendations.py:95-101 | when each of the student's rows has `is_passed` equal to its passing-grade test, the engine's and the views' passed sets are equal |
| StudentModels.PassedRulesDiffer | backend/courses/views_chart.py:148-153 | a row flagged `is_passed` with a non-passing grade makes its course passed for the engine but not for the views, unless another of the student's rows passes that course by grade |
| StudentModels.PassedByGrade | backend/courses/views_chart.py:148-153 | definition: the courses of the student's rows with a passing grade; MyChart returns it, BuildEntriesFacts shows its courses get no entry, PassedRulesAgree relates it to the engine's rule |
| StudentModels.SelectedFor | backend/courses/recommendations.py:103-109 | definition: the courses the student selected for that semester; SelectedNeverRecommended shows none of them is recommended |
| StudentModels.HasConflict | backend/students/models.py:218-232 | the loop reports a conflict iff InConflict holds: some other schedule of the same student, semester and day overlaps in time |
| StudentModels.IsPassedWithGrade | backend/students/models.py:86-90 | a history row passes iff its grade is one of A, A-, B+, B, B-, C+, C, D; characterised by PassingGradeChoices |
| StudentModels.Overlaps | backend/students/models.py:229 | two time intervals overlap unless one ends at or before the other starts |
| StudentModels.ConflictsWith | backend/students/models.py:221-229 | another entry (different pk) of the same student, semester and day whose interval overlaps; its symmetry and irreflexivity are ConflictFacts |
| StudentModels.ConflictFacts | backend/students/models.py:222-229 | overlap is symmetric (both entries report the conflict); a schedule never conflicts with itself; back-to-back intervals and different days never conflict |
| Recommendations.EdgesInto | backend/courses/recommendations.py:149 | the edges into a course are exactly the prerequisite rows for that course |
| Recommendations.CheckPrerequisites | backend/courses/recommendations.py:141-160 | true iff every non-co-requisite edge into the course has its prerequisite in the passed set |
| Recommendations.Available | backend/courses/recommendations.py:111-139 | a course is available iff it is in the chart, not selected and its hard prerequisites are passed; passed courses are not removed |
| Recommendations.GetAvailableCourses | backend/courses/recommendations.py:121-139 | the loop builds exactly the available list over the chart's course ids |
| Recommendations.AvailableKeepsOrder | backend/courses/recommendations.py:128-137 | the available list keeps chart order |
| Recommendations.EligibilityFacts | backend/courses/recommendations.py:129-160 | a course without hard edges is eligible for every passed set; a missing hard prerequisite excludes it; eligibility is monotone in the passed set; a selected course is never available |
| Recommendations.PassingUnlocks | backend/courses/recommendations.py:149-160 | passing the last missing prerequisite makes a course available, and it is unavailable before whenever that course is the prerequisite of any hard edge into it |
| Recommendations.PrerequisitesMet | backend/courses/recommendations.py:141-160 | every hard (non-co-requisite) edge into the course has its prerequisite passed; CheckPrerequisites computes it |
| Recommendations.DependentsOf | backend/courses/recommendations.py:178-181 | the direct dependents are exactly the courses with a hard edge from the given course |
| Recommendations.CountIn | backend/courses/recommendations.py:214-216 | the count is at most the list length and is zero iff no element is in the set |
| Recommendations.CountIndirectDependents | backend/courses/recommendations.py:189-218 | the loop counts the direct hard dependents that are in the available list |
| Recommendations.ImportanceScore | backend/courses/recommendations.py:162-187 | direct <= score <= 2 * direct, and the score is 0 iff the course has no dependents |
| Recommendations.CalculateImportanceScore | backend/courses/recommendations.py:162-187 | the method returns the importance score |
| Recommendations.MoreDependentsOutrank | backend/courses/recommendations.py:176-187 | more than twice the dependents of another course gives a strictly higher score |
| Recommendations.DirectCountIsDistinct | backend/courses/recommendations.py:178-181 | with unique edges the direct count counts distinct dependent courses |
| Recommendations.ScoreAll | backend/courses/recommendations.py:60-69 | one entry per available course, in order, carrying its importance score; ScoreCourses computes it |
| Recommendations.ScoreCourses | backend/courses/recommendations.py:60-69 | the loop scores every available course in order |
| Recommendations.EngineRecommendations | backend/courses/recommendations.py:60-79 | the scored available list, stably sorted by descending score and sliced to `limit`; its shape is RecommendationsShape |
| Recommendations.SelectedNeverRecommended | backend/courses/recommendations.py:103-139 | a course the student selected for the semester never appears among that semester's recommendations |
| Recommendations.DefaultLimitShape | backend/courses/recommendations.py:35 | with the default limit of 10 the list holds min(10, available) entries |
| Recommendations.GetRecommendations | backend/courses/recommendations.py:35-93 | the result is the scored available list, stably sorted by descending score and sliced to `limit` |
| Recommendations.RecommendationsShape | backend/courses/recommendations.py:71-79 | the length is min(limit, available) (Python slice semantics for negative limits); scores are non-increasing; every entry is available, not selected, eligible and correctly scored |
| Recommendations.HigherScoreComesFirst | backend/courses/recommendations.py:71-79 | an available course scoring above the j-th entry appears before position j |
| Recommendations.FoundationalCoursesFirst | backend/courses/recommendations.py:176-187 | an available course with dependents appears before every entry without dependents |
| Recommendations.TiesKeepChartOrder | backend/courses/recommendations.py:72-75 | entries with equal scores appear in chart order (the secondary key is always 0) |
| CycleDetection.RankDecreasesAlongWalk | backend/courses/recommendations.py:242-252 | finishing ranks never increase along a path of hard edges |
| CycleDetection.RankingExcludesCycles | backend/courses/recommendations.py:251-252 | a ranking that strictly decreases along every hard edge rules out every cycle |
| CycleDetection.DependencySearch.Dfs | backend/courses/recommendations.py:232-252 | each visit marks the node visited; on a cycle exactly one pair is appended; otherwise the path is restored and the node gets a rank above all its dependents |
| CycleDetection.DependencySearch.VisitDependents | backend/courses/recommendations.py:242-249 | the loop over a node's dependents recurses into unvisited ones and reports a dependent on the path as a cycle pair |
| CycleDetection.DetectCircularDependencies | backend/courses/recommendations.py:220-259 | every reported pair (node, dependent) is a hard edge whose dependent reaches node again; the result is empty iff the hard edges are acyclic; at most one pair per search root, so no more pairs than catalogue courses |
| ChartViews.Status | backend/courses/views_chart.py:136-199 | definition: the HTTP status of each error kind; ErrorOrder proves the action's 404s are exactly a missing profile or chart |
| ChartViews.ParseStudentNumber | backend/courses/views_chart.py:50-91 | a missing number or one shorter than 5 is rejected; the prefix parses with `int()` and maps to 1300+n for n >= 92, else 1400+n; characters [2:5] must be a known major code |
| ChartViews.EntryYear | backend/courses/views_chart.py:64-69 | a two-digit prefix 0..99 maps to an entry year in 1392..1491 whose last two digits are the prefix |
| ChartViews.MajorOf | backend/courses/views_chart.py:78-86 | the five known major codes 210, 213, 201, 211, 220 map to CS, EE, CE, ME, SE; any other code is unknown |
| ChartViews.StudentNumberRoundTrip | backend/courses/views_chart.py:156-187 | a number made of an entry year's two-digit code and a known major code parses back to that year and major |
| ChartViews.FindChart | backend/courses/views_chart.py:94-98 | the lookup returns the first chart of the major whose entry-year range covers the year, and none iff no chart does |
| ChartViews.MyChart | backend/courses/views_chart.py:32-111 | a missing profile is ProfileNotFound; a number that does not parse gives the parser's error; a parsed number succeeds iff FindChart finds a chart for its major and year, the result is then FindChart's pick and the passed set is the courses passed with a passing grade, and otherwise the error is ChartNotFound for that major and year |
| ChartViews.RequirementsOf | backend/courses/views_chart.py:291 | the requirements of a course are exactly the rows for that course |
| ChartViews.Unlocks | backend/courses/views_chart.py:249-253 | the unlocked courses are exactly those requiring the course |
| ChartViews.PriorityScoreOf | backend/courses/views_chart.py:277-349 | prerequisites are met iff every requirement is passed; the total is in [0, 100]; blocked gives 0 with the fixed reason, otherwise the total is at least 50 |
| ChartViews.CalculatePriorityScore | backend/courses/views_chart.py:290-349 | the search loop with `break` computes the priority score |
| ChartViews.PriorityScoreLandmarks | backend/courses/views_chart.py:306-331 | five or more dependents cap the total at 100; none, not in the target semester and not elective gives exactly 50; below the cap the total is the sum of the weights |
| ChartViews.PriorityScoreMonotoneInPassed | backend/courses/views_chart.py:290-304 | passing more courses never lowers the total and never blocks a course |
| ChartViews.MoreDependentsNeverLower | backend/courses/views_chart.py:309-331 | one more requirement naming the course raises the dependent count by one and never lowers the total |
| ChartViews.InTargetSemester | backend/courses/views_chart.py:316-320 | some node of the chart places the course in the target semester |
| ChartViews.ReasonParts | backend/courses/views_chart.py:333-337 | the dependency part when there are dependents, then the semester part when the course is in the target semester |
| ChartViews.Reason | backend/courses/views_chart.py:333-339 | the parts joined with " | ", or the default reason when there are none; characterised by ReasonFacts |
| ChartViews.ReasonFacts | backend/courses/views_chart.py:333-339 | the default reason appears iff there are no dependents and the course is not in the target semester; dependents alone give only the dependency reason, the target semester alone only the semester reason, both give the two joined with " | " in that order; a met course never shows the blocked reason |
| ChartViews.HistorySemesters | backend/courses/views_chart.py:202-204 | definition: the distinct semesters of the student's history rows; their count is bounded by HistorySemestersBound and is zero iff no history, by HistorySemestersEmpty |
| ChartViews.NextSemester | backend/courses/views_chart.py:205 | the next semester is 1 iff the student has no history rows, and never more than the number of rows plus 1 |
| ChartViews.HistorySemestersBound | backend/courses/views_chart.py:202-204 | the distinct semesters number at most the history rows |
| ChartViews.HistorySemestersEmpty | backend/courses/views_chart.py:202-204 | there are no distinct semesters iff no history row is the student's |
| ChartViews.SemesterNodes | backend/courses/views_chart.py:215-218 | the nodes are exactly the chart's nodes of the given semester |
| ChartViews.SlotCourse | backend/courses/views_chart.py:223-234 | definition: a node's own course (mandatory), else its group's first course (elective), else nothing; BuildEntriesFacts and RecommendationsContents prove what the entries then hold |
| ChartViews.EntryFor | backend/courses/views_chart.py:240-266 | the entry of one course: its priority score, reason and prerequisite status, the courses it unlocks, and mandatory iff not elective |
| ChartViews.NodeEntries | backend/courses/views_chart.py:222-266 | a node yields no entry when it has no course or its course is passed, else the one entry of its course |
| ChartViews.BuildEntries | backend/courses/views_chart.py:220-266 | the list has at most one entry per node |
| ChartViews.CollectRecommendations | backend/courses/views_chart.py:220-266 | the loop builds exactly the entry list |
| ChartViews.RecommendationsView | backend/courses/views_chart.py:126-274 | the response of the action on every input; its contents are RecommendationsContents and its errors EndpointsAgree and ErrorOrder |
| ChartViews.Recommendations | backend/courses/views_chart.py:126-274 | the action returns exactly the modelled response or error |
| ChartViews.BuildEntriesFacts | backend/courses/views_chart.py:222-266 | every entry comes from a node and is not passed; every node with a course that is not passed yields its entry |
| ChartViews.SortedEntries | backend/courses/views_chart.py:269 | the sorted list has the same entries, by non-increasing priority |
| ChartViews.RecommendationsContents | backend/courses/views_chart.py:201-274 | next_semester is the distinct history semesters plus 1; above 8 the list is empty and a message is set; otherwise entries are sorted, not passed, scored in [0, 100], mandatory iff not elective, with their unlocks and prerequisite status, and every eligible node appears |
| ChartViews.RecommendationTiesKeepNodeOrder | backend/courses/views_chart.py:269 | equal priorities keep the order of the node list |
| ChartViews.EndpointsAgree | backend/courses/views_chart.py:156-199 | `recommendations` fails exactly when `my_chart` fails, with the same error kind |
| ChartViews.ErrorOrder | backend/courses/views_chart.py:139-176 | a missing profile, a short number and an unparsable prefix are reported in that order; the 404 errors are exactly a missing profile or chart |
| StudentIds.SliceFromEnd | backend/create_cs_data.py:211 | `s[-k:]` is the last k elements for 0 < k <= len, and the whole of s when k is 0 (`s[-0:]` is `s[0:]`) or len < k |
| StudentIds.GenerateStudentId | backend/create_cs_data.py:203-216 | the id is the year code, the level, "102" and the zero-filled sequence, concatenated; its reading is proved in GenerateStudentIdRoundTrip |
| StudentIds.DecodeStudentId | backend/create_cs_data.py:203-216 | the inverse read of an id: digits only, "102" at offsets 4..7, the year, level and sequence fields decoded |
| StudentIds.GenerateStudentIdRoundTrip | backend/create_cs_data.py:203-216 | for a four-digit year, a two-digit level and any sequence number, the id reads back as the year's last two digits, the level, "102" and the sequence; its length is 11 below 10000 and never truncated above |
| StudentIds.YearCodeDigits | backend/create_cs_data.py:211 | the year code of a four-digit year is its tens and units digits, worth the year modulo 100 |
| StudentIds.SequenceDigits | backend/create_cs_data.py:214 | the padded sequence is at least four digits, worth the sequence number, exactly four below 10000 |
| StudentIds.GeneratedYearReadsBack | backend/create_cs_data.py:211 | for entry years 1392..1491 the id starts with the year code the views read |
| StudentIds.YearCodeReadsBack | backend/courses/views_chart.py:163-171 | the views read a year code back as the year's last two digits and recover the entry year |
| StudentIds.GeneratedIdsHaveUnknownMajor | backend/create_cs_data.py:212-216 | for the levels 12..14 the views read characters [2:5] of a generated id as level + "1", an unknown major, and reject it |

## Left out

- HTTP, routing, authentication, serializers and the ORM. Each query is an input sequence or set. The serializer output of `my_chart` is not modelled; the model returns the chosen chart and the passed set it hands to the serializer.
- The descriptive output fields are not modelled: code, name, credits, unit type, instructor, description and times. The model keeps the id and score of the engine entries. For the views' entries it keeps the course id, priority score, reason, unlocks, prerequisites-met, mandatory and elective flags.
- The text of the error messages is not modelled. Errors are modelled by kind, and `Status` gives each kind's HTTP status.
- ChartViews.ParseStudentNumber: `int()` is modelled for ASCII digits, a sign and the whitespace it strips from an ASCII string (space, \t, \n, \v, \f, \r). For a string holding non-ASCII characters Python also accepts Unicode digits and every Unicode space (the separators \x1c..\x1f included); those are not modelled.
- ChartViews.FindChart: `ChartSchema` is defined outside the shown models. On a queryset without an ordering, `.first()` orders by primary key, so the input sequence of charts is taken to be in primary-key order. A `Meta.ordering` on `ChartSchema` would change which chart is first.
- `Course.is_elective` is not a field of the Course model. It is an input set of elective course ids.
- `ChartSchema`, `ChartNode`, `CourseGroup` and `CourseRequirement` are defined outside the shown models. They are plain input datatypes here.
- MyChart: the passed list handed to the serializer is a set here. The order and duplicates of `values_list` are not modelled.
- `Course.objects.get(id=course_id)` raising DoesNotExist is not modelled. A foreign key makes every chart row name an existing course.
- CycleDetection.DetectCircularDependencies: requires every edge endpoint to be a course in the catalogue, as the foreign keys guarantee. `Course.objects.all()` is the input sequence of course ids. The unused `rec_stack` set is not modelled.
- The engine's constructor caches (`_dependency_cache`, `_visited`) are never read, so they are not modelled.
- `created_at`/`updated_at` timestamps and the history ordering by them are not modelled.
- CourseModels.ChartKeyLe: placing chart rows with a null recommended semester first is an assumption. Where NULL sorts depends on the database; PostgreSQL, for one, puts NULL last in ascending order.
- CourseModels.StringLe: comparing course codes by code point is an assumption. The database's collation decides the real order, and it may differ for non-ASCII codes or mixed case.
- The `courses` of a `CourseGroup`: the group's `courses` many-to-many relation is read in `Course`'s default ordering by code (backend/courses/models.py:152), so `courses[0]` is the group course with the smallest code. That order is taken from the database and is an input here.
