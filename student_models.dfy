/**
  The records of the `students` app: course history, selections for an
  upcoming semester and weekly schedule entries, with the passing-grade
  rule, the unique-together keys and the schedule conflict check.
 */
module StudentModels {
  import opened CourseModels

  type StudentId = nat

  /** The grade choices of a history record, best first. */
  const GradeChoices: seq<string> := ["A", "A-", "B+", "B", "B-", "C+", "C", "D", "F", "W"]

  /** The grades that count as passing (D or better). */
  const PassingGrades: seq<string> := ["A", "A-", "B+", "B", "B-", "C+", "C", "D"]

  datatype HistoryRecord = HistoryRecord(
    student: StudentId,
    course: CourseId,
    grade: string,
    semester: string,
    creditsEarned: int,
    isPassed: bool)

  /** `is_passed_with_grade`: the grade is one of the passing grades. */
  predicate IsPassedWithGrade(r: HistoryRecord)
  {
    r.grade in PassingGrades
  }

  /** Exactly the grade choices other than F and W pass; nothing outside the choices passes. */
  lemma PassingGradeChoices(r: HistoryRecord)
    ensures IsPassedWithGrade(r) <==> r.grade in GradeChoices && r.grade != "F" && r.grade != "W"
  {
  }

  /** unique_together ('student', 'course', 'semester') on the history table. */
  predicate UniqueHistory(h: seq<HistoryRecord>)
  {
    forall i, j :: 0 <= i < j < |h| ==>
      (h[i].student, h[i].course, h[i].semester) != (h[j].student, h[j].course, h[j].semester)
  }

  function HistoryKeys(h: seq<HistoryRecord>): seq<(StudentId, CourseId, string)>
  {
    seq(|h|, i requires 0 <= i < |h| => (h[i].student, h[i].course, h[i].semester))
  }

  /** Under the unique key, each history row is a distinct (student, course, semester) triple. */
  lemma HistoryRowsAreKeySet(h: seq<HistoryRecord>)
    requires UniqueHistory(h)
    ensures |set k | k in HistoryKeys(h)| == |h|
  {
    DistinctCardinality(HistoryKeys(h));
  }

  /**
    The courses a student has passed according to the `is_passed` flag,
    the rule the recommendation engine reads.
   */
  function PassedByFlag(h: seq<HistoryRecord>, student: StudentId): set<CourseId>
  {
    set i | 0 <= i < |h| && h[i].student == student && h[i].isPassed :: h[i].course
  }

  /**
    The courses a student has passed according to the grade list, the rule
    the degree-chart views read.
   */
  function PassedByGrade(h: seq<HistoryRecord>, student: StudentId): set<CourseId>
  {
    set i | 0 <= i < |h| && h[i].student == student && IsPassedWithGrade(h[i]) :: h[i].course
  }

  /**
    When the `is_passed` flag of each of the student's rows agrees with its
    grade, the engine and the degree-chart views see the same passed set.
   */
  lemma PassedRulesAgree(h: seq<HistoryRecord>, student: StudentId)
    requires forall i :: 0 <= i < |h| && h[i].student == student ==> h[i].isPassed == IsPassedWithGrade(h[i])
    ensures PassedByFlag(h, student) == PassedByGrade(h, student)
  {
    forall c | c in PassedByFlag(h, student) ensures c in PassedByGrade(h, student) {
      var i :| 0 <= i < |h| && h[i].student == student && h[i].isPassed && h[i].course == c;
      assert IsPassedWithGrade(h[i]);
    }
    forall c | c in PassedByGrade(h, student) ensures c in PassedByFlag(h, student) {
      var i :| 0 <= i < |h| && h[i].student == student && IsPassedWithGrade(h[i]) && h[i].course == c;
      assert h[i].isPassed;
    }
  }

  /**
    A row whose flag is set but whose grade is not a passing one makes its
    course passed for the engine and not for the views, unless another row
    of the student passes that course by grade.
   */
  lemma PassedRulesDiffer(h: seq<HistoryRecord>, student: StudentId, i: nat)
    requires i < |h| && h[i].student == student && h[i].isPassed && !IsPassedWithGrade(h[i])
    requires forall j :: 0 <= j < |h| && h[j].student == student && h[j].course == h[i].course ==> !IsPassedWithGrade(h[j])
    ensures h[i].course in PassedByFlag(h, student)
    ensures h[i].course !in PassedByGrade(h, student)
  {
  }

  datatype Selection = Selection(student: StudentId, course: CourseId, semester: string, isConfirmed: bool)

  /** unique_together ('student', 'course', 'semester') on the selection table. */
  predicate UniqueSelections(s: seq<Selection>)
  {
    forall i, j :: 0 <= i < j < |s| ==>
      (s[i].student, s[i].course, s[i].semester) != (s[j].student, s[j].course, s[j].semester)
  }

  function SelectionKeys(s: seq<Selection>): seq<(StudentId, CourseId, string)>
  {
    seq(|s|, i requires 0 <= i < |s| => (s[i].student, s[i].course, s[i].semester))
  }

  /** Under the unique key, each selection row is a distinct (student, course, semester) triple. */
  lemma SelectionRowsAreKeySet(s: seq<Selection>)
    requires UniqueSelections(s)
    ensures |set k | k in SelectionKeys(s)| == |s|
  {
    DistinctCardinality(SelectionKeys(s));
  }

  /** The courses a student selected for one semester, the set the engine excludes. */
  function SelectedFor(s: seq<Selection>, student: StudentId, semester: string): set<CourseId>
  {
    set i | 0 <= i < |s| && s[i].student == student && s[i].semester == semester :: s[i].course
  }

  /**
    A weekly schedule entry. Times of day are only compared, so they are
    modelled as numbers that preserve the order of `datetime.time`.
   */
  datatype Schedule = Schedule(
    pk: nat,
    student: StudentId,
    course: CourseId,
    dayOfWeek: string,
    startTime: nat,
    endTime: nat,
    semester: string)

  /** The time test of `has_conflict`: neither interval ends before the other starts. */
  predicate Overlaps(a: Schedule, b: Schedule)
  {
    !(a.endTime <= b.startTime || a.startTime >= b.endTime)
  }

  /** `other` is a different entry of the same student, semester and day whose times overlap. */
  predicate ConflictsWith(self: Schedule, other: Schedule)
  {
    && other.student == self.student
    && other.semester == self.semester
    && other.dayOfWeek == self.dayOfWeek
    && other.pk != self.pk
    && Overlaps(self, other)
  }

  predicate InConflict(self: Schedule, schedules: seq<Schedule>)
  {
    exists i :: 0 <= i < |schedules| && ConflictsWith(self, schedules[i])
  }

  /** `Schedule.has_conflict`: scan the table for a conflicting entry, stopping at the first. */
  method HasConflict(self: Schedule, schedules: seq<Schedule>) returns (conflict: bool)
    ensures conflict <==> InConflict(self, schedules)
  {
    for i := 0 to |schedules|
      invariant forall j :: 0 <= j < i ==> !ConflictsWith(self, schedules[j])
    {
      var other := schedules[i];
      if other.student == self.student && other.semester == self.semester
         && other.dayOfWeek == self.dayOfWeek && other.pk != self.pk
      {
        if !(self.endTime <= other.startTime || self.startTime >= other.endTime) {
          return true;
        }
      }
    }
    return false;
  }

  /**
    Conflicts are mutual: two entries of one table that overlap on the same
    day both report a conflict; an entry is never compared with itself,
    back-to-back entries and entries on different days do not conflict.
   */
  lemma ConflictFacts(schedules: seq<Schedule>, i: nat, j: nat)
    requires i < |schedules| && j < |schedules|
    ensures ConflictsWith(schedules[i], schedules[j]) ==>
              InConflict(schedules[i], schedules) && InConflict(schedules[j], schedules)
    ensures !ConflictsWith(schedules[i], schedules[i])
    ensures schedules[i].endTime == schedules[j].startTime ==> !ConflictsWith(schedules[i], schedules[j])
    ensures schedules[i].dayOfWeek != schedules[j].dayOfWeek ==> !ConflictsWith(schedules[i], schedules[j])
  {
    if ConflictsWith(schedules[i], schedules[j]) {
      assert ConflictsWith(schedules[j], schedules[i]);
    }
  }
}
