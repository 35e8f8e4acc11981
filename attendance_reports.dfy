/** Course attendance reports and low-attendance alerts: per-student rates
    over a course's active sessions, the course average, and the alerts for
    the students under a threshold, lowest rate first. */
module AttendanceReports {
  import opened Wrappers
  import opened Linq
  import opened Models
  import opened Data
  import opened Dtos

  /** The percentage of `total` sessions that `attended` represents, or 0
      when there are no sessions. Exact: the two-decimal rounding of the
      responses is not modelled. */
  function Rate(attended: nat, total: nat): (r: real)
    ensures 0.0 <= r
    ensures total == 0 ==> r == 0.0
  {
    if total > 0 then ((attended * 100) as real) / (total as real) else 0.0
  }

  /** A rate times the number of sessions is the attended count times 100. */
  lemma RateScaled(attended: nat, total: nat)
    requires total > 0
    ensures Rate(attended, total) * (total as real) == (attended as real) * 100.0
  {
  }

  /** A rate is under a threshold exactly when `attended * 100 < threshold * total`. */
  lemma RateBelowIff(attended: nat, total: nat, threshold: real)
    requires total > 0
    ensures Rate(attended, total) < threshold <==> (attended as real) * 100.0 < threshold * (total as real)
  {
    var r, n := Rate(attended, total), total as real;
    RateScaled(attended, total);
    if r < threshold {
      assert r * n < threshold * n;
    } else {
      assert r * n >= threshold * n;
    }
  }

  /** A rate is under 50 exactly when fewer than half the sessions were attended. */
  lemma CriticalIff(attended: nat, total: nat)
    requires total > 0
    ensures Rate(attended, total) < 50.0 <==> 2 * attended < total
  {
    RateBelowIff(attended, total, 50.0);
  }

  /** Attending no more sessions than there are gives a rate of at most 100. */
  lemma RateAtMostHundred(attended: nat, total: nat)
    requires attended <= total
    ensures Rate(attended, total) <= 100.0
  {
    if total > 0 {
      RateBelowIff(attended, total, 100.0);
      if Rate(attended, total) > 100.0 {
        RateBelowIff(attended, total, Rate(attended, total));
      }
    }
  }

  /** The sessions a course's rates are taken over: its active ones. */
  function ActiveCourseSessions(t: Tables, courseId: int): (r: seq<Session>)
    ensures forall s :: s in r <==> s in t.sessions && s.courseId == courseId && s.isActive
  {
    Where(t.sessions, (s: Session) => s.courseId == courseId && s.isActive)
  }

  /** All the sessions of a course, active or not. */
  function CourseSessions(t: Tables, courseId: int): (r: seq<Session>)
    ensures forall s :: s in r <==> s in t.sessions && s.courseId == courseId
  {
    Where(t.sessions, (s: Session) => s.courseId == courseId)
  }

  /** The attendances whose session belongs to the course, whether that
      session is active or not. */
  function CourseAttendances(t: Tables, courseId: int): (r: seq<Attendance>)
    ensures forall a :: a in r <==> a in t.attendances && SessionCourse(t.sessions, a.sessionId) == Some(courseId)
  {
    Where(t.attendances, (a: Attendance) => SessionCourse(t.sessions, a.sessionId) == Some(courseId))
  }

  /** A student's attendances in a course. */
  function StudentCourseAttendances(t: Tables, courseId: int, studentId: int): (r: seq<Attendance>)
    ensures forall a :: a in r <==>
              a in t.attendances && a.studentId == studentId && SessionCourse(t.sessions, a.sessionId) == Some(courseId)
  {
    Where(CourseAttendances(t, courseId), (a: Attendance) => a.studentId == studentId)
  }

  /** How many sessions of a course a student attended, counted in one pass
      over the attendances as the alerts count them. */
  function AttendedSessions(t: Tables, courseId: int, studentId: int): nat {
    Count(t.attendances, (a: Attendance) => a.studentId == studentId && SessionCourse(t.sessions, a.sessionId) == Some(courseId))
  }

  /** Counting the student's attendances among the course's, as the report
      does, gives the same number as the alerts' single count. */
  lemma AttendedSessionsIsCourseAttendances(t: Tables, courseId: int, studentId: int)
    ensures AttendedSessions(t, courseId, studentId) == |StudentCourseAttendances(t, courseId, studentId)|
  {
    CountConjunction(t.attendances, (a: Attendance) => SessionCourse(t.sessions, a.sessionId) == Some(courseId),
                     (a: Attendance) => a.studentId == studentId,
                     (a: Attendance) => a.studentId == studentId && SessionCourse(t.sessions, a.sessionId) == Some(courseId));
    CountIsWhereLength(CourseAttendances(t, courseId), (a: Attendance) => a.studentId == studentId);
  }

  function AttendanceSession(a: Attendance): int { a.sessionId }

  /** In a consistent store a student has attended at most as many sessions
      of a course as the course has, counting its inactive ones. */
  lemma AttendedAtMostCourseSessions(t: Tables, courseId: int, studentId: int)
    requires Consistent(t)
    ensures AttendedSessions(t, courseId, studentId) <= |CourseSessions(t, courseId)|
  {
    AttendedSessionsIsCourseAttendances(t, courseId, studentId);
    var own := StudentCourseAttendances(t, courseId, studentId);
    var sessions := CourseSessions(t, courseId);
    UniqueByWhere(t.attendances, (a: Attendance) => SessionCourse(t.sessions, a.sessionId) == Some(courseId), AttendancePair);
    UniqueByWhere(CourseAttendances(t, courseId), (a: Attendance) => a.studentId == studentId, AttendancePair);
    forall i, j | 0 <= i < j < |own| ensures AttendanceSession(own[i]) != AttendanceSession(own[j]) {
      assert own[i] in own && own[j] in own;
      assert AttendancePair(own[i]) != AttendancePair(own[j]);
    }
    forall a | a in own ensures AttendanceSession(a) in Keys(sessions, SessionKey) {
      var s := FindSession(t.sessions, a.sessionId).value;
      assert s in sessions;
    }
    UniqueKeysBound(own, AttendanceSession, Keys(sessions, SessionKey));
  }

  /** The summary of one student in a course. */
  function Summary(t: Tables, courseId: int, student: Student): StudentAttendanceSummary {
    var attended := AttendedSessions(t, courseId, student.id);
    var total := |ActiveCourseSessions(t, courseId)|;
    StudentAttendanceSummary(student.id, FullName(student), student.studentCode, attended, total, Rate(attended, total))
  }

  /** The summaries of the given students, in their order. */
  function Summaries(t: Tables, courseId: int, students: seq<Student>): (r: seq<StudentAttendanceSummary>)
    ensures |r| == |students|
    ensures forall i :: 0 <= i < |students| ==> r[i] == Summary(t, courseId, students[i])
  {
    seq(|students|, i requires 0 <= i < |students| => Summary(t, courseId, students[i]))
  }

  /** The rates of a list of summaries. */
  function Rates(summaries: seq<StudentAttendanceSummary>): (r: seq<real>)
    ensures |r| == |summaries|
    ensures forall i :: 0 <= i < |summaries| ==> r[i] == summaries[i].attendanceRate
  {
    seq(|summaries|, i requires 0 <= i < |summaries| => summaries[i].attendanceRate)
  }

  /** `GenerateCourseReportAsync`: one summary per student of the whole
      store and the mean of their rates. */
  function CourseReport(t: Tables, course: Course): AttendanceReportDto {
    var summaries := Summaries(t, course.id, t.students);
    var overall := if |summaries| > 0 then Average(Rates(summaries)) else 0.0;
    AttendanceReportDto(course.id, course.name, course.code, |ActiveCourseSessions(t, course.id)|, |t.students|,
                        overall, summaries)
  }

  /** A course report counts the course's active sessions and every student
      of the store, with one summary per student in store order: the
      student's attendances in the course, at any of its sessions, over the
      active-session count; the course rate is the mean of the student rates,
      or 0 without students. */
  lemma CourseReportContents(t: Tables, course: Course)
    ensures var r := CourseReport(t, course);
      && r.courseId == course.id && r.courseName == course.name && r.courseCode == course.code
      && r.totalSessions == |ActiveCourseSessions(t, course.id)|
      && r.totalStudents == |t.students| == |r.studentSummaries|
      && (forall i :: 0 <= i < |t.students| ==>
            var s := r.studentSummaries[i];
            && s.studentId == t.students[i].id && s.studentName == FullName(t.students[i])
            && s.studentCode == t.students[i].studentCode
            && s.attendedSessions == AttendedSessions(t, course.id, t.students[i].id)
            && s.totalSessions == r.totalSessions
            && s.attendanceRate == Rate(s.attendedSessions, r.totalSessions))
      && (|t.students| == 0 ==> r.attendanceRate == 0.0)
      && (|t.students| > 0 ==> r.attendanceRate == Average(Rates(r.studentSummaries)))
  {
  }

  /** A course without active sessions reports every rate, and its average, as 0. */
  lemma NoActiveSessionsZeroReport(t: Tables, course: Course)
    requires |ActiveCourseSessions(t, course.id)| == 0
    ensures forall s :: s in CourseReport(t, course).studentSummaries ==> s.attendanceRate == 0.0
    ensures CourseReport(t, course).attendanceRate == 0.0
  {
    var r := CourseReport(t, course);
    var rates := Rates(r.studentSummaries);
    if |t.students| > 0 {
      AverageBounds(rates, 0.0, 0.0);
    }
  }

  /** In a consistent store where every session of the course is active, a
      student's rate in the course lies between 0 and 100. */
  lemma SummaryRateWithinHundred(t: Tables, courseId: int, student: Student)
    requires Consistent(t)
    requires forall s :: s in t.sessions && s.courseId == courseId ==> s.isActive
    ensures Summary(t, courseId, student).attendanceRate <= 100.0
  {
    WhereCongruent(t.sessions, (s: Session) => s.courseId == courseId,
                   (s: Session) => s.courseId == courseId && s.isActive);
    AttendedAtMostCourseSessions(t, courseId, student.id);
    RateAtMostHundred(AttendedSessions(t, courseId, student.id), |ActiveCourseSessions(t, courseId)|);
  }

  /** The whole summary of a student: the student's id, name and code, the
      number of the student's attendances in the course, the number of the
      course's active sessions, and a rate that is that share of them as a
      percentage, or 0 when the course has no active session. */
  lemma SummaryContents(t: Tables, courseId: int, student: Student)
    ensures Summary(t, courseId, student).studentId == student.id
    ensures Summary(t, courseId, student).studentName == FullName(student)
    ensures Summary(t, courseId, student).studentCode == student.studentCode
    ensures Summary(t, courseId, student).attendedSessions == |StudentCourseAttendances(t, courseId, student.id)|
    ensures Summary(t, courseId, student).totalSessions == |ActiveCourseSessions(t, courseId)|
    ensures RateMatchesCounts(Summary(t, courseId, student))
  {
    AttendedSessionsIsCourseAttendances(t, courseId, student.id);
    SummaryRate(Summary(t, courseId, student));
  }

  /** A summary built from its counts has the rate those counts give. */
  lemma SummaryRate(s: StudentAttendanceSummary)
    requires s.attendanceRate == Rate(s.attendedSessions, s.totalSessions)
    ensures RateMatchesCounts(s)
  {
    if s.totalSessions > 0 {
      RateScaled(s.attendedSessions, s.totalSessions);
    }
  }

  /** A summary's rate is its attended count as a percentage of its session
      count: times the session count it gives 100 times the attended count,
      and it is 0 when there are no sessions. */
  predicate RateMatchesCounts(s: StudentAttendanceSummary) {
    && (s.totalSessions > 0 ==> s.attendanceRate * (s.totalSessions as real) == (s.attendedSessions as real) * 100.0)
    && (s.totalSessions == 0 ==> s.attendanceRate == 0.0)
  }

  /** The summary counts attendances at inactive sessions of the course while
      it divides by the active ones only: once a session someone attended is
      soft-deleted, that student's rate exceeds 100. Here student 1 attended
      both sessions of course 1, and the second was deleted afterwards. */
  lemma RateExceedsHundredAfterSoftDelete(createdAt: DateTime)
    ensures var t := SoftDeletedExample(createdAt);
            && Consistent(t)
            && Summary(t, 1, t.students[0]).attendanceRate == 200.0
            && ActiveSummary(t, 1, t.students[0]).attendanceRate == 100.0
  {
    var t := SoftDeletedExample(createdAt);
    var a1, a2 := t.attendances[0], t.attendances[1];
    SoftDeletedExampleIsConsistent(createdAt);
    assert ActiveCourseSessions(t, 1) == [t.sessions[0]];
    forall p: Attendance -> bool ensures Count(t.attendances, p) == (if p(a1) then 1 else 0) + (if p(a2) then 1 else 0) {
      CountPair(t.attendances, p);
    }
    assert SessionCourse(t.sessions, 1) == Some(1) && SessionCourse(t.sessions, 2) == Some(1);
    assert AtActiveSessionOf(t, a1, 1) && !AtActiveSessionOf(t, a2, 1);
  }

  /** The example store satisfies every key, unique index and foreign key. */
  lemma SoftDeletedExampleIsConsistent(createdAt: DateTime)
    ensures Consistent(SoftDeletedExample(createdAt))
  {
    var t := SoftDeletedExample(createdAt);
    var s1, s2 := t.sessions[0], t.sessions[1];
    assert s1.uniqueCode[5] != s2.uniqueCode[5];
    assert KeysUnique(t);
    assert t.courses[0] in t.courses && t.students[0] in t.students;
    assert s1 in t.sessions && s2 in t.sessions;
    assert ForeignKeys(t);
  }

  /** The store of the example: one student and one course, two sessions of
      the course with the second one soft-deleted, and the student present at
      both. */
  function SoftDeletedExample(createdAt: DateTime): Tables {
    Tables(
      [ Student(1, "Ana", "Ruiz", "ana.ruiz@email.com", "EST001", createdAt) ],
      [ Course(1, "Programación Web", "PW001", "", "", true, createdAt) ],
      [ Session(1, 1, "Clase 1", createdAt, 0, 0, "100000", true, createdAt),
        Session(2, 1, "Clase 2", createdAt, 0, 0, "100001", false, createdAt) ],
      [ Attendance(1, 1, 1, createdAt, true, None), Attendance(2, 1, 2, createdAt, true, None) ])
  }

  /** The attendance is at an active session of the course. */
  predicate AtActiveSessionOf(t: Tables, a: Attendance, courseId: int) {
    var s := FindSession(t.sessions, a.sessionId);
    s.Some? && s.value.courseId == courseId && s.value.isActive
  }

  /** How many active sessions of a course a student attended: the count the
      rate is meant to be taken over. */
  function ActiveAttendedSessions(t: Tables, courseId: int, studentId: int): nat {
    Count(t.attendances, (a: Attendance) => a.studentId == studentId && AtActiveSessionOf(t, a, courseId))
  }

  /** The summary with attendances counted over the active sessions only. */
  function ActiveSummary(t: Tables, courseId: int, student: Student): StudentAttendanceSummary {
    var attended := ActiveAttendedSessions(t, courseId, student.id);
    var total := |ActiveCourseSessions(t, courseId)|;
    StudentAttendanceSummary(student.id, FullName(student), student.studentCode, attended, total, Rate(attended, total))
  }

  /** In any consistent store a student attended at most as many active
      sessions of a course as it has, whatever was soft-deleted. */
  lemma ActiveAttendedAtMostActiveSessions(t: Tables, courseId: int, studentId: int)
    requires Consistent(t)
    ensures ActiveAttendedSessions(t, courseId, studentId) <= |ActiveCourseSessions(t, courseId)|
  {
    var p := (a: Attendance) => a.studentId == studentId && AtActiveSessionOf(t, a, courseId);
    var own := Where(t.attendances, p);
    var active := ActiveCourseSessions(t, courseId);
    CountIsWhereLength(t.attendances, p);
    UniqueByWhere(t.attendances, p, AttendancePair);
    forall i, j | 0 <= i < j < |own| ensures AttendanceSession(own[i]) != AttendanceSession(own[j]) {
      assert own[i] in own && own[j] in own;
      assert AttendancePair(own[i]) != AttendancePair(own[j]);
    }
    forall a | a in own ensures AttendanceSession(a) in Keys(active, SessionKey) {
      var s := FindSession(t.sessions, a.sessionId).value;
      assert s in active;
    }
    UniqueKeysBound(own, AttendanceSession, Keys(active, SessionKey));
  }

  /** Counted over the active sessions, every rate of a consistent store lies
      between 0 and 100, with no condition on soft-deleted sessions. */
  lemma ActiveRateWithinHundred(t: Tables, courseId: int, student: Student)
    requires Consistent(t)
    ensures 0.0 <= ActiveSummary(t, courseId, student).attendanceRate <= 100.0
  {
    ActiveAttendedAtMostActiveSessions(t, courseId, student.id);
    RateAtMostHundred(ActiveAttendedSessions(t, courseId, student.id), |ActiveCourseSessions(t, courseId)|);
  }

  /** The two counts agree as long as no session of the course was
      soft-deleted, so the correction changes nothing before a delete. */
  lemma ActiveSummaryAgrees(t: Tables, courseId: int, student: Student)
    requires forall s :: s in t.sessions && s.courseId == courseId ==> s.isActive
    ensures ActiveSummary(t, courseId, student) == Summary(t, courseId, student)
  {
    var p := (a: Attendance) => a.studentId == student.id && SessionCourse(t.sessions, a.sessionId) == Some(courseId);
    var q := (a: Attendance) => a.studentId == student.id && AtActiveSessionOf(t, a, courseId);
    CountIsWhereLength(t.attendances, p);
    CountIsWhereLength(t.attendances, q);
    WhereCongruent(t.attendances, p, q);
  }

  /** In a consistent store where every session of the course is active, all
      rates of its report, and its average, lie between 0 and 100. */
  lemma ReportRatesWithinHundred(t: Tables, course: Course)
    requires Consistent(t)
    requires forall s :: s in t.sessions && s.courseId == course.id ==> s.isActive
    ensures forall s :: s in CourseReport(t, course).studentSummaries ==> 0.0 <= s.attendanceRate <= 100.0
    ensures 0.0 <= CourseReport(t, course).attendanceRate <= 100.0
  {
    var summaries := Summaries(t, course.id, t.students);
    forall i | 0 <= i < |summaries| ensures 0.0 <= summaries[i].attendanceRate <= 100.0 {
      SummaryRateWithinHundred(t, course.id, t.students[i]);
    }
    OverallRateWithinHundred(summaries);
  }

  /** The mean of rates between 0 and 100 lies between 0 and 100. */
  lemma OverallRateWithinHundred(summaries: seq<StudentAttendanceSummary>)
    requires forall s :: s in summaries ==> 0.0 <= s.attendanceRate <= 100.0
    ensures |summaries| > 0 ==> 0.0 <= Average(Rates(summaries)) <= 100.0
  {
    if |summaries| > 0 {
      var rates := Rates(summaries);
      forall i | 0 <= i < |rates| ensures 0.0 <= rates[i] <= 100.0 {
        assert summaries[i] in summaries;
      }
      AverageBounds(rates, 0.0, 100.0);
    }
  }

  /** The courses reported on: the active ones, only the one with the given id
      when an id is supplied. */
  function ReportedCourses(t: Tables, courseId: Option<int>): (r: seq<Course>)
    ensures forall c :: c in r <==> c in t.courses && c.isActive && (courseId.Some? ==> c.id == courseId.value)
  {
    var active := Where(t.courses, (c: Course) => c.isActive);
    if courseId.Some? then Where(active, (c: Course) => c.id == courseId.value) else active
  }

  /** Since course ids are unique, asking for one course gives at most one report. */
  lemma AtMostOneReportedCourse(t: Tables, courseId: int)
    requires UniqueBy(t.courses, CourseKey)
    ensures |ReportedCourses(t, Some(courseId))| <= 1
  {
    var active := Where(t.courses, (c: Course) => c.isActive);
    UniqueByWhere(t.courses, (c: Course) => c.isActive, CourseKey);
    UniqueByWhere(active, (c: Course) => c.id == courseId, CourseKey);
    UniqueKeysBound(ReportedCourses(t, Some(courseId)), CourseKey, {courseId});
  }

  /** The reports of the first `n` courses, in their order. */
  function CourseReports(t: Tables, courses: seq<Course>, n: nat): (r: seq<AttendanceReportDto>)
    requires n <= |courses|
    ensures |r| == n
  {
    if n == 0 then [] else CourseReports(t, courses, n - 1) + [CourseReport(t, courses[n - 1])]
  }

  /** The report at each position is the report of the course at that position. */
  lemma {:induction false} CourseReportsAt(t: Tables, courses: seq<Course>, n: nat, i: nat)
    requires i < n <= |courses|
    ensures CourseReports(t, courses, n)[i] == CourseReport(t, courses[i])
  {
    if i < n - 1 {
      CourseReportsAt(t, courses, n - 1, i);
    }
  }

  /** `GetAttendanceReportsAsync`: one report per reported course, in the
      order the courses are stored. */
  method GetAttendanceReportsAsync(t: Tables, courseId: Option<int>) returns (reports: seq<AttendanceReportDto>)
    ensures var courses := ReportedCourses(t, courseId);
            reports == CourseReports(t, courses, |courses|)
  {
    var courses := ReportedCourses(t, courseId);
    reports := [];
    for i := 0 to |courses|
      invariant reports == CourseReports(t, courses, i)
    {
      var report := CourseReport(t, courses[i]);
      reports := reports + [report];
    }
  }

  /** How far under the threshold an alert is. */
  datatype AlertLevel = Warning | Critical

  /** One student under the threshold in one course. */
  datatype AttendanceAlert = AttendanceAlert(
    studentId: int,
    studentName: string,
    studentCode: string,
    courseId: int,
    courseName: string,
    courseCode: string,
    attendanceRate: real,
    attendedSessions: nat,
    totalSessions: nat,
    alertLevel: AlertLevel)

  /** The threshold used when none is given. */
  const DefaultThreshold: real := 70.0

  /** The alert that would be raised for a student in a course with `total`
      active sessions. */
  function AlertFor(t: Tables, course: Course, student: Student, total: nat): AttendanceAlert {
    var attended := AttendedSessions(t, course.id, student.id);
    var rate := Rate(attended, total);
    AttendanceAlert(student.id, FullName(student), student.studentCode, course.id, course.name, course.code,
                    rate, attended, total, if rate < 50.0 then Critical else Warning)
  }

  /** The alert carries the student's attendances among the course's, the
      rate over the given total, and is critical exactly when fewer than half
      of the sessions were attended. */
  lemma AlertForContents(t: Tables, course: Course, student: Student, total: nat)
    ensures var r := AlertFor(t, course, student, total);
            && r.studentId == student.id && r.courseId == course.id && r.totalSessions == total
            && r.attendedSessions == AttendedSessions(t, course.id, student.id)
            && r.attendanceRate == Rate(r.attendedSessions, total)
            && (total > 0 ==> (r.alertLevel == Critical <==> 2 * r.attendedSessions < total))
  {
    if total > 0 {
      CriticalIff(AttendedSessions(t, course.id, student.id), total);
    }
  }

  /** The alerts of a course for the first `n` students of the store, in
      their order: one for each student whose rate is strictly under the
      threshold. */
  function StudentAlerts(t: Tables, course: Course, threshold: real, total: nat, n: nat): seq<AttendanceAlert>
    requires n <= |t.students|
  {
    SelectWhere(t.students, (st: Student) => AlertFor(t, course, st, total),
                (al: AttendanceAlert) => al.attendanceRate < threshold, n)
  }

  /** `GenerateCourseAlertsAsync` as a value: nothing for a course without
      active sessions, otherwise the alerts of every student of the store. */
  function CourseAlerts(t: Tables, course: Course, threshold: real): (r: seq<AttendanceAlert>)
    ensures |ActiveCourseSessions(t, course.id)| == 0 ==> r == []
  {
    var total := |ActiveCourseSessions(t, course.id)|;
    if total == 0 then [] else StudentAlerts(t, course, threshold, total, |t.students|)
  }

  /** The alerts of a course are those of the stored students whose rate
      over its active sessions is strictly under the threshold. */
  lemma CourseAlertsMembers(t: Tables, course: Course, threshold: real, al: AttendanceAlert)
    ensures al in CourseAlerts(t, course, threshold) <==>
              && al.attendanceRate < threshold
              && |ActiveCourseSessions(t, course.id)| > 0
              && exists st :: st in t.students && al == AlertFor(t, course, st, |ActiveCourseSessions(t, course.id)|)
  {
    var total := |ActiveCourseSessions(t, course.id)|;
    if total > 0 {
      SelectWhereAllMembers(t.students, (st: Student) => AlertFor(t, course, st, total),
                            (al: AttendanceAlert) => al.attendanceRate < threshold, al);
    }
  }

  /** One more student extends the alerts by that student's alert when it
      is under the threshold. */
  lemma StudentAlertsStep(t: Tables, course: Course, threshold: real, total: nat, i: nat)
    requires i < |t.students|
    ensures var alert := AlertFor(t, course, t.students[i], total);
            StudentAlerts(t, course, threshold, total, i + 1)
            == StudentAlerts(t, course, threshold, total, i) + if alert.attendanceRate < threshold then [alert] else []
  {
  }

  /** `GenerateCourseAlertsAsync`: walks the students once, appending an alert
      for each one under the threshold. */
  method GenerateCourseAlertsAsync(t: Tables, course: Course, threshold: real) returns (alerts: seq<AttendanceAlert>)
    ensures alerts == CourseAlerts(t, course, threshold)
  {
    var total := |ActiveCourseSessions(t, course.id)|;
    if total == 0 {
      return [];
    }
    alerts := [];
    for i := 0 to |t.students|
      invariant alerts == StudentAlerts(t, course, threshold, total, i)
    {
      var alert := AlertFor(t, course, t.students[i], total);
      StudentAlertsStep(t, course, threshold, total, i);
      if alert.attendanceRate < threshold {
        alerts := alerts + [alert];
      }
    }
  }

  /** The alerts of the first `n` courses, course by course. */
  function AlertsOf(t: Tables, threshold: real, courses: seq<Course>, n: nat): seq<AttendanceAlert>
    requires n <= |courses|
  {
    SelectMany(courses, (c: Course) => CourseAlerts(t, c, threshold), n)
  }

  /** The courses alerts are raised for. */
  function ActiveCourses(t: Tables): (r: seq<Course>)
    ensures forall c :: c in r <==> c in t.courses && c.isActive
  {
    Where(t.courses, (c: Course) => c.isActive)
  }

  /** The alerts of every active course, course by course. */
  function AllAlerts(t: Tables, threshold: real): seq<AttendanceAlert> {
    var courses := ActiveCourses(t);
    AlertsOf(t, threshold, courses, |courses|)
  }

  /** The collected alerts are exactly those raised by the active courses. */
  lemma AllAlertsMembers(t: Tables, threshold: real, al: AttendanceAlert)
    ensures al in AllAlerts(t, threshold) <==> exists c :: c in ActiveCourses(t) && al in CourseAlerts(t, c, threshold)
  {
    SelectManyAllMembers(ActiveCourses(t), (c: Course) => CourseAlerts(t, c, threshold), al);
  }

  /** Lowest rate first. */
  function LowerRateFirst(a: AttendanceAlert, b: AttendanceAlert): bool {
    a.attendanceRate <= b.attendanceRate
  }

  /** `GetAttendanceAlertsAsync` as a value: the alerts of every active course,
      ordered by ascending rate. */
  function Alerts(t: Tables, threshold: real): (r: seq<AttendanceAlert>)
    ensures forall i, j :: 0 <= i < j < |r| ==> r[i].attendanceRate <= r[j].attendanceRate
    ensures multiset(r) == multiset(AllAlerts(t, threshold))
  {
    SortBy(AllAlerts(t, threshold), LowerRateFirst)
  }

  /** The alerts are exactly those of the active courses. */
  lemma AlertsMembers(t: Tables, threshold: real, al: AttendanceAlert)
    ensures al in Alerts(t, threshold) <==> exists c :: c in ActiveCourses(t) && al in CourseAlerts(t, c, threshold)
  {
    SortByMembers(AllAlerts(t, threshold), LowerRateFirst, al);
    AllAlertsMembers(t, threshold, al);
  }

  /** Every alert names an active course with active sessions and a stored
      student whose rate in it is strictly under the threshold. */
  lemma AlertsSound(t: Tables, threshold: real, al: AttendanceAlert)
    requires al in Alerts(t, threshold)
    ensures al.attendanceRate < threshold && al.totalSessions > 0
    ensures exists c, st :: c in t.courses && c.isActive && st in t.students
              && al == AlertFor(t, c, st, |ActiveCourseSessions(t, c.id)|)
  {
    AlertsMembers(t, threshold, al);
    var c :| c in ActiveCourses(t) && al in CourseAlerts(t, c, threshold);
    CourseAlertsMembers(t, c, threshold, al);
    var total := |ActiveCourseSessions(t, c.id)|;
    var st :| st in t.students && al == AlertFor(t, c, st, total);
  }

  /** Every student of the store whose rate in an active course with active
      sessions is strictly under the threshold has an alert. */
  lemma AlertsComplete(t: Tables, threshold: real, c: Course, st: Student)
    requires c in t.courses && c.isActive && st in t.students
    requires |ActiveCourseSessions(t, c.id)| > 0
    requires Rate(AttendedSessions(t, c.id, st.id), |ActiveCourseSessions(t, c.id)|) < threshold
    ensures AlertFor(t, c, st, |ActiveCourseSessions(t, c.id)|) in Alerts(t, threshold)
  {
    var al := AlertFor(t, c, st, |ActiveCourseSessions(t, c.id)|);
    CourseAlertsMembers(t, c, threshold, al);
    AlertsMembers(t, threshold, al);
  }

  /** `GetAttendanceAlertsAsync`: the alerts of each active course in turn,
      then ordered by ascending rate. */
  method GetAttendanceAlertsAsync(t: Tables, threshold: real) returns (alerts: seq<AttendanceAlert>)
    ensures alerts == Alerts(t, threshold)
  {
    var courses := ActiveCourses(t);
    var collected := [];
    for i := 0 to |courses|
      invariant collected == AlertsOf(t, threshold, courses, i)
    {
      var courseAlerts := GenerateCourseAlertsAsync(t, courses[i], threshold);
      collected := collected + courseAlerts;
    }
    alerts := SortBy(collected, LowerRateFirst);
  }
}
