/** The report endpoints (`api/reports`): course reports, a student's
    history and the low-attendance alerts. Each handler repeats the steps of
    the corresponding service operation (the same queries, counts and
    arithmetic), so it is modelled by the same definitions and answers 200
    with their result. */
module ReportsController {
  import opened Wrappers
  import opened Models
  import opened Data
  import opened Dtos
  import opened Http
  import AttendanceService
  import AttendanceReports

  /** GET api/reports/attendance: always 200, one report per active course
      (only the course with the given id, when one is given), in store
      order. */
  method GetAttendanceReports(t: Tables, courseId: Option<int>) returns (r: ActionResult<seq<AttendanceReportDto>>)
    ensures r.Ok?
    ensures var courses := AttendanceReports.ReportedCourses(t, courseId);
            && |r.value| == |courses|
            && forall i :: 0 <= i < |courses| ==> r.value[i] == AttendanceReports.CourseReport(t, courses[i])
  {
    var courses := AttendanceReports.ReportedCourses(t, courseId);
    var reports := AttendanceReports.GetAttendanceReportsAsync(t, courseId);
    forall i | 0 <= i < |courses| ensures reports[i] == AttendanceReports.CourseReport(t, courses[i]) {
      AttendanceReports.CourseReportsAt(t, courses, |courses|, i);
    }
    r := Ok(reports);
  }

  /** GET api/reports/attendance/student/{studentId}: 404 with "Estudiante no
      encontrado" exactly when no student has the id; otherwise 200 with a
      response for each of the student's attendances and for no other's,
      newest registration first. */
  function GetStudentAttendanceHistory(t: Tables, studentId: int): (r: ActionResult<seq<AttendanceDto>>)
    requires ForeignKeys(t)
    ensures r.Ok? || r == NotFound("Estudiante no encontrado")
    ensures r.NotFound? <==> forall st :: st in t.students ==> st.id != studentId
    ensures r.Ok? ==>
              && (forall d :: d in r.value ==> d.studentId == studentId)
              && (forall i, j :: 0 <= i < j < |r.value| ==> r.value[i].registeredAt >= r.value[j].registeredAt)
              && (forall a :: a in t.attendances && a.studentId == studentId ==>
                    AttendanceService.AttendanceView(t, a) in r.value)
    ensures r.Ok? ==> |r.value| == |AttendanceService.HistoryRecords(t, studentId)|
    ensures r.Ok? ==>
              forall d :: d in r.value <==>
                exists a :: a in t.attendances && a.studentId == studentId && d == AttendanceService.AttendanceView(t, a)
  {
    match AttendanceService.GetStudentAttendanceHistory(t, studentId)
    case Failure(_) => NotFound("Estudiante no encontrado")
    case Success(views) => Ok(views)
  }

  /** GET api/reports/attendance/alerts: always 200 with the alerts for the
      given threshold, 70 when none is given, lowest rate first; every alert
      is under the threshold and concerns a course with active sessions. */
  method GetAttendanceAlerts(t: Tables, threshold: Option<real>) returns (r: ActionResult<seq<AttendanceReports.AttendanceAlert>>)
    ensures var th := if threshold.Some? then threshold.value else AttendanceReports.DefaultThreshold;
            && r == Ok(AttendanceReports.Alerts(t, th))
            && forall al :: al in r.value ==> al.attendanceRate < th && al.totalSessions > 0
  {
    var th := if threshold.Some? then threshold.value else AttendanceReports.DefaultThreshold;
    var alerts := AttendanceReports.GetAttendanceAlertsAsync(t, th);
    forall al | al in alerts ensures al.attendanceRate < th && al.totalSessions > 0 {
      AttendanceReports.AlertsSound(t, th, al);
    }
    r := Ok(alerts);
  }
}
