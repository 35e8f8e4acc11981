/** The response and request shapes of the attendance endpoints. */
module Dtos {
  import opened Wrappers
  import opened Models

  datatype AttendanceDto = AttendanceDto(
    id: int,
    studentId: int,
    studentName: string,
    studentCode: string,
    sessionId: int,
    sessionTitle: string,
    courseCode: string,
    courseName: string,
    registeredAt: DateTime,
    isPresent: bool,
    notes: Option<string>)

  datatype RegisterAttendanceDto = RegisterAttendanceDto(
    studentId: int,
    sessionCode: string,
    notes: Option<string>)

  datatype StudentAttendanceSummary = StudentAttendanceSummary(
    studentId: int,
    studentName: string,
    studentCode: string,
    attendedSessions: nat,
    totalSessions: nat,
    attendanceRate: real)

  datatype AttendanceReportDto = AttendanceReportDto(
    courseId: int,
    courseName: string,
    courseCode: string,
    totalSessions: nat,
    totalStudents: nat,
    attendanceRate: real,
    studentSummaries: seq<StudentAttendanceSummary>)

  /** The response for a stored attendance, its student, its session and the
      session's course. */
  function MapToAttendanceDto(a: Attendance, student: Student, session: Session, course: Course): AttendanceDto {
    AttendanceDto(a.id, student.id, FullName(student), student.studentCode, session.id, session.title,
                  course.code, course.name, a.registeredAt, a.isPresent, a.notes)
  }
}
