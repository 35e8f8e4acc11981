/** The four entities of the system, as the rows the store keeps. */
module Models {
  import opened Wrappers

  /** A .NET `DateTime`, as its count of 100-nanosecond ticks since 0001-01-01. */
  type DateTime = nat

  /** A .NET `TimeSpan` (a time of day for a session), as a signed tick count. */
  type TimeSpan = int

  const TicksPerDay: nat := 864_000_000_000

  /** `DateTime.Date`: midnight of the same calendar day. */
  function DatePart(t: DateTime): (d: DateTime)
    ensures d <= t < d + TicksPerDay
    ensures d % TicksPerDay == 0
  {
    t - t % TicksPerDay
  }

  /** Two instants fall on the same calendar day exactly when their date parts agree. */
  lemma SameDayIff(t: DateTime, day: DateTime)
    requires day % TicksPerDay == 0
    ensures DatePart(t) == day <==> day <= t < day + TicksPerDay
  {
  }

  datatype Student = Student(
    id: int,
    firstName: string,
    lastName: string,
    email: string,
    studentCode: string,
    createdAt: DateTime)

  datatype Course = Course(
    id: int,
    name: string,
    code: string,
    description: string,
    instructorName: string,
    isActive: bool,
    createdAt: DateTime)

  datatype Session = Session(
    id: int,
    courseId: int,
    title: string,
    date: DateTime,
    startTime: TimeSpan,
    endTime: TimeSpan,
    uniqueCode: string,
    isActive: bool,
    createdAt: DateTime)

  datatype Attendance = Attendance(
    id: int,
    studentId: int,
    sessionId: int,
    registeredAt: DateTime,
    isPresent: bool,
    notes: Option<string>)

  /** The name shown for a student in every response: first name, a space, last name. */
  function FullName(s: Student): string {
    s.firstName + " " + s.lastName
  }
}
