/** The student endpoints (`api/students`): lookup by id and by code, the
    student's upcoming sessions course by course, creation, update, delete
    and the student's attendance list. */
module StudentsController {
  import opened Wrappers
  import opened Linq
  import opened Models
  import opened Data
  import opened Http
  import AttendanceService
  import AttendanceReports

  /** GET api/students/{id}: 404 exactly when no student has the id,
      otherwise 200 with that student. */
  function GetStudent(t: Tables, id: int): (r: ActionResult<Student>)
    ensures r.Ok? || r == NotFound("")
    ensures r.NotFound? <==> forall s :: s in t.students ==> s.id != id
    ensures r.Ok? ==> r.value in t.students && r.value.id == id
  {
    match FindStudent(t.students, id)
    case None => NotFound("")
    case Some(s) => Ok(s)
  }

  /** GET api/students/by-code/{code}: 404 naming the code exactly when no
      student has it, otherwise 200 with the student. */
  function GetStudentByCode(t: Tables, code: string): (r: ActionResult<Student>)
    ensures r.Ok? || r == NotFound("Estudiante con código " + code + " no encontrado")
    ensures r.NotFound? <==> forall s :: s in t.students ==> s.studentCode != code
    ensures r.Ok? ==> r.value in t.students && r.value.studentCode == code
  {
    match FirstWhere(t.students, (s: Student) => s.studentCode == code)
    case None => NotFound("Estudiante con código " + code + " no encontrado")
    case Some(s) => Ok(s)
  }

  // The schedule of a student: upcoming sessions, course by course.

  /** The student's attendance at a session, as the schedule shows it. */
  datatype AttendanceStatus = AttendanceStatus(isPresent: bool, registeredAt: DateTime, notes: Option<string>)

  datatype UpcomingSession = UpcomingSession(
    id: int,
    title: string,
    uniqueCode: string,
    date: DateTime,
    startTime: TimeSpan,
    endTime: TimeSpan,
    isToday: bool,
    isActive: bool,
    attendanceStatus: Option<AttendanceStatus>)

  datatype CourseSchedule = CourseSchedule(
    id: int,
    name: string,
    code: string,
    description: string,
    instructorName: string,
    sessions: seq<UpcomingSession>)

  datatype StudentInfo = StudentInfo(id: int, firstName: string, lastName: string, studentCode: string, email: string)

  datatype StudentSchedule = StudentSchedule(student: StudentInfo, courses: seq<CourseSchedule>)

  /** The student's attendance at the session, if one is stored. */
  function StatusOf(t: Tables, studentId: int, sessionId: int): (r: Option<AttendanceStatus>)
    ensures r.None? <==> forall a :: a in t.attendances ==> !(a.studentId == studentId && a.sessionId == sessionId)
    ensures r.Some? ==> exists a :: a in t.attendances && a.studentId == studentId && a.sessionId == sessionId
                                    && r.value == AttendanceStatus(a.isPresent, a.registeredAt, a.notes)
  {
    match FirstWhere(t.attendances, (a: Attendance) => a.studentId == studentId && a.sessionId == sessionId)
    case None => None
    case Some(a) => Some(AttendanceStatus(a.isPresent, a.registeredAt, a.notes))
  }

  /** Earlier date first, and on the same date earlier start first. */
  function EarlierFirst(a: Session, b: Session): bool {
    a.date < b.date || (a.date == b.date && a.startTime <= b.startTime)
  }

  /** The active sessions of the course dated today or later, in order of
      date and then start time. */
  function UpcomingSessions(t: Tables, courseId: int, today: DateTime): (r: seq<Session>)
    ensures forall s :: s in r <==> s in t.sessions && s.courseId == courseId && s.isActive && s.date >= today
    ensures Sorted(r, EarlierFirst)
  {
    var own := Where(t.sessions, (s: Session) => s.courseId == courseId && s.isActive && s.date >= today);
    var r := SortBy(own, EarlierFirst);
    assert forall s :: s in r <==> s in multiset(r);
    assert forall s :: s in own <==> s in multiset(own);
    r
  }

  /** How a session is shown to the student. */
  function Entry(t: Tables, studentId: int, today: DateTime, s: Session): UpcomingSession {
    UpcomingSession(s.id, s.title, s.uniqueCode, s.date, s.startTime, s.endTime, DatePart(s.date) == today,
                    s.isActive, StatusOf(t, studentId, s.id))
  }

  /** A session is flagged as today's exactly when it falls on the calendar
      day that starts at `today`; its status is the student's attendance at
      it, present exactly when one is stored. */
  lemma EntryContents(t: Tables, studentId: int, today: DateTime, s: Session)
    requires today % TicksPerDay == 0
    ensures var e := Entry(t, studentId, today, s);
            && e.id == s.id && e.date == s.date && e.startTime == s.startTime && e.isActive == s.isActive
            && (e.isToday <==> today <= s.date < today + TicksPerDay)
            && (e.attendanceStatus.Some? <==> exists a :: a in t.attendances && a.studentId == studentId && a.sessionId == s.id)
  {
    SameDayIff(s.date, today);
  }

  /** A course as the schedule shows it, with its upcoming sessions. */
  function ScheduleOf(t: Tables, studentId: int, today: DateTime, c: Course): CourseSchedule {
    var sessions := UpcomingSessions(t, c.id, today);
    CourseSchedule(c.id, c.name, c.code, c.description, c.instructorName,
                   seq(|sessions|, i requires 0 <= i < |sessions| => Entry(t, studentId, today, sessions[i])))
  }

  /** A course's schedule shows each of its active sessions dated today or
      later, and nothing else. */
  lemma ScheduleOfShowsUpcoming(t: Tables, studentId: int, today: DateTime, c: Course)
    ensures var cs := ScheduleOf(t, studentId, today, c);
      && (forall s :: s in t.sessions && s.courseId == c.id && s.isActive && s.date >= today ==>
            Entry(t, studentId, today, s) in cs.sessions)
      && (forall e :: e in cs.sessions ==>
            exists s :: s in t.sessions && s.courseId == c.id && s.isActive && s.date >= today
                        && e == Entry(t, studentId, today, s))
  {
    var sessions := UpcomingSessions(t, c.id, today);
    var entries := ScheduleOf(t, studentId, today, c).sessions;
    forall s | s in t.sessions && s.courseId == c.id && s.isActive && s.date >= today
      ensures Entry(t, studentId, today, s) in entries
    {
      var i :| 0 <= i < |sessions| && sessions[i] == s;
      assert entries[i] == Entry(t, studentId, today, s);
    }
    forall e | e in entries
      ensures exists s :: s in t.sessions && s.courseId == c.id && s.isActive && s.date >= today
                          && e == Entry(t, studentId, today, s)
    {
      var i :| 0 <= i < |entries| && entries[i] == e;
      assert sessions[i] in sessions;
    }
  }

  /** A course's schedule lists its sessions by date and, on the same date,
      by start time. */
  lemma ScheduleOfIsChronological(t: Tables, studentId: int, today: DateTime, c: Course)
    ensures var e := ScheduleOf(t, studentId, today, c).sessions;
      forall i, j :: 0 <= i < j < |e| ==>
        e[i].date < e[j].date || (e[i].date == e[j].date && e[i].startTime <= e[j].startTime)
  {
    var sessions := UpcomingSessions(t, c.id, today);
    var e := ScheduleOf(t, studentId, today, c).sessions;
    forall i, j | 0 <= i < j < |e|
      ensures e[i].date < e[j].date || (e[i].date == e[j].date && e[i].startTime <= e[j].startTime)
    {
      assert EarlierFirst(sessions[i], sessions[j]);
    }
  }

  /** The schedules of the active courses that have upcoming sessions, in
      store order. */
  function Schedules(t: Tables, studentId: int, today: DateTime): seq<CourseSchedule> {
    var courses := AttendanceReports.ActiveCourses(t);
    SelectWhere(courses, (c: Course) => ScheduleOf(t, studentId, today, c),
                (cs: CourseSchedule) => |cs.sessions| > 0, |courses|)
  }

  /** The schedule lists exactly the active courses with at least one
      upcoming session. */
  lemma SchedulesMembers(t: Tables, studentId: int, today: DateTime, cs: CourseSchedule)
    ensures cs in Schedules(t, studentId, today) <==>
              |cs.sessions| > 0 && exists c :: c in t.courses && c.isActive && cs == ScheduleOf(t, studentId, today, c)
  {
    var courses := AttendanceReports.ActiveCourses(t);
    SelectWhereAllMembers(courses, (c: Course) => ScheduleOf(t, studentId, today, c),
                          (cs: CourseSchedule) => |cs.sessions| > 0, cs);
  }

  /** A course drops out of the schedule exactly when it has no active
      session dated today or later. */
  lemma ScheduleEmptyIff(t: Tables, studentId: int, today: DateTime, c: Course)
    ensures |ScheduleOf(t, studentId, today, c).sessions| == 0 <==>
              forall s :: s in t.sessions && s.courseId == c.id && s.isActive ==> s.date < today
  {
    var sessions := UpcomingSessions(t, c.id, today);
    if |sessions| > 0 {
      assert sessions[0] in sessions;
    }
  }

  /** GET api/students/{id}/courses-with-sessions: 404 with "Estudiante no
      encontrado" exactly when no student has the id; otherwise 200 with the
      student's details and the schedule. */
  function GetStudentCoursesWithSessions(t: Tables, id: int, today: DateTime): (r: ActionResult<StudentSchedule>)
    ensures r.Ok? || r == NotFound("Estudiante no encontrado")
    ensures r.NotFound? <==> forall s :: s in t.students ==> s.id != id
    ensures r.Ok? ==>
              && (exists s :: s in t.students && s.id == id
                              && r.value.student == StudentInfo(s.id, s.firstName, s.lastName, s.studentCode, s.email))
              && r.value.courses == Schedules(t, id, today)
  {
    match FindStudent(t.students, id)
    case None => NotFound("Estudiante no encontrado")
    case Some(s) =>
      Ok(StudentSchedule(StudentInfo(s.id, s.firstName, s.lastName, s.studentCode, s.email), Schedules(t, id, today)))
  }

  /** The row `PostStudent` adds: the posted student, created now, its id the
      posted one or one above the student counter when the posted id is unset
      (0). */
  function NewStudent(ids: Identities, posted: Student, now: DateTime): Student {
    posted.(id := if posted.id == 0 then ids.student + 1 else posted.id, createdAt := now)
  }

  /** POST api/students: the posted student is stored, created now, and
      echoed with 201, unless its id, e-mail or code is taken, in which case
      the save fails, nothing is stored and the answer is 400. */
  method PostStudent(ctx: AttendanceContext, posted: Student, now: DateTime) returns (r: ActionResult<Student>)
    requires ctx.Valid()
    modifies ctx
    ensures ctx.Valid()
    ensures var s := NewStudent(old(ctx.identities), posted, now);
            var accepted := forall y :: y in old(ctx.students) ==>
                              y.id != s.id && y.email != s.email && y.studentCode != s.studentCode;
            && (accepted ==> r == Created(s) && ctx.Snapshot() == old(ctx.Snapshot()).(students := old(ctx.students) + [s])
                             && ctx.identities == old(ctx.identities).(student := Raise(old(ctx.identities).student, s.id)))
            && (!accepted ==> r == BadRequest("Error creating student: " + SaveFailedMessage)
                              && ctx.Snapshot() == old(ctx.Snapshot()) && ctx.identities == old(ctx.identities))
  {
    var t := ctx.Snapshot();
    var s := NewStudent(ctx.identities, posted, now);
    AppendStudentConsistentIff(t, s);
    AdvanceAppendStudent(ctx.identities, t, s);
    var saved := ctx.SaveChanges(t.(students := t.students + [s]));
    r := if saved then Created(s) else BadRequest("Error creating student: " + SaveFailedMessage);
  }

  /** The stored student with the four editable fields taken from the body. */
  function Updated(existing: Student, body: Student): Student {
    existing.(firstName := body.firstName, lastName := body.lastName, email := body.email, studentCode := body.studentCode)
  }

  /** PUT api/students/{id}: 400 "ID mismatch" when the path id differs from
      the body's; 404 when no student has the id; otherwise only the first
      name, last name, e-mail and code are overwritten (id and creation time
      stay) and the answer is 204, unless another student has the e-mail or
      the code, in which case nothing changes and the answer is 400. */
  method PutStudent(ctx: AttendanceContext, id: int, student: Student) returns (r: ActionResult<()>)
    requires ctx.Valid()
    modifies ctx
    ensures ctx.Valid() && ctx.identities == old(ctx.identities)
    ensures id != student.id ==> r == BadRequest("ID mismatch") && ctx.Snapshot() == old(ctx.Snapshot())
    ensures id == student.id && (forall x :: x in old(ctx.students) ==> x.id != id) ==>
              r == NotFound("") && ctx.Snapshot() == old(ctx.Snapshot())
    ensures forall x :: id == student.id && x in old(ctx.students) && x.id == id ==>
              var accepted := forall y :: y in old(ctx.students) && y.id != id ==>
                                y.email != student.email && y.studentCode != student.studentCode;
              && (accepted ==> r == NoContent && ctx.Snapshot() == ReplaceStudent(old(ctx.Snapshot()), Updated(x, student)))
              && (!accepted ==> r == BadRequest("Error updating student: " + SaveFailedMessage)
                                && ctx.Snapshot() == old(ctx.Snapshot()))
  {
    if id != student.id {
      return BadRequest("ID mismatch");
    }
    var t := ctx.Snapshot();
    var found := FindStudent(t.students, id);
    if found.None? {
      return NotFound("");
    }
    var x := found.value;
    forall y | y in t.students && y.id == id ensures y == x {
      UniqueByMembers(t.students, StudentKey, y, x);
    }
    var updated := Updated(x, student);
    ReplaceStudentConsistentIff(t, updated);
    ReplaceStudentKeepsIdentities(ctx.identities, t, updated);
    var saved := ctx.SaveChanges(ReplaceStudent(t, updated));
    r := if saved then NoContent else BadRequest("Error updating student: " + SaveFailedMessage);
  }

  /** DELETE api/students/{id}: 404 when no student has the id; otherwise the
      student and, by cascade, every attendance of the student are removed,
      and the answer is 204. */
  method DeleteStudent(ctx: AttendanceContext, id: int) returns (r: ActionResult<()>)
    requires ctx.Valid()
    modifies ctx
    ensures ctx.Valid() && ctx.identities == old(ctx.identities)
    ensures (forall x :: x in old(ctx.students) ==> x.id != id) ==> r == NotFound("") && ctx.Snapshot() == old(ctx.Snapshot())
    ensures (exists x :: x in old(ctx.students) && x.id == id) ==>
              r == NoContent && ctx.Snapshot() == RemoveStudentCascade(old(ctx.Snapshot()), id)
  {
    var t := ctx.Snapshot();
    if FindStudent(t.students, id).None? {
      return NotFound("");
    }
    RemoveKeepsIdentities(ctx.identities, t, RemoveStudentCascade(t, id));
    var saved := ctx.SaveChanges(RemoveStudentCascade(t, id));
    assert saved;
    r := NoContent;
  }

  /** A student posted without an id after a delete never gets the deleted
      student's id, nor the id of any student still stored: the delete leaves
      the counter where it was, and the counter is at least every id. */
  lemma DeletedStudentIdIsNotReused(t: Tables, ids: Identities, id: int, posted: Student, now: DateTime)
    requires Consistent(t) && Covers(ids, t)
    requires exists x :: x in t.students && x.id == id
    requires posted.id == 0
    ensures var t' := RemoveStudentCascade(t, id);
            var s := NewStudent(Advance(ids, t'), posted, now);
            && s.id != id
            && forall y :: y in t'.students ==> y.id != s.id
  {
    RemoveKeepsIdentities(ids, t, RemoveStudentCascade(t, id));
  }

  /** After a delete the student is no longer found, has no history and no
      attendance, while every other student's attendances stay. */
  lemma DeletedStudentIsGone(t: Tables, id: int)
    requires Consistent(t)
    ensures Consistent(RemoveStudentCascade(t, id))
    ensures GetStudent(RemoveStudentCascade(t, id), id).NotFound?
    ensures AttendanceService.GetStudentAttendanceHistory(RemoveStudentCascade(t, id), id).Failure?
    ensures GetStudentAttendance(RemoveStudentCascade(t, id), id).value == []
    ensures forall a :: a in t.attendances && a.studentId != id ==> a in RemoveStudentCascade(t, id).attendances
  {
    var t' := RemoveStudentCascade(t, id);
    assert forall s :: s in t'.students ==> s.id != id;
    assert forall a :: a in t'.attendances ==> a.studentId != id;
    assert OwnAttendances(t', id) == [];
  }

  // The student's attendance list.

  /** One attendance as the list shows it. */
  datatype AttendanceEntry = AttendanceEntry(
    id: int,
    sessionTitle: string,
    courseName: string,
    courseCode: string,
    date: DateTime,
    isPresent: bool,
    registeredAt: DateTime,
    notes: Option<string>)

  /** The entry for a stored attendance: its session's title and date, and its
      course's name and code. */
  function EntryFor(t: Tables, a: Attendance): (r: AttendanceEntry)
    requires ForeignKeys(t) && a in t.attendances
    ensures r.id == a.id && r.isPresent == a.isPresent && r.registeredAt == a.registeredAt && r.notes == a.notes
    ensures exists s :: s in t.sessions && s.id == a.sessionId && r.sessionTitle == s.title && r.date == s.date
                        && exists c :: c in t.courses && c.id == s.courseId && r.courseName == c.name && r.courseCode == c.code
  {
    var session := FindSession(t.sessions, a.sessionId).value;
    var course := FindCourse(t.courses, session.courseId).value;
    AttendanceEntry(a.id, session.title, course.name, course.code, session.date, a.isPresent, a.registeredAt, a.notes)
  }

  /** The entries for a list of stored attendances, in the same order. */
  function EntriesFor(t: Tables, records: seq<Attendance>): (r: seq<AttendanceEntry>)
    requires ForeignKeys(t) && forall a :: a in records ==> a in t.attendances
    ensures |r| == |records|
  {
    seq(|records|, i requires 0 <= i < |records| => EntryFor(t, records[i]))
  }

  /** Later session date first. */
  function LaterSessionFirst(x: AttendanceEntry, y: AttendanceEntry): bool {
    x.date >= y.date
  }

  /** The attendances of the student, in store order. */
  function OwnAttendances(t: Tables, id: int): (r: seq<Attendance>)
    ensures forall a :: a in r <==> a in t.attendances && a.studentId == id
    ensures (forall a :: a in t.attendances ==> a.studentId != id) ==> r == []
  {
    var own := (a: Attendance) => a.studentId == id;
    if forall a :: a in t.attendances ==> a.studentId != id then
      WhereNone(t.attendances, own);
      Where(t.attendances, own)
    else
      Where(t.attendances, own)
  }

  /** GET api/students/{id}/attendance: always 200 (an unknown id gives an
      empty list), one entry per attendance of the student, latest session
      date first. */
  function GetStudentAttendance(t: Tables, id: int): (r: ActionResult<seq<AttendanceEntry>>)
    requires ForeignKeys(t)
    ensures r.Ok?
    ensures |r.value| == |OwnAttendances(t, id)|
    ensures forall i, j :: 0 <= i < j < |r.value| ==> r.value[i].date >= r.value[j].date
  {
    Ok(SortBy(EntriesFor(t, OwnAttendances(t, id)), LaterSessionFirst))
  }

  /** Every attendance of a list has its entry among the list's entries. */
  lemma EntriesCoverRecords(t: Tables, records: seq<Attendance>, a: Attendance)
    requires ForeignKeys(t) && forall a :: a in records ==> a in t.attendances
    requires a in records
    ensures EntryFor(t, a) in EntriesFor(t, records)
  {
    var i :| 0 <= i < |records| && records[i] == a;
    assert EntriesFor(t, records)[i] == EntryFor(t, a);
  }

  /** The entries of a list of attendances are exactly the entries of its
      members. */
  lemma EntriesForMembers(t: Tables, records: seq<Attendance>, e: AttendanceEntry)
    requires ForeignKeys(t) && forall a :: a in records ==> a in t.attendances
    ensures e in EntriesFor(t, records) <==> exists a :: a in records && e == EntryFor(t, a)
  {
    var entries := EntriesFor(t, records);
    if e in entries {
      var i :| 0 <= i < |entries| && entries[i] == e;
      assert records[i] in records;
    }
    if exists a :: a in records && e == EntryFor(t, a) {
      var a :| a in records && e == EntryFor(t, a);
      EntriesCoverRecords(t, records, a);
    }
  }

  /** The list holds the entry of every attendance of the student, and
      nothing else. */
  lemma GetStudentAttendanceMembers(t: Tables, id: int, e: AttendanceEntry)
    requires ForeignKeys(t)
    ensures e in GetStudentAttendance(t, id).value <==>
              exists a :: a in t.attendances && a.studentId == id && e == EntryFor(t, a)
  {
    var own := OwnAttendances(t, id);
    SortByMembers(EntriesFor(t, own), LaterSessionFirst, e);
    EntriesForMembers(t, own, e);
  }
}
