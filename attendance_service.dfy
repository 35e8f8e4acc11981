/** Registration of attendance and the read-only queries over attendances:
    filtering, lookup by id and a student's history. */
module AttendanceService {
  import opened Wrappers
  import opened Linq
  import opened Models
  import opened Data
  import opened Dtos

  /** The four ways a registration is refused, in the order they are checked. */
  datatype ServiceError = InvalidSessionCode | SessionNotActiveToday | StudentNotFound | AlreadyRegistered

  /** The message each refusal carries. */
  function Message(e: ServiceError): string {
    match e
    case InvalidSessionCode => "Código de sesión no válido"
    case SessionNotActiveToday => "Esta sesión no está activa para hoy"
    case StudentNotFound => "Estudiante no encontrado"
    case AlreadyRegistered => "La asistencia ya fue registrada para esta sesión"
  }

  /** Each refusal has its own message, so a client can tell them apart. */
  lemma MessagesDistinct(e: ServiceError, f: ServiceError)
    requires e != f
    ensures Message(e) != Message(f)
  {
    assert |Message(e)| != |Message(f)|;
  }

  /** The first active session whose join code is `code`. */
  function FindActiveSessionByCode(sessions: seq<Session>, code: string): (r: Option<Session>)
    ensures r.None? <==> forall s :: s in sessions ==> !(s.uniqueCode == code && s.isActive)
    ensures r.Some? ==> r.value in sessions && r.value.uniqueCode == code && r.value.isActive
  {
    FirstWhere(sessions, (s: Session) => s.uniqueCode == code && s.isActive)
  }

  /** Whether an attendance for the (student, session) pair is already stored. */
  function HasAttendance(attendances: seq<Attendance>, studentId: int, sessionId: int): (r: bool)
    ensures r <==> exists a :: a in attendances && a.studentId == studentId && a.sessionId == sessionId
  {
    FirstWhere(attendances, (a: Attendance) => a.studentId == studentId && a.sessionId == sessionId).Some?
  }

  /** What a registration that passes every check refers to. */
  datatype Registration = Registration(session: Session, student: Student)

  /** The checks of a registration, in order, the first failure ending them:
      an active session with the code, dated today, an existing student, and no
      attendance yet for that student and session. */
  function ValidateRegistration(t: Tables, studentId: int, sessionCode: string, today: DateTime)
    : (r: Result<Registration, ServiceError>)
    ensures r == Failure(InvalidSessionCode) <==>
              forall s :: s in t.sessions ==> !(s.uniqueCode == sessionCode && s.isActive)
    ensures r == Failure(SessionNotActiveToday) ==>
              exists s :: s in t.sessions && s.uniqueCode == sessionCode && s.isActive && DatePart(s.date) != today
    ensures r == Failure(StudentNotFound) ==>
              && (exists s :: s in t.sessions && s.uniqueCode == sessionCode && s.isActive && DatePart(s.date) == today)
              && forall st :: st in t.students ==> st.id != studentId
    ensures r == Failure(AlreadyRegistered) ==>
              && (exists st :: st in t.students && st.id == studentId)
              && exists s, a :: s in t.sessions && s.uniqueCode == sessionCode && s.isActive && DatePart(s.date) == today
                                && a in t.attendances && a.studentId == studentId && a.sessionId == s.id
    ensures r.Success? ==>
              && r.value.session in t.sessions && r.value.session.uniqueCode == sessionCode && r.value.session.isActive
              && DatePart(r.value.session.date) == today
              && r.value.student in t.students && r.value.student.id == studentId
              && forall a :: a in t.attendances ==> !(a.studentId == studentId && a.sessionId == r.value.session.id)
  {
    match FindActiveSessionByCode(t.sessions, sessionCode)
    case None => Failure(InvalidSessionCode)
    case Some(session) =>
      if DatePart(session.date) != today then Failure(SessionNotActiveToday)
      else
        match FindStudent(t.students, studentId)
        case None => Failure(StudentNotFound)
        case Some(student) =>
          if HasAttendance(t.attendances, studentId, session.id) then Failure(AlreadyRegistered)
          else Success(Registration(session, student))
  }

  /** In a consistent store the join code names at most one session, so once an
      active session with the code exists, the outcome is decided by that
      session's date, the student and the earlier attendances alone. */
  lemma ValidationOrder(t: Tables, studentId: int, sessionCode: string, today: DateTime, s: Session)
    requires Consistent(t)
    requires s in t.sessions && s.uniqueCode == sessionCode && s.isActive
    ensures var r := ValidateRegistration(t, studentId, sessionCode, today);
      && (DatePart(s.date) != today ==> r == Failure(SessionNotActiveToday))
      && (DatePart(s.date) == today && (forall st :: st in t.students ==> st.id != studentId) ==>
            r == Failure(StudentNotFound))
      && (DatePart(s.date) == today && (exists st :: st in t.students && st.id == studentId) ==>
            (r == Failure(AlreadyRegistered) <==> HasAttendance(t.attendances, studentId, s.id)))
      && (r.Success? ==> r.value.session == s)
  {
    var found := FindActiveSessionByCode(t.sessions, sessionCode);
    assert found.Some?;
    assert SessionCode(found.value) == SessionCode(s);
    UniqueByMembers(t.sessions, SessionCode, found.value, s);
  }

  /** The row a successful registration adds: the next identity, the student,
      the session found by its code, present, the notes as given and the
      current instant. */
  function NewAttendance(ids: Identities, dto: RegisterAttendanceDto, session: Session, now: DateTime): Attendance {
    Attendance(ids.attendance + 1, dto.studentId, session.id, now, true, dto.notes)
  }

  /** A registration that passes the checks never violates a key, a unique
      index or a foreign key: the checks agree with the schema. */
  lemma RegistrationKeepsConsistent(t: Tables, ids: Identities, dto: RegisterAttendanceDto, today: DateTime,
                                    now: DateTime)
    requires Consistent(t) && Covers(ids, t)
    requires ValidateRegistration(t, dto.studentId, dto.sessionCode, today).Success?
    ensures var reg := ValidateRegistration(t, dto.studentId, dto.sessionCode, today).value;
            Consistent(t.(attendances := t.attendances + [NewAttendance(ids, dto, reg.session, now)]))
  {
    var reg := ValidateRegistration(t, dto.studentId, dto.sessionCode, today).value;
    var a := NewAttendance(ids, dto, reg.session, now);
    assert FindStudent(t.students, a.studentId).Some?;
    assert FindSession(t.sessions, a.sessionId).Some?;
    AppendAttendanceKeepsConsistent(t, a);
  }

  /** Registering the same student with the same code a second time is refused
      as a duplicate. */
  lemma SecondRegistrationIsDuplicate(t: Tables, ids: Identities, dto: RegisterAttendanceDto, today: DateTime,
                                      now: DateTime)
    requires ValidateRegistration(t, dto.studentId, dto.sessionCode, today).Success?
    ensures var reg := ValidateRegistration(t, dto.studentId, dto.sessionCode, today).value;
            var t' := t.(attendances := t.attendances + [NewAttendance(ids, dto, reg.session, now)]);
            ValidateRegistration(t', dto.studentId, dto.sessionCode, today) == Failure(AlreadyRegistered)
  {
    var reg := ValidateRegistration(t, dto.studentId, dto.sessionCode, today).value;
    var a := NewAttendance(ids, dto, reg.session, now);
    var t' := t.(attendances := t.attendances + [a]);
    assert a in t'.attendances;
    assert HasAttendance(t'.attendances, dto.studentId, reg.session.id);
  }

  /** `RegisterAttendanceAsync`: runs the checks; on success appends exactly one
      attendance and answers with its composed response. A refusal leaves the
      store as it was. */
  method RegisterAttendanceAsync(ctx: AttendanceContext, dto: RegisterAttendanceDto, today: DateTime, now: DateTime)
    returns (r: Result<AttendanceDto, ServiceError>)
    requires ctx.Valid()
    modifies ctx
    ensures ctx.Valid()
    ensures var v := ValidateRegistration(old(ctx.Snapshot()), dto.studentId, dto.sessionCode, today);
      && (v.Failure? ==> r == Failure(v.error) && ctx.Snapshot() == old(ctx.Snapshot())
                         && ctx.identities == old(ctx.identities))
      && (v.Success? ==>
            var a := Attendance(old(ctx.identities).attendance + 1, dto.studentId, v.value.session.id,
                                now, true, dto.notes);
            var course := FindCourse(old(ctx.courses), v.value.session.courseId);
            && ctx.Snapshot() == old(ctx.Snapshot()).(attendances := old(ctx.attendances) + [a])
            && ctx.identities == old(ctx.identities).(attendance := a.id)
            && course.Some?
            && r == Success(MapToAttendanceDto(a, v.value.student, v.value.session, course.value)))
  {
    var t := ctx.Snapshot();
    var v := ValidateRegistration(t, dto.studentId, dto.sessionCode, today);
    if v.Failure? {
      return Failure(v.error);
    }
    var session, student := v.value.session, v.value.student;
    var attendance := NewAttendance(ctx.identities, dto, session, now);
    RegistrationKeepsConsistent(t, ctx.identities, dto, today, now);
    AdvanceAppendAttendance(ctx.identities, t, attendance);
    var saved := ctx.SaveChanges(t.(attendances := t.attendances + [attendance]));
    assert saved;
    var course := FindCourse(t.courses, session.courseId).value;
    r := Success(MapToAttendanceDto(attendance, student, session, course));
  }

  /** The response for a stored attendance: its own fields, and the names and
      codes of the student, session and course it refers to. */
  function AttendanceView(t: Tables, a: Attendance): (r: AttendanceDto)
    requires ForeignKeys(t) && a in t.attendances
    ensures && r.id == a.id && r.studentId == a.studentId && r.sessionId == a.sessionId
            && r.registeredAt == a.registeredAt && r.isPresent == a.isPresent && r.notes == a.notes
    ensures exists st :: st in t.students && st.id == a.studentId
                         && r.studentName == FullName(st) && r.studentCode == st.studentCode
    ensures exists se, c :: se in t.sessions && se.id == a.sessionId && r.sessionTitle == se.title
                            && c in t.courses && c.id == se.courseId && r.courseCode == c.code && r.courseName == c.name
  {
    var student := FindStudent(t.students, a.studentId).value;
    var session := FindSession(t.sessions, a.sessionId).value;
    var course := FindCourse(t.courses, session.courseId).value;
    MapToAttendanceDto(a, student, session, course)
  }

  /** The responses for a list of stored attendances, in the same order. */
  function AttendanceViews(t: Tables, records: seq<Attendance>): (r: seq<AttendanceDto>)
    requires ForeignKeys(t) && forall a :: a in records ==> a in t.attendances
    ensures |r| == |records|
    ensures forall i :: 0 <= i < |records| ==> r[i] == AttendanceView(t, records[i])
  {
    if |records| == 0 then [] else [AttendanceView(t, records[0])] + AttendanceViews(t, records[1..])
  }

  /** The attendances that pass every filter supplied (the course through the
      session's course, the student, the session); an omitted filter admits
      every row. */
  function FilterAttendances(t: Tables, courseId: Option<int>, studentId: Option<int>, sessionId: Option<int>)
    : (r: seq<Attendance>)
    ensures forall a :: a in r <==>
              && a in t.attendances
              && (courseId.Some? ==> SessionCourse(t.sessions, a.sessionId) == courseId)
              && (studentId.Some? ==> a.studentId == studentId.value)
              && (sessionId.Some? ==> a.sessionId == sessionId.value)
    ensures forall a :: multiset(r)[a] ==
              if && (courseId.Some? ==> SessionCourse(t.sessions, a.sessionId) == courseId)
                 && (studentId.Some? ==> a.studentId == studentId.value)
                 && (sessionId.Some? ==> a.sessionId == sessionId.value)
              then multiset(t.attendances)[a] else 0
  {
    var q0 := t.attendances;
    var q1 := if courseId.Some? then Where(q0, (a: Attendance) => SessionCourse(t.sessions, a.sessionId) == courseId) else q0;
    var q2 := if studentId.Some? then Where(q1, (a: Attendance) => a.studentId == studentId.value) else q1;
    if sessionId.Some? then Where(q2, (a: Attendance) => a.sessionId == sessionId.value) else q2
  }

  /** With no filter supplied every stored attendance is returned, in order. */
  lemma NoFilterReturnsAll(t: Tables)
    ensures FilterAttendances(t, None, None, None) == t.attendances
  {
  }

  /** `GetAttendancesAsync`: the responses for the filtered attendances. */
  function GetAttendances(t: Tables, courseId: Option<int>, studentId: Option<int>, sessionId: Option<int>)
    : (r: seq<AttendanceDto>)
    requires ForeignKeys(t)
    ensures |r| == |FilterAttendances(t, courseId, studentId, sessionId)|
    ensures forall d :: d in r ==>
              && (studentId.Some? ==> d.studentId == studentId.value)
              && (sessionId.Some? ==> d.sessionId == sessionId.value)
              && (courseId.Some? ==> SessionCourse(t.sessions, d.sessionId) == courseId)
  {
    var records := FilterAttendances(t, courseId, studentId, sessionId);
    var r := AttendanceViews(t, records);
    forall d | d in r
      ensures && (studentId.Some? ==> d.studentId == studentId.value)
              && (sessionId.Some? ==> d.sessionId == sessionId.value)
              && (courseId.Some? ==> SessionCourse(t.sessions, d.sessionId) == courseId)
    {
      var i :| 0 <= i < |r| && r[i] == d;
      assert records[i] in records;
    }
    r
  }

  /** `GetAttendanceByIdAsync`: the response for the attendance with the id, or
      nothing when no attendance has it. */
  function GetAttendanceById(t: Tables, id: int): (r: Option<AttendanceDto>)
    requires ForeignKeys(t)
    ensures r.None? <==> forall a :: a in t.attendances ==> a.id != id
    ensures r.Some? ==> exists a :: a in t.attendances && a.id == id && r.value == AttendanceView(t, a)
  {
    match FindAttendance(t.attendances, id)
    case None => None
    case Some(a) => Some(AttendanceView(t, a))
  }

  /** Newest registration first. */
  function NewerFirst(a: Attendance, b: Attendance): bool {
    a.registeredAt >= b.registeredAt
  }

  /** A student's attendances, newest registration first. */
  function HistoryRecords(t: Tables, studentId: int): (r: seq<Attendance>)
    ensures forall a :: multiset(r)[a] == if a.studentId == studentId then multiset(t.attendances)[a] else 0
    ensures forall a :: a in r <==> a in t.attendances && a.studentId == studentId
    ensures forall i, j :: 0 <= i < j < |r| ==> r[i].registeredAt >= r[j].registeredAt
  {
    var own := Where(t.attendances, (a: Attendance) => a.studentId == studentId);
    var r := SortBy(own, NewerFirst);
    assert forall a :: a in r <==> a in multiset(r);
    assert forall a :: a in own <==> a in multiset(own);
    r
  }

  /** Each history response belongs to the student, and the responses keep the
      newest-first order of the records. */
  lemma HistoryViewsOrdered(t: Tables, studentId: int, records: seq<Attendance>, r: seq<AttendanceDto>)
    requires ForeignKeys(t)
    requires forall a :: a in records ==> a in t.attendances && a.studentId == studentId
    requires forall i, j :: 0 <= i < j < |records| ==> records[i].registeredAt >= records[j].registeredAt
    requires r == AttendanceViews(t, records)
    ensures forall d :: d in r ==> d.studentId == studentId
    ensures forall i, j :: 0 <= i < j < |r| ==> r[i].registeredAt >= r[j].registeredAt
  {
    forall d | d in r ensures d.studentId == studentId {
      var i :| 0 <= i < |r| && r[i] == d;
      assert records[i] in records;
    }
    forall i, j | 0 <= i < j < |r| ensures r[i].registeredAt >= r[j].registeredAt {
      assert r[i].registeredAt == records[i].registeredAt && r[j].registeredAt == records[j].registeredAt;
    }
  }

  /** Every record listed has its response in the list. */
  lemma ViewsCoverRecords(t: Tables, records: seq<Attendance>, r: seq<AttendanceDto>, a: Attendance)
    requires ForeignKeys(t)
    requires forall b :: b in records ==> b in t.attendances
    requires r == AttendanceViews(t, records)
    requires a in records
    ensures AttendanceView(t, a) in r
  {
    var i :| 0 <= i < |records| && records[i] == a;
    assert r[i] == AttendanceView(t, a);
  }

  /** The responses for a list of records are those of its records. */
  lemma ViewsMembers(t: Tables, records: seq<Attendance>, d: AttendanceDto)
    requires ForeignKeys(t) && forall a :: a in records ==> a in t.attendances
    ensures d in AttendanceViews(t, records) <==>
              exists a :: a in records && d == AttendanceView(t, a)
  {
    var r := AttendanceViews(t, records);
    if d in r {
      var i :| 0 <= i < |r| && r[i] == d;
      assert records[i] in records;
    }
    if exists a :: a in records && d == AttendanceView(t, a) {
      var a :| a in records && d == AttendanceView(t, a);
      ViewsCoverRecords(t, records, r, a);
    }
  }

  /** `GetStudentAttendanceHistoryAsync`: refused for an unknown student;
      otherwise a response for each of the student's attendances and for no
      other, newest registration first. */
  function GetStudentAttendanceHistory(t: Tables, studentId: int): (r: Result<seq<AttendanceDto>, ServiceError>)
    requires ForeignKeys(t)
    ensures r.Failure? <==> forall st :: st in t.students ==> st.id != studentId
    ensures r.Failure? ==> r.error == StudentNotFound
    ensures r.Success? ==>
              && (forall d :: d in r.value ==> d.studentId == studentId)
              && (forall i, j :: 0 <= i < j < |r.value| ==> r.value[i].registeredAt >= r.value[j].registeredAt)
              && (forall a :: a in t.attendances && a.studentId == studentId ==> AttendanceView(t, a) in r.value)
    ensures r.Success? ==> |r.value| == |HistoryRecords(t, studentId)|
    ensures r.Success? ==>
              forall d :: d in r.value <==>
                exists a :: a in t.attendances && a.studentId == studentId && d == AttendanceView(t, a)
  {
    match FindStudent(t.students, studentId)
    case None => Failure(StudentNotFound)
    case Some(_) =>
      var records := HistoryRecords(t, studentId);
      var r := AttendanceViews(t, records);
      HistoryViewsOrdered(t, studentId, records, r);
      assert forall a :: a in t.attendances && a.studentId == studentId ==> AttendanceView(t, a) in r by {
        forall a | a in t.attendances && a.studentId == studentId ensures AttendanceView(t, a) in r {
          ViewsCoverRecords(t, records, r, a);
        }
      }
      assert forall d :: d in r <==>
               exists a :: a in t.attendances && a.studentId == studentId && d == AttendanceView(t, a) by {
        forall d ensures d in r <==>
                   exists a :: a in t.attendances && a.studentId == studentId && d == AttendanceView(t, a) {
          ViewsMembers(t, records, d);
        }
      }
      Success(r)
  }
}
