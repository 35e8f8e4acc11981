/** The attendance endpoints (`api/attendance`): registration from a join
    code, one attendance by id, and the filtered list. The registration
    handler repeats the checks of the attendance service step for step, so it
    is modelled by the same definitions. */
module AttendanceController {
  import opened Wrappers
  import opened Linq
  import opened Models
  import opened Data
  import opened Dtos
  import opened Http
  import AttendanceService

  /** The response for a stored attendance is the one composed from its
      student, its session and the session's course, whichever rows of the
      store are passed for them: in a consistent store the ids identify them. */
  lemma ViewIsComposedResponse(t: Tables, a: Attendance, student: Student, session: Session, course: Course)
    requires Consistent(t) && a in t.attendances
    requires student in t.students && student.id == a.studentId
    requires session in t.sessions && session.id == a.sessionId
    requires course in t.courses && course.id == session.courseId
    ensures AttendanceService.AttendanceView(t, a) == MapToAttendanceDto(a, student, session, course)
  {
    var st := FindStudent(t.students, a.studentId).value;
    UniqueByMembers(t.students, StudentKey, st, student);
    var se := FindSession(t.sessions, a.sessionId).value;
    UniqueByMembers(t.sessions, SessionKey, se, session);
    var c := FindCourse(t.courses, se.courseId).value;
    UniqueByMembers(t.courses, CourseKey, c, course);
  }

  /** The response to an accepted registration is the stored row's own
      response. */
  lemma RegisteredView(t: Tables, ids: Identities, dto: RegisterAttendanceDto, today: DateTime, now: DateTime)
    requires Consistent(t) && Covers(ids, t)
    requires AttendanceService.ValidateRegistration(t, dto.studentId, dto.sessionCode, today).Success?
    ensures var reg := AttendanceService.ValidateRegistration(t, dto.studentId, dto.sessionCode, today).value;
            var a := AttendanceService.NewAttendance(ids, dto, reg.session, now);
            var t' := t.(attendances := t.attendances + [a]);
            && Consistent(t') && a in t'.attendances
            && AttendanceService.AttendanceView(t', a)
               == MapToAttendanceDto(a, reg.student, reg.session, FindCourse(t.courses, reg.session.courseId).value)
  {
    var reg := AttendanceService.ValidateRegistration(t, dto.studentId, dto.sessionCode, today).value;
    var a := AttendanceService.NewAttendance(ids, dto, reg.session, now);
    var t' := t.(attendances := t.attendances + [a]);
    AttendanceService.RegistrationKeepsConsistent(t, ids, dto, today, now);
    assert a in t'.attendances;
    ViewIsComposedResponse(t', a, reg.student, reg.session, FindCourse(t.courses, reg.session.courseId).value);
  }

  /** POST api/attendance: a refused registration answers 400 with the
      refusal's message and changes nothing; an accepted one stores exactly
      one present attendance with the request's notes and answers 201 with
      the response for the stored row. */
  method RegisterAttendance(ctx: AttendanceContext, dto: RegisterAttendanceDto, today: DateTime, now: DateTime)
    returns (r: ActionResult<AttendanceDto>)
    requires ctx.Valid()
    modifies ctx
    ensures ctx.Valid()
    ensures var v := AttendanceService.ValidateRegistration(old(ctx.Snapshot()), dto.studentId, dto.sessionCode, today);
            v.Failure? ==> && r == BadRequest(AttendanceService.Message(v.error))
                           && ctx.Snapshot() == old(ctx.Snapshot()) && ctx.identities == old(ctx.identities)
    ensures var v := AttendanceService.ValidateRegistration(old(ctx.Snapshot()), dto.studentId, dto.sessionCode, today);
            v.Success? ==>
              var a := Attendance(old(ctx.identities).attendance + 1, dto.studentId, v.value.session.id,
                                  now, true, dto.notes);
              && ctx.Snapshot() == old(ctx.Snapshot()).(attendances := old(ctx.attendances) + [a])
              && ctx.identities == old(ctx.identities).(attendance := a.id)
              && r == Created(AttendanceService.AttendanceView(ctx.Snapshot(), a))
  {
    var t, ids := ctx.Snapshot(), ctx.identities;
    var v := AttendanceService.ValidateRegistration(t, dto.studentId, dto.sessionCode, today);
    var result := AttendanceService.RegisterAttendanceAsync(ctx, dto, today, now);
    if v.Failure? {
      r := BadRequest(AttendanceService.Message(result.error));
    } else {
      RegisteredView(t, ids, dto, today, now);
      var a := AttendanceService.NewAttendance(ids, dto, v.value.session, now);
      assert ctx.Snapshot() == t.(attendances := t.attendances + [a]);
      r := Created(result.value);
    }
  }

  /** GET api/attendance/{id}: 404 exactly when no attendance has the id,
      otherwise 200 with the response for the attendance that has it. */
  function GetAttendance(t: Tables, id: int): (r: ActionResult<AttendanceDto>)
    requires ForeignKeys(t)
    ensures r.Ok? || r.NotFound?
    ensures r.NotFound? <==> forall a :: a in t.attendances ==> a.id != id
    ensures r.Ok? ==> exists a :: a in t.attendances && a.id == id && r.value == AttendanceService.AttendanceView(t, a)
  {
    match AttendanceService.GetAttendanceById(t, id)
    case None => NotFound("")
    case Some(d) => Ok(d)
  }

  /** Every stored attendance is found by its id, and the body is the same
      response the registration answered with. */
  lemma GetAttendanceFindsRecord(t: Tables, a: Attendance)
    requires Consistent(t) && a in t.attendances
    ensures GetAttendance(t, a.id) == Ok(AttendanceService.AttendanceView(t, a))
  {
    var found := FindAttendance(t.attendances, a.id).value;
    UniqueByMembers(t.attendances, AttendanceKey, found, a);
  }

  /** Whether a stored attendance passes the filters of the list endpoint. */
  predicate PassesFilters(t: Tables, courseId: Option<int>, studentId: Option<int>, sessionId: Option<int>, a: Attendance) {
    && (courseId.Some? ==> SessionCourse(t.sessions, a.sessionId) == courseId)
    && (studentId.Some? ==> a.studentId == studentId.value)
    && (sessionId.Some? ==> a.sessionId == sessionId.value)
  }

  /** GET api/attendance: always 200; the filters given are applied together. */
  function GetAttendances(t: Tables, courseId: Option<int>, studentId: Option<int>, sessionId: Option<int>)
    : (r: ActionResult<seq<AttendanceDto>>)
    requires ForeignKeys(t)
    ensures r.Ok?
    ensures forall d :: d in r.value ==>
              && (studentId.Some? ==> d.studentId == studentId.value)
              && (sessionId.Some? ==> d.sessionId == sessionId.value)
              && (courseId.Some? ==> SessionCourse(t.sessions, d.sessionId) == courseId)
  {
    Ok(AttendanceService.GetAttendances(t, courseId, studentId, sessionId))
  }

  /** The list holds the response of every stored attendance that passes the
      filters, and nothing else. */
  lemma GetAttendancesMembers(t: Tables, courseId: Option<int>, studentId: Option<int>, sessionId: Option<int>,
                              d: AttendanceDto)
    requires ForeignKeys(t)
    ensures d in GetAttendances(t, courseId, studentId, sessionId).value <==>
              exists a :: a in t.attendances && PassesFilters(t, courseId, studentId, sessionId, a)
                          && d == AttendanceService.AttendanceView(t, a)
  {
    var records := AttendanceService.FilterAttendances(t, courseId, studentId, sessionId);
    assert forall a :: a in records <==> a in t.attendances && PassesFilters(t, courseId, studentId, sessionId, a);
    AttendanceService.ViewsMembers(t, records, d);
  }
}
