/** The course endpoints (`api/courses`): listing, lookup, creation, update
    and soft delete. */
module CoursesController {
  import opened Wrappers
  import opened Linq
  import opened Models
  import opened Data
  import opened Http
  import AttendanceReports

  /** A course with the sessions loaded with it. */
  datatype CourseWithSessions = CourseWithSessions(course: Course, sessions: seq<Session>)

  /** GET api/courses: always 200 with the active courses in store order,
      each with all of its sessions, active or not. */
  function GetCourses(t: Tables): (r: ActionResult<seq<CourseWithSessions>>)
    ensures r.Ok?
    ensures |r.value| == |AttendanceReports.ActiveCourses(t)|
  {
    var courses := AttendanceReports.ActiveCourses(t);
    Ok(seq(|courses|, i requires 0 <= i < |courses| =>
           CourseWithSessions(courses[i], AttendanceReports.CourseSessions(t, courses[i].id))))
  }

  /** The listing holds exactly the active courses, each with exactly its
      sessions. */
  lemma GetCoursesMembers(t: Tables, e: CourseWithSessions)
    ensures e in GetCourses(t).value <==>
              e.course in t.courses && e.course.isActive && e.sessions == AttendanceReports.CourseSessions(t, e.course.id)
    ensures e in GetCourses(t).value ==>
              forall s :: s in e.sessions <==> s in t.sessions && s.courseId == e.course.id
  {
    var courses := AttendanceReports.ActiveCourses(t);
    var r := GetCourses(t).value;
    if e in r {
      var i :| 0 <= i < |r| && r[i] == e;
      assert courses[i] in courses;
    }
    if e.course in t.courses && e.course.isActive && e.sessions == AttendanceReports.CourseSessions(t, e.course.id) {
      var i :| 0 <= i < |courses| && courses[i] == e.course;
      assert r[i] == e;
    }
  }

  /** GET api/courses/{id}: 404 when no active course has the id (an inactive
      one counts as absent); otherwise 200 with the course and only its
      active sessions. */
  function GetCourse(t: Tables, id: int): (r: ActionResult<CourseWithSessions>)
    ensures r.Ok? || r == NotFound("")
    ensures r.NotFound? <==> forall c :: c in t.courses ==> !(c.id == id && c.isActive)
    ensures r.Ok? ==>
              && r.value.course in t.courses && r.value.course.id == id && r.value.course.isActive
              && forall s :: s in r.value.sessions <==> s in t.sessions && s.courseId == id && s.isActive
  {
    match FirstWhere(t.courses, (c: Course) => c.id == id && c.isActive)
    case None => NotFound("")
    case Some(c) => Ok(CourseWithSessions(c, AttendanceReports.ActiveCourseSessions(t, id)))
  }

  /** The row `PostCourse` adds: the posted course, its id the posted one or
      one above the course counter when the posted id is unset (0). */
  function NewCourse(ids: Identities, posted: Course): Course {
    posted.(id := if posted.id == 0 then ids.course + 1 else posted.id)
  }

  /** POST api/courses: the posted course is stored and echoed with 201,
      unless its id or its code is taken, in which case the save throws (500)
      and nothing is stored. */
  method PostCourse(ctx: AttendanceContext, posted: Course) returns (r: ActionResult<Course>)
    requires ctx.Valid()
    modifies ctx
    ensures ctx.Valid()
    ensures var c := NewCourse(old(ctx.identities), posted);
            var accepted := forall y :: y in old(ctx.courses) ==> y.id != c.id && y.code != c.code;
            && (accepted ==> r == Created(c) && ctx.Snapshot() == old(ctx.Snapshot()).(courses := old(ctx.courses) + [c])
                             && ctx.identities == old(ctx.identities).(course := Raise(old(ctx.identities).course, c.id)))
            && (!accepted ==> r == ServerError && ctx.Snapshot() == old(ctx.Snapshot())
                              && ctx.identities == old(ctx.identities))
  {
    var t := ctx.Snapshot();
    var c := NewCourse(ctx.identities, posted);
    AppendCourseConsistentIff(t, c);
    AdvanceAppendCourse(ctx.identities, t, c);
    var saved := ctx.SaveChanges(t.(courses := t.courses + [c]));
    r := if saved then Created(c) else ServerError;
  }

  /** A course posted without an id gets one above every id the table has
      ever held, so no stored course has it and a deleted course's id is not
      handed out again. */
  lemma NewCourseIdIsFresh(t: Tables, ids: Identities, posted: Course)
    requires Covers(ids, t) && posted.id == 0
    ensures NewCourse(ids, posted).id > ids.course
    ensures forall y :: y in t.courses ==> y.id < NewCourse(ids, posted).id
  {
  }

  /** PUT api/courses/{id}: 400 when the path id differs from the body's; 404
      when no course has the id; otherwise the stored row takes every value
      of the body and the answer is 204, unless another course has its code,
      in which case the save throws (500) and nothing changes. */
  method PutCourse(ctx: AttendanceContext, id: int, course: Course) returns (r: ActionResult<()>)
    requires ctx.Valid()
    modifies ctx
    ensures ctx.Valid() && ctx.identities == old(ctx.identities)
    ensures id != course.id ==> r == BadRequest("") && ctx.Snapshot() == old(ctx.Snapshot())
    ensures id == course.id && (forall x :: x in old(ctx.courses) ==> x.id != id) ==>
              r == NotFound("") && ctx.Snapshot() == old(ctx.Snapshot())
    ensures id == course.id && (exists x :: x in old(ctx.courses) && x.id == id) ==>
              var accepted := forall y :: y in old(ctx.courses) && y.id != id ==> y.code != course.code;
              && (accepted ==> r == NoContent && ctx.Snapshot() == ReplaceCourse(old(ctx.Snapshot()), course))
              && (!accepted ==> r == ServerError && ctx.Snapshot() == old(ctx.Snapshot()))
  {
    if id != course.id {
      return BadRequest("");
    }
    var t := ctx.Snapshot();
    if FindCourse(t.courses, id).None? {
      return NotFound("");
    }
    ReplaceCourseConsistentIff(t, course);
    ReplaceCourseKeepsIdentities(ctx.identities, t, course);
    var saved := ctx.SaveChanges(ReplaceCourse(t, course));
    r := if saved then NoContent else ServerError;
  }

  /** DELETE api/courses/{id}: 404 when no course has the id; otherwise the
      course is only marked inactive (its row, sessions and attendances stay)
      and the answer is 204. */
  method DeleteCourse(ctx: AttendanceContext, id: int) returns (r: ActionResult<()>)
    requires ctx.Valid()
    modifies ctx
    ensures ctx.Valid() && ctx.identities == old(ctx.identities)
    ensures (forall x :: x in old(ctx.courses) ==> x.id != id) ==> r == NotFound("") && ctx.Snapshot() == old(ctx.Snapshot())
    ensures forall x :: x in old(ctx.courses) && x.id == id ==>
              r == NoContent && ctx.Snapshot() == ReplaceCourse(old(ctx.Snapshot()), x.(isActive := false))
  {
    var t := ctx.Snapshot();
    var found := FindCourse(t.courses, id);
    if found.None? {
      return NotFound("");
    }
    var x := found.value;
    forall y | y in t.courses && y.id == id ensures y == x {
      UniqueByMembers(t.courses, CourseKey, y, x);
    }
    DeactivatedCourseKeepsConsistent(t, x);
    ReplaceCourseKeepsIdentities(ctx.identities, t, x.(isActive := false));
    var saved := ctx.SaveChanges(ReplaceCourse(t, x.(isActive := false)));
    assert saved;
    r := NoContent;
  }

  /** Marking a stored course inactive never violates a constraint. */
  lemma DeactivatedCourseKeepsConsistent(t: Tables, x: Course)
    requires Consistent(t) && x in t.courses
    ensures Consistent(ReplaceCourse(t, x.(isActive := false)))
  {
    forall y | y in t.courses && y.id != x.id ensures y.code != x.code {
      if y.code == x.code {
        UniqueByMembers(t.courses, CourseCode, y, x);
      }
    }
    ReplaceCourseConsistentIff(t, x.(isActive := false));
  }

  /** After a soft delete the course is no longer served, listed, reported on
      or alerted for, while its sessions and attendances stay. */
  lemma DeletedCourseIsHidden(t: Tables, x: Course, courseId: Option<int>)
    requires Consistent(t) && x in t.courses
    ensures var t' := ReplaceCourse(t, x.(isActive := false));
            && t'.sessions == t.sessions && t'.attendances == t.attendances
            && GetCourse(t', x.id).NotFound?
            && (forall e :: e in GetCourses(t').value ==> e.course.id != x.id)
            && (forall c :: c in AttendanceReports.ReportedCourses(t', courseId) ==> c.id != x.id)
            && (forall c :: c in AttendanceReports.ActiveCourses(t') ==> c.id != x.id)
  {
    var x' := x.(isActive := false);
    var t' := ReplaceCourse(t, x');
    forall y | y in t'.courses && y.id == x.id ensures !y.isActive {
      ReplaceByMembers(t.courses, CourseKey, x', y);
    }
    forall e | e in GetCourses(t').value ensures e.course.id != x.id {
      GetCoursesMembers(t', e);
    }
  }
}
