/** The database: four tables, the keys, unique indexes and foreign keys
    declared for them, the cascades, the seed rows, and `SaveChanges`. */
module Data {
  import opened Wrappers
  import opened Linq
  import opened Models

  /** The contents of the four tables at one moment, in row order. */
  datatype Tables = Tables(
    students: seq<Student>,
    courses: seq<Course>,
    sessions: seq<Session>,
    attendances: seq<Attendance>)

  // Keys of the primary keys and unique indexes.
  function StudentKey(s: Student): int { s.id }
  function StudentEmail(s: Student): string { s.email }
  function StudentCode(s: Student): string { s.studentCode }
  function CourseKey(c: Course): int { c.id }
  function CourseCode(c: Course): string { c.code }
  function SessionKey(s: Session): int { s.id }
  function SessionCode(s: Session): string { s.uniqueCode }
  function AttendanceKey(a: Attendance): int { a.id }
  function AttendancePair(a: Attendance): (int, int) { (a.studentId, a.sessionId) }

  // Lookups by primary key (`Find`, `FirstOrDefault(x => x.Id == id)`).

  function FindStudent(students: seq<Student>, id: int): (r: Option<Student>)
    ensures r.None? <==> forall s :: s in students ==> s.id != id
    ensures r.Some? ==> r.value in students && r.value.id == id
  {
    FirstWhere(students, (s: Student) => s.id == id)
  }

  function FindCourse(courses: seq<Course>, id: int): (r: Option<Course>)
    ensures r.None? <==> forall c :: c in courses ==> c.id != id
    ensures r.Some? ==> r.value in courses && r.value.id == id
  {
    FirstWhere(courses, (c: Course) => c.id == id)
  }

  function FindSession(sessions: seq<Session>, id: int): (r: Option<Session>)
    ensures r.None? <==> forall s :: s in sessions ==> s.id != id
    ensures r.Some? ==> r.value in sessions && r.value.id == id
  {
    FirstWhere(sessions, (s: Session) => s.id == id)
  }

  function FindAttendance(attendances: seq<Attendance>, id: int): (r: Option<Attendance>)
    ensures r.None? <==> forall a :: a in attendances ==> a.id != id
    ensures r.Some? ==> r.value in attendances && r.value.id == id
  {
    FirstWhere(attendances, (a: Attendance) => a.id == id)
  }

  /** `a.Session.CourseId`: the course of the session a row refers to. */
  function SessionCourse(sessions: seq<Session>, sessionId: int): (r: Option<int>)
    ensures r.Some? <==> exists s :: s in sessions && s.id == sessionId
    ensures r.Some? ==> exists s :: s in sessions && s.id == sessionId && r.value == s.courseId
  {
    match FindSession(sessions, sessionId)
    case Some(s) => Some(s.courseId)
    case None => None
  }

  /** The model of the database schema: primary keys, the five unique indexes
      (student e-mail, student code, course code, session code, and the
      (student, session) pair of an attendance) and the three foreign keys. */
  predicate Consistent(t: Tables) {
    KeysUnique(t) && ForeignKeys(t)
  }

  /** The primary keys and the five unique indexes. */
  predicate KeysUnique(t: Tables) {
    && UniqueBy(t.students, StudentKey)
    && UniqueBy(t.courses, CourseKey)
    && UniqueBy(t.sessions, SessionKey)
    && UniqueBy(t.attendances, AttendanceKey)
    && UniqueBy(t.students, StudentEmail)
    && UniqueBy(t.students, StudentCode)
    && UniqueBy(t.courses, CourseCode)
    && UniqueBy(t.sessions, SessionCode)
    && UniqueBy(t.attendances, AttendancePair)
  }

  /** Every session's course exists, and every attendance's student and session. */
  predicate ForeignKeys(t: Tables) {
    && (forall s :: s in t.sessions ==> FindCourse(t.courses, s.courseId).Some?)
    && (forall a :: a in t.attendances ==>
          FindStudent(t.students, a.studentId).Some? && FindSession(t.sessions, a.sessionId).Some?)
  }

  /** In a consistent store a (student, session) pair has at most one attendance. */
  lemma AtMostOnePerPair(t: Tables, a: Attendance, b: Attendance)
    requires Consistent(t) && a in t.attendances && b in t.attendances
    requires a.studentId == b.studentId && a.sessionId == b.sessionId
    ensures a == b
  {
    assert AttendancePair(a) == AttendancePair(b);
    UniqueByMembers(t.attendances, AttendancePair, a, b);
  }

  /** Appending an attendance keeps the store consistent when its id and its
      (student, session) pair are new and the student and session exist. */
  lemma AppendAttendanceKeepsConsistent(t: Tables, a: Attendance)
    requires Consistent(t)
    requires forall b :: b in t.attendances ==> b.id != a.id
    requires forall b :: b in t.attendances ==> !(b.studentId == a.studentId && b.sessionId == a.sessionId)
    requires FindStudent(t.students, a.studentId).Some? && FindSession(t.sessions, a.sessionId).Some?
    ensures Consistent(t.(attendances := t.attendances + [a]))
  {
    var t' := t.(attendances := t.attendances + [a]);
    assert forall b :: b in t.attendances ==> AttendanceKey(b) != AttendanceKey(a);
    UniqueByAppend(t.attendances, a, AttendanceKey);
    assert forall b :: b in t.attendances ==> AttendancePair(b) != AttendancePair(a);
    UniqueByAppend(t.attendances, a, AttendancePair);
    assert KeysUnique(t');
    AppendAttendanceKeepsForeignKeys(t, a);
  }

  /** Appending an attendance whose student and session exist keeps every
      reference resolvable. */
  lemma AppendAttendanceKeepsForeignKeys(t: Tables, a: Attendance)
    requires ForeignKeys(t)
    requires FindStudent(t.students, a.studentId).Some? && FindSession(t.sessions, a.sessionId).Some?
    ensures ForeignKeys(t.(attendances := t.attendances + [a]))
  {
    var t' := t.(attendances := t.attendances + [a]);
    forall b | b in t'.attendances
      ensures FindStudent(t'.students, b.studentId).Some? && FindSession(t'.sessions, b.sessionId).Some?
    {
      if b != a {
        assert b in t.attendances;
      }
    }
  }

  // Column lengths (`HasMaxLength`). SQLite, the default provider, does not
  // enforce them, so they are not part of `Consistent`.

  predicate StudentFits(s: Student) {
    |s.firstName| <= 100 && |s.lastName| <= 100 && |s.email| <= 255 && |s.studentCode| <= 20
  }

  predicate CourseFits(c: Course) {
    |c.name| <= 200 && |c.code| <= 20 && |c.description| <= 1000 && |c.instructorName| <= 200
  }

  predicate SessionFits(s: Session) {
    |s.title| <= 200 && |s.uniqueCode| <= 10
  }

  predicate AttendanceFits(a: Attendance) {
    a.notes.None? || |a.notes.value| <= 500
  }

  predicate FitsColumns(t: Tables) {
    && (forall s :: s in t.students ==> StudentFits(s))
    && (forall c :: c in t.courses ==> CourseFits(c))
    && (forall s :: s in t.sessions ==> SessionFits(s))
    && (forall a :: a in t.attendances ==> AttendanceFits(a))
  }

  /** The seed rows: three students and two active courses, no sessions and no
      attendances. Their creation time is the instant the model is built. */
  function Seed(createdAt: DateTime): Tables {
    Tables(
      [ Student(1, "Juan", "Pérez", "juan.perez@email.com", "EST001", createdAt),
        Student(2, "María", "González", "maria.gonzalez@email.com", "EST002", createdAt),
        Student(3, "Carlos", "Rodríguez", "carlos.rodriguez@email.com", "EST003", createdAt) ],
      [ Course(1, "Programación Web", "PW001", "Curso de desarrollo web con tecnologías modernas",
               "Dr. Ana López", true, createdAt),
        Course(2, "Base de Datos", "BD001", "Fundamentos de bases de datos relacionales",
               "Ing. Roberto Silva", true, createdAt) ],
      [], [])
  }

  /** The seed rows satisfy every key, unique index and column length. */
  lemma SeedIsConsistent(createdAt: DateTime)
    ensures Consistent(Seed(createdAt)) && FitsColumns(Seed(createdAt))
    ensures |Seed(createdAt).students| == 3 && |Seed(createdAt).courses| == 2
  {
    var t := Seed(createdAt);
    assert t.students[0].email[0] != t.students[1].email[0] && t.students[1].email[0] != t.students[2].email[0];
    assert t.students[0].email[0] != t.students[2].email[0];
    assert t.students[0].studentCode[5] != t.students[1].studentCode[5];
    assert t.students[1].studentCode[5] != t.students[2].studentCode[5];
    assert t.students[0].studentCode[5] != t.students[2].studentCode[5];
    assert t.courses[0].code[0] != t.courses[1].code[0];
  }

  // Cascading deletes (`OnDelete(DeleteBehavior.Cascade)`).

  /** Removing a student removes every attendance of that student. */
  function RemoveStudentCascade(t: Tables, id: int): (r: Tables)
    requires Consistent(t)
    ensures Consistent(r)
    ensures forall s :: s in r.students <==> s in t.students && s.id != id
    ensures forall a :: a in r.attendances <==> a in t.attendances && a.studentId != id
    ensures r.courses == t.courses && r.sessions == t.sessions
  {
    var keepStudent := (s: Student) => s.id != id;
    var keepAttendance := (a: Attendance) => a.studentId != id;
    var r := Tables(Where(t.students, keepStudent), t.courses, t.sessions, Where(t.attendances, keepAttendance));
    UniqueByWhere(t.students, keepStudent, StudentKey);
    UniqueByWhere(t.students, keepStudent, StudentEmail);
    UniqueByWhere(t.students, keepStudent, StudentCode);
    UniqueByWhere(t.attendances, keepAttendance, AttendanceKey);
    UniqueByWhere(t.attendances, keepAttendance, AttendancePair);
    assert forall a :: a in r.attendances ==> FindStudent(r.students, a.studentId).Some? by {
      forall a | a in r.attendances ensures FindStudent(r.students, a.studentId).Some? {
        var s := FindStudent(t.students, a.studentId).value;
        assert s in r.students;
      }
    }
    r
  }

  /** Removing a session removes every attendance of that session. */
  function RemoveSessionCascade(t: Tables, id: int): (r: Tables)
    requires Consistent(t)
    ensures Consistent(r)
    ensures forall s :: s in r.sessions <==> s in t.sessions && s.id != id
    ensures forall a :: a in r.attendances <==> a in t.attendances && a.sessionId != id
    ensures r.students == t.students && r.courses == t.courses
  {
    var keepSession := (s: Session) => s.id != id;
    var keepAttendance := (a: Attendance) => a.sessionId != id;
    var r := Tables(t.students, t.courses, Where(t.sessions, keepSession), Where(t.attendances, keepAttendance));
    UniqueByWhere(t.sessions, keepSession, SessionKey);
    UniqueByWhere(t.sessions, keepSession, SessionCode);
    UniqueByWhere(t.attendances, keepAttendance, AttendanceKey);
    UniqueByWhere(t.attendances, keepAttendance, AttendancePair);
    assert forall a :: a in r.attendances ==> FindSession(r.sessions, a.sessionId).Some? by {
      forall a | a in r.attendances ensures FindSession(r.sessions, a.sessionId).Some? {
        var s := FindSession(t.sessions, a.sessionId).value;
        assert s in r.sessions;
      }
    }
    r
  }

  /** Removing a course removes its sessions and, through them, their
      attendances. */
  function RemoveCourseCascade(t: Tables, id: int): (r: Tables)
    requires Consistent(t)
    ensures Consistent(r)
    ensures forall c :: c in r.courses <==> c in t.courses && c.id != id
    ensures forall s :: s in r.sessions <==> s in t.sessions && s.courseId != id
    ensures forall a :: a in r.attendances <==> a in t.attendances && SessionCourse(t.sessions, a.sessionId) != Some(id)
    ensures r.students == t.students
  {
    var keepCourse := (c: Course) => c.id != id;
    var keepSession := (s: Session) => s.courseId != id;
    var keepAttendance := (a: Attendance) => SessionCourse(t.sessions, a.sessionId) != Some(id);
    var r := Tables(t.students, Where(t.courses, keepCourse), Where(t.sessions, keepSession),
                    Where(t.attendances, keepAttendance));
    UniqueByWhere(t.courses, keepCourse, CourseKey);
    UniqueByWhere(t.courses, keepCourse, CourseCode);
    UniqueByWhere(t.sessions, keepSession, SessionKey);
    UniqueByWhere(t.sessions, keepSession, SessionCode);
    UniqueByWhere(t.attendances, keepAttendance, AttendanceKey);
    UniqueByWhere(t.attendances, keepAttendance, AttendancePair);
    RemoveCourseKeepsForeignKeys(t, id, r);
    r
  }

  /** The rows a course cascade keeps still reference existing rows: a kept
      session's course is not the removed one, and a kept attendance's session
      does not belong to it. */
  lemma RemoveCourseKeepsForeignKeys(t: Tables, id: int, r: Tables)
    requires ForeignKeys(t)
    requires r.students == t.students
    requires forall c :: c in r.courses <==> c in t.courses && c.id != id
    requires forall s :: s in r.sessions <==> s in t.sessions && s.courseId != id
    requires forall a :: a in r.attendances <==> a in t.attendances && SessionCourse(t.sessions, a.sessionId) != Some(id)
    ensures ForeignKeys(r)
  {
    forall s | s in r.sessions ensures FindCourse(r.courses, s.courseId).Some? {
      var c := FindCourse(t.courses, s.courseId).value;
      assert c in r.courses;
    }
    forall a | a in r.attendances ensures FindSession(r.sessions, a.sessionId).Some? {
      var s := FindSession(t.sessions, a.sessionId).value;
      assert s in r.sessions;
    }
  }

  // Inserting a session, and updating one row (a row marked `Modified`, or
  // changed properties of a tracked row): the row with the same primary key
  // takes the new values.

  /** Inserting a session whose join code is new succeeds exactly when its
      course exists and its id is not taken. */
  lemma AppendSessionConsistentIff(t: Tables, s: Session)
    requires Consistent(t)
    requires forall y :: y in t.sessions ==> y.uniqueCode != s.uniqueCode
    ensures Consistent(t.(sessions := t.sessions + [s])) <==>
              FindCourse(t.courses, s.courseId).Some? && forall y :: y in t.sessions ==> y.id != s.id
  {
    var r := t.(sessions := t.sessions + [s]);
    assert s in r.sessions;
    forall a | a in r.attendances ensures FindSession(r.sessions, a.sessionId).Some? {
      var z := FindSession(t.sessions, a.sessionId).value;
      assert z in r.sessions;
    }
    if FindCourse(t.courses, s.courseId).Some? && forall y :: y in t.sessions ==> y.id != s.id {
      UniqueByAppend(t.sessions, s, SessionKey);
      UniqueByAppend(t.sessions, s, SessionCode);
      forall y | y in r.sessions ensures FindCourse(r.courses, y.courseId).Some? {
        if y != s {
          assert y in t.sessions;
        }
      }
    }
    if Consistent(r) {
      forall y | y in t.sessions ensures y.id != s.id {
        assert y in r.sessions;
        if y.id == s.id {
          UniqueByMembers(r.sessions, SessionKey, y, s);
        }
      }
    }
  }

  /** Inserting a course succeeds exactly when no stored course has its id
      or its code. */
  lemma AppendCourseConsistentIff(t: Tables, c: Course)
    requires Consistent(t)
    ensures Consistent(t.(courses := t.courses + [c])) <==>
              forall y :: y in t.courses ==> y.id != c.id && y.code != c.code
  {
    var r := t.(courses := t.courses + [c]);
    forall s | s in r.sessions ensures FindCourse(r.courses, s.courseId).Some? {
      var z := FindCourse(t.courses, s.courseId).value;
      assert z in r.courses;
    }
    if forall y :: y in t.courses ==> y.id != c.id && y.code != c.code {
      UniqueByAppend(t.courses, c, CourseKey);
      UniqueByAppend(t.courses, c, CourseCode);
    }
    if Consistent(r) {
      forall y | y in t.courses ensures y.id != c.id && y.code != c.code {
        var i :| 0 <= i < |t.courses| && t.courses[i] == y;
        assert r.courses[i] == y && r.courses[|t.courses|] == c;
      }
    }
  }

  /** Inserting a student succeeds exactly when no stored student has its id,
      its e-mail or its student code. */
  lemma AppendStudentConsistentIff(t: Tables, s: Student)
    requires Consistent(t)
    ensures Consistent(t.(students := t.students + [s])) <==>
              forall y :: y in t.students ==> y.id != s.id && y.email != s.email && y.studentCode != s.studentCode
  {
    var r := t.(students := t.students + [s]);
    forall a | a in r.attendances ensures FindStudent(r.students, a.studentId).Some? {
      var z := FindStudent(t.students, a.studentId).value;
      assert z in r.students;
    }
    if forall y :: y in t.students ==> y.id != s.id && y.email != s.email && y.studentCode != s.studentCode {
      UniqueByAppend(t.students, s, StudentKey);
      UniqueByAppend(t.students, s, StudentEmail);
      UniqueByAppend(t.students, s, StudentCode);
    }
    if Consistent(r) {
      forall y | y in t.students ensures y.id != s.id && y.email != s.email && y.studentCode != s.studentCode {
        var i :| 0 <= i < |t.students| && t.students[i] == y;
        assert r.students[i] == y && r.students[|t.students|] == s;
      }
    }
  }

  function ReplaceSession(t: Tables, s: Session): Tables {
    t.(sessions := ReplaceBy(t.sessions, SessionKey, s))
  }

  function ReplaceCourse(t: Tables, c: Course): Tables {
    t.(courses := ReplaceBy(t.courses, CourseKey, c))
  }

  function ReplaceStudent(t: Tables, s: Student): Tables {
    t.(students := ReplaceBy(t.students, StudentKey, s))
  }

  /** Updating an existing session succeeds exactly when its course exists and
      no other session has its join code. */
  lemma ReplaceSessionConsistentIff(t: Tables, s: Session)
    requires Consistent(t)
    requires exists x :: x in t.sessions && x.id == s.id
    ensures Consistent(ReplaceSession(t, s)) <==>
              && FindCourse(t.courses, s.courseId).Some?
              && forall y :: y in t.sessions && y.id != s.id ==> y.uniqueCode != s.uniqueCode
  {
    if FindCourse(t.courses, s.courseId).Some? && forall y :: y in t.sessions && y.id != s.id ==> y.uniqueCode != s.uniqueCode {
      ReplaceSessionConsistent(t, s);
    }
    if Consistent(ReplaceSession(t, s)) {
      ReplacedSessionFits(t, s);
    }
  }

  /** An update whose course exists and whose code is free keeps the store
      consistent. */
  lemma ReplaceSessionConsistent(t: Tables, s: Session)
    requires Consistent(t)
    requires exists x :: x in t.sessions && x.id == s.id
    requires FindCourse(t.courses, s.courseId).Some?
    requires forall y :: y in t.sessions && y.id != s.id ==> y.uniqueCode != s.uniqueCode
    ensures Consistent(ReplaceSession(t, s))
  {
    var r := ReplaceSession(t, s);
    ReplaceByUnique(t.sessions, SessionKey, s, SessionKey);
    ReplaceByUnique(t.sessions, SessionKey, s, SessionCode);
    ReplaceSessionKeepsAttendanceRefs(t, s);
    forall y | y in r.sessions ensures FindCourse(r.courses, y.courseId).Some? {
      ReplaceByMembers(t.sessions, SessionKey, s, y);
    }
  }

  /** A consistent update has an existing course and a code no other
      session has. */
  lemma ReplacedSessionFits(t: Tables, s: Session)
    requires exists x :: x in t.sessions && x.id == s.id
    requires Consistent(ReplaceSession(t, s))
    ensures FindCourse(t.courses, s.courseId).Some?
    ensures forall y :: y in t.sessions && y.id != s.id ==> y.uniqueCode != s.uniqueCode
  {
    var r := ReplaceSession(t, s);
    ReplaceByMembers(t.sessions, SessionKey, s, s);
    forall y | y in t.sessions && y.id != s.id ensures y.uniqueCode != s.uniqueCode {
      ReplaceByMembers(t.sessions, SessionKey, s, y);
      if y.uniqueCode == s.uniqueCode {
        UniqueByMembers(r.sessions, SessionCode, y, s);
      }
    }
  }

  /** Updating a session keeps its id, so every attendance still finds its
      session. */
  lemma ReplaceSessionKeepsAttendanceRefs(t: Tables, s: Session)
    requires ForeignKeys(t)
    requires exists x :: x in t.sessions && x.id == s.id
    ensures forall a :: a in t.attendances ==> FindSession(ReplaceSession(t, s).sessions, a.sessionId).Some?
  {
    var r := ReplaceSession(t, s);
    ReplaceByMembers(t.sessions, SessionKey, s, s);
    forall a | a in t.attendances ensures FindSession(r.sessions, a.sessionId).Some? {
      var z := FindSession(t.sessions, a.sessionId).value;
      ReplaceByMembers(t.sessions, SessionKey, s, z);
    }
  }

  /** Updating an existing course succeeds exactly when no other course has
      its code. */
  lemma ReplaceCourseConsistentIff(t: Tables, c: Course)
    requires Consistent(t)
    requires exists x :: x in t.courses && x.id == c.id
    ensures Consistent(ReplaceCourse(t, c)) <==>
              forall y :: y in t.courses && y.id != c.id ==> y.code != c.code
  {
    var r := ReplaceCourse(t, c);
    ReplaceByMembers(t.courses, CourseKey, c, c);
    ReplaceByUnique(t.courses, CourseKey, c, CourseKey);
    forall s | s in r.sessions ensures FindCourse(r.courses, s.courseId).Some? {
      var z := FindCourse(t.courses, s.courseId).value;
      ReplaceByMembers(t.courses, CourseKey, c, z);
    }
    if forall y :: y in t.courses && y.id != c.id ==> y.code != c.code {
      ReplaceByUnique(t.courses, CourseKey, c, CourseCode);
    }
    if Consistent(r) {
      forall y | y in t.courses && y.id != c.id ensures y.code != c.code {
        ReplaceByMembers(t.courses, CourseKey, c, y);
        if y.code == c.code {
          UniqueByMembers(r.courses, CourseCode, y, c);
        }
      }
    }
  }

  /** Updating an existing student succeeds exactly when no other student has
      its e-mail or its student code. */
  lemma ReplaceStudentConsistentIff(t: Tables, s: Student)
    requires Consistent(t)
    requires exists x :: x in t.students && x.id == s.id
    ensures Consistent(ReplaceStudent(t, s)) <==>
              forall y :: y in t.students && y.id != s.id ==> y.email != s.email && y.studentCode != s.studentCode
  {
    var r := ReplaceStudent(t, s);
    ReplaceByMembers(t.students, StudentKey, s, s);
    ReplaceByUnique(t.students, StudentKey, s, StudentKey);
    forall a | a in r.attendances ensures FindStudent(r.students, a.studentId).Some? {
      var z := FindStudent(t.students, a.studentId).value;
      ReplaceByMembers(t.students, StudentKey, s, z);
    }
    if forall y :: y in t.students && y.id != s.id ==> y.email != s.email && y.studentCode != s.studentCode {
      ReplaceByUnique(t.students, StudentKey, s, StudentEmail);
      ReplaceByUnique(t.students, StudentKey, s, StudentCode);
    }
    if Consistent(r) {
      forall y | y in t.students && y.id != s.id ensures y.email != s.email && y.studentCode != s.studentCode {
        ReplaceByMembers(t.students, StudentKey, s, y);
        if y.email == s.email {
          UniqueByMembers(r.students, StudentEmail, y, s);
        }
        if y.studentCode == s.studentCode {
          UniqueByMembers(r.students, StudentCode, y, s);
        }
      }
    }
  }

  /** The message of the exception `SaveChanges` throws on a violated
      constraint. */
  const SaveFailedMessage: string := "An error occurred while saving the entity changes. See the inner exception for details."

  // Identity counters. Every key is an `INTEGER PRIMARY KEY AUTOINCREMENT`
  // column: the store remembers the largest id ever written to each table
  // and gives a new row one more than that, so the id of a deleted row is
  // never handed out again.

  /** The largest id ever written to each table. */
  datatype Identities = Identities(student: int, course: int, session: int, attendance: int)

  /** No stored key exceeds its table's counter. */
  predicate Covers(ids: Identities, t: Tables) {
    && (forall s :: s in t.students ==> s.id <= ids.student)
    && (forall c :: c in t.courses ==> c.id <= ids.course)
    && (forall s :: s in t.sessions ==> s.id <= ids.session)
    && (forall a :: a in t.attendances ==> a.id <= ids.attendance)
  }

  /** The counters once `t` is written: each rises to the largest key of its
      table when that key exceeds it. */
  function Advance(ids: Identities, t: Tables): (r: Identities)
    ensures Covers(r, t)
    ensures ids.student <= r.student && ids.course <= r.course
    ensures ids.session <= r.session && ids.attendance <= r.attendance
  {
    Identities(Highest(t.students, StudentKey, ids.student), Highest(t.courses, CourseKey, ids.course),
               Highest(t.sessions, SessionKey, ids.session), Highest(t.attendances, AttendanceKey, ids.attendance))
  }

  /** The counter after writing `id`: raised to it when it is larger. */
  function Raise(counter: int, id: int): (r: int)
    ensures counter <= r && id <= r
    ensures r == counter || r == id
  {
    if id > counter then id else counter
  }

  /** Writing rows whose keys are all within the counters changes none of them. */
  lemma AdvanceCovered(ids: Identities, t: Tables)
    requires Covers(ids, t)
    ensures Advance(ids, t) == ids
  {
    HighestOfBounded(t.students, StudentKey, ids.student);
    HighestOfBounded(t.courses, CourseKey, ids.course);
    HighestOfBounded(t.sessions, SessionKey, ids.session);
    HighestOfBounded(t.attendances, AttendanceKey, ids.attendance);
  }

  /** Adding a student raises only the student counter, to the new id when it
      is larger. */
  lemma AdvanceAppendStudent(ids: Identities, t: Tables, s: Student)
    requires Covers(ids, t)
    ensures Advance(ids, t.(students := t.students + [s])) == ids.(student := Raise(ids.student, s.id))
  {
    HighestAppend(t.students, StudentKey, ids.student, s);
    AdvanceCovered(ids, t);
  }

  /** Adding a course raises only the course counter. */
  lemma AdvanceAppendCourse(ids: Identities, t: Tables, c: Course)
    requires Covers(ids, t)
    ensures Advance(ids, t.(courses := t.courses + [c])) == ids.(course := Raise(ids.course, c.id))
  {
    HighestAppend(t.courses, CourseKey, ids.course, c);
    AdvanceCovered(ids, t);
  }

  /** Adding a session raises only the session counter. */
  lemma AdvanceAppendSession(ids: Identities, t: Tables, s: Session)
    requires Covers(ids, t)
    ensures Advance(ids, t.(sessions := t.sessions + [s])) == ids.(session := Raise(ids.session, s.id))
  {
    HighestAppend(t.sessions, SessionKey, ids.session, s);
    AdvanceCovered(ids, t);
  }

  /** Adding an attendance raises only the attendance counter. */
  lemma AdvanceAppendAttendance(ids: Identities, t: Tables, a: Attendance)
    requires Covers(ids, t)
    ensures Advance(ids, t.(attendances := t.attendances + [a])) == ids.(attendance := Raise(ids.attendance, a.id))
  {
    HighestAppend(t.attendances, AttendanceKey, ids.attendance, a);
    AdvanceCovered(ids, t);
  }

  /** Writing a subset of the stored rows, as a delete does, leaves every
      counter where it was: ids are not given back. */
  lemma RemoveKeepsIdentities(ids: Identities, t: Tables, x: Tables)
    requires Covers(ids, t)
    requires forall s :: s in x.students ==> s in t.students
    requires forall c :: c in x.courses ==> c in t.courses
    requires forall s :: s in x.sessions ==> s in t.sessions
    requires forall a :: a in x.attendances ==> a in t.attendances
    ensures Advance(ids, x) == ids
  {
    AdvanceCovered(ids, x);
  }

  /** Overwriting a stored student leaves every counter where it was. */
  lemma ReplaceStudentKeepsIdentities(ids: Identities, t: Tables, s: Student)
    requires Covers(ids, t)
    requires exists y :: y in t.students && y.id == s.id
    ensures Advance(ids, ReplaceStudent(t, s)) == ids
  {
    forall y | y in ReplaceStudent(t, s).students ensures y.id <= ids.student {
      ReplaceByMembers(t.students, StudentKey, s, y);
    }
    AdvanceCovered(ids, ReplaceStudent(t, s));
  }

  /** Overwriting a stored course leaves every counter where it was. */
  lemma ReplaceCourseKeepsIdentities(ids: Identities, t: Tables, c: Course)
    requires Covers(ids, t)
    requires exists y :: y in t.courses && y.id == c.id
    ensures Advance(ids, ReplaceCourse(t, c)) == ids
  {
    forall y | y in ReplaceCourse(t, c).courses ensures y.id <= ids.course {
      ReplaceByMembers(t.courses, CourseKey, c, y);
    }
    AdvanceCovered(ids, ReplaceCourse(t, c));
  }

  /** Overwriting a stored session leaves every counter where it was. */
  lemma ReplaceSessionKeepsIdentities(ids: Identities, t: Tables, s: Session)
    requires Covers(ids, t)
    requires exists y :: y in t.sessions && y.id == s.id
    ensures Advance(ids, ReplaceSession(t, s)) == ids
  {
    forall y | y in ReplaceSession(t, s).sessions ensures y.id <= ids.session {
      ReplaceByMembers(t.sessions, SessionKey, s, y);
    }
    AdvanceCovered(ids, ReplaceSession(t, s));
  }

  /** The counters of a freshly created database: the seed writes students 1
      to 3 and courses 1 and 2. */
  const SeedIdentities: Identities := Identities(3, 2, 0, 0)

  /** The database context: the four tables and their identity counters,
      updated by `SaveChanges`. */
  class AttendanceContext {
    var students: seq<Student>
    var courses: seq<Course>
    var sessions: seq<Session>
    var attendances: seq<Attendance>
    /** The identity counters of the four tables. */
    var identities: Identities

    function Snapshot(): Tables
      reads this
    {
      Tables(students, courses, sessions, attendances)
    }

    predicate Valid()
      reads this
    {
      Consistent(Snapshot()) && Covers(identities, Snapshot())
    }

    /** A freshly created database (`EnsureCreated`): the seed rows only. */
    constructor (createdAt: DateTime)
      ensures Valid() && Snapshot() == Seed(createdAt) && identities == SeedIdentities
    {
      SeedIsConsistent(createdAt);
      var seed := Seed(createdAt);
      students, courses, sessions, attendances := seed.students, seed.courses, seed.sessions, seed.attendances;
      identities := SeedIdentities;
    }

    /** `SaveChanges`: the pending contents are written when they satisfy every
        key, unique index and foreign key, and each identity counter rises to
        the largest key written; otherwise the provider throws
        (`DbUpdateException`) and the tables and counters keep their old
        values. */
    method SaveChanges(pending: Tables) returns (saved: bool)
      requires Valid()
      modifies this
      ensures Valid()
      ensures saved == Consistent(pending)
      ensures Snapshot() == if saved then pending else old(Snapshot())
      ensures identities == if saved then Advance(old(identities), pending) else old(identities)
    {
      saved := Consistent(pending);
      if saved {
        Write(pending, Advance(identities, pending));
      }
    }

    /** Stores `contents` and `next` as the tables and the counters. */
    method Write(contents: Tables, next: Identities)
      requires Consistent(contents) && Covers(next, contents)
      modifies this
      ensures Valid() && Snapshot() == contents && identities == next
    {
      students, courses, sessions, attendances := contents.students, contents.courses, contents.sessions, contents.attendances;
      identities := next;
    }
  }
}
