/** The session endpoints (`api/sessions`): listing, lookup by id and by join
    code, creation with a fresh six-digit join code, update and soft delete. */
module SessionsController {
  import opened Wrappers
  import opened Linq
  import opened Models
  import opened Data
  import opened Http
  import AttendanceService

  // Join codes: the decimal string of a number drawn from [100000, 999999).

  predicate IsDigit(c: char) {
    '0' <= c <= '9'
  }

  function DigitChar(d: nat): (c: char)
    requires d < 10
    ensures IsDigit(c)
  {
    ('0' as int + d) as char
  }

  function DigitValue(c: char): nat
    requires IsDigit(c)
  {
    c as int - '0' as int
  }

  /** `ToString()` of a non-negative number: its decimal digits, most
      significant first, with no leading zero. */
  function DecimalString(n: nat): (s: string)
    ensures |s| >= 1
    ensures forall i :: 0 <= i < |s| ==> IsDigit(s[i])
    ensures s[0] == '0' <==> n == 0
  {
    if n < 10 then [DigitChar(n)] else DecimalString(n / 10) + [DigitChar(n % 10)]
  }

  /** The number a string of decimal digits denotes. */
  function DecimalValue(s: string): nat
    requires forall i :: 0 <= i < |s| ==> IsDigit(s[i])
  {
    if |s| == 0 then 0 else DecimalValue(s[..|s| - 1]) * 10 + DigitValue(s[|s| - 1])
  }

  /** Reading the digits back gives the number: distinct draws give distinct codes. */
  lemma {:induction false} DecimalRoundTrip(n: nat)
    ensures DecimalValue(DecimalString(n)) == n
  {
    var s := DecimalString(n);
    if n >= 10 {
      DecimalRoundTrip(n / 10);
      assert s[..|s| - 1] == DecimalString(n / 10);
    }
  }

  function Pow10(k: nat): (p: nat)
    ensures p >= 1
  {
    if k == 0 then 1 else 10 * Pow10(k - 1)
  }

  /** A number with `k` digits is written with `k` characters. */
  lemma {:induction false} DecimalStringLength(n: nat, k: nat)
    requires 1 <= k && Pow10(k - 1) <= n < Pow10(k)
    ensures |DecimalString(n)| == k
  {
    if k > 1 {
      assert Pow10(k - 1) == 10 * Pow10(k - 2);
      assert Pow10(k - 2) <= n / 10 < Pow10(k - 1);
      DecimalStringLength(n / 10, k - 1);
    }
  }

  /** Every draw of the generator is written with exactly six digits, so the
      code fits the ten-character column. */
  lemma SixDigitCode(n: int)
    requires 100000 <= n < 999999
    ensures |DecimalString(n)| == 6
  {
    assert Pow10(5) == 100000 && Pow10(6) == 1000000;
    DecimalStringLength(n, 6);
  }

  /** Whether a stored session, active or not, has the join code. */
  function CodeInUse(sessions: seq<Session>, code: string): (r: bool)
    ensures r <==> exists s :: s in sessions && s.uniqueCode == code
  {
    FirstWhere(sessions, (s: Session) => s.uniqueCode == code).Some?
  }

  /** Whether every draw lies in the generator's range `[100000, 999999)`. */
  predicate ValidDraws(draws: seq<int>) {
    forall i :: 0 <= i < |draws| ==> 100000 <= draws[i] < 999999
  }

  /** The code of the first draw from position `from` on that no stored
      session uses, if any. */
  function FirstFreeCode(sessions: seq<Session>, draws: seq<int>, from: nat): Option<string>
    requires ValidDraws(draws)
    decreases |draws| - from
  {
    if from >= |draws| then None
    else if CodeInUse(sessions, DecimalString(draws[from])) then FirstFreeCode(sessions, draws, from + 1)
    else Some(DecimalString(draws[from]))
  }

  /** The first free code is the code of some draw from `from` on, all draws
      before it being taken; there is none exactly when every draw is taken. */
  lemma {:induction false} FirstFreeCodeIsFirst(sessions: seq<Session>, draws: seq<int>, from: nat)
    requires ValidDraws(draws)
    ensures var code := FirstFreeCode(sessions, draws, from);
      && (code.None? <==> forall k :: from <= k < |draws| ==> CodeInUse(sessions, DecimalString(draws[k])))
      && (code.Some? ==>
            && !CodeInUse(sessions, code.value)
            && |code.value| == 6
            && exists k :: from <= k < |draws| && code.value == DecimalString(draws[k])
                           && forall j :: from <= j < k ==> CodeInUse(sessions, DecimalString(draws[j])))
    decreases |draws| - from
  {
    if from < |draws| {
      SixDigitCode(draws[from]);
      FirstFreeCodeIsFirst(sessions, draws, from + 1);
    }
  }

  /** `GenerateUniqueCode`: draws numbers until the decimal string of one is
      not the join code of any stored session. The generator's successive
      draws are `draws`; when they are all taken, no code is produced. */
  method GenerateUniqueCode(ctx: AttendanceContext, draws: seq<int>) returns (code: Option<string>)
    requires ValidDraws(draws)
    ensures code == FirstFreeCode(ctx.sessions, draws, 0)
    ensures code.Some? ==> !CodeInUse(ctx.sessions, code.value) && |code.value| == 6
  {
    var i := 0;
    while i < |draws|
      invariant 0 <= i <= |draws|
      invariant FirstFreeCode(ctx.sessions, draws, i) == FirstFreeCode(ctx.sessions, draws, 0)
    {
      var candidate := DecimalString(draws[i]);
      if !CodeInUse(ctx.sessions, candidate) {
        SixDigitCode(draws[i]);
        return Some(candidate);
      }
      i := i + 1;
    }
    return None;
  }

  /** The row `PostSession` adds: the posted session with the fresh join
      code, active, created now; its id is the posted one, or one above the
      session counter when the posted id is unset (0). */
  function NewSession(ids: Identities, posted: Session, code: string, now: DateTime): Session {
    posted.(id := if posted.id == 0 then ids.session + 1 else posted.id,
            uniqueCode := code, isActive := true, createdAt := now)
  }

  /** POST api/sessions: the posted session is stored with a join code no
      stored session uses, active and created now, and echoed with 201; when
      its course does not exist or its explicit id is taken, the save fails
      and the answer is 400, with nothing stored. The generator is assumed to
      produce a free code among `draws`. */
  method PostSession(ctx: AttendanceContext, posted: Session, draws: seq<int>, now: DateTime)
    returns (r: ActionResult<Session>)
    requires ctx.Valid()
    requires ValidDraws(draws)
    requires exists k :: 0 <= k < |draws| && !CodeInUse(ctx.sessions, DecimalString(draws[k]))
    modifies ctx
    ensures ctx.Valid()
    ensures var code := FirstFreeCode(old(ctx.sessions), draws, 0);
      && code.Some?
      && var s := NewSession(old(ctx.identities), posted, code.value, now);
         var accepted := FindCourse(old(ctx.courses), s.courseId).Some? && forall y :: y in old(ctx.sessions) ==> y.id != s.id;
         && (accepted ==> r == Created(s) && ctx.Snapshot() == old(ctx.Snapshot()).(sessions := old(ctx.sessions) + [s])
                          && ctx.identities == old(ctx.identities).(session := Raise(old(ctx.identities).session, s.id)))
         && (!accepted ==> r == BadRequest("Error creating session: " + SaveFailedMessage)
                           && ctx.Snapshot() == old(ctx.Snapshot()) && ctx.identities == old(ctx.identities))
  {
    FirstFreeCodeIsFirst(ctx.sessions, draws, 0);
    var code := GenerateUniqueCode(ctx, draws);
    var t := ctx.Snapshot();
    var s := NewSession(ctx.identities, posted, code.value, now);
    AppendSessionConsistentIff(t, s);
    AdvanceAppendSession(ctx.identities, t, s);
    var saved := ctx.SaveChanges(t.(sessions := t.sessions + [s]));
    if saved {
      r := Created(s);
    } else {
      r := BadRequest("Error creating session: " + SaveFailedMessage);
    }
  }

  /** A freshly posted session carries a six-digit code no other session has
      and is active, so it can be registered against on its day. */
  lemma PostedSessionIsUsable(t: Tables, ids: Identities, posted: Session, draws: seq<int>, now: DateTime)
    requires ValidDraws(draws)
    requires FirstFreeCode(t.sessions, draws, 0).Some?
    ensures var s := NewSession(ids, posted, FirstFreeCode(t.sessions, draws, 0).value, now);
            && s.isActive && |s.uniqueCode| == 6 && SessionFits(s) == (|s.title| <= 200)
            && forall y :: y in t.sessions ==> y.uniqueCode != s.uniqueCode
  {
    FirstFreeCodeIsFirst(t.sessions, draws, 0);
  }

  /** GET api/sessions: always 200 with the active sessions, only those of
      the given course when a course id is given, in store order. */
  function GetSessions(t: Tables, courseId: Option<int>): (r: ActionResult<seq<Session>>)
    ensures r.Ok?
    ensures forall s :: s in r.value <==> s in t.sessions && s.isActive && (courseId.Some? ==> s.courseId == courseId.value)
  {
    var active := Where(t.sessions, (s: Session) => s.isActive);
    Ok(if courseId.Some? then Where(active, (s: Session) => s.courseId == courseId.value) else active)
  }

  /** A session with what `GetSession` loads with it: its course and its
      attendances. */
  datatype SessionDetails = SessionDetails(session: Session, course: Course, attendances: seq<Attendance>)

  /** GET api/sessions/{id}: 404 when no active session has the id (an
      inactive one counts as absent); otherwise 200 with the session, its
      course and its attendances. */
  function GetSession(t: Tables, id: int): (r: ActionResult<SessionDetails>)
    requires ForeignKeys(t)
    ensures r.Ok? || r == NotFound("")
    ensures r.NotFound? <==> forall s :: s in t.sessions ==> !(s.id == id && s.isActive)
    ensures r.Ok? ==>
              && r.value.session in t.sessions && r.value.session.id == id && r.value.session.isActive
              && r.value.course in t.courses && r.value.course.id == r.value.session.courseId
              && forall a :: a in r.value.attendances <==> a in t.attendances && a.sessionId == id
  {
    match FirstWhere(t.sessions, (s: Session) => s.id == id && s.isActive)
    case None => NotFound("")
    case Some(s) =>
      Ok(SessionDetails(s, FindCourse(t.courses, s.courseId).value, Where(t.attendances, (a: Attendance) => a.sessionId == id)))
  }

  /** GET api/sessions/by-code/{code}: 404 when no active session has the
      code, 400 when it is not dated today, otherwise 200 with the session. */
  function GetSessionByCode(t: Tables, code: string, today: DateTime): (r: ActionResult<Session>)
    ensures r.Ok? || r == NotFound("Código de sesión no válido") || r == BadRequest("Esta sesión no está activa para hoy")
    ensures r.NotFound? <==> forall s :: s in t.sessions ==> !(s.uniqueCode == code && s.isActive)
    ensures r.BadRequest? ==> exists s :: s in t.sessions && s.uniqueCode == code && s.isActive && DatePart(s.date) != today
    ensures r.Ok? ==> r.value in t.sessions && r.value.uniqueCode == code && r.value.isActive && DatePart(r.value.date) == today
  {
    match AttendanceService.FindActiveSessionByCode(t.sessions, code)
    case None => NotFound("Código de sesión no válido")
    case Some(s) => if DatePart(s.date) != today then BadRequest("Esta sesión no está activa para hoy") else Ok(s)
  }

  /** Looking a code up answers with the message a registration with that
      code would be refused with, and answers 200 exactly when the session
      checks of a registration pass. */
  lemma ByCodeAgreesWithRegistration(t: Tables, code: string, today: DateTime, studentId: int)
    ensures var r := GetSessionByCode(t, code, today);
            var v := AttendanceService.ValidateRegistration(t, studentId, code, today);
            && (r.NotFound? <==> v == Failure(AttendanceService.InvalidSessionCode))
            && (r.NotFound? ==> r.message == AttendanceService.Message(v.error))
            && (r.BadRequest? <==> v == Failure(AttendanceService.SessionNotActiveToday))
            && (r.BadRequest? ==> r.message == AttendanceService.Message(v.error))
            && (r.Ok? <==> v.Success? || v == Failure(AttendanceService.StudentNotFound)
                           || v == Failure(AttendanceService.AlreadyRegistered))
  {
  }

  /** PUT api/sessions/{id}: 400 when the path id differs from the body's;
      404 when no session has the id; otherwise the stored row takes every
      value of the body and the answer is 204, unless its course does not
      exist or another session has its join code, in which case the save
      throws (500) and nothing changes. */
  method PutSession(ctx: AttendanceContext, id: int, session: Session) returns (r: ActionResult<()>)
    requires ctx.Valid()
    modifies ctx
    ensures ctx.Valid() && ctx.identities == old(ctx.identities)
    ensures id != session.id ==> r == BadRequest("") && ctx.Snapshot() == old(ctx.Snapshot())
    ensures id == session.id && (forall x :: x in old(ctx.sessions) ==> x.id != id) ==>
              r == NotFound("") && ctx.Snapshot() == old(ctx.Snapshot())
    ensures id == session.id && (exists x :: x in old(ctx.sessions) && x.id == id) ==>
              var accepted := FindCourse(old(ctx.courses), session.courseId).Some?
                              && forall y :: y in old(ctx.sessions) && y.id != id ==> y.uniqueCode != session.uniqueCode;
              && (accepted ==> r == NoContent && ctx.Snapshot() == ReplaceSession(old(ctx.Snapshot()), session))
              && (!accepted ==> r == ServerError && ctx.Snapshot() == old(ctx.Snapshot()))
  {
    if id != session.id {
      return BadRequest("");
    }
    var t := ctx.Snapshot();
    if FindSession(t.sessions, id).None? {
      return NotFound("");
    }
    ReplaceSessionConsistentIff(t, session);
    ReplaceSessionKeepsIdentities(ctx.identities, t, session);
    var saved := ctx.SaveChanges(ReplaceSession(t, session));
    r := if saved then NoContent else ServerError;
  }

  /** DELETE api/sessions/{id}: 404 when no session has the id; otherwise the
      session is only marked inactive (its row and its attendances stay) and
      the answer is 204. */
  method DeleteSession(ctx: AttendanceContext, id: int) returns (r: ActionResult<()>)
    requires ctx.Valid()
    modifies ctx
    ensures ctx.Valid() && ctx.identities == old(ctx.identities)
    ensures (forall x :: x in old(ctx.sessions) ==> x.id != id) ==> r == NotFound("") && ctx.Snapshot() == old(ctx.Snapshot())
    ensures forall x :: x in old(ctx.sessions) && x.id == id ==>
              r == NoContent && ctx.Snapshot() == ReplaceSession(old(ctx.Snapshot()), x.(isActive := false))
  {
    var t := ctx.Snapshot();
    var found := FindSession(t.sessions, id);
    if found.None? {
      return NotFound("");
    }
    var x := found.value;
    forall y | y in t.sessions && y.id == id ensures y == x {
      UniqueByMembers(t.sessions, SessionKey, y, x);
    }
    DeactivatedSessionKeepsConsistent(t, x);
    ReplaceSessionKeepsIdentities(ctx.identities, t, x.(isActive := false));
    var saved := ctx.SaveChanges(ReplaceSession(t, x.(isActive := false)));
    assert saved;
    r := NoContent;
  }

  /** Marking a stored session inactive never violates a constraint. */
  lemma DeactivatedSessionKeepsConsistent(t: Tables, x: Session)
    requires Consistent(t) && x in t.sessions
    ensures Consistent(ReplaceSession(t, x.(isActive := false)))
  {
    forall y | y in t.sessions && y.id != x.id ensures y.uniqueCode != x.uniqueCode {
      if y.uniqueCode == x.uniqueCode {
        UniqueByMembers(t.sessions, SessionCode, y, x);
      }
    }
    ReplaceSessionConsistentIff(t, x.(isActive := false));
  }

  /** After a soft delete the session is no longer served by id or by code
      and its code no longer registers attendance, while every attendance
      stays. */
  lemma DeletedSessionIsHidden(t: Tables, x: Session, today: DateTime, studentId: int)
    requires Consistent(t) && x in t.sessions
    ensures Consistent(ReplaceSession(t, x.(isActive := false)))
    ensures var t' := ReplaceSession(t, x.(isActive := false));
            && t'.attendances == t.attendances
            && GetSession(t', x.id).NotFound?
            && GetSessionByCode(t', x.uniqueCode, today).NotFound?
            && AttendanceService.ValidateRegistration(t', studentId, x.uniqueCode, today)
               == Failure(AttendanceService.InvalidSessionCode)
  {
    var x' := x.(isActive := false);
    var t' := ReplaceSession(t, x');
    DeactivatedSessionKeepsConsistent(t, x);
    forall y | y in t'.sessions ensures !(y.id == x.id && y.isActive) && !(y.uniqueCode == x.uniqueCode && y.isActive) {
      ReplaceByMembers(t.sessions, SessionKey, x', y);
      if y != x' {
        if y.uniqueCode == x.uniqueCode {
          UniqueByMembers(t.sessions, SessionCode, y, x);
        }
      }
    }
  }
}
