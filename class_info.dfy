/** GET /api/attendance/class-info: the class session of a section, whether
    attendance is locked (30 minutes after the start) and the student count. */
module ClassInfo {
  import opened Common
  import opened Records
  import AttendanceMark

  const LockAfterMs: int := 1_800_000    // 30 minutes

  /** A row of `class_sessions` as the route selects it. */
  datatype Session = Session(
    id: string, sectionId: string, maxCapacity: Option<int>, dayOfWeek: Option<string>, startTime: string)

  datatype Response =
    | MissingSection                                            // 400
    | NoClassInfo                                               // classInfo: null, locked: false, totalStudents: 0
    | Info(session: Session, locked: bool, totalStudents: int)

  /** `isAttendanceLocked`: only on the class day, and only strictly after
      start + 30 minutes. A start time that does not parse gives an invalid
      date, which `now >` never exceeds. */
  function IsAttendanceLocked(startTime: string, dayOfWeek: Option<string>, now: AttendanceMark.Now): (locked: bool)
    ensures dayOfWeek != Some(now.weekday) ==> !locked
    ensures AttendanceMark.ParseStartTime(startTime).Invalid? ==> !locked
  {
    if dayOfWeek != Some(now.weekday) then false
    else
      match AttendanceMark.ParseStartTime(startTime)
      case Invalid => false
      case StartAt(ms) => now.msOfDay > ms + LockAfterMs
  }

  /** On the class day with a start that parses, the lock holds exactly when more
      than 30 minutes have passed: at exactly 30 minutes attendance is open. */
  lemma LockedExactlyAfterThirtyMinutes(startTime: string, now: AttendanceMark.Now)
    requires AttendanceMark.ParseStartTime(startTime).StartAt?
    ensures var start := AttendanceMark.ParseStartTime(startTime).ms;
            (IsAttendanceLocked(startTime, Some(now.weekday), now) <==> now.msOfDay - start > LockAfterMs) &&
            (now.msOfDay == start + LockAfterMs ==> !IsAttendanceLocked(startTime, Some(now.weekday), now))
  {
  }

  /** The route shows the lock earlier than the mark route applies it: whenever
      marking is locked for a session with a parsed start, this route reports
      locked too, and 45 minutes after the start only this route does. */
  lemma LockedBeforeMarkLocks(startTime: string, now: AttendanceMark.Now)
    requires startTime != "" && now.weekday != ""
    requires AttendanceMark.ParseStartTime(startTime).StartAt?
    ensures AttendanceMark.GetAttendanceStatus(Some(startTime), Some(now.weekday), now).locked ==>
              IsAttendanceLocked(startTime, Some(now.weekday), now)
    ensures now.msOfDay == AttendanceMark.ParseStartTime(startTime).ms + 2_700_000 ==>
              IsAttendanceLocked(startTime, Some(now.weekday), now) &&
              !AttendanceMark.GetAttendanceStatus(Some(startTime), Some(now.weekday), now).locked
  {
  }

  /** For a start time that does not parse the two routes disagree the other
      way: marking is locked, the class info says open. */
  lemma MalformedStartDisagrees(now: AttendanceMark.Now)
    requires now.weekday != ""
    ensures AttendanceMark.GetAttendanceStatus(Some("8"), Some(now.weekday), now).locked
    ensures !IsAttendanceLocked("8", Some(now.weekday), now)
  {
    AttendanceMark.MalformedStartLocks(now);
    SplitWithoutSeparator("8", ':');
  }

  /** `x || fallback` on a number: null and 0 fall back. */
  function OrElse(x: Option<int>, fallback: int): (r: int)
    ensures x.Some? && x.value != 0 ==> r == x.value
    ensures x.None? || x.value == 0 ==> r == fallback
  {
    if x.Some? && x.value != 0 then x.value else fallback
  }

  /** The primary lookup: by schedule id when one is given, else by section,
      each through `.single()` (none on an error or a count other than one). */
  function PrimarySession(sectionId: string, scheduleId: Option<string>, sessions: Fetch<Session>): (r: Option<Session>)
    ensures r.Some? ==> sessions.Fetched? && r.value in sessions.rows
    ensures r.Some? && Truthy(scheduleId) ==>
              r.value.id == scheduleId.value && forall s :: s in sessions.rows && s.id == scheduleId.value ==> s == r.value
    ensures r.Some? && !Truthy(scheduleId) ==>
              r.value.sectionId == sectionId && forall s :: s in sessions.rows && s.sectionId == sectionId ==> s == r.value
    ensures sessions.Fetched? && Truthy(scheduleId) ==>
              forall i :: 0 <= i < |sessions.rows| && sessions.rows[i].id == scheduleId.value &&
                          (forall j :: 0 <= j < |sessions.rows| && j != i ==> sessions.rows[j].id != scheduleId.value) ==>
                r == Some(sessions.rows[i])
    ensures sessions.Fetched? && !Truthy(scheduleId) ==>
              forall i :: 0 <= i < |sessions.rows| && sessions.rows[i].sectionId == sectionId &&
                          (forall j :: 0 <= j < |sessions.rows| && j != i ==> sessions.rows[j].sectionId != sectionId) ==>
                r == Some(sessions.rows[i])
  {
    if sessions.FetchError? then None
    else if Truthy(scheduleId) then
      var keep := (s: Session) => s.id == scheduleId.value;
      SingleFilter(sessions.rows, keep);
      Single(Filter(sessions.rows, keep))
    else
      var keep := (s: Session) => s.sectionId == sectionId;
      SingleFilter(sessions.rows, keep);
      Single(Filter(sessions.rows, keep))
  }

  /** The fallback: the first session of the section (`.limit(1)`). */
  function AnySession(sectionId: string, sessions: Fetch<Session>): (r: Option<Session>)
    ensures r.None? <==> sessions.FetchError? || forall s :: s in sessions.rows ==> s.sectionId != sectionId
    ensures sessions.Fetched? ==>
              forall k :: 0 <= k < |sessions.rows| && sessions.rows[k].sectionId == sectionId &&
                          (forall j :: 0 <= j < k ==> sessions.rows[j].sectionId != sectionId) ==>
                r == Some(sessions.rows[k])
  {
    if sessions.FetchError? then None
    else
      var keep := (s: Session) => s.sectionId == sectionId;
      FilterFirstAt(sessions.rows, keep);
      var mine := Filter(sessions.rows, keep);
      if mine == [] then None else assert mine[0] in mine; Some(mine[0])
  }


  /** The registration count of the section (`count: 'exact'`), active or not;
      none when the count query fails. */
  function RegistrationCount(sectionId: string, registrations: Fetch<StudentRegistration>): (c: Option<int>)
    ensures c.Some? <==> registrations.Fetched?
    ensures c.Some? ==> 0 <= c.value <= |registrations.rows|
    ensures c.Some? ==>
              c.value == |set i | 0 <= i < |registrations.rows| && registrations.rows[i].sectionId == Some(sectionId)|
  {
    if registrations.FetchError? then None
    else
      var keep := (g: StudentRegistration) => g.sectionId == Some(sectionId);
      FilterSize(registrations.rows, keep);
      assert Passing(registrations.rows, keep) ==
             set i | 0 <= i < |registrations.rows| && registrations.rows[i].sectionId == Some(sectionId);
      Some(|Filter(registrations.rows, keep)|)
  }

  function ClassInfoOutcome(sectionId: Option<string>, scheduleId: Option<string>, sessions: Fetch<Session>,
                            registrations: Fetch<StudentRegistration>, now: AttendanceMark.Now): (r: Response)
    ensures r == MissingSection <==> !Truthy(sectionId)
    ensures r == NoClassInfo <==>
              Truthy(sectionId) && PrimarySession(sectionId.value, scheduleId, sessions).None? &&
              AnySession(sectionId.value, sessions).None?
    ensures r.Info? ==> r.locked == IsAttendanceLocked(r.session.startTime, r.session.dayOfWeek, now)
    ensures r.Info? ==>
              var primary := PrimarySession(sectionId.value, scheduleId, sessions);
              if primary.Some? then
                r.session == primary.value &&
                r.totalStudents == OrElse(RegistrationCount(sectionId.value, registrations), OrElse(r.session.maxCapacity, 0))
              else
                Some(r.session) == AnySession(sectionId.value, sessions) &&
                r.totalStudents == OrElse(r.session.maxCapacity, 0)
  {
    if !Truthy(sectionId) then MissingSection
    else
      match PrimarySession(sectionId.value, scheduleId, sessions)
      case Some(s) =>
        Info(s, IsAttendanceLocked(s.startTime, s.dayOfWeek, now),
             OrElse(RegistrationCount(sectionId.value, registrations), OrElse(s.maxCapacity, 0)))
      case None =>
        match AnySession(sectionId.value, sessions)
        case None => NoClassInfo
        case Some(s) => Info(s, IsAttendanceLocked(s.startTime, s.dayOfWeek, now), OrElse(s.maxCapacity, 0))
  }

  /** A section with registered students reports their count when its session
      is found directly; a section without any reports the capacity instead,
      and so does the fallback path whatever the registrations. */
  lemma TotalStudentsFallback(sectionId: string, scheduleId: Option<string>, sessions: Fetch<Session>,
                              registrations: Fetch<StudentRegistration>, now: AttendanceMark.Now)
    requires sectionId != ""
    ensures var r := ClassInfoOutcome(Some(sectionId), scheduleId, sessions, registrations, now);
            var count := RegistrationCount(sectionId, registrations);
            r.Info? && PrimarySession(sectionId, scheduleId, sessions).Some? && count.Some? && count.value > 0 ==>
              r.totalStudents == count.value
    ensures var r := ClassInfoOutcome(Some(sectionId), scheduleId, sessions, registrations, now);
            var count := RegistrationCount(sectionId, registrations);
            r.Info? && (count == Some(0) || PrimarySession(sectionId, scheduleId, sessions).None?) ==>
              r.totalStudents == OrElse(r.session.maxCapacity, 0)
  {
  }

  /** With no session of the section at all, the answer is the empty class info. */
  lemma NoSessionsNoClassInfo(sectionId: string, scheduleId: Option<string>, sessions: seq<Session>,
                              registrations: Fetch<StudentRegistration>, now: AttendanceMark.Now)
    requires sectionId != ""
    requires forall s :: s in sessions ==> s.sectionId != sectionId
    requires !Truthy(scheduleId)
    ensures ClassInfoOutcome(Some(sectionId), scheduleId, Fetched(sessions), registrations, now) == NoClassInfo
  {
    FilterNone(sessions, (s: Session) => s.sectionId == sectionId);
  }
}
