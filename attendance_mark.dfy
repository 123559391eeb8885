/** POST /api/attendance/mark and its `getAttendanceStatus`. The clock is the
    request's `Now`: weekday name, milliseconds since local midnight and the
    ISO date. The record store is a class whose `records` the method extends. */
module AttendanceMark {
  import opened Common
  import opened Records

  const GraceMs: int := 1_200_000     // 20 minutes
  const LockMs: int := 3_600_000      // 60 minutes

  datatype Now = Now(weekday: string, msOfDay: int, isoTimestamp: string)

  /** `new Date().toISOString().split('T')[0]` */
  function TodayDate(now: Now): (d: string)
    ensures d <= now.isoTimestamp && 'T' !in d
    ensures |d| < |now.isoTimestamp| ==> now.isoTimestamp[|d|] == 'T'
  {
    FirstPiece(now.isoTimestamp, 'T');
    Split(now.isoTimestamp, 'T')[0]
  }

  /** The class start on today's date, or Invalid when the start time does not
      parse (`new Date` then holds NaN and every comparison with it fails). */
  datatype ClassStart = StartAt(ms: int) | Invalid

  /** The status and lock `getAttendanceStatus` returns. */
  datatype Timing = Timing(status: Status, locked: bool)


  /** `Number` on one piece of the start time: digits (none reads as 0) or NaN. */
  function NumberOf(s: string): (n: Option<nat>)
    ensures n.Some? <==> AllDigits(s)
    ensures s == "" ==> n == Some(0)
  {
    if AllDigits(s) then Some(ParseDigits(s)) else None
  }

  /** `startTime.split(':').map(Number)` then `setHours(hours, minutes, 0, 0)`:
      hours that overflow the day roll forward, so the start is linear in both. */
  function ParseStartTime(startTime: string): (c: ClassStart)
    ensures c.StartAt? ==> c.ms >= 0
    ensures var pieces := Split(startTime, ':');
            c.StartAt? <==> |pieces| >= 2 && AllDigits(pieces[0]) && AllDigits(pieces[1])
  {
    var pieces := Split(startTime, ':');
    if |pieces| < 2 then Invalid
    else
      match (NumberOf(pieces[0]), NumberOf(pieces[1]))
      case (Some(h), Some(m)) => StartAt(h * 3_600_000 + m * 60_000)
      case _ => Invalid
  }

  /** A clock time `hh:mm` or `hh:mm:ss` starts the class hh hours and mm
      minutes after midnight; seconds are ignored. */
  lemma StartOfClockTime(hh: string, mm: string, ss: string)
    requires AllDigits(hh) && AllDigits(mm) && AllDigits(ss)
    ensures ParseStartTime(hh + ":" + mm) == StartAt(ParseDigits(hh) * 3_600_000 + ParseDigits(mm) * 60_000)
    ensures ParseStartTime(hh + ":" + mm + ":" + ss) == StartAt(ParseDigits(hh) * 3_600_000 + ParseDigits(mm) * 60_000)
  {
    assert !IsDigit(':');
    assert ':' !in hh && ':' !in mm;
    SplitAtSeparator(hh, mm, ':');
    SplitWithoutSeparator(mm, ':');
    assert hh + ":" + mm == hh + [':'] + mm;
    SplitAtSeparator(hh, mm + ":" + ss, ':');
    SplitAtSeparator(mm, ss, ':');
    assert hh + ":" + mm + ":" + ss == hh + [':'] + (mm + [':'] + ss);
  }

  /** The if-chain on `diffMinutes = diffMs / 60000`; compared in whole
      milliseconds, 20 minutes is 1_200_000 and 60 minutes 3_600_000. */
  function ElapsedTiming(diffMs: int): (t: Timing)
    ensures t.status == Present <==> diffMs <= GraceMs
    ensures t.locked <==> diffMs > LockMs
    ensures t.status != Absent
  {
    if diffMs < 0 then Timing(Present, false)
    else if diffMs <= GraceMs then Timing(Present, false)
    else if diffMs <= LockMs then Timing(Late, false)
    else Timing(Late, true)
  }

  function GetAttendanceStatus(startTime: Option<string>, dayOfWeek: Option<string>, now: Now): (t: Timing)
    ensures !Truthy(startTime) || !Truthy(dayOfWeek) || now.weekday != dayOfWeek.value ==> t == Timing(Present, false)
    ensures t.locked ==> t.status == Late
    ensures t.status != Absent
  {
    if !Truthy(startTime) || !Truthy(dayOfWeek) then Timing(Present, false)
    else if now.weekday != dayOfWeek.value then Timing(Present, false)
    else
      match ParseStartTime(startTime.value)
      case Invalid => Timing(Late, true)
      case StartAt(ms) => ElapsedTiming(now.msOfDay - ms)
  }

  /** Present, then late, then locked. */
  function Rank(t: Timing): nat
  {
    if t.locked then 2 else if t.status == Late then 1 else 0
  }

  /** The classification never goes back as time passes. */
  lemma TimingMonotone(d1: int, d2: int)
    requires d1 <= d2
    ensures Rank(ElapsedTiming(d1)) <= Rank(ElapsedTiming(d2))
  {
  }

  /** On the class day with a valid start: present up to 20 minutes after the
      start (or before it), late after that, locked after 60 minutes. */
  lemma ClassDayBands(startTime: string, dayOfWeek: string, now: Now)
    requires startTime != "" && dayOfWeek != "" && now.weekday == dayOfWeek
    requires ParseStartTime(startTime).StartAt?
    ensures var diff := now.msOfDay - ParseStartTime(startTime).ms;
            var t := GetAttendanceStatus(Some(startTime), Some(dayOfWeek), now);
            (t.status == Present <==> diff <= GraceMs) &&
            (t.locked <==> diff > LockMs)
  {
  }

  /** A start time that does not parse locks the marking on the class day. */
  lemma MalformedStartLocks(now: Now)
    requires now.weekday != ""
    ensures GetAttendanceStatus(Some("8"), Some(now.weekday), now) == Timing(Late, true)
    ensures GetAttendanceStatus(Some("8:3O"), Some(now.weekday), now) == Timing(Late, true)
  {
    SplitWithoutSeparator("8", ':');
    SplitWithoutSeparator("3O", ':');
    SplitAtSeparator("8", "3O", ':');
    assert "8" + [':'] + "3O" == "8:3O";
    assert !AllDigits("3O") by { assert !IsDigit("3O"[1]); }
  }

  /** A row of `class_sessions`. */
  datatype ClassSession = ClassSession(id: string, sectionId: string, startTime: Option<string>, dayOfWeek: Option<string>)

  datatype Request = Request(
    sectionId: Option<string>, studentId: Option<string>, faceMatchConfidence: Option<real>, scheduleId: Option<string>)

  datatype Response =
    | MissingIds                 // 400
    | Locked                     // 200, success: false, locked: true
    | RegistrationNotFound       // 404
    | AlreadyMarked              // 200, alreadyMarked: true
    | InsertFailed               // 400
    | Marked(record: Record)     // 200, success: true

  function HttpStatus(r: Response): int
  {
    match r
    case MissingIds => 400
    case RegistrationNotFound => 404
    case InsertFailed => 400
    case _ => 200
  }

  /** The schedule by id, or else the first of the section's sessions on
      today's weekday (`.limit(1).single()`). */
  function FindSession(req: Request, sessions: seq<ClassSession>, now: Now): (r: Option<ClassSession>)
    requires Truthy(req.sectionId)
    ensures Truthy(req.scheduleId) ==>
              (r.Some? ==>
                 r.value in sessions && r.value.id == req.scheduleId.value &&
                 forall s :: s in sessions && s.id == req.scheduleId.value ==> s == r.value) &&
              ((forall s :: s in sessions ==> s.id != req.scheduleId.value) ==> r.None?) &&
              (forall i :: 0 <= i < |sessions| && sessions[i].id == req.scheduleId.value &&
                           (forall j :: 0 <= j < |sessions| && j != i ==> sessions[j].id != req.scheduleId.value) ==>
                 r == Some(sessions[i]))
    ensures !Truthy(req.scheduleId) ==>
              (r.None? <==> forall s :: s in sessions ==> !HeldToday(s, req.sectionId.value, now)) &&
              (r.Some? ==>
                 exists k :: 0 <= k < |sessions| && sessions[k] == r.value && HeldToday(r.value, req.sectionId.value, now) &&
                   forall j :: 0 <= j < k ==> !HeldToday(sessions[j], req.sectionId.value, now))
  {
    if Truthy(req.scheduleId) then
      var keep := (s: ClassSession) => s.id == req.scheduleId.value;
      SingleFilter(sessions, keep);
      Single(Filter(sessions, keep))
    else
      var keep := (s: ClassSession) => HeldToday(s, req.sectionId.value, now);
      var today := Filter(sessions, keep);
      if today == [] then None
      else
        FilterFirst(sessions, keep);
        Some(today[0])
  }

  /** A session of the section scheduled on today's weekday. */
  predicate HeldToday(s: ClassSession, sectionId: string, now: Now)
  {
    s.sectionId == sectionId && s.dayOfWeek == Some(now.weekday)
  }

  /** The timing of the found session; without a session the student is present. */
  function SessionTiming(req: Request, sessions: seq<ClassSession>, now: Now): (t: Timing)
    requires Truthy(req.sectionId)
    ensures FindSession(req, sessions, now).None? ==> t == Timing(Present, false)
    ensures FindSession(req, sessions, now).Some? && FindSession(req, sessions, now).value.dayOfWeek != Some(now.weekday) ==>
              t == Timing(Present, false)
    ensures t.locked ==> t.status == Late
    ensures t.status != Absent
  {
    var session := FindSession(req, sessions, now);
    if session.None? then Timing(Present, false)
    else GetAttendanceStatus(session.value.startTime, session.value.dayOfWeek, now)
  }

  /** The student's registration, `.eq('id', studentId).single()`. */
  function RegistrationOf(registrations: seq<StudentRegistration>, studentId: string): (r: Option<StudentRegistration>)
    ensures r.Some? ==>
              r.value in registrations && r.value.id == studentId &&
              forall g :: g in registrations && g.id == studentId ==> g == r.value
    ensures (forall g :: g in registrations ==> g.id != studentId) ==> r.None?
    ensures forall i :: 0 <= i < |registrations| && registrations[i].id == studentId &&
                        (forall j :: 0 <= j < |registrations| && j != i ==> registrations[j].id != studentId) ==>
              r == Some(registrations[i])
  {
    var keep := (g: StudentRegistration) => g.id == studentId;
    SingleFilter(registrations, keep);
    Single(Filter(registrations, keep))
  }

  /** `faceMatchConfidence || null`: a confidence of 0 is stored as null. */
  function StoredConfidence(c: Option<real>): (r: Option<real>)
    ensures r.Some? <==> c.Some? && c.value != 0.0
    ensures r.Some? ==> r == c
  {
    if c.Some? && c.value != 0.0 then c else None
  }

  /** The handler's answer for a store holding `records`. `insertFails` stands
      for an error returned by the insert. */
  function MarkOutcome(req: Request, sessions: seq<ClassSession>, registrations: seq<StudentRegistration>,
                       records: seq<Record>, now: Now, insertFails: bool): (r: Response)
    ensures r == MissingIds <==> !Truthy(req.sectionId) || !Truthy(req.studentId)
    ensures r == Locked <==>
              Truthy(req.sectionId) && Truthy(req.studentId) &&
              var session := FindSession(req, sessions, now);
              session.Some? && GetAttendanceStatus(session.value.startTime, session.value.dayOfWeek, now).locked
    ensures r == RegistrationNotFound <==>
              Truthy(req.sectionId) && Truthy(req.studentId) && !SessionTiming(req, sessions, now).locked &&
              RegistrationOf(registrations, req.studentId.value).None?
    ensures r == AlreadyMarked ==>
              exists reg :: reg in registrations && reg.id == req.studentId.value &&
                |RecordsFor(records, SessionKey(req.sectionId.value, TodayDate(now)), reg.studentNumber)| == 1
    ensures Truthy(req.sectionId) && Truthy(req.studentId) && !SessionTiming(req, sessions, now).locked &&
            RegistrationOf(registrations, req.studentId.value).Some? &&
            |RecordsFor(records, SessionKey(req.sectionId.value, TodayDate(now)),
                        RegistrationOf(registrations, req.studentId.value).value.studentNumber)| == 1
            ==> r == AlreadyMarked
    ensures Truthy(req.sectionId) && Truthy(req.studentId) && !SessionTiming(req, sessions, now).locked &&
            RegistrationOf(registrations, req.studentId.value).Some? &&
            |RecordsFor(records, SessionKey(req.sectionId.value, TodayDate(now)),
                        RegistrationOf(registrations, req.studentId.value).value.studentNumber)| != 1
            ==> (r == InsertFailed <==> insertFails) && (r.Marked? <==> !insertFails)
    ensures r.Marked? ==>
              var session := FindSession(req, sessions, now);
              var timing := if session.None? then Timing(Present, false)
                            else GetAttendanceStatus(session.value.startTime, session.value.dayOfWeek, now);
              !timing.locked &&
              r.record.sessionId == SessionKey(req.sectionId.value, TodayDate(now)) &&
              r.record.sectionId == req.sectionId.value &&
              r.record.status == timing.status &&
              r.record.confidence == StoredConfidence(req.faceMatchConfidence) &&
              r.record.checkedInAt == now.isoTimestamp &&
              r.record.notes.None? &&
              exists reg :: reg in registrations && reg.id == req.studentId.value &&
                r.record.registrationId == reg.id && r.record.studentNumber == reg.studentNumber &&
                |RecordsFor(records, r.record.sessionId, reg.studentNumber)| != 1
  {
    if !Truthy(req.sectionId) || !Truthy(req.studentId) then MissingIds
    else
      var timing := SessionTiming(req, sessions, now);
      if timing.locked then Locked
      else
        var sessionId := SessionKey(req.sectionId.value, TodayDate(now));
        match RegistrationOf(registrations, req.studentId.value)
        case None => RegistrationNotFound
        case Some(reg) =>
          if |RecordsFor(records, sessionId, reg.studentNumber)| == 1 then AlreadyMarked
          else if insertFails then InsertFailed
          else Marked(Record(sessionId, reg.id, reg.studentNumber, now.isoTimestamp,
                             StoredConfidence(req.faceMatchConfidence), timing.status, req.sectionId.value, None))
  }

  /** The `attendance_records` table. */
  class AttendanceStore {
    var records: seq<Record>

    constructor(initial: seq<Record>)
      ensures records == initial
    {
      records := initial;
    }

    /** The handler: an insert happens only on `Marked`, and then of exactly that record. */
    method Mark(req: Request, sessions: seq<ClassSession>, registrations: seq<StudentRegistration>, now: Now, insertFails: bool)
      returns (r: Response)
      modifies this
      ensures r == MarkOutcome(req, sessions, registrations, old(records), now, insertFails)
      ensures records == if r.Marked? then old(records) + [r.record] else old(records)
    {
      if !Truthy(req.sectionId) || !Truthy(req.studentId) {
        return MissingIds;
      }
      var classSession := FindSession(req, sessions, now);
      var timing := Timing(Present, false);
      if classSession.Some? {
        timing := GetAttendanceStatus(classSession.value.startTime, classSession.value.dayOfWeek, now);
      }
      if timing.locked {
        return Locked;
      }
      var sessionId := SessionKey(req.sectionId.value, TodayDate(now));
      var registration := RegistrationOf(registrations, req.studentId.value);
      if registration.None? {
        return RegistrationNotFound;
      }
      var existing := Single(RecordsFor(records, sessionId, registration.value.studentNumber));
      if existing.Some? {
        return AlreadyMarked;
      }
      if insertFails {
        return InsertFailed;
      }
      var record := Record(sessionId, registration.value.id, registration.value.studentNumber, now.isoTimestamp,
                           StoredConfidence(req.faceMatchConfidence), timing.status, req.sectionId.value, None);
      records := records + [record];
      return Marked(record);
    }
  }

  /** Marking keeps at most one record per student and session: on a store
      with that property, `.single()` finds the existing record whenever there
      is one, so a second insert for the same student cannot happen. */
  lemma MarkKeepsOnePerStudent(req: Request, sessions: seq<ClassSession>, registrations: seq<StudentRegistration>,
                               records: seq<Record>, now: Now, insertFails: bool)
    requires OnePerStudent(records)
    ensures var r := MarkOutcome(req, sessions, registrations, records, now, insertFails);
            OnePerStudent(if r.Marked? then records + [r.record] else records)
  {
    var r := MarkOutcome(req, sessions, registrations, records, now, insertFails);
    if r.Marked? {
      var matching := RecordsFor(records, r.record.sessionId, r.record.studentNumber);
      AtMostOneMatch(records, r.record.sessionId, r.record.studentNumber);
      assert |matching| == 0;
      var all := records + [r.record];
      forall i, j | 0 <= i < j < |all|
        ensures all[i].sessionId != all[j].sessionId || all[i].studentNumber != all[j].studentNumber
      {
        if j == |records| {
          assert all[i] == records[i] && records[i] in records;
        } else {
          assert all[i] == records[i] && all[j] == records[j];
        }
      }
    }
  }

  /** In a store with one record per student and session, a lookup finds at most one. */
  lemma {:induction false} AtMostOneMatch(records: seq<Record>, sessionId: string, studentNumber: string)
    requires OnePerStudent(records)
    ensures |RecordsFor(records, sessionId, studentNumber)| <= 1
    decreases |records|
  {
    if records != [] {
      var prefix := records[..|records| - 1];
      var last := records[|records| - 1];
      assert OnePerStudent(prefix) by {
        forall i, j | 0 <= i < j < |prefix|
          ensures prefix[i].sessionId != prefix[j].sessionId || prefix[i].studentNumber != prefix[j].studentNumber
        {
          assert prefix[i] == records[i] && prefix[j] == records[j];
        }
      }
      AtMostOneMatch(prefix, sessionId, studentNumber);
      assert RecordsFor(records, sessionId, studentNumber) ==
             RecordsFor(prefix, sessionId, studentNumber) +
             (if last.sessionId == sessionId && last.studentNumber == studentNumber then [last] else []);
      var m := RecordsFor(prefix, sessionId, studentNumber);
      forall x | x in m
        ensures x.sessionId != last.sessionId || x.studentNumber != last.studentNumber
      {
        var i :| 0 <= i < |prefix| && prefix[i] == x;
        assert records[i] == x;
      }
      assert |m| > 0 ==> m[0] in m;
    }
  }
}
