/** POST /api/attendance/mark-absent: every active registered student of the
    section without a record in today's session gets an `absent` record. */
module MarkAbsent {
  import opened Common
  import opened Records
  import opened AttendanceMark

  const AutoNote: string := "Auto-marked absent at attendance lock"

  datatype Absentee = Absentee(studentNumber: string, name: string)

  datatype Response =
    | MissingSection                                            // 400
    | StudentsFetchFailed                                       // 400
    | NoStudents                                                // markedAbsent: 0
    | RecordsFetchFailed                                        // 400
    | AllRecorded                                               // markedAbsent: 0
    | InsertAbsencesFailed                                      // 400
    | MarkedAbsent(markedAbsent: nat, absentStudents: seq<Absentee>)

  function MarkedCount(r: Response): nat
  {
    if r.MarkedAbsent? then r.markedAbsent else 0
  }

  /** `markedStudentNumbers`: the student numbers with a record in the session. */
  function RecordedNumbers(records: seq<Record>, sessionId: string): (r: set<string>)
    ensures forall n :: n in r <==> exists x :: x in records && x.sessionId == sessionId && x.studentNumber == n
  {
    set x | x in records && x.sessionId == sessionId :: x.studentNumber
  }

  predicate Unrecorded(s: StudentRegistration, recorded: set<string>) { s.studentNumber !in recorded }

  /** The registered students without a record, in registration order. */
  function Absentees(students: seq<StudentRegistration>, recorded: set<string>): (r: seq<StudentRegistration>)
    ensures forall s :: s in r <==> s in students && s.studentNumber !in recorded
  {
    Filter(students, (s: StudentRegistration) => Unrecorded(s, recorded))
  }

  /** Order and multiplicity: the absentees of two runs of students are those
      of the first followed by those of the second, a single student is listed
      iff unrecorded, and an unrecorded student is listed as often as it is
      registered. */
  lemma AbsenteesInOrder(a: seq<StudentRegistration>, b: seq<StudentRegistration>, s: StudentRegistration, recorded: set<string>)
    ensures Absentees(a + b, recorded) == Absentees(a, recorded) + Absentees(b, recorded)
    ensures Absentees([s], recorded) == if s.studentNumber !in recorded then [s] else []
    ensures multiset(Absentees(a, recorded))[s] == if s.studentNumber !in recorded then multiset(a)[s] else 0
  {
    var keep := (x: StudentRegistration) => Unrecorded(x, recorded);
    FilterConcat(a, b, keep);
    FilterCount(a, keep, s);
    assert [s][..0] == [];
  }

  /** One absentee's row: marked `absent` now, with no confidence and the auto note. */
  function AbsentRecord(s: StudentRegistration, sessionId: string, sectionId: string, now: Now): (r: Record)
    ensures StatusName(r.status) == "absent" && r.confidence.None? && r.notes == Some(AutoNote)
    ensures r.sessionId == sessionId && r.sectionId == sectionId && r.checkedInAt == now.isoTimestamp
    ensures r.studentNumber == s.studentNumber && r.registrationId == s.id
  {
    Record(sessionId, s.id, s.studentNumber, now.isoTimestamp, None, Absent, sectionId, Some(AutoNote))
  }

  /** The rows inserted: one per absentee, in order, each `absent` with a null
      confidence, the session and section of the call and the auto note. */
  function AbsentRecords(absentees: seq<StudentRegistration>, sessionId: string, sectionId: string, now: Now)
    : (r: seq<Record>)
    ensures |r| == |absentees|
    ensures forall i :: 0 <= i < |r| ==>
              r[i].studentNumber == absentees[i].studentNumber && r[i].registrationId == absentees[i].id &&
              r[i].status == Absent && r[i].confidence.None? && r[i].sessionId == sessionId &&
              r[i].sectionId == sectionId && r[i].notes == Some(AutoNote)
  {
    seq(|absentees|, i requires 0 <= i < |absentees| => AbsentRecord(absentees[i], sessionId, sectionId, now))
  }

  function Names(absentees: seq<StudentRegistration>): (r: seq<Absentee>)
    ensures |r| == |absentees|
    ensures forall i :: 0 <= i < |r| ==> r[i].studentNumber == absentees[i].studentNumber
    ensures forall i :: 0 <= i < |r| ==> r[i].name == absentees[i].firstName + " " + absentees[i].lastName
  {
    seq(|absentees|, i requires 0 <= i < |absentees| =>
      Absentee(absentees[i].studentNumber, absentees[i].firstName + " " + absentees[i].lastName))
  }

  /** The students of the section without a record in today's session. */
  function Unmarked(sectionId: string, rows: seq<StudentRegistration>, records: seq<Record>, now: Now)
    : (r: seq<StudentRegistration>)
    ensures forall s :: s in r <==>
              s in SectionStudents(rows, sectionId) &&
              s.studentNumber !in RecordedNumbers(records, SessionKey(sectionId, TodayDate(now)))
  {
    Absentees(SectionStudents(rows, sectionId), RecordedNumbers(records, SessionKey(sectionId, TodayDate(now))))
  }

  /** One clause per exit of the handler, each an iff over the conditions
      the route tests in order. */
  function Outcome(sectionId: Option<string>, studentsTable: Fetch<StudentRegistration>, records: seq<Record>,
                   recordsFetchFails: bool, insertFails: bool, now: Now): (r: Response)
    ensures r == MissingSection <==> !Truthy(sectionId)
    ensures r == StudentsFetchFailed <==> Truthy(sectionId) && studentsTable.FetchError?
    ensures r == NoStudents <==>
              Truthy(sectionId) && studentsTable.Fetched? && SectionStudents(studentsTable.rows, sectionId.value) == []
    ensures r == RecordsFetchFailed <==>
              Truthy(sectionId) && studentsTable.Fetched? && SectionStudents(studentsTable.rows, sectionId.value) != [] &&
              recordsFetchFails
    ensures r == AllRecorded <==>
              Truthy(sectionId) && studentsTable.Fetched? && SectionStudents(studentsTable.rows, sectionId.value) != [] &&
              !recordsFetchFails && Unmarked(sectionId.value, studentsTable.rows, records, now) == []
    ensures r == InsertAbsencesFailed <==>
              Truthy(sectionId) && studentsTable.Fetched? && !recordsFetchFails &&
              Unmarked(sectionId.value, studentsTable.rows, records, now) != [] && insertFails
    ensures r.MarkedAbsent? <==>
              Truthy(sectionId) && studentsTable.Fetched? && !recordsFetchFails &&
              Unmarked(sectionId.value, studentsTable.rows, records, now) != [] && !insertFails
    ensures r.MarkedAbsent? ==>
              var absentees := Unmarked(sectionId.value, studentsTable.rows, records, now);
              r.markedAbsent == |absentees| > 0 && r.absentStudents == Names(absentees)
    ensures r == AllRecorded ==>
              forall s :: s in SectionStudents(studentsTable.rows, sectionId.value) ==>
                s.studentNumber in RecordedNumbers(records, SessionKey(sectionId.value, TodayDate(now)))
  {
    if !Truthy(sectionId) then MissingSection
    else if studentsTable.FetchError? then StudentsFetchFailed
    else
      var students := SectionStudents(studentsTable.rows, sectionId.value);
      if students == [] then NoStudents
      else if recordsFetchFails then RecordsFetchFailed
      else
        var absentees := Unmarked(sectionId.value, studentsTable.rows, records, now);
        if absentees == [] then AllRecorded
        else if insertFails then InsertAbsencesFailed
        else MarkedAbsent(|absentees|, Names(absentees))
  }

  /** The rows the call adds to the store (none unless it reports MarkedAbsent). */
  function Inserted(sectionId: Option<string>, studentsTable: Fetch<StudentRegistration>, records: seq<Record>,
                    recordsFetchFails: bool, insertFails: bool, now: Now): (r: seq<Record>)
    ensures |r| == MarkedCount(Outcome(sectionId, studentsTable, records, recordsFetchFails, insertFails, now))
  {
    if Outcome(sectionId, studentsTable, records, recordsFetchFails, insertFails, now).MarkedAbsent? then
      var sessionId := SessionKey(sectionId.value, TodayDate(now));
      var students := SectionStudents(studentsTable.rows, sectionId.value);
      AbsentRecords(Absentees(students, RecordedNumbers(records, sessionId)), sessionId, sectionId.value, now)
    else []
  }

  lemma AllRecordedNoAbsentees(students: seq<StudentRegistration>, recorded: set<string>)
    requires forall s :: s in students ==> s.studentNumber in recorded
    ensures Absentees(students, recorded) == []
  {
    FilterNone(students, (s: StudentRegistration) => Unrecorded(s, recorded));
  }

  /** The handler against the record store. */
  method MarkRemainingAbsent(store: AttendanceStore, sectionId: Option<string>, studentsTable: Fetch<StudentRegistration>,
                             recordsFetchFails: bool, insertFails: bool, now: Now)
    returns (r: Response)
    modifies store
    ensures r == Outcome(sectionId, studentsTable, old(store.records), recordsFetchFails, insertFails, now)
    ensures store.records == old(store.records) + Inserted(sectionId, studentsTable, old(store.records), recordsFetchFails, insertFails, now)
  {
    if !Truthy(sectionId) {
      return MissingSection;
    }
    var sessionId := SessionKey(sectionId.value, TodayDate(now));
    if studentsTable.FetchError? {
      return StudentsFetchFailed;
    }
    var allStudents := SectionStudents(studentsTable.rows, sectionId.value);
    if |allStudents| == 0 {
      return NoStudents;
    }
    if recordsFetchFails {
      return RecordsFetchFailed;
    }
    var markedStudentNumbers := RecordedNumbers(store.records, sessionId);
    var absentStudents := Absentees(allStudents, markedStudentNumbers);
    if |absentStudents| == 0 {
      return AllRecorded;
    }
    if insertFails {
      return InsertAbsencesFailed;
    }
    store.records := store.records + AbsentRecords(absentStudents, sessionId, sectionId.value, now);
    return MarkedAbsent(|absentStudents|, Names(absentStudents));
  }

  /** After a successful call, every student of the section has a record in
      the session, so a second call with the same students marks nobody. */
  lemma SecondCallMarksNothing(sectionId: Option<string>, studentsTable: Fetch<StudentRegistration>, records: seq<Record>,
                               insertFails: bool, now: Now, recordsFetchFails2: bool, insertFails2: bool)
    requires Outcome(sectionId, studentsTable, records, false, insertFails, now).MarkedAbsent?
    ensures var after := records + Inserted(sectionId, studentsTable, records, false, insertFails, now);
            MarkedCount(Outcome(sectionId, studentsTable, after, recordsFetchFails2, insertFails2, now)) == 0
  {
    var sessionId := SessionKey(sectionId.value, TodayDate(now));
    var students := SectionStudents(studentsTable.rows, sectionId.value);
    var absentees := Absentees(students, RecordedNumbers(records, sessionId));
    var added := AbsentRecords(absentees, sessionId, sectionId.value, now);
    var after := records + added;
    forall s | s in students
      ensures s.studentNumber in RecordedNumbers(after, sessionId)
    {
      if s.studentNumber in RecordedNumbers(records, sessionId) {
        var x :| x in records && x.sessionId == sessionId && x.studentNumber == s.studentNumber;
        assert x in after;
      } else {
        assert s in absentees;
        var i :| 0 <= i < |absentees| && absentees[i] == s;
        assert added[i] == after[|records| + i];
      }
    }
    AllRecordedNoAbsentees(students, RecordedNumbers(after, sessionId));
  }
}
