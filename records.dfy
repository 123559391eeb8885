/** The attendance rows the routes share: student face registrations,
    attendance records and the deterministic session key. The session id is
    `uuidv5(key, NIL)`; the model uses the key itself, taking uuid v5 as
    injective. */
module Records {
  import opened Common

  /** A stored attendance status (the `AttendanceStatus` type of the schema). */
  datatype Status = Present | Late | Absent | Excused

  function StatusName(s: Status): (r: string)
    ensures s == Present <==> r == "present"
    ensures s == Late <==> r == "late"
    ensures s == Absent <==> r == "absent"
    ensures s == Excused <==> r == "excused"
  {
    match s
    case Present => "present"
    case Late => "late"
    case Absent => "absent"
    case Excused => "excused"
  }

  /** A row of `sections`. */
  datatype Section = Section(id: string, sectionCode: string)

  /** A row of `student_face_registrations`. */
  datatype StudentRegistration = StudentRegistration(
    id: string, studentNumber: string, firstName: string, lastName: string,
    sectionId: Option<string>, isActive: bool)

  /** `.eq('section_id', sectionId).eq('is_active', true)` on the registrations. */
  function SectionStudents(rows: seq<StudentRegistration>, sectionId: string): (r: seq<StudentRegistration>)
    ensures forall s :: s in r <==> s in rows && s.sectionId == Some(sectionId) && s.isActive
  {
    Filter(rows, (s: StudentRegistration) => s.sectionId == Some(sectionId) && s.isActive)
  }

  /** A row of `attendance_records`. */
  datatype Record = Record(
    sessionId: string, registrationId: string, studentNumber: string, checkedInAt: string,
    confidence: Option<real>, status: Status, sectionId: string, notes: Option<string>)

  const SessionKeyPrefix: string := "attendance-"

  /** `attendance-${sectionId}-${date}` */
  function SessionKey(sectionId: string, date: string): (k: string)
    ensures StartsWith(k, SessionKeyPrefix)
    ensures |k| == |SessionKeyPrefix| + |sectionId| + 1 + |date|
  {
    SessionKeyPrefix + sectionId + "-" + date
  }

  /** Keys for dates of one length (the routes' ISO dates `YYYY-MM-DD`) are
      equal only for the same section and date. */
  lemma SessionKeyInjective(s1: string, d1: string, s2: string, d2: string)
    requires |d1| == |d2|
    ensures SessionKey(s1, d1) == SessionKey(s2, d2) <==> s1 == s2 && d1 == d2
  {
    var k1, k2 := SessionKey(s1, d1), SessionKey(s2, d2);
    if k1 == k2 {
      var n := |SessionKeyPrefix|;
      assert |s1| == |s2|;
      assert s1 == k1[n..n + |s1|];
      assert s2 == k2[n..n + |s2|];
      assert d1 == k1[n + |s1| + 1..];
      assert d2 == k2[n + |s2| + 1..];
    }
  }

  /** Without that, the dash in the key is ambiguous: a section id ending in
      `-x` with one date has the key of another section with a longer date. */
  lemma SessionKeyCollision()
    ensures SessionKey("a-b", "c") == SessionKey("a", "b-c")
  {
  }

  /** The records of `sessionId` for `studentNumber`. */
  function RecordsFor(records: seq<Record>, sessionId: string, studentNumber: string): (r: seq<Record>)
    ensures forall x :: x in r <==> x in records && x.sessionId == sessionId && x.studentNumber == studentNumber
  {
    Filter(records, (x: Record) => x.sessionId == sessionId && x.studentNumber == studentNumber)
  }

  /** No two records for one student in one session. */
  ghost predicate OnePerStudent(records: seq<Record>)
  {
    forall i, j :: 0 <= i < j < |records| ==>
      records[i].sessionId != records[j].sessionId || records[i].studentNumber != records[j].studentNumber
  }
}
