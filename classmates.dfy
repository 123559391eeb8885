/** GET /api/student/classmates: the students registered in the caller's
    section, each with their attendance counts in that section. */
module Classmates {
  import opened Common
  import opened Records
  import opened Rollups
  import StudentRecords

  /** The not-found code PostgREST gives `.single()`; for the section lookup it
      means no registration rather than a failure. */
  const NoRowsCode: string := "PGRST116"

  /** A registration query that may fail with an error code. */
  datatype Lookup = Rows(rows: seq<StudentRegistration>) | Failed(code: string)

  datatype Classmate = Classmate(firstName: string, lastName: string, studentNumber: string, stats: StudentRecords.DayStats)

  datatype Response =
    | MissingStudent                                             // 400
    | StudentNotFound                                            // classmates: [], 'Student not found'
    | SectionFetchFailed                                         // classmates: [], 'Failed to fetch student section'
    | NotEnrolled                                                // classmates: [], 'Student not enrolled in any section'
    | ClassmatesFetchFailed                                      // classmates: [], 'Failed to fetch classmates'
    | Listed(classmates: seq<Classmate>)

  /** The section of the student's first registration, when there is one. */
  function StudentSection(registrations: seq<StudentRegistration>, number: string): (s: Option<string>)
    ensures s.Some? ==> s.value != "" &&
                        exists g :: g in registrations && g.studentNumber == number && g.sectionId == s
    ensures (forall g :: g in registrations ==> g.studentNumber != number) ==> s.None?
    ensures forall k :: 0 <= k < |registrations| && registrations[k].studentNumber == number &&
                        (forall j :: 0 <= j < k ==> registrations[j].studentNumber != number) ==>
              s == (if Truthy(registrations[k].sectionId) then registrations[k].sectionId else None)
  {
    var keep := (g: StudentRegistration) => g.studentNumber == number;
    FilterFirstAt(registrations, keep);
    var mine := Filter(registrations, keep);
    if mine == [] then None
    else
      assert mine[0] in mine;
      if Truthy(mine[0].sectionId) then mine[0].sectionId else None
  }

  /** The classmate's records in the section (none when that query fails). */
  function ClassmateRecords(records: Fetch<Record>, number: string, sectionId: string): (r: seq<Record>)
    ensures records.Fetched? ==> forall x :: x in r <==> x in records.rows && x.studentNumber == number && x.sectionId == sectionId
    ensures records.FetchError? ==> r == []
  {
    if records.FetchError? then []
    else Filter(records.rows, (x: Record) => x.studentNumber == number && x.sectionId == sectionId)
  }

  function ClassmateOf(g: StudentRegistration, records: Fetch<Record>, sectionId: string): (c: Classmate)
    ensures c.studentNumber == g.studentNumber && c.firstName == g.firstName && c.lastName == g.lastName
    ensures c.stats == StudentRecords.StatsOf(ClassmateRecords(records, g.studentNumber, sectionId))
  {
    Classmate(g.firstName, g.lastName, g.studentNumber,
              StudentRecords.StatsOf(ClassmateRecords(records, g.studentNumber, sectionId)))
  }

  /** Everybody registered in the section, active or not. */
  function InSection(registrations: seq<StudentRegistration>, sectionId: string): (r: seq<StudentRegistration>)
    ensures forall g :: g in r <==> g in registrations && g.sectionId == Some(sectionId)
  {
    Filter(registrations, (g: StudentRegistration) => g.sectionId == Some(sectionId))
  }

  /** The id is present and `users` maps it to a student number. */
  predicate Known(studentId: Option<string>, users: Fetch<StudentRecords.UserRow>)
  {
    Truthy(studentId) && StudentRecords.StudentNumber(users, studentId.value).Some?
  }

  /** One clause per exit of the handler, each an iff over the tests the
      route makes in order. */
  function ClassmatesOutcome(studentId: Option<string>, users: Fetch<StudentRecords.UserRow>, section: Lookup,
                             classmates: Fetch<StudentRegistration>, records: Fetch<Record>): (r: Response)
    ensures r == MissingStudent <==> !Truthy(studentId)
    ensures r == StudentNotFound <==>
              Truthy(studentId) && StudentRecords.StudentNumber(users, studentId.value).None?
    ensures r == SectionFetchFailed <==> Known(studentId, users) && section.Failed? && section.code != NoRowsCode
    ensures r == NotEnrolled <==>
              Known(studentId, users) &&
              ((section.Failed? && section.code == NoRowsCode) ||
               (section.Rows? && StudentSection(section.rows, StudentRecords.StudentNumber(users, studentId.value).value).None?))
    ensures r == ClassmatesFetchFailed <==>
              Known(studentId, users) && section.Rows? &&
              StudentSection(section.rows, StudentRecords.StudentNumber(users, studentId.value).value).Some? &&
              classmates.FetchError?
    ensures r.Listed? <==>
              Known(studentId, users) && section.Rows? &&
              StudentSection(section.rows, StudentRecords.StudentNumber(users, studentId.value).value).Some? &&
              classmates.Fetched?
    ensures r.Listed? ==>
              Known(studentId, users) && section.Rows? && classmates.Fetched? &&
              StudentSection(section.rows, StudentRecords.StudentNumber(users, studentId.value).value).Some? &&
              var sid := StudentSection(section.rows, StudentRecords.StudentNumber(users, studentId.value).value).value;
              var list := InSection(classmates.rows, sid);
              |r.classmates| == |list| &&
              forall i :: 0 <= i < |list| ==> r.classmates[i] == ClassmateOf(list[i], records, sid)
  {
    if !Truthy(studentId) then MissingStudent
    else
      match StudentRecords.StudentNumber(users, studentId.value)
      case None => StudentNotFound
      case Some(number) =>
        if section.Failed? && section.code != NoRowsCode then SectionFetchFailed
        else if section.Failed? then NotEnrolled
        else
          match StudentSection(section.rows, number)
          case None => NotEnrolled
          case Some(sid) =>
            if classmates.FetchError? then ClassmatesFetchFailed
            else
              var list := InSection(classmates.rows, sid);
              Listed(seq(|list|, i requires 0 <= i < |list| => ClassmateOf(list[i], records, sid)))
  }

  /** When both registration queries read the same table, the student is
      listed among their own classmates, and every listed rate is a percentage. */
  lemma ListsTheStudent(studentId: string, users: Fetch<StudentRecords.UserRow>, table: seq<StudentRegistration>,
                        records: Fetch<Record>)
    requires studentId != ""
    ensures var r := ClassmatesOutcome(Some(studentId), users, Rows(table), Fetched(table), records);
            r.Listed? ==>
              (exists i :: 0 <= i < |r.classmates| &&
                           r.classmates[i].studentNumber == StudentRecords.StudentNumber(users, studentId).value) &&
              forall i :: 0 <= i < |r.classmates| ==> 0 <= r.classmates[i].stats.attendanceRate <= 100
  {
    var r := ClassmatesOutcome(Some(studentId), users, Rows(table), Fetched(table), records);
    if r.Listed? {
      var number := StudentRecords.StudentNumber(users, studentId).value;
      var sid := StudentSection(table, number).value;
      var g :| g in table && g.studentNumber == number && g.sectionId == Some(sid);
      var list := InSection(table, sid);
      assert g in list;
      ListedClassmates(list, records, sid, r.classmates, g);
    }
  }

  /** A listing built from a roster shows every member of the roster, with
      rates that are percentages. */
  lemma ListedClassmates(list: seq<StudentRegistration>, records: Fetch<Record>, sid: string, cs: seq<Classmate>,
                         g: StudentRegistration)
    requires |cs| == |list| && forall i :: 0 <= i < |list| ==> cs[i] == ClassmateOf(list[i], records, sid)
    requires g in list
    ensures exists i :: 0 <= i < |cs| && cs[i].studentNumber == g.studentNumber
    ensures forall i :: 0 <= i < |cs| ==> 0 <= cs[i].stats.attendanceRate <= 100
  {
    var i :| 0 <= i < |list| && list[i] == g;
    assert cs[i].studentNumber == g.studentNumber;
  }
}
