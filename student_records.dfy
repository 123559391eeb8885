/** GET /api/student/attendance-records: a student's own attendance history
    with day counts and a rounded attendance rate. */
module StudentRecords {
  import opened Common
  import opened Records
  import opened Rollups

  /** A row of `users` as these routes select it. */
  datatype UserRow = UserRow(id: string, studentId: Option<string>)

  /** A row of `sections` with the fields the history shows. */
  datatype SectionDetail = SectionDetail(
    id: string, sectionCode: Option<string>, semester: Option<string>, academicYear: Option<string>)

  datatype DayStats = DayStats(totalDays: nat, presentDays: nat, absentDays: int, attendanceRate: int)

  /** One line of the history. */
  datatype HistoryEntry = HistoryEntry(date: string, status: Status, sectionCode: string, semester: string, academicYear: string)

  datatype Response =
    | MissingStudent                                             // 400
    | History(records: seq<HistoryEntry>, stats: DayStats)


  function OrEmpty(s: Option<string>, fallback: string): string
  {
    if Truthy(s) then s.value else fallback
  }

  const NoStats: DayStats := DayStats(0, 0, 0, 0)

  /** The student number of the user: `.single()`, and only when it is set. */
  function StudentNumber(users: Fetch<UserRow>, studentId: string): (n: Option<string>)
    ensures n.Some? ==> n.value != "" && users.Fetched? &&
                        exists u :: u in users.rows && u.id == studentId && u.studentId == n
    ensures users.Fetched? ==>
              forall i :: 0 <= i < |users.rows| && users.rows[i].id == studentId &&
                          (forall j :: 0 <= j < |users.rows| && j != i ==> users.rows[j].id != studentId) ==>
                n == (if Truthy(users.rows[i].studentId) then users.rows[i].studentId else None)
  {
    if users.FetchError? then None
    else
      var keep := (u: UserRow) => u.id == studentId;
      SingleFilter(users.rows, keep);
      match Single(Filter(users.rows, keep))
      case Some(u) => if Truthy(u.studentId) then u.studentId else None
      case None => None
  }

  /** Total days are all records, absent days every record that is not
      `present` (late ones included), and the rate rounded to an integer. */
  function StatsOf(records: seq<Record>): (s: DayStats)
    ensures s.totalDays == |records|
    ensures s.presentDays == CountStatus(records, Present) <= s.totalDays
    ensures s.absentDays == s.totalDays - s.presentDays >= 0
    ensures 0 <= s.attendanceRate <= 100
    ensures s.attendanceRate == RoundedRate(s.presentDays, s.totalDays)
  {
    var present := CountStatus(records, Present);
    RoundedRateInRange(present, |records|);
    DayStats(|records|, present, |records| - present, RoundedRate(present, |records|))
  }

  /** `.eq('id', record.section_id).limit(1)` on the sections: the first match. */
  function FirstSection(sections: Fetch<SectionDetail>, id: string): (r: Option<SectionDetail>)
    ensures r.Some? ==> r.value.id == id
    ensures r.None? <==> sections.FetchError? || forall s :: s in sections.rows ==> s.id != id
    ensures sections.Fetched? ==>
              forall k :: 0 <= k < |sections.rows| && sections.rows[k].id == id &&
                          (forall j :: 0 <= j < k ==> sections.rows[j].id != id) ==>
                r == Some(sections.rows[k])
  {
    if sections.FetchError? then None
    else
      var keep := (s: SectionDetail) => s.id == id;
      FilterFirstAt(sections.rows, keep);
      var m := Filter(sections.rows, keep);
      if m == [] then None else assert m[0] in m; Some(m[0])
  }

  /** A record's line: the section's code, semester and year when its section is
      found (code `Unknown` and empty texts for fields that are not set), and
      `Unknown` with empty texts when it is not. */
  function EntryOf(r: Record, sections: Fetch<SectionDetail>): (e: HistoryEntry)
    ensures e.date == r.checkedInAt && e.status == r.status
    ensures FirstSection(sections, r.sectionId).None? ==> e.sectionCode == "Unknown" && e.semester == "" && e.academicYear == ""
    ensures FirstSection(sections, r.sectionId).Some? ==>
              var s := FirstSection(sections, r.sectionId).value;
              (Truthy(s.sectionCode) ==> e.sectionCode == s.sectionCode.value) &&
              (!Truthy(s.sectionCode) ==> e.sectionCode == "Unknown") &&
              (Truthy(s.semester) ==> e.semester == s.semester.value) &&
              (!Truthy(s.semester) ==> e.semester == "") &&
              (Truthy(s.academicYear) ==> e.academicYear == s.academicYear.value) &&
              (!Truthy(s.academicYear) ==> e.academicYear == "")
  {
    match FirstSection(sections, r.sectionId)
    case None => HistoryEntry(r.checkedInAt, r.status, "Unknown", "", "")
    case Some(s) => HistoryEntry(r.checkedInAt, r.status, OrEmpty(s.sectionCode, "Unknown"),
                                 OrEmpty(s.semester, ""), OrEmpty(s.academicYear, ""))
  }

  function StudentRecordsOf(records: seq<Record>, number: string): (r: seq<Record>)
    ensures forall x :: x in r <==> x in records && x.studentNumber == number
  {
    Filter(records, (x: Record) => x.studentNumber == number)
  }

  function HistoryOutcome(studentId: Option<string>, users: Fetch<UserRow>, records: Fetch<Record>,
                          sections: Fetch<SectionDetail>): (r: Response)
    ensures r == MissingStudent <==> !Truthy(studentId)
    ensures r.History? && (StudentNumber(users, studentId.value).None? || records.FetchError?) ==>
              r == History([], NoStats)
    ensures r.History? && StudentNumber(users, studentId.value).Some? && records.Fetched? ==>
              var mine := StudentRecordsOf(records.rows, StudentNumber(users, studentId.value).value);
              |r.records| == |mine| && r.stats == StatsOf(mine) &&
              forall i :: 0 <= i < |mine| ==> r.records[i] == EntryOf(mine[i], sections)
  {
    if !Truthy(studentId) then MissingStudent
    else
      match StudentNumber(users, studentId.value)
      case None => History([], NoStats)
      case Some(number) =>
        if records.FetchError? then History([], NoStats)
        else
          var mine := StudentRecordsOf(records.rows, number);
          if mine == [] then History([], NoStats)
          else History(seq(|mine|, i requires 0 <= i < |mine| => EntryOf(mine[i], sections)), StatsOf(mine))
  }

  /** The empty-history answer is the one the counts give on no records. */
  lemma NoStatsOfNoRecords()
    ensures StatsOf([]) == NoStats
  {
  }

  /** A late arrival counts as an absent day, and an all-present history rates 100. */
  lemma LateCountsAsAbsent(r: Record)
    requires r.status == Late
    ensures StatsOf([r]).absentDays == 1 && StatsOf([r]).attendanceRate == 0
  {
    assert Statuses([r]) == ["late"];
    assert "present" !in ["late"];
  }

  lemma {:induction false} AllPresentRatesFull(records: seq<Record>)
    requires records != []
    requires forall i :: 0 <= i < |records| ==> records[i].status == Present
    ensures StatsOf(records).attendanceRate == 100 && StatsOf(records).absentDays == 0
  {
    var st := Statuses(records);
    CountsCover(st, ["present"]);
    assert CountAll(st, ["present"]) == Count(st, "present") + CountAll(st, []);
    assert CountAll(st, []) == 0;
    RoundedRateInRange(|records|, |records|);
  }
}
