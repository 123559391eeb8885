/** GET /api/professor/attendance/daily-detail: every active student of a
    section with their status on one date, and the day's summary. */
module DailyDetail {
  import opened Common
  import opened Records
  import opened Rollups

  datatype Summary = Summary(present: nat, late: nat, absent: nat, total: nat)

  /** A row of `sections` as the route selects it. */
  datatype DaySection = DaySection(id: string, sectionCode: string, semester: string, academicYear: string)

  /** The `section` field: the `.single()` row, or `{ section_code: sectionId }`
      when the lookup fails or finds no single row. */
  datatype SectionInfo =
    | SectionRow(sectionCode: string, semester: string, academicYear: string)
    | CodeOnly(sectionCode: string)

  datatype Response =
    | MissingParams                                            // 400
    | StudentsFetchFailed                                      // 500
    | RecordsFetchFailed                                       // 500
    | Detail(date: string, section: SectionInfo, summary: Summary, students: seq<Entry>)

  /** The records of the session for `date` in the section; the rows arrive in
      the query's `checked_in_at` order. */
  function DayRecords(records: seq<Record>, sectionId: string, date: string): (r: seq<Record>)
    ensures forall x :: x in r <==> x in records && x.sessionId == SessionKey(sectionId, date) && x.sectionId == sectionId
  {
    Filter(records, (x: Record) => x.sessionId == SessionKey(sectionId, date) && x.sectionId == sectionId)
  }

  /** The day's summary: one count per status, each entry counted at most
      once, and a status counted exactly when some entry shows it. */
  function SummaryOf(entries: seq<Entry>): (s: Summary)
    ensures s.total == |entries| && s.present + s.late + s.absent <= s.total
    ensures s.present == Count(EntryStatuses(entries), "present") && s.late == Count(EntryStatuses(entries), "late") &&
            s.absent == Count(EntryStatuses(entries), "absent")
    ensures s.present == 0 <==> forall i :: 0 <= i < |entries| ==> entries[i].status != "present"
    ensures s.late == 0 <==> forall i :: 0 <= i < |entries| ==> entries[i].status != "late"
    ensures s.absent == 0 <==> forall i :: 0 <= i < |entries| ==> entries[i].status != "absent"
  {
    var st := EntryStatuses(entries);
    RosterCountsBounded(st);
    Summary(Count(st, "present"), Count(st, "late"), Count(st, "absent"), |entries|)
  }

  function DailyDetailOutcome(sectionId: Option<string>, date: Option<string>, registrations: Fetch<StudentRegistration>,
                              records: Fetch<Record>, sections: Fetch<DaySection>): (r: Response)
    ensures r == MissingParams <==> sectionId.None? || sectionId.value == "" || date.None? || date.value == ""
    ensures r == StudentsFetchFailed <==>
              sectionId.Some? && sectionId.value != "" && date.Some? && date.value != "" && registrations.FetchError?
    ensures r == RecordsFetchFailed <==>
              sectionId.Some? && sectionId.value != "" && date.Some? && date.value != "" &&
              registrations.Fetched? && records.FetchError?
    ensures r.Detail? ==>
              registrations.Fetched? && records.Fetched? && r.date == date.value &&
              r.students == Merge(SectionStudents(registrations.rows, sectionId.value),
                                  DayRecords(records.rows, sectionId.value, date.value), "absent") &&
              r.summary == SummaryOf(r.students)
    ensures r.Detail? && sections.FetchError? ==> r.section == CodeOnly(sectionId.value)
    ensures r.Detail? && sections.Fetched? && (forall x :: x in sections.rows ==> x.id != sectionId.value) ==>
              r.section == CodeOnly(sectionId.value)
    ensures r.Detail? && sections.Fetched? ==>
              var rows := sections.rows;
              forall i :: 0 <= i < |rows| && rows[i].id == sectionId.value &&
                          (forall j :: 0 <= j < |rows| && j != i ==> rows[j].id != sectionId.value) ==>
                r.section == SectionRow(rows[i].sectionCode, rows[i].semester, rows[i].academicYear)
    ensures r.Detail? && sections.Fetched? &&
            (exists i, j :: 0 <= i < j < |sections.rows| && sections.rows[i].id == sectionId.value &&
                            sections.rows[j].id == sectionId.value) ==>
              r.section == CodeOnly(sectionId.value)
  {
    if sectionId.None? || sectionId.value == "" || date.None? || date.value == "" then MissingParams
    else if registrations.FetchError? then StudentsFetchFailed
    else if records.FetchError? then RecordsFetchFailed
    else
      var students := Merge(SectionStudents(registrations.rows, sectionId.value),
                            DayRecords(records.rows, sectionId.value, date.value), "absent");
      if sections.FetchError? then Detail(date.value, CodeOnly(sectionId.value), SummaryOf(students), students)
      else
        var keep := (x: DaySection) => x.id == sectionId.value;
        SingleFilter(sections.rows, keep);
        var section := match Single(Filter(sections.rows, keep))
                       case Some(x) => SectionRow(x.sectionCode, x.semester, x.academicYear)
                       case None => CodeOnly(sectionId.value);
        Detail(date.value, section, SummaryOf(students), students)
  }

  /** One entry per active student of the section, in the fetched (last-name)
      order; a student without a record that day counts as absent, and the
      summary's present, late and absent add up to at most the total (the rest
      are excused). */
  lemma DetailCoversRoster(sectionId: string, date: string, registrations: seq<StudentRegistration>,
                           records: seq<Record>, sections: Fetch<DaySection>)
    requires sectionId != "" && date != ""
    ensures var r := DailyDetailOutcome(Some(sectionId), Some(date), Fetched(registrations), Fetched(records), sections);
            var roster := SectionStudents(registrations, sectionId);
            r.Detail? && |r.students| == |roster| == r.summary.total &&
            (forall i :: 0 <= i < |roster| ==> r.students[i].studentNumber == roster[i].studentNumber) &&
            r.summary.present + r.summary.late + r.summary.absent <= r.summary.total
  {
  }

  /** With one record kept per student, all statuses are present, late or
      absent exactly when no kept record is excused. */
  lemma SummaryAddsUp(entries: seq<Entry>)
    requires forall i :: 0 <= i < |entries| ==> entries[i].status in ["present", "late", "absent"]
    ensures SummaryOf(entries).present + SummaryOf(entries).late + SummaryOf(entries).absent == |entries|
  {
    CountsCover(EntryStatuses(entries), ["present", "late", "absent"]);
    CountAllThree(EntryStatuses(entries), "present", "late", "absent");
  }

  /** The status shown is the last record's (the latest check-in, in the
      query's order), or `absent` for a student without one. */
  lemma DetailStatus(sectionId: string, date: string, registrations: seq<StudentRegistration>,
                     records: seq<Record>, sections: Fetch<DaySection>, i: nat)
    requires sectionId != "" && date != ""
    requires i < |SectionStudents(registrations, sectionId)|
    ensures var r := DailyDetailOutcome(Some(sectionId), Some(date), Fetched(registrations), Fetched(records), sections);
            var day := DayRecords(records, sectionId, date);
            var n := SectionStudents(registrations, sectionId)[i].studentNumber;
            ((forall x :: x in day ==> x.studentNumber != n) ==> r.students[i].status == "absent") &&
            ((exists x :: x in day && x.studentNumber == n) ==>
               exists j :: 0 <= j < |day| && day[j].studentNumber == n && NoneAfter(day, j, n) &&
                 r.students[i].status == StatusName(day[j].status))
  {
    MergeStatus(SectionStudents(registrations, sectionId), DayRecords(records, sectionId, date), "absent", i);
  }
}
