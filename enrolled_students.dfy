/** GET /api/attendance/enrolled-students: the kiosk's roster with today's
    status of every active student, `pending` until a record exists. */
module EnrolledStudents {
  import opened Common
  import opened Records
  import opened Rollups
  import AttendanceMark

  datatype Stats = Stats(present: nat, late: nat, absent: nat, pending: nat, total: nat)

  datatype Response =
    | MissingSection                                           // 400
    | StudentsFetchFailed                                      // 400
    | Enrolled(students: seq<Entry>, stats: Stats)

  /** The kiosk's counts: each entry counted at most once, and `pending`
      counted exactly when some student still has no record. */
  function StatsOf(entries: seq<Entry>): (s: Stats)
    ensures s.total == |entries| && s.present + s.late + s.absent + s.pending <= s.total
    ensures s.present == Count(EntryStatuses(entries), "present") && s.late == Count(EntryStatuses(entries), "late") &&
            s.absent == Count(EntryStatuses(entries), "absent") && s.pending == Count(EntryStatuses(entries), "pending")
    ensures s.pending == 0 <==> forall i :: 0 <= i < |entries| ==> entries[i].status != "pending"
    ensures s.present == 0 <==> forall i :: 0 <= i < |entries| ==> entries[i].status != "present"
  {
    var st := EntryStatuses(entries);
    RosterCountsBounded(st);
    Stats(Count(st, "present"), Count(st, "late"), Count(st, "absent"), Count(st, "pending"), |entries|)
  }

  /** Today's session records; a failed query reads as none (`records || []`). */
  function TodayRecords(records: Fetch<Record>, sectionId: string, now: AttendanceMark.Now): (r: seq<Record>)
    ensures records.FetchError? ==> r == []
    ensures records.Fetched? ==>
              forall x :: x in r <==> x in records.rows && x.sessionId == SessionKey(sectionId, AttendanceMark.TodayDate(now))
  {
    if records.FetchError? then []
    else Filter(records.rows, (x: Record) => x.sessionId == SessionKey(sectionId, AttendanceMark.TodayDate(now)))
  }

  function EnrolledOutcome(sectionId: Option<string>, registrations: Fetch<StudentRegistration>, records: Fetch<Record>,
                           now: AttendanceMark.Now): (r: Response)
    ensures r == MissingSection <==> sectionId.None? || sectionId.value == ""
    ensures r == StudentsFetchFailed <==> sectionId.Some? && sectionId.value != "" && registrations.FetchError?
    ensures r.Enrolled? ==>
              r.students == Merge(SectionStudents(registrations.rows, sectionId.value),
                                  TodayRecords(records, sectionId.value, now), "pending") &&
              r.stats == StatsOf(r.students)
  {
    if sectionId.None? || sectionId.value == "" then MissingSection
    else if registrations.FetchError? then StudentsFetchFailed
    else
      var students := Merge(SectionStudents(registrations.rows, sectionId.value),
                            TodayRecords(records, sectionId.value, now), "pending");
      Enrolled(students, StatsOf(students))
  }

  /** A failed records query is not an error: everybody is pending. */
  lemma RecordsErrorMeansAllPending(sectionId: string, registrations: seq<StudentRegistration>, now: AttendanceMark.Now)
    requires sectionId != ""
    ensures var r := EnrolledOutcome(Some(sectionId), Fetched(registrations), FetchError, now);
            r == EnrolledOutcome(Some(sectionId), Fetched(registrations), Fetched([]), now) &&
            r.Enrolled? && (forall i :: 0 <= i < |r.students| ==> r.students[i].status == "pending") &&
            r.stats.pending == r.stats.total == |SectionStudents(registrations, sectionId)|
  {
    var r := EnrolledOutcome(Some(sectionId), Fetched(registrations), FetchError, now);
    var roster := SectionStudents(registrations, sectionId);
    forall i | 0 <= i < |r.students|
      ensures r.students[i].status == "pending"
    {
      MergeStatus(roster, [], "pending", i);
    }
    PendingCountsAll(r.students);
  }

  lemma {:induction false} PendingCountsAll(entries: seq<Entry>)
    requires forall i :: 0 <= i < |entries| ==> entries[i].status == "pending"
    ensures Count(EntryStatuses(entries), "pending") == |entries|
  {
    if entries != [] {
      var p := entries[..|entries| - 1];
      PendingCountsAll(p);
      assert EntryStatuses(entries)[..|entries| - 1] == EntryStatuses(p);
    }
  }

  /** One entry per active student; the five statuses a student can show
      (the four stored ones and `pending`) add up to the total. */
  lemma StatsAddUp(sectionId: string, registrations: seq<StudentRegistration>, records: Fetch<Record>, now: AttendanceMark.Now)
    requires sectionId != ""
    ensures var r := EnrolledOutcome(Some(sectionId), Fetched(registrations), records, now);
            var excused := Count(EntryStatuses(r.students), "excused");
            r.Enrolled? && r.stats.total == |SectionStudents(registrations, sectionId)| &&
            r.stats.present + r.stats.late + r.stats.absent + r.stats.pending + excused == r.stats.total
  {
    var r := EnrolledOutcome(Some(sectionId), Fetched(registrations), records, now);
    var names := ["present", "late", "absent", "pending", "excused"];
    var st := EntryStatuses(r.students);
    MergeStatusNames(SectionStudents(registrations, sectionId), TodayRecords(records, sectionId, now), "pending", names);
    RosterStatusesCover(st);
  }
}
