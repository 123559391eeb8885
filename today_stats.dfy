/** GET /api/attendance/today-stats: present, late and absent counts of a
    section's session today. */
module TodayStats {
  import opened Common
  import opened Records
  import opened Rollups
  import AttendanceMark

  datatype Response =
    | MissingSection                                                // 400
    | StatsFailed                                                   // 400
    | Today(present: nat, late: nat, absent: nat, total: nat)


  /** `.eq('attendance_session_id', sessionId)` */
  function SessionRecords(records: seq<Record>, sessionId: string): (r: seq<Record>)
    ensures forall x :: x in r <==> x in records && x.sessionId == sessionId
  {
    Filter(records, (x: Record) => x.sessionId == sessionId)
  }

  /** The exact count of the section's registrations, active or not; a failed
      count reads as 0 (`totalStudents || 0`). */
  function RegisteredCount(registrations: Fetch<StudentRegistration>, sectionId: string): (n: nat)
    ensures registrations.FetchError? ==> n == 0
    ensures registrations.Fetched? ==> n <= |registrations.rows|
    ensures registrations.Fetched? ==>
              n == |set i | 0 <= i < |registrations.rows| && registrations.rows[i].sectionId == Some(sectionId)|
  {
    if registrations.FetchError? then 0
    else
      var keep := (g: StudentRegistration) => g.sectionId == Some(sectionId);
      FilterSize(registrations.rows, keep);
      assert Passing(registrations.rows, keep) ==
             set i | 0 <= i < |registrations.rows| && registrations.rows[i].sectionId == Some(sectionId);
      |Filter(registrations.rows, keep)|
  }

  function TodayStatsOutcome(sectionId: Option<string>, records: Fetch<Record>,
                             registrations: Fetch<StudentRegistration>, now: AttendanceMark.Now): (r: Response)
    ensures r == MissingSection <==> !Truthy(sectionId)
    ensures r == StatsFailed <==> Truthy(sectionId) && records.FetchError?
    ensures r.Today? ==>
              var mine := SessionRecords(records.rows, SessionKey(sectionId.value, AttendanceMark.TodayDate(now)));
              r.present == CountStatus(mine, Present) && r.late == CountStatus(mine, Late) &&
              r.total == RegisteredCount(registrations, sectionId.value) &&
              r.present + r.late + r.absent >= r.total &&
              (r.present + r.late <= r.total ==> r.present + r.late + r.absent == r.total) &&
              (r.present + r.late > r.total ==> r.absent == 0)
  {
    if !Truthy(sectionId) then MissingSection
    else if records.FetchError? then StatsFailed
    else
      var mine := SessionRecords(records.rows, SessionKey(sectionId.value, AttendanceMark.TodayDate(now)));
      var present := CountStatus(mine, Present);
      var late := CountStatus(mine, Late);
      var total := RegisteredCount(registrations, sectionId.value);
      Today(present, late, Max(0, total - present - late), total)
  }

  /** Before anybody checks in, every registered student counts as absent. */
  lemma NoRecordsAllAbsent(sectionId: string, records: seq<Record>, registrations: Fetch<StudentRegistration>,
                           now: AttendanceMark.Now)
    requires sectionId != ""
    requires forall x :: x in records ==> x.sessionId != SessionKey(sectionId, AttendanceMark.TodayDate(now))
    ensures var r := TodayStatsOutcome(Some(sectionId), Fetched(records), registrations, now);
            r.Today? && r.present == 0 && r.late == 0 && r.absent == r.total
  {
    var key := SessionKey(sectionId, AttendanceMark.TodayDate(now));
    FilterNone(records, (x: Record) => x.sessionId == key);
    assert SessionRecords(records, key) == [];
  }
}
