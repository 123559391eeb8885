/** GET /api/professor/attendance/summary: today's present, late and absent
    counts for one section or for every section a professor teaches. */
module AttendanceSummary {
  import opened Common
  import opened Records
  import opened Rollups
  import AttendanceMark

  /** A row of `class_sessions` as the professor query selects it. */
  datatype SessionRow = SessionRow(sectionId: string, professorId: string)

  datatype Stats = Stats(present: nat, late: nat, absent: nat, total: nat, sectionCode: string)

  datatype Totals = Totals(present: nat, late: nat, absent: nat, total: nat)

  datatype Response =
    | MissingIds                                               // 400
    | RecordsFetchFailed                                       // 500
    | Summary(summary: Totals, sections: seq<(string, Stats)>)


  /** `[...new Set(ids)]`: each id once, at its first occurrence. */
  function Dedup(ids: seq<string>): (r: seq<string>)
    ensures Distinct(r)
    ensures forall x :: x in r <==> x in ids
    ensures |r| <= |ids|
  {
    if ids == [] then []
    else
      var rest := Dedup(ids[..|ids| - 1]);
      var last := ids[|ids| - 1];
      assert forall x :: x in ids <==> x in ids[..|ids| - 1] || x == last;
      if last in rest then rest else rest + [last]
  }

  /** The ids keep the order of their first occurrences: whatever comes before
      an id in the result occurs in the input before every occurrence of it. */
  predicate InFirstOccurrenceOrder(r: seq<string>, ids: seq<string>)
  {
    forall i, j :: 0 <= i < j < |r| ==>
      forall k :: 0 <= k < |ids| && ids[k] == r[j] ==> r[i] in ids[..k]
  }

  /** `Dedup` lists the ids in the order of their first occurrences. */
  lemma {:induction false} DedupFirstOccurrences(ids: seq<string>)
    ensures InFirstOccurrenceOrder(Dedup(ids), ids)
  {
    if ids != [] {
      var n := |ids| - 1;
      var p, last := ids[..n], ids[n];
      var rest, r := Dedup(p), Dedup(ids);
      DedupFirstOccurrences(p);
      assert r == if last in rest then rest else rest + [last];
      forall i, j, k | 0 <= i < j < |r| && 0 <= k < |ids| && ids[k] == r[j]
        ensures r[i] in ids[..k]
      {
        assert r[i] == rest[i] && rest[i] in p;
        if j < |rest| {
          assert r[j] == rest[j];
          if k < n {
            assert ids[..k] == p[..k] && ids[k] == p[k];
            assert InFirstOccurrenceOrder(rest, p);
            assert rest[i] in p[..k];
          } else {
            assert ids[..k] == p;
          }
        } else {
          assert last !in p && r[j] == last;
          forall k' | 0 <= k' < n
            ensures ids[k'] != last
          {
            assert ids[k'] == p[k'] && p[k'] in p;
          }
          assert ids[..k] == p;
        }
      }
    }
  }

  /** A list without repeats comes back unchanged. */
  lemma {:induction false} DedupOfDistinct(ids: seq<string>)
    requires Distinct(ids)
    ensures Dedup(ids) == ids
  {
    if ids != [] {
      var p := ids[..|ids| - 1];
      assert Distinct(p) by {
        forall i, j | 0 <= i < j < |p|
          ensures p[i] != p[j]
        {
          assert p[i] == ids[i] && p[j] == ids[j];
        }
      }
      DedupOfDistinct(p);
      assert ids[|ids| - 1] !in p by {
        forall k | 0 <= k < |p|
          ensures p[k] != ids[|ids| - 1]
        {
          assert p[k] == ids[k];
        }
      }
      assert p + [ids[|ids| - 1]] == ids;
    }
  }

  /** Some session of the professor is in the section. */
  predicate Teaches(rows: seq<SessionRow>, professorId: string, sectionId: string)
  {
    exists s :: s in rows && s.professorId == professorId && s.sectionId == sectionId
  }

  function SessionSections(rows: seq<SessionRow>, professorId: string): (r: seq<string>)
    ensures |r| <= |rows|
    ensures forall x :: x in r <==> Teaches(rows, professorId, x)
  {
    var mine := Filter(rows, (s: SessionRow) => s.professorId == professorId);
    var r := seq(|mine|, i requires 0 <= i < |mine| => mine[i].sectionId);
    assert forall x :: x in r ==> Teaches(rows, professorId, x) by {
      forall x | x in r
        ensures Teaches(rows, professorId, x)
      {
        var i :| 0 <= i < |r| && r[i] == x;
        assert mine[i] in mine;
      }
    }
    assert forall x :: Teaches(rows, professorId, x) ==> x in r by {
      forall x | Teaches(rows, professorId, x)
        ensures x in r
      {
        var s :| s in rows && s.professorId == professorId && s.sectionId == x;
        assert s in mine;
        var i :| 0 <= i < |mine| && mine[i] == s;
        assert r[i] == x;
      }
    }
    r
  }

  /** The sections to report: the professor's, deduplicated, when a professor
      id is given (a failed query reads as none), else the one section. */
  function SectionIds(sectionId: Option<string>, professorId: Option<string>, sessions: Fetch<SessionRow>): seq<string>
    requires Truthy(sectionId) || Truthy(professorId)
  {
    if Truthy(professorId) then
      if sessions.FetchError? then [] else Dedup(SessionSections(sessions.rows, professorId.value))
    else [sectionId.value]
  }

  /** `checked_in_at && checked_in_at.split('T')[0] === todayDate` */
  predicate CheckedInToday(r: Record, now: AttendanceMark.Now): (b: bool)
    ensures var d := AttendanceMark.TodayDate(now);
            b <==> r.checkedInAt != "" && d <= r.checkedInAt && (|d| < |r.checkedInAt| ==> r.checkedInAt[|d|] == 'T')
  {
    var d := AttendanceMark.TodayDate(now);
    FirstPiece(r.checkedInAt, 'T');
    assert d <= r.checkedInAt && (|d| < |r.checkedInAt| ==> r.checkedInAt[|d|] == 'T') ==>
           Split(r.checkedInAt, 'T')[0] == d by {
      if d <= r.checkedInAt && (|d| < |r.checkedInAt| ==> r.checkedInAt[|d|] == 'T') {
        FirstPieceOf(d, r.checkedInAt, 'T');
      }
    }
    r.checkedInAt != "" && Split(r.checkedInAt, 'T')[0] == d
  }

  function TodayInSection(records: seq<Record>, sid: string, now: AttendanceMark.Now): (r: seq<Record>)
    ensures forall x :: x in r <==> x in records && x.sectionId == sid && CheckedInToday(x, now)
  {
    Filter(records, (x: Record) => x.sectionId == sid && CheckedInToday(x, now))
  }

  /** `count: 'exact'` on the section's active registrations. */
  function ActiveCount(rows: seq<StudentRegistration>, sid: string): (n: nat)
    ensures n == |set i | 0 <= i < |rows| && rows[i].sectionId == Some(sid) && rows[i].isActive|
  {
    var keep := (s: StudentRegistration) => s.sectionId == Some(sid) && s.isActive;
    FilterSize(rows, keep);
    assert Passing(rows, keep) == set i | 0 <= i < |rows| && rows[i].sectionId == Some(sid) && rows[i].isActive;
    |Filter(rows, keep)|
  }

  /** `sectionData?.section_code || sid` after `.eq('id', sid).single()`: the
      code of the one section with the id, or the id itself when that section's
      code is empty, no section has the id, or several do. */
  function SectionCode(sections: seq<Section>, sid: string): (code: string)
    ensures forall i :: 0 <= i < |sections| && sections[i].id == sid &&
                        (forall j :: 0 <= j < |sections| && j != i ==> sections[j].id != sid) ==>
              code == if sections[i].sectionCode != "" then sections[i].sectionCode else sid
    ensures (forall x :: x in sections ==> x.id != sid) ==> code == sid
    ensures (exists i, j :: 0 <= i < j < |sections| && sections[i].id == sid && sections[j].id == sid) ==>
              code == sid
  {
    var keep := (x: Section) => x.id == sid;
    SingleFilter(sections, keep);
    match Single(Filter(sections, keep))
    case Some(x) => if x.sectionCode != "" then x.sectionCode else sid
    case None => sid
  }

  /** One section's entry: today's present and late records, the active
      registration count (0 when the count fails) and the rest as absent,
      never below 0. */
  function SectionStatsOf(sid: string, records: seq<Record>, registrations: Fetch<StudentRegistration>,
                          sections: seq<Section>, now: AttendanceMark.Now): (s: Stats)
    ensures s.present == CountStatus(TodayInSection(records, sid, now), Present)
    ensures s.late == CountStatus(TodayInSection(records, sid, now), Late)
    ensures s.present + s.late + s.absent >= s.total
    ensures s.present + s.late <= s.total ==> s.present + s.late + s.absent == s.total
    ensures s.present + s.late > s.total ==> s.absent == 0
    ensures registrations.FetchError? ==> s.total == 0
    ensures registrations.Fetched? ==>
              s.total == |set i | 0 <= i < |registrations.rows| && registrations.rows[i].sectionId == Some(sid) &&
                                  registrations.rows[i].isActive|
    ensures s.sectionCode == SectionCode(sections, sid)
  {
    var today := TodayInSection(records, sid, now);
    var present := CountStatus(today, Present);
    var late := CountStatus(today, Late);
    var total := if registrations.FetchError? then 0 else ActiveCount(registrations.rows, sid);
    Stats(present, late, Max(0, total - present - late), total, SectionCode(sections, sid))
  }

  function Add(acc: Totals, s: Stats): Totals
  {
    Totals(acc.present + s.present, acc.late + s.late, acc.absent + s.absent, acc.total + s.total)
  }

  /** `Object.values(sectionStats).reduce(...)` from all zeros. */
  function Overall(stats: seq<Stats>): (t: Totals)
    ensures forall i :: 0 <= i < |stats| ==>
              stats[i].present <= t.present && stats[i].late <= t.late &&
              stats[i].absent <= t.absent && stats[i].total <= t.total
    ensures t.total == 0 <==> forall i :: 0 <= i < |stats| ==> stats[i].total == 0
  {
    if stats == [] then Totals(0, 0, 0, 0) else Add(Overall(stats[..|stats| - 1]), stats[|stats| - 1])
  }

  function Plus(a: Totals, b: Totals): Totals
  {
    Totals(a.present + b.present, a.late + b.late, a.absent + b.absent, a.total + b.total)
  }

  /** The overall summary of two lists of sections is the sum of theirs. */
  lemma {:induction false} OverallSplits(a: seq<Stats>, b: seq<Stats>)
    ensures Overall(a + b) == Plus(Overall(a), Overall(b))
  {
    if b != [] {
      var b' := b[..|b| - 1];
      DropLastOfAppend(a, b);
      OverallSplits(a, b');
    } else {
      assert a + b == a;
    }
  }

  /** Summed over sections, absences still cover every student without a
      present or late record. */
  lemma {:induction false} OverallCovers(stats: seq<Stats>)
    requires forall i :: 0 <= i < |stats| ==> stats[i].present + stats[i].late + stats[i].absent >= stats[i].total
    ensures var t := Overall(stats); t.present + t.late + t.absent >= t.total
  {
    if stats != [] {
      OverallCovers(stats[..|stats| - 1]);
    }
  }

  /** The entries in order, as `Object.entries` lists the distinct ids. */
  function Entries(ids: seq<string>, stats: map<string, Stats>): (r: seq<(string, Stats)>)
    requires forall i :: 0 <= i < |ids| ==> ids[i] in stats
    ensures |r| == |ids| && |Values(r)| == |ids|
    ensures forall e :: e in r ==> e.0 in ids && e.0 in stats && e.1 == stats[e.0]
    ensures forall i :: 0 <= i < |ids| ==> r[i].0 == ids[i] && Values(r)[i] == stats[ids[i]]
  {
    seq(|ids|, i requires 0 <= i < |ids| => (ids[i], stats[ids[i]]))
  }

  function Values(entries: seq<(string, Stats)>): (r: seq<Stats>)
    ensures |r| == |entries|
  {
    seq(|entries|, i requires 0 <= i < |entries| => entries[i].1)
  }

  function SectionEntries(ids: seq<string>, records: seq<Record>, registrations: Fetch<StudentRegistration>,
                          sections: seq<Section>, now: AttendanceMark.Now): (r: seq<(string, Stats)>)
    ensures |r| == |ids|
    ensures forall i :: 0 <= i < |ids| ==> r[i].0 == ids[i]
    ensures forall i :: 0 <= i < |ids| ==> r[i].1 == SectionStatsOf(ids[i], records, registrations, sections, now)
  {
    seq(|ids|, i requires 0 <= i < |ids| => (ids[i], SectionStatsOf(ids[i], records, registrations, sections, now)))
  }

  function SummaryOutcome(sectionId: Option<string>, professorId: Option<string>, sessions: Fetch<SessionRow>,
                          records: Fetch<Record>, registrations: Fetch<StudentRegistration>, sections: seq<Section>,
                          now: AttendanceMark.Now): (r: Response)
    ensures r == MissingIds <==> !Truthy(sectionId) && !Truthy(professorId)
    ensures r == RecordsFetchFailed <==>
              (Truthy(sectionId) || Truthy(professorId)) && SectionIds(sectionId, professorId, sessions) != [] &&
              records.FetchError?
    ensures r.Summary? ==>
              var ids := SectionIds(sectionId, professorId, sessions);
              |r.sections| == |ids| &&
              (forall i :: 0 <= i < |ids| ==> r.sections[i].0 == ids[i]) &&
              r.summary == Overall(Values(r.sections)) &&
              (ids == [] ==> r.sections == [] && r.summary == Totals(0, 0, 0, 0)) &&
              (ids != [] ==> records.Fetched? && r.sections == SectionEntries(ids, records.rows, registrations, sections, now))
  {
    if !Truthy(sectionId) && !Truthy(professorId) then MissingIds
    else
      var ids := SectionIds(sectionId, professorId, sessions);
      if ids == [] then Summary(Totals(0, 0, 0, 0), [])
      else if records.FetchError? then RecordsFetchFailed
      else
        var entries := SectionEntries(ids, records.rows, registrations, sections, now);
        Summary(Overall(Values(entries)), entries)
  }

  /** The `for` loop that fills `sectionStats`. */
  method BuildSectionStats(ids: seq<string>, records: seq<Record>, registrations: Fetch<StudentRegistration>,
                           sections: seq<Section>, now: AttendanceMark.Now)
    returns (sectionStats: map<string, Stats>)
    ensures sectionStats.Keys == set id | id in ids
    ensures forall id :: id in ids ==> sectionStats[id] == SectionStatsOf(id, records, registrations, sections, now)
  {
    sectionStats := map[];
    for i := 0 to |ids|
      invariant sectionStats.Keys == set id | id in ids[..i]
      invariant forall id :: id in ids[..i] ==> sectionStats[id] == SectionStatsOf(id, records, registrations, sections, now)
    {
      assert ids[..i + 1] == ids[..i] + [ids[i]];
      sectionStats := sectionStats[ids[i] := SectionStatsOf(ids[i], records, registrations, sections, now)];
    }
    assert ids[..|ids|] == ids;
  }

  /** Listing the ids against the filled map gives the section entries. */
  lemma EntriesAreSectionEntries(ids: seq<string>, stats: map<string, Stats>, records: seq<Record>,
                                 registrations: Fetch<StudentRegistration>, sections: seq<Section>, now: AttendanceMark.Now)
    requires forall id :: id in ids ==> id in stats && stats[id] == SectionStatsOf(id, records, registrations, sections, now)
    ensures forall i :: 0 <= i < |ids| ==> ids[i] in stats
    ensures Entries(ids, stats) == SectionEntries(ids, records, registrations, sections, now)
  {
    assert forall i :: 0 <= i < |ids| ==> ids[i] in ids;
  }

  /** The handler: the map, then the pure reduce over its values. */
  method Summarize(sectionId: Option<string>, professorId: Option<string>, sessions: Fetch<SessionRow>,
                   records: Fetch<Record>, registrations: Fetch<StudentRegistration>, sections: seq<Section>,
                   now: AttendanceMark.Now)
    returns (r: Response)
    ensures r == SummaryOutcome(sectionId, professorId, sessions, records, registrations, sections, now)
  {
    if !Truthy(sectionId) && !Truthy(professorId) {
      return MissingIds;
    }
    var ids := SectionIds(sectionId, professorId, sessions);
    if |ids| == 0 {
      return Summary(Totals(0, 0, 0, 0), []);
    }
    if records.FetchError? {
      return RecordsFetchFailed;
    }
    var sectionStats := BuildSectionStats(ids, records.rows, registrations, sections, now);
    var entries := Entries(ids, sectionStats);
    EntriesAreSectionEntries(ids, sectionStats, records.rows, registrations, sections, now);
    return Summary(Overall(Values(entries)), entries);
  }

  /** A professor id wins over a section id, each of the professor's sections
      appears once, and the overall absences are never below the students
      without a present or late record. */
  lemma SummaryProperties(sectionId: Option<string>, professorId: string, sessions: seq<SessionRow>,
                          records: seq<Record>, registrations: Fetch<StudentRegistration>, sections: seq<Section>,
                          now: AttendanceMark.Now)
    requires professorId != ""
    ensures var r := SummaryOutcome(sectionId, Some(professorId), Fetched(sessions), Fetched(records), registrations, sections, now);
            r.Summary? &&
            r == SummaryOutcome(None, Some(professorId), Fetched(sessions), Fetched(records), registrations, sections, now) &&
            (forall i, j :: 0 <= i < j < |r.sections| ==> r.sections[i].0 != r.sections[j].0) &&
            (forall x :: Teaches(sessions, professorId, x) <==> exists i :: 0 <= i < |r.sections| && r.sections[i].0 == x) &&
            r.summary.present + r.summary.late + r.summary.absent >= r.summary.total
  {
    var ids := SectionIds(sectionId, Some(professorId), Fetched(sessions));
    var r := SummaryOutcome(sectionId, Some(professorId), Fetched(sessions), Fetched(records), registrations, sections, now);
    if ids != [] {
      var entries := SectionEntries(ids, records, registrations, sections, now);
      assert r == Summary(Overall(Values(entries)), entries);
      ListedOnce(entries, ids, sessions, professorId);
      EntriesCover(ids, records, registrations, sections, now);
    }
  }

  /** Entries keyed by the deduplicated sections of a professor list each of
      those sections exactly once. */
  lemma ListedOnce(entries: seq<(string, Stats)>, ids: seq<string>, sessions: seq<SessionRow>, professorId: string)
    requires ids == Dedup(SessionSections(sessions, professorId))
    requires |entries| == |ids| && forall i :: 0 <= i < |ids| ==> entries[i].0 == ids[i]
    ensures forall i, j :: 0 <= i < j < |entries| ==> entries[i].0 != entries[j].0
    ensures forall x :: Teaches(sessions, professorId, x) <==> exists i :: 0 <= i < |entries| && entries[i].0 == x
  {
    forall x
      ensures Teaches(sessions, professorId, x) <==> exists i :: 0 <= i < |entries| && entries[i].0 == x
    {
      if x in ids {
        var i :| 0 <= i < |ids| && ids[i] == x;
        assert entries[i].0 == x;
      }
    }
  }

  /** Every section's absences cover its students without a present or late
      record, and so does the overall sum. */
  lemma EntriesCover(ids: seq<string>, records: seq<Record>, registrations: Fetch<StudentRegistration>,
                     sections: seq<Section>, now: AttendanceMark.Now)
    ensures var t := Overall(Values(SectionEntries(ids, records, registrations, sections, now)));
            t.present + t.late + t.absent >= t.total
  {
    var vals := Values(SectionEntries(ids, records, registrations, sections, now));
    forall i | 0 <= i < |vals|
      ensures vals[i].present + vals[i].late + vals[i].absent >= vals[i].total
    {
    }
    OverallCovers(vals);
  }
}
