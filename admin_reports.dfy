/** GET /api/admin/reports: overall and per-section attendance counts over an
    optional date window. */
module AdminReports {
  import opened Common
  import opened Records
  import opened Rollups

  /** A row of `sections` as the report selects it. */
  datatype ReportSection = ReportSection(id: string, sectionCode: string, courseId: Option<string>, semester: string)

  datatype OverallStats = OverallStats(
    totalRecords: nat, presentCount: nat, absentCount: nat, lateCount: nat, attendanceRate: real)

  datatype SectionReport = SectionReport(
    id: string, sectionName: string, courseCode: string, professorName: string,
    totalRecords: nat, presentCount: nat, absentCount: nat, lateCount: nat, attendanceRate: real)

  datatype Response =
    | ReportsFailed                                             // 500
    | Reports(stats: OverallStats, sections: seq<SectionReport>)


  // ------------------------------------------------------------ the date window

  /** Lexicographic order on strings: the order of ISO-8601 UTC timestamps. */
  predicate LexLe(a: string, b: string)
    decreases |a|
  {
    a == [] || (b != [] && (a[0] < b[0] || (a[0] == b[0] && LexLe(a[1..], b[1..]))))
  }

  lemma {:induction false} LexLeTrans(a: string, b: string, c: string)
    requires LexLe(a, b) && LexLe(b, c)
    ensures LexLe(a, c)
    decreases |a|
  {
    if a != [] && a[0] == b[0] && b[0] == c[0] {
      LexLeTrans(a[1..], b[1..], c[1..]);
    }
  }

  lemma {:induction false} LexLeTotal(a: string, b: string)
    ensures LexLe(a, b) || LexLe(b, a)
    decreases |a|
  {
    if a != [] && b != [] && a[0] == b[0] {
      LexLeTotal(a[1..], b[1..]);
    }
  }

  /** A common prefix does not change the order. */
  lemma {:induction false} LexLePrefix(p: string, a: string, b: string)
    ensures LexLe(p + a, p + b) <==> LexLe(a, b)
    decreases |p|
  {
    if p != [] {
      assert (p + a)[1..] == p[1..] + a;
      assert (p + b)[1..] == p[1..] + b;
      LexLePrefix(p[1..], a, b);
    } else {
      assert p + a == a && p + b == b;
    }
  }

  /** The first second of `dateFrom`. */
  function LowerBound(dateFrom: string): (b: string)
    ensures dateFrom <= b && |b| == |dateFrom| + 9 && b[|dateFrom|] == 'T'
  {
    dateFrom + "T00:00:00"
  }

  /** The last whole second of `dateTo`. */
  function UpperBound(dateTo: string): (b: string)
    ensures dateTo <= b && |b| == |dateTo| + 9 && b[|dateTo|] == 'T'
  {
    dateTo + "T23:59:59"
  }

  /** `.gte('checked_in_at', dateFrom + 'T00:00:00')` and
      `.lte('checked_in_at', dateTo + 'T23:59:59')`, each only when its date is given. */
  predicate InWindow(checkedInAt: string, dateFrom: Option<string>, dateTo: Option<string>): (b: bool)
    ensures !Truthy(dateFrom) && !Truthy(dateTo) ==> b
    ensures b && Truthy(dateFrom) && Truthy(dateTo) ==> LexLe(LowerBound(dateFrom.value), UpperBound(dateTo.value))
  {
    assert (Truthy(dateFrom) && Truthy(dateTo) && LexLe(LowerBound(dateFrom.value), checkedInAt) &&
            LexLe(checkedInAt, UpperBound(dateTo.value))) ==>
           LexLe(LowerBound(dateFrom.value), UpperBound(dateTo.value)) by {
      if Truthy(dateFrom) && Truthy(dateTo) && LexLe(LowerBound(dateFrom.value), checkedInAt) &&
         LexLe(checkedInAt, UpperBound(dateTo.value)) {
        LexLeTrans(LowerBound(dateFrom.value), checkedInAt, UpperBound(dateTo.value));
      }
    }
    (!Truthy(dateFrom) || LexLe(LowerBound(dateFrom.value), checkedInAt)) &&
    (!Truthy(dateTo) || LexLe(checkedInAt, UpperBound(dateTo.value)))
  }

  function WindowRecords(records: seq<Record>, dateFrom: Option<string>, dateTo: Option<string>): (r: seq<Record>)
    ensures forall x :: x in r <==> x in records && InWindow(x.checkedInAt, dateFrom, dateTo)
    ensures !Truthy(dateFrom) && !Truthy(dateTo) ==> r == records
  {
    var r := Filter(records, (x: Record) => InWindow(x.checkedInAt, dateFrom, dateTo));
    if !Truthy(dateFrom) && !Truthy(dateTo) then
      FilterAll(records, (x: Record) => InWindow(x.checkedInAt, dateFrom, dateTo));
      r
    else r
  }

  /** A wider window keeps every record a narrower one keeps. */
  lemma WiderWindowKeepsMore(t: string, from1: string, to1: string, from2: string, to2: string)
    requires from1 != "" && to1 != "" && from2 != "" && to2 != ""
    requires LexLe(LowerBound(from2), LowerBound(from1)) && LexLe(UpperBound(to1), UpperBound(to2))
    requires InWindow(t, Some(from1), Some(to1))
    ensures InWindow(t, Some(from2), Some(to2))
  {
    LexLeTrans(LowerBound(from2), LowerBound(from1), t);
    LexLeTrans(t, UpperBound(to1), UpperBound(to2));
  }

  /** A one-day window keeps a check-in of that day whose clock part lies
      between midnight and 23:59:59 as strings. */
  lemma DayWindowKeepsDay(d: string, clock: string)
    requires d != ""
    requires LexLe("00:00:00", clock) && LexLe(clock, "23:59:59")
    ensures InWindow(d + "T" + clock, Some(d), Some(d))
  {
    LexLePrefix("T", "00:00:00", clock);
    LexLePrefix("T", clock, "23:59:59");
    assert "T" + "00:00:00" == "T00:00:00" && "T" + "23:59:59" == "T23:59:59";
    LexLePrefix(d, "T00:00:00", "T" + clock);
    LexLePrefix(d, "T" + clock, "T23:59:59");
    AppendAssoc(d, "T", clock);
  }

  /** A check-in in the last second of `dateTo`, after 23:59:59.000, falls outside the window. */
  lemma LastSecondOfDayDropped()
    ensures !InWindow("2024-05-01T23:59:59.500Z", None, Some("2024-05-01"))
  {
    var u := UpperBound("2024-05-01");
    HalfSecondLiteral();
    LexLePrefix(u, ".500Z", []);
    assert u + [] == u;
  }

  /** The sample timestamp is the upper bound followed by half a second. */
  lemma HalfSecondLiteral()
    ensures "2024-05-01T23:59:59.500Z" == UpperBound("2024-05-01") + ".500Z"
  {
  }

  // ------------------------------------------------------------ the report

  function OverallOf(records: seq<Record>): (s: OverallStats)
    ensures s.totalRecords == |records|
    ensures s.presentCount == CountStatus(records, Present) && s.absentCount == CountStatus(records, Absent) &&
            s.lateCount == CountStatus(records, Late)
    ensures s.presentCount + s.absentCount + s.lateCount <= s.totalRecords
    ensures s.attendanceRate == Percent(s.presentCount, s.totalRecords)
    ensures 0.0 <= s.attendanceRate <= 100.0
  {
    StatusCountsBounded(records);
    var present := CountStatus(records, Present);
    PercentInRange(present, |records|);
    OverallStats(|records|, present, CountStatus(records, Absent), CountStatus(records, Late),
                 Percent(present, |records|))
  }

  /** `Course-` and the first eight characters of the course id, or `N/A`. */
  function CourseCode(courseId: Option<string>): (c: string)
    ensures Truthy(courseId) ==> StartsWith(c, "Course-") && |c| == 7 + Min(8, |courseId.value|)
    ensures Truthy(courseId) ==> c[7..] <= courseId.value
    ensures Truthy(courseId) && |courseId.value| <= 8 ==> c == "Course-" + courseId.value
    ensures !Truthy(courseId) ==> c == "N/A"
  {
    if Truthy(courseId) then "Course-" + courseId.value[..Min(8, |courseId.value|)] else "N/A"
  }

  function SectionRecords(records: seq<Record>, sectionId: string): (r: seq<Record>)
    ensures forall x :: x in r <==> x in records && x.sectionId == sectionId
  {
    Filter(records, (x: Record) => x.sectionId == sectionId)
  }

  function ReportOf(s: ReportSection, records: seq<Record>): (r: SectionReport)
    ensures r.id == s.id && r.sectionName == s.sectionCode && r.courseCode == CourseCode(s.courseId)
    ensures r.professorName == "Unassigned"
    ensures r.totalRecords == |SectionRecords(records, s.id)|
    ensures r.presentCount == CountStatus(SectionRecords(records, s.id), Present) &&
            r.absentCount == CountStatus(SectionRecords(records, s.id), Absent) &&
            r.lateCount == CountStatus(SectionRecords(records, s.id), Late)
    ensures r.presentCount + r.absentCount + r.lateCount <= r.totalRecords
    ensures r.attendanceRate == Percent(r.presentCount, r.totalRecords)
    ensures 0.0 <= r.attendanceRate <= 100.0
  {
    var mine := SectionRecords(records, s.id);
    StatusCountsBounded(mine);
    var present := CountStatus(mine, Present);
    PercentInRange(present, |mine|);
    SectionReport(s.id, s.sectionCode, CourseCode(s.courseId), "Unassigned", |mine|, present,
                  CountStatus(mine, Absent), CountStatus(mine, Late), Percent(present, |mine|))
  }

  function ReportsOutcome(records: Fetch<Record>, dateFrom: Option<string>, dateTo: Option<string>,
                          sections: Fetch<ReportSection>): (r: Response)
    ensures r == ReportsFailed <==> records.FetchError? || sections.FetchError?
    ensures r.Reports? ==>
              var kept := WindowRecords(records.rows, dateFrom, dateTo);
              r.stats == OverallOf(kept) &&
              |r.sections| == |sections.rows| &&
              forall i :: 0 <= i < |r.sections| ==> r.sections[i] == ReportOf(sections.rows[i], kept)
  {
    if records.FetchError? || sections.FetchError? then ReportsFailed
    else
      var kept := WindowRecords(records.rows, dateFrom, dateTo);
      Reports(OverallOf(kept),
              seq(|sections.rows|, i requires 0 <= i < |sections.rows| => ReportOf(sections.rows[i], kept)))
  }
}
