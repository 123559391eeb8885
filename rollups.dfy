/** What the report routes share: counting by status, the `Map` keyed by
    student number that keeps the last record, and the two rate formulas. */
module Rollups {
  import opened Common
  import opened Records

  /** `xs.filter(x => x === name).length` */
  function Count(xs: seq<string>, name: string): (n: nat)
    ensures n <= |xs|
    ensures n == 0 <==> name !in xs
  {
    if xs == [] then 0
    else Count(xs[..|xs| - 1], name) + (if xs[|xs| - 1] == name then 1 else 0)
  }

  predicate Distinct(names: seq<string>)
  {
    forall i, j :: 0 <= i < j < |names| ==> names[i] != names[j]
  }

  /** The counts for each of `names`, added up. */
  function CountAll(xs: seq<string>, names: seq<string>): nat
  {
    if names == [] then 0 else Count(xs, names[0]) + CountAll(xs, names[1..])
  }

  lemma {:induction false} CountAllSnoc(xs: seq<string>, y: string, names: seq<string>)
    requires Distinct(names)
    ensures CountAll(xs + [y], names) == CountAll(xs, names) + (if y in names then 1 else 0)
  {
    if names != [] {
      assert (xs + [y])[..|xs + [y]| - 1] == xs;
      assert Distinct(names[1..]) by {
        forall i, j | 0 <= i < j < |names[1..]|
          ensures names[1..][i] != names[1..][j]
        {
          assert names[1..][i] == names[i + 1] && names[1..][j] == names[j + 1];
        }
      }
      CountAllSnoc(xs, y, names[1..]);
      assert y in names <==> y == names[0] || y in names[1..];
      if y == names[0] {
        assert y !in names[1..] by {
          forall k | 0 <= k < |names[1..]|
            ensures names[1..][k] != y
          {
            assert names[1..][k] == names[k + 1];
          }
        }
      }
    }
  }

  /** Counting distinct names never counts an entry twice, and counts every
      entry when each entry has one of the names. */
  lemma {:induction false} CountsCover(xs: seq<string>, names: seq<string>)
    requires Distinct(names)
    ensures CountAll(xs, names) <= |xs|
    ensures (forall i :: 0 <= i < |xs| ==> xs[i] in names) ==> CountAll(xs, names) == |xs|
  {
    if xs == [] {
      EmptyCounts(names);
    } else {
      var p := xs[..|xs| - 1];
      assert p + [xs[|xs| - 1]] == xs;
      CountsCover(p, names);
      CountAllSnoc(p, xs[|xs| - 1], names);
      if forall i :: 0 <= i < |xs| ==> xs[i] in names {
        assert forall i :: 0 <= i < |p| ==> p[i] == xs[i];
      }
    }
  }

  lemma {:induction false} EmptyCounts(names: seq<string>)
    ensures CountAll([], names) == 0
  {
    if names != [] {
      EmptyCounts(names[1..]);
    }
  }

  lemma CountAllThree(xs: seq<string>, a: string, b: string, c: string)
    ensures CountAll(xs, [a, b, c]) == Count(xs, a) + Count(xs, b) + Count(xs, c)
  {
    assert [a, b, c][1..] == [b, c];
    assert [b, c][1..] == [c];
    assert [c][1..] == [];
    assert CountAll(xs, [c]) == Count(xs, c) + CountAll(xs, []);
    assert CountAll(xs, [b, c]) == Count(xs, b) + CountAll(xs, [c]);
  }

  lemma CountAllFive(xs: seq<string>, a: string, b: string, c: string, d: string, e: string)
    ensures CountAll(xs, [a, b, c, d, e]) == Count(xs, a) + Count(xs, b) + Count(xs, c) + Count(xs, d) + Count(xs, e)
  {
    assert [a, b, c, d, e][1..] == [b, c, d, e];
    assert [b, c, d, e][1..] == [c, d, e];
    CountAllThree(xs, c, d, e);
    assert CountAll(xs, [b, c, d, e]) == Count(xs, b) + CountAll(xs, [c, d, e]);
  }

  lemma RosterNamesDistinct()
    ensures Distinct(["present", "late", "absent", "pending", "excused"])
  {
    var names := ["present", "late", "absent", "pending", "excused"];
    forall i, j | 0 <= i < j < |names|
      ensures names[i] != names[j]
    {
      assert names[i][1] != names[j][1] || |names[i]| != |names[j]|;
    }
  }

  /** The four stored status names and `pending`, each counted once, give
      the length of a list holding only those names. */
  lemma RosterStatusesCover(st: seq<string>)
    requires forall i :: 0 <= i < |st| ==> st[i] in ["present", "late", "absent", "pending", "excused"]
    ensures Count(st, "present") + Count(st, "late") + Count(st, "absent") + Count(st, "pending") + Count(st, "excused") == |st|
  {
    var names := ["present", "late", "absent", "pending", "excused"];
    RosterNamesDistinct();
    CountsCover(st, names);
    CountAllFive(st, "present", "late", "absent", "pending", "excused");
  }

  /** The five roster statuses never count an entry twice. */
  lemma RosterCountsBounded(st: seq<string>)
    ensures Count(st, "present") + Count(st, "late") + Count(st, "absent") + Count(st, "pending") + Count(st, "excused") <= |st|
  {
    RosterNamesDistinct();
    CountsCover(st, ["present", "late", "absent", "pending", "excused"]);
    CountAllFive(st, "present", "late", "absent", "pending", "excused");
  }

  /** The status names of the records, in order. */
  function Statuses(records: seq<Record>): (r: seq<string>)
    ensures |r| == |records|
    ensures forall i :: 0 <= i < |records| ==> r[i] == StatusName(records[i].status)
  {
    seq(|records|, i requires 0 <= i < |records| => StatusName(records[i].status))
  }

  /** `records.filter(r => r.status === s).length` */
  function CountStatus(records: seq<Record>, s: Status): (n: nat)
    ensures n <= |records|
    ensures n == 0 <==> forall i :: 0 <= i < |records| ==> records[i].status != s
  {
    var names := Statuses(records);
    assert StatusName(s) in names <==> exists i :: 0 <= i < |records| && records[i].status == s by {
      if StatusName(s) in names {
        var i :| 0 <= i < |names| && names[i] == StatusName(s);
        assert records[i].status == s;
      }
    }
    Count(names, StatusName(s))
  }

  /** Present, late and absent records together are at most all records. */
  lemma StatusCountsBounded(records: seq<Record>)
    ensures CountStatus(records, Present) + CountStatus(records, Late) + CountStatus(records, Absent) <= |records|
  {
    var names := ["present", "late", "absent"];
    CountsCover(Statuses(records), names);
    CountAllThree(Statuses(records), "present", "late", "absent");
  }

  /** `new Map(records.map(r => [r.student_number, r]))`: a later entry with the
      same key replaces the earlier one. */
  function RecordMap(records: seq<Record>): (m: map<string, Record>)
    ensures |m| <= |records|
  {
    if records == [] then map[]
    else
      var last := records[|records| - 1];
      RecordMap(records[..|records| - 1])[last.studentNumber := last]
  }

  lemma RecordMapSnoc(records: seq<Record>, x: Record)
    ensures RecordMap(records + [x]) == RecordMap(records)[x.studentNumber := x]
  {
    assert (records + [x])[..|records|] == records;
  }

  /** Every number of a record is a key, and every key maps to a record of
      the list with that number. */
  lemma {:induction false} RecordMapDomain(records: seq<Record>)
    ensures forall r :: r in records ==> r.studentNumber in RecordMap(records)
    ensures forall n :: n in RecordMap(records) ==>
              RecordMap(records)[n] in records && RecordMap(records)[n].studentNumber == n
  {
    if records != [] {
      var prefix := records[..|records| - 1];
      RecordMapDomain(prefix);
      assert records == prefix + [records[|records| - 1]];
    }
  }

  /** No record after index `i` has number `n`. */
  predicate NoneAfter(records: seq<Record>, i: nat, n: string)
  {
    forall j :: i < j < |records| ==> records[j].studentNumber != n
  }

  /** The record the map keeps for a number is the last one with that number;
      `i` is its index. */
  lemma {:induction false} RecordMapKeepsLast(records: seq<Record>, n: string) returns (i: nat)
    requires n in RecordMap(records)
    ensures i < |records| && records[i] == RecordMap(records)[n] && NoneAfter(records, i, n)
  {
    var k := |records| - 1;
    var prefix := records[..k];
    if records[k].studentNumber == n {
      i := k;
    } else {
      assert RecordMap(records)[n] == RecordMap(prefix)[n];
      i := RecordMapKeepsLast(prefix, n);
      assert records[i] == prefix[i];
      forall j | i < j < |records|
        ensures records[j].studentNumber != n
      {
        if j < k {
          assert records[j] == prefix[j];
        }
      }
    }
  }

  /** Records whose number is not looked up do not matter: the map of the
      records for `numbers` agrees with the map of all records on `numbers`. */
  lemma {:induction false} RecordMapRestrict(records: seq<Record>, numbers: set<string>)
    ensures var m := RecordMap(Filter(records, (r: Record) => r.studentNumber in numbers));
            forall n :: n in numbers ==>
              (n in m <==> n in RecordMap(records)) && (n in m ==> m[n] == RecordMap(records)[n])
  {
    if records != [] {
      var keep := (r: Record) => r.studentNumber in numbers;
      var k := |records| - 1;
      var prefix := records[..k];
      var x := records[k];
      assert prefix + [x] == records;
      RecordMapRestrict(prefix, numbers);
      RecordMapSnoc(prefix, x);
      assert Filter(records, keep) == Filter(prefix, keep) + (if keep(x) then [x] else []);
      if keep(x) {
        RecordMapSnoc(Filter(prefix, keep), x);
      } else {
        assert Filter(prefix, keep) + [] == Filter(prefix, keep);
      }
    }
  }

  /** `Math.round(present / total * 100)` for `total > 0`, otherwise 0: the
      nearest integer, halves rounded up. */
  function RoundedRate(present: nat, total: nat): (r: int)
    ensures total == 0 ==> r == 0
    ensures total > 0 ==> r * 2 * total <= 200 * present + total < (r + 1) * 2 * total
  {
    if total > 0 then (200 * present + total) / (2 * total) else 0
  }

  /** For at most `total` present days the rounded rate is a percentage. */
  lemma RoundedRateInRange(present: nat, total: nat)
    requires present <= total
    ensures 0 <= RoundedRate(present, total) <= 100
    ensures present == total && total > 0 ==> RoundedRate(present, total) == 100
  {
    if total > 0 {
      var r := RoundedRate(present, total);
      var t2 := 2 * total;
      assert r * t2 < 101 * t2;
      MulCancel(r, 101, t2);
      assert 0 * t2 < (r + 1) * t2;
      MulCancel(0, r + 1, t2);
      if present == total {
        assert 99 * t2 < (r + 1) * t2;
        MulCancel(99, r + 1, t2);
      }
    }
  }

  lemma MulCancel(a: int, b: int, c: int)
    requires c > 0 && a * c < b * c
    ensures a < b
  {
  }

  /** `total > 0 ? present / total * 100 : 0` without rounding. */
  function Percent(present: nat, total: nat): (r: real)
    ensures total == 0 ==> r == 0.0
    ensures total > 0 ==> r * total as real == 100.0 * present as real
  {
    if total > 0 then present as real / total as real * 100.0 else 0.0
  }

  lemma PercentInRange(present: nat, total: nat)
    requires present <= total
    ensures 0.0 <= Percent(present, total) <= 100.0
  {
    if total > 0 {
      var r := Percent(present, total);
      assert r * total as real <= 100.0 * total as real;
    }
  }

  // ------------------------------------------------------------ merging a roster with records

  /** One student of a roster with the status of their record. */
  datatype Entry = Entry(
    id: string, studentNumber: string, firstName: string, lastName: string,
    status: string, checkedInAt: Option<string>, confidence: Option<real>)

  /** One student against the record map: `record?.status || default`,
      `record?.checked_in_at || null`, `record?.face_match_confidence || null`. */
  function EntryOf(s: StudentRegistration, m: map<string, Record>, default: string): Entry
  {
    if s.studentNumber in m then
      var r := m[s.studentNumber];
      Entry(s.id, s.studentNumber, s.firstName, s.lastName, StatusName(r.status),
            if r.checkedInAt != "" then Some(r.checkedInAt) else None,
            if r.confidence.Some? && r.confidence.value != 0.0 then r.confidence else None)
    else Entry(s.id, s.studentNumber, s.firstName, s.lastName, default, None, None)
  }

  /** `students.map(...)` against the map built from `records`. */
  function Merge(students: seq<StudentRegistration>, records: seq<Record>, default: string): (r: seq<Entry>)
    ensures |r| == |students|
    ensures forall i :: 0 <= i < |students| ==>
              r[i].id == students[i].id && r[i].studentNumber == students[i].studentNumber &&
              r[i].firstName == students[i].firstName && r[i].lastName == students[i].lastName
  {
    var m := RecordMap(records);
    seq(|students|, i requires 0 <= i < |students| => EntryOf(students[i], m, default))
  }

  function EntryStatuses(entries: seq<Entry>): (r: seq<string>)
    ensures |r| == |entries|
    ensures forall i :: 0 <= i < |entries| ==> r[i] == entries[i].status
  {
    seq(|entries|, i requires 0 <= i < |entries| => entries[i].status)
  }

  /** A student without a record gets the default status and no check-in; a
      student with records gets the status of the last of them. */
  lemma MergeStatus(students: seq<StudentRegistration>, records: seq<Record>, default: string, i: nat)
    requires i < |students|
    ensures var e := Merge(students, records, default)[i];
            var n := students[i].studentNumber;
            ((forall r :: r in records ==> r.studentNumber != n) ==>
               e.status == default && e.checkedInAt.None? && e.confidence.None?) &&
            ((exists r :: r in records && r.studentNumber == n) ==>
               exists j :: 0 <= j < |records| && records[j].studentNumber == n && NoneAfter(records, j, n) &&
                 e.status == StatusName(records[j].status))
  {
    var n := students[i].studentNumber;
    RecordMapDomain(records);
    if n in RecordMap(records) {
      var j := RecordMapKeepsLast(records, n);
      assert records[j].studentNumber == n;
    }
  }

  /** Every merged status is a stored status name or the default. */
  lemma MergeStatusNames(students: seq<StudentRegistration>, records: seq<Record>, default: string, names: seq<string>)
    requires default in names
    requires "present" in names && "late" in names && "absent" in names && "excused" in names
    ensures var st := EntryStatuses(Merge(students, records, default));
            forall i :: 0 <= i < |st| ==> st[i] in names
  {
    var st := EntryStatuses(Merge(students, records, default));
    forall i | 0 <= i < |st|
      ensures st[i] in names
    {
      var s := Merge(students, records, default)[i].status;
      assert s == default || s == StatusName(RecordMap(records)[students[i].studentNumber].status);
    }
  }

  /** Records of numbers outside the roster change nothing. */
  lemma MergeIgnoresOthers(students: seq<StudentRegistration>, records: seq<Record>, default: string)
    ensures var numbers := set s | s in students :: s.studentNumber;
            Merge(students, Filter(records, (r: Record) => r.studentNumber in numbers), default) ==
            Merge(students, records, default)
  {
    var numbers := set s | s in students :: s.studentNumber;
    RecordMapRestrict(records, numbers);
    var a := Merge(students, Filter(records, (r: Record) => r.studentNumber in numbers), default);
    var b := Merge(students, records, default);
    forall i | 0 <= i < |students|
      ensures a[i] == b[i]
    {
      assert students[i].studentNumber in numbers;
    }
  }
}
