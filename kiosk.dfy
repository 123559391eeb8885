/** The kiosk page's own logic: the time formats, the lock countdown and the
    per-frame handling of recognised faces, which keeps two sets of student ids
    (those whose mark request is pending and those already marked). */
module Kiosk {
  import opened Common
  import AttendanceMark

  // ------------------------------------------------------------ formatTime

  /** `h % 12 || 12` */
  function Hour12(h: nat): (r: nat)
    ensures 1 <= r <= 12
    ensures r % 12 == h % 12
  {
    if h % 12 == 0 then 12 else h % 12
  }

  /** `String(n).padStart(2, '0')`: at least two digits, exactly two below 100,
      reading back as n. */
  function Pad2(n: nat): (s: string)
    ensures |s| >= 2 && (n < 100 ==> |s| == 2)
    ensures AllDigits(s) && ParseDigits(s) == n
  {
    NatToStringLength(n);
    ParsePadded(n, 2);
    PadStart(NatToString(n), 2, '0')
  }

  function Suffix(h: nat): string
  {
    if h >= 12 then "PM" else "AM"
  }

  /** `formatTime` on the parsed hour and minute of a start time: the
      12-hour hour, a colon, the minutes, and AM before noon, PM from noon. */
  function FormatTime(h: nat, m: nat): (s: string)
    ensures |s| >= 7 && IsDigit(s[0]) && ':' in s
    ensures s[|s| - 3..] == if h < 12 then " AM" else " PM"
  {
    var hour := NatToString(Hour12(h));
    var mins := Pad2(m);
    ClockShape(hour, mins, h);
    hour + ":" + mins + " " + Suffix(h)
  }

  /** Where the colon and the suffix sit in `hour:mins suffix`. */
  lemma ClockShape(hour: string, mins: string, h: nat)
    requires |hour| >= 1 && AllDigits(hour) && |mins| >= 2
    ensures var s := hour + ":" + mins + " " + Suffix(h);
            |s| >= 7 && IsDigit(s[0]) && ':' in s && s[|s| - 3..] == if h < 12 then " AM" else " PM"
  {
    var s := hour + ":" + mins + " " + Suffix(h);
    assert s[0] == hour[0];
    assert s[|hour|] == ':';
  }

  /** The rendering reads back: the hour part is the 12-hour clock hour, the
      minute part has at least two digits and parses to the minute (exactly two
      below 100), and the suffix is AM exactly before noon. */
  lemma FormatTimeParts(h: nat, m: nat)
    ensures var s := FormatTime(h, m);
            var hour := NatToString(Hour12(h));
            var mins := Pad2(m);
            s == hour + [':'] + mins + [' '] + Suffix(h) &&
            ParseDigits(hour) == Hour12(h) &&
            AllDigits(mins) && ParseDigits(mins) == m && |mins| >= 2 && (m < 100 ==> |mins| == 2) &&
            (Suffix(h) == "AM" <==> h < 12)
  {
    ParseNatToString(Hour12(h));
    ParsePadded(m, 2);
    NatToStringLength(m);
  }

  /** Midnight and noon read as 12, and the 12-hour hour repeats every 12 hours. */
  lemma Hour12Examples(h: nat)
    ensures Hour12(0) == 12 && Hour12(12) == 12 && Hour12(13) == 1
    ensures Hour12(h + 12) == Hour12(h)
  {
  }

  // ------------------------------------------------------------ checkLock

  const KioskLockMs: int := 1_800_000    // 30 minutes

  datatype Countdown =
    | LockNow                                         // diffMs <= 0
    | Remaining(mins: nat, secs: nat, text: string)   // "mm:ss"
    | NotANumber                                      // the start time did not parse

  /** `checkLock` at `nowMs` (milliseconds since local midnight). */
  function CheckLock(start: AttendanceMark.ClassStart, nowMs: int): (c: Countdown)
    ensures start.StartAt? ==> (c.LockNow? <==> nowMs >= start.ms + KioskLockMs)
    ensures start.Invalid? <==> c.NotANumber?
  {
    match start
    case Invalid => NotANumber
    case StartAt(ms) =>
      var diffMs := ms + KioskLockMs - nowMs;
      if diffMs <= 0 then LockNow
      else
        var mins := diffMs / 60000;
        var secs := (diffMs % 60000) / 1000;
        Remaining(mins, secs, Pad2(mins) + ":" + Pad2(secs))
  }

  /** The countdown shows whole minutes and seconds left, rounded down, with
      both fields zero-padded to two digits (the minutes within the half hour). */
  lemma CountdownIsRemainingTime(start: AttendanceMark.ClassStart, nowMs: int)
    requires CheckLock(start, nowMs).Remaining?
    ensures var c := CheckLock(start, nowMs);
            var diffMs := start.ms + KioskLockMs - nowMs;
            c.secs < 60 &&
            c.mins * 60000 + c.secs * 1000 <= diffMs < c.mins * 60000 + c.secs * 1000 + 1000 &&
            c.text == Pad2(c.mins) + [':'] + Pad2(c.secs) &&
            ParseDigits(Pad2(c.mins)) == c.mins && ParseDigits(Pad2(c.secs)) == c.secs &&
            |Pad2(c.secs)| == 2 && (nowMs >= start.ms ==> |Pad2(c.mins)| == 2)
  {
    RemainingArithmetic(start.ms + KioskLockMs - nowMs);
  }

  /** Whole minutes and seconds of a positive millisecond count. */
  lemma RemainingArithmetic(diffMs: int)
    requires diffMs > 0
    ensures var mins, secs := diffMs / 60000, (diffMs % 60000) / 1000;
            0 <= mins && 0 <= secs < 60 &&
            mins * 60000 + secs * 1000 <= diffMs < mins * 60000 + secs * 1000 + 1000 &&
            (diffMs <= KioskLockMs ==> mins <= 30)
  {
    var mins, rest := diffMs / 60000, diffMs % 60000;
    assert diffMs == mins * 60000 + rest && 0 <= rest < 60000;
    var secs, ms := rest / 1000, rest % 1000;
    assert rest == secs * 1000 + ms && 0 <= ms < 1000;
  }

  // ------------------------------------------------------------ per-frame handling

  /** A face the realtime recogniser reports. */
  datatype Face = Face(matched: bool, studentId: Option<string>, name: string)

  datatype FaceStatus = MatchedFace | NoMatchFace | AlreadyMarkedFace

  datatype UiResult = UiResult(name: string, status: FaceStatus)

  datatype ScanStatus = Idle | Matched | NoMatch | AlreadyMarked | LockedStatus

  /** What the mark route answered, as the page reads it. `OtherReply` is a
      JSON body with none of the flags (a 400 or 404), `NetworkError` the
      rejected promise. */
  datatype MarkReply = AlreadyMarkedReply | LockedReply | SuccessReply | OtherReply | NetworkError

  /** `face.matched && face.studentId` */
  predicate Recognised(f: Face)
  {
    f.matched && f.studentId.Some? && f.studentId.value != ""
  }

  /** The badge of one face against the already-marked set. */
  function Classify(f: Face, marked: set<string>): (u: UiResult)
    ensures u.status == AlreadyMarkedFace <==> Recognised(f) && f.studentId.value in marked
    ensures u.status == MatchedFace <==> Recognised(f) && f.studentId.value !in marked
    ensures u.status == NoMatchFace <==> !Recognised(f)
    ensures u.status == NoMatchFace ==> u.name == "Unknown"
    ensures u.status != NoMatchFace ==> u.name == f.name
  {
    if Recognised(f) then
      if f.studentId.value in marked then UiResult(f.name, AlreadyMarkedFace) else UiResult(f.name, MatchedFace)
    else UiResult("Unknown", NoMatchFace)
  }

  function Classified(faces: seq<Face>, marked: set<string>): (r: seq<UiResult>)
    ensures |r| == |faces|
    ensures forall i :: 0 <= i < |faces| ==> r[i] == Classify(faces[i], marked)
  {
    seq(|faces|, i requires 0 <= i < |faces| => Classify(faces[i], marked))
  }

  /** The mark requests a frame issues, in face order: one per recognised face
      not yet marked whose student is not already being marked (by an earlier
      frame or an earlier face of this one). */
  function Requests(faces: seq<Face>, marked: set<string>, marking: set<string>): (r: seq<string>)
    ensures |r| <= |faces|
    ensures forall id :: id in r ==> id !in marked && id !in marking
  {
    if faces == [] then []
    else
      var rest := Requests(faces[..|faces| - 1], marked, marking);
      var f := faces[|faces| - 1];
      if Recognised(f) && f.studentId.value !in marked && f.studentId.value !in marking && f.studentId.value !in rest
      then rest + [f.studentId.value]
      else rest
  }

  /** Appending the next face's badge keeps the badges aligned with the faces. */
  lemma BadgesExtend(faces: seq<Face>, marked: set<string>, results: seq<UiResult>, u: UiResult)
    requires |results| < |faces| && forall j :: 0 <= j < |results| ==> results[j] == Classify(faces[j], marked)
    requires u == Classify(faces[|results|], marked)
    ensures forall j :: 0 <= j < |results| + 1 ==> (results + [u])[j] == Classify(faces[j], marked)
  {
  }

  /** The requests after one more face. */
  lemma RequestsStep(faces: seq<Face>, i: nat, marked: set<string>, marking: set<string>)
    requires i < |faces|
    ensures var rest := Requests(faces[..i], marked, marking);
            var f := faces[i];
            Requests(faces[..i + 1], marked, marking) ==
              if Recognised(f) && f.studentId.value !in marked && f.studentId.value !in marking && f.studentId.value !in rest
              then rest + [f.studentId.value]
              else rest
  {
    assert faces[..i + 1][..i] == faces[..i];
  }

  function Members(s: seq<string>): (r: set<string>)
    ensures forall x :: x in r <==> x in s
  {
    set x | x in s
  }

  lemma Extend(s: seq<string>, x: string)
    ensures Members(s + [x]) == Members(s) + {x}
  {
  }

  predicate NoDuplicates(s: seq<string>)
  {
    forall i, j :: 0 <= i < j < |s| ==> s[i] != s[j]
  }

  /** A frame never issues two requests for one student nor one for a student
      already marked or being marked; and every recognised, unmarked student of
      the frame ends up being marked. */
  lemma {:induction false} RequestsAreFresh(faces: seq<Face>, marked: set<string>, marking: set<string>)
    ensures var issued := Requests(faces, marked, marking);
            NoDuplicates(issued) &&
            (forall id :: id in issued ==> id !in marked && id !in marking) &&
            (forall id :: id in issued ==> exists f :: f in faces && Recognised(f) && f.studentId.value == id) &&
            (forall f :: f in faces && Recognised(f) && f.studentId.value !in marked ==>
               f.studentId.value in marking || f.studentId.value in issued)
  {
    if faces != [] {
      var prefix := faces[..|faces| - 1];
      RequestsAreFresh(prefix, marked, marking);
      forall f | f in faces && Recognised(f) && f.studentId.value !in marked
        ensures f.studentId.value in marking || f.studentId.value in Requests(faces, marked, marking)
      {
        if f != faces[|faces| - 1] {
          var i :| 0 <= i < |faces| && faces[i] == f;
          assert prefix[i] == f;
        }
      }
      forall id | id in Requests(faces, marked, marking)
        ensures exists f :: f in faces && Recognised(f) && f.studentId.value == id
      {
        if id in Requests(prefix, marked, marking) {
          var f :| f in prefix && Recognised(f) && f.studentId.value == id;
          assert f in faces;
        } else {
          assert faces[|faces| - 1] in faces;
        }
      }
    }
  }

  /** `uiResults.some` / `every` after a frame. None: the status is left as it was. */
  function Aggregate(results: seq<UiResult>): (s: Option<ScanStatus>)
    ensures s == Some(AlreadyMarked) <==> |results| > 0 && forall r :: r in results ==> r.status == AlreadyMarkedFace
    ensures s == Some(Matched) <==> exists r :: r in results && r.status == MatchedFace
    ensures s == Some(NoMatch) <==>
              (exists r :: r in results && r.status == NoMatchFace) && !(exists r :: r in results && r.status == MatchedFace)
  {
    if |results| > 0 && forall r :: r in results ==> r.status == AlreadyMarkedFace then Some(AlreadyMarked)
    else if exists r :: r in results && r.status == MatchedFace then Some(Matched)
    else if exists r :: r in results && r.status == NoMatchFace then Some(NoMatch)
    else None
  }

  /** A frame with at least one face always sets a status. */
  lemma AggregateOfNonEmptyFrame(results: seq<UiResult>)
    requires |results| > 0
    ensures Aggregate(results).Some?
  {
    assert results[0] in results;
  }

  /** The page's refs and the pending requests. `inFlight` holds one entry per
      mark request whose reply has not arrived. */
  class KioskPage {
    var marking: set<string>
    var marked: set<string>
    var inFlight: multiset<string>
    var hasMarkedAbsent: bool
    var attendanceLocked: bool
    var scanStatus: ScanStatus
    var cooldownUntil: int

    /** At most one pending request per student, each for a student in
        `marking`, and nobody both marked and being marked. */
    ghost predicate Valid()
      reads this
    {
      (forall id :: id in inFlight ==> inFlight[id] == 1 && id in marking) &&
      marking !! marked
    }

    constructor()
      ensures Valid()
      ensures marking == {} && marked == {} && inFlight == multiset{}
      ensures !hasMarkedAbsent && !attendanceLocked && scanStatus == Idle && cooldownUntil == 0
    {
      marking, marked, inFlight := {}, {}, multiset{};
      hasMarkedAbsent, attendanceLocked, scanStatus, cooldownUntil := false, false, Idle, 0;
    }

    /** `selectSchedule`: fresh sets and the absent marking re-armed. */
    method SelectSchedule()
      modifies this
      ensures Valid()
      ensures marking == {} && marked == {} && inFlight == multiset{} && !hasMarkedAbsent
      ensures attendanceLocked == old(attendanceLocked) && scanStatus == old(scanStatus)
      ensures cooldownUntil == old(cooldownUntil)
    {
      marking, marked, inFlight := {}, {}, multiset{};
      hasMarkedAbsent := false;
    }

    /** The recogniser callback for one frame: the badges, the new status and
        the mark requests it sends. */
    method ProcessFrame(detected: bool, faces: seq<Face>) returns (results: seq<UiResult>, issued: seq<string>)
      requires Valid()
      modifies this
      ensures Valid()
      ensures !detected || faces == [] ==>
                results == [] && issued == [] && scanStatus == Idle && marking == old(marking) && inFlight == old(inFlight)
      ensures detected && faces != [] ==>
                results == Classified(faces, old(marked)) &&
                issued == Requests(faces, old(marked), old(marking)) &&
                scanStatus == Aggregate(results).value &&
                marking == old(marking) + Members(issued) &&
                inFlight == old(inFlight) + multiset(issued)
      ensures marked == old(marked) && hasMarkedAbsent == old(hasMarkedAbsent)
      ensures attendanceLocked == old(attendanceLocked) && cooldownUntil == old(cooldownUntil)
    {
      if !detected || |faces| == 0 {
        scanStatus := Idle;
        return [], [];
      }
      results, issued := ScanFaces(faces);
      AggregateOfNonEmptyFrame(results);
      scanStatus := Aggregate(results).value;
    }

    /** The loop over the faces of a non-empty frame. */
    method ScanFaces(faces: seq<Face>) returns (results: seq<UiResult>, issued: seq<string>)
      requires Valid()
      modifies this
      ensures Valid()
      ensures results == Classified(faces, marked)
      ensures issued == Requests(faces, marked, old(marking))
      ensures marking == old(marking) + Members(issued)
      ensures inFlight == old(inFlight) + multiset(issued)
      ensures marked == old(marked) && hasMarkedAbsent == old(hasMarkedAbsent) && scanStatus == old(scanStatus)
      ensures attendanceLocked == old(attendanceLocked) && cooldownUntil == old(cooldownUntil)
    {
      results, issued := [], [];
      ghost var marking0, inFlight0 := marking, inFlight;
      var i := 0;
      while i < |faces|
        invariant 0 <= i <= |faces|
        invariant |results| == i && forall j :: 0 <= j < i ==> results[j] == Classify(faces[j], marked)
        invariant issued == Requests(faces[..i], marked, marking0)
        invariant marking == marking0 + Members(issued)
        invariant inFlight == inFlight0 + multiset(issued)
        invariant Valid()
        invariant marked == old(marked) && hasMarkedAbsent == old(hasMarkedAbsent) && scanStatus == old(scanStatus)
        invariant attendanceLocked == old(attendanceLocked) && cooldownUntil == old(cooldownUntil)
      {
        results, issued := ScanStep(faces, i, marking0, inFlight0, results, issued);
        i := i + 1;
      }
      assert faces[..i] == faces;
    }

    /** The loop body for face `i`, from the loop's invariant at `i` to the one at `i + 1`. */
    method ScanStep(faces: seq<Face>, i: nat, ghost marking0: set<string>, ghost inFlight0: multiset<string>,
                    results: seq<UiResult>, issued: seq<string>)
      returns (results': seq<UiResult>, issued': seq<string>)
      requires i < |faces| && Valid()
      requires |results| == i && forall j :: 0 <= j < i ==> results[j] == Classify(faces[j], marked)
      requires issued == Requests(faces[..i], marked, marking0)
      requires marking == marking0 + Members(issued) && inFlight == inFlight0 + multiset(issued)
      modifies this
      ensures Valid()
      ensures |results'| == i + 1 && forall j :: 0 <= j < i + 1 ==> results'[j] == Classify(faces[j], marked)
      ensures issued' == Requests(faces[..i + 1], marked, marking0)
      ensures marking == marking0 + Members(issued') && inFlight == inFlight0 + multiset(issued')
      ensures marked == old(marked) && hasMarkedAbsent == old(hasMarkedAbsent) && scanStatus == old(scanStatus)
      ensures attendanceLocked == old(attendanceLocked) && cooldownUntil == old(cooldownUntil)
    {
      RequestsStep(faces, i, marked, marking0);
      ghost var m := marked;
      var u, sent := HandleFace(faces[i]);
      results' := results + [u];
      BadgesExtend(faces, m, results, u);
      issued' := issued;
      if sent {
        Extend(issued, faces[i].studentId.value);
        issued' := issued + [faces[i].studentId.value];
      }
    }

    /** One face of the frame: its badge, and whether a request goes out. */
    method HandleFace(face: Face) returns (u: UiResult, sent: bool)
      requires Valid()
      modifies this
      ensures Valid()
      ensures u == Classify(face, marked)
      ensures sent <==> Recognised(face) && face.studentId.value !in marked && face.studentId.value !in old(marking)
      ensures marking == if sent then old(marking) + {face.studentId.value} else old(marking)
      ensures inFlight == if sent then old(inFlight) + multiset{face.studentId.value} else old(inFlight)
      ensures marked == old(marked) && hasMarkedAbsent == old(hasMarkedAbsent) && scanStatus == old(scanStatus)
      ensures attendanceLocked == old(attendanceLocked) && cooldownUntil == old(cooldownUntil)
    {
      sent := false;
      if face.matched && face.studentId.Some? && face.studentId.value != "" {
        if face.studentId.value in marked {
          u := UiResult(face.name, AlreadyMarkedFace);
        } else {
          u := UiResult(face.name, MatchedFace);
          if face.studentId.value !in marking {
            marking := marking + {face.studentId.value};
            inFlight := inFlight + multiset{face.studentId.value};
            sent := true;
          }
        }
      } else {
        u := UiResult("Unknown", NoMatchFace);
      }
    }

    /** The reply to a pending request for `studentId`. */
    method OnMarkReply(studentId: string, reply: MarkReply)
      requires Valid() && studentId in inFlight
      modifies this
      ensures Valid()
      ensures inFlight == old(inFlight) - multiset{studentId}
      ensures reply == AlreadyMarkedReply || reply == SuccessReply ==>
                marked == old(marked) + {studentId} && marking == old(marking) - {studentId}
      ensures reply == LockedReply || reply == NetworkError ==>
                marked == old(marked) && marking == old(marking) - {studentId}
      ensures reply == OtherReply ==> marked == old(marked) && marking == old(marking)
      ensures attendanceLocked == (old(attendanceLocked) || reply == LockedReply)
      ensures hasMarkedAbsent == old(hasMarkedAbsent) && scanStatus == old(scanStatus)
      ensures cooldownUntil == old(cooldownUntil)
    {
      inFlight := inFlight - multiset{studentId};
      match reply
      case AlreadyMarkedReply =>
        marked := marked + {studentId};
        marking := marking - {studentId};
      case LockedReply =>
        attendanceLocked := true;
        marking := marking - {studentId};
      case SuccessReply =>
        marked := marked + {studentId};
        marking := marking - {studentId};
      case OtherReply =>
      case NetworkError =>
        marking := marking - {studentId};
    }

    /** One tick of `checkLock`; `triggerAbsent` says whether it calls
        `markRemainingAbsent`, which happens once until the flag is re-armed. */
    method CheckLockTick(start: AttendanceMark.ClassStart, nowMs: int) returns (c: Countdown, triggerAbsent: bool)
      modifies this
      ensures c == CheckLock(start, nowMs)
      ensures triggerAbsent <==> c.LockNow? && !old(hasMarkedAbsent)
      ensures hasMarkedAbsent == (old(hasMarkedAbsent) || c.LockNow?)
      ensures c.LockNow? ==> attendanceLocked && scanStatus == LockedStatus
      ensures !c.LockNow? ==> attendanceLocked == old(attendanceLocked) && scanStatus == old(scanStatus)
      ensures marking == old(marking) && marked == old(marked) && inFlight == old(inFlight)
      ensures cooldownUntil == old(cooldownUntil)
    {
      c := CheckLock(start, nowMs);
      triggerAbsent := false;
      if c.LockNow? {
        attendanceLocked := true;
        scanStatus := LockedStatus;
        if !hasMarkedAbsent {
          hasMarkedAbsent := true;
          triggerAbsent := true;
        }
      }
    }

    /** The professor-scan loop skips its work while the cooldown lasts. */
    predicate ScanAllowed(nowMs: int)
      reads this
    {
      !(nowMs < cooldownUntil)
    }

    /** `resetToScan` at `nowMs`: back to the professor scan with empty sets
        and a 4-second cooldown. */
    method ResetToScan(nowMs: int)
      modifies this
      ensures Valid()
      ensures marking == {} && marked == {} && inFlight == multiset{}
      ensures !hasMarkedAbsent && !attendanceLocked && scanStatus == Idle
      ensures cooldownUntil == nowMs + 4000
      ensures forall t :: nowMs <= t < nowMs + 4000 ==> !ScanAllowed(t)
      ensures ScanAllowed(nowMs + 4000)
    {
      attendanceLocked := false;
      scanStatus := Idle;
      cooldownUntil := nowMs + 4000;
      hasMarkedAbsent := false;
      marking, marked, inFlight := {}, {}, multiset{};
    }
  }
}
