/** POST /api/attendance/match-face: one descriptor against every active
    student registration, best cosine score first, accepted at 0.7. */
module MatchFace {
  import opened Common
  import opened Similarity
  import opened BestMatch

  const SimilarityThreshold: real := 0.7

  /** A row of `student_face_registrations`. */
  datatype Registration = Registration(
    id: string, studentNumber: string, firstName: string, lastName: string,
    faceDescriptor: Option<Descriptor>, isActive: bool)

  datatype Response =
    | MissingDescriptor                                   // 400, matched: false
    | FetchFailed                                         // 400, matched: false
    | NoRegistrations                                     // 404, matched: false
    | Matched(student: Registration, confidence: real)    // 200, matched: true
    | NotRecognized(bestSimilarity: real)                 // 200, success: true, matched: false

  function HttpStatus(r: Response): int
  {
    match r
    case MissingDescriptor => 400
    case FetchFailed => 400
    case NoRegistrations => 404
    case _ => 200
  }

  /** `.eq('is_active', true)`; the request's `sectionId` is never read. */
  function ActiveRows(rows: seq<Registration>): seq<Registration>
  {
    Filter(rows, (s: Registration) => s.isActive)
  }

  /** A student's score, or None when the row has no descriptor (`continue`). */
  function Score(input: seq<real>, s: Registration, sqrt: real -> real): (r: Option<real>)
    ensures r.None? <==> s.faceDescriptor.None?
    ensures r.Some? && |AsArray(s.faceDescriptor.value)| != |input| ==> r.value == 0.0
    ensures r.Some? ==>
              var d := AsArray(s.faceDescriptor.value);
              (sqrt(Dot(input, input)) == 0.0 || sqrt(Dot(d, d)) == 0.0 ==> r.value == 0.0) &&
              (|d| == |input| && sqrt(Dot(input, input)) != 0.0 && sqrt(Dot(d, d)) != 0.0 ==>
                 r.value * (sqrt(Dot(input, input)) * sqrt(Dot(d, d))) == Dot(input, d))
  {
    match s.faceDescriptor
    case None => None
    case Some(d) => Some(Cosine(input, AsArray(d), sqrt))
  }

  function Scores(input: seq<real>, students: seq<Registration>, sqrt: real -> real): (r: seq<Option<real>>)
    ensures |r| == |students|
    ensures forall i :: 0 <= i < |students| ==> r[i] == Score(input, students[i], sqrt)
  {
    seq(|students|, i requires 0 <= i < |students| => Score(input, students[i], sqrt))
  }

  /** The handler's answer. */
  function Respond(faceDescriptor: Option<Descriptor>, table: Fetch<Registration>, sqrt: real -> real): (r: Response)
    ensures r == MissingDescriptor <==> faceDescriptor.None?
    ensures r == FetchFailed <==> faceDescriptor.Some? && table.FetchError?
    ensures r == NoRegistrations <==> faceDescriptor.Some? && table.Fetched? && ActiveRows(table.rows) == []
    ensures r.Matched? || r.NotRecognized? <==>
              faceDescriptor.Some? && table.Fetched? && ActiveRows(table.rows) != []
    ensures r.Matched? ==>
              var students := ActiveRows(table.rows);
              var scores := Scores(AsArray(faceDescriptor.value), students, sqrt);
              r.confidence >= SimilarityThreshold &&
              exists k :: 0 <= k < |students| && students[k] == r.student &&
                scores[k] == Some(r.confidence) &&
                (forall i :: 0 <= i < |students| && scores[i].Some? ==> scores[i].value <= r.confidence) &&
                (forall i :: 0 <= i < k && scores[i].Some? ==> scores[i].value < r.confidence)
    ensures r.NotRecognized? ==>
              var students := ActiveRows(table.rows);
              var scores := Scores(AsArray(faceDescriptor.value), students, sqrt);
              -1.0 <= r.bestSimilarity < SimilarityThreshold &&
              (r.bestSimilarity == -1.0 || exists k :: 0 <= k < |students| && scores[k] == Some(r.bestSimilarity)) &&
              forall i :: 0 <= i < |students| && scores[i].Some? ==> scores[i].value <= r.bestSimilarity
  {
    if faceDescriptor.None? then MissingDescriptor
    else if table.FetchError? then FetchFailed
    else
      var students := ActiveRows(table.rows);
      if students == [] then NoRegistrations
      else
        var b := Scan(Scores(AsArray(faceDescriptor.value), students, sqrt), -1.0);
        if b.index.Some? && b.score >= SimilarityThreshold then Matched(students[b.index.value], b.score)
        else NotRecognized(b.score)
  }

  /** A match is reported exactly when some registered descriptor scores 0.7 or more. */
  lemma MatchedIffSomeoneReachesThreshold(faceDescriptor: Option<Descriptor>, table: Fetch<Registration>, sqrt: real -> real)
    requires faceDescriptor.Some? && table.Fetched? && ActiveRows(table.rows) != []
    ensures var students := ActiveRows(table.rows);
            Respond(faceDescriptor, table, sqrt).Matched? <==>
              exists i :: 0 <= i < |students| && students[i].faceDescriptor.Some? &&
                Cosine(AsArray(faceDescriptor.value), AsArray(students[i].faceDescriptor.value), sqrt) >= SimilarityThreshold
  {
    var students := ActiveRows(table.rows);
    var scores := Scores(AsArray(faceDescriptor.value), students, sqrt);
    ScanReaches(scores, -1.0, SimilarityThreshold);
    if exists i :: 0 <= i < |students| && students[i].faceDescriptor.Some? &&
         Cosine(AsArray(faceDescriptor.value), AsArray(students[i].faceDescriptor.value), sqrt) >= SimilarityThreshold {
      var i :| 0 <= i < |students| && students[i].faceDescriptor.Some? &&
         Cosine(AsArray(faceDescriptor.value), AsArray(students[i].faceDescriptor.value), sqrt) >= SimilarityThreshold;
      assert scores[i].Some? && scores[i].value >= SimilarityThreshold;
    }
  }

  /** The handler as written: a loop over the fetched students. */
  method MatchFace(faceDescriptor: Option<Descriptor>, table: Fetch<Registration>, sqrt: real -> real)
    returns (r: Response)
    ensures r == Respond(faceDescriptor, table, sqrt)
  {
    if faceDescriptor.None? {
      return MissingDescriptor;
    }
    if table.FetchError? {
      return FetchFailed;
    }
    var students := ActiveRows(table.rows);
    if |students| == 0 {
      return NoRegistrations;
    }
    var input := AsArray(faceDescriptor.value);
    ghost var scores := Scores(input, students, sqrt);
    var bestMatch: Option<nat> := None;
    var bestSimilarity := -1.0;
    var i := 0;
    while i < |students|
      invariant 0 <= i <= |students|
      invariant Best(bestMatch, bestSimilarity) == Scan(scores[..i], -1.0)
    {
      assert scores[..i + 1][..i] == scores[..i];
      var student := students[i];
      if student.faceDescriptor.Some? {
        var similarity := CosineLoop(input, AsArray(student.faceDescriptor.value), sqrt);
        if similarity > bestSimilarity {
          bestSimilarity := similarity;
          bestMatch := Some(i);
        }
      }
      i := i + 1;
    }
    assert scores[..i] == scores;
    if bestMatch.Some? && bestSimilarity >= SimilarityThreshold {
      return Matched(students[bestMatch.value], bestSimilarity);
    }
    return NotRecognized(bestSimilarity);
  }
}
