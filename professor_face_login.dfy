/** POST /api/professor/face-login: one descriptor against the active
    professor registrations; the best match at 0.7 or more is looked up in
    `users` and must hold a faculty role. */
module ProfessorFaceLogin {
  import opened Common
  import opened Similarity
  import opened BestMatch

  const SimilarityThreshold: real := 0.7

  /** A row of `professor_face_registrations`. */
  datatype Registration = Registration(
    id: string, professorId: string, firstName: string, lastName: string,
    faceDescriptor: Option<Descriptor>, isActive: bool)

  /** A row of `users`. */
  datatype User = User(id: string, firstName: string, lastName: string, email: string, role: string, employeeId: string)

  datatype Response =
    | MissingDescriptor                       // 400, matched: false
    | FetchFailed                             // 400, matched: false
    | NoRegistrations                         // 404, matched: false
    | UserNotFound                            // 404, 'Professor user record not found'
    | AccessDenied                            // 403, 'Faculty credentials required'
    | Matched(confidence: real, user: User)   // 200, success: true, matched: true
    | NotRecognized(confidence: real)         // 200, success: false, matched: false

  function HttpStatus(r: Response): int
  {
    match r
    case MissingDescriptor => 400
    case FetchFailed => 400
    case NoRegistrations => 404
    case UserNotFound => 404
    case AccessDenied => 403
    case _ => 200
  }

  predicate IsFaculty(role: string) { role == "professor" || role == "adviser" }

  /** A registration's score; None when it has no descriptor or its length
      differs from the input's (both `continue`). */
  function Score(input: seq<real>, p: Registration, sqrt: real -> real): (s: Option<real>)
    ensures s.Some? <==> p.faceDescriptor.Some? && |AsArray(p.faceDescriptor.value)| == |input|
  {
    match p.faceDescriptor
    case None => None
    case Some(d) =>
      if |AsArray(d)| != |input| then None else Some(Cosine(input, AsArray(d), sqrt))
  }

  function Scores(input: seq<real>, profs: seq<Registration>, sqrt: real -> real): (r: seq<Option<real>>)
    ensures |r| == |profs|
    ensures forall i :: 0 <= i < |profs| ==> r[i] == Score(input, profs[i], sqrt)
  {
    seq(|profs|, i requires 0 <= i < |profs| => Score(input, profs[i], sqrt))
  }

  /** `.from('users').select('*').eq('id', professorId).single()` */
  function LookupUser(users: seq<User>, id: string): (r: Option<User>)
    ensures r.Some? ==>
              r.value in users && r.value.id == id &&
              forall u :: u in users && u.id == id ==> u == r.value
    ensures (forall u :: u in users ==> u.id != id) ==> r.None?
    ensures forall i :: 0 <= i < |users| && users[i].id == id &&
                        (forall j :: 0 <= j < |users| && j != i ==> users[j].id != id) ==>
              r == Some(users[i])
  {
    var keep := (u: User) => u.id == id;
    SingleFilter(users, keep);
    Single(Filter(users, keep))
  }

  function ActiveRows(rows: seq<Registration>): seq<Registration>
  {
    Filter(rows, (p: Registration) => p.isActive)
  }

  /** The decision once the argmax is known. */
  function Decide(b: Best, profs: seq<Registration>, users: seq<User>): (r: Response)
    requires b.index.Some? ==> b.index.value < |profs|
    ensures r.Matched? ==>
              b.index.Some? && r.confidence == b.score && r.confidence >= SimilarityThreshold &&
              IsFaculty(r.user.role) && LookupUser(users, profs[b.index.value].professorId) == Some(r.user)
    ensures r.NotRecognized? <==> b.index.None? || b.score < SimilarityThreshold
    ensures r.NotRecognized? ==> r.confidence == b.score
    ensures r == UserNotFound <==>
              b.index.Some? && b.score >= SimilarityThreshold && LookupUser(users, profs[b.index.value].professorId).None?
    ensures r == AccessDenied <==>
              b.index.Some? && b.score >= SimilarityThreshold &&
              LookupUser(users, profs[b.index.value].professorId).Some? &&
              !IsFaculty(LookupUser(users, profs[b.index.value].professorId).value.role)
    ensures r.Matched? <==>
              b.index.Some? && b.score >= SimilarityThreshold &&
              LookupUser(users, profs[b.index.value].professorId).Some? &&
              IsFaculty(LookupUser(users, profs[b.index.value].professorId).value.role)
  {
    if b.index.Some? && b.score >= SimilarityThreshold then
      match LookupUser(users, profs[b.index.value].professorId)
      case None => UserNotFound
      case Some(u) => if !IsFaculty(u.role) then AccessDenied else Matched(b.score, u)
    else NotRecognized(b.score)
  }

  function Respond(faceDescriptor: Option<Descriptor>, table: Fetch<Registration>, users: seq<User>, sqrt: real -> real)
    : (r: Response)
    ensures r == MissingDescriptor <==> faceDescriptor.None?
    ensures r == FetchFailed <==> faceDescriptor.Some? && table.FetchError?
    ensures r == NoRegistrations <==> faceDescriptor.Some? && table.Fetched? && ActiveRows(table.rows) == []
    ensures faceDescriptor.Some? && table.Fetched? && ActiveRows(table.rows) != [] ==>
              var scores := Scores(AsArray(faceDescriptor.value), ActiveRows(table.rows), sqrt);
              r == Decide(Scan(scores, -1.0), ActiveRows(table.rows), users)
  {
    if faceDescriptor.None? then MissingDescriptor
    else if table.FetchError? then FetchFailed
    else
      var profs := ActiveRows(table.rows);
      if profs == [] then NoRegistrations
      else Decide(Scan(Scores(AsArray(faceDescriptor.value), profs, sqrt), -1.0), profs, users)
  }

  /** A successful login is a faculty user whose registered descriptor has the
      input's length and scores at least 0.7, no other same-length descriptor
      scoring higher; a failed recognition reports the best score (-1 when no
      descriptor had the input's length), and that score is below 0.7. */
  lemma LoginDecision(faceDescriptor: Option<Descriptor>, table: Fetch<Registration>, users: seq<User>, sqrt: real -> real)
    requires faceDescriptor.Some? && table.Fetched? && ActiveRows(table.rows) != []
    ensures var profs := ActiveRows(table.rows);
            var input := AsArray(faceDescriptor.value);
            var r := Respond(faceDescriptor, table, users, sqrt);
            (r.Matched? ==>
               IsFaculty(r.user.role) && r.confidence >= SimilarityThreshold &&
               exists k :: 0 <= k < |profs| && profs[k].faceDescriptor.Some? &&
                 |AsArray(profs[k].faceDescriptor.value)| == |input| &&
                 Cosine(input, AsArray(profs[k].faceDescriptor.value), sqrt) == r.confidence &&
                 LookupUser(users, profs[k].professorId) == Some(r.user) &&
                 forall j :: 0 <= j < |profs| && Score(input, profs[j], sqrt).Some? ==>
                   Score(input, profs[j], sqrt).value <= r.confidence) &&
            (r.NotRecognized? ==>
               r.confidence < SimilarityThreshold &&
               forall j :: 0 <= j < |profs| && Score(input, profs[j], sqrt).Some? ==>
                 Score(input, profs[j], sqrt).value <= r.confidence) &&
            (r.NotRecognized? <==>
               forall j :: 0 <= j < |profs| && Score(input, profs[j], sqrt).Some? ==>
                 Score(input, profs[j], sqrt).value < SimilarityThreshold)
  {
    var profs := ActiveRows(table.rows);
    var input := AsArray(faceDescriptor.value);
    var scores := Scores(input, profs, sqrt);
    var b := Scan(scores, -1.0);
    ScanReaches(scores, -1.0, SimilarityThreshold);
    if b.index.Some? {
      var k := b.index.value;
      assert Score(input, profs[k], sqrt) == Some(b.score);
    }
  }

  /** The converse: a registration whose score reaches 0.7, that no
      registration beats and no earlier one ties, and whose professor is a
      faculty user, logs that user in with its score. */
  lemma LoginGranted(faceDescriptor: Option<Descriptor>, table: Fetch<Registration>, users: seq<User>, sqrt: real -> real,
                     k: nat)
    requires faceDescriptor.Some? && table.Fetched?
    requires var profs := ActiveRows(table.rows);
             var input := AsArray(faceDescriptor.value);
             k < |profs| && Score(input, profs[k], sqrt).Some? &&
             Score(input, profs[k], sqrt).value >= SimilarityThreshold &&
             (forall j :: 0 <= j < |profs| && Score(input, profs[j], sqrt).Some? ==>
                Score(input, profs[j], sqrt).value <= Score(input, profs[k], sqrt).value) &&
             (forall j :: 0 <= j < k && Score(input, profs[j], sqrt).Some? ==>
                Score(input, profs[j], sqrt).value < Score(input, profs[k], sqrt).value) &&
             LookupUser(users, profs[k].professorId).Some? &&
             IsFaculty(LookupUser(users, profs[k].professorId).value.role)
    ensures var profs := ActiveRows(table.rows);
            var input := AsArray(faceDescriptor.value);
            Respond(faceDescriptor, table, users, sqrt) ==
              Matched(Score(input, profs[k], sqrt).value, LookupUser(users, profs[k].professorId).value)
  {
    var profs := ActiveRows(table.rows);
    var scores := Scores(AsArray(faceDescriptor.value), profs, sqrt);
    ScanFirstMax(scores, -1.0, k);
  }

  /** The handler as written. */
  method ProfessorFaceLogin(faceDescriptor: Option<Descriptor>, table: Fetch<Registration>, users: seq<User>, sqrt: real -> real)
    returns (r: Response)
    ensures r == Respond(faceDescriptor, table, users, sqrt)
  {
    if faceDescriptor.None? {
      return MissingDescriptor;
    }
    if table.FetchError? {
      return FetchFailed;
    }
    var professors := ActiveRows(table.rows);
    if |professors| == 0 {
      return NoRegistrations;
    }
    var input := AsArray(faceDescriptor.value);
    ghost var scores := Scores(input, professors, sqrt);
    var bestMatch: Option<nat> := None;
    var bestSimilarity := -1.0;
    var i := 0;
    while i < |professors|
      invariant 0 <= i <= |professors|
      invariant Best(bestMatch, bestSimilarity) == Scan(scores[..i], -1.0)
    {
      assert scores[..i + 1][..i] == scores[..i];
      var stored := professors[i].faceDescriptor;
      if stored.Some? && |AsArray(stored.value)| == |input| {
        var similarity := CosineLoop(input, AsArray(stored.value), sqrt);
        if similarity > bestSimilarity {
          bestSimilarity := similarity;
          bestMatch := Some(i);
        }
      }
      i := i + 1;
    }
    assert scores[..i] == scores;
    if bestMatch.Some? && bestSimilarity >= SimilarityThreshold {
      var userData := LookupUser(users, professors[bestMatch.value].professorId);
      if userData.None? {
        return UserNotFound;
      }
      if userData.value.role != "professor" && userData.value.role != "adviser" {
        return AccessDenied;
      }
      return Matched(bestSimilarity, userData.value);
    }
    return NotRecognized(bestSimilarity);
  }
}
