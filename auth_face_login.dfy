/** POST /api/auth/face-login: the descriptor against active professor
    registrations and then active student registrations. A candidate replaces
    the current best only when its score beats it and reaches 0.7. */
module AuthFaceLogin {
  import opened Common
  import opened Similarity
  import opened BestMatch

  const Threshold: real := 0.7

  datatype User = User(
    id: string, firstName: string, lastName: string, email: string, role: string,
    studentId: Option<string>, employeeId: Option<string>)

  /** The joined `users` of a registration row: null, one object, or an array. */
  datatype Joined = NoUser | OneUser(user: User) | UserArray(users: seq<User>)

  /** A row of `professor_face_registrations` or `student_face_registrations`;
      `ownerId` is its `professor_id` or `student_id`. */
  datatype Registration = Registration(ownerId: string, faceDescriptor: Option<Descriptor>, users: Joined, isActive: bool)

  datatype Kind = Professor | Student

  datatype Response =
    | NotAnArray                                           // 400
    | ProfessorFetchFailed                                 // 500
    | StudentFetchFailed                                   // 500
    | Matched(kind: Kind, user: User, similarity: real)    // 200, matched: true
    | NoMatch                                              // 200, matched: false

  function HttpStatus(r: Response): int
  {
    match r
    case NotAnArray => 400
    case ProfessorFetchFailed => 500
    case StudentFetchFailed => 500
    case _ => 200
  }

  function ActiveRows(rows: seq<Registration>): seq<Registration>
  {
    Filter(rows, (p: Registration) => p.isActive)
  }

  /** The manual fallback `.from('users')...eq('id', ownerId).single()`. */
  function LookupUser(users: seq<User>, id: string): (r: Option<User>)
    ensures r.Some? ==>
              r.value in users && r.value.id == id &&
              forall u :: u in users && u.id == id ==> u == r.value
    ensures (forall u :: u in users ==> u.id != id) ==> r.None?
    ensures forall i :: 0 <= i < |users| && users[i].id == id &&
                        (forall j :: 0 <= j < |users| && j != i ==> users[j].id != id) ==>
              r == Some(users[i])
  {
    var keep := (u: User) => u.id == id;
    SingleFilter(users, keep);
    Single(Filter(users, keep))
  }

  /** The user a row stands for, or None when the loop skips the row: no
      descriptor, a failed fallback lookup, or a joined array. */
  function RowUser(p: Registration, users: seq<User>): Option<User>
  {
    if p.faceDescriptor.None? then None
    else
      match p.users
      case NoUser => LookupUser(users, p.ownerId)
      case OneUser(u) => Some(u)
      case UserArray(_) => None
  }

  /** The stored descriptor is used `as number[]`: an object has no `length`,
      so the length test fails and the score is 0. */
  function StoredSimilarity(input: seq<real>, d: Descriptor, sqrt: real -> real): (r: real)
    ensures d.ObjectDescriptor? || |d.items| != |input| ==> r == 0.0
    ensures d.ArrayDescriptor? && |d.items| == |input| && sqrt(Dot(input, input)) * sqrt(Dot(d.items, d.items)) != 0.0 ==>
              r * (sqrt(Dot(input, input)) * sqrt(Dot(d.items, d.items))) == Dot(input, d.items)
  {
    match d
    case ArrayDescriptor(items) => CosineJointMagnitude(input, items, sqrt)
    case ObjectDescriptor(_) => 0.0
  }

  method StoredSimilarityLoop(input: seq<real>, d: Descriptor, sqrt: real -> real) returns (r: real)
    ensures r == StoredSimilarity(input, d, sqrt)
  {
    if d.ObjectDescriptor? {
      return 0.0;
    }
    r := CosineJointMagnitudeLoop(input, d.items, sqrt);
  }

  /** A row the loop does not skip: who it stands for and its score. */
  datatype Candidate = Candidate(kind: Kind, user: User, similarity: real)

  function CandidateOf(input: seq<real>, p: Registration, users: seq<User>, sqrt: real -> real, kind: Kind)
    : (c: Option<Candidate>)
    ensures c.Some? <==> RowUser(p, users).Some?
  {
    match RowUser(p, users)
    case None => None
    case Some(u) => Some(Candidate(kind, u, StoredSimilarity(input, p.faceDescriptor.value, sqrt)))
  }

  function Candidates(input: seq<real>, rows: seq<Registration>, users: seq<User>, sqrt: real -> real, kind: Kind)
    : (r: seq<Option<Candidate>>)
    ensures |r| == |rows|
    ensures forall i :: 0 <= i < |rows| ==> r[i] == CandidateOf(input, rows[i], users, sqrt, kind)
  {
    seq(|rows|, i requires 0 <= i < |rows| => CandidateOf(input, rows[i], users, sqrt, kind))
  }

  /** Professors first, then students. */
  function AllCandidates(input: seq<real>, profs: seq<Registration>, studs: seq<Registration>, users: seq<User>,
                         sqrt: real -> real): seq<Option<Candidate>>
  {
    Candidates(input, profs, users, sqrt, Professor) + Candidates(input, studs, users, sqrt, Student)
  }

  /** The candidates' scores, as the generic argmax sees them. */
  function Scores(cands: seq<Option<Candidate>>): (r: seq<Option<real>>)
    ensures |r| == |cands|
    ensures forall i :: 0 <= i < |cands| ==> (r[i].Some? <==> cands[i].Some?)
    ensures forall i :: 0 <= i < |cands| && cands[i].Some? ==> r[i].value == cands[i].value.similarity
  {
    seq(|cands|, i requires 0 <= i < |cands| => if cands[i].None? then None else Some(cands[i].value.similarity))
  }

  /** The loop variables `bestMatch` ({type, user}) and `bestSimilarity`. */
  datatype State = State(bestMatch: Option<(Kind, User)>, bestSimilarity: real)

  function Step(st: State, c: Option<Candidate>): (r: State)
    ensures r.bestSimilarity >= st.bestSimilarity
    ensures r != st ==> c.Some? && r.bestSimilarity == c.value.similarity >= Threshold &&
                        r.bestMatch == Some((c.value.kind, c.value.user))
    ensures c.Some? && c.value.similarity >= Threshold && c.value.similarity > st.bestSimilarity ==>
              r.bestSimilarity == c.value.similarity
  {
    if c.Some? && c.value.similarity > st.bestSimilarity && c.value.similarity >= Threshold
    then State(Some((c.value.kind, c.value.user)), c.value.similarity)
    else st
  }

  /** The state after the loops have visited `cands`, from `bestMatch = null, bestSimilarity = 0`. */
  function Run(cands: seq<Option<Candidate>>): (r: State)
    ensures r.bestMatch.None? ==> r.bestSimilarity == 0.0
    ensures r.bestMatch.Some? ==> r.bestSimilarity >= Threshold
    ensures forall i :: 0 <= i < |cands| && cands[i].Some? && cands[i].value.similarity >= Threshold ==>
              cands[i].value.similarity <= r.bestSimilarity
  {
    if cands == [] then State(None, 0.0) else Step(Run(cands[..|cands| - 1]), cands[|cands| - 1])
  }

  lemma ScoresConcat(a: seq<Option<Candidate>>, b: seq<Option<Candidate>>)
    ensures Scores(a + b) == Scores(a) + Scores(b)
  {
    assert forall i :: 0 <= i < |a| ==> (a + b)[i] == a[i];
    assert forall i :: |a| <= i < |a| + |b| ==> (a + b)[i] == b[i - |a|];
  }

  /** The loops' state is the gated argmax over the scores: the same score, and
      a match exactly when the argmax picked a candidate, namely that one. */
  lemma {:induction false} RunIsGatedScan(cands: seq<Option<Candidate>>)
    ensures var st := Run(cands);
            var b := GatedScan(Scores(cands), 0.0, Threshold);
            st.bestSimilarity == b.score &&
            (st.bestMatch.Some? <==> b.index.Some?) &&
            (b.index.Some? ==>
               cands[b.index.value].Some? &&
               st.bestMatch.value == (cands[b.index.value].value.kind, cands[b.index.value].value.user))
    decreases |cands|
  {
    if cands != [] {
      var prefix := cands[..|cands| - 1];
      RunIsGatedScan(prefix);
      assert Scores(cands)[..|cands| - 1] == Scores(prefix);
    }
  }

  function Outcome(input: seq<real>, profs: seq<Registration>, studs: seq<Registration>, users: seq<User>, sqrt: real -> real)
    : (r: Response)
    ensures r.Matched? || r == NoMatch
  {
    var st := Run(AllCandidates(input, profs, studs, users, sqrt));
    match st.bestMatch
    case None => NoMatch
    case Some(m) => Matched(m.0, m.1, st.bestSimilarity)
  }

  function Respond(faceDescriptor: Option<Descriptor>, profTable: Fetch<Registration>, studTable: Fetch<Registration>,
                   users: seq<User>, sqrt: real -> real): (r: Response)
    ensures r == NotAnArray <==> faceDescriptor.None? || faceDescriptor.value.ObjectDescriptor?
    ensures r == ProfessorFetchFailed <==>
              faceDescriptor.Some? && faceDescriptor.value.ArrayDescriptor? && profTable.FetchError?
    ensures r == StudentFetchFailed <==>
              faceDescriptor.Some? && faceDescriptor.value.ArrayDescriptor? && profTable.Fetched? && studTable.FetchError?
    ensures faceDescriptor.Some? && faceDescriptor.value.ArrayDescriptor? && profTable.Fetched? && studTable.Fetched? ==>
              r == Outcome(faceDescriptor.value.items, ActiveRows(profTable.rows), ActiveRows(studTable.rows), users, sqrt)
  {
    if faceDescriptor.None? || faceDescriptor.value.ObjectDescriptor? then NotAnArray
    else if profTable.FetchError? then ProfessorFetchFailed
    else if studTable.FetchError? then StudentFetchFailed
    else Outcome(faceDescriptor.value.items, ActiveRows(profTable.rows), ActiveRows(studTable.rows), users, sqrt)
  }

  /** Gating every comparison by the threshold picks what a plain argmax over
      professors then students, followed by one `>= 0.7` test, would pick:
      a match is a considered row with the highest score of all, at least 0.7;
      no match means every considered row scored below 0.7. */
  lemma OutcomeIsThresholdedArgmax(input: seq<real>, profs: seq<Registration>, studs: seq<Registration>,
                                   users: seq<User>, sqrt: real -> real)
    ensures var cands := AllCandidates(input, profs, studs, users, sqrt);
            var r := Outcome(input, profs, studs, users, sqrt);
            (r.Matched? ==>
               r.similarity >= Threshold &&
               (exists k :: 0 <= k < |cands| && cands[k] == Some(Candidate(r.kind, r.user, r.similarity))) &&
               forall i :: 0 <= i < |cands| && cands[i].Some? ==> cands[i].value.similarity <= r.similarity) &&
            (r == NoMatch ==> forall i :: 0 <= i < |cands| && cands[i].Some? ==> cands[i].value.similarity < Threshold)
  {
    var cands := AllCandidates(input, profs, studs, users, sqrt);
    var scores := Scores(cands);
    RunIsGatedScan(cands);
    GatedScanIsThresholdedScan(scores, 0.0, Threshold);
    var b := Scan(scores, 0.0);
    if b.index.Some? && b.score >= Threshold {
      assert cands[b.index.value] == Some(Candidate(Outcome(input, profs, studs, users, sqrt).kind,
        Outcome(input, profs, studs, users, sqrt).user, Outcome(input, profs, studs, users, sqrt).similarity));
    }
    forall i | 0 <= i < |cands| && cands[i].Some?
      ensures scores[i].Some? && scores[i].value == cands[i].value.similarity
    {
    }
  }

  /** Professors are scanned first, so a student wins only with a score
      strictly above every considered professor's. */
  lemma ProfessorKeptOnTie(input: seq<real>, profs: seq<Registration>, studs: seq<Registration>,
                           users: seq<User>, sqrt: real -> real)
    ensures var r := Outcome(input, profs, studs, users, sqrt);
            var pc := Candidates(input, profs, users, sqrt, Professor);
            r.Matched? && r.kind == Student ==>
              forall i :: 0 <= i < |pc| && pc[i].Some? ==> pc[i].value.similarity < r.similarity
  {
    var pc := Candidates(input, profs, users, sqrt, Professor);
    var sc := Candidates(input, studs, users, sqrt, Student);
    var cands := pc + sc;
    var scores := Scores(cands);
    RunIsGatedScan(cands);
    GatedScanIsThresholdedScan(scores, 0.0, Threshold);
    ScoresConcat(pc, sc);
    ScanConcatTie(Scores(pc), Scores(sc), 0.0);
    var b := Scan(scores, 0.0);
    if b.index.Some? && b.score >= Threshold && b.index.value < |pc| {
      assert cands[b.index.value] == pc[b.index.value];
    }
  }

  /** The body of the handler's loops, on one row. */
  method Consider(input: seq<real>, row: Registration, users: seq<User>, sqrt: real -> real, kind: Kind, st: State)
    returns (next: State)
    ensures next == Step(st, CandidateOf(input, row, users, sqrt, kind))
  {
    next := st;
    var user := RowUser(row, users);
    if user.None? {
      return;
    }
    var similarity := StoredSimilarityLoop(input, row.faceDescriptor.value, sqrt);
    if similarity > st.bestSimilarity && similarity >= Threshold {
      next := State(Some((kind, user.value)), similarity);
    }
  }

  /** One of the handler's two loops, continuing from the state the rows
      before it left behind. */
  method ScanRows(input: seq<real>, rows: seq<Registration>, users: seq<User>, sqrt: real -> real, kind: Kind,
                  ghost before: seq<Option<Candidate>>, st: State)
    returns (next: State)
    requires st == Run(before)
    ensures next == Run(before + Candidates(input, rows, users, sqrt, kind))
  {
    ghost var cands := before + Candidates(input, rows, users, sqrt, kind);
    next := st;
    assert cands[..|before|] == before;
    var i := 0;
    while i < |rows|
      invariant 0 <= i <= |rows|
      invariant next == Run(cands[..|before| + i])
    {
      assert cands[..|before| + i + 1][..|before| + i] == cands[..|before| + i];
      assert cands[|before| + i] == CandidateOf(input, rows[i], users, sqrt, kind);
      next := Consider(input, rows[i], users, sqrt, kind, next);
      i := i + 1;
    }
    assert cands[..|before| + i] == cands;
  }

  /** The handler as written: the two loops share `bestMatch` and `bestSimilarity`. */
  method AuthFaceLogin(faceDescriptor: Option<Descriptor>, profTable: Fetch<Registration>, studTable: Fetch<Registration>,
                       users: seq<User>, sqrt: real -> real) returns (r: Response)
    ensures r == Respond(faceDescriptor, profTable, studTable, users, sqrt)
  {
    if faceDescriptor.None? || !faceDescriptor.value.ArrayDescriptor? {
      return NotAnArray;
    }
    if profTable.FetchError? {
      return ProfessorFetchFailed;
    }
    if studTable.FetchError? {
      return StudentFetchFailed;
    }
    var input := faceDescriptor.value.items;
    var profs := ActiveRows(profTable.rows);
    var studs := ActiveRows(studTable.rows);
    ghost var pc := Candidates(input, profs, users, sqrt, Professor);
    var st := ScanRows(input, profs, users, sqrt, Professor, [], State(None, 0.0));
    assert [] + pc == pc;
    st := ScanRows(input, studs, users, sqrt, Student, pc, st);
    if st.bestMatch.Some? {
      return Matched(st.bestMatch.value.0, st.bestMatch.value.1, st.bestSimilarity);
    }
    return NoMatch;
  }
}
