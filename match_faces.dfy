/** POST /api/attendance/match-faces: every face of one camera frame against
    the active registrations of a section, assigned greedily and one-to-one.
    Faces are handled in request order; each takes the best-scoring student
    not yet claimed by an earlier face, if that score is at least 0.70. */
module MatchFaces {
  import opened Common
  import opened Similarity
  import opened BestMatch

  const SimilarityThreshold: real := 0.70

  /** One entry of the request's `faces` array; `embedding` is None when the
      field is missing or null (then `Object.values` throws). */
  datatype Face = Face(index: int, embedding: Option<Descriptor>)

  /** A row of `student_face_registrations`. */
  datatype Registration = Registration(
    id: string, studentNumber: string, firstName: string, lastName: string,
    faceDescriptor: Option<Descriptor>, isActive: bool, sectionId: string)

  /** A student after preprocessing, descriptor flattened to an array. */
  datatype Candidate = Candidate(
    id: string, studentNumber: string, firstName: string, lastName: string, descriptorArray: seq<real>)

  /** A face with its descriptor as an array. */
  datatype FaceInput = FaceInput(index: int, descriptor: seq<real>)

  /** One element of `matches`. */
  datatype Entry =
    | Matched(faceIndex: int, student: Candidate, confidence: real)
    | Unmatched(faceIndex: int, score: Option<real>)           // `confidence`, None when undefined
    | NoRegisteredFaces(faceIndex: int)                         // error: 'No registered faces in section'

  datatype Response =
    | FacesRequired                                             // 400, matches: []
    | FetchFailed                                               // 400, matches: []
    | InternalError                                             // 500, matches: []
    | NoRegisteredStudents(matches: seq<Entry>)                 // 200, error message, per-face entries
    | Success(matches: seq<Entry>, totalFaces: nat, totalMatched: nat)

  function HttpStatus(r: Response): int
  {
    match r
    case FacesRequired => 400
    case FetchFailed => 400
    case InternalError => 500
    case _ => 200
  }

  // ------------------------------------------------------------ the query

  /** `sectionId` takes part in the query only when it is truthy (present and non-empty). */
  predicate InQuery(s: Registration, sectionId: Option<string>)
  {
    s.isActive && (sectionId.None? || sectionId.value == "" || s.sectionId == sectionId.value)
  }

  function Query(rows: seq<Registration>, sectionId: Option<string>): seq<Registration>
  {
    Filter(rows, (s: Registration) => InQuery(s, sectionId))
  }

  // ------------------------------------------------------- preprocessing

  function ToCandidate(s: Registration): Candidate
    requires s.faceDescriptor.Some?
  {
    Candidate(s.id, s.studentNumber, s.firstName, s.lastName, AsArray(s.faceDescriptor.value))
  }

  /** `students.map(...).filter(Boolean)`: a student without a descriptor is
      dropped; an object descriptor is flattened with `Object.values`. */
  function Preprocess(students: seq<Registration>): (r: seq<Candidate>)
    ensures |r| <= |students|
    ensures forall s :: s in students && s.faceDescriptor.Some? ==> ToCandidate(s) in r
    ensures forall c :: c in r ==> exists s :: s in students && s.faceDescriptor.Some? && c == ToCandidate(s)
  {
    if students == [] then []
    else
      var prev := Preprocess(students[..|students| - 1]);
      var last := students[|students| - 1];
      assert forall s :: s in students ==> s in students[..|students| - 1] || s == last;
      prev + (if last.faceDescriptor.Some? then [ToCandidate(last)] else [])
  }

  predicate HasDescriptor(s: Registration) { s.faceDescriptor.Some? }

  /** Order and multiplicity: the candidates are the students with a
      descriptor, in query order, one candidate each. */
  lemma {:induction false} PreprocessInOrder(students: seq<Registration>)
    ensures var kept := Filter(students, HasDescriptor);
            |Preprocess(students)| == |kept| &&
            forall i :: 0 <= i < |kept| ==> kept[i].faceDescriptor.Some? && Preprocess(students)[i] == ToCandidate(kept[i])
  {
    if students != [] {
      var p, last := students[..|students| - 1], students[|students| - 1];
      PreprocessInOrder(p);
      var kept, keptP := Filter(students, HasDescriptor), Filter(p, HasDescriptor);
      assert kept == keptP + (if HasDescriptor(last) then [last] else []);
      var r, rP := Preprocess(students), Preprocess(p);
      assert r == rP + (if HasDescriptor(last) then [ToCandidate(last)] else []);
      forall i | 0 <= i < |kept|
        ensures kept[i].faceDescriptor.Some? && r[i] == ToCandidate(kept[i])
      {
        if i < |keptP| {
          assert kept[i] == keptP[i] && r[i] == rP[i];
        }
      }
    }
  }

  /** Every face carries an embedding, so `Object.values` does not throw. */
  predicate Embedded(faces: seq<Face>)
  {
    forall f :: f in faces ==> f.embedding.Some?
  }

  /** The request's faces with descriptors flattened; only used when every
      face carries an embedding. */
  function ToInputs(faces: seq<Face>): (r: seq<FaceInput>)
    requires forall f :: f in faces ==> f.embedding.Some?
    ensures |r| == |faces|
    ensures forall i :: 0 <= i < |faces| ==>
              r[i] == FaceInput(faces[i].index, AsArray(faces[i].embedding.value))
  {
    seq(|faces|, i requires 0 <= i < |faces| => FaceInput(faces[i].index, AsArray(faces[i].embedding.value)))
  }

  // ------------------------------------------------- the greedy assignment

  /** The score of every candidate for one face; a candidate already claimed
      by an earlier face is skipped (None). */
  function StepScores(input: seq<real>, cands: seq<Candidate>, taken: set<string>, sqrt: real -> real)
    : (r: seq<Option<real>>)
    ensures |r| == |cands|
    ensures forall k :: 0 <= k < |cands| ==>
              r[k] == if cands[k].id in taken then None else Some(Cosine(input, cands[k].descriptorArray, sqrt))
  {
    seq(|cands|, k requires 0 <= k < |cands| =>
      if cands[k].id in taken then None else Some(Cosine(input, cands[k].descriptorArray, sqrt)))
  }

  predicate Available(c: Candidate, taken: set<string>) { c.id !in taken }

  function Sim(face: FaceInput, c: Candidate, sqrt: real -> real): real
  {
    Cosine(face.descriptor, c.descriptorArray, sqrt)
  }

  /** The decision for one face, given the ids already claimed. */
  function Decide(face: FaceInput, cands: seq<Candidate>, taken: set<string>, sqrt: real -> real): (e: Entry)
    ensures e.faceIndex == face.index && !e.NoRegisteredFaces?
    ensures e.Matched? <==>
              exists k :: 0 <= k < |cands| && Available(cands[k], taken) && Sim(face, cands[k], sqrt) >= SimilarityThreshold
    ensures e.Matched? ==>
              e.confidence >= SimilarityThreshold && Available(e.student, taken) &&
              exists k :: 0 <= k < |cands| && cands[k] == e.student && Sim(face, cands[k], sqrt) == e.confidence &&
                (forall j :: 0 <= j < |cands| && Available(cands[j], taken) ==> Sim(face, cands[j], sqrt) <= e.confidence) &&
                (forall j :: 0 <= j < k && Available(cands[j], taken) ==> Sim(face, cands[j], sqrt) < e.confidence)
    ensures e.Unmatched? ==>
              (forall j :: 0 <= j < |cands| && Available(cands[j], taken) ==> Sim(face, cands[j], sqrt) < SimilarityThreshold) &&
              (e.score.Some? <==>
                 exists j :: 0 <= j < |cands| && Available(cands[j], taken) && Sim(face, cands[j], sqrt) > 0.0) &&
              (e.score.Some? ==>
                 0.0 < e.score.value < SimilarityThreshold &&
                 (exists k :: 0 <= k < |cands| && Available(cands[k], taken) && Sim(face, cands[k], sqrt) == e.score.value) &&
                 forall j :: 0 <= j < |cands| && Available(cands[j], taken) ==> Sim(face, cands[j], sqrt) <= e.score.value)
  {
    var scores := StepScores(face.descriptor, cands, taken, sqrt);
    var b := Scan(scores, -1.0);
    ScanReaches(scores, -1.0, SimilarityThreshold);
    assert forall j :: 0 <= j < |cands| && Available(cands[j], taken) ==> scores[j] == Some(Sim(face, cands[j], sqrt));
    if b.index.Some? && b.score >= SimilarityThreshold then
      Matched(face.index, cands[b.index.value], b.score)
    else
      Unmatched(face.index, if b.score > 0.0 then Some(b.score) else None)
  }

  /** The state after the outer loop has handled a prefix of the faces. */
  datatype Assignment = Assignment(entries: seq<Entry>, taken: set<string>)

  predicate MatchedId(e: Entry, id: string) { e.Matched? && e.student.id == id }

  /** `for (const face of faces) { ... matchedStudentIds.add(...); matches.push(...) }` */
  function Greedy(faces: seq<FaceInput>, cands: seq<Candidate>, sqrt: real -> real): (a: Assignment)
    ensures |a.entries| == |faces|
    decreases |faces|
  {
    if faces == [] then Assignment([], {})
    else
      var prev := Greedy(faces[..|faces| - 1], cands, sqrt);
      var e := Decide(faces[|faces| - 1], cands, prev.taken, sqrt);
      Assignment(prev.entries + [e], if e.Matched? then prev.taken + {e.student.id} else prev.taken)
  }

  /** The entries are aligned with the faces, the taken set holds exactly the
      matched ids, and no id is matched twice. */
  ghost predicate Consistent(faces: seq<FaceInput>, a: Assignment)
  {
    |a.entries| == |faces| &&
    (forall i :: 0 <= i < |faces| ==> a.entries[i].faceIndex == faces[i].index && !a.entries[i].NoRegisteredFaces?) &&
    (forall id :: id in a.taken <==> exists i :: 0 <= i < |faces| && MatchedId(a.entries[i], id)) &&
    (forall i, j :: 0 <= i < j < |faces| && a.entries[i].Matched? && a.entries[j].Matched? ==>
       a.entries[i].student.id != a.entries[j].student.id)
  }

  /** The outer loop gives one entry per face in input order, carrying the
      face's index; the claimed ids are the matched ones; no student is
      matched to two faces. */
  lemma {:induction false} GreedyConsistent(faces: seq<FaceInput>, cands: seq<Candidate>, sqrt: real -> real)
    ensures Consistent(faces, Greedy(faces, cands, sqrt))
    decreases |faces|
  {
    if faces != [] {
      var prev := Greedy(faces[..|faces| - 1], cands, sqrt);
      GreedyConsistent(faces[..|faces| - 1], cands, sqrt);
      Extend(faces, prev, Decide(faces[|faces| - 1], cands, prev.taken, sqrt));
    }
  }

  /** One step of the outer loop keeps the assignment consistent. */
  lemma Extend(faces: seq<FaceInput>, prev: Assignment, e: Entry)
    requires faces != [] && Consistent(faces[..|faces| - 1], prev)
    requires e.faceIndex == faces[|faces| - 1].index && !e.NoRegisteredFaces?
    requires e.Matched? ==> e.student.id !in prev.taken
    ensures Consistent(faces, Assignment(prev.entries + [e], if e.Matched? then prev.taken + {e.student.id} else prev.taken))
  {
    var a := Assignment(prev.entries + [e], if e.Matched? then prev.taken + {e.student.id} else prev.taken);
    var n := |faces| - 1;
    assert forall i :: 0 <= i < n ==> a.entries[i] == prev.entries[i] && faces[..n][i] == faces[i];
    assert a.entries[n] == e;
    forall id
      ensures id in a.taken <==> exists i :: 0 <= i < |faces| && MatchedId(a.entries[i], id)
    {
      if id in a.taken && !(e.Matched? && e.student.id == id) {
        var i :| 0 <= i < n && MatchedId(prev.entries[i], id);
        assert MatchedId(a.entries[i], id);
      }
      if exists i :: 0 <= i < |faces| && MatchedId(a.entries[i], id) {
        var i :| 0 <= i < |faces| && MatchedId(a.entries[i], id);
        if i < n {
          assert MatchedId(prev.entries[i], id);
        }
      }
    }
    forall i, j | 0 <= i < j < |faces| && a.entries[i].Matched? && a.entries[j].Matched?
      ensures a.entries[i].student.id != a.entries[j].student.id
    {
      if j == n {
        assert MatchedId(prev.entries[i], prev.entries[i].student.id);
      }
    }
  }

  /** Converting one more face appends its input. */
  lemma ToInputsSnoc(fs: seq<Face>, n: nat)
    requires n < |fs| && forall k :: 0 <= k <= n ==> fs[k].embedding.Some?
    ensures ToInputs(fs[..n + 1]) == ToInputs(fs[..n]) + [FaceInput(fs[n].index, AsArray(fs[n].embedding.value))]
  {
    assert fs[..n + 1][..n] == fs[..n];
  }

  /** Handling one more face decides it against the ids taken so far and
      appends the decision. */
  lemma GreedySnoc(faces: seq<FaceInput>, x: FaceInput, cands: seq<Candidate>, sqrt: real -> real)
    ensures var prev := Greedy(faces, cands, sqrt);
            var e := Decide(x, cands, prev.taken, sqrt);
            Greedy(faces + [x], cands, sqrt) ==
              Assignment(prev.entries + [e], if e.Matched? then prev.taken + {e.student.id} else prev.taken)
  {
    assert (faces + [x])[..|faces|] == faces;
  }

  /** Dropping the last face drops its entry. */
  lemma GreedyDropLast(faces: seq<FaceInput>, cands: seq<Candidate>, sqrt: real -> real)
    requires faces != []
    ensures Greedy(faces[..|faces| - 1], cands, sqrt).entries == Greedy(faces, cands, sqrt).entries[..|faces| - 1]
  {
    var prev := Greedy(faces[..|faces| - 1], cands, sqrt);
    var e := Decide(faces[|faces| - 1], cands, prev.taken, sqrt);
    assert Greedy(faces, cands, sqrt).entries == prev.entries + [e];
    assert (prev.entries + [e])[..|prev.entries|] == prev.entries;
  }

  /** The outer loop never revises the entry of an earlier face. */
  lemma {:induction false} GreedyPrefix(faces: seq<FaceInput>, cands: seq<Candidate>, sqrt: real -> real, k: nat)
    requires k <= |faces|
    ensures Greedy(faces[..k], cands, sqrt).entries == Greedy(faces, cands, sqrt).entries[..k]
    decreases |faces|
  {
    if k < |faces| {
      var faces' := faces[..|faces| - 1];
      assert faces'[..k] == faces[..k];
      GreedyPrefix(faces', cands, sqrt, k);
      GreedyDropLast(faces, cands, sqrt);
      assert Greedy(faces, cands, sqrt).entries[..|faces'|][..k] == Greedy(faces, cands, sqrt).entries[..k];
    } else {
      assert faces[..k] == faces;
    }
  }

  /** Entry i is the decision for face i over the students that the faces
      before it left available. */
  lemma GreedyEntry(faces: seq<FaceInput>, cands: seq<Candidate>, sqrt: real -> real, i: nat)
    requires i < |faces|
    ensures Greedy(faces, cands, sqrt).entries[i] ==
              Decide(faces[i], cands, Greedy(faces[..i], cands, sqrt).taken, sqrt)
  {
    var upTo := faces[..i + 1];
    GreedyPrefix(faces, cands, sqrt, i + 1);
    GreedyLast(upTo, cands, sqrt);
    assert upTo[..i] == faces[..i] && upTo[i] == faces[i];
  }

  /** The last entry is the last face's decision. */
  lemma GreedyLast(faces: seq<FaceInput>, cands: seq<Candidate>, sqrt: real -> real)
    requires faces != []
    ensures Greedy(faces, cands, sqrt).entries[|faces| - 1] ==
              Decide(faces[|faces| - 1], cands, Greedy(faces[..|faces| - 1], cands, sqrt).taken, sqrt)
  {
  }

  /** A student is claimed before face i when an earlier entry matched it. */
  predicate ClaimedBefore(entries: seq<Entry>, i: nat, id: string)
  {
    exists j :: 0 <= j < i && j < |entries| && MatchedId(entries[j], id)
  }

  /** The ids claimed when the outer loop reaches face i are those the earlier entries matched. */
  lemma TakenBefore(faces: seq<FaceInput>, cands: seq<Candidate>, sqrt: real -> real, i: nat)
    requires i < |faces|
    ensures forall id :: id in Greedy(faces[..i], cands, sqrt).taken <==>
              ClaimedBefore(Greedy(faces, cands, sqrt).entries, i, id)
  {
    GreedyPrefix(faces, cands, sqrt, i);
    GreedyConsistent(faces[..i], cands, sqrt);
    forall id
      ensures id in Greedy(faces[..i], cands, sqrt).taken <==> ClaimedBefore(Greedy(faces, cands, sqrt).entries, i, id)
    {
      ClaimedInPrefix(Greedy(faces[..i], cands, sqrt), Greedy(faces, cands, sqrt).entries, i, id);
    }
  }

  lemma ClaimedInPrefix(before: Assignment, es: seq<Entry>, i: nat, id: string)
    requires i <= |es| && before.entries == es[..i]
    requires id in before.taken <==> exists j :: 0 <= j < |before.entries| && MatchedId(before.entries[j], id)
    ensures id in before.taken <==> ClaimedBefore(es, i, id)
  {
    if id in before.taken {
      var j :| 0 <= j < |before.entries| && MatchedId(before.entries[j], id);
      assert es[j] == before.entries[j];
    }
    if ClaimedBefore(es, i, id) {
      var j :| 0 <= j < i && j < |es| && MatchedId(es[j], id);
      assert before.entries[j] == es[j];
    }
  }

  /** Face i is matched to the best-scoring student that no earlier face
      claimed, the earliest such student on a tie, and only when that score
      reaches 0.70; an unmatched face scored below 0.70 against every student
      still available to it. */
  lemma GreedyDecision(faces: seq<FaceInput>, cands: seq<Candidate>, sqrt: real -> real, i: nat)
    requires i < |faces|
    ensures var es := Greedy(faces, cands, sqrt).entries;
            es[i].Matched? ==>
              es[i].confidence >= SimilarityThreshold &&
              !ClaimedBefore(es, i, es[i].student.id) &&
              exists k :: 0 <= k < |cands| && cands[k] == es[i].student &&
                Sim(faces[i], cands[k], sqrt) == es[i].confidence &&
                (forall j :: 0 <= j < |cands| && !ClaimedBefore(es, i, cands[j].id) ==>
                   Sim(faces[i], cands[j], sqrt) <= es[i].confidence) &&
                (forall j :: 0 <= j < k && !ClaimedBefore(es, i, cands[j].id) ==>
                   Sim(faces[i], cands[j], sqrt) < es[i].confidence)
    ensures var es := Greedy(faces, cands, sqrt).entries;
            es[i].Unmatched? ==>
              forall j :: 0 <= j < |cands| && !ClaimedBefore(es, i, cands[j].id) ==>
                Sim(faces[i], cands[j], sqrt) < SimilarityThreshold
  {
    GreedyEntry(faces, cands, sqrt, i);
    TakenBefore(faces, cands, sqrt, i);
  }

  function CountMatched(entries: seq<Entry>): (n: nat)
    ensures n <= |entries|
  {
    if entries == [] then 0
    else CountMatched(entries[..|entries| - 1]) + (if entries[|entries| - 1].Matched? then 1 else 0)
  }

  // ---------------------------------------------------------- the handler

  /** The handler's answer for faces (None when missing or not an array), the
      optional section, and the registrations table. */
  function Respond(faces: Option<seq<Face>>, sectionId: Option<string>, table: Fetch<Registration>, sqrt: real -> real)
    : (r: Response)
    ensures r == FacesRequired <==> faces.None? || faces.value == []
    ensures r == FetchFailed <==> faces.Some? && faces.value != [] && table.FetchError?
    ensures r.NoRegisteredStudents? <==>
              faces.Some? && faces.value != [] && table.Fetched? && Query(table.rows, sectionId) == []
    ensures r == InternalError <==>
              faces.Some? && faces.value != [] && table.Fetched? && Query(table.rows, sectionId) != [] &&
              !Embedded(faces.value)
    ensures r.Success? <==>
              faces.Some? && faces.value != [] && table.Fetched? && Query(table.rows, sectionId) != [] &&
              Embedded(faces.value)
    ensures r.Success? ==>
              Embedded(faces.value) &&
              r.matches == Greedy(ToInputs(faces.value), Preprocess(Query(table.rows, sectionId)), sqrt).entries
    ensures r.NoRegisteredStudents? ==>
              |r.matches| == |faces.value| &&
              forall i :: 0 <= i < |faces.value| ==> r.matches[i] == NoRegisteredFaces(faces.value[i].index)
    ensures r.Success? ==>
              r.totalFaces == |faces.value| == |r.matches| &&
              r.totalMatched == CountMatched(r.matches) &&
              (forall i :: 0 <= i < |r.matches| ==>
                 r.matches[i].faceIndex == faces.value[i].index && !r.matches[i].NoRegisteredFaces?) &&
              (forall i, j :: 0 <= i < j < |r.matches| && r.matches[i].Matched? && r.matches[j].Matched? ==>
                 r.matches[i].student.id != r.matches[j].student.id)
  {
    if faces.None? || faces.value == [] then FacesRequired
    else if table.FetchError? then FetchFailed
    else
      var students := Query(table.rows, sectionId);
      if students == [] then
        NoRegisteredStudents(seq(|faces.value|, i requires 0 <= i < |faces.value| => NoRegisteredFaces(faces.value[i].index)))
      else if !Embedded(faces.value) then InternalError
      else
        var a := Greedy(ToInputs(faces.value), Preprocess(students), sqrt);
        GreedyConsistent(ToInputs(faces.value), Preprocess(students), sqrt);
        Success(a.entries, |faces.value|, CountMatched(a.entries))
  }

  /** The handler as written: preprocessing, then the two nested loops. */
  method MatchFaces(faces: Option<seq<Face>>, sectionId: Option<string>, table: Fetch<Registration>, sqrt: real -> real)
    returns (r: Response)
    ensures r == Respond(faces, sectionId, table, sqrt)
  {
    if faces.None? || |faces.value| == 0 {
      return FacesRequired;
    }
    if table.FetchError? {
      return FetchFailed;
    }
    var students := Query(table.rows, sectionId);
    if |students| == 0 {
      return NoRegisteredStudents(seq(|faces.value|, i requires 0 <= i < |faces.value| => NoRegisteredFaces(faces.value[i].index)));
    }
    var cands := Preprocess(students);
    var complete, a := AssignLoop(faces.value, cands, sqrt);
    if !complete {
      return InternalError;
    }
    return Success(a.entries, |faces.value|, CountMatched(a.entries));
  }

  /** The outer loop: `complete` is false when a face without an embedding
      made `Object.values` throw. */
  method AssignLoop(fs: seq<Face>, cands: seq<Candidate>, sqrt: real -> real)
    returns (complete: bool, a: Assignment)
    ensures complete <==> forall f :: f in fs ==> f.embedding.Some?
    ensures complete ==> a == Greedy(ToInputs(fs), cands, sqrt)
  {
    var matchedStudentIds: set<string> := {};
    var matches: seq<Entry> := [];
    var fi := 0;
    while fi < |fs|
      invariant 0 <= fi <= |fs|
      invariant forall k :: 0 <= k < fi ==> fs[k].embedding.Some?
      invariant Assignment(matches, matchedStudentIds) == Greedy(ToInputs(fs[..fi]), cands, sqrt)
    {
      var face := fs[fi];
      if face.embedding.None? {
        return false, Assignment([], {});
      }
      var input := AsArray(face.embedding.value);
      var e := DecideLoop(FaceInput(face.index, input), cands, matchedStudentIds, sqrt);
      ToInputsSnoc(fs, fi);
      GreedySnoc(ToInputs(fs[..fi]), FaceInput(face.index, input), cands, sqrt);
      if e.Matched? {
        matchedStudentIds := matchedStudentIds + {e.student.id};
      }
      matches := matches + [e];
      fi := fi + 1;
    }
    assert fs[..fi] == fs;
    return true, Assignment(matches, matchedStudentIds);
  }

  /** The inner loop and the decision after it, for one face. */
  method DecideLoop(face: FaceInput, cands: seq<Candidate>, matchedStudentIds: set<string>, sqrt: real -> real)
    returns (e: Entry)
    ensures e == Decide(face, cands, matchedStudentIds, sqrt)
  {
    ghost var scores := StepScores(face.descriptor, cands, matchedStudentIds, sqrt);
    var bestMatch: Option<nat> := None;
    var bestSimilarity := -1.0;
    var si := 0;
    while si < |cands|
      invariant 0 <= si <= |cands|
      invariant Best(bestMatch, bestSimilarity) == Scan(scores[..si], -1.0)
    {
      assert scores[..si + 1][..si] == scores[..si];
      if cands[si].id !in matchedStudentIds {
        var similarity := CosineLoop(face.descriptor, cands[si].descriptorArray, sqrt);
        if similarity > bestSimilarity {
          bestSimilarity := similarity;
          bestMatch := Some(si);
        }
      }
      si := si + 1;
    }
    assert scores[..si] == scores;
    if bestMatch.Some? && bestSimilarity >= SimilarityThreshold {
      e := Matched(face.index, cands[bestMatch.value], bestSimilarity);
    } else {
      e := Unmatched(face.index, if bestSimilarity > 0.0 then Some(bestSimilarity) else None);
    }
  }
}
