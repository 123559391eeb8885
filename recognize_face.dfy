/** recognize_face.py: the first face found in an image against every user of
    the local embeddings file, accepted when the best score exceeds 0.75. */
module RecognizeFace {
  import opened Common
  import opened Similarity
  import opened BestMatch

  const DefaultThreshold: real := 0.75

  /** An entry of `embeddings.json`. */
  datatype StoredUser = StoredUser(name: string, studentId: string, embedding: seq<real>)

  /** What the script reports. `Crashed` is the `ValueError` numpy raises when
      an embedding's length differs from the new face's. */
  datatype Outcome =
    | ImageNotFound
    | NoFaceDetected
    | Crashed
    | MatchFound(user: StoredUser, similarity: real)
    | NoMatch(bestSimilarity: real)

  /** A user's score; None when it is NaN (a zero vector), which no `>` accepts. */
  function Score(embedding: seq<real>, u: StoredUser, sqrt: real -> real): (r: Option<real>)
    ensures r.Some? <==> |u.embedding| == |embedding| &&
                         sqrt(Dot(embedding, embedding)) * sqrt(Dot(u.embedding, u.embedding)) != 0.0
    ensures r.Some? ==>
              r.value * (sqrt(Dot(embedding, embedding)) * sqrt(Dot(u.embedding, u.embedding))) ==
              Dot(embedding, u.embedding)
  {
    match NumpyCosine(embedding, u.embedding, sqrt)
    case Some(Finite(v)) => Some(v)
    case _ => None
  }

  function Scores(embedding: seq<real>, users: seq<StoredUser>, sqrt: real -> real): (r: seq<Option<real>>)
    ensures |r| == |users|
    ensures forall i :: 0 <= i < |users| ==> r[i] == Score(embedding, users[i], sqrt)
  {
    seq(|users|, i requires 0 <= i < |users| => Score(embedding, users[i], sqrt))
  }

  predicate SomeLengthDiffers(embedding: seq<real>, users: seq<StoredUser>)
  {
    exists i :: 0 <= i < |users| && |users[i].embedding| != |embedding|
  }

  /** The script's result for an image that `cv2.imread` decoded (`imageRead`),
      the embeddings the extractor returned for it (`faces`) and the file's users. */
  function Recognize(imageRead: bool, faces: seq<seq<real>>, users: seq<StoredUser>, threshold: real, sqrt: real -> real)
    : (r: Outcome)
    ensures !imageRead ==> r == ImageNotFound
    ensures imageRead && faces == [] ==> r == NoFaceDetected
    ensures imageRead && faces != [] ==> (r == Crashed <==> SomeLengthDiffers(faces[0], users))
  {
    if !imageRead then ImageNotFound
    else if faces == [] then NoFaceDetected
    else if SomeLengthDiffers(faces[0], users) then Crashed
    else
      var b := Scan(Scores(faces[0], users, sqrt), 0.0);
      if b.index.Some? && b.score > threshold then MatchFound(users[b.index.value], b.score)
      else NoMatch(b.score)
  }

  /** With a non-negative threshold, a match is reported exactly when some
      user's score exceeds it; the reported user is the first with the highest
      score, and a failed search reports a best score no user beats. */
  lemma RecognizeDecision(faces: seq<seq<real>>, users: seq<StoredUser>, threshold: real, sqrt: real -> real)
    requires faces != [] && !SomeLengthDiffers(faces[0], users) && threshold >= 0.0
    ensures var r := Recognize(true, faces, users, threshold, sqrt);
            var scores := Scores(faces[0], users, sqrt);
            (r.MatchFound? <==> exists i :: 0 <= i < |users| && scores[i].Some? && scores[i].value > threshold) &&
            (r.MatchFound? ==>
               exists k :: 0 <= k < |users| && users[k] == r.user && scores[k] == Some(r.similarity) &&
                 (forall i :: 0 <= i < |users| && scores[i].Some? ==> scores[i].value <= r.similarity) &&
                 (forall i :: 0 <= i < k && scores[i].Some? ==> scores[i].value < r.similarity)) &&
            (r.NoMatch? ==>
               0.0 <= r.bestSimilarity <= threshold &&
               (r.bestSimilarity == 0.0 || exists k :: 0 <= k < |users| && scores[k] == Some(r.bestSimilarity)) &&
               forall i :: 0 <= i < |users| && scores[i].Some? ==> scores[i].value <= r.bestSimilarity)
  {
    var scores := Scores(faces[0], users, sqrt);
    var b := Scan(scores, 0.0);
    if exists i :: 0 <= i < |users| && scores[i].Some? && scores[i].value > threshold {
      var i :| 0 <= i < |users| && scores[i].Some? && scores[i].value > threshold;
      assert b.score >= scores[i].value;
    }
  }

  /** An all-zero new embedding scores NaN against everyone, so nobody matches
      and the best similarity stays 0. */
  lemma ZeroEmbeddingNeverMatches(faces: seq<seq<real>>, users: seq<StoredUser>, threshold: real, sqrt: real -> real)
    requires IsSqrt(sqrt) && faces != [] && IsZeroVector(faces[0]) && !SomeLengthDiffers(faces[0], users)
    requires threshold >= 0.0
    ensures Recognize(true, faces, users, threshold, sqrt) == NoMatch(0.0)
  {
    var scores := Scores(faces[0], users, sqrt);
    forall i | 0 <= i < |users|
      ensures scores[i].None?
    {
      NumpyCosineNaN(faces[0], users[i].embedding, sqrt);
    }
  }

  /** The script as written: early returns, then the loop over the users. */
  method RecognizeFace(imageRead: bool, faces: seq<seq<real>>, users: seq<StoredUser>, threshold: real, sqrt: real -> real)
    returns (r: Outcome)
    ensures r == Recognize(imageRead, faces, users, threshold, sqrt)
  {
    if !imageRead {
      return ImageNotFound;
    }
    if faces == [] {
      return NoFaceDetected;
    }
    var newEmbedding := faces[0];
    var complete, bestMatch, bestScore := BestUser(newEmbedding, users, sqrt);
    if !complete {
      return Crashed;
    }
    if bestMatch.Some? && bestScore > threshold {
      return MatchFound(users[bestMatch.value], bestScore);
    }
    return NoMatch(bestScore);
  }

  /** The loop over the users: `complete` is false when numpy raised on an
      embedding of another length. */
  method BestUser(newEmbedding: seq<real>, users: seq<StoredUser>, sqrt: real -> real)
    returns (complete: bool, bestMatch: Option<nat>, bestScore: real)
    ensures complete <==> !SomeLengthDiffers(newEmbedding, users)
    ensures complete ==> Best(bestMatch, bestScore) == Scan(Scores(newEmbedding, users, sqrt), 0.0)
  {
    ghost var scores := Scores(newEmbedding, users, sqrt);
    bestMatch, bestScore := None, 0.0;
    var i := 0;
    while i < |users|
      invariant 0 <= i <= |users|
      invariant forall j :: 0 <= j < i ==> |users[j].embedding| == |newEmbedding|
      invariant Best(bestMatch, bestScore) == Scan(scores[..i], 0.0)
    {
      assert scores[..i + 1][..i] == scores[..i];
      if |users[i].embedding| != |newEmbedding| {
        // np.dot raises on vectors of different lengths
        return false, bestMatch, bestScore;
      }
      var score := Score(newEmbedding, users[i], sqrt);
      if score.Some? && score.value > bestScore {
        bestScore := score.value;
        bestMatch := Some(i);
      }
      i := i + 1;
    }
    assert scores[..i] == scores;
    complete := true;
  }
}
