/** face-server.py: the dlib face server. Image decoding, face detection and
    encoding are foreign calls, so their results are parameters: how far the
    image decodes, the face locations found and the encodings computed. */
module FaceServer {
  import opened Common
  import opened Similarity

  const Threshold: real := 0.70

  /** A dlib face location `(top, right, bottom, left)`. */
  datatype Location = Location(top: int, right: int, bottom: int, left: int)

  datatype Box = Box(left: int, top: int, width: int, height: int)

  /** The outcome of `base64_to_image`: `b64decode` raising `binascii.Error`,
      `cv2.imdecode` returning None (an `HTTPException` 400), or an image. */
  datatype Decoding = Base64Invalid | ImageInvalid | Decoded

  datatype ExtractResponse =
    | ExtractBadRequest                                         // 400: no image, or not an image
    | ExtractServerError                                        // 500: not base64
    | ExtractNotDetected(error: string)                         // detected: false
    | ExtractDetected(embedding: seq<real>, embeddingSize: nat, confidence: real, box: Box, numFaces: nat)

  datatype FaceEntry = FaceEntry(index: nat, embedding: seq<real>, embeddingSize: nat, location: Location, box: Box)

  datatype MultiResponse =
    | MultiBadRequest                                           // 400
    | MultiServerError                                          // 500
    | MultiDetected(detected: bool, faces: seq<FaceEntry>, numFaces: nat)

  datatype VerifyResponse =
    | VerifyServerError                                         // 500
    | VerifyNotDetected(error: string)                          // verified: false
    | VerifyResult(verified: bool, similarity: real, confidence: real)

  datatype CompareResponse =
    | CompareServerError                                        // 500
    | CompareResult(similarity: real, isMatch: bool, confidence: real)

  /** `base64_to_image`: only the text after the first comma (up to any
      second comma) is decoded. */
  function Base64Payload(s: string): (r: string)
    ensures ',' !in s ==> r == s
    ensures ',' in s ==> ',' !in r
  {
    if ',' in s then SplitAtLeastTwo(s, ','); Split(s, ',')[1] else s
  }

  /** A data URL loses exactly its header. */
  lemma DataUrlPayload(header: string, payload: string)
    requires ',' !in header && ',' !in payload
    ensures Base64Payload(header + "," + payload) == payload
  {
    SplitAtSeparator(header, payload, ',');
    SplitWithoutSeparator(payload, ',');
    assert header + "," + payload == header + [','] + payload;
  }

  /** `[left, top, right - left, bottom - top]` */
  function BoxOf(l: Location): (b: Box)
    ensures b.left + b.width == l.right && b.top + b.height == l.bottom
  {
    Box(l.left, l.top, l.right - l.left, l.bottom - l.top)
  }

  predicate Present(s: Option<string>) { Truthy(s) }

  /** `/extract-embedding`: the first face only. An `HTTPException` is
      re-raised as it is; any other exception becomes a 500. */
  function ExtractOutcome(image: Option<string>, decoding: Decoding, locations: seq<Location>,
                          encodings: seq<seq<real>>): (r: ExtractResponse)
    ensures r == ExtractBadRequest <==> !Present(image) || decoding.ImageInvalid?
    ensures r == ExtractServerError <==> Present(image) && decoding.Base64Invalid?
    ensures r.ExtractDetected? <==> Present(image) && decoding.Decoded? && locations != [] && encodings != []
    ensures r.ExtractDetected? ==>
              r.embedding == encodings[0] && r.embeddingSize == |encodings[0]| &&
              r.box == BoxOf(locations[0]) && r.numFaces == |locations| && r.confidence == 1.0
    ensures Present(image) && decoding.Decoded? && locations == [] ==> r == ExtractNotDetected("No face detected in image")
    ensures Present(image) && decoding.Decoded? && locations != [] && encodings == [] ==>
              r == ExtractNotDetected("Could not compute face encoding")
  {
    if !Present(image) then ExtractBadRequest
    else if decoding.Base64Invalid? then ExtractServerError
    else if decoding.ImageInvalid? then ExtractBadRequest
    else if locations == [] then ExtractNotDetected("No face detected in image")
    else if encodings == [] then ExtractNotDetected("Could not compute face encoding")
    else ExtractDetected(encodings[0], |encodings[0]|, 1.0, BoxOf(locations[0]), |locations|)
  }

  function EntryOf(i: nat, encoding: seq<real>, l: Location): FaceEntry
  {
    FaceEntry(i, encoding, |encoding|, l, BoxOf(l))
  }

  /** `/extract-multiple-embeddings`: one entry per (encoding, location) pair
      `zip` yields, so as many as the shorter list. */
  method ExtractMultiple(image: Option<string>, decoding: Decoding, locations: seq<Location>,
                         encodings: seq<seq<real>>) returns (r: MultiResponse)
    ensures r == MultiBadRequest <==> !Present(image) || decoding.ImageInvalid?
    ensures r == MultiServerError <==> Present(image) && decoding.Base64Invalid?
    ensures r.MultiDetected? ==> (r.detected <==> locations != [])
    ensures r.MultiDetected? && locations == [] ==> r.faces == [] && r.numFaces == 0
    ensures r.MultiDetected? && locations != [] ==>
              |r.faces| == Min(|encodings|, |locations|) && r.numFaces == |r.faces| &&
              forall i :: 0 <= i < |r.faces| ==> r.faces[i] == EntryOf(i, encodings[i], locations[i])
  {
    if !Present(image) {
      return MultiBadRequest;
    }
    if decoding.Base64Invalid? {
      return MultiServerError;
    }
    if decoding.ImageInvalid? {
      return MultiBadRequest;
    }
    if |locations| == 0 {
      return MultiDetected(false, [], 0);
    }
    var n := Min(|encodings|, |locations|);
    var faces: seq<FaceEntry> := [];
    for i := 0 to n
      invariant |faces| == i
      invariant forall k :: 0 <= k < i ==> faces[k] == EntryOf(k, encodings[k], locations[k])
    {
      faces := faces + [EntryOf(i, encodings[i], locations[i])];
    }
    return MultiDetected(true, faces, |faces|);
  }

  /** numpy broadcasting of `captured - stored`: equal shapes, or one side of length 1. */
  predicate Broadcastable(a: seq<real>, b: seq<real>)
  {
    |a| == |b| || |a| == 1 || |b| == 1
  }

  /** `/verify`. The distance `norm(captured - stored)` is computed first, so a
      shape numpy cannot broadcast fails before the similarity; a bad image's
      400 is caught by `except Exception` and becomes 500. */
  function VerifyOutcome(decoding: Decoding, locations: seq<Location>, encodings: seq<seq<real>>,
                         stored: seq<real>, sqrt: real -> real): (r: VerifyResponse)
    ensures !decoding.Decoded? ==> r == VerifyServerError
    ensures r.VerifyResult? ==>
              decoding.Decoded? && locations != [] && encodings != [] && Broadcastable(encodings[0], stored) &&
              GuardedNumpyCosine(encodings[0], stored, sqrt) == Some(r.similarity) &&
              (r.verified <==> r.similarity >= Threshold) && r.confidence == r.similarity * 100.0
    ensures decoding.Decoded? && locations != [] && encodings != [] && Broadcastable(encodings[0], stored) &&
            GuardedNumpyCosine(encodings[0], stored, sqrt).Some? ==>
              var x := GuardedNumpyCosine(encodings[0], stored, sqrt).value;
              r == VerifyResult(x >= Threshold, x, x * 100.0)
    ensures decoding.Decoded? && locations == [] ==> r == VerifyNotDetected("No face detected in captured image")
    ensures decoding.Decoded? && locations != [] && encodings == [] ==>
              r == VerifyNotDetected("Could not compute face encoding")
    ensures r.VerifyNotDetected? ==> decoding.Decoded? && (locations == [] || encodings == [])
    ensures r == VerifyServerError <==>
              !decoding.Decoded? ||
              (locations != [] && encodings != [] &&
               (!Broadcastable(encodings[0], stored) || GuardedNumpyCosine(encodings[0], stored, sqrt).None?))
  {
    if !decoding.Decoded? then VerifyServerError
    else if locations == [] then VerifyNotDetected("No face detected in captured image")
    else if encodings == [] then VerifyNotDetected("Could not compute face encoding")
    else
      var captured := encodings[0];
      if !Broadcastable(captured, stored) then VerifyServerError
      else
        match GuardedNumpyCosine(captured, stored, sqrt)
        case None => VerifyServerError
        case Some(similarity) => VerifyResult(similarity >= Threshold, similarity, similarity * 100.0)
  }

  /** A stored embedding of another length fails the call, unless numpy can
      broadcast it and one vector is zero, which gives similarity 0. */
  lemma VerifyLengthMismatch(locations: seq<Location>, encodings: seq<seq<real>>, stored: seq<real>,
                             sqrt: real -> real)
    requires IsSqrt(sqrt)
    requires locations != [] && encodings != [] && |encodings[0]| != |stored|
    ensures var r := VerifyOutcome(Decoded, locations, encodings, stored, sqrt);
            r == VerifyServerError || (r.VerifyResult? && r.similarity == 0.0 && !r.verified)
    ensures var r := VerifyOutcome(Decoded, locations, encodings, stored, sqrt);
            !IsZeroVector(encodings[0]) && !IsZeroVector(stored) ==> r == VerifyServerError
  {
    var a := encodings[0];
    DotSelfNonNegative(a);
    DotSelfNonNegative(stored);
  }

  /** `/compare-embeddings`. A missing list has no length and a size mismatch
      raises a 400 inside the `try`; both reach the client as 500. */
  function CompareOutcome(embedding1: Option<seq<real>>, embedding2: Option<seq<real>>, sqrt: real -> real)
    : (r: CompareResponse)
    ensures r == CompareServerError <==> embedding1.None? || embedding2.None? || |embedding1.value| != |embedding2.value|
    ensures r.CompareResult? ==>
              r.similarity == Cosine(embedding1.value, embedding2.value, sqrt) &&
              (r.isMatch <==> r.similarity >= Threshold) && r.confidence == r.similarity * 100.0
  {
    if embedding1.None? || embedding2.None? || |embedding1.value| != |embedding2.value| then CompareServerError
    else
      var similarity := CosineEqualLength(embedding1.value, embedding2.value, sqrt);
      CompareResult(similarity, similarity >= Threshold, similarity * 100.0)
  }

  /** For vectors of one length the guarded numpy similarity is the plain one. */
  function CosineEqualLength(a: seq<real>, b: seq<real>, sqrt: real -> real): (s: real)
    requires |a| == |b|
    ensures GuardedNumpyCosine(a, b, sqrt) == Some(s)
    ensures s == Cosine(a, b, sqrt)
  {
    GuardedNumpyCosine(a, b, sqrt).value
  }

  /** A vector compared with itself matches, with confidence 100. */
  lemma CompareSelfMatches(a: seq<real>, sqrt: real -> real)
    requires IsSqrt(sqrt) && !IsZeroVector(a)
    ensures CompareOutcome(Some(a), Some(a), sqrt) == CompareResult(1.0, true, 100.0)
  {
    CosineSelf(a, sqrt);
  }
}
