/** facenet-optimized-server.py: the MTCNN + FaceNet server. Decoding the
    image, detecting faces and computing the embedding are foreign calls: the
    model takes whether the image decodes, the detected faces and an `embed`
    function of the crop as parameters. */
module FacenetOptimized {
  import opened Common
  import opened Similarity
  import FaceServer

  const Padding: int := 20
  const MatchPercent: real := 70.0

  /** An MTCNN detection: `box` is `[x, y, w, h]`. */
  datatype Detection = Detection(x: int, y: int, w: int, h: int, confidence: real)

  /** The padded crop `image[y1:y2, x1:x2]`. */
  datatype Crop = Crop(x1: int, y1: int, x2: int, y2: int)

  datatype ExtractResponse =
    | ExtractNoFace                                             // 400
    | ExtractServerError                                        // 500
    | Extracted(embedding: seq<real>, dimension: nat, confidence: real)

  datatype CompareResponse =
    | CompareServerError                                        // 500
    | CompareResult(similarity: Float, isMatch: bool)

  function Area(d: Detection): int { d.w * d.h }

  /** `max(faces, key=area)`: the first face of largest area. */
  function LargestFace(faces: seq<Detection>): (i: nat)
    requires faces != []
    ensures i < |faces|
    ensures forall j :: 0 <= j < |faces| ==> Area(faces[j]) <= Area(faces[i])
    ensures forall j :: 0 <= j < i ==> Area(faces[j]) < Area(faces[i])
  {
    if |faces| == 1 then 0
    else
      var i := LargestFace(faces[..|faces| - 1]);
      assert forall j :: 0 <= j < |faces| - 1 ==> faces[..|faces| - 1][j] == faces[j];
      if Area(faces[|faces| - 1]) > Area(faces[i]) then |faces| - 1 else i
  }

  /** The box widened by 20 pixels on each side and clamped to the image. */
  function CropOf(d: Detection, width: nat, height: nat): (c: Crop)
    ensures 0 <= c.x1 && 0 <= c.y1 && c.x2 <= width && c.y2 <= height
    ensures 0 <= d.x ==> c.x1 <= d.x
    ensures 0 <= d.y ==> c.y1 <= d.y
    ensures d.x + d.w <= width ==> d.x + d.w <= c.x2
    ensures d.y + d.h <= height ==> d.y + d.h <= c.y2
  {
    Crop(Max(0, d.x - Padding), Max(0, d.y - Padding), Min(width, d.x + d.w + Padding), Min(height, d.y + d.h + Padding))
  }

  /** A box inside the image lies inside its crop. */
  lemma CropContainsBox(d: Detection, width: nat, height: nat)
    requires 0 <= d.x && 0 <= d.y && 0 <= d.w && 0 <= d.h && d.x + d.w <= width && d.y + d.h <= height
    ensures var c := CropOf(d, width, height);
            c.x1 <= d.x && d.x + d.w <= c.x2 && c.y1 <= d.y && d.y + d.h <= c.y2 && c.x1 <= c.x2 && c.y1 <= c.y2
  {
  }

  /** `/extract-embedding`. No face is a 400 the handler passes on; any other
      failure is a 500. */
  function ExtractOutcome(decodes: bool, faces: seq<Detection>, width: nat, height: nat,
                          embed: Crop -> seq<real>): (r: ExtractResponse)
    ensures r == ExtractServerError <==> !decodes
    ensures r == ExtractNoFace <==> decodes && faces == []
    ensures r.Extracted? ==>
              var face := faces[LargestFace(faces)];
              r.embedding == embed(CropOf(face, width, height)) && r.dimension == |r.embedding| &&
              r.confidence == face.confidence
  {
    if !decodes then ExtractServerError
    else if faces == [] then ExtractNoFace
    else
      var face := faces[LargestFace(faces)];
      var embedding := embed(CropOf(face, width, height));
      Extracted(embedding, |embedding|, face.confidence)
  }

  /** `/verify` awaits the extraction and returns it; its `except Exception`
      also catches the no-face `HTTPException`, which becomes a 500. */
  function VerifyFacesOutcome(decodes: bool, faces: seq<Detection>, width: nat, height: nat,
                              embed: Crop -> seq<real>): (r: ExtractResponse)
    ensures r != ExtractNoFace
    ensures ExtractOutcome(decodes, faces, width, height, embed).Extracted? ==> r == ExtractOutcome(decodes, faces, width, height, embed)
    ensures !ExtractOutcome(decodes, faces, width, height, embed).Extracted? ==> r == ExtractServerError
  {
    var e := ExtractOutcome(decodes, faces, width, height, embed);
    if e.Extracted? then e else ExtractServerError
  }

  /** `/compare-embeddings`: no length check (numpy raises, 500) and no zero
      guard (0/0 is NaN, and NaN >= 70 is false). */
  function CompareOutcome(embedding1: seq<real>, embedding2: seq<real>, sqrt: real -> real): (r: CompareResponse)
    ensures r == CompareServerError <==> |embedding1| != |embedding2|
    ensures r.CompareResult? ==>
              var s := NumpyCosine(embedding1, embedding2, sqrt);
              s.Some? && (s.value.NaN? <==> r.similarity.NaN?) &&
              (s.value.Finite? ==> r.similarity == Finite(s.value.v * 100.0)) &&
              (r.isMatch <==> r.similarity.Finite? && r.similarity.v >= MatchPercent)
  {
    match NumpyCosine(embedding1, embedding2, sqrt)
    case None => CompareServerError
    case Some(NaN) => CompareResult(NaN, false)
    case Some(Finite(v)) => CompareResult(Finite(v * 100.0), v * 100.0 >= MatchPercent)
  }

  /** The two servers' `/compare-embeddings` fail on the same inputs and agree
      on the match whenever they answer. */
  lemma ServersAgreeOnMatch(a: seq<real>, b: seq<real>, sqrt: real -> real)
    requires IsSqrt(sqrt)
    ensures CompareOutcome(a, b, sqrt).CompareServerError? <==>
            FaceServer.CompareOutcome(Some(a), Some(b), sqrt).CompareServerError?
    ensures CompareOutcome(a, b, sqrt).CompareResult? ==>
              CompareOutcome(a, b, sqrt).isMatch == FaceServer.CompareOutcome(Some(a), Some(b), sqrt).isMatch
  {
    if |a| == |b| {
      DotSelfNonNegative(a);
      DotSelfNonNegative(b);
      var na, nb := sqrt(Dot(a, a)), sqrt(Dot(b, b));
      if na != 0.0 && nb != 0.0 {
        assert Dot(a, a) > 0.0 && Dot(b, b) > 0.0;
        assert na * nb != 0.0 by { ProductPositive(0.0, na, nb); }
      } else {
        assert na * nb == 0.0;
      }
    }
  }
}
