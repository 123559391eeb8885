/** lib/mediapipe-face.ts: the face box taken from MediaPipe landmarks, the
    padded crop handed to the FaceNet detector, the 128-length check on the
    embedding it returns, and `calculateSimilarity`. Coordinates are reals;
    landmarks are normalised to the frame, boxes are in pixels. */
module MediapipeFace {
  import opened Common
  import opened Similarity

  const EmbeddingLength: nat := 128
  const Padding: real := 0.2

  datatype Landmark = Landmark(x: real, y: real)

  /** The running `minX`, `minY`, `maxX`, `maxY` of the `forEach`. */
  datatype Extent = Extent(minX: real, minY: real, maxX: real, maxY: real)

  /** A normalised box: centre and size. */
  datatype Box = Box(xCenter: real, yCenter: real, width: real, height: real)

  /** A pixel rectangle: top-left corner and size. */
  datatype Rect = Rect(x: real, y: real, width: real, height: real)

  /** What `detectFaceInVideo` resolves to. */
  datatype Detection = NotDetected | Detected(descriptor: seq<real>, landmarks: seq<Landmark>, boundingBox: Box)

  /** `e` is the extent the loop computes over `lms`, starting from min 1 and
      max 0: each bound is attained by a landmark or is still its start value,
      and bounds every landmark. */
  ghost predicate IsExtentOf(e: Extent, lms: seq<Landmark>)
  {
    e.minX <= 1.0 && e.minY <= 1.0 && e.maxX >= 0.0 && e.maxY >= 0.0 &&
    (forall i :: 0 <= i < |lms| ==> e.minX <= lms[i].x <= e.maxX && e.minY <= lms[i].y <= e.maxY) &&
    (e.minX == 1.0 || exists i :: 0 <= i < |lms| && e.minX == lms[i].x) &&
    (e.minY == 1.0 || exists i :: 0 <= i < |lms| && e.minY == lms[i].y) &&
    (e.maxX == 0.0 || exists i :: 0 <= i < |lms| && e.maxX == lms[i].x) &&
    (e.maxY == 0.0 || exists i :: 0 <= i < |lms| && e.maxY == lms[i].y)
  }

  /** The `forEach` over the landmarks. */
  method LandmarkExtent(lms: seq<Landmark>) returns (e: Extent)
    ensures IsExtentOf(e, lms)
  {
    var minX, minY, maxX, maxY := 1.0, 1.0, 0.0, 0.0;
    var i := 0;
    while i < |lms|
      invariant 0 <= i <= |lms|
      invariant IsExtentOf(Extent(minX, minY, maxX, maxY), lms[..i])
    {
      minX := MinReal(minX, lms[i].x);
      minY := MinReal(minY, lms[i].y);
      maxX := MaxReal(maxX, lms[i].x);
      maxY := MaxReal(maxY, lms[i].y);
      i := i + 1;
    }
    assert lms[..i] == lms;
    e := Extent(minX, minY, maxX, maxY);
  }

  /** The box reported from an extent: midpoint centre, size max - min. */
  function BoxOf(e: Extent): (b: Box)
    ensures b.xCenter - b.width / 2.0 == e.minX && b.xCenter + b.width / 2.0 == e.maxX
    ensures b.yCenter - b.height / 2.0 == e.minY && b.yCenter + b.height / 2.0 == e.maxY
  {
    Box((e.minX + e.maxX) / 2.0, (e.minY + e.maxY) / 2.0, e.maxX - e.minX, e.maxY - e.minY)
  }

  predicate InUnitSquare(lms: seq<Landmark>)
  {
    forall i :: 0 <= i < |lms| ==> 0.0 <= lms[i].x <= 1.0 && 0.0 <= lms[i].y <= 1.0
  }

  /** For at least one landmark inside the frame, min <= max and both lie in [0, 1]. */
  lemma ExtentInUnitSquare(e: Extent, lms: seq<Landmark>)
    requires IsExtentOf(e, lms) && InUnitSquare(lms) && |lms| > 0
    ensures 0.0 <= e.minX <= e.maxX <= 1.0 && 0.0 <= e.minY <= e.maxY <= 1.0
  {
    assert e.minX <= lms[0].x <= e.maxX && e.minY <= lms[0].y <= e.maxY;
    if e.minX != 1.0 {
      var i :| 0 <= i < |lms| && e.minX == lms[i].x;
    }
    if e.minY != 1.0 {
      var i :| 0 <= i < |lms| && e.minY == lms[i].y;
    }
    if e.maxX != 0.0 {
      var i :| 0 <= i < |lms| && e.maxX == lms[i].x;
    }
    if e.maxY != 0.0 {
      var i :| 0 <= i < |lms| && e.maxY == lms[i].y;
    }
  }

  /** ... so the reported box has non-negative size and contains every landmark. */
  lemma LandmarkBoxContains(e: Extent, lms: seq<Landmark>)
    requires IsExtentOf(e, lms) && InUnitSquare(lms) && |lms| > 0
    ensures var b := BoxOf(e);
            b.width >= 0.0 && b.height >= 0.0 &&
            forall i :: 0 <= i < |lms| ==>
              b.xCenter - b.width / 2.0 <= lms[i].x <= b.xCenter + b.width / 2.0 &&
              b.yCenter - b.height / 2.0 <= lms[i].y <= b.yCenter + b.height / 2.0
  {
    ExtentInUnitSquare(e, lms);
  }

  /** With no landmark at all the start values survive and the box has size -1. */
  lemma EmptyLandmarksBox(e: Extent)
    requires IsExtentOf(e, [])
    ensures BoxOf(e).width == -1.0 && BoxOf(e).height == -1.0
  {
  }

  /** The normalised box scaled to the source's pixel size. */
  function PixelBox(b: Box, sourceWidth: real, sourceHeight: real): (r: Rect)
    ensures 0.0 <= b.xCenter - b.width / 2.0 <= b.xCenter + b.width / 2.0 <= 1.0 && sourceWidth >= 0.0 ==>
              0.0 <= r.x && 0.0 <= r.width && r.x + r.width <= sourceWidth
    ensures 0.0 <= b.yCenter - b.height / 2.0 <= b.yCenter + b.height / 2.0 <= 1.0 && sourceHeight >= 0.0 ==>
              0.0 <= r.y && 0.0 <= r.height && r.y + r.height <= sourceHeight
  {
    var (x, width) := ScaledEdge(b.xCenter, b.width, sourceWidth);
    var (y, height) := ScaledEdge(b.yCenter, b.height, sourceHeight);
    Rect(x, y, width, height)
  }

  /** The crop grown by 20% of the box on each side and clamped to the source;
      it never leaves the source on the left, top, right or bottom. */
  function Crop(r: Rect, sourceWidth: real, sourceHeight: real): (c: Rect)
    ensures c.x >= 0.0 && c.y >= 0.0
    ensures c.x + c.width <= sourceWidth && c.y + c.height <= sourceHeight
  {
    var expandedX := MaxReal(0.0, r.x - r.width * Padding);
    var expandedY := MaxReal(0.0, r.y - r.height * Padding);
    Rect(expandedX, expandedY,
         MinReal(sourceWidth - expandedX, r.width * (1.0 + 2.0 * Padding)),
         MinReal(sourceHeight - expandedY, r.height * (1.0 + 2.0 * Padding)))
  }

  /** A box inside the source is contained in its crop, which then has
      non-negative size. */
  lemma CropContainsBox(r: Rect, sourceWidth: real, sourceHeight: real)
    requires 0.0 <= r.x && 0.0 <= r.width && r.x + r.width <= sourceWidth
    requires 0.0 <= r.y && 0.0 <= r.height && r.y + r.height <= sourceHeight
    ensures var c := Crop(r, sourceWidth, sourceHeight);
            c.width >= 0.0 && c.height >= 0.0 &&
            c.x <= r.x && r.x + r.width <= c.x + c.width &&
            c.y <= r.y && r.y + r.height <= c.y + c.height
  {
  }

  /** An extent inside the unit square gives a pixel box inside the source, so
      the crop contains the whole landmark box (with `ExtentInUnitSquare`, this
      holds for every extent of landmarks inside the frame). */
  lemma UnitExtentCropContainsBox(e: Extent, sourceWidth: real, sourceHeight: real)
    requires 0.0 <= e.minX <= e.maxX <= 1.0 && 0.0 <= e.minY <= e.maxY <= 1.0
    requires sourceWidth >= 0.0 && sourceHeight >= 0.0
    ensures var r := PixelBox(BoxOf(e), sourceWidth, sourceHeight);
            var c := Crop(r, sourceWidth, sourceHeight);
            r.x == e.minX * sourceWidth && r.x + r.width == e.maxX * sourceWidth &&
            c.x <= r.x && r.x + r.width <= c.x + c.width &&
            c.y <= r.y && r.y + r.height <= c.y + c.height
  {
    var b := BoxOf(e);
    var r := PixelBox(b, sourceWidth, sourceHeight);
    ScaledInterval(e.minX, e.maxX, sourceWidth);
    ScaledInterval(e.minY, e.maxY, sourceHeight);
    assert r.x == e.minX * sourceWidth && r.width == (e.maxX - e.minX) * sourceWidth;
    assert r.y == e.minY * sourceHeight && r.height == (e.maxY - e.minY) * sourceHeight;
    CropContainsBox(r, sourceWidth, sourceHeight);
  }

  /** One axis of `PixelBox`: the scaled start `(center - size / 2) * s` and
      length `size * s`; an edge pair inside [0, 1] scales into [0, s]. */
  function ScaledEdge(center: real, size: real, s: real): (p: (real, real))
    ensures p.0 == (center - size / 2.0) * s && p.1 == size * s
    ensures 0.0 <= center - size / 2.0 <= center + size / 2.0 <= 1.0 && s >= 0.0 ==>
              0.0 <= p.0 && 0.0 <= p.1 && p.0 + p.1 <= s
  {
    var lo, hi := center - size / 2.0, center + size / 2.0;
    assert hi - lo == size;
    assert 0.0 <= lo <= hi <= 1.0 && s >= 0.0 ==> 0.0 <= lo * s && 0.0 <= size * s && lo * s + size * s <= s by {
      if 0.0 <= lo <= hi <= 1.0 && s >= 0.0 {
        ScaledInterval(lo, hi, s);
        assert (hi - lo) * s == size * s;
      }
    }
    (lo * s, size * s)
  }

  /** [lo, hi] inside [0, 1] scaled by s >= 0 lies inside [0, s]. */
  lemma ScaledInterval(lo: real, hi: real, s: real)
    requires 0.0 <= lo <= hi <= 1.0 && s >= 0.0
    ensures 0.0 <= lo * s && 0.0 <= (hi - lo) * s && lo * s + (hi - lo) * s == hi * s && hi * s <= s
  {
    assert (1.0 - hi) * s >= 0.0;
  }

  /** The 128-length check on the detector's descriptor. */
  function CheckedEmbedding(descriptor: Option<seq<real>>): (r: Option<seq<real>>)
    ensures r.Some? <==> descriptor.Some? && |descriptor.value| == EmbeddingLength
    ensures r.Some? ==> r == descriptor
  {
    if descriptor.None? || |descriptor.value| != EmbeddingLength then None else descriptor
  }

  /** `detectFaceInVideo` for the meshes MediaPipe found (`meshes`) and the
      face-api detector `describe`, which maps a crop to its descriptor or null. */
  method DetectFaceInVideo(meshes: seq<seq<Landmark>>, sourceWidth: real, sourceHeight: real,
                           describe: Rect -> Option<seq<real>>)
    returns (d: Detection)
    ensures meshes == [] ==> d == NotDetected
    ensures d.Detected? ==>
              meshes != [] && d.landmarks == meshes[0] && |d.descriptor| == EmbeddingLength &&
              (exists e :: IsExtentOf(e, meshes[0]) && d.boundingBox == BoxOf(e) &&
                 describe(Crop(PixelBox(BoxOf(e), sourceWidth, sourceHeight), sourceWidth, sourceHeight)) == Some(d.descriptor))
    ensures d == NotDetected ==>
              meshes == [] ||
              exists e :: IsExtentOf(e, meshes[0]) &&
                CheckedEmbedding(describe(Crop(PixelBox(BoxOf(e), sourceWidth, sourceHeight), sourceWidth, sourceHeight))).None?
  {
    if meshes == [] {
      return NotDetected;
    }
    var landmarks := meshes[0];
    var e := LandmarkExtent(landmarks);
    var boundingBox := BoxOf(e);
    var descriptor := CheckedEmbedding(describe(Crop(PixelBox(boundingBox, sourceWidth, sourceHeight), sourceWidth, sourceHeight)));
    if descriptor.None? {
      return NotDetected;
    }
    return Detected(descriptor.value, landmarks, boundingBox);
  }

  /** `calculateSimilarity`: 0 for a null descriptor, otherwise the guarded cosine. */
  function DescriptorSimilarity(desc1: Option<seq<real>>, desc2: Option<seq<real>>, sqrt: real -> real): (r: real)
    ensures desc1.None? || desc2.None? ==> r == 0.0
    ensures desc1.Some? && desc2.Some? && |desc1.value| != |desc2.value| ==> r == 0.0
  {
    if desc1.None? || desc2.None? then 0.0 else Cosine(desc1.value, desc2.value, sqrt)
  }

  /** The similarity is symmetric, is 0 when either descriptor is all zero and
      is 1 for a non-zero descriptor against itself. */
  lemma DescriptorSimilarityProperties(desc1: Option<seq<real>>, desc2: Option<seq<real>>, sqrt: real -> real)
    requires IsSqrt(sqrt)
    ensures DescriptorSimilarity(desc1, desc2, sqrt) == DescriptorSimilarity(desc2, desc1, sqrt)
    ensures desc1.Some? && desc2.Some? && (IsZeroVector(desc1.value) || IsZeroVector(desc2.value)) ==>
              DescriptorSimilarity(desc1, desc2, sqrt) == 0.0
    ensures desc1.Some? && !IsZeroVector(desc1.value) ==> DescriptorSimilarity(desc1, desc1, sqrt) == 1.0
  {
    if desc1.Some? && desc2.Some? {
      CosineSymmetric(desc1.value, desc2.value, sqrt);
      if IsZeroVector(desc1.value) || IsZeroVector(desc2.value) {
        CosineZeroVector(desc1.value, desc2.value, sqrt);
      }
    }
    if desc1.Some? && !IsZeroVector(desc1.value) {
      CosineSelf(desc1.value, sqrt);
    }
  }

  /** `calculateSimilarity` as written: the null and length tests, then the loop. */
  method CalculateSimilarity(desc1: Option<seq<real>>, desc2: Option<seq<real>>, sqrt: real -> real) returns (r: real)
    ensures r == DescriptorSimilarity(desc1, desc2, sqrt)
  {
    if desc1.None? || desc2.None? || |desc1.value| != |desc2.value| {
      return 0.0;
    }
    r := CosineLoop(desc1.value, desc2.value, sqrt);
  }
}
