/** The passive liveness check of the kiosk (`usePassiveLivenessDetection`):
    a counter of frames with both eyes open, a score derived from it and the
    yaw of the previous frame. */
module Liveness {
  import opened Common

  const LivenessThreshold: nat := 30      // frames required
  const HeadMovementThreshold: real := 5.0
  const EyeGapThreshold: real := 5.0

  datatype Point = Point(x: real, y: real)

  datatype Metrics = Metrics(eyesOpen: bool, faceDetected: bool, headMovement: bool, livenessScore: real)

  const ResetMetrics: Metrics := Metrics(false, false, false, 0.0)

  /** 68 face-api landmarks: 30 the nose tip, 36 and 45 the outer eye
      corners, 37/41 and 43/47 the upper and lower eyelids. */
  predicate IsLandmarks68(points: seq<Point>) { |points| == 68 }

  /** `checkEyesOpen`: both eyelid gaps wider than 5 pixels. */
  function CheckEyesOpen(points: seq<Point>): (open: bool)
    requires IsLandmarks68(points)
    ensures open <==> Abs(points[41].y - points[37].y) > EyeGapThreshold && Abs(points[47].y - points[43].y) > EyeGapThreshold
  {
    var leftEyeOpen := Abs(points[41].y - points[37].y) > 5.0;
    var rightEyeOpen := Abs(points[47].y - points[43].y) > 5.0;
    leftEyeOpen && rightEyeOpen
  }

  predicate EyeCornersApart(points: seq<Point>)
    requires IsLandmarks68(points)
  {
    points[45].x != points[36].x
  }

  /** `calculateHeadPose`: the nose's offset between the eye corners, as a
      percentage of their distance; 0 for a centred nose. */
  function HeadYaw(points: seq<Point>): (yaw: real)
    requires IsLandmarks68(points) && EyeCornersApart(points)
    ensures Abs(points[30].x - points[36].x) == Abs(points[30].x - points[45].x) ==> yaw == 0.0
  {
    var eyeDistance := Abs(points[45].x - points[36].x);
    var leftDistance := Abs(points[30].x - points[36].x);
    var rightDistance := Abs(points[30].x - points[45].x);
    -((leftDistance - rightDistance) / eyeDistance) * 100.0
  }

  /** The counter after one frame: up on open eyes, else down but never below 0. */
  function NextFrames(frames: nat, eyesOpen: bool): (n: nat)
    ensures eyesOpen ==> n == frames + 1
    ensures !eyesOpen ==> n == Max(0, frames - 1) && n <= frames
  {
    if eyesOpen then frames + 1 else Max(0, frames - 1)
  }

  /** `Math.min(100, frames / 30 * 100)` */
  function Score(frames: nat): (s: real)
    ensures 0.0 <= s <= 100.0
    ensures s >= 100.0 <==> frames >= LivenessThreshold
  {
    var raw := frames as real / LivenessThreshold as real * 100.0;
    if raw < 100.0 then raw else 100.0
  }

  /** The counter after the frames of `eyes`, one flag per frame. */
  function FramesAfter(frames: nat, eyes: seq<bool>): nat
  {
    if eyes == [] then frames else NextFrames(FramesAfter(frames, eyes[..|eyes| - 1]), eyes[|eyes| - 1])
  }

  function OpenCount(eyes: seq<bool>): nat
  {
    if eyes == [] then 0 else OpenCount(eyes[..|eyes| - 1]) + (if eyes[|eyes| - 1] then 1 else 0)
  }

  /** From a reset, the counter never exceeds the number of open-eye frames, so
      liveness passes only after at least 30 of them. */
  lemma {:induction false} FramesBoundedByOpenFrames(eyes: seq<bool>)
    ensures FramesAfter(0, eyes) <= OpenCount(eyes)
    ensures Score(FramesAfter(0, eyes)) >= 100.0 ==> OpenCount(eyes) >= LivenessThreshold
  {
    if eyes != [] {
      FramesBoundedByOpenFrames(eyes[..|eyes| - 1]);
    }
  }

  /** Thirty open-eye frames in a row from a reset pass. */
  lemma {:induction false} OpenFramesCount(eyes: seq<bool>)
    requires forall i :: 0 <= i < |eyes| ==> eyes[i]
    ensures FramesAfter(0, eyes) == |eyes|
  {
    if eyes != [] {
      OpenFramesCount(eyes[..|eyes| - 1]);
    }
  }

  lemma ThirtyOpenFramesPass(eyes: seq<bool>)
    requires |eyes| == LivenessThreshold && forall i :: 0 <= i < |eyes| ==> eyes[i]
    ensures Score(FramesAfter(0, eyes)) >= 100.0
  {
    OpenFramesCount(eyes);
  }

  /** The hook's refs and state. */
  class LivenessDetector {
    var frames: nat
    var previousYaw: real
    var livenessScore: real
    var metrics: Metrics

    constructor ()
      ensures frames == 0 && previousYaw == 0.0 && livenessScore == 0.0 && metrics == ResetMetrics
    {
      frames := 0;
      previousYaw := 0.0;
      livenessScore := 0.0;
      metrics := ResetMetrics;
    }

    /** `updateLivenessScore` on one detection. */
    method UpdateLivenessScore(points: seq<Point>) returns (live: bool)
      requires IsLandmarks68(points) && EyeCornersApart(points)
      modifies this
      ensures frames == NextFrames(old(frames), CheckEyesOpen(points))
      ensures previousYaw == HeadYaw(points)
      ensures livenessScore == Score(frames) && metrics.livenessScore == livenessScore
      ensures metrics.eyesOpen == CheckEyesOpen(points) && metrics.faceDetected
      ensures metrics.headMovement <==> Abs(HeadYaw(points) - old(previousYaw)) > HeadMovementThreshold
      ensures live <==> frames >= LivenessThreshold
    {
      var eyesOpen := CheckEyesOpen(points);
      var yaw := HeadYaw(points);
      var headMovement := Abs(yaw - previousYaw) > HeadMovementThreshold;
      previousYaw := yaw;
      if eyesOpen {
        frames := frames + 1;
      } else {
        frames := Max(0, frames - 1);
      }
      var score := Score(frames);
      livenessScore := score;
      metrics := Metrics(eyesOpen, true, headMovement, score);
      live := score >= 100.0;
    }

    /** `resetLiveness` */
    method ResetLiveness()
      modifies this
      ensures frames == 0 && previousYaw == 0.0 && livenessScore == 0.0 && metrics == ResetMetrics
    {
      frames := 0;
      previousYaw := 0.0;
      livenessScore := 0.0;
      metrics := ResetMetrics;
    }
  }
}
