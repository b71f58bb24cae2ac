/** Planar joint angles and the two acceptance tests applied to them. The angle itself is
    `atan2(dy, dx)` in degrees, a floating-point computation on sensor coordinates that the
    model takes as given: a raw angle in [-180, 180]. */
module Angles {

  /** A raw angle as atan2 in degrees produces it. */
  predicate IsRawAngle(raw: real)
  {
    -180.0 <= raw <= 180.0
  }

  /** CalculateAngle of the newer session page: a negative raw angle is shifted by one turn,
      so the angle is never negative and still points in the same direction. */
  function CalculateAngle(raw: real): (angle: real)
    ensures angle >= 0.0 || raw < -360.0
    ensures angle == raw || angle == raw + 360.0
    ensures IsRawAngle(raw) ==> 0.0 <= angle < 360.0
  {
    if raw < 0.0 then raw + 360.0 else raw
  }

  /** CheckAngle: inclusive range test that supports ranges crossing 0/360. */
  function CheckAngle(angleMin: real, angleMax: real, angle: real): bool
  {
    (angleMax > angleMin && angle >= angleMin && angle <= angleMax)
      || (angleMin > angleMax && ((angle > angleMin && angle <= 360.0) || angle <= angleMax))
  }

  /** The three cases of CheckAngle: a normal range is closed at both ends; a wrapping range
      rejects its own minimum; a zero-width range accepts nothing, not even its exact angle. */
  lemma CheckAngleCases(angleMin: real, angleMax: real, angle: real)
    ensures angleMax > angleMin ==> (CheckAngle(angleMin, angleMax, angle) <==> angleMin <= angle <= angleMax)
    ensures angleMin > angleMax ==>
      (CheckAngle(angleMin, angleMax, angle) <==> (angleMin < angle <= 360.0 || angle <= angleMax))
    ensures angleMin == angleMax ==> !CheckAngle(angleMin, angleMax, angle)
  {
  }

  /** On angles of a full turn [0, 360], a wrapping range accepts exactly the angles outside
      the gap (angleMax, angleMin]: the gap is closed at the minimum, open at the maximum. */
  lemma WrapRangeIsComplementOfGap(angleMin: real, angleMax: real, angle: real)
    requires angleMin > angleMax
    requires 0.0 <= angle <= 360.0
    ensures CheckAngle(angleMin, angleMax, angle) <==> !(angleMax < angle <= angleMin)
  {
  }

  /** The examples of a 350..10 range: 5 degrees is inside, 180 is not, 350 itself is not. */
  lemma WrapRangeExamples()
    ensures CheckAngle(350.0, 10.0, 5.0) && CheckAngle(350.0, 10.0, 355.0)
    ensures !CheckAngle(350.0, 10.0, 180.0) && !CheckAngle(350.0, 10.0, 350.0)
    ensures CalculateAngle(-30.0) == 330.0
  {
  }

  /** Acceptance in the older session page: the absolute raw angle must lie strictly between
      the bounds; no normalisation and no wrapping range. */
  function LegacyAccepts(angleMin: real, angleMax: real, raw: real): bool
  {
    angleMin < Magnitude(raw) && Magnitude(raw) < angleMax
  }

  /** Math.Abs of a raw angle. */
  function Magnitude(raw: real): (m: real)
    ensures m >= 0.0 && (m == raw || m == -raw)
  {
    if raw < 0.0 then -raw else raw
  }

  /** The older test cannot tell a direction from its mirror image, and it can never accept
      when the minimum is 180 degrees or more, since a raw angle is at most 180 in size. */
  lemma LegacyAcceptsProperties(angleMin: real, angleMax: real, raw: real)
    ensures LegacyAccepts(angleMin, angleMax, raw) == LegacyAccepts(angleMin, angleMax, -raw)
    ensures IsRawAngle(raw) && angleMin >= 180.0 ==> !LegacyAccepts(angleMin, angleMax, raw)
    ensures angleMax <= angleMin ==> !LegacyAccepts(angleMin, angleMax, raw)
  {
  }

  /** Where the two generations meet: for a non-negative raw angle and a range inside
      [0, 180], anything the older strict test accepts the newer inclusive test accepts too,
      and the newer test also accepts the two bounds, which the older one rejects. */
  lemma LegacyIsStricter(angleMin: real, angleMax: real, raw: real)
    requires 0.0 <= angleMin < angleMax <= 180.0
    requires 0.0 <= raw
    ensures LegacyAccepts(angleMin, angleMax, raw) ==> CheckAngle(angleMin, angleMax, CalculateAngle(raw))
    ensures raw == angleMin || raw == angleMax ==>
      CheckAngle(angleMin, angleMax, CalculateAngle(raw)) && !LegacyAccepts(angleMin, angleMax, raw)
  {
  }
}
