/**
 * The pose quantizer: each observed robot keeps its position, and its
 * heading is snapped down to a multiple of 45 degrees by truncation.
 * Floating-point values are modelled as exact reals.
 */
module Poses {
  import opened Motion

  /** One detected robot: the marker centre in pixels and a heading in degrees. */
  datatype Observation = Observation(x: real, y: real, angle: real)

  /** A robot with its heading quantized. */
  datatype Pose = Pose(x: real, y: real, heading: int)

  /** Python's `int(v)` on a float: truncation toward zero. */
  function Trunc(v: real): (r: int)
    ensures 0.0 <= v ==> r as real <= v < r as real + 1.0
    ensures v < 0.0 ==> r as real - 1.0 < v <= r as real
  {
    if v >= 0.0 then v.Floor else -((-v).Floor)
  }

  /** `45 * int(angle / 45)`: the multiple of 45 at or toward zero from `angle`. */
  function Quantize(angle: real): (h: int)
    ensures h % 45 == 0
    ensures 0.0 <= angle ==> h as real <= angle < h as real + 45.0
    ensures angle < 0.0 ==> h as real - 45.0 < angle <= h as real
    ensures 0.0 <= angle <= 360.0 ==> IsHeading(h)
  {
    45 * Trunc(angle / 45.0)
  }

  /** Quantizes every observation, keeping positions, count and order. */
  method ProcessRobots(found: seq<Observation>) returns (bots: seq<Pose>)
    ensures |bots| == |found|
    ensures forall i :: 0 <= i < |found| ==>
      bots[i] == Pose(found[i].x, found[i].y, Quantize(found[i].angle))
  {
    bots := [];
    for i := 0 to |found|
      invariant |bots| == i
      invariant forall k :: 0 <= k < i ==>
        bots[k] == Pose(found[k].x, found[k].y, Quantize(found[k].angle))
    {
      var bot := found[i];
      var correctAngle := 45 * Trunc(bot.angle / 45.0);
      bots := bots + [Pose(bot.x, bot.y, correctAngle)];
    }
  }
}
