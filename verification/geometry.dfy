/**
  Integer pixel geometry shared by both snake engines.

  Both games compare a Euclidean distance against a radius
  (`math.hypot(..) < r`, turtle's `distance(..) < r`). Over exact numbers
  `sqrt(d) < r` with `r >= 0` holds exactly when `d < r * r`, so the model
  compares squared distances and stays in integer arithmetic.
 */
module Geometry {

  /** A pixel position. */
  datatype Point = Point(x: int, y: int)

  function Abs(n: int): (r: nat)
    ensures r == n || r == -n
  {
    if n < 0 then -n else n
  }

  /** Square of the Euclidean distance between two points. */
  function SquaredDistance(p: Point, q: Point): int
  {
    (p.x - q.x) * (p.x - q.x) + (p.y - q.y) * (p.y - q.y)
  }

  /** `p` lies strictly closer than `radius` to `q`. */
  predicate Within(p: Point, q: Point, radius: nat)
  {
    SquaredDistance(p, q) < radius * radius
  }

  /** Scans `body` front to back for a point strictly closer than `radius` to `p`,
      stopping at the first one, as the collision loops of both games do. */
  function AnyWithin(body: seq<Point>, p: Point, radius: nat): (r: bool)
    ensures r <==> exists i :: 0 <= i < |body| && Within(body[i], p, radius)
  {
    if |body| == 0 then false
    else if Within(body[0], p, radius) then true
    else
      var rest := AnyWithin(body[1..], p, radius);
      assert forall i :: 1 <= i < |body| ==> body[i] == body[1..][i - 1];
      rest
  }
}
