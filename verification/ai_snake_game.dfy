/**
  State transitions of the hand-tracked snake (`SnakeGame`): each camera frame
  supplies the fingertip position, which becomes the new head of a continuous
  trail whose total length is capped by `allowedLength`.

  The step length `hypot(head - previousHead)` is supplied by the caller as an
  exact non-negative real; random food placement is supplied as a drawn point
  within the range of the random draw.
 */
module AiSnakeGame {
  import opened Geometry
  import opened SnakeTrail

  const InitialAllowedLength: int := 100
  const GrowthPerFood: int := 30
  /** Width and height of the food image, resized to 50 by 50. */
  const FoodSize: int := 50
  /** Number of newest trail points ignored by the self-collision test. */
  const CollisionSkip: nat := 50
  const CollisionRadius: nat := 15

  datatype SnakeGame = SnakeGame(
    trail: Trail,
    allowedLength: int,
    previousHead: Point,
    food: Point,
    score: nat,
    highScore: nat,
    gameOver: bool)

  /** The range of `randint(100, 700)`, `randint(100, 500)`. */
  predicate InFoodArea(p: Point)
  {
    100 <= p.x <= 700 && 100 <= p.y <= 500
  }

  /** `step` is the exact Euclidean distance from `from` to `to`, the value the
      game measures for a frame. `Update` accepts any non-negative step, so
      everything proved about it holds for this one in particular. */
  predicate IsStepLength(from: Point, to: Point, step: real)
  {
    step >= 0.0 && step * step == SquaredDistance(from, to) as real
  }

  /** What every reachable state satisfies: a well-formed trail that fits its
      cap, whose newest point is the last head seen, a cap grown by exactly
      one increment per point scored, and food inside the drawing range. */
  predicate Valid(g: SnakeGame)
  {
    && WellFormed(g.trail)
    && g.trail.currentLength <= g.allowedLength as real
    && (|g.trail.points| > 0 ==> g.trail.points[|g.trail.points| - 1] == g.previousHead)
    && g.allowedLength == InitialAllowedLength + GrowthPerFood * g.score
    && InFoodArea(g.food)
  }

  /** A fresh game whose food was placed at `draw`. */
  function Init(draw: Point): (g: SnakeGame)
    requires InFoodArea(draw)
    ensures Valid(g)
    ensures g.trail.points == [] && g.score == 0 && g.highScore == 0 && !g.gameOver
    ensures g.previousHead == Point(0, 0) && g.food == draw
  {
    SnakeGame(EmptyTrail, InitialAllowedLength, Point(0, 0), draw, 0, 0, false)
  }

  /** Moves the food to the drawn position and changes nothing else. */
  function RandomizeFoodLocation(g: SnakeGame, draw: Point): (r: SnakeGame)
    requires InFoodArea(draw)
    ensures InFoodArea(r.food) && r.food == draw
    ensures r.(food := g.food) == g
  {
    g.(food := draw)
  }

  /** Starts a new game, folding the finished game's score into the high score. */
  function ResetGame(g: SnakeGame, draw: Point): (r: SnakeGame)
    requires InFoodArea(draw)
    ensures Valid(r)
    ensures r.highScore >= g.highScore && r.highScore >= g.score
    ensures r.highScore == g.highScore || r.highScore == g.score
    ensures r.score == 0 && !r.gameOver && r.trail == EmptyTrail
    ensures r.allowedLength == InitialAllowedLength && r.previousHead == Point(0, 0)
    ensures r.food == draw
  {
    var high := if g.score > g.highScore then g.score else g.highScore;
    Init(draw).(highScore := high)
  }

  /** Resetting twice is resetting once with the later draw: the first reset
      has already folded the score into the high score. */
  lemma ResetGameIdempotent(g: SnakeGame, draw: Point, draw': Point)
    requires InFoodArea(draw) && InFoodArea(draw')
    ensures ResetGame(ResetGame(g, draw), draw') == ResetGame(g, draw')
    ensures ResetGame(ResetGame(g, draw), draw').highScore == ResetGame(g, draw).highScore
  {
  }

  /** Self collision: the head is strictly within the collision radius of a
      trail point other than the `CollisionSkip` newest ones; a trail of at
      most `CollisionSkip` points never collides. */
  function CheckCollision(points: seq<Point>, head: Point): (r: bool)
    ensures |points| <= CollisionSkip ==> !r
    ensures r <==> |points| > CollisionSkip &&
                   exists i :: 0 <= i < |points| - CollisionSkip && Within(points[i], head, CollisionRadius)
  {
    if |points| > CollisionSkip then
      var older := points[..|points| - CollisionSkip];
      assert forall i :: 0 <= i < |older| ==> older[i] == points[i];
      AnyWithin(older, head, CollisionRadius)
    else
      false
  }

  /** The head lies strictly inside the food's box (half-extent `FoodSize / 2`). */
  predicate FoodHit(food: Point, head: Point)
  {
    && food.x - FoodSize / 2 < head.x < food.x + FoodSize / 2
    && food.y - FoodSize / 2 < head.y < food.y + FoodSize / 2
  }

  /** Eating: a hit moves the food, grows the cap by one increment and scores
      one point; a miss changes nothing. The cap grows in step with the score,
      so a valid state stays valid. */
  function CheckFoodCollision(g: SnakeGame, head: Point, draw: Point): (r: SnakeGame)
    requires InFoodArea(draw)
    ensures r.score == g.score + 1 <==> FoodHit(g.food, head)
    ensures r.score == g.score || r.score == g.score + 1
    ensures r.score == g.score ==> r == g
    ensures r.allowedLength - GrowthPerFood * r.score == g.allowedLength - GrowthPerFood * g.score
    ensures r.food == g.food || r.food == draw
    ensures FoodHit(g.food, head) ==> r.food == draw
    ensures r.(food := g.food, allowedLength := g.allowedLength, score := g.score) == g
    ensures Valid(g) ==> Valid(r)
  {
    if FoodHit(g.food, head) then
      var moved := RandomizeFoodLocation(g, draw);
      moved.(allowedLength := moved.allowedLength + GrowthPerFood, score := moved.score + 1)
    else
      g
  }

  /** The trail part of a frame: appending a non-negative step and trimming
      to a non-negative cap leaves a well-formed trail within the cap whose
      newest point, if any, is the new head. */
  lemma AppendThenTrimFitsCap(t: Trail, head: Point, step: real, allowed: int)
    requires WellFormed(t) && step >= 0.0 && allowed >= 0
    ensures var r := Trim(Append(t, head, step), allowed as real);
            && WellFormed(r)
            && r.currentLength <= allowed as real
            && (|r.points| > 0 ==> r.points[|r.points| - 1] == head)
  {
    var appended := Append(t, head, step);
    TrimPreservesWellFormed(appended, allowed as real);
    TrimKeepsNewest(appended, allowed as real);
    var r := Trim(appended, allowed as real);
    if r.lengths == [] {
      assert r.currentLength == Sum([]);
    }
  }

  /** The movement part of a frame: the head and its step join the trail,
      the trail is trimmed to the cap, and the head is remembered. What is
      left of the trail is a suffix of the old trail plus the head, and a
      valid state stays valid. */
  function Advance(g: SnakeGame, head: Point, step: real): (r: SnakeGame)
    requires |g.trail.points| == |g.trail.lengths|
    ensures IsSuffix(r.trail.points, g.trail.points + [head])
    ensures IsSuffix(r.trail.lengths, g.trail.lengths + [step])
    ensures r.previousHead == head
    ensures r.(trail := g.trail, previousHead := g.previousHead) == g
    ensures Valid(g) && step >= 0.0 ==> Valid(r)
  {
    var r := g.(trail := Trim(Append(g.trail, head, step), g.allowedLength as real), previousHead := head);
    assert Valid(g) && step >= 0.0 ==> Valid(r) by {
      if Valid(g) && step >= 0.0 {
        AppendThenTrimFitsCap(g.trail, head, step, g.allowedLength);
      }
    }
    r
  }

  /** One camera frame. A finished game is left as it is. Otherwise the head is
      appended, the tail trimmed to the cap, food checked, and the game ends if
      the head then touches the older part of its own trail. */
  function Update(g: SnakeGame, head: Point, step: real, draw: Point): (r: SnakeGame)
    requires |g.trail.points| == |g.trail.lengths|
    requires step >= 0.0
    requires InFoodArea(draw)
    ensures g.gameOver ==> r == g
    ensures !g.gameOver ==> r.previousHead == head && r.highScore == g.highScore
    ensures !g.gameOver ==> IsSuffix(r.trail.points, g.trail.points + [head])
    ensures !g.gameOver ==> IsSuffix(r.trail.lengths, g.trail.lengths + [step])
    ensures r.allowedLength >= g.allowedLength && r.score >= g.score
    ensures Valid(g) ==> Valid(r)
  {
    if g.gameOver then g
    else
      var fed := CheckFoodCollision(Advance(g, head, step), head, draw);
      if CheckCollision(fed.trail.points, head) then fed.(gameOver := true) else fed
  }

  /** Food handling within a frame: a hit scores exactly one point and grows
      the cap by exactly `GrowthPerFood`; a miss leaves both and the food alone. */
  lemma UpdateFood(g: SnakeGame, head: Point, step: real, draw: Point)
    requires !g.gameOver && |g.trail.points| == |g.trail.lengths|
    requires step >= 0.0
    requires InFoodArea(draw)
    ensures var r := Update(g, head, step, draw);
            if FoodHit(g.food, head) then
              r.score == g.score + 1 && r.allowedLength == g.allowedLength + GrowthPerFood && r.food == draw
            else
              r.score == g.score && r.allowedLength == g.allowedLength && r.food == g.food
  {
  }

  /** A running game ends in this frame exactly when the head touches a trail
      point outside the newest `CollisionSkip` of the trail left after
      trimming and eating. */
  lemma UpdateGameOver(g: SnakeGame, head: Point, step: real, draw: Point)
    requires !g.gameOver && |g.trail.points| == |g.trail.lengths|
    requires step >= 0.0
    requires InFoodArea(draw)
    ensures var r := Update(g, head, step, draw);
            var pts := r.trail.points;
            r.gameOver <==> |pts| > CollisionSkip &&
                            exists i :: 0 <= i < |pts| - CollisionSkip && Within(pts[i], head, CollisionRadius)
  {
  }

  /** A single step longer than the cap trims the trail to nothing, the new
      head included: the trail can be empty while the cap is positive. */
  lemma LongStepEmptiesTrail()
    ensures IsStepLength(Init(Point(400, 300)).previousHead, Point(120, 160), 200.0)
    ensures var g := Update(Init(Point(400, 300)), Point(120, 160), 200.0, Point(400, 300));
            g.trail.points == [] && g.trail.currentLength == 0.0 && !g.gameOver
  {
    var g0 := Init(Point(400, 300));
    assert SquaredDistance(g0.previousHead, Point(120, 160)) == 40000;
    var appended := Append(g0.trail, Point(120, 160), 200.0);
    assert appended.lengths == [200.0];
    assert Trim(appended, 100.0) == Trim(Trail([], [], 200.0 - 200.0), 100.0);
  }

  /** While the new total still fits under the cap, a frame trims nothing:
      the trail is the old trail with the head and step appended. */
  lemma UpdateWithinCapKeepsEveryPoint(g: SnakeGame, head: Point, step: real, draw: Point)
    requires !g.gameOver && |g.trail.points| == |g.trail.lengths|
    requires step >= 0.0
    requires InFoodArea(draw)
    requires g.trail.currentLength + step <= g.allowedLength as real
    ensures Update(g, head, step, draw).trail == Append(g.trail, head, step)
  {
    var appended := Append(g.trail, head, step);
    assert Trim(appended, g.allowedLength as real) == appended;
  }
}
