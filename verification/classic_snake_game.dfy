/**
  State transitions of the keyboard-driven snake (`ClassicSnakeGame`): a head
  stepping on a 20-pixel grid, a chain of body segments that follow it, walls
  at 290 pixels from the centre, and one piece of food.

  One iteration of the game loop is the pure function `Tick`. The random food
  position and the position of a freshly created segment are parameters; the
  frame delay, sleeping and all drawing are not modelled.
 */
module ClassicSnakeGame {
  import opened Geometry

  /** Distance the head moves per tick. */
  const Step: int := 20
  /** A head farther than this from the centre on either axis hits the wall. */
  const WallLimit: int := 290
  /** The first grid line past the wall: the head never goes farther out. */
  const Reach: int := 300
  /** Food is eaten, and the body is hit, strictly within this distance. */
  const EatRadius: nat := 20
  const SelfRadius: nat := 20
  /** The range of `randint(-270, 270)` on each axis. */
  const FoodLimit: int := 270
  const PointsPerFood: nat := 10

  datatype Heading = Up | Down | Left | Right | Stop

  /** A direction key names one of the four moving headings. */
  type Turn = h: Heading | h != Stop witness Up

  datatype ClassicGame = ClassicGame(
    head: Point,
    heading: Heading,
    segments: seq<Point>,
    food: Point,
    score: nat,
    highScore: nat,
    paused: bool)

  predicate InFoodRange(p: Point)
  {
    -FoodLimit <= p.x <= FoodLimit && -FoodLimit <= p.y <= FoodLimit
  }

  predicate OnGrid(p: Point)
  {
    p.x % Step == 0 && p.y % Step == 0
  }

  /** What every reachable state satisfies: one segment per food eaten, a high
      score at least the score, food inside the drawing range, and a head on
      the grid no more than one step past the wall. */
  predicate Valid(g: ClassicGame)
  {
    && |g.segments| * PointsPerFood == g.score
    && g.score <= g.highScore
    && InFoodRange(g.food)
    && OnGrid(g.head)
    && -Reach <= g.head.x <= Reach && -Reach <= g.head.y <= Reach
  }

  /** A valid state whose head is not past the wall, as the loop sees it after
      the wall check. */
  predicate Settled(g: ClassicGame)
  {
    Valid(g) && -WallLimit <= g.head.x <= WallLimit && -WallLimit <= g.head.y <= WallLimit
  }

  /** The game as constructed: head at the centre and standing still, food
      straight above it, no body. */
  function Init(): (g: ClassicGame)
    ensures Valid(g) && g.segments == [] && g.heading == Stop && !g.paused
    ensures g.score == 0 && g.highScore == 0 && g.head == Point(0, 0) && g.food == Point(0, 100)
  {
    ClassicGame(Point(0, 0), Stop, [], Point(0, 100), 0, 0, false)
  }

  /** The heading directly against a moving heading. */
  function Opposite(d: Turn): (r: Turn)
    ensures r != d
  {
    match d
    case Up => Down
    case Down => Up
    case Left => Right
    case Right => Left
  }

  lemma OppositeInvolution(d: Turn)
    ensures Opposite(Opposite(d)) == d
  {
  }

  /** A direction key: accepted unless it names the reverse of the current
      heading, in which case the heading stays as it is. */
  function Go(h: Heading, d: Turn): (r: Heading)
    ensures r == d <==> h != Opposite(d)
    ensures r != d ==> r == h
  {
    if h == Opposite(d) then h else d
  }

  /** A moving snake never turns straight back with a single key, whatever key
      is pressed. */
  lemma GoNeverReverses(h: Turn, d: Turn)
    ensures Go(h, d) != Opposite(h)
  {
    if h != Opposite(d) {
      OppositeInvolution(d);
    }
  }

  /** Two keys between ticks can reverse the snake: a quarter turn followed by
      another quarter turn the same way points it back along its body. */
  lemma TwoKeysCanReverse()
    ensures Go(Go(Right, Up), Left) == Opposite(Right)
  {
  }

  function TogglePause(g: ClassicGame): (r: ClassicGame)
    ensures r.paused == !g.paused && r.(paused := g.paused) == g
  {
    g.(paused := !g.paused)
  }

  lemma TogglePauseInvolution(g: ClassicGame)
    ensures TogglePause(TogglePause(g)) == g
  {
  }

  /** One step of the head: a standing head stays, a moving head changes
      exactly one coordinate, the one along its heading, by exactly `Step`. */
  function Move(p: Point, h: Heading): (r: Point)
    ensures h == Stop ==> r == p
    ensures (h == Up || h == Down) ==> r.x == p.x && Abs(r.y - p.y) == Step
    ensures (h == Left || h == Right) ==> r.y == p.y && Abs(r.x - p.x) == Step
    ensures h == Up ==> r.y > p.y
    ensures h == Down ==> r.y < p.y
    ensures h == Left ==> r.x < p.x
    ensures h == Right ==> r.x > p.x
  {
    match h
    case Up => Point(p.x, p.y + Step)
    case Down => Point(p.x, p.y - Step)
    case Left => Point(p.x - Step, p.y)
    case Right => Point(p.x + Step, p.y)
    case Stop => p
  }

  /** Moving back along the opposite heading undoes a move. */
  lemma MoveUndo(p: Point, d: Turn)
    ensures Move(Move(p, d), Opposite(d)) == p
  {
  }

  /** A moving head always leaves the square it came from: its old position is
      not within the body radius of its new one. */
  lemma {:induction false} MoveLeavesOldSquare(p: Point, d: Turn)
    ensures !Within(Move(p, d), p, SelfRadius)
    ensures SquaredDistance(Move(p, d), p) == Step * Step
  {
    var q := Move(p, d);
    assert (q.x - p.x) * (q.x - p.x) + (q.y - p.y) * (q.y - p.y) == 400 by {
      if d == Up || d == Down {
        assert q.x - p.x == 0 && (q.y - p.y == 20 || q.y - p.y == -20);
      } else {
        assert q.y - p.y == 0 && (q.x - p.x == 20 || q.x - p.x == -20);
      }
    }
  }

  /** Food moves to the drawn position; nothing else changes. */
  function SpawnFood(g: ClassicGame, draw: Point): (r: ClassicGame)
    requires InFoodRange(draw)
    ensures InFoodRange(r.food) && r.food == draw
    ensures r.(food := g.food) == g
  {
    g.(food := draw)
  }

  /** A new segment joins the tail end of the chain, at wherever the new
      segment happens to stand. */
  function AddSegment(g: ClassicGame, p: Point): (r: ClassicGame)
    ensures |r.segments| == |g.segments| + 1
    ensures r.segments[..|g.segments|] == g.segments && r.segments[|g.segments|] == p
    ensures r.(segments := g.segments) == g
  {
    g.(segments := g.segments + [p])
  }

  /** Follow the leader: the first segment moves onto the head and every other
      segment onto the one before it; the chain keeps its length. */
  function MoveSegments(segs: seq<Point>, head: Point): (r: seq<Point>)
    ensures |r| == |segs|
    ensures |r| > 0 ==> r[0] == head
    ensures forall i :: 1 <= i < |r| ==> r[i] == segs[i - 1]
  {
    if |segs| == 0 then [] else [head] + segs[..|segs| - 1]
  }

  /** The shifting loop as written: walk from the tail to the second segment,
      copying the position of the segment in front, then put the first segment
      on the head. It computes `MoveSegments`. */
  method MoveSegmentsInPlace(segs: seq<Point>, head: Point) returns (r: seq<Point>)
    ensures r == MoveSegments(segs, head)
  {
    r := segs;
    var i := |segs| - 1;
    while i > 0
      invariant -1 <= i < |segs| && (|segs| > 0 ==> 0 <= i)
      invariant |r| == |segs|
      invariant forall k :: 0 <= k <= i ==> r[k] == segs[k]
      invariant forall k :: i < k < |segs| ==> r[k] == segs[k - 1]
    {
      r := r[i := r[i - 1]];
      i := i - 1;
    }
    if |r| > 0 {
      r := r[0 := head];
    }
    var m := MoveSegments(segs, head);
    assert forall k :: 0 <= k < |r| ==> r[k] == m[k];
  }

  /** Wherever a newly added segment stands, the next shift overwrites it: the
      chain after a shift depends only on the old chain and the head. */
  lemma MoveSegmentsOverwritesNewest(segs: seq<Point>, head: Point, p: Point, q: Point)
    ensures MoveSegments(segs + [p], head) == MoveSegments(segs + [q], head)
  {
    var a := MoveSegments(segs + [p], head);
    var b := MoveSegments(segs + [q], head);
    forall k | 1 <= k < |a|
      ensures a[k] == b[k]
    {
      assert (segs + [p])[k - 1] == segs[k - 1] == (segs + [q])[k - 1];
    }
  }

  /** The head is out when it lies beyond the wall on either axis. */
  function CheckWallCollision(p: Point): (r: bool)
    ensures r <==> !(-WallLimit <= p.x <= WallLimit && -WallLimit <= p.y <= WallLimit)
  {
    Abs(p.x) > WallLimit || Abs(p.y) > WallLimit
  }

  /** The head hits the body when some segment is strictly within the body
      radius; an empty chain is never hit. */
  function CheckSelfCollision(segments: seq<Point>, head: Point): (r: bool)
    ensures |segments| == 0 ==> !r
    ensures r <==> exists i :: 0 <= i < |segments| && Within(segments[i], head, SelfRadius)
  {
    AnyWithin(segments, head, SelfRadius)
  }

  /** Back to the start after a collision: head at the centre and standing
      still, no body, score folded into the high score and cleared. The food
      and the pause flag stay as they are. */
  function ResetGame(g: ClassicGame): (r: ClassicGame)
    ensures r.head == Point(0, 0) && r.heading == Stop && r.segments == [] && r.score == 0
    ensures r.highScore >= g.highScore && r.highScore >= g.score
    ensures r.highScore == g.highScore || r.highScore == g.score
    ensures r.food == g.food && r.paused == g.paused
    ensures InFoodRange(g.food) ==> Settled(r)
  {
    var high := if g.score > g.highScore then g.score else g.highScore;
    g.(head := Point(0, 0), heading := Stop, segments := [], highScore := high, score := 0)
  }

  /** Resetting a freshly reset game changes nothing. */
  lemma ResetGameIdempotent(g: ClassicGame)
    ensures ResetGame(ResetGame(g)) == ResetGame(g)
  {
  }

  /** Eating: new food is drawn, the chain grows by one segment, the score goes
      up by `PointsPerFood` and the high score follows it at once. */
  function EatFood(g: ClassicGame, draw: Point, newSegment: Point): (r: ClassicGame)
    requires InFoodRange(draw)
    ensures |r.segments| == |g.segments| + 1 && r.segments[..|g.segments|] == g.segments
    ensures r.score == g.score + PointsPerFood
    ensures r.highScore >= r.score && r.highScore >= g.highScore
    ensures r.highScore == g.highScore || r.highScore == r.score
    ensures r.food == draw
    ensures r.head == g.head && r.heading == g.heading && r.paused == g.paused
    ensures Valid(g) ==> Valid(r)
    ensures Settled(g) ==> Settled(r)
  {
    var grown := AddSegment(SpawnFood(g, draw), newSegment);
    var scored := grown.(score := grown.score + PointsPerFood);
    if scored.score > scored.highScore then scored.(highScore := scored.score) else scored
  }

  /** The wall check of a tick: a head past the wall sends the game back to
      the start; afterwards the head is inside the walls. */
  function WallCheck(g: ClassicGame): (r: ClassicGame)
    ensures CheckWallCollision(g.head) ==> r == ResetGame(g)
    ensures !CheckWallCollision(g.head) ==> r == g
    ensures Valid(g) ==> Settled(r)
  {
    if CheckWallCollision(g.head) then ResetGame(g) else g
  }

  /** The food check of a tick: a head strictly within `EatRadius` of the food
      eats it. */
  function FoodCheck(g: ClassicGame, draw: Point, newSegment: Point): (r: ClassicGame)
    requires InFoodRange(draw)
    ensures Within(g.head, g.food, EatRadius) ==> r == EatFood(g, draw, newSegment)
    ensures !Within(g.head, g.food, EatRadius) ==> r == g
    ensures Settled(g) ==> Settled(r)
  {
    if Within(g.head, g.food, EatRadius) then EatFood(g, draw, newSegment) else g
  }

  /** The movement of a tick: the body follows the head, then the head takes
      one step along its heading, ending at most one step past the wall. */
  function Advance(g: ClassicGame): (r: ClassicGame)
    ensures r.segments == MoveSegments(g.segments, g.head)
    ensures r.head == Move(g.head, g.heading)
    ensures r.(head := g.head, segments := g.segments) == g
    ensures Settled(g) ==> Valid(r)
  {
    g.(segments := MoveSegments(g.segments, g.head), head := Move(g.head, g.heading))
  }

  /** The self check of a tick: a head on its own body sends the game back to
      the start. */
  function SelfCheck(g: ClassicGame): (r: ClassicGame)
    ensures CheckSelfCollision(g.segments, g.head) ==> r == ResetGame(g)
    ensures !CheckSelfCollision(g.segments, g.head) ==> r == g
    ensures Valid(g) ==> Valid(r)
  {
    if CheckSelfCollision(g.segments, g.head) then ResetGame(g) else g
  }

  /** One iteration of the game loop. A paused game is left as it is;
      otherwise: wall check, food check, the body follows, the head moves,
      self check. The high score never drops, the score only grows by one
      food's worth or returns to zero, and a valid state stays valid. */
  function Tick(g: ClassicGame, draw: Point, newSegment: Point): (r: ClassicGame)
    requires InFoodRange(draw)
    ensures g.paused ==> r == g
    ensures r.paused == g.paused
    ensures r.highScore >= g.highScore
    ensures r.score == 0 || r.score == g.score || r.score == g.score + PointsPerFood
    ensures r.food == g.food || r.food == draw
    ensures Valid(g) ==> Valid(r)
  {
    if g.paused then g
    else SelfCheck(Advance(FoodCheck(WallCheck(g), draw, newSegment)))
  }

  /** Where a new segment is created does not matter: the same tick shifts it
      onto the segment in front before anything looks at it. */
  lemma TickIgnoresNewSegment(g: ClassicGame, draw: Point, p: Point, q: Point)
    requires InFoodRange(draw)
    ensures Tick(g, draw, p) == Tick(g, draw, q)
  {
    if !g.paused {
      var w := WallCheck(g);
      if Within(w.head, w.food, EatRadius) {
        var a := FoodCheck(w, draw, p);
        var b := FoodCheck(w, draw, q);
        assert a.segments == w.segments + [p];
        assert b.segments == w.segments + [q];
        MoveSegmentsOverwritesNewest(w.segments, w.head, p, q);
        assert Advance(a) == Advance(b);
      }
    }
  }

  /** The first tick of the scenario below: the head steps onto the food and
      nothing is eaten. */
  lemma StepOntoFood(draw: Point, p: Point)
    requires InFoodRange(draw)
    ensures Tick(ClassicGame(Point(0, 0), Right, [], Point(20, 0), 0, 0, false), draw, p)
         == ClassicGame(Point(20, 0), Right, [], Point(20, 0), 0, 0, false)
  {
    var g := ClassicGame(Point(0, 0), Right, [], Point(20, 0), 0, 0, false);
    assert WallCheck(g) == g;
    assert FoodCheck(g, draw, p) == g by {
      assert !Within(g.head, g.food, EatRadius);
    }
    var t1 := Advance(g);
    assert t1 == g.(head := Point(20, 0));
    assert SelfCheck(t1) == t1;
  }

  /** The second tick of the scenario below: the head standing on the food
      eats it, and the new segment takes the head's old place. */
  lemma EatFromFood(draw: Point, p: Point)
    requires InFoodRange(draw)
    ensures Tick(ClassicGame(Point(20, 0), Right, [], Point(20, 0), 0, 0, false), draw, p)
         == ClassicGame(Point(40, 0), Right, [Point(20, 0)], draw, PointsPerFood, PointsPerFood, false)
  {
    EatOnTheSpot(draw, p);
    FollowOffTheSpot(draw, p);
  }

  /** The checks of that second tick: inside the walls, on the food. */
  lemma EatOnTheSpot(draw: Point, p: Point)
    requires InFoodRange(draw)
    ensures var t1 := ClassicGame(Point(20, 0), Right, [], Point(20, 0), 0, 0, false);
            FoodCheck(WallCheck(t1), draw, p)
            == ClassicGame(Point(20, 0), Right, [p], draw, PointsPerFood, PointsPerFood, false)
  {
    var t1 := ClassicGame(Point(20, 0), Right, [], Point(20, 0), 0, 0, false);
    assert WallCheck(t1) == t1;
    assert Within(t1.head, t1.food, EatRadius);
    assert EatFood(t1, draw, p).segments == [p];
  }

  /** The moves of that second tick: the new segment is overwritten by the
      head's position and the head steps off it. */
  lemma FollowOffTheSpot(draw: Point, p: Point)
    ensures var eaten := ClassicGame(Point(20, 0), Right, [p], draw, PointsPerFood, PointsPerFood, false);
            SelfCheck(Advance(eaten))
            == ClassicGame(Point(40, 0), Right, [Point(20, 0)], draw, PointsPerFood, PointsPerFood, false)
  {
    var eaten := ClassicGame(Point(20, 0), Right, [p], draw, PointsPerFood, PointsPerFood, false);
    var moved := ClassicGame(Point(40, 0), Right, [Point(20, 0)], draw, PointsPerFood, PointsPerFood, false);
    assert Advance(eaten) == moved;
    assert !Within(Point(20, 0), Point(40, 0), SelfRadius);
  }

  /** Food is eaten on the tick after the head reaches it: the check comes
      before the move, so a head that steps onto the food scores nothing in
      that tick and eats it in the next. */
  lemma EatsOnTheFollowingTick(draw: Point, p: Point)
    requires InFoodRange(draw)
    ensures var g := ClassicGame(Point(0, 0), Right, [], Point(20, 0), 0, 0, false);
            var t1 := Tick(g, draw, p);
            var t2 := Tick(t1, draw, p);
            && t1.head == t1.food && t1.score == 0
            && t2.score == PointsPerFood && t2.food == draw
            && t2.segments == [Point(20, 0)] && t2.head == Point(40, 0)
  {
    StepOntoFood(draw, p);
    EatFromFood(draw, p);
  }

  /** A snake standing still at the centre that finds food there eats it and
      is sent back to the start in the same tick: its new first segment is put
      on the head, which does not move away from it. */
  lemma EatingWhileStoppedResets(draw: Point, p: Point)
    requires InFoodRange(draw)
    ensures var r := Tick(ClassicGame(Point(0, 0), Stop, [], Point(10, 0), 0, 0, false), draw, p);
            r.score == 0 && r.highScore == PointsPerFood && r.segments == [] && r.food == draw
  {
    var g := ClassicGame(Point(0, 0), Stop, [], Point(10, 0), 0, 0, false);
    assert WallCheck(g) == g;
    var eaten := FoodCheck(g, draw, p);
    assert eaten == EatFood(g, draw, p) by {
      assert Within(g.head, g.food, EatRadius);
    }
    assert eaten.segments == [p] && eaten.highScore == PointsPerFood;
    var moved := Advance(eaten);
    assert moved.segments == [Point(0, 0)] && moved.head == Point(0, 0);
    assert SelfCheck(moved) == ResetGame(moved) by {
      assert Within(moved.segments[0], moved.head, SelfRadius);
    }
  }

  /** Two keys pressed between ticks (see `TwoKeysCanReverse`) leave a snake
      that was moving right, with a body behind it, heading left; the next
      tick runs it into its own body and the game restarts. */
  lemma DoubleTurnRunsIntoBody(draw: Point, p: Point)
    requires InFoodRange(draw)
    ensures var g := ClassicGame(Point(40, 0), Left, [Point(20, 0), Point(0, 0)], Point(-200, -200), 20, 20, false);
            var r := Tick(g, draw, p);
            r.score == 0 && r.highScore == 20 && r.segments == [] && r.head == Point(0, 0)
  {
    var g := ClassicGame(Point(40, 0), Left, [Point(20, 0), Point(0, 0)], Point(-200, -200), 20, 20, false);
    var w := WallCheck(g);
    assert w == g;
    var f := FoodCheck(w, draw, p);
    assert f == g by {
      assert !Within(g.head, g.food, EatRadius);
    }
    var moved := Advance(f);
    assert moved.segments == [Point(40, 0), Point(20, 0)] && moved.head == Point(20, 0);
    assert CheckSelfCollision(moved.segments, moved.head) by {
      assert Within(moved.segments[1], moved.head, SelfRadius);
    }
    var r := SelfCheck(moved);
    assert r == ResetGame(moved);
  }
}
