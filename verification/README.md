# Snake engines in Dafny

This project models the state logic of the two snake games in the
`ai-snake-game` repository. Drawing, input and timing are not part of it.

- **The hand-tracked snake** (`SnakeGame`, `src/ai_snake_game.py`). Each camera
  frame supplies a fingertip position. That position becomes the newest point of
  a continuous trail. Three things are kept together:
  - the trail's `points`, oldest first;
  - a parallel list of step `lengths`;
  - their running total `current_length`.

  The tail is trimmed whole step by whole step until the total fits under
  `allowed_length`. Food is a 50×50 box. Eating it grows the cap by 30 and
  scores one point. The game ends, and stays ended, when the head comes
  within 15 pixels of a trail point older than the 50 newest ones.
- **The classic snake** (`ClassicSnakeGame`, `src/classic_snake_game.py`). The
  head moves 20 pixels per tick on a grid and a chain of segments follows it.
  Key presses change the heading, except that a reversal is ignored. Walls
  stand at ±290. Food within 20 pixels is eaten, which is worth one segment
  and 10 points. Any collision sends the game back to the start and folds the
  score into the high score. Pausing freezes the game.

Files:

| file | module | contents |
|---|---|---|
| `geometry.dfy` | `Geometry` | integer points, squared distance, "some point within radius" |
| `snake_trail.dfy` | `SnakeTrail` | the trail record, its running-sum invariant, append and trim |
| `ai_snake_game.dfy` | `AiSnakeGame` | the hand-tracked game: reset, food, collision, one frame |
| `classic_snake_game.dfy` | `ClassicSnakeGame` | the classic game: headings, moves, segments, one tick |

Modelling choices:

- **Distances.** `hypot(dx, dy) < r` and turtle's `distance(..) < r` become
  `dx*dx + dy*dy < r*r` over integers. For a non-negative `r` the two agree
  exactly.
- **Step lengths.** The hand-tracked game's step length is an exact
  non-negative real `step`. `Update` accepts any non-negative step. The value
  the game measures, `hypot` of the move, is the one `IsStepLength` names
  (`step * step == dx*dx + dy*dy`), so every property of `Update` holds for
  it in particular.
- **Random draws.** Each `random.randint` draw is a parameter, required to lie
  in the range the call can produce.
- **New segments.** A newly created turtle segment has a position that
  nothing reads before the next shift overwrites it. It is an arbitrary
  point parameter, and `TickIgnoresNewSegment` shows that its value does not
  matter.
- **Lockstep lists.** Python keeps `points` and `lengths` in lockstep because
  every frame appends to both and every trim pops from both. `Update` therefore
  requires equal lengths of its input trail. This is the class invariant: it
  holds from construction on and `Update` re-establishes it.
- **One loop iteration.** Each game loop body is a pure function:
  - `AiSnakeGame.Update` for one camera frame;
  - `ClassicSnakeGame.Tick` for one turtle tick.

  Each is composed from named stages. Each stage carries its own "a valid
  state stays valid" postcondition.

Behaviours of the code worth knowing:

- In the hand-tracked game, food is checked after trimming and before the
  self-collision test, so a frame that eats and collides both scores and ends
  the game.
- A single step longer than the cap trims the trail to nothing. This removes
  the new head too, so the trail can be empty while the cap is positive
  (`LongStepEmptiesTrail`).
- In the classic game, food is checked before the head moves. A head that
  steps onto the food eats it on the following tick, not on the tick it
  arrives (`EatsOnTheFollowingTick`).
- The classic game raises the high score the moment food is eaten, as well as
  when a collision resets the game.

## Model

| member | source | states |
|---|---|---|
| `Geometry.AnyWithin` | src/classic_snake_game.py:198-203 | the front-to-back scan finds a point strictly within the radius exactly when one exists in the list |
| `SnakeTrail.SumAppend` | src/ai_snake_game.py:125-127 | adding a step to the running total gives the total of the list with the step appended |
| `SnakeTrail.Append` | src/ai_snake_game.py:124-127 | pushing a point, its non-negative step, and adding the step to `current_length` keeps the lists in lockstep and the total equal to the sum |
| `SnakeTrail.PopOldest` | src/ai_snake_game.py:151-153 | one trimming round drops the oldest point and length together and subtracts exactly the popped length, keeping the bookkeeping consistent |
| `SnakeTrail.Trim` | src/ai_snake_game.py:148-153 | after trimming, `current_length <= allowed_length` or the lists are empty; what is left of `points` and of `lengths` is a suffix of the old lists, in lockstep |
| `SnakeTrail.TrimPreservesWellFormed` | src/ai_snake_game.py:150-153 | trimming keeps `current_length` equal to the sum of `lengths` and every length non-negative |
| `SnakeTrail.TrimKeepsNewest` | src/ai_snake_game.py:148-153 | trimming removes from the oldest end only, so the newest point survives whenever anything does |
| `SnakeTrail.TrimRemovesOnlyTheExcess` | src/ai_snake_game.py:150 | every step removed was removed while the trail it shortened was longer than the cap |
| `SnakeTrail.TrimOvershootsByLessThanOneStep` | src/ai_snake_game.py:150-153 | putting back the last removed step would exceed the cap: trimming never removes more than needed |
| `SnakeTrail.TrimStep` | src/ai_snake_game.py:150-153 | while the total exceeds the cap and steps remain, trimming is one round of the loop followed by trimming the rest |
| `SnakeTrail.TrimInPlace` | src/ai_snake_game.py:148-153 | the `while` loop that pops the oldest length and point and subtracts the length computes exactly `Trim` |
| `AiSnakeGame.Init` | src/ai_snake_game.py:34-56 | a new game has an empty trail, cap 100, previous head (0,0), score and high score 0, not over, and is valid |
| `AiSnakeGame.RandomizeFoodLocation` | src/ai_snake_game.py:65-70 | the food moves to the drawn point, inside [100,700]×[100,500], and nothing else changes |
| `AiSnakeGame.ResetGame` | src/ai_snake_game.py:72-84 | a reset gives high score = max(old high score, old score), score 0, not over, empty trail with total 0, cap 100, previous head (0,0), food at the new draw, and a valid state |
| `AiSnakeGame.ResetGameIdempotent` | src/ai_snake_game.py:72-84 | resetting twice is the same as resetting once with the later draw; the second reset leaves the high score unchanged |
| `AiSnakeGame.CheckCollision` | src/ai_snake_game.py:86-104 | false whenever there are at most 50 points; otherwise true exactly when some point of `points[:-50]` is strictly within 15 of the head |
| `AiSnakeGame.CheckFoodCollision` | src/ai_snake_game.py:155-165 | the score rises by one exactly when the head is strictly inside the food's box of half-extent 25, and then the food moves to the draw; the cap grows by 30 per point scored; a miss changes nothing; a valid state stays valid |
| `AiSnakeGame.AppendThenTrimFitsCap` | src/ai_snake_game.py:123-131 | appending a step and trimming to a non-negative cap leaves a consistent trail within the cap whose newest point, if any, is the new head |
| `AiSnakeGame.Advance` | src/ai_snake_game.py:120-131 | the trail after a frame is a suffix of the old trail plus the new head (points and lengths), the head is remembered, and a valid state stays valid |
| `AiSnakeGame.Update` | src/ai_snake_game.py:106-139 | a finished game is left unchanged; otherwise the trail is a suffix of old trail plus head, the head is remembered, cap and score never decrease, the high score is untouched, and a valid state stays valid |
| `AiSnakeGame.UpdateFood` | src/ai_snake_game.py:133-134 | within a frame, a food hit adds exactly 1 to the score and exactly 30 to the cap and draws new food; a miss leaves score, cap and food unchanged |
| `AiSnakeGame.UpdateGameOver` | src/ai_snake_game.py:136-139 | a running game ends in a frame exactly when the head is within 15 of a point outside the 50 newest of the trimmed trail |
| `AiSnakeGame.LongStepEmptiesTrail` | src/ai_snake_game.py:148-153 | a first move from (0,0) to (120,160), whose exact length is 200, under cap 100 trims the trail to empty, total 0, without ending the game |
| `AiSnakeGame.UpdateWithinCapKeepsEveryPoint` | src/ai_snake_game.py:123-131 | while the new total fits under the cap nothing is trimmed: the trail is the old one with the head and step appended |
| `ClassicSnakeGame.Init` | src/classic_snake_game.py:27-86 | a new game has the head at (0,0) standing still, no segments, food at (0,100), scores 0, not paused, and is valid |
| `ClassicSnakeGame.Opposite` | src/classic_snake_game.py:122-140 | each moving heading has an opposite different from itself |
| `ClassicSnakeGame.Go` | src/classic_snake_game.py:122-140 | a key sets the named heading exactly when the current heading is not its reverse, including from standing still; otherwise the heading is unchanged |
| `ClassicSnakeGame.GoNeverReverses` | src/classic_snake_game.py:122-140 | a single key never points a moving snake back the way it came |
| `ClassicSnakeGame.TwoKeysCanReverse` | src/classic_snake_game.py:122-140 | two keys pressed between ticks (up, then left, while moving right) do reverse the heading |
| `ClassicSnakeGame.TogglePause` | src/classic_snake_game.py:142-144 | the pause flag flips and nothing else changes |
| `ClassicSnakeGame.TogglePauseInvolution` | src/classic_snake_game.py:142-144 | toggling twice restores the game |
| `ClassicSnakeGame.Move` | src/classic_snake_game.py:146-157 | standing still keeps the head; a moving head changes exactly the coordinate along its heading, by exactly 20, in the heading's direction |
| `ClassicSnakeGame.MoveUndo` | src/classic_snake_game.py:146-157 | a move followed by a move along the opposite heading returns the head to where it was |
| `ClassicSnakeGame.MoveLeavesOldSquare` | src/classic_snake_game.py:146-157 | a moving head ends at squared distance 400 from its old position, so not strictly within 20 of it |
| `ClassicSnakeGame.SpawnFood` | src/classic_snake_game.py:166-170 | new food lies in [-270,270]² at the drawn point and nothing else changes |
| `ClassicSnakeGame.AddSegment` | src/classic_snake_game.py:172-179 | the chain grows by one segment at the tail, keeping the old segments in order |
| `ClassicSnakeGame.MoveSegments` | src/classic_snake_game.py:181-191 | the chain keeps its length, the first segment goes to the head, and segment i goes to where segment i-1 was |
| `ClassicSnakeGame.MoveSegmentsInPlace` | src/classic_snake_game.py:181-191 | the tail-to-front copying loop followed by moving the first segment onto the head computes exactly `MoveSegments` |
| `ClassicSnakeGame.MoveSegmentsOverwritesNewest` | src/classic_snake_game.py:172-191 | after a shift, the chain does not depend on where the newest segment stood |
| `ClassicSnakeGame.CheckWallCollision` | src/classic_snake_game.py:193-196 | true exactly when the head lies outside the square [-290,290]² |
| `ClassicSnakeGame.CheckSelfCollision` | src/classic_snake_game.py:198-203 | false for an empty chain; true exactly when some segment is strictly within 20 of the head |
| `ClassicSnakeGame.ResetGame` | src/classic_snake_game.py:205-224 | head (0,0), standing still, no segments, score 0, high score = max(old high score, old score); food and pause flag untouched; valid whenever the food is in range |
| `ClassicSnakeGame.ResetGameIdempotent` | src/classic_snake_game.py:205-224 | resetting a freshly reset game changes nothing |
| `ClassicSnakeGame.EatFood` | src/classic_snake_game.py:250-262 | eating adds exactly one segment (keeping the others), exactly 10 points, places new food at the draw, and leaves the high score at least the score and at least the old high score |
| `ClassicSnakeGame.WallCheck` | src/classic_snake_game.py:245-247 | a head past the wall resets the game, otherwise nothing changes; afterwards a valid state has its head inside the walls |
| `ClassicSnakeGame.FoodCheck` | src/classic_snake_game.py:249-262 | a head strictly within 20 of the food eats it, otherwise nothing changes; validity within the walls is kept |
| `ClassicSnakeGame.Advance` | src/classic_snake_game.py:264-268 | the body follows the head and then the head moves one step; nothing else changes; a head inside the walls ends at most one step past them on the grid |
| `ClassicSnakeGame.SelfCheck` | src/classic_snake_game.py:270-272 | a head on its own body resets the game, otherwise nothing changes; validity is kept |
| `ClassicSnakeGame.Tick` | src/classic_snake_game.py:238-274 | a paused tick changes nothing; the high score never drops; the score becomes 0, stays, or rises by exactly 10; food stays or moves to the draw; a valid state stays valid |
| `ClassicSnakeGame.TickIgnoresNewSegment` | src/classic_snake_game.py:250-268 | where a freshly added segment is created makes no difference to the outcome of the tick |
| `ClassicSnakeGame.StepOntoFood` | src/classic_snake_game.py:245-272 | head (0,0) moving right with food at (20,0): after one tick the head is on the food and nothing was eaten |
| `ClassicSnakeGame.EatOnTheSpot` | src/classic_snake_game.py:245-262 | a head standing on the food inside the walls eats it: one segment, 10 points, high score 10, new food at the draw |
| `ClassicSnakeGame.FollowOffTheSpot` | src/classic_snake_game.py:264-272 | after eating, the new segment moves onto the head's old place and the head steps off it without a collision |
| `ClassicSnakeGame.EatFromFood` | src/classic_snake_game.py:245-272 | the tick after reaching the food, the snake has eaten it: score 10, one segment at (20,0), head at (40,0) |
| `ClassicSnakeGame.EatsOnTheFollowingTick` | src/classic_snake_game.py:245-272 | food reached in one tick is eaten only in the next |
| `ClassicSnakeGame.EatingWhileStoppedResets` | src/classic_snake_game.py:249-272 | a snake standing still at the centre that finds food there eats it and is reset in the same tick: score 0, high score 10, no segments |
| `ClassicSnakeGame.DoubleTurnRunsIntoBody` | src/classic_snake_game.py:238-272 | a snake turned back by two keys runs into its own body on the next tick and the game restarts with the high score kept |

## Left out

- Rendering is not modelled. This covers camera frames, overlays, turtle
  screens, the border, the scoreboard and `print`: they draw, and change no
  game state.
- Camera capture, hand detection and key binding are not modelled. Each frame
  supplies a head position to `Update`; each key press is a `Go` or
  `TogglePause` call.
- Loading the food image and the fallback drawing are not modelled. The food
  extent is fixed at the 50×50 the image is resized to.
- The classic game's `delay` speed-up and all `time.sleep` calls are not
  modelled. They are floating-point timing and do not affect the state.
- `random.randint` itself is not modelled. Drawn values are parameters
  restricted to the range of the draw.
- The floating-point value of `math.hypot` and the rounding of
  `current_length` are not modelled. Step lengths are exact non-negative
  reals, and the trim properties hold for any such lengths.
- No representation of turtle objects is modelled. Segments are positions,
  so hiding reset segments at (1000, 1000) has no counterpart.
- `AiSnakeGame.Update`'s requirement that `points` and `lengths` have equal
  length is the class invariant. The Python code would also run on unequal
  lists, until a pop from an empty `points` raised an error; that path is not
  modelled.
