# Snake game core, in Dafny

This project models the game logic of a small grid snake game written in
Python with pygame (`main.py`). The window is 320×320 pixels, cut into a
10×10 grid of 32-pixel tiles. The model covers the following:

- **The snake.** It is a class with these fields:
  - its *trail*: every head position it has had, oldest first, each with
    the angle of the move that reached it;
  - its *segments*, from head (0) to tail, each a position and an image;
  - its direction, its head position and angle, and its score.
- **The snake's operations:**
  - the constructor;
  - `move`: append one trail entry, then either realign every segment on
    the trail and choose its sprite, or stay frozen after a collision;
  - `grow`;
  - `collision_check`;
  - `score_to_text`.
- **The food.** Its constructor and `spawn`. `spawn` lists the 100 tiles,
  removes the tiles the snake covers with `list.remove`, and picks any
  tile that is left.
- **Two rules of the main loop.** The arrow-key guard that refuses the
  opposite direction, and the tick step: move, then grow and respawn the
  food when the head lands on it.

Images are modelled as a pair: a sprite sheet (head, tail, straight body,
or one of four corner pieces) and the rotation in degrees passed to
`pygame.transform.rotate`. The random choices become nondeterministic
choice (`:|`). The food can go to any free tile, and the model does not
claim the choice is uniform.

Main results:

- **The tick step keeps a game invariant** (`GameLoop.Tick`). Between
  ticks, either the game is over (a collision), or all of these hold:
  - the body covers distinct tiles;
  - the head sprite stands on the newest trail cell;
  - the food lies off the body.

  From such a state, `list.remove` in `spawn` never raises.
  `random.choice` raises only when the grown snake covers all 100 tiles.
- **After every move that does not collide, on a body of distinct tiles,
  every interior segment shows a straight piece or a corner piece opening
  toward both of its neighbours** (`Trails.HealthySpritesConnect`). Right
  after `grow`, the old tail is an interior segment that keeps its tail
  sheet, and the new segment waits at (-32, -32), until the next move
  realigns both. The corner table in `move` is exactly
  the turn geometry (`Sprites.CornerJoinsEdges`). A segment that doubled
  back would keep its stale image, but such a body would put two segments
  on one tile (`Trails.NoHalfTurnWhenHealthy`). Realigned segments
  form a chain of unit steps (`Trails.RealignIsContiguous`).
- **The score board reads back as the score** (`Scoring.ScoreTextValue`).
  It is six characters wide for every score below one million.

Some behaviour of the code worth knowing, all modelled as written:

- `score_to_text` pads to six characters. `"00000"[len(s) - 1:]` keeps
  `6 - len(s)` zeros. A score of 7 or more digits comes back unpadded.
- The constructor stacks the trail *below* the start position (larger y),
  with the newest entry at the start position. The segments start at the
  origin and only reach the trail on the first `move`.
- `collision_check` compares the newest trail entry with the trail entries
  at depths 2..n, not with the segment rectangles. With fewer than two
  segments its loop never runs, so it reports no collision.
- The tail sprite is rotated by the angle of the trail entry one step newer
  than the tail's own entry.

The arrow-key guard compares the key with the current `direction` field.
It does not compare it with the last move made. So two presses between
two ticks can turn the snake back the way it came
(`GameLoop.TwoPressesReverse`). The model keeps this behaviour.

## Model

| member | source | states |
|---|---|---|
| `SnakeState.Snake.constructor` | main.py:80-90 | Builds `length + 2` trail entries, 32 pixels apart in a column below (x, y) with the newest at (x, y), all at angle 0. Builds `length + 2` segments at the origin: head, `length` bodies, tail. The result satisfies the class invariant: the trail covers the segments and each entry is one move from the previous one. |
| `Trails.InitialTrailThreaded` | main.py:84-90 | Each entry of the constructor's trail is one upward move from the entry before it. |
| `SnakeState.InitialSegments` | main.py:83-89 | The initial segments: a head first, a tail last, straight bodies in between, `length + 2` in all. |
| `Trails.Advance` | main.py:107-123 | A move shifts the head by 32 pixels in the current direction. It records the angle of that direction: up 0, left 90, right -90, down 180. |
| `SnakeState.Snake.Move` | main.py:107-153 | Appends exactly one trail entry: the old head moved one tile in the current direction. Earlier entries are unchanged. If the new trail collides, no segment changes. Otherwise segment k takes the position of the entry k places from the newest, with the image `ImageAt` picks. Direction and score are unchanged, and the class invariant is kept. |
| `SnakeState.Snake.UpdateSegments` | main.py:125-153 | The segment loop of `move`, which calls `collision_check` on every pass. It keeps the number of segments. If the trail collides, no segment changes. Otherwise segment k ends on the entry k places from the newest, showing the image `ImageAt` picks. |
| `SnakeState.Snake.CollisionCheck` | main.py:155-163 | Changes nothing. Returns true exactly when there are at least two segments and either the newest entry lies outside [0, 320) on an axis, or its cell equals the cell of an entry at depth 2..n. |
| `Trails.HealthyNeverCollides` | main.py:155-163 | A body on distinct tiles is never reported as colliding. |
| `Trails.WindowAfterAppend` | main.py:125-128 | After one trail entry is appended, the body's n cells are the new cell followed by the n - 1 newest cells before the move. |
| `Trails.MoveKeepsHealthy` | main.py:107-163 | A move that does not collide keeps a body of distinct tiles on distinct tiles. |
| `Trails.EatKeepsHealthy` | main.py:92-97 | Moving onto a food tile that lies off the body and then growing keeps the longer body on distinct tiles. |
| `Trails.ImageAtPicks` | main.py:129-153 | What `ImageAt`, the sprite `move` picks for segment k, gives. The tail is turned by the angle of the entry one step newer. The head is turned by the newest angle. An interior segment shows a straight body, an unrotated corner piece, or its old image. When its angle equals the angle one step newer, it shows the straight body turned by that angle. |
| `Trails.RealignIsContiguous` | main.py:125-128 | Realigned segments stand on the body's cells, and consecutive segments are exactly one tile apart on one axis. |
| `Trails.RealignedSpriteConnects` | main.py:125-153 | An interior segment stands one move `from` past its tail-side neighbour and one move `to` short of its head-side neighbour. If it goes straight it shows the straight body rotated by its angle. If it turns a quarter it shows a corner piece whose two open edges face its two neighbours. |
| `Trails.InteriorImage` | main.py:137-153 | For an interior segment that does not double back, `move` picks the straight body rotated by the segment's angle when it goes straight, and otherwise the unrotated corner piece from the table, which opens toward both neighbours. |
| `Trails.NoHalfTurnWhenHealthy` | main.py:125-153 | On a threaded trail whose newest n cells are distinct tiles, no interior segment is reached by one move and left by the opposite one. |
| `Trails.HealthySpritesConnect` | main.py:125-153 | On a body of distinct tiles, every interior segment after a move is one step from each neighbour, in the directions its trail angles name, and those directions never reverse. It shows the straight body turned by its angle when it goes straight, and otherwise an unrotated corner piece whose open edges face both neighbours. |
| `Trails.StepDirection` | main.py:107-123 | The angle recorded in a trail entry names the direction of the move that reached it. |
| `Sprites.CornerJoinsEdges` | main.py:142-153 | For every quarter turn from direction `from` to `to`, the corner table gives the piece joining the edges `Opposite(from)` and `to`. For a half turn the table has no entry, and the image stays as it was. |
| `Sprites.Corner` | main.py:142-153 | The corner table. Any sheet it gives is one of the four corner pieces, and only for two different angles. Its exact entries are pinned by `Sprites.CornerJoinsEdges` and `Sprites.CornerOnlyOnTurns`. |
| `Sprites.CornerOnlyOnTurns` | main.py:142-153 | The corner table has entries only for pairs of direction angles that make a quarter turn. |
| `SnakeState.Snake.Grow` | main.py:92-97 | Appends exactly one segment after the old tail, at (-32, -32) with the straight body image. Adds exactly 100 to the score. Leaves the trail, direction and head fields unchanged. |
| `Scoring.ScoreToText` | main.py:99-101 | The decimal score, left-padded with '0' to six characters. A score with more than six digits comes back unpadded. |
| `Scoring.ScoreTextValue` | main.py:99-101 | The text is all digits and reads back as the score. It is exactly six characters long iff the score is below 1000000. |
| `Scoring.ScoreTextZero` | main.py:99-101 | A score of 0 shows "000000". |
| `Scoring.ScoreTextHundred` | main.py:99-101 | A score of 100 shows "000100". |
| `Scoring.ScoreTextFiveDigits` | main.py:99-101 | A score of 12345 shows "012345". |
| `Scoring.ScoreTextSevenDigits` | main.py:99-101 | A score of 1234567 shows "1234567", with no padding. |
| `Scoring.ValueOfDigits` | main.py:101 | `str(score)` reads back as the score. |
| `Scoring.DigitsLength` | main.py:101 | `str(n)` has at most k digits (k at least 1) iff n < 10^k. |
| `FoodSpawner.Food.constructor` | main.py:170-173 | The food starts on some tile: x and y are multiples of 32 in [0, 320). |
| `FoodSpawner.ListTiles` | main.py:176-180 | The nested loops list every tile exactly once, column by column, and nothing else. |
| `Grid.CellsAreTheGrid` | main.py:178-180 | A cell is in the tile list iff it is inside the window and aligned to 32 pixels. |
| `Seqs.RemoveFirst` | main.py:183-184 | `list.remove` succeeds iff the value is in the list. It then removes its first occurrence and keeps every other element in order. |
| `FoodSpawner.FreeCells` | main.py:176-184 | The removals all succeed iff the excluded cells are distinct tiles. The tiles left are then exactly the other tiles, 100 minus the number excluded. Otherwise it names the first cell that was not found: every cell before it is a distinct tile, and it is off the grid or already removed. |
| `FoodSpawner.Food.Spawn` | main.py:175-187 | Succeeds iff the newest n trail cells are distinct tiles and fewer than 100. The food then goes to a tile off those cells. `list.remove` fails iff those cells are not distinct tiles. `random.choice` fails iff they are all 100 tiles. On failure the food does not move. |
| `GameLoop.Steer` | main.py:204-211 | A key gives its direction unless it is the exact opposite of the current one, in which case the direction is unchanged. The result is never the opposite of the current direction. |
| `GameLoop.Press` | main.py:204-211 | The if-chain sets the direction to `Steer(current, key)`. It changes nothing else. |
| `GameLoop.TwoPressesReverse` | main.py:204-211 | From any direction, two key presses between ticks can set the opposite direction. |
| `GameLoop.MoveInPlay` | main.py:212-214 | In a game in play, a move either ends the game or keeps it in play. Otherwise it puts the head sprite on the food, which happens only without a collision and with the new head on the food cell. |
| `GameLoop.EatInPlay` | main.py:214-216 | After eating in play and growing, the body covers distinct tiles and the head sprite is on the newest cell. Any food position off the body puts the game back in play. |
| `GameLoop.Tick` | main.py:212-216 | When the snake already collides, the trail, segments, score and food are unchanged. Otherwise the trail gains exactly the entry `move` appends and the segments become what `move` leaves. If the head sprite then misses the food, that is all. If it lands on the food, one parked segment is added and 100 points are scored. The food then moves to a tile off the body, or stays put if `spawn` fails. The direction never changes. The game invariant is kept. From the invariant, a spawn failure can only be `random.choice` on an empty list with all 100 tiles covered. |
| `GameLoop.Start` | main.py:193-197 | The start-up sequence (a length-1 snake at (160, 160), one move, a food respawned) ends in play: no collision, the food off the snake, the invariant holding. |

## Left out

- pygame initialisation, asset and font loading, the window, caption and icon, and the `Sprite` wrapper class. These are calls into a graphics library.
- Rendering: `Background.draw`, `Snake.display`, `Food.draw`, `Debug.draw_grid`, the score and game-over text, `pygame.display.flip` and the frame clock. These are output only.
- Event polling, the 800 ms timer, QUIT, and leaving the game on a key press after game over. Only the decision rules of the key guard and the tick step are modelled.
- `Background.__init__`: weighted random sampling over float weights, for decoration only.
- Bitmap rotation: an image is a sheet plus a rotation angle, not pixels.
- Sprite objects and their group. Segments are values in a sequence that `Move` and `Grow` reassign, so aliasing between sprite objects is not modelled.
- Class-level shared lists and the global `snake` read by `spawn`. They become instance fields and a parameter. The game creates only one snake and one food.
- The float start coordinates `DIS_WIDTH / 2` become the integers 160 and 160. They are exact multiples of 32.
- Uniformity of `random.choice` and `random.randrange`. The model proves only that the choice lies in the free set.
- SnakeState.Snake.constructor: `length` is a natural number. With a negative length the source builds two segments; with `length = -1` its first trail entry is the start itself, and with `length <= -2` it lies above the start. The game never does this.
- SnakeState.Snake.Move: requires the class invariant `Valid()`. The source would run on some states outside it, but every state the game reaches satisfies it.
- SnakeState.Snake.Grow: requires fewer segments than trail entries, so that the class invariant `|segments| <= |trail|` still holds afterwards. The source's `grow` itself never fails. Only once the segments outnumber the trail entries would `spawn` (main.py:182) and `collision_check` (main.py:160) index past the oldest entry and raise IndexError. The game never gets there: start-up leaves one more trail entry than segments, and every grow follows a move.
- FoodSpawner.Food.Spawn: requires the trail to cover the segments. Otherwise the source raises IndexError while reading the trail.
- GameLoop.Press: takes only the four arrow keys. Any other key matches no branch and changes nothing.
