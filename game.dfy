/** The rules of the main loop: how an arrow key changes the direction, what
    a tick does, and how the game starts. */
module GameLoop {
  import opened Grid
  import opened Sprites
  import opened Trails
  import opened SnakeState
  import opened FoodSpawner

  /** The direction after pressing `key`: the key's direction unless it is
      the exact opposite of the current one. */
  function Steer(current: Direction, key: Direction): (r: Direction)
    ensures r != Opposite(current)
    ensures r == key <==> key != Opposite(current)
    ensures r != key ==> r == current
  {
    if key == Opposite(current) then current else key
  }

  /** The arrow-key branch of the event loop, as an if-chain on the key and
      the current direction. */
  method Press(snake: Snake, key: Direction)
    modifies snake`direction
    ensures snake.direction == Steer(old(snake.direction), key)
  {
    if key == Left && snake.direction != Right {
      snake.direction := Left;
    } else if key == Up && snake.direction != Down {
      snake.direction := Up;
    } else if key == Right && snake.direction != Left {
      snake.direction := Right;
    } else if key == Down && snake.direction != Up {
      snake.direction := Down;
    }
  }

  /** The guard looks at the direction field, not at the last move made:
      two presses between ticks can point the snake back the way it came. */
  lemma {:induction false} TwoPressesReverse(d: Direction)
    ensures exists k1, k2 :: Steer(Steer(d, k1), k2) == Opposite(d)
  {
    var k1 := if d == Up || d == Down then Left else Up;
    assert Steer(Steer(d, k1), Opposite(d)) == Opposite(d);
  }

  /** A game in progress, on the snake's trail and segments and the food
      cell: the body covers distinct tiles, the head sprite stands on the
      newest trail cell, and the food lies off the body. */
  ghost predicate InPlay(t: seq<Entry>, segs: seq<Segment>, food: Cell)
    requires 1 <= |segs| <= |t|
  {
    && Healthy(t, |segs|)
    && Cell(segs[0].x, segs[0].y) == Window(t, |segs|)[0]
    && food !in Window(t, |segs|)
  }

  /** What holds between ticks: the game is over (collision), or in play. */
  ghost predicate GameInv(snake: Snake, food: Food)
    reads snake, food
  {
    && snake.Valid()
    && (|| Collides(snake.trail, |snake.segments|)
        || InPlay(snake.trail, snake.segments, Cell(food.x, food.y)))
  }

  /** The segments `move` leaves behind after appending `e`. */
  ghost function AfterMove(t: seq<Entry>, segs: seq<Segment>, e: Entry): seq<Segment>
    requires 2 <= |segs| <= |t|
  {
    if Collides(t + [e], |segs|) then segs else Realign(t + [e], segs)
  }

  /** A move in play either ends the game, or leaves it in play, or puts the
      head sprite on the food; and it can only reach the food without a
      collision, by moving the head onto the food cell. */
  lemma {:induction false} MoveInPlay(t: seq<Entry>, segs: seq<Segment>, e: Entry, food: Cell)
    requires 2 <= |segs| <= |t| && IsStep(t[|t| - 1], e) && InPlay(t, segs, food)
    ensures var after := AfterMove(t, segs, e);
      if Cell(after[0].x, after[0].y) == food
      then !Collides(t + [e], |segs|) && Cell(e.x, e.y) == food
      else Collides(t + [e], |segs|) || InPlay(t + [e], after, food)
  {
    var n, t' := |segs|, t + [e];
    WindowAfterAppend(t, e, n);
    if !Collides(t', n) {
      assert AfterMove(t, segs, e)[0] == Realign(t', segs)[0];
      if Cell(e.x, e.y) != food {
        MoveKeepsHealthy(t, e, n);
        assert Window(t, n - 1) == Window(t, n)[..n - 1];
      }
    }
  }

  /** Eating in play: after the move and `grow`, the longer body is healthy
      and the head sprite still stands on the newest cell; any food cell off
      that body puts the game back in play. */
  lemma {:induction false} EatInPlay(t: seq<Entry>, segs: seq<Segment>, e: Entry, food: Cell)
    requires 2 <= |segs| <= |t| && IsStep(t[|t| - 1], e) && InPlay(t, segs, food)
    requires !Collides(t + [e], |segs|) && Cell(e.x, e.y) == food
    ensures Healthy(t + [e], |segs| + 1)
    ensures forall food' :: food' !in Window(t + [e], |segs| + 1) ==>
      InPlay(t + [e], Realign(t + [e], segs) + [Parked], food')
  {
    var n, t' := |segs|, t + [e];
    WindowAfterAppend(t, e, n + 1);
    assert OnGrid(food) by {
      WindowAfterAppend(t, e, n);
      assert InBounds(e.x, e.y);
      assert OnGrid(Window(t, n)[0]);
    }
    EatKeepsHealthy(t, e, n);
    assert (Realign(t', segs) + [Parked])[0] == Realign(t', segs)[0];
  }

  datatype TickOutcome = Skipped | Moved | Ate | Crashed(cause: SpawnResult)

  /** The tick branch of the event loop: when not in collision, move; when
      the head sprite is then on the food, grow and respawn the food. From a
      state of the game invariant the invariant holds again afterwards, and
      the spawn can only fail once the snake covers all 100 tiles. */
  method Tick(snake: Snake, food: Food) returns (outcome: TickOutcome)
    requires snake.Valid()
    modifies snake, food
    ensures snake.Valid()
    ensures outcome.Skipped? <==> old(Collides(snake.trail, |snake.segments|))
    ensures outcome.Skipped? ==> snake.trail == old(snake.trail) && snake.segments == old(snake.segments)
    ensures snake.direction == old(snake.direction)
    ensures !outcome.Skipped? ==>
      snake.trail == old(snake.trail) + [Advance(old(snake.posX), old(snake.posY), old(snake.direction))]
    ensures !outcome.Skipped? ==>
      var moved := old(AfterMove(snake.trail, snake.segments, Advance(snake.posX, snake.posY, snake.direction)));
      && (outcome.Moved? <==> Cell(moved[0].x, moved[0].y) != old(Cell(food.x, food.y)))
      && (outcome.Moved? ==> snake.segments == moved)
      && (!outcome.Moved? ==> snake.segments == moved + [Parked])
    ensures outcome.Crashed? ==> !outcome.cause.Placed?
    ensures !outcome.Ate? ==> food.x == old(food.x) && food.y == old(food.y)
    ensures outcome.Ate? ==>
      OnGrid(Cell(food.x, food.y)) && Cell(food.x, food.y) !in Window(snake.trail, |snake.segments|)
    ensures snake.score == if outcome.Ate? || outcome.Crashed? then old(snake.score) + FoodScore
                           else old(snake.score)
    ensures old(GameInv(snake, food)) && !outcome.Crashed? ==> GameInv(snake, food)
    ensures old(GameInv(snake, food)) && outcome.Crashed? ==>
      outcome.cause == NoFreeCell && |snake.segments| == TileCount
  {
    ghost var inPlay := GameInv(snake, food) && !Collides(snake.trail, |snake.segments|);
    ghost var t0, segs0, n := snake.trail, snake.segments, |snake.segments|;
    ghost var food0 := Cell(food.x, food.y);
    var over := snake.CollisionCheck();
    if over {
      return Skipped;
    }
    snake.Move();
    ghost var e := snake.trail[|snake.trail| - 1];
    assert snake.trail == t0 + [e] && snake.segments == AfterMove(t0, segs0, e);
    if inPlay {
      MoveInPlay(t0, segs0, e, food0);
    }
    if snake.segments[0].x == food.x && snake.segments[0].y == food.y {
      snake.Grow();
      var spawned := food.Spawn(snake);
      if spawned.Placed? {
        outcome := Ate;
        if inPlay {
          EatInPlay(t0, segs0, e, food0);
        }
      } else {
        outcome := Crashed(spawned);
        if inPlay {
          EatInPlay(t0, segs0, e, food0);
        }
      }
    } else {
      outcome := Moved;
    }
  }

  /** Start-up: a snake of length 1 at the middle of the window, one move,
      the food on a random tile and then respawned off the snake. */
  method Start() returns (snake: Snake, food: Food, spawned: SpawnResult)
    ensures fresh(snake) && fresh(food)
    ensures spawned.Placed? && GameInv(snake, food)
    ensures !Collides(snake.trail, |snake.segments|)
    ensures |snake.segments| == 3 && snake.score == 0 && snake.direction == Up
  {
    snake := new Snake(DisWidth / 2, DisHeight / 2, 1);
    ghost var t0 := snake.trail;
    assert t0 == [Entry(160, 224, 0), Entry(160, 192, 0), Entry(160, 160, 0)];
    snake.Move();
    assert snake.trail == t0 + [Entry(160, 128, 0)];
    assert Window(snake.trail, 3) == [Cell(160, 128), Cell(160, 160), Cell(160, 192)];
    assert Healthy(snake.trail, 3);
    HealthyNeverCollides(snake.trail, 3);
    food := new Food();
    spawned := food.Spawn(snake);
  }
}
