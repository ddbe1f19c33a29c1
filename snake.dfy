/** The snake: its trail of head positions, its segments from head (0) to
    tail, its direction, its score, and the operations the game calls on
    it every tick. */
module SnakeState {
  import opened Grid
  import opened Sprites
  import opened Trails

  /** Where `grow` parks a new segment until the next move places it. */
  const Parked: Segment := Segment(-SpriteSize, -SpriteSize, Image(Body, 0))

  /** Points scored for each food eaten. */
  const FoodScore: nat := 100

  /** The segments the constructor creates, all at the origin with their
      sheets unrotated: head, `length` straight bodies, tail. */
  function InitialSegments(length: nat): (s: seq<Segment>)
    ensures |s| == length + 2
    ensures s[0].image.kind == Head && s[|s| - 1].image.kind == Tail
    ensures forall k :: 0 < k < |s| - 1 ==> s[k].image.kind == Body
  {
    [Segment(0, 0, Image(Head, 0))] + seq(length, _ => Segment(0, 0, Image(Body, 0)))
      + [Segment(0, 0, Image(Tail, 0))]
  }

  class Snake {
    var trail: seq<Entry>
    var segments: seq<Segment>
    var direction: Direction
    var posX: int
    var posY: int
    var angle: int
    var score: nat

    /** The trail covers every segment, the head fields repeat the newest
        entry, and each entry is one move from the one before. */
    ghost predicate Valid()
      reads this
    {
      && 2 <= |segments| <= |trail|
      && trail[|trail| - 1] == Entry(posX, posY, angle)
      && Threaded(trail)
    }

    constructor (x: int, y: int, length: nat)
      ensures Valid()
      ensures trail == InitialTrail(x, y, length)
      ensures segments == InitialSegments(length)
      ensures posX == x && posY == y && angle == 0
      ensures direction == Up && score == 0
    {
      posX, posY, angle := x, y, 0;
      direction, score := Up, 0;
      segments := [Segment(0, 0, Image(Head, 0))];
      trail := [Entry(x, y + (SpriteSize + SpriteSize * length), 0)];
      new;
      var i := length;
      while i >= 1
        invariant 0 <= i <= length
        invariant |trail| == length - i + 1 && |segments| == length - i + 1
        invariant forall j :: 0 <= j < |trail| ==> trail[j] == InitialTrail(x, y, length)[j]
        invariant segments == InitialSegments(length)[..length - i + 1]
        invariant posX == x && posY == y && angle == 0 && direction == Up && score == 0
      {
        segments := segments + [Segment(0, 0, Image(Body, 0))];
        trail := trail + [Entry(x, y + SpriteSize * i, 0)];
        i := i - 1;
      }
      segments := segments + [Segment(0, 0, Image(Tail, 0))];
      trail := trail + [Entry(x, y, 0)];
      assert trail == InitialTrail(x, y, length);
      InitialTrailThreaded(x, y, length);
    }

    /** `collision_check`, the loop over depths 2..n as the game runs it. */
    method CollisionCheck() returns (hit: bool)
      requires |segments| <= |trail|
      ensures hit == Collides(trail, |segments|)
    {
      var n, m := |segments|, |trail|;
      ghost var w := Window(trail, n);
      var i := 2;
      while i <= n
        invariant 2 <= i <= if n >= 2 then n + 1 else 2
        invariant i > 2 ==> InBounds(trail[m - 1].x, trail[m - 1].y)
        invariant forall k :: 1 <= k < i - 1 ==> w[k] != w[0]
      {
        if !InBounds(trail[m - 1].x, trail[m - 1].y) {
          return true;
        } else if trail[m - 1].x == trail[m - i].x && trail[m - 1].y == trail[m - i].y {
          assert w[i - 1] == w[0] && w[1..][i - 2] == w[i - 1];
          return true;
        }
        i := i + 1;
      }
      return false;
    }

    /** `move`: append the head's next position to the trail; then, unless
        that collides, put segment k on the entry k places from the newest
        and pick its image; on a collision the segments stay frozen. */
    method Move()
      requires Valid()
      modifies this
      ensures Valid() && |segments| < |trail|
      ensures trail == old(trail) + [Advance(old(posX), old(posY), old(direction))]
      ensures direction == old(direction) && score == old(score)
      ensures Collides(trail, |segments|) ==> segments == old(segments)
      ensures !Collides(trail, |segments|) ==> segments == Realign(trail, old(segments))
    {
      var e := Advance(posX, posY, direction);
      ThreadedAppend(trail, e);
      posX, posY, angle := e.x, e.y, e.angle;
      trail := trail + [e];
      UpdateSegments();
    }

    /** The loop of `move` over the segments, head first. */
    method UpdateSegments()
      requires 2 <= |segments| <= |trail|
      modifies this`segments
      ensures |segments| == old(|segments|)
      ensures Collides(trail, |segments|) ==> segments == old(segments)
      ensures !Collides(trail, |segments|) ==> segments == Realign(trail, old(segments))
    {
      var n := |segments|;
      ghost var collided := Collides(trail, n);
      ghost var target := if collided then segments else Realign(trail, segments);
      var i := 1;
      while i <= n
        invariant 1 <= i <= n + 1 && |segments| == n
        invariant forall k :: i - 1 <= k < n ==> segments[k] == old(segments)[k]
        invariant forall k :: 0 <= k < i - 1 ==> segments[k] == target[k]
      {
        var hit := CollisionCheck();
        if !hit {
          var m := |trail|;
          var img := ImageAt(trail, n, i - 1, segments[i - 1].image);
          segments := segments[i - 1 := Segment(trail[m - i].x, trail[m - i].y, img)];
          assert segments[i - 1] == Realign(trail, old(segments))[i - 1];
        }
        assert segments[i - 1] == target[i - 1];
        i := i + 1;
      }
    }

    /** `grow`: one more segment after the old tail, parked off the window,
        and 100 more points. The game only grows right after a move, so
        the trail still covers the new segment. */
    method Grow()
      requires Valid() && |segments| < |trail|
      modifies this
      ensures Valid()
      ensures segments == old(segments) + [Parked]
      ensures score == old(score) + FoodScore
      ensures trail == old(trail) && direction == old(direction)
      ensures posX == old(posX) && posY == old(posY) && angle == old(angle)
    {
      segments := segments + [Parked];
      score := score + FoodScore;
    }
  }
}
