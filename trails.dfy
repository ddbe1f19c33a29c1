/** The snake's trail (every head position it has had, oldest first, each
    with the angle of the move that reached it) and what is derived from
    it: the window of cells the body covers, the collision test, and the
    position and image of every segment after a move. */
module Trails {
  import opened Seqs
  import opened Grid
  import opened Sprites

  datatype Entry = Entry(x: int, y: int, angle: int)

  /** One displayed part of the snake: a position and the image drawn there. */
  datatype Segment = Segment(x: int, y: int, image: Image)

  /** Pixel offset of a move in direction `d`. */
  function DeltaX(d: Direction): int
  {
    match d
    case Left => -SpriteSize
    case Right => SpriteSize
    case _ => 0
  }

  function DeltaY(d: Direction): int
  {
    match d
    case Up => -SpriteSize
    case Down => SpriteSize
    case _ => 0
  }

  /** Where a move in direction `d` from pixel position (x, y) lands: one
      tile away on one axis, recording the direction's angle. */
  function Advance(x: int, y: int, d: Direction): (e: Entry)
    ensures e.angle == Angle(d)
    ensures || (e.x == x && (e.y == y - SpriteSize || e.y == y + SpriteSize))
            || (e.y == y && (e.x == x - SpriteSize || e.x == x + SpriteSize))
  {
    Entry(x + DeltaX(d), y + DeltaY(d), Angle(d))
  }

  /** `f` is one move away from `e` and records that move's angle. */
  predicate IsStep(e: Entry, f: Entry)
  {
    f == Advance(e.x, e.y, Heading(f.angle))
  }

  /** Every entry of the trail is one move on from the entry before it. */
  ghost predicate Threaded(t: seq<Entry>)
  {
    forall j :: 1 <= j < |t| ==> IsStep(t[j - 1], t[j])
  }

  /** One more move keeps a trail threaded. */
  lemma ThreadedAppend(t: seq<Entry>, e: Entry)
    requires Threaded(t) && |t| >= 1 && IsStep(t[|t| - 1], e)
    ensures Threaded(t + [e])
  {
    var t' := t + [e];
    forall j | 1 <= j < |t'| ensures IsStep(t'[j - 1], t'[j]) {
      if j < |t| {
        assert t'[j - 1] == t[j - 1] && t'[j] == t[j];
      }
    }
  }

  /** The trail built by the snake's constructor: `length + 2` entries in a
      column below (x, y), 32 pixels apart, the newest at (x, y). */
  function InitialTrail(x: int, y: int, length: nat): (t: seq<Entry>)
    ensures |t| == length + 2 && t[|t| - 1] == Entry(x, y, 0)
  {
    seq(length + 2, j => Entry(x, y + SpriteSize * (length + 1 - j), 0))
  }

  lemma InitialTrailThreaded(x: int, y: int, length: nat)
    ensures Threaded(InitialTrail(x, y, length))
  {
    var t := InitialTrail(x, y, length);
    forall j | 1 <= j < |t| ensures IsStep(t[j - 1], t[j]) {
      assert t[j] == Advance(t[j - 1].x, t[j - 1].y, Up);
    }
  }

  /** The cells of the newest `n` trail entries, newest first: where the
      `n` segments stand after a move that did not collide. */
  function Window(t: seq<Entry>, n: nat): (w: seq<Cell>)
    requires n <= |t|
    ensures |w| == n
  {
    seq(n, k requires 0 <= k < n => Cell(t[|t| - 1 - k].x, t[|t| - 1 - k].y))
  }

  /** `collision_check` for a snake of `n` segments: the newest entry is
      outside the window, or it shares its cell with one of the entries at
      depths 2..n. With fewer than two segments the loop never runs. */
  ghost predicate Collides(t: seq<Entry>, n: nat)
    requires n <= |t|
  {
    n >= 2 &&
    (!InBounds(t[|t| - 1].x, t[|t| - 1].y) || Window(t, n)[0] in Window(t, n)[1..])
  }

  /** The body of a live snake: on tiles, no cell twice. */
  ghost predicate Healthy(t: seq<Entry>, n: nat)
    requires n <= |t|
  {
    Placeable(Window(t, n))
  }

  /** A healthy body is never in collision. */
  lemma HealthyNeverCollides(t: seq<Entry>, n: nat)
    requires n <= |t| && Healthy(t, n)
    ensures !Collides(t, n)
  {
    var w := Window(t, n);
    if n >= 2 {
      assert OnGrid(w[0]);
    }
  }

  /** After appending entry `e`, the window of `n` cells is `e`'s cell in
      front of the `n - 1` newest cells before the append. */
  lemma WindowAfterAppend(t: seq<Entry>, e: Entry, n: nat)
    requires 1 <= n <= |t| + 1
    ensures Window(t + [e], n) == [Cell(e.x, e.y)] + Window(t, n - 1)
  {
    var t' := t + [e];
    forall k | 1 <= k < n ensures Window(t', n)[k] == Window(t, n - 1)[k - 1] {
      assert t'[|t'| - 1 - k] == t[|t| - 1 - (k - 1)];
    }
  }

  /** A move that does not collide keeps a healthy body healthy: the new
      head is on a tile (in bounds, and 32 pixels from an aligned cell) and
      differs from the `n - 1` cells the body keeps. */
  lemma {:induction false} MoveKeepsHealthy(t: seq<Entry>, e: Entry, n: nat)
    requires 2 <= n <= |t| && Healthy(t, n)
    requires IsStep(t[|t| - 1], e)
    requires !Collides(t + [e], n)
    ensures Healthy(t + [e], n)
  {
    var w, w' := Window(t, n), Window(t + [e], n);
    WindowAfterAppend(t, e, n);
    WindowAfterAppend(t, e, n - 1 + 1);
    assert Window(t, n - 1) == w[..n - 1];
    assert OnGrid(w[0]);
    assert OnGrid(w'[0]);
    assert w'[1..] == w[..n - 1];
    forall i, j | 0 <= i < j < n ensures w'[i] != w'[j] {
      if i > 0 {
        assert w'[i] == w[i - 1] && w'[j] == w[j - 1];
      } else {
        assert w'[j] == w'[1..][j - 1];
      }
    }
  }

  /** A move onto the food cell followed by `grow` (one more segment) keeps
      the body healthy when the food was on a tile off the body. */
  lemma {:induction false} EatKeepsHealthy(t: seq<Entry>, e: Entry, n: nat)
    requires n <= |t| && Healthy(t, n)
    requires OnGrid(Cell(e.x, e.y)) && Cell(e.x, e.y) !in Window(t, n)
    ensures Healthy(t + [e], n + 1)
  {
    var w, w' := Window(t, n), Window(t + [e], n + 1);
    WindowAfterAppend(t, e, n + 1);
    assert w' == [Cell(e.x, e.y)] + w;
    forall i, j | 0 <= i < j < n + 1 ensures w'[i] != w'[j] {
      if i > 0 {
        assert w'[i] == w[i - 1] && w'[j] == w[j - 1];
      } else {
        assert w'[j] == w[j - 1];
      }
    }
  }

  /** The image `move` gives segment `k` (0 is the head) of a snake with `n`
      segments, given the image `prev` it shows now. Angles are read from
      the trail entry of the segment and from the one a step newer. */
  function ImageAt(t: seq<Entry>, n: nat, k: nat, prev: Image): Image
    requires 2 <= n <= |t| && k < n
  {
    var m := |t|;
    if k == n - 1 then Image(Tail, t[m - k].angle)
    else if k == 0 then Image(Head, t[m - 1].angle)
    else
      var a := t[m - 1 - k].angle;
      var b := t[m - k].angle;
      if a == b then Image(Body, a)
      else match Corner(a, b)
        case Some(c) => Image(c, 0)
        case None => prev
  }

  /** What each segment shows after a move: the tail is turned by the angle
      of the entry one step newer, the head by the newest angle, and an
      interior segment shows a straight body (always, when its two angles
      agree), an unrotated corner piece, or keeps its image. */
  lemma ImageAtPicks(t: seq<Entry>, n: nat, k: nat, prev: Image)
    requires 2 <= n <= |t| && k < n
    ensures var r := ImageAt(t, n, k, prev);
      && (k == n - 1 ==> r == Image(Tail, t[|t| - k].angle))
      && (k == 0 ==> r == Image(Head, t[|t| - 1].angle))
      && (0 < k < n - 1 ==> r == prev || r.kind == Body || (IsCorner(r.kind) && r.rotation == 0))
      && (0 < k < n - 1 && t[|t| - 1 - k].angle == t[|t| - k].angle ==> r == Image(Body, t[|t| - k].angle))
  {
  }

  /** The segments after a move that did not collide: segment `k` stands on
      the trail entry `k` places from the newest and shows `ImageAt`. */
  function Realign(t: seq<Entry>, segs: seq<Segment>): (r: seq<Segment>)
    requires 2 <= |segs| <= |t|
    ensures |r| == |segs|
  {
    seq(|segs|, k requires 0 <= k < |segs| =>
      Segment(t[|t| - 1 - k].x, t[|t| - 1 - k].y, ImageAt(t, |segs|, k, segs[k].image)))
  }

  /** Segment `p` is one tile away from segment `q`, on one axis. */
  predicate Adjacent(p: Segment, q: Segment)
  {
    (p.x == q.x && (p.y - q.y == SpriteSize || q.y - p.y == SpriteSize)) ||
    (p.y == q.y && (p.x - q.x == SpriteSize || q.x - p.x == SpriteSize))
  }

  /** Realigned segments stand on the body's cells and form a chain of
      unit steps from head to tail. */
  lemma RealignIsContiguous(t: seq<Entry>, segs: seq<Segment>)
    requires 2 <= |segs| <= |t| && Threaded(t)
    ensures forall k :: 0 <= k < |segs| ==>
      Cell(Realign(t, segs)[k].x, Realign(t, segs)[k].y) == Window(t, |segs|)[k]
    ensures forall k :: 0 <= k < |segs| - 1 ==> Adjacent(Realign(t, segs)[k], Realign(t, segs)[k + 1])
  {
    var r, m := Realign(t, segs), |t|;
    forall k | 0 <= k < |segs| - 1 ensures Adjacent(r[k], r[k + 1]) {
      assert IsStep(t[m - 1 - (k + 1)], t[m - 1 - k]);
    }
  }

  /** The turn a realigned segment makes: an interior segment of a threaded
      trail that does not double back stands one move `from` past its
      tail-side neighbour and one move `to` short of its head-side one; it
      shows a straight piece turned to its angle when the two moves agree,
      and otherwise the corner piece whose open edges face both neighbours. */
  lemma {:induction false} RealignedSpriteConnects(t: seq<Entry>, segs: seq<Segment>, k: nat,
                                                   from: Direction, to: Direction)
    requires 2 <= |segs| <= |t| && Threaded(t) && 0 < k < |segs| - 1
    requires t[|t| - 1 - k].angle == Angle(from) && t[|t| - k].angle == Angle(to)
    requires to != Opposite(from)
    ensures var r := Realign(t, segs);
      && r[k].x == r[k + 1].x + DeltaX(from) && r[k].y == r[k + 1].y + DeltaY(from)
      && r[k - 1].x == r[k].x + DeltaX(to) && r[k - 1].y == r[k].y + DeltaY(to)
      && (from == to ==> r[k].image == Image(Body, Angle(from)))
      && (from != to ==>
            IsCorner(r[k].image.kind) && r[k].image.rotation == 0 &&
            Opens(r[k].image.kind) == {Opposite(from), to})
  {
    RealignedNeighbours(t, segs, k, from, to);
    var r := Realign(t, segs);
    assert r[k].image == ImageAt(t, |segs|, k, segs[k].image);
    InteriorImage(t, |segs|, k, segs[k].image, from, to);
  }

  /** The positions half of the turn: a realigned interior segment lies one
      move `from` past its tail-side neighbour and one move `to` short of its
      head-side one. */
  lemma RealignedNeighbours(t: seq<Entry>, segs: seq<Segment>, k: nat, from: Direction, to: Direction)
    requires 2 <= |segs| <= |t| && Threaded(t) && 0 < k < |segs| - 1
    requires t[|t| - 1 - k].angle == Angle(from) && t[|t| - k].angle == Angle(to)
    ensures var r := Realign(t, segs);
      && r[k].x == r[k + 1].x + DeltaX(from) && r[k].y == r[k + 1].y + DeltaY(from)
      && r[k - 1].x == r[k].x + DeltaX(to) && r[k - 1].y == r[k].y + DeltaY(to)
  {
    RealignedStep(t, segs, k, from);
    RealignedStep(t, segs, k - 1, to);
  }

  /** Segment `k` of a realignment lies one move in the direction its trail
      entry's angle names from segment `k + 1`. */
  lemma RealignedStep(t: seq<Entry>, segs: seq<Segment>, k: nat, d: Direction)
    requires 2 <= |segs| <= |t| && Threaded(t) && k < |segs| - 1
    requires t[|t| - 1 - k].angle == Angle(d)
    ensures var r := Realign(t, segs);
      r[k].x == r[k + 1].x + DeltaX(d) && r[k].y == r[k + 1].y + DeltaY(d)
  {
    var m := |t|;
    var r := Realign(t, segs);
    assert r[k].x == t[m - 1 - k].x && r[k].y == t[m - 1 - k].y;
    assert r[k + 1].x == t[m - 2 - k].x && r[k + 1].y == t[m - 2 - k].y;
    assert IsStep(t[m - 2 - k], t[m - 1 - k]);
    StepDirection(t[m - 2 - k], t[m - 1 - k], d);
  }

  /** The image `move` picks for an interior segment whose trail entry was
      reached moving `from` and left moving `to`, when that is not a half turn. */
  lemma InteriorImage(t: seq<Entry>, n: nat, k: nat, prev: Image, from: Direction, to: Direction)
    requires 2 <= n <= |t| && 0 < k < n - 1
    requires t[|t| - 1 - k].angle == Angle(from) && t[|t| - k].angle == Angle(to)
    requires to != Opposite(from)
    ensures from == to ==> ImageAt(t, n, k, prev) == Image(Body, Angle(from))
    ensures from != to ==>
      ImageAt(t, n, k, prev) == Image(Corner(Angle(from), Angle(to)).value, 0) &&
      IsCorner(ImageAt(t, n, k, prev).kind) &&
      Opens(ImageAt(t, n, k, prev).kind) == {Opposite(from), to}
  {
    CornerJoinsEdges(from, to);
    assert from == to <==> Angle(from) == Angle(to);
  }

  /** The angle recorded in a step names the step's direction. */
  lemma StepDirection(e: Entry, f: Entry, d: Direction)
    requires IsStep(e, f) && f.angle == Angle(d)
    ensures f.x == e.x + DeltaX(d) && f.y == e.y + DeltaY(d)
  {
  }

  /** A threaded trail records only direction angles. */
  lemma TrailAngle(t: seq<Entry>, i: nat)
    requires Threaded(t) && 1 <= i < |t|
    ensures t[i].angle == Angle(Heading(t[i].angle))
  {
    assert IsStep(t[i - 1], t[i]);
  }

  /** On a body of distinct tiles no interior segment doubles back: moving
      `from` and then straight back would put its two neighbours on one tile. */
  lemma NoHalfTurnWhenHealthy(t: seq<Entry>, n: nat, k: nat, from: Direction)
    requires 2 <= n <= |t| && Threaded(t) && Healthy(t, n) && 0 < k < n - 1
    requires t[|t| - 1 - k].angle == Angle(from)
    ensures t[|t| - k].angle != Angle(Opposite(from))
  {
    var m := |t|;
    var w := Window(t, n);
    assert w[k - 1] != w[k + 1];
    var to := Heading(t[m - k].angle);
    TrailAngle(t, m - k);
    assert IsStep(t[m - 2 - k], t[m - 1 - k]) && IsStep(t[m - 1 - k], t[m - k]);
    StepDirection(t[m - 2 - k], t[m - 1 - k], from);
    StepDirection(t[m - 1 - k], t[m - k], to);
    assert to != Opposite(from);
  }

  /** On a body of distinct tiles every interior segment of a realignment
      shows the straight body turned by its angle, or the corner piece whose
      two open edges face its two neighbours. */
  lemma {:induction false} HealthySpritesConnect(t: seq<Entry>, segs: seq<Segment>, k: nat)
    requires 2 <= |segs| <= |t| && Threaded(t) && Healthy(t, |segs|) && 0 < k < |segs| - 1
    ensures var r := Realign(t, segs);
      var from, to := Heading(t[|t| - 1 - k].angle), Heading(t[|t| - k].angle);
      && to != Opposite(from)
      && r[k].x == r[k + 1].x + DeltaX(from) && r[k].y == r[k + 1].y + DeltaY(from)
      && r[k - 1].x == r[k].x + DeltaX(to) && r[k - 1].y == r[k].y + DeltaY(to)
      && (from == to ==> r[k].image == Image(Body, Angle(from)))
      && (from != to ==>
            IsCorner(r[k].image.kind) && r[k].image.rotation == 0 &&
            Opens(r[k].image.kind) == {Opposite(from), to})
  {
    var m := |t|;
    var from, to := Heading(t[m - 1 - k].angle), Heading(t[m - k].angle);
    TrailAngle(t, m - 1 - k);
    TrailAngle(t, m - k);
    NoHalfTurnWhenHealthy(t, |segs|, k, from);
    RealignedSpriteConnects(t, segs, k, from, to);
  }
}
