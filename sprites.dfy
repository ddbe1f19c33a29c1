/** Directions, the rotation angle each one is drawn with, and the sprite
    images a snake segment can show. */
module Sprites {
  import opened Seqs

  datatype Direction = Up | Left | Right | Down

  function Opposite(d: Direction): (r: Direction)
    ensures r != d
  {
    match d
    case Up => Down
    case Down => Up
    case Left => Right
    case Right => Left
  }

  /** Rotation in degrees recorded for a move in direction `d`. */
  function Angle(d: Direction): int
  {
    match d
    case Up => 0
    case Left => 90
    case Right => -90
    case Down => 180
  }

  /** The direction a recorded angle stands for: the inverse of `Angle`. */
  function Heading(a: int): (d: Direction)
    ensures a == 0 || a == 90 || a == -90 || a == 180 ==> Angle(d) == a
  {
    if a == 0 then Up else if a == 90 then Left else if a == -90 then Right else Down
  }

  /** The sprite sheets of the snake: head, tail, straight body and the four
      corner pieces, each named after the two tile edges it connects. */
  datatype Kind = Head | Tail | Body | BottomRight | BottomLeft | TopRight | TopLeft

  predicate IsCorner(k: Kind)
  {
    k in {BottomRight, BottomLeft, TopRight, TopLeft}
  }

  /** A sprite as drawn: a sheet rotated counter-clockwise by `rotation` degrees. */
  datatype Image = Image(kind: Kind, rotation: int)

  /** The tile edges a corner piece joins, each named by the direction in
      which it faces (the bottom edge faces Down). */
  function Opens(k: Kind): set<Direction>
    requires IsCorner(k)
  {
    match k
    case BottomRight => {Down, Right}
    case BottomLeft => {Down, Left}
    case TopRight => {Up, Right}
    case TopLeft => {Up, Left}
  }

  /** The corner table of `move`: for a segment reached by a move at angle
      `a` and left by a move at angle `b`, the corner sheet to show, or
      `None` for a pair the table does not list. */
  function Corner(a: int, b: int): (r: Option<Kind>)
    ensures r.Some? ==> IsCorner(r.value) && a != b
  {
    if (a == 0 && b == -90) || (a == 90 && b == 180) then Some(BottomRight)
    else if (a == 0 && b == 90) || (a == -90 && b == 180) then Some(BottomLeft)
    else if (a == 90 && b == 0) || (a == 180 && b == -90) then Some(TopRight)
    else if (a == -90 && b == 0) || (a == 180 && b == 90) then Some(TopLeft)
    else None
  }

  /** The table is exactly the turn geometry: a segment entered moving
      `from` is open toward where it came from (`Opposite(from)`) and toward
      where it leaves (`to`); every quarter turn has the corner joining those
      two edges, and a half turn has no entry. */
  lemma {:induction false} CornerJoinsEdges(from: Direction, to: Direction)
    ensures to != from && to != Opposite(from) ==>
      Corner(Angle(from), Angle(to)).Some? &&
      Opens(Corner(Angle(from), Angle(to)).value) == {Opposite(from), to}
    ensures to == Opposite(from) ==> Corner(Angle(from), Angle(to)) == None
  {
    match from
    case Up =>
      assert {Down, Right} == {Opposite(Up), Right};
      assert {Down, Left} == {Opposite(Up), Left};
    case Down =>
      assert {Up, Right} == {Opposite(Down), Right};
      assert {Up, Left} == {Opposite(Down), Left};
    case Left =>
      assert {Down, Right} == {Right, Down};
      assert {Up, Right} == {Right, Up};
    case Right =>
      assert {Down, Left} == {Left, Down};
      assert {Up, Left} == {Left, Up};
  }

  /** Only the angles of the four directions ever appear in the table. */
  lemma CornerOnlyOnTurns(a: int, b: int)
    requires Corner(a, b).Some?
    ensures exists from, to :: Angle(from) == a && Angle(to) == b && to != from && to != Opposite(from)
  {
    var from, to := Heading(a), Heading(b);
    assert Angle(from) == a && Angle(to) == b;
  }
}
