/** The food and its spawner: list every tile, remove the cells the snake
    covers, and put the food on one of the tiles left. */
module FoodSpawner {
  import opened Seqs
  import opened Grid
  import opened Trails
  import opened SnakeState

  /** What the removal loop of `spawn` ends with: the tiles left, or the
      first cell `list.remove` did not find (a ValueError). */
  datatype Removal = Remaining(points: seq<Cell>) | Missing(cell: Cell)

  /** How `spawn` ends: the food placed, `list.remove` raising on a cell, or
      `random.choice` raising on an empty list. */
  datatype SpawnResult = Placed(cell: Cell) | RemoveFailed(cell: Cell) | NoFreeCell

  /** The nested loops of `spawn` that list every tile once, column by
      column. */
  method ListTiles() returns (points: seq<Cell>)
    ensures points == Cells()
    ensures forall c :: c in points <==> OnGrid(c)
  {
    points := [];
    var x := 0;
    ghost var col := 0;
    while x < DisWidth
      invariant 0 <= col <= Columns && x == SpriteSize * col
      invariant points == Cells()[..col * Rows]
    {
      var y := 0;
      ghost var row := 0;
      while y < DisHeight
        invariant 0 <= row <= Rows && y == SpriteSize * row
        invariant points == Cells()[..col * Rows + row]
      {
        CellAtIndex(col, row);
        points := points + [Cell(x, y)];
        y, row := y + SpriteSize, row + 1;
      }
      x, col := x + SpriteSize, col + 1;
    }
    assert points == Cells()[..TileCount];
    forall c ensures c in points <==> OnGrid(c) {
      CellsAreTheGrid(c);
    }
  }

  /** Lists the tiles as `spawn` does and removes each excluded cell in
      order. It gets through exactly when the excluded cells are distinct
      tiles, and then leaves the other tiles, one of each. */
  method FreeCells(excluded: seq<Cell>) returns (r: Removal)
    ensures r.Remaining? <==> Placeable(excluded)
    ensures r.Remaining? ==> |r.points| == TileCount - |excluded|
    ensures r.Remaining? ==> forall c :: c in r.points <==> OnGrid(c) && c !in excluded
    ensures r.Missing? ==> exists i :: 0 <= i < |excluded| && excluded[i] == r.cell &&
                                     Placeable(excluded[..i]) &&
                                     (!OnGrid(r.cell) || r.cell in excluded[..i])
  {
    var points := ListTiles();
    var i := 0;
    while i < |excluded|
      invariant 0 <= i <= |excluded|
      invariant Placeable(excluded[..i])
      invariant multiset(points) + multiset(excluded[..i]) == multiset(Cells())
    {
      var e := excluded[i];
      RemovalStep(points, excluded[..i], e);
      assert excluded[..i + 1] == excluded[..i] + [e];
      var removed := RemoveFirst(points, e);
      if removed.None? {
        PlaceablePrefix(excluded, i + 1);
        return Missing(e);
      }
      points := removed.value;
      i := i + 1;
    }
    assert excluded[..i] == excluded;
    RemovalDone(points, excluded);
    return Remaining(points);
  }

  /** One turn of the removal loop: with the tiles split between what is
      left and the distinct tiles removed so far, the next cell is found
      exactly when it is a tile not removed yet. */
  lemma RemovalStep(points: seq<Cell>, done: seq<Cell>, e: Cell)
    requires multiset(points) + multiset(done) == multiset(Cells())
    requires Placeable(done)
    ensures e in points <==> OnGrid(e) && e !in done
    ensures Placeable(done + [e]) <==> OnGrid(e) && e !in done
  {
    CellsMultiplicity(e);
    DistinctMultiplicity(done, e);
    DistinctSnoc(done, e);
    assert (done + [e])[|done|] == e;
    assert forall k :: 0 <= k < |done| ==> (done + [e])[k] == done[k];
  }

  /** After the loop: what is left is every tile not removed, once each. */
  lemma RemovalDone(points: seq<Cell>, done: seq<Cell>)
    requires multiset(points) + multiset(done) == multiset(Cells())
    requires Placeable(done)
    ensures |points| == TileCount - |done|
    ensures forall c :: c in points <==> OnGrid(c) && c !in done
  {
    assert |multiset(points)| + |multiset(done)| == |multiset(Cells())|;
    forall c ensures c in points <==> OnGrid(c) && c !in done {
      CellsMultiplicity(c);
      DistinctMultiplicity(done, c);
    }
  }

  lemma PlaceablePrefix(s: seq<Cell>, k: nat)
    requires k <= |s|
    ensures Placeable(s) ==> Placeable(s[..k])
  {
    if Placeable(s) {
      assert forall i :: 0 <= i < k ==> s[..k][i] == s[i];
    }
  }

  class Food {
    var x: int
    var y: int

    /** The food starts on a random tile. */
    constructor ()
      ensures OnGrid(Cell(x, y))
    {
      assert OnGrid(Cell(0, 0));
      var c :| OnGrid(c);
      x, y := c.x, c.y;
    }

    /** `spawn`: the cells of the newest n trail entries are taken off the
        tile list and the food goes to any tile left; it moves only when a
        tile is left and every removal found its cell. */
    method Spawn(snake: Snake) returns (res: SpawnResult)
      requires |snake.segments| <= |snake.trail|
      modifies this
      ensures var w := Window(snake.trail, |snake.segments|);
        && (res.Placed? <==> Placeable(w) && |w| < TileCount)
        && (res.NoFreeCell? <==> Placeable(w) && |w| == TileCount)
        && (res.RemoveFailed? <==> !Placeable(w))
        && (res.Placed? ==> OnGrid(res.cell) && res.cell !in w && Cell(x, y) == res.cell)
      ensures !res.Placed? ==> x == old(x) && y == old(y)
    {
      var n, m := |snake.segments|, |snake.trail|;
      ghost var w := Window(snake.trail, n);
      var excluded: seq<Cell> := [];
      var i := 1;
      while i <= n
        invariant 1 <= i <= n + 1
        invariant excluded == w[..i - 1]
      {
        excluded := excluded + [Cell(snake.trail[m - i].x, snake.trail[m - i].y)];
        i := i + 1;
      }
      assert excluded == w;
      var free := FreeCells(excluded);
      match free
      case Missing(c) =>
        res := RemoveFailed(c);
      case Remaining(points) =>
        if |points| == 0 {
          res := NoFreeCell;
        } else {
          assert points[0] in points;
          var p :| p in points;
          x, y := p.x, p.y;
          res := Placed(p);
        }
    }
  }
}
