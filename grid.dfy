/** The playing field: a 320x320 pixel window cut into 32x32 pixel tiles,
    ten columns by ten rows. Cells are named by the pixel coordinates of
    their top-left corner, as the game does. */
module Grid {
  import opened Seqs

  const SpriteSize: int := 32
  const DisWidth: int := 320
  const DisHeight: int := 320
  const Columns: int := 10
  const Rows: int := 10
  const TileCount: int := 100

  datatype Cell = Cell(x: int, y: int)

  /** The bounds test of the collision check: inside the window. */
  predicate InBounds(x: int, y: int)
  {
    0 <= x < DisWidth && 0 <= y < DisHeight
  }

  /** A tile position: inside the window and aligned to the tile size. */
  predicate OnGrid(c: Cell)
  {
    InBounds(c.x, c.y) && c.x % SpriteSize == 0 && c.y % SpriteSize == 0
  }

  /** The cell at position `k` of the enumeration `Cells`. */
  function CellAt(k: int): Cell
  {
    Cell(SpriteSize * (k / Rows), SpriteSize * (k % Rows))
  }

  /** Every tile, column by column and top to bottom within a column: the
      order in which the food spawner's nested loops list them. */
  function Cells(): (r: seq<Cell>)
    ensures |r| == TileCount
  {
    seq(TileCount, k => CellAt(k))
  }

  lemma CellAtIndex(col: int, row: int)
    requires 0 <= col < Columns && 0 <= row < Rows
    ensures Cells()[col * Rows + row] == Cell(SpriteSize * col, SpriteSize * row)
  {
    var k := col * Rows + row;
    assert k / Rows == col && k % Rows == row;
  }

  /** The enumeration lists exactly the tile positions. */
  lemma CellsAreTheGrid(c: Cell)
    ensures c in Cells() <==> OnGrid(c)
  {
    if c in Cells() {
      var k :| 0 <= k < TileCount && Cells()[k] == c;
      assert 0 <= k / Rows < Columns && 0 <= k % Rows < Rows;
    }
    if OnGrid(c) {
      var col, row := c.x / SpriteSize, c.y / SpriteSize;
      assert c.x == SpriteSize * col && c.y == SpriteSize * row;
      CellAtIndex(col, row);
    }
  }

  /** No tile is listed twice. */
  lemma CellsDistinct()
    ensures Distinct(Cells())
  {
    forall i, j | 0 <= i < j < TileCount
      ensures Cells()[i] != Cells()[j]
    {
      assert i == Rows * (i / Rows) + i % Rows;
      assert j == Rows * (j / Rows) + j % Rows;
    }
  }

  /** Each tile occurs once in the enumeration, anything else never. */
  lemma CellsMultiplicity(c: Cell)
    ensures multiset(Cells())[c] == if OnGrid(c) then 1 else 0
  {
    CellsDistinct();
    DistinctMultiplicity(Cells(), c);
    CellsAreTheGrid(c);
  }

  /** The cells a snake may occupy: all tiles, none twice. */
  ghost predicate Placeable(w: seq<Cell>)
  {
    (forall k :: 0 <= k < |w| ==> OnGrid(w[k])) && Distinct(w)
  }
}
