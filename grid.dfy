/**
 * The board's tile surface as values: integer cells, the bounds rectangle,
 * the tile map, and the specification of every change the board makes to it
 * (placing and erasing a piece, clearing a row with the rows above falling
 * down, clearing a column, the 3x3 explosion). The imperative methods of
 * Engine.Board are proved against these functions.
 */
module Grid {
  import opened Wrappers

  /** A tile coordinate (the z component of Unity's Vector3Int is always 0 here). */
  datatype Cell = Cell(x: int, y: int)

  function Add(a: Cell, b: Cell): Cell
  {
    Cell(a.x + b.x, a.y + b.y)
  }

  /** Opaque identifier of a tile asset. */
  type TileId = nat

  /** The tilemap: a cell holds a tile exactly when it is a key. */
  type Tiles = map<Cell, TileId>

  /** Unity's RectInt: a corner and a size; the maxima are exclusive. */
  datatype Rect = Rect(xMin: int, yMin: int, width: nat, height: nat)
  {
    function xMax(): int { xMin + width }
    function yMax(): int { yMin + height }

    predicate HasColumn(x: int) { xMin <= x < xMax() }

    predicate Contains(c: Cell) { HasColumn(c.x) && yMin <= c.y < yMax() }
  }

  /**
   * Board.Bounds: the rectangle of the given size whose corner is
   * (-w/2, -h/2) with C#'s truncating division, i.e. -(w/2) for a size
   * that is never negative. An even size is symmetric about 0; an odd one
   * has its extra column (row) on the positive side.
   */
  function BoundsOf(w: nat, h: nat): (r: Rect)
    ensures r.width == w && r.height == h
    ensures r.xMin + r.xMax() == w % 2 && r.yMin + r.yMax() == h % 2
    ensures r.xMin <= 0 <= r.xMax() && r.yMin <= 0 <= r.yMax()
  {
    Rect(-(w / 2), -(h / 2), w, h)
  }

  /** Tilemap.GetTile. */
  function At(g: Tiles, c: Cell): Option<TileId>
  {
    if c in g then Some(g[c]) else None
  }

  /** Tilemap.SetTile; writing None (a null tile) removes the tile. */
  function SetTile(g: Tiles, c: Cell, t: Option<TileId>): (r: Tiles)
    ensures At(r, c) == t
    ensures forall d :: d != c ==> At(r, d) == At(g, d)
  {
    match t
    case None => g - {c}
    case Some(id) => g[c := id]
  }

  /** Two tile maps that agree on every cell are the same map. */
  lemma SameTiles(g: Tiles, h: Tiles)
    requires forall c: Cell :: At(g, c) == At(h, c)
    ensures g == h
  {
    forall c | c in g
      ensures c in h && g[c] == h[c]
    {
      assert At(g, c) == At(h, c);
    }
    forall c | c in h
      ensures c in g
    {
      assert At(g, c) == At(h, c);
    }
  }

  /** The grid invariant: no tile is stored outside the bounds. */
  predicate InBounds(g: Tiles, b: Rect)
  {
    forall c: Cell :: c in g ==> b.Contains(c)
  }

  /** The absolute cells of a shape whose origin is at `pos`. */
  function Placed(cells: seq<Cell>, pos: Cell): set<Cell>
  {
    set i | 0 <= i < |cells| :: Add(cells[i], pos)
  }

  /**
   * Board.IsValidPosition: every cell of the shape placed at `pos` lies in
   * the bounds and holds no tile.
   */
  predicate Fits(g: Tiles, b: Rect, cells: seq<Cell>, pos: Cell)
  {
    forall i :: 0 <= i < |cells| ==> b.Contains(Add(cells[i], pos)) && Add(cells[i], pos) !in g
  }

  /** Board.Set: the cells written one after another with the piece's tile. */
  function Stamp(g: Tiles, cells: seq<Cell>, pos: Cell, t: TileId): Tiles
  {
    if cells == [] then g
    else Stamp(g, cells[..|cells| - 1], pos, t)[Add(cells[|cells| - 1], pos) := t]
  }

  /** Board.Clear: the cells emptied one after another. */
  function Erase(g: Tiles, cells: seq<Cell>, pos: Cell): Tiles
  {
    if cells == [] then g
    else Erase(g, cells[..|cells| - 1], pos) - {Add(cells[|cells| - 1], pos)}
  }

  /**
   * Board.Set writes the tile to exactly the piece's absolute cells; every
   * other cell keeps what it held.
   */
  lemma {:induction false} StampAt(g: Tiles, cells: seq<Cell>, pos: Cell, t: TileId)
    ensures forall c: Cell ::
              At(Stamp(g, cells, pos, t), c) == (if c in Placed(cells, pos) then Some(t) else At(g, c))
  {
    if cells != [] {
      var n := |cells| - 1;
      StampAt(g, cells[..n], pos, t);
      assert Placed(cells, pos) == Placed(cells[..n], pos) + {Add(cells[n], pos)} by {
        PlacedSnoc(cells, pos);
      }
    }
  }

  /** Board.Clear empties exactly the piece's absolute cells. */
  lemma {:induction false} EraseAt(g: Tiles, cells: seq<Cell>, pos: Cell)
    ensures forall c: Cell ::
              At(Erase(g, cells, pos), c) == (if c in Placed(cells, pos) then None else At(g, c))
  {
    if cells != [] {
      var n := |cells| - 1;
      EraseAt(g, cells[..n], pos);
      assert Placed(cells, pos) == Placed(cells[..n], pos) + {Add(cells[n], pos)} by {
        PlacedSnoc(cells, pos);
      }
    }
  }

  lemma PlacedSnoc(cells: seq<Cell>, pos: Cell)
    requires cells != []
    ensures Placed(cells, pos) == Placed(cells[..|cells| - 1], pos) + {Add(cells[|cells| - 1], pos)}
  {
    var n := |cells| - 1;
    forall c | c in Placed(cells, pos)
      ensures c in Placed(cells[..n], pos) + {Add(cells[n], pos)}
    {
      var i :| 0 <= i < |cells| && c == Add(cells[i], pos);
      if i < n {
        assert cells[..n][i] == cells[i];
      }
    }
    forall c | c in Placed(cells[..n], pos)
      ensures c in Placed(cells, pos)
    {
      var i :| 0 <= i < n && c == Add(cells[..n][i], pos);
      assert cells[..n][i] == cells[i];
    }
  }

  /** A shape that fits leaves the grid in bounds when it is stamped. */
  lemma StampInBounds(g: Tiles, b: Rect, cells: seq<Cell>, pos: Cell, t: TileId)
    requires InBounds(g, b)
    requires forall i :: 0 <= i < |cells| ==> b.Contains(Add(cells[i], pos))
    ensures InBounds(Stamp(g, cells, pos, t), b)
  {
    StampAt(g, cells, pos, t);
    forall c | c in Stamp(g, cells, pos, t)
      ensures b.Contains(c)
    {
      assert At(Stamp(g, cells, pos, t), c).Some?;
    }
  }

  /** Erasing never adds a tile. */
  lemma EraseInBounds(g: Tiles, b: Rect, cells: seq<Cell>, pos: Cell)
    requires InBounds(g, b)
    ensures InBounds(Erase(g, cells, pos), b)
  {
    EraseAt(g, cells, pos);
    forall c | c in Erase(g, cells, pos)
      ensures b.Contains(c)
    {
      assert At(Erase(g, cells, pos), c).Some?;
    }
  }

  /** Board.IsLineFull: every in-bounds column of the row holds a tile. */
  predicate LineFull(g: Tiles, b: Rect, row: int)
  {
    forall x | b.xMin <= x < b.xMax() :: Cell(x, row) in g
  }

  /**
   * What Board.LineClear(row) leaves in cell `c`: inside the in-bounds
   * columns, every row from `row` up to the last in-bounds row takes the
   * content of the row above it (the last one reads the row just outside
   * the bounds); a row at or above the top bound is only emptied. Other
   * cells keep their content.
   */
  function ShiftedAt(g: Tiles, b: Rect, row: int, c: Cell): Option<TileId>
  {
    if b.HasColumn(c.x) && row <= c.y < b.yMax() then At(g, Cell(c.x, c.y + 1))
    else if b.HasColumn(c.x) && c.y == row then None
    else At(g, c)
  }

  /** The tile map Board.LineClear(row) produces. */
  function LineCleared(g: Tiles, b: Rect, row: int): Tiles
  {
    var moved := set c | c in g.Keys && b.HasColumn(c.x) && row < c.y <= b.yMax() :: Cell(c.x, c.y - 1);
    var kept := set c | c in g.Keys && !(b.HasColumn(c.x) && (row <= c.y < b.yMax() || c.y == row));
    map c | c in moved + kept :: if c in moved then g[Cell(c.x, c.y + 1)] else g[c]
  }

  lemma LineClearedAt(g: Tiles, b: Rect, row: int)
    ensures forall c: Cell :: At(LineCleared(g, b, row), c) == ShiftedAt(g, b, row, c)
  {
    var moved := set c | c in g.Keys && b.HasColumn(c.x) && row < c.y <= b.yMax() :: Cell(c.x, c.y - 1);
    forall c: Cell
      ensures At(LineCleared(g, b, row), c) == ShiftedAt(g, b, row, c)
    {
      var up := Cell(c.x, c.y + 1);
      if b.HasColumn(c.x) && row <= c.y < b.yMax() && up in g {
        assert up.y - 1 == c.y;
        assert c in moved;
      }
    }
  }

  /** LineClear never stores a tile outside the bounds when none was there. */
  lemma LineClearedInBounds(g: Tiles, b: Rect, row: int)
    requires InBounds(g, b) && b.yMin <= row
    ensures InBounds(LineCleared(g, b, row), b)
  {
    LineClearedAt(g, b, row);
    forall c | c in LineCleared(g, b, row)
      ensures b.Contains(c)
    {
      assert At(LineCleared(g, b, row), c).Some?;
    }
  }

  /**
   * LineClear(row) on an in-bounds grid: rows below `row` are unchanged,
   * each row from `row` to the one under the top holds the old row above
   * it, and the top row ends empty (it reads the row beyond the bounds).
   */
  lemma LineClearedRows(g: Tiles, b: Rect, row: int)
    requires InBounds(g, b)
    requires b.yMin <= row < b.yMax()
    ensures forall c: Cell {:trigger At(LineCleared(g, b, row), c)} ::
      c.y < row ==> At(LineCleared(g, b, row), c) == At(g, c)
    ensures forall c: Cell {:trigger At(LineCleared(g, b, row), c)} ::
      b.HasColumn(c.x) && row <= c.y < b.yMax() - 1 ==> At(LineCleared(g, b, row), c) == At(g, Cell(c.x, c.y + 1))
    ensures forall c: Cell {:trigger At(LineCleared(g, b, row), c)} ::
      c.y == b.yMax() - 1 ==> At(LineCleared(g, b, row), c) == None
  {
    LineClearedAt(g, b, row);
    forall c: Cell | c.y == b.yMax() - 1
      ensures At(LineCleared(g, b, row), c) == None
    {
      assert !b.Contains(Cell(c.x, c.y + 1));
    }
  }

  /** The number of full rows from `lo` up to the top bound. */
  function FullCount(g: Tiles, b: Rect, lo: int): nat
    decreases b.yMax() - lo
  {
    if lo >= b.yMax() then 0
    else (if LineFull(g, b, lo) then 1 else 0) + FullCount(g, b, lo + 1)
  }

  /** Two grids whose rows from `lo` on are the rows of `g` one higher. */
  lemma {:induction false} FullCountOffset(g: Tiles, h: Tiles, b: Rect, lo: int)
    requires forall r :: lo <= r < b.yMax() - 1 ==> (LineFull(h, b, r) <==> LineFull(g, b, r + 1))
    requires lo <= b.yMax() - 1 ==> !LineFull(h, b, b.yMax() - 1)
    ensures FullCount(h, b, lo) == FullCount(g, b, lo + 1)
    decreases b.yMax() - lo
  {
    if lo < b.yMax() - 1 {
      FullCountOffset(g, h, b, lo + 1);
    }
  }

  /** After LineClear(row), a row r at or above `row` is full exactly when row r + 1 was. */
  lemma RowShiftFull(g: Tiles, b: Rect, row: int, r: int)
    requires InBounds(g, b)
    requires b.yMin <= row <= r < b.yMax() - 1
    ensures LineFull(LineCleared(g, b, row), b, r) <==> LineFull(g, b, r + 1)
  {
    LineClearedAt(g, b, row);
    var h := LineCleared(g, b, row);
    if LineFull(g, b, r + 1) {
      forall x | b.xMin <= x < b.xMax()
        ensures Cell(x, r) in h
      {
        assert At(h, Cell(x, r)) == At(g, Cell(x, r + 1));
      }
    } else {
      var x :| b.xMin <= x < b.xMax() && Cell(x, r + 1) !in g;
      assert At(h, Cell(x, r)) == At(g, Cell(x, r + 1));
    }
  }

  /** Clearing a full in-bounds row removes exactly one full row above it. */
  lemma FullCountShift(g: Tiles, b: Rect, row: int)
    requires InBounds(g, b) && b.width > 0
    requires b.yMin <= row < b.yMax() && LineFull(g, b, row)
    ensures FullCount(LineCleared(g, b, row), b, row) == FullCount(g, b, row) - 1
  {
    var h := LineCleared(g, b, row);
    forall r | row <= r < b.yMax() - 1
      ensures LineFull(h, b, r) <==> LineFull(g, b, r + 1)
    {
      RowShiftFull(g, b, row, r);
    }
    assert !LineFull(h, b, b.yMax() - 1) by {
      LineClearedRows(g, b, row);
      assert At(h, Cell(b.xMin, b.yMax() - 1)) == None;
    }
    FullCountOffset(g, h, b, row);
  }

  /**
   * Board.ClearLines' scan from `row` upward, as a value: a full row is
   * cleared and the same index is looked at again, any other row moves
   * the scan up. Returns the grid and the number of rows cleared.
   */
  function ClearFrom(g: Tiles, b: Rect, row: int): (r: (Tiles, nat))
    requires InBounds(g, b) && b.width > 0 && b.yMin <= row
    ensures InBounds(r.0, b)
    ensures r.1 == FullCount(g, b, row)
    ensures forall c: Cell :: c.y < row ==> At(r.0, c) == At(g, c)
    ensures forall y :: row <= y < b.yMax() ==> !LineFull(r.0, b, y)
    decreases b.yMax() - row, FullCount(g, b, row)
  {
    if row >= b.yMax() then (g, 0)
    else if LineFull(g, b, row) then
      LineClearedInBounds(g, b, row);
      LineClearedRows(g, b, row);
      FullCountShift(g, b, row);
      var r := ClearFrom(LineCleared(g, b, row), b, row);
      (r.0, r.1 + 1)
    else
      var r := ClearFrom(g, b, row + 1);
      assert forall x :: At(r.0, Cell(x, row)) == At(g, Cell(x, row));
      r
  }

  /** The points ClearLines adds for a number of cleared rows. */
  function LinePoints(n: nat): int
  {
    match n
    case 1 => 10
    case 2 => 30
    case 3 => 50
    case 4 => 80
    case _ => 0
  }

  /** Board.ClearRandomColumn for a chosen column: nothing moves. */
  function ColumnCleared(g: Tiles, b: Rect, col: int): (r: Tiles)
    ensures forall c: Cell ::
              At(r, c) == (if c.x == col && b.yMin <= c.y < b.yMax() then None else At(g, c))
  {
    map c | c in g.Keys && !(c.x == col && b.yMin <= c.y < b.yMax()) :: g[c]
  }

  /** Whether `c` is in the 3x3 block centred on `centre`. */
  predicate NearCentre(c: Cell, centre: Cell)
  {
    centre.x - 1 <= c.x <= centre.x + 1 && centre.y - 1 <= c.y <= centre.y + 1
  }

  /** Board.ExplodeAround: the 3x3 block around `centre` is emptied, in bounds or not. */
  function Exploded(g: Tiles, centre: Cell): (r: Tiles)
    ensures forall c: Cell :: At(r, c) == (if NearCentre(c, centre) then None else At(g, c))
  {
    map c | c in g.Keys && !NearCentre(c, centre) :: g[c]
  }
}
