/**
 * The integer arithmetic behind Piece.Rotate: the modular Wrap helper, the
 * wall-kick row index, the rotation matrix applied to a piece's cells, and
 * the wall-kick search as a value.
 */
module Rotation {
  import opened Wrappers
  import opened Grid
  import Tetrominoes

  /**
   * Piece.Wrap: brings `input` into [min, max) by adding or subtracting
   * multiples of the width. Both operands of `%` are non-negative in the
   * two branches, so C#'s truncating remainder equals Dafny's. When
   * `input` lies below `min` by an exact multiple of the width, the result
   * is `max` itself, one past the range.
   */
  function Wrap(input: int, min: int, max: int): (r: int)
    requires min < max
    ensures input < min && (min - input) % (max - min) == 0 ==> r == max
    ensures !(input < min && (min - input) % (max - min) == 0) ==> min <= r < max
    ensures (r - input) % (max - min) == 0
  {
    var n := max - min;
    if input < min then
      var d := min - input;
      var q := d / n;
      assert d == q * n + d % n;
      assert max - d % n - input == (q + 1) * n;
      ModOfMultiple(q + 1, n);
      max - d % n
    else
      var e := input - min;
      var q := e / n;
      assert e == q * n + e % n;
      assert min + e % n - input == (-q) * n;
      ModOfMultiple(-q, n);
      min + e % n
  }

  /** A multiple of n leaves no remainder. */
  lemma ModOfMultiple(q: int, n: int)
    requires n > 0
    ensures (q * n) % n == 0
  {
    var x := q * n;
    var k := q - x / n;
    assert x == (x / n) * n + x % n;
    assert k * n == x % n;
    SmallMultiple(k, n);
  }

  /** The only multiple of n in [0, n) is 0 times n. */
  lemma SmallMultiple(k: int, n: int)
    requires n > 0 && 0 <= k * n < n
    ensures k == 0
  {
    if k > 0 {
      assert false;
    } else if k < 0 {
      assert false;
    }
  }

  /** The inputs Rotate gives Wrap (a rotation index 0..3 plus or minus one) stay in 0..3. */
  lemma WrapRotationIndex(index: int, direction: int)
    requires 0 <= index < 4 && (direction == 1 || direction == -1)
    ensures 0 <= Wrap(index + direction, 0, 4) < 4
    ensures index + direction == -1 ==> Wrap(index + direction, 0, 4) == 3
    ensures index + direction == 4 ==> Wrap(index + direction, 0, 4) == 0
    ensures 0 <= index + direction < 4 ==> Wrap(index + direction, 0, 4) == index + direction
  {
  }

  /**
   * Piece.GetWallKickIndex: twice the new rotation index, one less for a
   * counter-clockwise turn, wrapped to the table's rows. For a rotation
   * index in 0..3 and a table of at least two rows it is a row of the table.
   */
  function GetWallKickIndex(rotationIndex: int, rotationDirection: int, rows: int): (r: int)
    requires rows > 0
    ensures 0 <= rotationIndex < 4 && rows >= 2 ==> 0 <= r < rows
    ensures (r - (rotationIndex * 2 - (if rotationDirection < 0 then 1 else 0))) % rows == 0
  {
    var wallKickIndex := rotationIndex * 2;
    var wallKickIndex' := if rotationDirection < 0 then wallKickIndex - 1 else wallKickIndex;
    assert 0 <= rotationIndex < 4 && rows >= 2 && wallKickIndex' < 0 ==> (0 - wallKickIndex') % rows == 1;
    Wrap(wallKickIndex', 0, rows)
  }

  /** Mathf.CeilToInt of k / 2. */
  function CeilHalf(k: int): int
  {
    (k + 1) / 2
  }

  /**
   * Piece.ApplyRotationMatrix for one cell, with matrix {m0, m1, m2, m3}.
   * I and O pieces rotate about a half-cell pivot: the cell is shifted by
   * -0.5 first (which doubles everything to keep it integral) and the
   * result is rounded up. Other pieces rotate about the origin and the
   * (already integral) result is kept as it is.
   */
  function RotateCell(c: Cell, kind: Tetrominoes.Tetromino, direction: int, m: seq<int>): Cell
    requires |m| == 4
  {
    if kind == Tetrominoes.I || kind == Tetrominoes.O then
      var hx, hy := 2 * c.x - 1, 2 * c.y - 1;
      Cell(CeilHalf(hx * m[0] * direction + hy * m[1] * direction),
           CeilHalf(hx * m[2] * direction + hy * m[3] * direction))
    else
      Cell(c.x * m[0] * direction + c.y * m[1] * direction,
           c.x * m[2] * direction + c.y * m[3] * direction)
  }

  /**
   * With the quarter-turn matrix the rotation is one of four integer maps:
   * I and O turn (x, y) into (y, 1 - x) clockwise and (1 - y, x) back,
   * the others into (y, -x) and (-y, x).
   */
  lemma QuarterTurnCell(c: Cell, kind: Tetrominoes.Tetromino, direction: int)
    requires direction == 1 || direction == -1
    ensures kind == Tetrominoes.I || kind == Tetrominoes.O ==>
      RotateCell(c, kind, direction, Tetrominoes.QuarterTurn) ==
        (if direction == 1 then Cell(c.y, 1 - c.x) else Cell(1 - c.y, c.x))
    ensures !(kind == Tetrominoes.I || kind == Tetrominoes.O) ==>
      RotateCell(c, kind, direction, Tetrominoes.QuarterTurn) ==
        (if direction == 1 then Cell(c.y, -c.x) else Cell(-c.y, c.x))
  {
    var m := Tetrominoes.QuarterTurn;
    assert m[0] == 0 && m[1] == 1 && m[2] == -1 && m[3] == 0;
    if kind == Tetrominoes.I || kind == Tetrominoes.O {
      var hx, hy := 2 * c.x - 1, 2 * c.y - 1;
      if direction == 1 {
        assert hx * m[0] * direction + hy * m[1] * direction == 2 * c.y - 1;
        assert hx * m[2] * direction + hy * m[3] * direction == 1 - 2 * c.x;
        assert CeilHalf(2 * c.y - 1) == c.y;
        assert CeilHalf(1 - 2 * c.x) == 1 - c.x;
      } else {
        assert hx * m[0] * direction + hy * m[1] * direction == 1 - 2 * c.y;
        assert hx * m[2] * direction + hy * m[3] * direction == 2 * c.x - 1;
        assert CeilHalf(1 - 2 * c.y) == 1 - c.y;
        assert CeilHalf(2 * c.x - 1) == c.x;
      }
    } else {
      assert c.x * m[0] * direction + c.y * m[1] * direction == c.y * direction;
      assert c.x * m[2] * direction + c.y * m[3] * direction == -c.x * direction;
    }
  }

  /** ApplyRotationMatrix over all cells of a piece. */
  function RotateCells(cells: seq<Cell>, kind: Tetrominoes.Tetromino, direction: int, m: seq<int>): (r: seq<Cell>)
    requires |m| == 4
    ensures |r| == |cells|
    ensures forall i :: 0 <= i < |cells| ==> r[i] == RotateCell(cells[i], kind, direction, m)
  {
    seq(|cells|, i requires 0 <= i < |cells| => RotateCell(cells[i], kind, direction, m))
  }

  /**
   * Turning back undoes a turn: Rotate's failure path restores the cells
   * by applying the matrix with the opposite direction.
   */
  lemma RotateInverse(cells: seq<Cell>, kind: Tetrominoes.Tetromino, direction: int)
    requires direction == 1 || direction == -1
    ensures RotateCells(RotateCells(cells, kind, direction, Tetrominoes.QuarterTurn), kind, -direction, Tetrominoes.QuarterTurn) == cells
  {
    var m := Tetrominoes.QuarterTurn;
    var once := RotateCells(cells, kind, direction, m);
    forall i | 0 <= i < |cells|
      ensures RotateCell(once[i], kind, -direction, m) == cells[i]
    {
      QuarterTurnCell(cells[i], kind, direction);
      QuarterTurnCell(once[i], kind, -direction);
    }
  }

  /** The cells after `n` clockwise quarter turns. */
  function Turns(cells: seq<Cell>, kind: Tetrominoes.Tetromino, n: nat): (r: seq<Cell>)
    ensures |r| == |cells|
  {
    if n == 0 then cells
    else RotateCells(Turns(cells, kind, n - 1), kind, 1, Tetrominoes.QuarterTurn)
  }

  /** Four clockwise quarter turns give back the original cells. */
  lemma FourTurns(cells: seq<Cell>, kind: Tetrominoes.Tetromino)
    ensures Turns(cells, kind, 4) == cells
  {
    var m := Tetrominoes.QuarterTurn;
    var t1 := Turns(cells, kind, 1);
    var t2 := Turns(cells, kind, 2);
    var t3 := Turns(cells, kind, 3);
    var t4 := Turns(cells, kind, 4);
    assert Turns(cells, kind, 0) == cells;
    assert t1 == RotateCells(cells, kind, 1, m);
    assert t2 == RotateCells(t1, kind, 1, m);
    assert t3 == RotateCells(t2, kind, 1, m);
    assert t4 == RotateCells(t3, kind, 1, m);
    forall i | 0 <= i < |cells|
      ensures t4[i] == cells[i]
    {
      QuarterTurnCell(cells[i], kind, 1);
      QuarterTurnCell(t1[i], kind, 1);
      QuarterTurnCell(t2[i], kind, 1);
      QuarterTurnCell(t3[i], kind, 1);
    }
  }

  /**
   * The rotation index and the cells stay in step: turning cells that
   * show `index` quarter turns by `direction` shows the wrapped new index.
   */
  lemma TurnsStep(cells: seq<Cell>, kind: Tetrominoes.Tetromino, index: int, direction: int)
    requires 0 <= index < 4 && (direction == 1 || direction == -1)
    ensures RotateCells(Turns(cells, kind, index), kind, direction, Tetrominoes.QuarterTurn) ==
      Turns(cells, kind, Wrap(index + direction, 0, 4))
  {
    WrapRotationIndex(index, direction);
    if direction == -1 {
      if index == 0 {
        FourTurns(cells, kind);
        RotateInverse(Turns(cells, kind, 3), kind, 1);
      } else {
        RotateInverse(Turns(cells, kind, index - 1), kind, 1);
      }
    } else if index == 3 {
      FourTurns(cells, kind);
    }
  }

  /** Four counter-clockwise quarter turns also give back the original cells. */
  lemma FourTurnsBack(cells: seq<Cell>, kind: Tetrominoes.Tetromino)
    ensures var m := Tetrominoes.QuarterTurn;
            RotateCells(RotateCells(RotateCells(RotateCells(cells, kind, -1, m), kind, -1, m), kind, -1, m), kind, -1, m)
              == cells
  {
    WrapRotationIndex(0, -1);
    WrapRotationIndex(3, -1);
    WrapRotationIndex(2, -1);
    WrapRotationIndex(1, -1);
    assert Turns(cells, kind, 0) == cells;
    TurnsStep(cells, kind, 0, -1);
    TurnsStep(cells, kind, 3, -1);
    TurnsStep(cells, kind, 2, -1);
    TurnsStep(cells, kind, 1, -1);
  }

  /**
   * TestWallKicks' search as a value: the index of the first kick, from
   * index `from` on and in table order, at which the cells fit.
   */
  function FirstKick(g: Tiles, b: Rect, cells: seq<Cell>, pos: Cell, kicks: seq<Cell>, from: nat): (r: Option<nat>)
    decreases |kicks| - from
    ensures r.Some? ==> from <= r.value < |kicks|
  {
    if from >= |kicks| then None
    else if Fits(g, b, cells, Add(pos, kicks[from])) then Some(from)
    else FirstKick(g, b, cells, pos, kicks, from + 1)
  }

  /**
   * The kick FirstKick picks fits and no earlier one does; when it picks
   * none, no kick from `from` on fits.
   */
  lemma {:induction false} FirstKickChoice(g: Tiles, b: Rect, cells: seq<Cell>, pos: Cell, kicks: seq<Cell>, from: nat)
    decreases |kicks| - from
    ensures var r := FirstKick(g, b, cells, pos, kicks, from);
            && (r.Some? ==> Fits(g, b, cells, Add(pos, kicks[r.value])))
            && (r.Some? ==> forall j :: from <= j < r.value ==> !Fits(g, b, cells, Add(pos, kicks[j])))
            && (r.None? ==> forall j :: from <= j < |kicks| ==> !Fits(g, b, cells, Add(pos, kicks[j])))
  {
    if from < |kicks| && !Fits(g, b, cells, Add(pos, kicks[from])) {
      FirstKickChoice(g, b, cells, pos, kicks, from + 1);
    }
  }
}
