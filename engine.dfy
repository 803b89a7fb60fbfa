/**
 * The game engine: the Board (tile grid, score, game-over and slow-motion
 * flags, lock / line clear / bonus / spawn sequence) and the falling Piece
 * (position, rotation, timers, per-frame update). The two call each other,
 * so they share one module.
 *
 * Unity's clock is passed in: `now` is Time.time and `dt` is
 * Time.deltaTime. Every draw of Random.Range / Random.value is a field of
 * a Rolls record passed to the operation that draws it. Keyboard state is
 * a Keys record.
 */
module Engine {
  import Wrappers
  import opened Grid
  import opened Tetrominoes
  import opened Rotation

  /**
   * The random draws made by one Lock and the spawn that follows it:
   * the template index (Random.Range(0, n)), the bonus chance
   * (Random.value), the bonus kind (Random.Range(1, 5)), and the row and
   * column a LineClear or ColumnClear bonus picks.
   */
  datatype Rolls = Rolls(kind: int, chance: real, bonus: int, row: int, col: int)

  /** The keys Piece.Update looks at in one frame (Q, E, Space pressed; S, A, D held). */
  datatype Keys = Keys(rotateLeft: bool, rotateRight: bool, hardDrop: bool,
                       softDrop: bool, left: bool, right: bool)

  /** The chance below which a spawned piece becomes a bonus piece. */
  const BonusChance: real := 0.15

  const Down: Cell := Cell(0, -1)
  const Left: Cell := Cell(-1, 0)
  const Right: Cell := Cell(1, 0)

  /**
   * The board configuration the model relies on: at least one column (else
   * every row is full and ClearLines never ends), at least one template,
   * a well-formed catalog, and a spawn origin at which every kind's
   * rotation-0 cells lie inside the bounds.
   */
  ghost predicate GoodConfig(width: nat, height: nat, spawn: Cell, templates: nat, catalog: Catalog)
  {
    && width > 0
    && templates > 0
    && WellFormed(catalog)
    && (forall t, i :: 0 <= i < |catalog.shapes(t)| ==> BoundsOf(width, height).Contains(Add(catalog.shapes(t)[i], spawn)))
  }

  /** Lock's game-over test: some cell of the piece reaches the row under the top bound. */
  predicate TopOut(cells: seq<Cell>, pos: Cell, b: Rect)
  {
    exists i :: 0 <= i < |cells| && Add(cells[i], pos).y >= b.yMax() - 1
  }

  /** The points ActivateBonus passes to each of its two UpdateScore calls. */
  function BonusPoints(k: BonusType): int
  {
    match k
    case LineClear => 200
    case ColumnClear => 200
    case Bomb => 150
    case SlowMotion => 100
    case None => 0
  }

  /** The tiles after a bonus effect, with the row and column already drawn. */
  function BonusGrid(g: Tiles, b: Rect, k: BonusType, centre: Cell, row: int, col: int): Tiles
  {
    match k
    case LineClear => LineCleared(g, b, row)
    case ColumnClear => ColumnCleared(g, b, col)
    case Bomb => Exploded(g, centre)
    case _ => g
  }

  /** A bonus effect keeps every tile inside the bounds. */
  lemma BonusGridInBounds(g: Tiles, b: Rect, k: BonusType, centre: Cell, row: int, col: int)
    requires InBounds(g, b) && b.yMin <= row
    ensures InBounds(BonusGrid(g, b, k, centre, row, col), b)
  {
    match k
    case LineClear => LineClearedInBounds(g, b, row);
    case ColumnClear =>
      forall c | c in ColumnCleared(g, b, col)
        ensures b.Contains(c)
      {
        assert At(ColumnCleared(g, b, col), c).Some?;
      }
    case Bomb =>
      forall c | c in Exploded(g, centre)
        ensures b.Contains(c)
      {
        assert At(Exploded(g, centre), c).Some?;
      }
    case _ =>
  }

  /** The position `j` rows under `pos`. */
  function Below(pos: Cell, j: int): Cell
  {
    Cell(pos.x, pos.y - j)
  }

  /**
   * How many rows HardDrop moves the cells down from `pos`: every drop of
   * 1 to d rows fits and a drop of d + 1 rows does not.
   */
  function DropDistance(g: Tiles, b: Rect, cells: seq<Cell>, pos: Cell): (d: nat)
    requires |cells| > 0
    ensures forall j :: 1 <= j <= d ==> Fits(g, b, cells, Below(pos, j))
    ensures !Fits(g, b, cells, Below(pos, d + 1))
    decreases pos.y + cells[0].y - b.yMin
  {
    var below := Below(pos, 1);
    if Fits(g, b, cells, below) then
      assert b.Contains(Add(cells[0], below));
      var rest := DropDistance(g, b, cells, below);
      assert forall j :: 2 <= j <= rest + 1 ==> Below(pos, j) == Below(below, j - 1);
      assert Below(pos, rest + 2) == Below(below, rest + 1);
      1 + rest
    else 0
  }

  /** The fields of a piece that its moves, turns and steps rewrite. */
  datatype Pose = Pose(cells: seq<Cell>, position: Cell, rotationIndex: int,
                       stepTime: real, moveTime: real, lockTime: real)

  /**
   * A piece as a value: its pose, the kind, kicks, tile and bonus of its
   * data, its step delay and whether it is enabled.
   */
  datatype PieceView = PieceView(pose: Pose, kind: Tetromino, kicks: seq<seq<Cell>>, tile: TileId,
                                 isBonus: bool, bonusType: BonusType, stepDelay: real, enabled: bool)

  /**
   * Piece.Move on a pose: the translated pose, with the move and lock
   * timers restarted, if the cells fit there; otherwise the pose itself.
   */
  function Moved(g: Tiles, b: Rect, p: Pose, t: Cell, now: real, moveDelay: real): Pose
  {
    if Fits(g, b, p.cells, Add(p.position, t)) then
      p.(position := Add(p.position, t), moveTime := now + moveDelay, lockTime := 0.0)
    else p
  }

  /**
   * Piece.Rotate on a pose: the cells turned and the index wrapped, moved
   * by the first kick of the transition's row that fits; the pose itself
   * when no kick fits.
   */
  function Turned(g: Tiles, b: Rect, kicks: seq<seq<Cell>>, kind: Tetromino, p: Pose,
                  direction: int, now: real, moveDelay: real): Pose
    requires |kicks| >= 2 && 0 <= p.rotationIndex < 4 && (direction == 1 || direction == -1)
  {
    WrapRotationIndex(p.rotationIndex, direction);
    var index := Wrap(p.rotationIndex + direction, 0, 4);
    var turned := RotateCells(p.cells, kind, direction, QuarterTurn);
    var row := kicks[GetWallKickIndex(index, direction, |kicks|)];
    match FirstKick(g, b, turned, p.position, row, 0)
    case Some(k) =>
      p.(cells := turned, rotationIndex := index, position := Add(p.position, row[k]),
         moveTime := now + moveDelay, lockTime := 0.0)
    case None => p
  }

  /**
   * A turn keeps the cells and the rotation index in step: cells that are
   * the kind's `shape` turned `rotationIndex` quarter turns still are after
   * the turn, whether a kick fits or not.
   */
  lemma TurnedKeepsTurns(g: Tiles, b: Rect, kicks: seq<seq<Cell>>, kind: Tetromino, p: Pose,
                         direction: int, now: real, moveDelay: real, shape: seq<Cell>)
    requires |kicks| >= 2 && 0 <= p.rotationIndex < 4 && (direction == 1 || direction == -1)
    requires p.cells == Turns(shape, kind, p.rotationIndex)
    ensures var q := Turned(g, b, kicks, kind, p, direction, now, moveDelay);
            0 <= q.rotationIndex < 4 && q.cells == Turns(shape, kind, q.rotationIndex)
  {
    TurnsStep(shape, kind, p.rotationIndex, direction);
  }

  /** The rotation keys of one frame: Q turns by -1, otherwise E by +1, otherwise nothing. */
  function TurnFor(g: Tiles, b: Rect, kicks: seq<seq<Cell>>, kind: Tetromino, p: Pose,
                   keys: Keys, now: real, moveDelay: real): Pose
    requires |kicks| >= 2 && 0 <= p.rotationIndex < 4
  {
    if keys.rotateLeft then Turned(g, b, kicks, kind, p, -1, now, moveDelay)
    else if keys.rotateRight then Turned(g, b, kicks, kind, p, 1, now, moveDelay)
    else p
  }

  /**
   * Piece.HandleMoveInputs on a pose: a held soft drop moves down and, if
   * that worked, pushes the step time back; then left, or else right, is
   * tried from where the soft drop left the piece.
   */
  function MoveInputs(g: Tiles, b: Rect, p: Pose, keys: Keys, now: real, moveDelay: real, stepDelay: real): Pose
  {
    var down :=
      if keys.softDrop && Fits(g, b, p.cells, Add(p.position, Down))
      then Moved(g, b, p, Down, now, moveDelay).(stepTime := now + stepDelay)
      else p;
    if keys.left then Moved(g, b, down, Left, now, moveDelay)
    else if keys.right then Moved(g, b, down, Right, now, moveDelay)
    else down
  }

  /** The moving part of Piece.Step: the step time pushed back, then one row down if it fits. */
  function StepMove(g: Tiles, b: Rect, p: Pose, now: real, stepDelay: real, moveDelay: real): Pose
  {
    Moved(g, b, p.(stepTime := now + stepDelay), Down, now, moveDelay)
  }

  /**
   * The moving part of Piece.HardDrop: `d` rows down; the move and lock
   * timers restart when the piece moved at all.
   */
  function DropMove(p: Pose, d: nat, now: real, moveDelay: real): Pose
  {
    if d == 0 then p
    else p.(position := Below(p.position, d), moveTime := now + moveDelay, lockTime := 0.0)
  }

  /** On an empty board every kind fits at the spawn position. */
  lemma SpawnFitsOnEmpty(width: nat, height: nat, spawn: Cell, templates: nat, catalog: Catalog, t: Tetromino)
    requires GoodConfig(width, height, spawn, templates, catalog)
    ensures Fits(map[], BoundsOf(width, height), catalog.shapes(t), spawn)
  {
  }

  /** The board's own fields, as a value. */
  datatype BoardState = BoardState(grid: Tiles, score: int, isGameOver: bool,
                                   isSlowMotion: bool, slowMotionEndTime: real)

  /** What Board.Lock reads from the piece: its cells, position, tile and bonus. */
  datatype Landing = Landing(cells: seq<Cell>, position: Cell, tile: TileId,
                             isBonus: bool, bonusType: BonusType)

  /** Every cell of the shape placed at `pos` lies inside the bounds. */
  predicate Inside(cells: seq<Cell>, pos: Cell, b: Rect)
  {
    forall i :: 0 <= i < |cells| ==> b.Contains(Add(cells[i], pos))
  }

  /** The effect Lock hands to ActivateBonus: the piece's bonus, or none. */
  function BonusOf(p: Landing): BonusType
  {
    if p.isBonus then p.bonusType else BonusType.None
  }

  /**
   * Board.Lock up to (not including) the spawn of the next piece: the
   * piece is written to the grid; if a cell of it reaches the row under the
   * top bound the game is over and the grid emptied; otherwise full rows
   * are cleared and scored, and the piece's bonus applied and scored twice.
   */
  function Settle(b: Rect, s: BoardState, p: Landing, now: real, duration: real, rolls: Rolls): (r: BoardState)
    requires b.width > 0 && InBounds(s.grid, b) && Inside(p.cells, p.position, b)
    ensures r.isGameOver == (s.isGameOver || TopOut(p.cells, p.position, b))
    ensures TopOut(p.cells, p.position, b) ==> r.grid == map[] && r.score == s.score
    ensures r.score >= s.score
  {
    var placed := Stamp(s.grid, p.cells, p.position, p.tile);
    if TopOut(p.cells, p.position, b) then
      s.(grid := map[], isGameOver := true)
    else
      StampInBounds(s.grid, b, p.cells, p.position, p.tile);
      var cleared := ClearFrom(placed, b, b.yMin);
      var bonus := BonusOf(p);
      var slow := bonus == SlowMotion;
      BoardState(BonusGrid(cleared.0, b, bonus, p.position, rolls.row, rolls.col),
                 s.score + (if cleared.1 > 0 then LinePoints(cleared.1) else 0) + 2 * BonusPoints(bonus),
                 s.isGameOver,
                 s.isSlowMotion || slow,
                 if slow then now + duration else s.slowMotionEndTime)
  }

  /** Locking keeps every tile inside the bounds (for a drawn row inside them). */
  lemma SettleInBounds(b: Rect, s: BoardState, p: Landing, now: real, duration: real, rolls: Rolls)
    requires b.width > 0 && InBounds(s.grid, b) && Inside(p.cells, p.position, b)
    requires b.yMin <= rolls.row
    ensures InBounds(Settle(b, s, p, now, duration, rolls).grid, b)
  {
    if !TopOut(p.cells, p.position, b) {
      var placed := Stamp(s.grid, p.cells, p.position, p.tile);
      StampInBounds(s.grid, b, p.cells, p.position, p.tile);
      BonusGridInBounds(ClearFrom(placed, b, b.yMin).0, b, BonusOf(p), p.position, rolls.row, rolls.col);
    }
  }

  /** A row of `g` is full only if the matching row of `h` is. */
  lemma FullRowFrom(g: Tiles, h: Tiles, b: Rect, y: int, y': int)
    requires forall x :: b.HasColumn(x) && Cell(x, y) in g ==> Cell(x, y') in h
    ensures LineFull(g, b, y) ==> LineFull(h, b, y')
  {
  }

  /** A grid that only lost tiles has no full row where the old one had none. */
  lemma FewerTilesNoFullRow(g: Tiles, h: Tiles, b: Rect)
    requires h.Keys <= g.Keys
    requires forall y :: b.yMin <= y < b.yMax() ==> !LineFull(g, b, y)
    ensures forall y :: b.yMin <= y < b.yMax() ==> !LineFull(h, b, y)
  {
    forall y | b.yMin <= y < b.yMax()
      ensures !LineFull(h, b, y)
    {
      FullRowFrom(h, g, b, y, y);
    }
  }

  /**
   * A grid shaped like the result of a LineClear of `row` (rows below kept,
   * rows from `row` on taken from the row above, top row empty) has no full
   * row where the old grid had none.
   */
  lemma ShiftedNoFullRow(g: Tiles, h: Tiles, b: Rect, row: int)
    requires forall c: Cell {:trigger At(h, c)} :: c.y < row ==> At(h, c) == At(g, c)
    requires forall c: Cell {:trigger At(h, c)} ::
               b.HasColumn(c.x) && row <= c.y < b.yMax() - 1 ==> At(h, c) == At(g, Cell(c.x, c.y + 1))
    requires forall c: Cell {:trigger At(h, c)} :: c.y == b.yMax() - 1 ==> At(h, c) == Wrappers.None
    requires b.width > 0
    requires forall y :: b.yMin <= y < b.yMax() ==> !LineFull(g, b, y)
    ensures forall y :: b.yMin <= y < b.yMax() ==> !LineFull(h, b, y)
  {
    forall y | b.yMin <= y < b.yMax()
      ensures !LineFull(h, b, y)
    {
      if y < row {
        assert forall x :: At(h, Cell(x, y)) == At(g, Cell(x, y));
        FullRowFrom(h, g, b, y, y);
      } else if y < b.yMax() - 1 {
        assert forall x :: b.HasColumn(x) ==> At(h, Cell(x, y)) == At(g, Cell(x, y + 1));
        FullRowFrom(h, g, b, y, y + 1);
      } else {
        assert At(h, Cell(b.xMin, y)) == Wrappers.None;
      }
    }
  }

  /** A LineClear of an in-bounds row leaves no full row where there was none. */
  lemma LineClearedNoFullRow(g: Tiles, b: Rect, row: int)
    requires InBounds(g, b) && b.width > 0 && b.yMin <= row < b.yMax()
    requires forall y :: b.yMin <= y < b.yMax() ==> !LineFull(g, b, y)
    ensures forall y :: b.yMin <= y < b.yMax() ==> !LineFull(LineCleared(g, b, row), b, y)
  {
    LineClearedRows(g, b, row);
    ShiftedNoFullRow(g, LineCleared(g, b, row), b, row);
  }

  /**
   * A bonus effect never leaves a full row inside the bounds when there was
   * none: it only removes tiles, or shifts non-full rows down and empties
   * the top row.
   */
  lemma BonusGridNoFullRow(g: Tiles, b: Rect, k: BonusType, centre: Cell, row: int, col: int)
    requires InBounds(g, b) && b.width > 0 && b.yMin <= row < b.yMax()
    requires forall y :: b.yMin <= y < b.yMax() ==> !LineFull(g, b, y)
    ensures forall y :: b.yMin <= y < b.yMax() ==> !LineFull(BonusGrid(g, b, k, centre, row, col), b, y)
  {
    match k
    case LineClear =>
      LineClearedNoFullRow(g, b, row);
    case ColumnClear =>
      FewerTilesNoFullRow(g, ColumnCleared(g, b, col), b);
    case Bomb =>
      FewerTilesNoFullRow(g, Exploded(g, centre), b);
    case _ =>
  }

  /**
   * After a lock that does not end the game no row inside the bounds is
   * full, whatever bonus fired.
   */
  lemma SettleLeavesNoFullRow(b: Rect, s: BoardState, p: Landing, now: real, duration: real, rolls: Rolls)
    requires b.width > 0 && InBounds(s.grid, b) && Inside(p.cells, p.position, b)
    requires !TopOut(p.cells, p.position, b) && b.yMin <= rolls.row < b.yMax()
    ensures forall y :: b.yMin <= y < b.yMax() ==> !LineFull(Settle(b, s, p, now, duration, rolls).grid, b, y)
  {
    var placed := Stamp(s.grid, p.cells, p.position, p.tile);
    StampInBounds(s.grid, b, p.cells, p.position, p.tile);
    BonusGridNoFullRow(ClearFrom(placed, b, b.yMin).0, b, BonusOf(p), p.position, rolls.row, rolls.col);
  }

  /**
   * What the copy loop of Board.LineClear has left in cell `c` once it
   * has reached column `col` of row `r`: every in-bounds cell from `row`
   * up to that point holds the content of the cell above it.
   */
  function CopiedAt(emptied: Tiles, b: Rect, row: int, r: int, col: int, c: Cell): Wrappers.Option<TileId>
  {
    if b.HasColumn(c.x) && row <= c.y && (c.y < r || (c.y == r && c.x < col)) then At(emptied, Cell(c.x, c.y + 1))
    else At(emptied, c)
  }

  /** The row at which LineClear's copy loop stops: the top bound, or `row` if it is not below it. */
  function CopyEnd(b: Rect, row: int): int
  {
    if row < b.yMax() then b.yMax() else row
  }

  /**
   * The two loops of Board.LineClear together: emptying the row and then
   * copying every row from `row` up to the top bound down by one gives
   * LineCleared.
   */
  lemma LineClearLoops(g0: Tiles, emptied: Tiles, g: Tiles, b: Rect, row: int)
    requires forall c: Cell ::
               At(emptied, c) == (if c.y == row && b.HasColumn(c.x) then Wrappers.None else At(g0, c))
    requires forall c: Cell :: At(g, c) == CopiedAt(emptied, b, row, CopyEnd(b, row), b.xMin, c)
    ensures g == LineCleared(g0, b, row)
  {
    LineClearedAt(g0, b, row);
    forall c: Cell
      ensures At(g, c) == At(LineCleared(g0, b, row), c)
    {
      assert At(g, c) == CopiedAt(emptied, b, row, CopyEnd(b, row), b.xMin, c);
    }
    SameTiles(g, LineCleared(g0, b, row));
  }

  /**
   * Board: the tilemap, the score and the game-over and slow-motion flags,
   * with the operations that place pieces, clear rows and apply bonuses.
   */
  class Board {
    const width: nat
    const height: nat
    const spawnPosition: Cell
    const bonusTile: TileId
    const slowMotionDuration: real
    /** The templates SpawnPiece clones. */
    const tetrominoes: seq<TetrominoData>
    /** The static shape data (Data.Cells, Data.WallKicks, Data.RotationMatrix). */
    const catalog: Catalog
    /** The piece component the board drives; it is never replaced. */
    const activePiece: Piece

    var grid: Tiles
    var score: int
    var isGameOver: bool
    var isSlowMotion: bool
    var slowMotionEndTime: real

    /**
     * Awake then Start: every template is initialized, the score shown as
     * 0 and the first piece spawned with the draws in `roll`. The piece
     * component, found among the board's children in the scene, is created
     * here with its inspector delays.
     */
    constructor (width: nat, height: nat, spawnPosition: Cell, bonusTile: TileId, slowMotionDuration: real,
                 tetrominoes: seq<TetrominoData>, catalog: Catalog,
                 initialStepDelay: real, moveDelay: real, lockDelay: real, now: real, roll: Rolls)
      requires GoodConfig(width, height, spawnPosition, |tetrominoes|, catalog)
      requires 0 <= roll.kind < |tetrominoes| && 1 <= roll.bonus < 5
      modifies tetrominoes
      ensures this.width == width && this.height == height && this.spawnPosition == spawnPosition
      ensures this.bonusTile == bonusTile && this.slowMotionDuration == slowMotionDuration
      ensures this.tetrominoes == tetrominoes && this.catalog == catalog
      ensures forall i :: 0 <= i < |tetrominoes| ==>
                && tetrominoes[i].cells == Wrappers.Some(catalog.shapes(tetrominoes[i].tetromino))
                && tetrominoes[i].wallKicks == Wrappers.Some(catalog.kicks(tetrominoes[i].tetromino))
      ensures forall i :: 0 <= i < |tetrominoes| ==>
                && tetrominoes[i].tile == old(tetrominoes[i].tile) && tetrominoes[i].tetromino == old(tetrominoes[i].tetromino)
                && tetrominoes[i].bonusType == old(tetrominoes[i].bonusType) && tetrominoes[i].isBonus == old(tetrominoes[i].isBonus)
      ensures SpawnedFrom(BoardState(map[], 0, false, false, 0.0), true, now, roll)
      ensures !isGameOver && Valid()
    {
      this.width := width;
      this.height := height;
      this.spawnPosition := spawnPosition;
      this.bonusTile := bonusTile;
      this.slowMotionDuration := slowMotionDuration;
      this.tetrominoes := tetrominoes;
      this.catalog := catalog;
      activePiece := new Piece(initialStepDelay, moveDelay, lockDelay);
      grid := map[];
      score := 0;
      isGameOver := false;
      isSlowMotion := false;
      slowMotionEndTime := 0.0;
      new;
      for i := 0 to |tetrominoes|
        invariant fresh(activePiece) && activePiece.cells == null && activePiece.enabled
        invariant State() == BoardState(map[], 0, false, false, 0.0)
        invariant forall j :: 0 <= j < i ==>
                    && tetrominoes[j].cells == Wrappers.Some(catalog.shapes(tetrominoes[j].tetromino))
                    && tetrominoes[j].wallKicks == Wrappers.Some(catalog.kicks(tetrominoes[j].tetromino))
        invariant forall j :: 0 <= j < |tetrominoes| ==>
                    && tetrominoes[j].tile == old(tetrominoes[j].tile) && tetrominoes[j].tetromino == old(tetrominoes[j].tetromino)
                    && tetrominoes[j].bonusType == old(tetrominoes[j].bonusType) && tetrominoes[j].isBonus == old(tetrominoes[j].isBonus)
      {
        tetrominoes[i].Initialize(catalog);
      }
      UpdateScore(0);
      SpawnPiece(now, roll);
    }

    /** Board.Bounds. */
    function Bounds(): Rect
    {
      BoundsOf(width, height)
    }

    ghost predicate Config()
    {
      GoodConfig(width, height, spawnPosition, |tetrominoes|, catalog)
    }

    /** The draws are in the ranges Random.Range and Random.value produce. */
    predicate RollsInRange(r: Rolls)
    {
      && 0 <= r.kind < |tetrominoes|
      && 0.0 <= r.chance <= 1.0
      && 1 <= r.bonus < 5
      && Bounds().yMin <= r.row < Bounds().yMax()
      && Bounds().HasColumn(r.col)
    }

    /** What SpawnPiece needs: the configuration, the grid invariant, and a 4-cell array if any. */
    ghost predicate Spawnable()
      reads this, activePiece
    {
      && Config()
      && InBounds(grid, Bounds())
      && (activePiece.cells != null ==> activePiece.cells.Length == 4)
    }

    /**
     * The board after the first spawn: the piece holds a data object whose
     * cells and kicks are those of its kind, and a 4-cell array.
     */
    ghost predicate Ready()
      reads this`grid, activePiece`data, activePiece`cells, activePiece.data
    {
      && Config()
      && InBounds(grid, Bounds())
      && activePiece.data != null
      && activePiece.cells != null
      && activePiece.cells.Length == 4
      && activePiece.data.cells == Wrappers.Some(catalog.shapes(activePiece.data.tetromino))
      && activePiece.data.wallKicks == Wrappers.Some(catalog.kicks(activePiece.data.tetromino))
    }

    /** Ready, a rotation index 0..3, and the piece's cells inside the bounds. */
    ghost predicate Valid()
      reads this`grid, activePiece`data, activePiece`cells, activePiece`rotationIndex, activePiece`position
      reads activePiece.data, activePiece.cells
    {
      && Ready()
      && 0 <= activePiece.rotationIndex < 4
      && Inside(activePiece.cells[..], activePiece.position, Bounds())
    }

    /** Board.IsValidPosition: the piece's cells, moved to `position`, fit. */
    method IsValidPosition(piece: Piece, position: Cell) returns (valid: bool)
      requires piece.cells != null
      ensures valid == Fits(grid, Bounds(), piece.cells[..], position)
    {
      var bounds := Bounds();
      for i := 0 to piece.cells.Length
        invariant forall j :: 0 <= j < i ==>
                    bounds.Contains(Add(piece.cells[j], position)) && Add(piece.cells[j], position) !in grid
      {
        var tilePosition := Add(piece.cells[i], position);
        if !bounds.Contains(tilePosition) {
          return false;
        }
        if tilePosition in grid {
          return false;
        }
      }
      return true;
    }

    /** Board.IsLineFull: every in-bounds column of `row` holds a tile. */
    method IsLineFull(row: int) returns (full: bool)
      ensures full == LineFull(grid, Bounds(), row)
    {
      var bounds := Bounds();
      for col := bounds.xMin to bounds.xMax()
        invariant forall x :: bounds.xMin <= x < col ==> Cell(x, row) in grid
      {
        if Cell(col, row) !in grid {
          return false;
        }
      }
      return true;
    }

    /** Board.Set: writes the piece's tile to each of its absolute cells. */
    method Set(piece: Piece)
      requires piece.cells != null && piece.data != null
      modifies this`grid
      ensures grid == Stamp(old(grid), piece.cells[..], piece.position, piece.data.tile)
    {
      for i := 0 to piece.cells.Length
        invariant grid == Stamp(old(grid), piece.cells[..i], piece.position, piece.data.tile)
      {
        assert piece.cells[..i + 1][..i] == piece.cells[..i];
        grid := SetTile(grid, Add(piece.cells[i], piece.position), Wrappers.Some(piece.data.tile));
      }
      assert piece.cells[..piece.cells.Length] == piece.cells[..];
    }

    /** Board.Clear: empties each of the piece's absolute cells. */
    method Clear(piece: Piece)
      requires piece.cells != null
      modifies this`grid
      ensures grid == Erase(old(grid), piece.cells[..], piece.position)
    {
      for i := 0 to piece.cells.Length
        invariant grid == Erase(old(grid), piece.cells[..i], piece.position)
      {
        assert piece.cells[..i + 1][..i] == piece.cells[..i];
        grid := SetTile(grid, Add(piece.cells[i], piece.position), Wrappers.None);
      }
      assert piece.cells[..piece.cells.Length] == piece.cells[..];
    }

    /**
     * Board.LineClear: empties the row's in-bounds cells, then, from `row`
     * up to the top bound, copies into each row the row above it.
     */
    method LineClear(row: int)
      modifies this`grid
      ensures grid == LineCleared(old(grid), Bounds(), row)
    {
      var bounds := Bounds();
      for col := bounds.xMin to bounds.xMax()
        invariant forall c: Cell ::
                    At(grid, c) == (if c.y == row && bounds.xMin <= c.x < col then Wrappers.None else At(old(grid), c))
      {
        grid := SetTile(grid, Cell(col, row), Wrappers.None);
      }
      ghost var emptied := grid;
      ShiftRowsDown(row);
      LineClearLoops(old(grid), emptied, grid, bounds, row);
    }

    /**
     * The copy loop of Board.LineClear: from `row` up to the top bound,
     * every in-bounds cell takes the content of the cell above it.
     */
    method ShiftRowsDown(row: int)
      modifies this`grid
      ensures forall c: Cell :: At(grid, c) == CopiedAt(old(grid), Bounds(), row, CopyEnd(Bounds(), row), Bounds().xMin, c)
    {
      var bounds := Bounds();
      var r := row;
      while r < bounds.yMax()
        invariant row <= r && (r <= bounds.yMax() || r == row)
        invariant forall c: Cell :: At(grid, c) == CopiedAt(old(grid), bounds, row, r, bounds.xMin, c)
      {
        for col := bounds.xMin to bounds.xMax()
          invariant forall c: Cell :: At(grid, c) == CopiedAt(old(grid), bounds, row, r, col, c)
        {
          var above := At(grid, Cell(col, r + 1));
          grid := SetTile(grid, Cell(col, r), above);
        }
        r := r + 1;
      }
    }

    /**
     * Board.ClearLines: scans the rows upward, clearing every full row and
     * re-checking the same index; afterwards no row inside the bounds is
     * full, rows were cleared exactly as often as there were full rows, and
     * the score rose by 10/30/50/80 for 1/2/3/4 of them (nothing for none,
     * 0 for more).
     */
    method ClearLines()
      requires width > 0 && InBounds(grid, Bounds())
      modifies this`grid, this`score
      ensures var r := ClearFrom(old(grid), Bounds(), Bounds().yMin);
              && grid == r.0
              && r.1 == FullCount(old(grid), Bounds(), Bounds().yMin)
              && score == old(score) + (if r.1 > 0 then LinePoints(r.1) else 0)
      ensures InBounds(grid, Bounds())
      ensures forall y :: Bounds().yMin <= y < Bounds().yMax() ==> !LineFull(grid, Bounds(), y)
    {
      var linesCleared := ClearFullRows();
      if linesCleared > 0 {
        var points := LinePoints(linesCleared);
        UpdateScore(points);
      }
    }

    /**
     * The scan of ClearLines: from the bottom row up, a full row is
     * cleared and looked at again, any other row moves the scan up.
     */
    method ClearFullRows() returns (linesCleared: nat)
      requires width > 0 && InBounds(grid, Bounds())
      modifies this`grid
      ensures (grid, linesCleared) == ClearFrom(old(grid), Bounds(), Bounds().yMin)
    {
      var bounds := Bounds();
      ghost var target := ClearFrom(grid, bounds, bounds.yMin);
      var row := bounds.yMin;
      linesCleared := 0;
      while row < bounds.yMax()
        invariant bounds.yMin <= row && InBounds(grid, bounds)
        invariant ClearFrom(grid, bounds, row).0 == target.0
        invariant linesCleared + ClearFrom(grid, bounds, row).1 == target.1
        decreases bounds.yMax() - row, FullCount(grid, bounds, row)
      {
        var full := IsLineFull(row);
        if full {
          LineClearedInBounds(grid, bounds, row);
          FullCountShift(grid, bounds, row);
          LineClear(row);
          linesCleared := linesCleared + 1;
        } else {
          row := row + 1;
        }
      }
    }

    /** Board.UpdateScore; the score text and log are not modelled. */
    method UpdateScore(points: int)
      modifies this`score
      ensures score == old(score) + points
      ensures State() == old(State()).(score := score)
    {
      score := score + points;
    }

    /** The board's own fields, as a value. */
    function State(): BoardState
      reads this
    {
      BoardState(grid, score, isGameOver, isSlowMotion, slowMotionEndTime)
    }

    /**
     * A fresh copy of `template`, initialized, and turned into a bonus
     * piece (bonus tile, drawn effect) when the chance roll is under 0.15.
     */
    ghost predicate Drawn(data: TetrominoData, template: TetrominoData, roll: Rolls)
      reads data, template
    {
      var bonus := roll.chance < BonusChance;
      && 1 <= roll.bonus < 5
      && data.tetromino == template.tetromino
      && data.tile == (if bonus then bonusTile else template.tile)
      && data.isBonus == (bonus || template.isBonus)
      && data.bonusType == (if bonus then FromOrdinal(roll.bonus) else template.bonusType)
      && data.cells == Wrappers.Some(catalog.shapes(template.tetromino))
      && data.wallKicks == Wrappers.Some(catalog.kicks(template.tetromino))
    }

    /** The piece holds data drawn from `template`, at the spawn position in rotation 0, with fresh timers. */
    ghost predicate SpawnedPiece(template: TetrominoData, now: real, roll: Rolls)
      reads activePiece`data, activePiece`cells, activePiece`position, activePiece`rotationIndex
      reads activePiece`stepDelay, activePiece`stepTime, activePiece`moveTime, activePiece`lockTime
      reads activePiece.data, activePiece.cells, template
    {
      && activePiece.data != null && activePiece.cells != null
      && Drawn(activePiece.data, template, roll)
      && activePiece.position == spawnPosition && activePiece.rotationIndex == 0
      && activePiece.cells[..] == catalog.shapes(activePiece.data.tetromino)
      && activePiece.stepDelay == activePiece.initialStepDelay
      && activePiece.stepTime == now + activePiece.initialStepDelay
      && activePiece.moveTime == now + activePiece.moveDelay
      && activePiece.lockTime == 0.0
    }

    /**
     * What SpawnPiece leaves behind, from the board state `s` it started
     * in: the piece drawn from template `roll.kind`, written to the grid if
     * it fits at the spawn position; otherwise the game is over.
     */
    ghost predicate SpawnedFrom(s: BoardState, enabled0: bool, now: real, roll: Rolls)
      reads this, activePiece`data, activePiece`cells, activePiece`position, activePiece`rotationIndex,
            activePiece`stepDelay, activePiece`stepTime, activePiece`moveTime, activePiece`lockTime, activePiece`enabled,
            activePiece.data, activePiece.cells, tetrominoes
    {
      && 0 <= roll.kind < |tetrominoes|
      && SpawnedPiece(tetrominoes[roll.kind], now, roll)
      && PlacedOrOver(s, enabled0, catalog.shapes(activePiece.data.tetromino), activePiece.data.tile)
    }

    /**
     * The end of SpawnPiece: the shape, if it fits at the spawn position on
     * the grid of `s`, is written there; otherwise the game is over.
     */
    ghost predicate PlacedOrOver(s: BoardState, enabled0: bool, shape: seq<Cell>, tile: TileId)
      reads this, activePiece`enabled
    {
      if Fits(s.grid, Bounds(), shape, spawnPosition) then
        State() == s.(grid := Stamp(s.grid, shape, spawnPosition, tile)) && activePiece.enabled == enabled0
      else
        State() == s.(grid := map[], isGameOver := true) && !activePiece.enabled
    }

    /** A spawn leaves the board valid. */
    lemma SpawnedIsValid(template: TetrominoData, now: real, roll: Rolls)
      requires Config() && InBounds(grid, Bounds()) && SpawnedPiece(template, now, roll)
      ensures Valid()
    {
    }

    /**
     * What Lock leaves behind, from board state `s` and landed piece `p`:
     * the settled board; then, unless the game is over, a spawned piece.
     */
    ghost predicate LockedFrom(s: BoardState, p: Landing, enabled0: bool, now: real, rolls: Rolls)
      reads this, activePiece`data, activePiece`cells, activePiece`position, activePiece`rotationIndex,
            activePiece`stepDelay, activePiece`stepTime, activePiece`moveTime, activePiece`lockTime, activePiece`enabled,
            activePiece.data, activePiece.cells, tetrominoes
    {
      && width > 0 && InBounds(s.grid, Bounds()) && Inside(p.cells, p.position, Bounds())
      && var settled := Settle(Bounds(), s, p, now, slowMotionDuration, rolls);
         if settled.isGameOver then
           && State() == settled
           && activePiece.enabled == (enabled0 && !TopOut(p.cells, p.position, Bounds()))
         else
           SpawnedFrom(settled, enabled0, now, rolls)
    }

    /**
     * What a hard drop leaves behind, from board state `s` and piece `v`:
     * two points a row for the DropDistance rows below the pose, then the
     * lock of the piece at the lowest position that fits.
     */
    ghost predicate DroppedFrom(s: BoardState, v: PieceView, now: real, rolls: Rolls)
      reads this, activePiece`data, activePiece`cells, activePiece`position, activePiece`rotationIndex,
            activePiece`stepDelay, activePiece`stepTime, activePiece`moveTime, activePiece`lockTime, activePiece`enabled,
            activePiece.data, activePiece.cells, tetrominoes
    {
      && |v.pose.cells| > 0
      && var d := DropDistance(s.grid, Bounds(), v.pose.cells, v.pose.position);
         LockedFrom(s.(score := s.score + 2 * d),
                    Landing(v.pose.cells, Below(v.pose.position, d), v.tile, v.isBonus, v.bonusType),
                    v.enabled, now, rolls)
    }

    /** The lock of a dropped piece, given by its parts, is what DroppedFrom says. */
    lemma DroppedIntro(s: BoardState, v: PieceView, now: real, rolls: Rolls, before: BoardState, landing: Landing, e: bool)
      requires |v.pose.cells| > 0 && e == v.enabled
      requires var d := DropDistance(s.grid, Bounds(), v.pose.cells, v.pose.position);
               && before == s.(score := s.score + 2 * d)
               && landing == Landing(v.pose.cells, Below(v.pose.position, d), v.tile, v.isBonus, v.bonusType)
      ensures LockedFrom(before, landing, e, now, rolls) ==> DroppedFrom(s, v, now, rolls)
    {
    }

    /** A lock never lowers the score. */
    lemma LockedScore(s: BoardState, p: Landing, enabled0: bool, now: real, rolls: Rolls)
      requires LockedFrom(s, p, enabled0, now, rolls)
      ensures score >= s.score
    {
      var settled := Settle(Bounds(), s, p, now, slowMotionDuration, rolls);
      if !settled.isGameOver {
        assert PlacedOrOver(settled, enabled0, catalog.shapes(activePiece.data.tetromino), activePiece.data.tile);
      }
    }

    /** Board.GameOver: the flag is set, every tile removed and the piece disabled. */
    method GameOver()
      modifies this`isGameOver, this`grid, activePiece`enabled
      ensures isGameOver && grid == map[] && !activePiece.enabled
    {
      isGameOver := true;
      grid := map[];
      activePiece.enabled := false;
    }

    /** Board.ClearRandomLine with the drawn row: LineClear of that row. */
    method ClearRandomLine(row: int)
      modifies this`grid
      ensures grid == LineCleared(old(grid), Bounds(), row)
    {
      LineClear(row);
    }

    /** Board.ClearRandomColumn with the drawn column: its in-bounds cells are emptied. */
    method ClearRandomColumn(col: int)
      modifies this`grid
      ensures grid == ColumnCleared(old(grid), Bounds(), col)
    {
      var bounds := Bounds();
      for row := bounds.yMin to bounds.yMax()
        invariant forall c: Cell ::
                    At(grid, c) == (if c.x == col && bounds.yMin <= c.y < row then Wrappers.None else At(old(grid), c))
      {
        grid := SetTile(grid, Cell(col, row), Wrappers.None);
      }
      SameTiles(grid, ColumnCleared(old(grid), bounds, col));
    }

    /** Board.ExplodeAround: the 3x3 block centred on `position` is emptied. */
    method ExplodeAround(position: Cell)
      modifies this`grid
      ensures grid == Exploded(old(grid), position)
    {
      for x := -1 to 2
        invariant forall c: Cell ::
                    At(grid, c) ==
                    (if NearCentre(c, position) && c.x < position.x + x then Wrappers.None else At(old(grid), c))
      {
        for y := -1 to 2
          invariant forall c: Cell ::
                      At(grid, c) ==
                      (if NearCentre(c, position) && (c.x < position.x + x || (c.x == position.x + x && c.y < position.y + y))
                       then Wrappers.None else At(old(grid), c))
        {
          grid := SetTile(grid, Add(position, Cell(x, y)), Wrappers.None);
        }
      }
      SameTiles(grid, Exploded(old(grid), position));
    }

    /** Board.StartSlowMotion; the change of Time.timeScale is not modelled. */
    method StartSlowMotion(now: real)
      modifies this`isSlowMotion, this`slowMotionEndTime
      ensures isSlowMotion && slowMotionEndTime == now + slowMotionDuration
    {
      slowMotionEndTime := now + slowMotionDuration;
      isSlowMotion := true;
    }

    /**
     * Board.ActivateBonus: applies the effect (with the drawn row or
     * column) and adds its points twice.
     */
    method ActivateBonus(bonusType: BonusType, position: Cell, now: real, rolls: Rolls)
      modifies this`grid, this`score, this`isSlowMotion, this`slowMotionEndTime
      ensures grid == BonusGrid(old(grid), Bounds(), bonusType, position, rolls.row, rolls.col)
      ensures score == old(score) + 2 * BonusPoints(bonusType)
      ensures bonusType == SlowMotion ==> isSlowMotion && slowMotionEndTime == now + slowMotionDuration
      ensures bonusType != SlowMotion ==> isSlowMotion == old(isSlowMotion) && slowMotionEndTime == old(slowMotionEndTime)
    {
      var bonusPoints := 0;
      match bonusType {
        case LineClear =>
          ClearRandomLine(rolls.row);
          bonusPoints := 200;
        case ColumnClear =>
          ClearRandomColumn(rolls.col);
          bonusPoints := 200;
        case Bomb =>
          ExplodeAround(position);
          bonusPoints := 150;
        case SlowMotion =>
          StartSlowMotion(now);
          bonusPoints := 100;
        case None =>
      }
      UpdateScore(bonusPoints);
      UpdateScore(bonusPoints);
    }

    /**
     * The first half of Board.SpawnPiece: a clone of the drawn template,
     * initialized, and made a bonus piece when the chance roll is under
     * 0.15.
     */
    method DrawData(template: TetrominoData, roll: Rolls) returns (data: TetrominoData)
      requires 1 <= roll.bonus < 5
      ensures fresh(data) && Drawn(data, template, roll)
    {
      data := template.Clone();
      data.Initialize(catalog);
      if roll.chance < BonusChance {
        data.isBonus := true;
        data.bonusType := FromOrdinal(roll.bonus);
        data.tile := bonusTile;
      }
    }

    /**
     * Board.SpawnPiece with the draws in `roll`: clones a template,
     * initializes it, may make it a bonus piece, and either writes it at the
     * spawn position or ends the game.
     */
    method SpawnPiece(now: real, roll: Rolls)
      requires Spawnable() && 0 <= roll.kind < |tetrominoes| && 1 <= roll.bonus < 5
      modifies this`grid, this`isGameOver, activePiece, activePiece.cells
      ensures SpawnedFrom(old(State()), old(activePiece.enabled), now, roll)
      ensures fresh(activePiece.data)
      ensures old(activePiece.cells) != null ==> activePiece.cells == old(activePiece.cells)
      ensures Valid()
    {
      var template := tetrominoes[roll.kind];
      var data := DrawData(template, roll);
      activePiece.Initialize(spawnPosition, data, now);
      assert SpawnedPiece(template, now, roll);
      PlaceAtSpawn();
      SpawnedIsValid(template, now, roll);
    }

    /**
     * The end of Board.SpawnPiece: the initialized piece is written to the
     * grid if it fits at the spawn position; otherwise the game is over.
     */
    method PlaceAtSpawn()
      requires activePiece.cells != null && activePiece.data != null && activePiece.position == spawnPosition
      requires InBounds(grid, Bounds()) && Inside(activePiece.cells[..], spawnPosition, Bounds())
      modifies this`grid, this`isGameOver, activePiece`enabled
      ensures PlacedOrOver(old(State()), old(activePiece.enabled), activePiece.cells[..], activePiece.data.tile)
      ensures InBounds(grid, Bounds())
    {
      var valid := IsValidPosition(activePiece, spawnPosition);
      if valid {
        StampInBounds(grid, Bounds(), activePiece.cells[..], spawnPosition, activePiece.data.tile);
        Set(activePiece);
      } else {
        GameOver();
      }
    }

    /**
     * The game-over scan of Board.Lock: whether some cell of the piece lies
     * at or above the row under the top bound.
     */
    method ReachesTop(piece: Piece) returns (topOut: bool)
      requires piece.cells != null
      ensures topOut == TopOut(piece.cells[..], piece.position, Bounds())
    {
      var bounds := Bounds();
      for i := 0 to piece.cells.Length
        invariant forall j :: 0 <= j < i ==> Add(piece.cells[j], piece.position).y < bounds.yMax() - 1
      {
        var position := Add(piece.cells[i], piece.position);
        if position.y >= bounds.yMax() - 1 {
          return true;
        }
      }
      return false;
    }

    /**
     * Board.Lock up to the spawn: writes the piece, ends the game if it
     * reached the row under the top bound, and otherwise clears rows and
     * fires the piece's bonus. The new state is Settle of the old one.
     */
    method LockInPlace(piece: Piece, now: real, rolls: Rolls)
      requires piece == activePiece && piece.cells != null && piece.data != null
      requires width > 0 && InBounds(grid, Bounds()) && Inside(piece.cells[..], piece.position, Bounds())
      requires Bounds().yMin <= rolls.row
      modifies this`grid, this`score, this`isGameOver, this`isSlowMotion, this`slowMotionEndTime, piece`enabled
      ensures State() == Settle(Bounds(), old(State()), old(piece.Landed()), now, slowMotionDuration, rolls)
      ensures piece.enabled == (old(piece.enabled) && !TopOut(piece.cells[..], piece.position, Bounds()))
    {
      ghost var s := State();
      ghost var p := piece.Landed();
      var bounds := Bounds();
      StampInBounds(grid, bounds, piece.cells[..], piece.position, piece.data.tile);
      Set(piece);
      var topOut := ReachesTop(piece);
      if topOut {
        GameOver();
        return;
      }
      ClearLines();
      if piece.data.isBonus {
        ActivateBonus(piece.data.bonusType, piece.position, now, rolls);
      }
      BonusGridInBounds(ClearFrom(Stamp(s.grid, p.cells, p.position, p.tile), bounds, bounds.yMin).0,
                        bounds, BonusOf(p), p.position, rolls.row, rolls.col);
    }

    /**
     * Board.Lock: settles the piece and, unless the game is over, spawns
     * the next one. When the game ends here the piece itself is left as it
     * was, only disabled.
     */
    method Lock(piece: Piece, now: real, rolls: Rolls)
      requires piece == activePiece && Valid() && RollsInRange(rolls)
      modifies this, activePiece, activePiece.cells
      ensures LockedFrom(old(State()), old(activePiece.Landed()), old(activePiece.enabled), now, rolls)
      ensures activePiece.cells == old(activePiece.cells)
      ensures old(isGameOver) || TopOut(old(activePiece.cells[..]), old(activePiece.position), Bounds()) ==>
                && activePiece.data == old(activePiece.data) && activePiece.cells[..] == old(activePiece.cells[..])
                && unchanged(activePiece`position, activePiece`rotationIndex, activePiece`stepTime,
                             activePiece`moveTime, activePiece`lockTime, activePiece`stepDelay)
      ensures Valid()
    {
      ghost var s := State();
      ghost var p := piece.Landed();
      LockInPlace(piece, now, rolls);
      SettleInBounds(Bounds(), s, p, now, slowMotionDuration, rolls);
      if !isGameOver {
        SpawnPiece(now, rolls);
      }
    }

    /**
     * Board.Update, one frame: slow motion ends once `now` is past its end
     * time, and a press of R restarts the game with the draws in `roll`.
     */
    method Update(now: real, restartKey: bool, roll: Rolls)
      requires Spawnable() && RollsInRange(roll)
      modifies this, activePiece, activePiece.cells
      ensures !restartKey ==> unchanged(activePiece) && grid == old(grid) && score == old(score)
      ensures !restartKey ==> isGameOver == old(isGameOver) && slowMotionEndTime == old(slowMotionEndTime)
      ensures !restartKey ==> isSlowMotion == (old(isSlowMotion) && now <= old(slowMotionEndTime))
      ensures restartKey ==> !isGameOver && score == 0 && !isSlowMotion && activePiece.enabled && Valid()
      ensures restartKey ==> SpawnedFrom(BoardState(map[], 0, false, false, old(slowMotionEndTime)), true, now, roll)
      ensures !restartKey && activePiece.cells != null ==> activePiece.cells[..] == old(activePiece.cells[..])
      ensures old(Valid()) ==> Valid()
    {
      if isSlowMotion && now > slowMotionEndTime {
        isSlowMotion := false;
      }
      if restartKey {
        RestartGame(now, roll);
      }
    }

    /**
     * Board.RestartGame with the draws of the first spawn: score reset,
     * grid emptied, slow motion off, piece re-enabled, a new piece spawned.
     * On the empty grid the spawn always fits, so the game is live again.
     */
    method RestartGame(now: real, roll: Rolls)
      requires Spawnable() && RollsInRange(roll)
      modifies this, activePiece, activePiece.cells
      ensures SpawnedFrom(BoardState(map[], 0, false, false, old(slowMotionEndTime)), true, now, roll)
      ensures !isGameOver && score == 0 && activePiece.enabled
      ensures Valid()
    {
      isGameOver := false;
      score := 0;
      UpdateScore(0);
      grid := map[];
      isSlowMotion := false;
      activePiece.enabled := true;
      SpawnPiece(now, roll);
    }
  }

  /**
   * Piece: the falling piece's cells, position, rotation and timers, and
   * the per-frame input handling. The Board it plays on is a parameter of
   * each operation.
   */
  class Piece {
    const initialStepDelay: real
    const moveDelay: real
    const lockDelay: real

    var data: TetrominoData?
    var cells: array?<Cell>
    var position: Cell
    var rotationIndex: int
    var stepTime: real
    var moveTime: real
    var lockTime: real
    var stepDelay: real
    /** Behaviour.enabled: Unity calls Update only while it is set. */
    var enabled: bool

    /** A piece component before its first Initialize. */
    constructor (initialStepDelay: real, moveDelay: real, lockDelay: real)
      ensures this.initialStepDelay == initialStepDelay && this.moveDelay == moveDelay
      ensures this.lockDelay == lockDelay
      ensures data == null && cells == null && enabled
    {
      this.initialStepDelay := initialStepDelay;
      this.moveDelay := moveDelay;
      this.lockDelay := lockDelay;
      data := null;
      cells := null;
      position := Cell(0, 0);
      rotationIndex := 0;
      stepTime := 0.0;
      moveTime := 0.0;
      lockTime := 0.0;
      stepDelay := 0.0;
      enabled := true;
    }

    /** The parts of the piece Board.Lock reads. */
    ghost function Landed(): Landing
      requires data != null && cells != null
      reads this`data, this`cells, this`position, data, cells
    {
      Landing(cells[..], position, data.tile, data.isBonus, data.bonusType)
    }

    /** The piece's pose, as a value. */
    ghost function CurrentPose(): Pose
      requires cells != null
      reads this, cells
    {
      Pose(cells[..], position, rotationIndex, stepTime, moveTime, lockTime)
    }

    /** The whole piece, as a value. */
    ghost function View(): PieceView
      requires cells != null && data != null && data.wallKicks.Some?
      reads this, cells, data
    {
      PieceView(CurrentPose(), data.tetromino, data.wallKicks.value, data.tile,
                data.isBonus, data.bonusType, stepDelay, enabled)
    }

    /**
     * Piece.Initialize: takes the data and position, resets rotation and
     * timers, allocates the cell array on first use and copies the data's
     * cells into it. The copy is done first here; no step reads what
     * another writes, so the order does not matter.
     */
    method Initialize(position: Cell, data: TetrominoData, now: real)
      requires data.cells.Some?
      requires cells != null ==> cells.Length <= |data.cells.value|
      modifies this`data, this`cells, this`position, this`rotationIndex, this`stepDelay
      modifies this`stepTime, this`moveTime, this`lockTime, cells
      ensures this.data == data && this.position == position && rotationIndex == 0
      ensures stepDelay == initialStepDelay && stepTime == now + initialStepDelay
      ensures moveTime == now + moveDelay && lockTime == 0.0
      ensures cells != null && (old(cells) == null ==> fresh(cells) && cells.Length == |data.cells.value|)
      ensures old(cells) != null ==> cells == old(cells)
      ensures cells[..] == data.cells.value[..cells.Length]
    {
      var a := cells;
      if a == null {
        a := new Cell[|data.cells.value|](_ => Cell(0, 0));
        cells := a;
      }
      var source := data.cells.value;
      for i := 0 to a.Length
        invariant cells == a
        invariant forall j :: 0 <= j < i ==> a[j] == source[j]
      {
        a[i] := source[i];
      }
      assert a[..] == source[..a.Length];
      this.data := data;
      this.position := position;
      rotationIndex := 0;
      stepDelay := initialStepDelay;
      stepTime := now + stepDelay;
      moveTime := now + moveDelay;
      lockTime := 0.0;
    }

    /**
     * Piece.Move: the piece goes to `position + translation` if it fits
     * there, which also restarts the move and lock timers; otherwise
     * nothing changes. The result says whether it moved.
     */
    method Move(board: Board, translation: Cell, now: real) returns (valid: bool)
      requires cells != null
      modifies this`position, this`moveTime, this`lockTime
      ensures valid == Fits(board.grid, board.Bounds(), cells[..], Add(old(position), translation))
      ensures valid ==> position == Add(old(position), translation) && moveTime == now + moveDelay && lockTime == 0.0
      ensures !valid ==> position == old(position) && moveTime == old(moveTime) && lockTime == old(lockTime)
      ensures this == board.activePiece && old(board.Valid()) ==> board.Valid()
    {
      var newPosition := Add(position, translation);
      valid := board.IsValidPosition(this, newPosition);
      if valid {
        position := newPosition;
        moveTime := now + moveDelay;
        lockTime := 0.0;
      }
    }

    /**
     * Piece.ApplyRotationMatrix: every cell replaced, in place, by its
     * image under the matrix in the given direction.
     */
    method ApplyRotationMatrix(direction: int, matrix: seq<int>)
      requires cells != null && data != null && |matrix| == 4
      modifies cells
      ensures cells[..] == RotateCells(old(cells[..]), data.tetromino, direction, matrix)
    {
      for i := 0 to cells.Length
        invariant forall j :: 0 <= j < i ==> cells[j] == RotateCell(old(cells[j]), data.tetromino, direction, matrix)
        invariant forall j :: i <= j < cells.Length ==> cells[j] == old(cells[j])
      {
        cells[i] := RotateCell(cells[i], data.tetromino, direction, matrix);
      }
    }

    /** The wall-kick row for a turn to `rotationIndex` in `rotationDirection`. */
    ghost function KickRow(rotationIndex: int, rotationDirection: int): seq<Cell>
      requires data != null && data.wallKicks.Some? && |data.wallKicks.value| >= 2
      requires 0 <= rotationIndex < 4
      reads this`data, data
    {
      data.wallKicks.value[GetWallKickIndex(rotationIndex, rotationDirection, |data.wallKicks.value|)]
    }

    /**
     * Piece.TestWallKicks: tries the translations of the row for this turn
     * in order and keeps the first one that fits. The piece ends up moved
     * by FirstKick's translation, or unmoved when none fits.
     */
    method TestWallKicks(board: Board, rotationIndex: int, rotationDirection: int, now: real) returns (ok: bool)
      requires cells != null && data != null && data.wallKicks.Some? && |data.wallKicks.value| >= 2
      requires 0 <= rotationIndex < 4
      modifies this`position, this`moveTime, this`lockTime
      ensures var kicks := KickRow(rotationIndex, rotationDirection);
              var k := FirstKick(board.grid, board.Bounds(), cells[..], old(position), kicks, 0);
              && ok == k.Some?
              && (k.Some? ==> position == Add(old(position), kicks[k.value])
                              && moveTime == now + moveDelay && lockTime == 0.0)
              && (k.None? ==> position == old(position) && moveTime == old(moveTime) && lockTime == old(lockTime))
    {
      var wallKickIndex := GetWallKickIndex(rotationIndex, rotationDirection, |data.wallKicks.value|);
      var kicks := data.wallKicks.value[wallKickIndex];
      ghost var g, b, shape := board.grid, board.Bounds(), cells[..];
      for i := 0 to |kicks|
        invariant position == old(position) && moveTime == old(moveTime) && lockTime == old(lockTime)
        invariant FirstKick(g, b, shape, position, kicks, 0) == FirstKick(g, b, shape, position, kicks, i)
      {
        var translation := kicks[i];
        var moved := Move(board, translation, now);
        if moved {
          return true;
        }
      }
      return false;
    }

    /**
     * Piece.Rotate: turns the cells and the rotation index together and
     * keeps the turn only if some wall kick fits; otherwise both are turned
     * back, so the piece is exactly as before.
     */
    method Rotate(board: Board, direction: int, now: real)
      requires cells != null && data != null && data.wallKicks.Some? && |data.wallKicks.value| >= 2
      requires 0 <= rotationIndex < 4 && (direction == 1 || direction == -1)
      requires board.catalog.matrix == Tetrominoes.QuarterTurn
      modifies this`rotationIndex, this`position, this`moveTime, this`lockTime, cells
      ensures var turned := RotateCells(old(cells[..]), data.tetromino, direction, Tetrominoes.QuarterTurn);
              var index := Wrap(old(rotationIndex) + direction, 0, 4);
              var kicks := KickRow(index, direction);
              var k := FirstKick(board.grid, board.Bounds(), turned, old(position), kicks, 0);
              && (k.Some? ==> && rotationIndex == index && cells[..] == turned
                              && position == Add(old(position), kicks[k.value])
                              && moveTime == now + moveDelay && lockTime == 0.0)
              && (k.None? ==> && rotationIndex == old(rotationIndex) && cells[..] == old(cells[..])
                              && position == old(position) && moveTime == old(moveTime) && lockTime == old(lockTime))
      ensures this == board.activePiece && old(board.Valid()) ==> board.Valid()
    {
      var originalRotation := rotationIndex;
      WrapRotationIndex(rotationIndex, direction);
      rotationIndex := Wrap(rotationIndex + direction, 0, 4);
      ApplyRotationMatrix(direction, board.catalog.matrix);
      var ok := TestWallKicks(board, rotationIndex, direction, now);
      if !ok {
        rotationIndex := originalRotation;
        ApplyRotationMatrix(-direction, board.catalog.matrix);
        RotateInverse(old(cells[..]), data.tetromino, direction);
      }
      if this == board.activePiece && old(board.Valid()) {
        assert board.Ready();
        if ok {
          FirstKickChoice(board.grid, board.Bounds(), cells[..], old(position), KickRow(rotationIndex, direction), 0);
          assert Fits(board.grid, board.Bounds(), cells[..], position);
        }
      }
    }

    /** Piece.Lock: hands the piece to the board. */
    method Lock(board: Board, now: real, rolls: Rolls)
      requires this == board.activePiece && board.Valid() && board.RollsInRange(rolls)
      modifies board, this, cells
      ensures board.LockedFrom(old(board.State()), old(Landed()), old(enabled), now, rolls)
      ensures board.activePiece == this && cells == old(cells) && board.Valid()
      ensures old(board.isGameOver) || TopOut(old(cells[..]), old(position), board.Bounds()) ==>
                && data == old(data) && cells[..] == old(cells[..])
                && unchanged(this`position, this`rotationIndex, this`stepTime, this`moveTime, this`lockTime, this`stepDelay)
      ensures old(board.isGameOver) || TopOut(old(cells[..]), old(position), board.Bounds()) ==>
                RestsAs(old(View()), old(CurrentPose()))
      ensures board.score >= old(board.score)
    {
      ghost var s0, p0, e0 := board.State(), Landed(), enabled;
      board.Lock(this, now, rolls);
      board.LockedScore(s0, p0, e0, now, rolls);
    }

    /**
     * The loop of Piece.HardDrop: moves down while the piece fits and
     * counts the moves, which come to exactly DropDistance rows.
     */
    method DropDown(board: Board, now: real) returns (dropDistance: nat)
      requires cells != null && cells.Length > 0
      modifies this`position, this`moveTime, this`lockTime
      ensures cells[..] == old(cells[..])
      ensures dropDistance == DropDistance(board.grid, board.Bounds(), old(cells[..]), old(position))
      ensures position == Below(old(position), dropDistance)
      ensures dropDistance > 0 ==> Fits(board.grid, board.Bounds(), cells[..], position)
      ensures dropDistance > 0 ==> moveTime == now + moveDelay && lockTime == 0.0
      ensures dropDistance == 0 ==> moveTime == old(moveTime) && lockTime == old(lockTime)
      ensures this == board.activePiece && old(board.Valid()) ==> board.Valid()
    {
      ghost var g, b, shape, p0 := board.grid, board.Bounds(), cells[..], position;
      ghost var d := DropDistance(g, b, shape, p0);
      dropDistance := 0;
      while true
        invariant dropDistance <= d && position == Below(p0, dropDistance)
        invariant dropDistance > 0 ==> moveTime == now + moveDelay && lockTime == 0.0
        invariant dropDistance == 0 ==> moveTime == old(moveTime) && lockTime == old(lockTime)
        invariant this == board.activePiece && old(board.Valid()) ==> board.Valid()
        decreases d - dropDistance
      {
        assert Add(position, Down) == Below(p0, dropDistance + 1);
        assert dropDistance == d ==> !Fits(g, b, shape, Below(p0, dropDistance + 1));
        var moved := Move(board, Down, now);
        if !moved {
          break;
        }
        dropDistance := dropDistance + 1;
      }
    }

    /**
     * The first part of Piece.HardDrop: the drop loop, then two points a
     * row added to the score.
     */
    method DropAndScore(board: Board, now: real) returns (dropDistance: nat)
      requires this == board.activePiece && board.Valid()
      modifies board`score, this`position, this`moveTime, this`lockTime
      ensures dropDistance == DropDistance(old(board.grid), board.Bounds(), old(cells[..]), old(position))
      ensures board.State() == old(board.State()).(score := old(board.score) + 2 * dropDistance)
      ensures View() == old(View()).(pose := DropMove(old(CurrentPose()), dropDistance, now, moveDelay))
      ensures board.Valid()
    {
      ghost var p0 := CurrentPose();
      dropDistance := DropDown(board, now);
      assert CurrentPose() == DropMove(p0, dropDistance, now, moveDelay);
      board.UpdateScore(dropDistance * 2);
    }

    /**
     * The piece is the one `v` describes, with pose `p` and whatever enabled
     * flag it now has: where a lock that ends the game leaves it, since
     * Board.Lock returns before spawning and the piece stays as it landed.
     */
    ghost predicate RestsAs(v: PieceView, p: Pose)
      reads this, cells, data
    {
      cells != null && data != null && data.wallKicks.Some? && View() == v.(pose := p, enabled := enabled)
    }

    /**
     * Piece.HardDrop: drops the piece DropDistance rows, scores two points
     * a row and locks the piece there.
     */
    method HardDrop(board: Board, now: real, rolls: Rolls)
      requires this == board.activePiece && board.Valid() && board.RollsInRange(rolls)
      modifies board, this, cells
      ensures board.DroppedFrom(old(board.State()), old(View()), now, rolls)
      ensures board.score >= old(board.score)
      ensures board.activePiece == this && cells == old(cells) && board.Valid()
      ensures var d := DropDistance(old(board.grid), board.Bounds(), old(cells[..]), old(position));
              old(board.isGameOver) || TopOut(old(cells[..]), Below(old(position), d), board.Bounds()) ==>
                RestsAs(old(View()), DropMove(old(CurrentPose()), d, now, moveDelay))
    {
      ghost var s0, v0 := board.State(), View();
      var dropDistance := DropAndScore(board, now);
      LockDropped(board, now, rolls, s0, v0);
    }

    /**
     * The end of Piece.HardDrop: the lock of a piece that has just dropped
     * and scored from board state `s` and piece `v`.
     */
    method LockDropped(board: Board, now: real, rolls: Rolls, ghost s: BoardState, ghost v: PieceView)
      requires this == board.activePiece && board.Valid() && board.RollsInRange(rolls)
      requires |v.pose.cells| > 0
      requires var d := DropDistance(s.grid, board.Bounds(), v.pose.cells, v.pose.position);
               && board.State() == s.(score := s.score + 2 * d)
               && View() == v.(pose := DropMove(v.pose, d, now, moveDelay))
      modifies board, this, cells
      ensures board.DroppedFrom(s, v, now, rolls)
      ensures board.score >= old(board.score)
      ensures board.activePiece == this && cells == old(cells) && board.Valid()
      ensures var d := DropDistance(s.grid, board.Bounds(), v.pose.cells, v.pose.position);
              s.isGameOver || TopOut(v.pose.cells, Below(v.pose.position, d), board.Bounds()) ==>
                RestsAs(v, DropMove(v.pose, d, now, moveDelay))
    {
      ghost var before, landing, e := board.State(), Landed(), enabled;
      Lock(board, now, rolls);
      board.DroppedIntro(s, v, now, rolls, before, landing, e);
    }

    /**
     * Piece.Step: pushes the next step time back, tries to move down one
     * row, and locks the piece if it has rested for the lock delay. A
     * successful move zeroes the lock timer, so with a positive delay only
     * a piece that could not move down locks.
     */
    method Step(board: Board, now: real, rolls: Rolls)
      returns (ghost moved: bool, ghost locked: bool, ghost before: BoardState, ghost landing: Landing, ghost e: bool)
      requires this == board.activePiece && board.Valid() && board.RollsInRange(rolls)
      modifies board, this, cells
      ensures moved == Fits(old(board.grid), board.Bounds(), old(cells[..]), Below(old(position), 1))
      ensures locked == ((if moved then 0.0 else old(lockTime)) >= lockDelay)
      ensures before == old(board.State()) && e == old(enabled)
      ensures landing == Landing(old(cells[..]), if moved then Below(old(position), 1) else old(position),
                                 old(data.tile), old(data.isBonus), old(data.bonusType))
      ensures lockDelay > 0.0 && locked ==> !moved
      ensures locked ==> board.LockedFrom(before, landing, e, now, rolls)
      ensures !locked ==> && board.State() == before && enabled == e
                          && position == landing.position && lockTime == (if moved then 0.0 else old(lockTime))
                          && stepTime == now + old(stepDelay) && data == old(data)
      ensures board.activePiece == this && cells == old(cells) && board.Valid()
      ensures var after := StepMove(old(board.grid), board.Bounds(), old(CurrentPose()), now, old(stepDelay), moveDelay);
              && locked == (after.lockTime >= lockDelay)
              && landing.position == after.position
              && (!locked ==> View() == old(View()).(pose := after))
              && (locked && (old(board.isGameOver) || TopOut(old(cells[..]), landing.position, board.Bounds())) ==>
                    RestsAs(old(View()), after))
    {
      stepTime := now + stepDelay;
      var valid := Move(board, Down, now);
      moved := valid;
      before, landing, e := board.State(), Landed(), enabled;
      locked := lockTime >= lockDelay;
      assert moved == Fits(old(board.grid), board.Bounds(), old(cells[..]), Below(old(position), 1));
      assert locked == ((if moved then 0.0 else old(lockTime)) >= lockDelay);
      assert before == old(board.State()) && e == old(enabled);
      assert landing == Landing(old(cells[..]), if moved then Below(old(position), 1) else old(position),
                                old(data.tile), old(data.isBonus), old(data.bonusType));
      if lockTime >= lockDelay {
        Lock(board, now, rolls);
      }
    }

    /**
     * Piece.HandleMoveInputs: a held soft-drop key moves the piece down and,
     * if that worked, pushes the step time back; then left, or else right,
     * moves it sideways. The two moves are independent, so both may happen.
     */
    method HandleMoveInputs(board: Board, keys: Keys, now: real)
      requires cells != null
      modifies this`position, this`moveTime, this`lockTime, this`stepTime
      ensures var g, b, shape := board.grid, board.Bounds(), cells[..];
              var down := keys.softDrop && Fits(g, b, shape, Add(old(position), Down));
              var afterDown := if down then Add(old(position), Down) else old(position);
              var side := if keys.left then Left else Right;
              var sideways := (keys.left || keys.right) && Fits(g, b, shape, Add(afterDown, side));
              && position == (if sideways then Add(afterDown, side) else afterDown)
              && stepTime == (if down then now + stepDelay else old(stepTime))
              && (down || sideways ==> moveTime == now + moveDelay && lockTime == 0.0)
              && (!down && !sideways ==> moveTime == old(moveTime) && lockTime == old(lockTime))
      ensures CurrentPose() == MoveInputs(board.grid, board.Bounds(), old(CurrentPose()), keys, now, moveDelay, stepDelay)
      ensures this == board.activePiece && old(board.Valid()) ==> board.Valid()
    {
      if keys.softDrop {
        var moved := Move(board, Down, now);
        if moved {
          stepTime := now + stepDelay;
        }
      }
      if keys.left {
        var _ := Move(board, Left, now);
      } else if keys.right {
        var _ := Move(board, Right, now);
      }
    }

    /**
     * What the key-press part of a frame leaves, from board state `s` and
     * piece `v`: the turn TurnFor picks (Q before E, at most one) gives the
     * pose `turned`; then, with Space, the piece drops DropDistance rows
     * from there, scores two points a row and locks; without it nothing
     * else changes.
     */
    ghost predicate PressedFrom(board: Board, s: BoardState, v: PieceView, keys: Keys, now: real, rolls: Rolls, turned: Pose)
      reads board, this, cells, data, board.activePiece, board.activePiece.data, board.activePiece.cells, board.tetrominoes
    {
      && 0 <= v.pose.rotationIndex < 4 && |v.kicks| >= 2
      && turned == TurnFor(s.grid, board.Bounds(), v.kicks, v.kind, v.pose, keys, now, moveDelay)
      && if keys.hardDrop then
           && board.DroppedFrom(s, v.(pose := turned), now, rolls)
           && var d := DropDistance(s.grid, board.Bounds(), turned.cells, turned.position);
              (s.isGameOver || TopOut(turned.cells, Below(turned.position, d), board.Bounds()) ==>
                 RestsAs(v, DropMove(turned, d, now, moveDelay)))
         else
           && cells != null && data != null && data.wallKicks.Some?
           && board.State() == s && View() == v.(pose := turned)
    }

    /**
     * What the timed part of a frame leaves, from board state `s` and piece
     * `v`: once `now` is past the move time the held keys give the pose
     * `moved`; then, once `now` is past the step time of that pose, a step
     * down, locking the piece when its lock timer has reached the delay.
     */
    ghost predicate TimedFrom(board: Board, s: BoardState, v: PieceView, keys: Keys, now: real, rolls: Rolls, moved: Pose)
      reads board, this, cells, data, board.activePiece, board.activePiece.data, board.activePiece.cells, board.tetrominoes
    {
      && moved == (if now > v.pose.moveTime then MoveInputs(s.grid, board.Bounds(), v.pose, keys, now, moveDelay, v.stepDelay)
                   else v.pose)
      && var stepped := now > moved.stepTime;
         var after := StepMove(s.grid, board.Bounds(), moved, now, v.stepDelay, moveDelay);
         if stepped && after.lockTime >= lockDelay then
           && board.LockedFrom(s, Landing(moved.cells, after.position, v.tile, v.isBonus, v.bonusType), v.enabled, now, rolls)
           && (s.isGameOver || TopOut(moved.cells, after.position, board.Bounds()) ==> RestsAs(v, after))
         else
           && cells != null && data != null && data.wallKicks.Some?
           && board.State() == s && View() == v.(pose := if stepped then after else moved)
    }

    /** The rotation keys of Piece.Update: Q turns by -1, otherwise E by +1. */
    method RotateKeys(board: Board, keys: Keys, now: real)
      requires this == board.activePiece && board.Valid()
      modifies this`rotationIndex, this`position, this`moveTime, this`lockTime, cells
      ensures CurrentPose() ==
              TurnFor(board.grid, board.Bounds(), data.wallKicks.value, data.tetromino, old(CurrentPose()), keys, now, moveDelay)
      ensures board.Valid()
    {
      if keys.rotateLeft {
        Rotate(board, -1, now);
      } else if keys.rotateRight {
        Rotate(board, 1, now);
      }
    }

    /**
     * The key-press part of Piece.Update: at most one rotation, Q (-1)
     * taking priority over E (+1), then a hard drop if Space was pressed.
     */
    method PressedKeys(board: Board, keys: Keys, now: real, dropRolls: Rolls) returns (ghost turned: Pose)
      requires this == board.activePiece && board.Valid() && board.RollsInRange(dropRolls)
      modifies board, this, cells
      ensures board.activePiece == this && cells == old(cells) && board.Valid()
      ensures PressedFrom(board, old(board.State()), old(View()), keys, now, dropRolls, turned)
      ensures keys.hardDrop ==> board.score >= old(board.score)
      ensures !keys.hardDrop && !keys.rotateLeft && !keys.rotateRight ==>
                unchanged(board, this) && cells[..] == old(cells[..])
    {
      RotateKeys(board, keys, now);
      turned := CurrentPose();
      if keys.hardDrop {
        HardDrop(board, now, dropRolls);
      }
    }

    /**
     * The timed part of Piece.Update: the held move keys once `now` is past
     * the move time, then a step once it is past the step time (which the
     * soft drop may just have pushed back).
     */
    method TimedMoves(board: Board, keys: Keys, now: real, stepRolls: Rolls) returns (ghost moved: Pose)
      requires this == board.activePiece && board.Valid() && board.RollsInRange(stepRolls)
      modifies board, this, cells
      ensures board.activePiece == this && cells == old(cells) && board.Valid()
      ensures TimedFrom(board, old(board.State()), old(View()), keys, now, stepRolls, moved)
      ensures now <= old(moveTime) && now <= old(stepTime) ==> unchanged(board, this) && cells[..] == old(cells[..])
    {
      if now > moveTime {
        HandleMoveInputs(board, keys, now);
      }
      moved := CurrentPose();
      if now > stepTime {
        ghost var stepDown, locked, before, landing, e := Step(board, now, stepRolls);
      }
    }

    /**
     * The keys and timers of one frame after the piece is lifted: the
     * pressed keys, then the timed moves. For a frame without a lock the
     * new pose is the turn, then the held-key moves, then the step, each
     * from the pose the previous one left, and the board is unchanged.
     */
    method Play(board: Board, keys: Keys, now: real, dropRolls: Rolls, stepRolls: Rolls)
      returns (ghost turned: Pose, ghost moved: Pose)
      requires this == board.activePiece && board.Valid()
      requires board.RollsInRange(dropRolls) && board.RollsInRange(stepRolls)
      modifies board, this, cells
      ensures board.activePiece == this && cells == old(cells) && board.Valid()
      ensures !keys.hardDrop ==>
                && turned == TurnFor(old(board.grid), board.Bounds(), old(data.wallKicks.value), old(data.tetromino),
                                     old(CurrentPose()), keys, now, moveDelay)
                && moved == (if now > turned.moveTime
                             then MoveInputs(old(board.grid), board.Bounds(), turned, keys, now, moveDelay, old(stepDelay))
                             else turned)
      ensures !keys.hardDrop ==>
                var stepped := now > moved.stepTime;
                var after := StepMove(old(board.grid), board.Bounds(), moved, now, old(stepDelay), moveDelay);
                !(stepped && after.lockTime >= lockDelay) ==>
                  && board.State() == old(board.State())
                  && View() == old(View()).(pose := if stepped then after else moved)
    {
      ghost var s0, v0 := board.State(), View();
      turned := PressedKeys(board, keys, now, dropRolls);
      ghost var v1 := View();
      moved := TimedMoves(board, keys, now, stepRolls);
      assert !keys.hardDrop ==> v1 == v0.(pose := turned);
    }

    /**
     * Piece.Update, one frame: nothing if the game is over; otherwise the
     * piece's tiles are lifted off the grid (`lifted`), the lock timer
     * advances by the frame time (`start`), then the pressed keys and the
     * timed moves are handled, each seeing what the previous one left;
     * finally the piece (possibly a newly spawned one, or one whose lock
     * ended the game) is written back. The game-over flag is looked at only
     * on entry. For a frame without a lock the whole new state is given:
     * the turn, then the held-key moves, then the step, then the write.
     * Unity calls Update only while the component is enabled.
     */
    method Update(board: Board, now: real, dt: real, keys: Keys, dropRolls: Rolls, stepRolls: Rolls)
      returns (ghost lifted: BoardState, ghost start: PieceView, ghost turned: Pose, ghost moved: Pose)
      requires this == board.activePiece && enabled && board.Valid()
      requires board.RollsInRange(dropRolls) && board.RollsInRange(stepRolls)
      modifies board, this, cells
      ensures board.activePiece == this && cells == old(cells) && board.Valid()
      ensures old(board.isGameOver) ==> unchanged(board, this) && cells[..] == old(cells[..])
      ensures !old(board.isGameOver) ==>
                forall c :: c in Placed(cells[..], position) ==> At(board.grid, c) == Wrappers.Some(data.tile)
      ensures !old(board.isGameOver) ==> board.grid != map[]
      ensures !old(board.isGameOver) ==>
                && lifted == old(board.State()).(grid := Erase(old(board.grid), old(cells[..]), old(position)))
                && start == old(View()).(pose := old(CurrentPose()).(lockTime := old(lockTime) + dt))
      ensures !old(board.isGameOver) && !keys.hardDrop ==>
                && turned == TurnFor(lifted.grid, board.Bounds(), start.kicks, start.kind, start.pose, keys, now, moveDelay)
                && moved == (if now > turned.moveTime
                             then MoveInputs(lifted.grid, board.Bounds(), turned, keys, now, moveDelay, start.stepDelay)
                             else turned)
      ensures !old(board.isGameOver) && !keys.hardDrop ==>
                var stepped := now > moved.stepTime;
                var after := StepMove(lifted.grid, board.Bounds(), moved, now, start.stepDelay, moveDelay);
                var final := if stepped then after else moved;
                !(stepped && after.lockTime >= lockDelay) ==>
                  && View() == start.(pose := final)
                  && board.State() == lifted.(grid := Stamp(lifted.grid, final.cells, final.position, start.tile))
    {
      lifted, start := board.State(), View();
      turned, moved := CurrentPose(), CurrentPose();
      if board.isGameOver {
        return;
      }
      Lift(board, dt);
      lifted, start := board.State(), View();
      turned, moved := Play(board, keys, now, dropRolls, stepRolls);
      PutBack(board);
    }

    /** The first steps of a frame: `board.Clear(this)`, then the lock timer advances by dt. */
    method Lift(board: Board, dt: real)
      requires this == board.activePiece && board.Valid()
      modifies board`grid, this`lockTime
      ensures board.Valid()
      ensures board.State() == old(board.State()).(grid := Erase(old(board.grid), cells[..], position))
      ensures View() == old(View()).(pose := old(CurrentPose()).(lockTime := old(lockTime) + dt))
    {
      EraseInBounds(board.grid, board.Bounds(), cells[..], position);
      board.Clear(this);
      lockTime := lockTime + dt;
    }

    /** The last step of a frame: `board.Set(this)` writes the piece's tiles back. */
    method PutBack(board: Board)
      requires this == board.activePiece && board.Valid()
      modifies board`grid
      ensures board.Valid()
      ensures board.grid == Stamp(old(board.grid), cells[..], position, data.tile)
      ensures forall c :: c in Placed(cells[..], position) ==> At(board.grid, c) == Wrappers.Some(data.tile)
      ensures board.grid != map[]
    {
      StampInBounds(board.grid, board.Bounds(), cells[..], position, data.tile);
      StampAt(board.grid, cells[..], position, data.tile);
      board.Set(this);
      assert Add(cells[0], position) in Placed(cells[..], position);
    }
  }
}
