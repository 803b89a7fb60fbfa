/**
 * The shape descriptor handed to each spawned piece: the seven shape kinds,
 * the bonus kinds, the shape catalog (cells and wall-kick table per kind,
 * and the rotation matrix) and the per-spawn TetrominoData object.
 */
module Tetrominoes {
  import Wrappers
  import opened Grid

  datatype Tetromino = I | J | L | O | S | T | Z

  /** BonusType; None is the enum's value 0 and the four effects are 1 to 4. */
  datatype BonusType = None | LineClear | ColumnClear | Bomb | SlowMotion

  /** The enum's integer value. */
  function Ordinal(k: BonusType): int
  {
    match k
    case None => 0
    case LineClear => 1
    case ColumnClear => 2
    case Bomb => 3
    case SlowMotion => 4
  }

  /** The cast `(BonusType)n` for an n that names a member. */
  function FromOrdinal(n: int): (k: BonusType)
    requires 0 <= n < 5
    ensures Ordinal(k) == n
  {
    if n == 0 then BonusType.None
    else if n == 1 then LineClear
    else if n == 2 then ColumnClear
    else if n == 3 then Bomb
    else SlowMotion
  }

  /** The cast and the enum's value are inverse to each other. */
  lemma OrdinalRoundTrip(k: BonusType)
    ensures 0 <= Ordinal(k) < 5 && FromOrdinal(Ordinal(k)) == k
  {
  }

  /** A value drawn by Random.Range(1, 5) never casts to None. */
  lemma DrawnBonusIsEffect(n: int)
    requires 1 <= n < 5
    ensures FromOrdinal(n) != BonusType.None
  {
    assert Ordinal(FromOrdinal(n)) == n;
  }

  /**
   * The static shape data: the rotation-0 cells of every kind, its wall-kick
   * table (rows are rotation transitions, each an ordered list of candidate
   * translations), and the 2x2 rotation matrix {m0, m1, m2, m3}. The matrix
   * entries are modelled as exact integers.
   */
  datatype Catalog = Catalog(shapes: Tetromino -> seq<Cell>,
                             kicks: Tetromino -> seq<seq<Cell>>,
                             matrix: seq<int>)

  /** The quarter-turn matrix {cos 90, sin 90, -sin 90, cos 90}. */
  const QuarterTurn: seq<int> := [0, 1, -1, 0]

  /**
   * What the model assumes of the catalog: four cells per kind, at least
   * two kick rows per kind, and the quarter-turn matrix.
   */
  predicate WellFormed(c: Catalog)
  {
    && (forall t :: |c.shapes(t)| == 4)
    && (forall t :: |c.kicks(t)| >= 2)
    && c.matrix == QuarterTurn
  }

  /**
   * TetrominoData: the serialized fields of a template (tile, kind, bonus
   * flag and kind), and the cells and wall kicks, which stay unset (null)
   * until Initialize.
   */
  class TetrominoData {
    var tile: TileId
    var tetromino: Tetromino
    var bonusType: BonusType
    var isBonus: bool
    var cells: Wrappers.Option<seq<Cell>>
    var wallKicks: Wrappers.Option<seq<seq<Cell>>>

    /** An object as the inspector or an object initializer creates it. */
    constructor (tile: TileId, tetromino: Tetromino, bonusType: BonusType, isBonus: bool)
      ensures this.tile == tile && this.tetromino == tetromino
      ensures this.bonusType == bonusType && this.isBonus == isBonus
      ensures cells.None? && wallKicks.None?
    {
      this.tile := tile;
      this.tetromino := tetromino;
      this.bonusType := bonusType;
      this.isBonus := isBonus;
      cells := Wrappers.None;
      wallKicks := Wrappers.None;
    }

    /**
     * Looks up the cells and kicks of this object's kind. The result depends
     * on the kind alone, so a second call changes nothing; the tile and the
     * bonus fields are left alone.
     */
    method Initialize(catalog: Catalog)
      modifies this`cells, this`wallKicks
      ensures cells == Wrappers.Some(catalog.shapes(tetromino))
      ensures wallKicks == Wrappers.Some(catalog.kicks(tetromino))
    {
      cells := Wrappers.Some(catalog.shapes(tetromino));
      wallKicks := Wrappers.Some(catalog.kicks(tetromino));
    }

    /**
     * A fresh object with the same tile, kind and bonus fields; cells and
     * kicks are not copied and are unset in the copy.
     */
    method Clone() returns (r: TetrominoData)
      ensures fresh(r)
      ensures r.tile == tile && r.tetromino == tetromino
      ensures r.bonusType == bonusType && r.isBonus == isBonus
      ensures r.cells.None? && r.wallKicks.None?
    {
      r := new TetrominoData(tile, tetromino, bonusType, isBonus);
    }
  }
}
