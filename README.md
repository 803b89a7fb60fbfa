# Tetris engine model

A Dafny model of the game engine of a Unity Tetris clone: the `Board`
(tile grid, bounds, placement checks, line clearing, scoring, the lock /
game-over / spawn sequence, three grid-altering bonus effects, restart),
the falling `Piece` (translation, all-or-nothing rotation with a wall-kick
search, hard drop, lock-delay stepping, the order of input handling within
one frame) and the per-spawn shape descriptor `TetrominoData`.

Modules:

- `Wrappers` (`wrappers.dfy`): `Option`, used for Unity's `null` tile and
  for the descriptor's fields that stay unset until `Initialize`.
- `Grid` (`grid.dfy`): cells, Unity's `RectInt` bounds, the tilemap as a
  `map<Cell, TileId>` (a cell holds a tile exactly when it is a key), and
  value-level definitions of every change the board makes to it: placing
  and erasing a piece (`Stamp`, `Erase`), clearing a row with the rows above
  falling down (`LineCleared`), the whole `ClearLines` scan (`ClearFrom`),
  clearing a column (`ColumnCleared`) and the 3x3 explosion (`Exploded`).
- `Tetrominoes` (`tetromino.dfy`): the `Tetromino` and `BonusType` enums, the
  shape catalog as a parameter, and the `TetrominoData` class with
  `Clone` and `Initialize`.
- `Rotation` (`rotation.dfy`): `Wrap`, `GetWallKickIndex`, the rotation
  matrix applied to cells, and the wall-kick search as a value
  (`FirstKick`).
- `Engine` (`engine.dfy`): the `Board` and `Piece` classes. They call each
  other, so they share one module. Their methods change the fields in place
  and are proved against the `Grid` and `Rotation` functions. The piece's
  per-frame moves are also given on values: a `Pose` (cells, position,
  rotation index, timers) and the functions `Turned`, `TurnFor`, `DropMove`,
  `MoveInputs` and `StepMove`, which the methods' contracts name.

The grid invariant is "no tile is stored outside the bounds" (`InBounds`).
Every board method keeps it. `LineClear` reads the row just above the top
bound, and the invariant is what makes the top row empty after a shift.

Bounds: the source computes the corner as `-boardSize.x / 2` with C#'s
truncating division. The model writes `-(w / 2)` on naturals, which is the
same value. Dafny's Euclidean `/` on `-w` would differ for odd sizes.

Rotation assumption: the rotation matrix comes from a data file that is not
part of this model. The catalog is a parameter, and the model assumes the
usual quarter-turn matrix `{0, 1, -1, 0}` (`cos 90, sin 90, -sin 90, cos 90`).
With that matrix and exact arithmetic, `ApplyRotationMatrix` reduces to
integer maps. For I and O, direction +1 maps (x, y) to (y, 1 - x) and
direction -1 maps it to (1 - y, x). For the other kinds the maps are
(y, -x) and (-y, x). `QuarterTurnCell` proves this.

Unity's clock and random source are parameters. `now` is `Time.time` and
`dt` is `Time.deltaTime`. The random draws made by one lock and the spawn
after it are one `Rolls` record: the template index, the bonus chance, the
bonus kind, and the row and column picked by a line or column bonus.
Operations that draw require the draws to be in the ranges `Random.Range`
and `Random.value` produce. The keyboard is a `Keys` record of booleans.

Three behaviours of the code that look unintended are kept as written:

- `ActivateBonus` calls `UpdateScore(bonusPoints)` twice, so a bonus adds
  400/400/300/200 points for LineClear/ColumnClear/Bomb/SlowMotion rather
  than the 200/200/150/100 its `bonusPoints` values suggest.
- `Lock` ends the game when a cell reaches row `yMax - 1`, one row below
  the top bound.
- A LineClear bonus clears the drawn row with the shifting `LineClear`.
  The rows above fall down; the row is not just emptied.

## Model

| member | source | states |
|---|---|---|
| Grid.BoundsOf | Assets/Scripts/Board.cs:28-35 | the bounds have the board's size and a corner at (-(w/2), -(h/2)); min + max equals the size mod 2, so even sizes are symmetric about 0 and odd ones lean positive |
| Grid.StampAt | Assets/Scripts/Board.cs:264-271 | after `Set`, a cell holds the piece's tile exactly when it is one of the piece's absolute cells; every other cell is unchanged |
| Grid.EraseAt | Assets/Scripts/Board.cs:273-280 | after `Clear`, the piece's absolute cells are empty and every other cell is unchanged |
| Grid.StampInBounds | Assets/Scripts/Board.cs:264-271 | writing a piece whose cells are inside the bounds keeps every tile inside the bounds |
| Grid.EraseInBounds | Assets/Scripts/Board.cs:273-280 | erasing a piece keeps every tile inside the bounds |
| Grid.LineClearedInBounds | Assets/Scripts/Board.cs:354-377 | clearing a row at or above the bottom bound keeps every tile inside the bounds |
| Grid.LineClearedRows | Assets/Scripts/Board.cs:354-377 | on an in-bounds grid, `LineClear(row)` keeps rows below `row`, moves each old row r+1 into row r for row <= r < yMax-1, and leaves the top row empty |
| Grid.RowShiftFull | Assets/Scripts/Board.cs:364-376 | after the shift, a row r at or above the cleared row is full exactly when the old row r+1 was |
| Grid.FullCountShift | Assets/Scripts/Board.cs:310-321 | clearing a full row lowers the number of full rows from that row upward by exactly one, which is why the scan that does not advance on a full row ends |
| Grid.ClearFrom | Assets/Scripts/Board.cs:304-322 | the scan clears exactly as many rows as were full, keeps rows below its start, keeps tiles in bounds, and leaves no full row from its start to the top |
| Grid.ColumnCleared | Assets/Scripts/Board.cs:142-152 | a column bonus empties the in-bounds cells of one column and nothing moves |
| Grid.Exploded | Assets/Scripts/Board.cs:154-164 | a bomb empties exactly the 3x3 block around its centre, in bounds or not, and keeps every other cell |
| Rotation.Wrap | Assets/Scripts/Piece.cs:236-246 | the result differs from the input by a multiple of the width; it lies in [min, max) except when the input is below min by an exact multiple of the width, where it is max |
| Rotation.WrapRotationIndex | Assets/Scripts/Piece.cs:171 | a rotation index 0..3 plus or minus one wraps back into 0..3 (-1 to 3, 4 to 0) |
| Rotation.GetWallKickIndex | Assets/Scripts/Piece.cs:226-234 | the kick row is twice the rotation index, minus one for a counter-clockwise turn, modulo the row count; for index 0..3 and at least two rows it is a row of the table |
| Rotation.QuarterTurnCell | Assets/Scripts/Piece.cs:181-208 | with the quarter-turn matrix, I and O cells turn by (x,y) to (y,1-x) or (1-y,x), and other kinds by (x,y) to (y,-x) or (-y,x) |
| Rotation.RotateInverse | Assets/Scripts/Piece.cs:174-178 | turning the cells in direction -d undoes a turn in direction d, which is how a failed rotation restores the cells |
| Rotation.FourTurns | Assets/Scripts/Piece.cs:181-208 | four clockwise quarter turns give back the original cells, for every kind |
| Rotation.FourTurnsBack | Assets/Scripts/Piece.cs:181-208 | four counter-clockwise quarter turns give back the original cells, for every kind |
| Rotation.TurnsStep | Assets/Scripts/Piece.cs:168-179 | cells and rotation index stay in step: turning the cells of state i by d gives the cells of state Wrap(i+d, 0, 4) |
| Rotation.FirstKickChoice | Assets/Scripts/Piece.cs:210-224 | the chosen kick fits and no earlier kick in table order fits; when none is chosen, no kick fits |
| Tetrominoes.FromOrdinal | Assets/Scripts/Tetromino.cs:9-16 | the cast from an enum value gives the member whose value it is |
| Tetrominoes.OrdinalRoundTrip | Assets/Scripts/Tetromino.cs:9-16 | enum value and cast are inverse; values are 0..4 |
| Tetrominoes.DrawnBonusIsEffect | Assets/Scripts/Board.cs:86 | a value drawn from `Random.Range(1, 5)` never casts to `None` |
| Tetrominoes.TetrominoData.constructor | Assets/Scripts/Tetromino.cs:19-28 | a descriptor holds its tile, kind and bonus fields; cells and kicks are unset |
| Tetrominoes.TetrominoData.Initialize | Assets/Scripts/Tetromino.cs:30-34 | cells and kicks become the catalog's entries for the kind alone, so a second call changes nothing; only those two fields may change |
| Tetrominoes.TetrominoData.Clone | Assets/Scripts/Tetromino.cs:36-45 | a fresh object with the same tile, kind, bonus type and bonus flag; cells and kicks are unset; later writes to the copy cannot reach the template |
| Engine.DropDistance | Assets/Scripts/Piece.cs:132-138 | the hard-drop distance d is maximal: every drop of 1..d rows fits and a drop of d+1 rows does not |
| Engine.SpawnFitsOnEmpty | Assets/Scripts/Board.cs:90-99 | on an empty grid every kind fits at the spawn origin |
| Engine.Settle | Assets/Scripts/Board.cs:166-188 | a lock ends the game exactly when a cell reaches row yMax-1, and then the grid is empty and the score unchanged; the score never falls |
| Engine.SettleInBounds | Assets/Scripts/Board.cs:166-188 | a lock keeps every tile inside the bounds |
| Engine.SettleLeavesNoFullRow | Assets/Scripts/Board.cs:182-187 | after a lock that does not end the game no in-bounds row is full, whatever bonus fired |
| Engine.BonusGridInBounds | Assets/Scripts/Board.cs:136-164 | each bonus effect keeps every tile inside the bounds |
| Engine.BonusGridNoFullRow | Assets/Scripts/Board.cs:136-164 | no bonus effect creates a full row |
| Engine.FewerTilesNoFullRow | Assets/Scripts/Board.cs:142-164 | an effect that only removes tiles (column clear, bomb) creates no full row |
| Engine.ShiftedNoFullRow | Assets/Scripts/Board.cs:354-377 | a grid with rows below kept, rows above shifted down by one and an empty top row has no full row where the old grid had none |
| Engine.LineClearedNoFullRow | Assets/Scripts/Board.cs:136-140 | a LineClear bonus creates no full row |
| Engine.TurnedKeepsTurns | Assets/Scripts/Piece.cs:168-179 | a rotation, kept or undone, leaves the cells equal to the kind's cells turned as many quarter turns as the new rotation index says |
| Engine.LineClearLoops | Assets/Scripts/Board.cs:354-377 | emptying the row and then copying each row from the row above, up to the top bound, gives `LineCleared` |
| Engine.Board.constructor | Assets/Scripts/Board.cs:37-57 | every template is initialized from the catalog (cells and kicks by its kind) while its tile, kind and bonus fields stay as given, the score is 0, and the first piece is spawned on the empty grid |
| Engine.Board.IsValidPosition | Assets/Scripts/Board.cs:282-302 | true exactly when every cell of the piece, moved to the position, is inside the bounds and holds no tile |
| Engine.Board.IsLineFull | Assets/Scripts/Board.cs:338-352 | true exactly when every in-bounds column of the row holds a tile |
| Engine.Board.ReachesTop | Assets/Scripts/Board.cs:170-180 | true exactly when some cell of the piece has y >= yMax-1 |
| Engine.Board.Set | Assets/Scripts/Board.cs:264-271 | the new grid is the old one with the piece's tile written to each of its absolute cells |
| Engine.Board.Clear | Assets/Scripts/Board.cs:273-280 | the new grid is the old one with each of the piece's absolute cells emptied |
| Engine.Board.LineClear | Assets/Scripts/Board.cs:354-377 | the new grid is `LineCleared` of the old one |
| Engine.Board.ShiftRowsDown | Assets/Scripts/Board.cs:364-376 | from the row up to the top bound, each in-bounds cell takes the old content of the cell above it |
| Engine.Board.ClearLines | Assets/Scripts/Board.cs:304-336 | the grid becomes `ClearFrom`, so no in-bounds row is full; the rows cleared equal the full rows; the score rises by 10/30/50/80 for 1/2/3/4 rows, 0 for more, and not at all for none |
| Engine.Board.ClearFullRows | Assets/Scripts/Board.cs:306-322 | the scan's loop leaves exactly the grid and the cleared count of `ClearFrom` from the bottom row |
| Engine.Board.UpdateScore | Assets/Scripts/Board.cs:249-262 | the score rises by the points and nothing else changes |
| Engine.Board.GameOver | Assets/Scripts/Board.cs:202-216 | the flag is set, the grid is empty and the piece is disabled |
| Engine.Board.ClearRandomLine | Assets/Scripts/Board.cs:136-140 | the drawn row is cleared with the shifting `LineClear` |
| Engine.Board.ClearRandomColumn | Assets/Scripts/Board.cs:142-152 | the grid becomes `ColumnCleared` for the drawn column |
| Engine.Board.ExplodeAround | Assets/Scripts/Board.cs:154-164 | the grid becomes `Exploded` around the position |
| Engine.Board.StartSlowMotion | Assets/Scripts/Board.cs:195-200 | slow motion is on and ends at now plus the duration |
| Engine.Board.ActivateBonus | Assets/Scripts/Board.cs:104-134 | the grid gets the bonus effect, the score rises by twice the bonus points, and only SlowMotion touches the slow-motion fields |
| Engine.Board.DrawData | Assets/Scripts/Board.cs:79-88 | a fresh initialized copy of the template; under the 0.15 chance it gets the bonus tile and the drawn effect |
| Engine.Board.SpawnPiece | Assets/Scripts/Board.cs:77-102 | the piece is initialized at the spawn origin from the drawn template; if it fits it is written to the grid and nothing else changes, otherwise the game is over with an empty grid; never both |
| Engine.Board.PlaceAtSpawn | Assets/Scripts/Board.cs:92-99 | the piece is written at the spawn origin if it fits there, with nothing else changed; otherwise the game is over, the grid empty and the piece disabled |
| Engine.Board.SpawnedIsValid | Assets/Scripts/Board.cs:90-99 | a spawned piece lies inside the bounds, so the board invariant holds after a spawn |
| Engine.Board.LockInPlace | Assets/Scripts/Board.cs:166-188 | the new board state is `Settle` of the old one; the piece is disabled exactly when the lock ended the game |
| Engine.Board.Lock | Assets/Scripts/Board.cs:166-193 | after `Settle`, a new piece is spawned only when the game is not over; a top-out leaves the piece as it was, only disabled |
| Engine.Board.Update | Assets/Scripts/Board.cs:59-75 | slow motion ends once now is past its end time and nothing else changes, the piece's cells included, so the board invariant still holds; the R key restarts the game: empty grid, score 0, flags off, and the piece drawn by the roll spawned on the empty grid |
| Engine.Board.LockedScore | Assets/Scripts/Board.cs:166-193 | a lock never lowers the score, whether it tops out, clears rows or fires a bonus |
| Engine.Board.RestartGame | Assets/Scripts/Board.cs:218-247 | score 0, game-over and slow-motion off, empty grid, piece re-enabled, then a spawn, which always fits on the empty grid |
| Engine.Piece.constructor | Assets/Scripts/Piece.cs:11-13 | the piece carries its configured step, move and lock delays, has no data or cells yet, and is enabled |
| Engine.Piece.Initialize | Assets/Scripts/Piece.cs:26-49 | rotation index 0, the given position, lock time 0, fresh step and move times; the piece's own cell array holds a copy of the data's cells |
| Engine.Piece.Move | Assets/Scripts/Piece.cs:150-166 | succeeds exactly when the piece fits at position + translation; on success the position moves and the move and lock timers restart, otherwise nothing changes |
| Engine.Piece.ApplyRotationMatrix | Assets/Scripts/Piece.cs:181-208 | each cell of the piece's own array is replaced by its image under the matrix |
| Engine.Piece.TestWallKicks | Assets/Scripts/Piece.cs:210-224 | the piece moves by the first kick of its row that fits, in table order, or stays put when none fits |
| Engine.Piece.Rotate | Assets/Scripts/Piece.cs:168-179 | on success the index and cells are turned and the position moved by the first fitting kick; otherwise index, cells, position and timers are all as before; this is `Turned` on the piece's pose |
| Engine.Piece.Lock | Assets/Scripts/Piece.cs:145-148 | the board performs its lock on this piece and the score does not fall; when the game was already over or the piece tops out, its data, cells, position, rotation and timers are as before (`RestsAs` its old view and pose) |
| Engine.Piece.DropDown | Assets/Scripts/Piece.cs:134-138 | the loop moves the piece down exactly `DropDistance` rows |
| Engine.Piece.DropAndScore | Assets/Scripts/Piece.cs:132-139 | the piece moves down exactly `DropDistance` rows (`DropMove`: the move and lock timers restart if it moved) and the score rises by twice that; nothing else changes |
| Engine.Piece.LockDropped | Assets/Scripts/Piece.cs:140 | the lock of a piece that has just dropped and scored is `DroppedFrom` the state before the drop; on a top-out, or when the game was already over, the piece rests at the landing pose |
| Engine.Piece.HardDrop | Assets/Scripts/Piece.cs:132-143 | the score rises by exactly twice the drop distance, then the piece locks at the lowest position (`DroppedFrom`: `LockedFrom` applied to that score and landing); when that lock ends the game, the piece keeps its data, cells and rotation at the landing position |
| Engine.Piece.Step | Assets/Scripts/Piece.cs:120-129 | the step time is pushed back and a move down is tried; the piece locks when the lock timer reaches the delay, which for a positive delay needs a failed move; without a lock the new pose is `StepMove` of the old one; after a lock that ends the game the piece keeps that `StepMove` pose |
| Engine.Piece.HandleMoveInputs | Assets/Scripts/Piece.cs:100-118 | a soft drop that works pushes the step time back; then left, else right, is tried from where the soft drop left the piece; the new pose is `MoveInputs` of the old one |
| Engine.Piece.RotateKeys | Assets/Scripts/Piece.cs:62-69 | Q turns the piece by -1, otherwise E by +1, otherwise nothing: the new pose is `TurnFor` of the old one |
| Engine.Piece.PressedKeys | Assets/Scripts/Piece.cs:62-74 | at most one rotation, Q before E, giving pose `turned`; then, on Space, the score rises by twice the drop distance of `turned` and the piece locks there (`LockedFrom`), and if that lock ends the game the piece rests at the landing pose (`DropMove` of `turned`); otherwise the board is unchanged and the piece has pose `turned`; with no key pressed nothing changes |
| Engine.Piece.TimedMoves | Assets/Scripts/Piece.cs:76-84 | the move keys when their time has passed (`MoveInputs`), then the step when its time has passed, from the pose the moves left (`StepMove`); the piece locks exactly when that step brings the lock timer to the delay, and when that lock ends the game it keeps the step's pose; nothing changes before both times |
| Engine.Piece.Play | Assets/Scripts/Piece.cs:62-84 | without Space and without a lock, the frame's pose is the turn, then the held-key moves, then the step, each from the pose the previous one left, and the board is unchanged |
| Engine.Piece.Lift | Assets/Scripts/Piece.cs:58-59 | the piece's tiles are erased from the grid and the lock timer advances by dt; nothing else changes and the board invariant holds |
| Engine.Piece.PutBack | Assets/Scripts/Piece.cs:86 | the piece's tile is written to each of its absolute cells, so the grid is not empty, and the board invariant holds |
| Engine.Piece.Update | Assets/Scripts/Piece.cs:51-87 | nothing when the game is over on entry; otherwise the piece is lifted off the grid, the lock timer advances by dt, and the frame ends with the piece's tiles on the grid, so the grid is never empty after it; without Space and without a lock the new pose and grid are the turn, the moves and the step composed, written back |

## Left out

- `UpdateSpeed`: the float speed ramp (`Mathf.Pow`, `Mathf.FloorToInt`) is left out, so `stepDelay` stays at the value `Initialize` gives it.
- `Time.timeScale` and `slowMotionFactor`: only the `isSlowMotion` flag and its end time are kept.
- Timers are reals compared with the clock passed in. Float rounding is not modelled.
- The score display, the game-over panel and the log messages are left out. The score is an unbounded integer, so 32-bit overflow is not modelled.
- `RestartButton.cs` only forwards a button press to `RestartGame` and is not part of this model.
- The shape catalog (`Data.Cells`, `Data.WallKicks`, `Data.RotationMatrix`) is not part of this model. It is a parameter with 4 cells per kind, at least two kick rows, and the quarter-turn matrix.
- `Rotation.RotateCell`: the float arithmetic of `ApplyRotationMatrix` (`CeilToInt`, `RoundToInt`) is computed exactly on doubled integers. This agrees with the float result for the integral matrix assumed here.
- Unity object lifecycle: the piece is never null and never re-created. `enabled` is a boolean field and `SetActive` is not modelled. The piece's `board` field is a parameter of its methods.
- `Engine.Piece.Update`: for a frame in which a hard drop or a step locks, the contract gives only that the frame ends with the piece written to the grid. What the lock does, and the pose the piece keeps when the lock ends the game, is stated by the contracts of `PressedKeys` and `TimedMoves` against the state each starts from.
- `Engine.Board.Lock`: the random draws of one lock and the spawn after it come from one `Rolls` record. A frame in which both a hard drop and a step lock takes two records.
- `Engine.Board.constructor` requires at least one column. With zero columns every row counts as full and the source's `ClearLines` never ends.
- `Engine.Board.constructor` also requires at least one template, since the source's `Random.Range(0, 0)` index into an empty array throws, and every kind's cells to lie inside the bounds at the spawn position. With a spawn position that puts a kind outside the bounds, `SpawnPiece` ends the game whenever that kind is drawn (`Assets/Scripts/Board.cs:92-98`); the model does not cover that configuration.
- The tile count after one `LineClear` (one row's width fewer) is not stated. Termination uses the number of full rows instead (`Grid.FullCountShift`).
