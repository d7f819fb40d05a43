# Tetris board and piece, modelled in Dafny

This project models the core of a small C# Tetris game: the 12 x 20 board of
`Block` cells, the falling 4 x 4 `Piece`, and one frame of `Board.Update`. A
frame does the following, in order:

- advance the two timers;
- empty the board on L;
- move sideways on A/D, throttled by `INPUT_TIME`;
- rotate on the press edge of Q/E;
- nudge the piece back from the side walls;
- apply gravity after `FRAME_TIME` or on S.

Every move is followed by `HandleCollision`. When the moved piece then
overlaps a settled cell or has a cell below the floor, it undoes the move,
or, after a drop, locks the piece into the grid, clears complete rows and
spawns a new piece. Otherwise the move stands.

The project has two layers.

- **Value modules.** `Blocks` (block.dfy), `Grid` (grid.dfy), `Shapes`
  (shapes.dfy) and `Simulation` (simulation.dfy) state the game's semantics
  as functions on sequences and datatypes, with lemmas about them.
- **Class module.** `TetrisGame` (game.dfy) has the classes `Piece` and
  `Board`. They keep the source's arrays and fields. Their methods follow the
  C# loops statement by statement. Each method is proved to leave `Value()`
  equal to the value function applied to the old `Value()`.

Randomness is passed in as parameters: the `colorID` in [0, 6) and the
`pieceID` in [0, 7) that the two `random.Next` calls would return. Keyboard
state is a `Keys` value, and the frame time is a `real`.

The source has three hazards. Each one becomes an exact precondition rather
than being silently assumed away:

- **Rotation out of range.** `RotateCW` writes past the 16-cell array when
  local cell (3, 0) is set, and `RotateCC` does so when column 0 has a cell
  (`CanTurnCW`, `CanTurnCC`). The bar's redirect must not bounce back
  (`CanRotateCW`, `CanRotateCC`). On every well-formed piece these hold
  (`Shapes.RotationsKeepWellFormed`).
- **Scans past the array.** The wall and floor scans run past the array only
  for an empty piece far off the board (`HasCell`). A well-formed piece is
  never empty.
- **Endless row scan.** `ScanForCompleteRows` loops forever when the top row
  is complete. A row pushed down copies the top row and leaves the top row as
  it was, so a complete top row is never cleared. The model calls this case
  unsafe; see `LockSafe` and `UpdateSafe`.

## Model

| member | source | states |
|---|---|---|
| Blocks.Empty | Block.cs:22-28 | `Block.EMPTY` is never occupied |
| Blocks.ConvertFromBoolArray | Block.cs:30-38 | the output has the input's length and every entry is unoccupied in the given color, whatever the flags say |
| Grid.EmptyGrid | Board.cs:273-277 | the grid `ResetBoard` leaves: 240 cells, and every read, on or off the board, is `Block.EMPTY` |
| Grid.GetStateValue | Board.cs:256-263 | a read outside the 12 x 20 board is exactly `Block.EMPTY`; a read inside returns the stored block at y * 12 + x |
| Grid.SetStateValue | Board.cs:264-271 | an in-bounds write changes exactly cell (x, y); an out-of-bounds write changes nothing |
| Grid.CellRoundTrip | Board.cs:256-263 | every array position i is the in-bounds cell (i % 12, i / 12), and reading that cell returns entry i |
| Grid.GetAfterSet | Board.cs:256-271 | reading after a write sees the written block exactly at the written in-bounds cell and the old value everywhere else |
| Grid.ShiftStep | Board.cs:477-483 | one copy of cell (x, u) into (x, u - 1) extends the shifted prefix by exactly one position |
| Grid.ShiftDown | Board.cs:475-485 | after a push-down at row y, rows y .. 18 hold the row above them, and row 19 and the rows below y are unchanged |
| Grid.ShiftDownRows | Board.cs:475-485 | row completeness after a push-down is that of the row above for rows y .. 18, and unchanged otherwise |
| Grid.ShiftDownCompleteRows | Board.cs:475-485 | a push-down at a complete row removes one complete row at or above it, unless the top row, which is duplicated, is complete |
| Grid.ShiftDownBelow | Board.cs:475-485 | a push-down at row y keeps the completeness of every row below y |
| Grid.ScanFrom | Board.cs:459-487 | the scan from row y ends with the top row still incomplete; when no row below y is complete, no row is complete; rows below y and the top row are kept |
| Grid.ScanForCompleteRows | Board.cs:459-487 | given an incomplete top row, the scan ends with no complete row and leaves the top row as it was |
| Grid.ScanFromNoComplete | Board.cs:459-487 | a scan that meets no complete row changes nothing |
| Grid.ScanSingleCompleteRow | Board.cs:459-487 | a single complete row below the top is removed by exactly one push-down at that row |
| Grid.ScanUpTo | Board.cs:461-472 | incomplete rows are passed over without a change |
| Grid.Occupied | Board.cs:459-487 | the count of occupied blocks is at most the number of blocks |
| Grid.OccupiedConcat | Board.cs:459-487 | the block count of a concatenation is the sum of the counts |
| Grid.OccupiedAll | Board.cs:463-472 | all blocks are counted exactly when all are occupied |
| Grid.Row | Board.cs:465-467 | row y holds, in column order, the blocks `GetStateValue(x, y)` returns |
| Grid.RowCompleteCount | Board.cs:463-472 | a row is complete exactly when its block count is WIDTH |
| Grid.SplitAtRow | Board.cs:475-485 | the grid is its rows below y, then row y, then its rows above y |
| Grid.ShiftDownSplit | Board.cs:475-485 | a push-down at y is the grid without row y, with the top row repeated |
| Grid.ShiftDownCount | Board.cs:475-485 | pushing down at a complete row takes WIDTH blocks away and adds the top row's blocks again |
| Grid.ScanShiftStep | Board.cs:475-486 | after a push-down at a complete row y, the scan goes on at y with one complete row fewer, the same top row and the counted blocks fewer |
| Grid.ScanFromCount | Board.cs:459-487 | the scan from row y removes, per complete row at or above y, WIDTH blocks less the top row's |
| Grid.ScanCount | Board.cs:459-487 | the whole scan removes, per complete row, WIDTH blocks less the top row's |
| Grid.ScanSingleCount | Board.cs:459-487 | with one complete row below the top, the scan removes WIDTH blocks and adds the top row's again |
| Shapes.BoardX | Piece.cs:125-128 | local column 2 lies on the piece's x, and local columns 0 .. 3 are exactly the board columns x - 2 .. x + 1 |
| Shapes.BoardY | Piece.cs:129-132 | local row 2 lies on the piece's y, and local rows 0 .. 3 are exactly the board rows y - 2 .. y + 1 |
| Shapes.CellCoords | Piece.cs:153-156 | local cell (x, y), 0 <= x < 4, is flat index 4y + x, and the index gives back x and y |
| Shapes.GetStateValue | Piece.cs:153-156 | for a column 0 .. 3 the result is whether the set cell whose coordinates are (x, y) exists; indices outside the 16 cells are excluded, as the C# array access throws there |
| Shapes.GeneratePieces | Piece.cs:217-230 | there are seven templates of 16 cells each |
| Shapes.TemplateShapes | Piece.cs:217-230 | every template has four cells; the bar's lies along local row 2; every other template lies in the 3 x 3 box around the origin |
| Shapes.TemplateWellFormed | Piece.cs:72-79 | a piece freshly built from a template is well formed |
| Shapes.TurnCW | Piece.cs:248-272 | the clockwise loop writes old cell (x, y) to flat index 4x + 4 - y whenever that index is inside the array, and nothing reaches position 0 |
| Shapes.TurnCC | Piece.cs:282-304 | the counter-clockwise loop writes old cell (x, y), x > 0, to flat index 4(4 - x) + y, and nothing reaches local row 0 |
| Shapes.CWLoopStep | Piece.cs:253-272 | visiting old cell (x, y) sets exactly its clockwise target, which lies in the array whenever the cell is set |
| Shapes.CCLoopStep | Piece.cs:285-304 | the same for the counter-clockwise loop |
| Shapes.CWLoopDone | Piece.cs:253-272 | once all 16 old cells are visited, the new array is `TurnCW` of the old one |
| Shapes.CCLoopDone | Piece.cs:285-304 | once all 16 old cells are visited, the new array is `TurnCC` of the old one |
| Shapes.RotatedCW | Piece.cs:240-273 | the bar with cell 2 set takes the counter-clockwise turn, which may then run without a further redirect; every other state takes the clockwise turn |
| Shapes.RotatedCC | Piece.cs:274-305 | the bar with cell 8 set takes the clockwise turn, which may then run without a further redirect; every other state takes the counter-clockwise turn |
| Shapes.TurnCWOnBox | Piece.cs:253-272 | inside the local box [1, 3] x [1, 3] the clockwise loop is the quarter turn (x, y) -> (4 - y, x) about the origin |
| Shapes.TurnCCOnBox | Piece.cs:285-304 | inside the local box the counter-clockwise loop is the quarter turn (x, y) -> (y, 4 - x) |
| Shapes.TurnCWCells | Piece.cs:248-272 | the clockwise result written out cell by cell |
| Shapes.TurnCCCells | Piece.cs:282-304 | the counter-clockwise result written out cell by cell |
| Shapes.TurnsKeepBox | Piece.cs:240-305 | both turns may run on a box state, keep it inside the box, and keep its number of cells |
| Shapes.TurnsUndo | Piece.cs:240-305 | on box states each turn is undone by the other |
| Shapes.HalfTurn | Piece.cs:240-273 | two clockwise turns are the half turn (x, y) -> (4 - x, 4 - y) on box states |
| Shapes.FourTurnsCW | Piece.cs:240-273 | four clockwise turns give back the original box state |
| Shapes.HalfTurnCC | Piece.cs:274-305 | two counter-clockwise turns are the same half turn (x, y) -> (4 - x, 4 - y) on box states |
| Shapes.FourTurnsCC | Piece.cs:274-305 | four counter-clockwise turns give back the original box state |
| Shapes.BarRotations | Piece.cs:240-282 | the bar only toggles between row 2 and column 2; each redirect goes one call deep and no write leaves the array |
| Shapes.RotationsKeepWellFormed | Piece.cs:240-305 | on a well-formed piece both rotations may run and give a well-formed piece |
| Shapes.RotationsKeepCount | Piece.cs:240-305 | rotating keeps the number of cells, so every piece keeps its template's four cells |
| Shapes.RotationsUndo | Piece.cs:240-305 | on a well-formed piece `RotateCC` undoes `RotateCW` and the reverse |
| Shapes.ScanRow | Piece.cs:143-152 | true exactly when local row `row` has a set cell |
| Shapes.ScanColumn | Piece.cs:133-142 | true exactly when local column `column` has a set cell |
| Shapes.IsOverlapping | Piece.cs:81-93 | true exactly when some set local cell lies on an in-bounds, occupied board cell |
| Shapes.IsCollidingWithFloor | Piece.cs:94-110 | true exactly when some set local cell lies below board row 0 |
| Shapes.CollideWithSides | Piece.cs:165-200 | only x changes, by at most one column: +1 exactly when a set cell hangs over the left edge, -1 exactly when one hangs over the right edge |
| Shapes.PlaceFromCell | Piece.cs:201-216 | the writes from local index k on set each in-bounds board cell under a set local cell to an occupied block of the piece's color, and leave the rest |
| Shapes.SetInPlace | Piece.cs:201-216 | after commit, a board cell under a set local cell is an occupied block of the piece's color; every other cell is unchanged; cells off the board are dropped |
| Simulation.PieceColor | Board.cs:407-424 | the palette has no black entry, so a committed piece is never drawn in the empty color |
| Simulation.CreateRandomPiece | Board.cs:278-284 | a new piece is well formed and spawned at (6, 19) |
| Simulation.CollidesCells | Board.cs:427 | the collision test holds exactly when a set cell of the piece lies below the floor or on an occupied board cell |
| Simulation.RotationCycles | Piece.cs:240-305 | on a well-formed piece four `RotateCW` moves, and four `RotateCC` moves, give back the piece; for the bar two of either suffice |
| Simulation.Moved | Board.cs:120-197 | each input move keeps the piece well formed, its kind and its color; every move but the drop is undone exactly by `Undone` |
| Simulation.Undone | Board.cs:435-446 | the correction keeps the piece well formed and changes only its x or its cells |
| Simulation.SetPiece | Board.cs:453-458 | commit, clear and spawn keep the state valid, change only grid and piece, leave no complete row, and spawn the piece of the given ids |
| Simulation.HandleCollision | Board.cs:425-452 | without a collision nothing changes; other moves than a drop never touch the grid; only grid and piece change |
| Simulation.Act | Board.cs:122-133 | one input keeps the state valid, records its action, and changes nothing but the grid, the piece and the action |
| Simulation.CollisionUndo | Board.cs:425-452 | a sideways move or rotation that collides is undone exactly, leaving the previous piece; one that does not collide stays |
| Simulation.DropLocks | Board.cs:189-198 | a drop that collides locks the piece where it was before the drop, clears complete rows and spawns the template `pieceID` at (6, 19) |
| Simulation.Tick | Board.cs:112-113 | both timers grow by the frame time and nothing else changes |
| Simulation.ResetInput | Board.cs:117-118 | on L every grid cell is `Block.EMPTY`, and nothing else changes |
| Simulation.MoveInput | Board.cs:120-136 | the input timer restarts exactly when it passed `INPUT_TIME`; without that or without A/D the piece and grid stay |
| Simulation.RotateInput | Board.cs:160-184 | rotations never touch the grid or the timers; the Q/E flags follow the keys; without a fresh press nothing else changes |
| Simulation.RotateCCInput | Board.cs:160-171 | the Q half: the flag follows Q, the grid and timers are untouched, and without a fresh press only the flag changes |
| Simulation.RotateCWInput | Board.cs:173-184 | the E half, the same way with E |
| Simulation.HeldKeysDoNotRepeat | Board.cs:160-184 | holding Q or E does not rotate again: a second pass with the same keys changes nothing |
| Simulation.SideClamp | Board.cs:187 | the side nudge keeps the state valid and changes only the piece's x |
| Simulation.Gravity | Board.cs:189-211 | gravity restarts the simulation timer exactly when it fires; otherwise nothing changes |
| Simulation.Update | Board.cs:109-212 | a frame keeps the state valid; the input timer is 0 afterwards exactly when the old value plus the frame time exceeds `INPUT_TIME`, and otherwise holds that sum; the simulation timer likewise for `FRAME_TIME` or a held S; the Q/E flags follow the keys |
| TetrisGame.Piece.constructor | Piece.cs:72-79 | a new piece holds a fresh copy of its template at the given position and color |
| TetrisGame.Piece.CopyData | Piece.cs:231-239 | a fresh array with the first 16 entries of the input |
| TetrisGame.Piece.SetStateValueToTrue | Piece.cs:161-164 | sets exactly local cell (x, y) |
| TetrisGame.Piece.RotateCW | Piece.cs:240-273 | the piece's cells become `RotatedCW` of the old cells in a fresh array; nothing else changes |
| TetrisGame.Piece.RotateCC | Piece.cs:274-305 | the piece's cells become `RotatedCC` of the old cells in a fresh array; nothing else changes |
| TetrisGame.Piece.CollideWithSides | Piece.cs:165-200 | the wall loops with their early exits compute `Shapes.CollideWithSides` |
| TetrisGame.Piece.SetInPlace | Piece.cs:201-216 | the board array afterwards is `Shapes.SetInPlace` of the piece and the old array |
| TetrisGame.Board.constructor | Board.cs:69-98 | a new board has an empty grid, the first piece of the given ids, `Down` as previous action, zero timers and cleared Q/E flags |
| TetrisGame.Board.SetStateValue | Board.cs:264-271 | the array afterwards is `Grid.SetStateValue` of the old one |
| TetrisGame.Board.ResetBoard | Board.cs:273-277 | every cell is `Block.EMPTY` afterwards |
| TetrisGame.Board.CreateRandomPiece | Board.cs:278-284 | a fresh piece equal to `Simulation.CreateRandomPiece` of the ids |
| TetrisGame.Board.RowIsComplete | Board.cs:463-472 | the early-exit column scan returns exactly whether row y is complete |
| TetrisGame.Board.ShiftRowsDown | Board.cs:477-483 | the nested copy loops compute `Grid.ShiftDown` at row y |
| TetrisGame.Board.ScanForCompleteRows | Board.cs:459-487 | the loop, including its `y--` revisit, computes `Grid.ScanForCompleteRows` and terminates |
| TetrisGame.Board.SetPiece | Board.cs:453-458 | the board afterwards is `Simulation.SetPiece` of the old one |
| TetrisGame.Board.HandleCollision | Board.cs:425-452 | the board afterwards is `Simulation.HandleCollision` of the old one |
| TetrisGame.Board.PieceCollides | Board.cs:427 | the test is `Simulation.Collides` of the current state |
| TetrisGame.Board.LockAfterDrop | Board.cs:431-434 | moving up one row and then `SetPiece` |
| TetrisGame.Board.UndoMove | Board.cs:435-446 | the opposite move is `Simulation.Undone`; the piece object is kept |
| TetrisGame.Board.Attempt | Board.cs:122-133 | moving, recording the action and handling the collision is `Simulation.Act` |
| TetrisGame.Board.MovePiece | Board.cs:120-182 | the sideways moves and the two rotations on the objects are `Simulation.Moved`; the piece object is kept |
| TetrisGame.Board.MoveInput | Board.cs:120-136 | the A/D block computes `Simulation.MoveInput` |
| TetrisGame.Board.RotateInput | Board.cs:160-184 | the Q/E block computes `Simulation.RotateInput` |
| TetrisGame.Board.RotateCCInput | Board.cs:160-171 | the Q block computes `Simulation.RotateCCInput` |
| TetrisGame.Board.RotateCWInput | Board.cs:173-184 | the E block computes `Simulation.RotateCWInput` |
| TetrisGame.Board.TickInput | Board.cs:112-118 | the timers and the L key computed as `Simulation.Tick` then `Simulation.ResetInput` |
| TetrisGame.Board.GravityInput | Board.cs:189-211 | the gravity block computes `Simulation.Gravity` |
| TetrisGame.Board.Drop | Board.cs:195-197 | the drop is `Simulation.Act` with `Down` |
| TetrisGame.Board.Update | Board.cs:109-212 | one frame on the objects is `Simulation.Update` on their values |

## Left out

- Rendering is not modelled: `Board.Draw`, the projection, the vertex buffers and the GL program. Window.cs is not part of this model. None of it changes game state.
- `System.Random` is not modelled. Its two outcomes are the `colorID` and `pieceID` parameters.
- OpenTK's `KeyboardDevice` becomes the `Keys` datatype.
- The `Vector3` colors become the `Color` datatype. The palette order is kept, and the zero vector of `Block.EMPTY` is `Black`.
- Timers are exact `real`s. `float` rounding and the `double` to `float` cast of the frame time are not modelled.
- The `Pieces` enum is not shown in the source. Pieces are template indices 0 .. 6, and the bar, whose template lies along row 2, is index 1.
- `Piece.OutsideBoard` has no effect: its result is tested by an empty `if`.
- The unused fields `previousA`, `previousS`, `previousD` and `elapsedTime` are left out, and so is the commented-out code.
- `Piece.GetOldStateValue` is inlined into the rotation loops.
- `Piece.CopyData` is declared as an instance method at Piece.cs:231. It reads no field, so it is modelled as a static method.
- `Piece.IsOverlapping`, `IsCollidingWithFloor`, `ScanRow` and `ScanColumn` are side-effect-free. They are modelled as functions on the piece's value rather than as methods.
- The `Block` constructor is the datatype constructor.
- `Board.Update` is written as a chain of helper methods, one per block of the C# body: `TickInput`, `MoveInput`, `RotateInput` (split into its Q and E halves), `CollideWithSides`, `GravityInput`. Each move goes through `Attempt` or `Drop`. The statements and their order are kept.
- Simulation.Update: requires `UpdateSafe`, that a lock in this frame leaves the top row incomplete. Without it the C# row scan never terminates.
- Simulation.MoveInput and Simulation.RotateInput take no random ids. Only a drop can spawn a piece, and `Simulation.ActIdsUnused` shows the ids do not matter otherwise.
