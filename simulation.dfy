/** The game rules of Board.cs as functions on values: one game state holds
    the settled grid, the falling piece, the last action and the two timers and
    key flags of `Update`. The class `TetrisGame.Board` is proved to compute
    exactly these functions. */
module Simulation {
  import opened Blocks
  import Grid
  import opened Shapes

  const COLOR_COUNT := 6
  /** Seconds between two gravity steps. */
  const FRAME_TIME: real := 0.5
  /** Seconds between two sideways moves while A or D is held. */
  const INPUT_TIME: real := 0.1

  /** The enum `Actions`; `Down` is the default a fresh board starts with. */
  datatype Actions = Down | Left | Right | RotateCW | RotateCC

  /** The six keys `Update` looks at: reset, left, right, the two rotations, drop. */
  datatype Keys = Keys(l: bool, a: bool, d: bool, q: bool, e: bool, s: bool)

  /** Everything `Update` reads or writes. */
  datatype GameVal = GameVal(grid: seq<Block>, piece: PieceVal, prevAction: Actions,
                             simulationTime: real, inputTime: real,
                             previousQ: bool, previousE: bool)

  /** The two outcomes of `random.Next` that `CreateRandomPiece` uses. */
  predicate ValidIds(colorID: int, pieceID: int) {
    0 <= colorID < COLOR_COUNT && 0 <= pieceID < PIECES_COUNT
  }

  /** `PIECE_COLORS`, in the order `GenerateColors` lists them. */
  function PieceColor(colorID: int): (c: Color)
    requires 0 <= colorID < COLOR_COUNT
    ensures c != Black
  {
    [Red, Cyan, Blue, Magenta, Yellow, LawnGreen][colorID]
  }

  /** `Board.CreateRandomPiece`: a copy of template `pieceID` in color
      `colorID`, its origin at the top middle of the board. */
  function CreateRandomPiece(colorID: int, pieceID: int): (p: PieceVal)
    requires ValidIds(colorID, pieceID)
    ensures WellFormed(p)
    ensures p.x == Grid.WIDTH_HALF && p.y == Grid.HEIGHT - 1
  {
    TemplateWellFormed(pieceID, PieceColor(colorID), Grid.WIDTH_HALF, Grid.HEIGHT - 1);
    PieceVal(pieceID, PieceColor(colorID), Template(pieceID), Grid.WIDTH_HALF, Grid.HEIGHT - 1)
  }

  /** The state every operation keeps: a full grid and a well-formed piece. */
  predicate GameOk(g: GameVal) {
    Grid.IsGrid(g.grid) && WellFormed(g.piece)
  }

  /** The test at the head of `HandleCollision`. */
  predicate Collides(g: GameVal)
    requires GameOk(g)
  {
    IsOverlapping(g.piece, g.grid) || IsCollidingWithFloor(g.piece)
  }

  /** A piece collides exactly when one of its set cells lies below the floor
      or on an occupied board cell. */
  lemma CollidesCells(g: GameVal)
    requires GameOk(g)
    ensures Collides(g) <==>
            exists i :: 0 <= i < SIZE * SIZE && g.piece.cells[i] &&
              (BoardY(g.piece, i / SIZE) < 0 ||
               Grid.GetStateValue(g.grid, BoardX(g.piece, i % SIZE), BoardY(g.piece, i / SIZE)).occupied)
  {
  }

  /** Rotating a piece four times the same way gives back its local pattern;
      the bar, which only toggles, comes back after two. */
  lemma RotationCycles(p: PieceVal)
    requires WellFormed(p)
    ensures p.kind != BAR ==>
              Moved(Moved(Moved(Moved(p, RotateCW), RotateCW), RotateCW), RotateCW) == p &&
              Moved(Moved(Moved(Moved(p, RotateCC), RotateCC), RotateCC), RotateCC) == p
    ensures p.kind == BAR ==>
              Moved(Moved(p, RotateCW), RotateCW) == p && Moved(Moved(p, RotateCC), RotateCC) == p
  {
    if p.kind == BAR {
      BarRotations();
    } else {
      FourTurnsCW(p.cells);
      FourTurnsCC(p.cells);
    }
  }

  /** The single move each input applies to the piece before `HandleCollision`. */
  function Moved(p: PieceVal, a: Actions): (r: PieceVal)
    requires WellFormed(p)
    ensures WellFormed(r) && r.kind == p.kind && r.color == p.color
    ensures a != Down ==> Undone(r, a) == p
  {
    RotationsKeepWellFormed(p);
    RotationsUndo(p);
    match a
    case Down => p.(y := p.y - 1)
    case Left => p.(x := p.x - 1)
    case Right => p.(x := p.x + 1)
    case RotateCW => p.(cells := RotatedCW(p.kind, p.cells))
    case RotateCC => p.(cells := RotatedCC(p.kind, p.cells))
  }

  /** A lock at this state terminates: when the piece collides after a drop,
      the grid it is committed to has an incomplete top row, without which
      `ScanForCompleteRows` would loop forever. */
  predicate LockSafe(g: GameVal)
    requires GameOk(g)
  {
    g.prevAction == Down && Collides(g) ==>
      !Grid.RowComplete(SetInPlace(g.piece.(y := g.piece.y + 1), g.grid), Grid.HEIGHT - 1)
  }

  /** `Board.SetPiece`: commit the piece, clear complete rows, spawn a new piece. */
  function SetPiece(g: GameVal, colorID: int, pieceID: int): (r: GameVal)
    requires GameOk(g) && ValidIds(colorID, pieceID)
    requires !Grid.RowComplete(SetInPlace(g.piece, g.grid), Grid.HEIGHT - 1)
    ensures GameOk(r) && r == g.(grid := r.grid, piece := r.piece)
    ensures forall y :: 0 <= y < Grid.HEIGHT ==> !Grid.RowComplete(r.grid, y)
    ensures r.piece == CreateRandomPiece(colorID, pieceID)
  {
    g.(grid := Grid.ScanForCompleteRows(SetInPlace(g.piece, g.grid)),
       piece := CreateRandomPiece(colorID, pieceID))
  }

  /** The correction `HandleCollision` applies for an action other than `Down`:
      the opposite move. */
  function Undone(p: PieceVal, a: Actions): (r: PieceVal)
    requires WellFormed(p) && a != Down
    ensures WellFormed(r) && r == p.(x := r.x, cells := r.cells)
  {
    RotationsKeepWellFormed(p);
    match a
    case Left => p.(x := p.x + 1)
    case Right => p.(x := p.x - 1)
    case RotateCW => p.(cells := RotatedCC(p.kind, p.cells))
    case RotateCC => p.(cells := RotatedCW(p.kind, p.cells))
  }

  /** `Board.HandleCollision`: on overlap or floor contact, undo the last
      action; a drop is undone by moving back up and locking the piece. */
  function HandleCollision(g: GameVal, colorID: int, pieceID: int): (r: GameVal)
    requires GameOk(g) && ValidIds(colorID, pieceID) && LockSafe(g)
    ensures GameOk(r)
    ensures r == g.(grid := r.grid, piece := r.piece)
    ensures !Collides(g) ==> r == g
    ensures g.prevAction != Down ==> r.grid == g.grid
  {
    if !Collides(g) then g
    else if g.prevAction == Down then
      SetPiece(g.(piece := g.piece.(y := g.piece.y + 1)), colorID, pieceID)
    else
      g.(piece := Undone(g.piece, g.prevAction))
  }

  /** The two collision branches of `HandleCollision`. */
  lemma CollisionCases(g: GameVal, colorID: int, pieceID: int)
    requires GameOk(g) && ValidIds(colorID, pieceID) && LockSafe(g) && Collides(g)
    ensures g.prevAction == Down ==>
              !Grid.RowComplete(SetInPlace(g.piece.(y := g.piece.y + 1), g.grid), Grid.HEIGHT - 1) &&
              HandleCollision(g, colorID, pieceID) == SetPiece(g.(piece := g.piece.(y := g.piece.y + 1)), colorID, pieceID)
    ensures g.prevAction != Down ==> HandleCollision(g, colorID, pieceID) == g.(piece := Undone(g.piece, g.prevAction))
  {
  }

  /** The random outcomes only matter when a drop locks the piece. */
  lemma ActIdsUnused(g: GameVal, a: Actions, colorID: int, pieceID: int)
    requires GameOk(g) && ValidIds(colorID, pieceID) && a != Down
    ensures Act(g, a, colorID, pieceID) == Act(g, a, 0, 0)
  {
  }

  /** A drop from this state is safe to handle (see `LockSafe`). */
  predicate DropSafe(g: GameVal)
    requires GameOk(g)
  {
    LockSafe(g.(piece := Moved(g.piece, Down), prevAction := Down))
  }

  /** Whether a drop is safe does not depend on the timers. */
  lemma DropSafeAnyTime(g: GameVal, t: real)
    requires GameOk(g)
    ensures DropSafe(g.(simulationTime := t)) == DropSafe(g)
  {
  }

  /** One input as `Update` performs it: move, record the action, handle a collision. */
  function Act(g: GameVal, a: Actions, colorID: int, pieceID: int): (r: GameVal)
    requires GameOk(g) && ValidIds(colorID, pieceID) && (a == Down ==> DropSafe(g))
    ensures GameOk(r) && r.prevAction == a
    ensures r == g.(grid := r.grid, piece := r.piece, prevAction := a)
  {
    HandleCollision(g.(piece := Moved(g.piece, a), prevAction := a), colorID, pieceID)
  }

  /** A sideways move or a rotation that collides is undone exactly: the piece
      is the one before the move and the grid is untouched; one that does not
      collide stays. */
  lemma CollisionUndo(g: GameVal, a: Actions, colorID: int, pieceID: int)
    requires GameOk(g) && ValidIds(colorID, pieceID) && a != Down
    ensures Collides(g.(piece := Moved(g.piece, a), prevAction := a)) ==>
              Act(g, a, colorID, pieceID) == g.(prevAction := a)
    ensures !Collides(g.(piece := Moved(g.piece, a), prevAction := a)) ==>
              Act(g, a, colorID, pieceID) == g.(piece := Moved(g.piece, a), prevAction := a)
  {
    RotationsUndo(g.piece);
  }

  /** A drop that collides locks the piece where it was before the drop,
      clears the complete rows and spawns the new piece at (6, 19). */
  lemma DropLocks(g: GameVal, colorID: int, pieceID: int)
    requires GameOk(g) && ValidIds(colorID, pieceID) && DropSafe(g)
    requires Collides(g.(piece := Moved(g.piece, Down), prevAction := Down))
    ensures !Grid.RowComplete(SetInPlace(g.piece, g.grid), Grid.HEIGHT - 1)
    ensures Act(g, Down, colorID, pieceID) ==
            g.(grid := Grid.ScanForCompleteRows(SetInPlace(g.piece, g.grid)),
               piece := CreateRandomPiece(colorID, pieceID), prevAction := Down)
    ensures Act(g, Down, colorID, pieceID).piece.x == Grid.WIDTH_HALF
    ensures Act(g, Down, colorID, pieceID).piece.y == Grid.HEIGHT - 1
    ensures Act(g, Down, colorID, pieceID).piece.cells == Template(pieceID)
  {
    assert g.piece.(y := g.piece.y - 1).(y := g.piece.y - 1 + 1) == g.piece;
  }

  // ---------------------------------------------------------------------
  // The stages of Board.Update
  // ---------------------------------------------------------------------

  /** Both timers advance by the frame's elapsed time. */
  function Tick(g: GameVal, dt: real): (r: GameVal)
    ensures r == g.(simulationTime := r.simulationTime, inputTime := r.inputTime)
    ensures r.simulationTime == g.simulationTime + dt && r.inputTime == g.inputTime + dt
  {
    g.(simulationTime := g.simulationTime + dt, inputTime := g.inputTime + dt)
  }

  /** Key L empties the grid (`ResetBoard`) and touches nothing else, the
      falling piece included. */
  function ResetInput(g: GameVal, keys: Keys): (r: GameVal)
    ensures r == g.(grid := r.grid)
    ensures keys.l ==> Grid.IsGrid(r.grid) && forall i :: 0 <= i < |r.grid| ==> r.grid[i] == Empty()
    ensures !keys.l ==> r == g
  {
    if keys.l then g.(grid := Grid.EmptyGrid()) else g
  }

  /** The throttled sideways moves: once more than INPUT_TIME has gathered,
      A moves left and D moves right (both when both are held), and the input
      timer restarts whether or not a key was held. */
  function MoveInput(g: GameVal, keys: Keys): (r: GameVal)
    requires GameOk(g)
    ensures GameOk(r)
    ensures r.simulationTime == g.simulationTime
    ensures r.inputTime == if g.inputTime > INPUT_TIME then 0.0 else g.inputTime
    ensures r.previousQ == g.previousQ && r.previousE == g.previousE
    ensures !(g.inputTime > INPUT_TIME && (keys.a || keys.d)) ==> r == g.(inputTime := r.inputTime)
  {
    if g.inputTime > INPUT_TIME then
      var g1 := if keys.a then Act(g, Left, 0, 0) else g;
      var g2 := if keys.d then Act(g1, Right, 0, 0) else g1;
      g2.(inputTime := 0.0)
    else g
  }

  /** The press-edge rotations: Q turns counter-clockwise and E clockwise only
      when the key is down now and was up on the previous update; afterwards
      each flag holds the key's current state. */
  function RotateInput(g: GameVal, keys: Keys): (r: GameVal)
    requires GameOk(g)
    ensures GameOk(r)
    ensures r.previousQ == keys.q && r.previousE == keys.e
    ensures r.simulationTime == g.simulationTime && r.inputTime == g.inputTime
    ensures r.grid == g.grid
    ensures !(keys.q && !g.previousQ) && !(keys.e && !g.previousE) ==>
              r == g.(previousQ := keys.q, previousE := keys.e)
  {
    RotateCWInput(RotateCCInput(g, keys), keys)
  }

  /** The Q half: a fresh press turns the piece counter-clockwise. */
  function RotateCCInput(g: GameVal, keys: Keys): (r: GameVal)
    requires GameOk(g)
    ensures GameOk(r) && r.previousQ == keys.q && r.previousE == g.previousE
    ensures r.grid == g.grid && r.simulationTime == g.simulationTime && r.inputTime == g.inputTime
    ensures !(keys.q && !g.previousQ) ==> r == g.(previousQ := keys.q)
  {
    (if keys.q && !g.previousQ then Act(g, RotateCC, 0, 0) else g).(previousQ := keys.q)
  }

  /** The E half: a fresh press turns the piece clockwise. */
  function RotateCWInput(g: GameVal, keys: Keys): (r: GameVal)
    requires GameOk(g)
    ensures GameOk(r) && r.previousE == keys.e && r.previousQ == g.previousQ
    ensures r.grid == g.grid && r.simulationTime == g.simulationTime && r.inputTime == g.inputTime
    ensures !(keys.e && !g.previousE) ==> r == g.(previousE := keys.e)
  {
    (if keys.e && !g.previousE then Act(g, RotateCW, 0, 0) else g).(previousE := keys.e)
  }

  /** Holding Q or E does not repeat a rotation: a second pass with the same
      keys changes nothing. */
  lemma HeldKeysDoNotRepeat(g: GameVal, keys: Keys)
    requires GameOk(g)
    ensures RotateInput(RotateInput(g, keys), keys) == RotateInput(g, keys)
  {
    var r := RotateInput(g, keys);
    assert r.(previousQ := keys.q, previousE := keys.e) == r;
  }

  /** `Piece.CollideWithSides` on the falling piece. */
  function SideClamp(g: GameVal): (r: GameVal)
    requires GameOk(g)
    ensures GameOk(r) && r == g.(piece := r.piece)
    ensures r.piece == g.piece.(x := r.piece.x)
  {
    g.(piece := CollideWithSides(g.piece))
  }

  /** Gravity applies when more than FRAME_TIME has gathered or S is held. */
  predicate GravityFires(g: GameVal, keys: Keys) {
    g.simulationTime > FRAME_TIME || keys.s
  }

  /** The gravity step: restart the simulation timer and drop the piece by one row. */
  function Gravity(g: GameVal, keys: Keys, colorID: int, pieceID: int): (r: GameVal)
    requires GameOk(g) && ValidIds(colorID, pieceID)
    requires GravityFires(g, keys) ==> DropSafe(g)
    ensures GameOk(r)
    ensures r.simulationTime == if GravityFires(g, keys) then 0.0 else g.simulationTime
    ensures r.inputTime == g.inputTime && r.previousQ == g.previousQ && r.previousE == g.previousE
    ensures !GravityFires(g, keys) ==> r == g
  {
    if GravityFires(g, keys) then Act(g.(simulationTime := 0.0), Down, colorID, pieceID) else g
  }

  /** Everything `Update` does before gravity. */
  function BeforeGravity(g: GameVal, keys: Keys, dt: real): (r: GameVal)
    requires GameOk(g)
    ensures GameOk(r)
  {
    SideClamp(RotateInput(MoveInput(ResetInput(Tick(g, dt), keys), keys), keys))
  }

  /** The update terminates: if gravity locks the piece, the top row stays incomplete. */
  predicate UpdateSafe(g: GameVal, keys: Keys, dt: real)
    requires GameOk(g)
  {
    var b := BeforeGravity(g, keys, dt);
    GravityFires(b, keys) ==> DropSafe(b)
  }

  /** `Board.Update` for one frame of `dt` seconds. The input timer restarts
      exactly when it passed INPUT_TIME, the simulation timer exactly when
      gravity applies, and the key flags follow the keys. */
  function Update(g: GameVal, keys: Keys, dt: real, colorID: int, pieceID: int): (r: GameVal)
    requires GameOk(g) && ValidIds(colorID, pieceID) && UpdateSafe(g, keys, dt)
    ensures GameOk(r)
    ensures r.inputTime == if g.inputTime + dt > INPUT_TIME then 0.0 else g.inputTime + dt
    ensures r.simulationTime ==
            if g.simulationTime + dt > FRAME_TIME || keys.s then 0.0 else g.simulationTime + dt
    ensures r.previousQ == keys.q && r.previousE == keys.e
  {
    Gravity(BeforeGravity(g, keys, dt), keys, colorID, pieceID)
  }
}
