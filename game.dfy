/** The two objects of the game, `Piece` and `Board`, as classes over arrays.
    Their methods follow the C# loops step by step and are proved to compute
    the value functions of `Shapes` and `Simulation`. */
module TetrisGame {
  import opened Blocks
  import Grid
  import Shapes
  import Simulation

  class Piece {
    var color: Color
    var state: array<bool>
    var x: int
    var y: int
    /** The template index, the C# field `type`. */
    var kind: int

    /** The piece as a value. */
    function Value(): Shapes.PieceVal
      reads this, state
    {
      Shapes.PieceVal(kind, color, state[..], x, y)
    }

    /** `new Piece(type, x, y, color)`: a fresh copy of the template. */
    constructor (kind: int, x: int, y: int, color: Color)
      requires 0 <= kind < Shapes.PIECES_COUNT
      ensures Value() == Shapes.PieceVal(kind, color, Shapes.Template(kind), x, y)
      ensures fresh(state)
    {
      this.x := x;
      this.y := y;
      this.kind := kind;
      this.color := color;
      var copy := CopyData(Shapes.Template(kind));
      state := copy;
    }

    /** `Piece.CopyData`: a fresh array with the first 16 entries of `input`. */
    static method CopyData(input: seq<bool>) returns (copy: array<bool>)
      requires |input| >= Shapes.SIZE * Shapes.SIZE
      ensures fresh(copy)
      ensures copy[..] == input[..Shapes.SIZE * Shapes.SIZE]
    {
      copy := new bool[Shapes.SIZE * Shapes.SIZE];
      var i := 0;
      while i < Shapes.SIZE * Shapes.SIZE
        invariant 0 <= i <= Shapes.SIZE * Shapes.SIZE
        invariant copy[..i] == input[..i]
      {
        copy[i] := input[i];
        i := i + 1;
      }
    }

    /** `Piece.SetStateValueToTrue`; the C# array access throws outside the 16 cells. */
    method SetStateValueToTrue(x: int, y: int)
      requires state.Length == Shapes.SIZE * Shapes.SIZE
      requires 0 <= Shapes.Cell(x, y) < Shapes.SIZE * Shapes.SIZE
      modifies state
      ensures state[..] == old(state[..])[Shapes.Cell(x, y) := true]
    {
      state[Shapes.Cell(x, y)] := true;
    }

    /** `Piece.RotateCW`: a bar with cell 2 set turns counter-clockwise instead;
        otherwise every set old cell (x, y), column by column, sets
        (4 - y, x) in a fresh array. */
    method RotateCW()
      requires state.Length == Shapes.SIZE * Shapes.SIZE && Shapes.CanRotateCW(kind, state[..])
      modifies this
      ensures fresh(state)
      ensures Value() == old(Value()).(cells := Shapes.RotatedCW(old(kind), old(state[..])))
      decreases if kind == Shapes.BAR && state[2] then 1 else 0
    {
      if kind == Shapes.BAR && state[2] {
        RotateCC();
        return;
      }
      var oldState := state;
      ghost var s := oldState[..];
      state := new bool[Shapes.SIZE * Shapes.SIZE](_ => false);
      var lx := 0;
      while lx < Shapes.SIZE
        invariant 0 <= lx <= Shapes.SIZE
        invariant fresh(state) && state.Length == Shapes.SIZE * Shapes.SIZE
        invariant x == old(x) && y == old(y) && kind == old(kind) && color == old(color)
        invariant oldState[..] == s
        invariant forall j :: 0 <= j < Shapes.SIZE * Shapes.SIZE ==> state[j] == Shapes.CWWritten(s, lx, 0, j)
      {
        var ly := 0;
        while ly < Shapes.SIZE
          invariant 0 <= ly <= Shapes.SIZE
          invariant fresh(state) && state.Length == Shapes.SIZE * Shapes.SIZE
          invariant x == old(x) && y == old(y) && kind == old(kind) && color == old(color)
          invariant oldState[..] == s
          invariant forall j :: 0 <= j < Shapes.SIZE * Shapes.SIZE ==> state[j] == Shapes.CWWritten(s, lx, ly, j)
        {
          var setX, setY := lx - Shapes.ORIGIN_OFFSET, ly - Shapes.ORIGIN_OFFSET;
          var prev := setY;
          setY := setX;
          setX := -prev;
          setX := setX + Shapes.ORIGIN_OFFSET;
          setY := setY + Shapes.ORIGIN_OFFSET;
          Shapes.CWLoopStep(s, lx, ly);
          if oldState[Shapes.Cell(lx, ly)] {
            SetStateValueToTrue(setX, setY);
          }
          ly := ly + 1;
        }
        Shapes.CWLoopColumn(s, lx);
        lx := lx + 1;
      }
      Shapes.CWLoopDone(s);
      assert state[..] == Shapes.TurnCW(s);
    }

    /** `Piece.RotateCC`: a bar with cell 8 set turns clockwise instead;
        otherwise every set old cell (x, y) sets (y, 4 - x) in a fresh array. */
    method RotateCC()
      requires state.Length == Shapes.SIZE * Shapes.SIZE && Shapes.CanRotateCC(kind, state[..])
      modifies this
      ensures fresh(state)
      ensures Value() == old(Value()).(cells := Shapes.RotatedCC(old(kind), old(state[..])))
      decreases if kind == Shapes.BAR && state[8] then 1 else 0
    {
      if kind == Shapes.BAR && state[8] {
        RotateCW();
        return;
      }
      var oldState := state;
      ghost var s := oldState[..];
      state := new bool[Shapes.SIZE * Shapes.SIZE](_ => false);
      var lx := 0;
      while lx < Shapes.SIZE
        invariant 0 <= lx <= Shapes.SIZE
        invariant fresh(state) && state.Length == Shapes.SIZE * Shapes.SIZE
        invariant x == old(x) && y == old(y) && kind == old(kind) && color == old(color)
        invariant oldState[..] == s
        invariant forall j :: 0 <= j < Shapes.SIZE * Shapes.SIZE ==> state[j] == Shapes.CCWritten(s, lx, 0, j)
      {
        var ly := 0;
        while ly < Shapes.SIZE
          invariant 0 <= ly <= Shapes.SIZE
          invariant fresh(state) && state.Length == Shapes.SIZE * Shapes.SIZE
          invariant x == old(x) && y == old(y) && kind == old(kind) && color == old(color)
          invariant oldState[..] == s
          invariant forall j :: 0 <= j < Shapes.SIZE * Shapes.SIZE ==> state[j] == Shapes.CCWritten(s, lx, ly, j)
        {
          var setX, setY := lx - Shapes.ORIGIN_OFFSET, ly - Shapes.ORIGIN_OFFSET;
          var prev := setX;
          setX := setY;
          setY := -prev;
          setX := setX + Shapes.ORIGIN_OFFSET;
          setY := setY + Shapes.ORIGIN_OFFSET;
          Shapes.CCLoopStep(s, lx, ly);
          if oldState[Shapes.Cell(lx, ly)] {
            SetStateValueToTrue(setX, setY);
          }
          ly := ly + 1;
        }
        Shapes.CCLoopColumn(s, lx);
        lx := lx + 1;
      }
      Shapes.CCLoopDone(s);
      assert state[..] == Shapes.TurnCC(s);
    }

    /** `Piece.CollideWithSides`: the left-wall scan over columns 0 .. offset - 1
        or the right-wall scan over columns 3 down to offset, stopping at the
        first non-empty column. */
    method CollideWithSides()
      requires state.Length == Shapes.SIZE * Shapes.SIZE
      requires x < -2 || x > 14 ==> Shapes.HasCell(state[..])
      modifies this`x
      ensures Value() == Shapes.CollideWithSides(old(Value()))
    {
      ghost var s := state[..];
      if x < Shapes.ORIGIN_OFFSET {
        var offset := -(x - Shapes.ORIGIN_OFFSET);
        var c := 0;
        while c < offset
          invariant 0 <= c <= Shapes.SIZE && x == old(x)
          invariant offset > Shapes.SIZE ==>
                      exists i :: 0 <= i < Shapes.SIZE * Shapes.SIZE && s[i] && c <= i % Shapes.SIZE
          invariant Shapes.LeftWallFrom(s, 0, offset) == Shapes.LeftWallFrom(s, c, offset)
        {
          if Shapes.ScanColumn(state[..], c) {
            x := x + 1;
            break;
          }
          c := c + 1;
        }
      } else if x > Grid.WIDTH - 2 {
        var offset := Grid.WIDTH - (x - Shapes.ORIGIN_OFFSET);
        var c := Shapes.SIZE - 1;
        while c >= offset
          invariant -1 <= c < Shapes.SIZE && x == old(x)
          invariant offset < 0 ==>
                      exists i :: 0 <= i < Shapes.SIZE * Shapes.SIZE && s[i] && i % Shapes.SIZE <= c
          invariant Shapes.RightWallFrom(s, Shapes.SIZE - 1, offset) == Shapes.RightWallFrom(s, c, offset)
        {
          if Shapes.ScanColumn(state[..], c) {
            x := x - 1;
            break;
          }
          c := c - 1;
        }
      }
    }

    /** `Piece.SetInPlace`: row by row, every set local cell is written to the
        board as an occupied block of the piece's color. */
    method SetInPlace(board: Board)
      requires state.Length == Shapes.SIZE * Shapes.SIZE
      requires board.state.Length == Grid.WIDTH * Grid.HEIGHT
      modifies board.state
      ensures board.state[..] == Shapes.SetInPlace(Value(), old(board.state[..]))
    {
      ghost var p := Value();
      ghost var target := Shapes.SetInPlace(p, board.state[..]);
      var ly := 0;
      while ly < Shapes.SIZE
        invariant 0 <= ly <= Shapes.SIZE
        invariant Shapes.PlaceFrom(p, board.state[..], Shapes.Cell(0, ly)) == target
      {
        var lx := 0;
        while lx < Shapes.SIZE
          invariant 0 <= lx <= Shapes.SIZE
          invariant Shapes.PlaceFrom(p, board.state[..], Shapes.Cell(lx, ly)) == target
        {
          Shapes.PlaceStep(p, board.state[..], lx, ly);
          if state[Shapes.Cell(lx, ly)] {
            var tempX, tempY := Shapes.BoardX(Value(), lx), Shapes.BoardY(Value(), ly);
            board.SetStateValue(tempX, tempY, Block(color, true));
          }
          lx := lx + 1;
        }
        ly := ly + 1;
      }
    }
  }

  class Board {
    var prevAction: Simulation.Actions
    var state: array<Block>
    var piece: Piece
    var previousQ: bool
    var previousE: bool
    var simulationElapsedTime: real
    var inputElapsedTime: real

    /** A full grid and a well-formed falling piece. */
    predicate Valid()
      reads this, state, piece, piece.state
    {
      Simulation.GameOk(Value())
    }

    /** The board as a value. */
    function Value(): Simulation.GameVal
      reads this, state, piece, piece.state
    {
      Simulation.GameVal(state[..], piece.Value(), prevAction, simulationElapsedTime,
                         inputElapsedTime, previousQ, previousE)
    }

    /** `new Board()` with the two random outcomes of the first piece given. */
    constructor (colorID: int, pieceID: int)
      requires Simulation.ValidIds(colorID, pieceID)
      ensures Valid() && fresh(state) && fresh(piece) && fresh(piece.state)
      ensures Value() == Simulation.GameVal(Grid.EmptyGrid(), Simulation.CreateRandomPiece(colorID, pieceID),
                                            Simulation.Down, 0.0, 0.0, false, false)
    {
      prevAction := Simulation.Down;
      previousQ, previousE := false, false;
      simulationElapsedTime, inputElapsedTime := 0.0, 0.0;
      state := new Block[Grid.WIDTH * Grid.HEIGHT];
      var first := CreateRandomPiece(colorID, pieceID);
      piece := first;
      new;
      ResetBoard();
    }

    /** `Board.SetStateValue`: a write outside the grid is ignored. */
    method SetStateValue(x: int, y: int, data: Block)
      requires state.Length == Grid.WIDTH * Grid.HEIGHT
      modifies state
      ensures state[..] == Grid.SetStateValue(old(state[..]), x, y, data)
    {
      if y < 0 || y >= Grid.HEIGHT {
        return;
      }
      if x < 0 || x >= Grid.WIDTH {
        return;
      }
      state[y * Grid.WIDTH + x] := data;
    }

    /** `Board.ResetBoard`: every cell becomes `Block.EMPTY`; the piece is untouched. */
    method ResetBoard()
      requires state.Length == Grid.WIDTH * Grid.HEIGHT
      modifies state
      ensures state[..] == Grid.EmptyGrid()
    {
      var i := 0;
      while i < state.Length
        invariant 0 <= i <= state.Length
        invariant forall j :: 0 <= j < i ==> state[j] == Empty()
      {
        state[i] := Empty();
        i := i + 1;
      }
    }

    /** `Board.CreateRandomPiece` with the two random outcomes given. */
    static method CreateRandomPiece(colorID: int, pieceID: int) returns (p: Piece)
      requires Simulation.ValidIds(colorID, pieceID)
      ensures fresh(p) && fresh(p.state)
      ensures p.Value() == Simulation.CreateRandomPiece(colorID, pieceID)
    {
      p := new Piece(pieceID, Grid.WIDTH_HALF, Grid.HEIGHT - 1, Simulation.PieceColor(colorID));
    }

    /** `Board.ScanForCompleteRows`: for each row from the bottom, while the row
        is complete push every row above it down by one and look at the same
        row again. */
    method ScanForCompleteRows()
      requires state.Length == Grid.WIDTH * Grid.HEIGHT
      requires !Grid.RowComplete(state[..], Grid.HEIGHT - 1)
      modifies state
      ensures state[..] == Grid.ScanForCompleteRows(old(state[..]))
    {
      var y := 0;
      while y < Grid.HEIGHT
        invariant 0 <= y <= Grid.HEIGHT
        invariant !Grid.RowComplete(state[..], Grid.HEIGHT - 1)
        invariant Grid.ScanFrom(state[..], y) == Grid.ScanForCompleteRows(old(state[..]))
        decreases Grid.CompleteRows(state[..], y), Grid.HEIGHT - y
      {
        var complete := RowIsComplete(y);
        if complete {
          ghost var g := state[..];
          Grid.ShiftDownCompleteRows(g, y, y);
          Grid.ShiftDownRows(g, y, Grid.HEIGHT - 1);
          ShiftRowsDown(y);
          y := y - 1;
        }
        y := y + 1;
      }
    }

    /** The completeness test of `ScanForCompleteRows` at row y: scan the
        columns and stop at the first unoccupied cell. */
    method RowIsComplete(y: int) returns (complete: bool)
      requires state.Length == Grid.WIDTH * Grid.HEIGHT && 0 <= y < Grid.HEIGHT
      ensures complete == Grid.RowComplete(state[..], y)
    {
      complete := true;
      var x := 0;
      while x < Grid.WIDTH
        invariant 0 <= x <= Grid.WIDTH && complete
        invariant forall k :: 0 <= k < x ==> Grid.GetStateValue(state[..], k, y).occupied
      {
        if !Grid.GetStateValue(state[..], x, y).occupied {
          complete := false;
          break;
        }
        x := x + 1;
      }
    }

    /** The push-down loops of `ScanForCompleteRows` at row y: row u is copied
        into row u - 1 for u = y + 1 .. HEIGHT - 1, column by column. */
    method ShiftRowsDown(y: int)
      requires state.Length == Grid.WIDTH * Grid.HEIGHT && 0 <= y < Grid.HEIGHT
      modifies state
      ensures state[..] == Grid.ShiftDown(old(state[..]), y)
    {
      ghost var g := state[..];
      var uppery := y + 1;
      while uppery < Grid.HEIGHT
        invariant y + 1 <= uppery <= Grid.HEIGHT
        invariant state[..] == Grid.PartialShift(g, y, (uppery - 1) * Grid.WIDTH)
      {
        var upperx := 0;
        while upperx < Grid.WIDTH
          invariant 0 <= upperx <= Grid.WIDTH
          invariant state[..] == Grid.PartialShift(g, y, Grid.Index(upperx, uppery - 1))
        {
          Grid.ShiftStep(g, y, upperx, uppery);
          var b := Grid.GetStateValue(state[..], upperx, uppery);
          SetStateValue(upperx, uppery - 1, b);
          upperx := upperx + 1;
        }
        uppery := uppery + 1;
      }
    }

    /** `Board.SetPiece`: commit the piece, clear rows, spawn the next piece. */
    method SetPiece(colorID: int, pieceID: int)
      requires Valid() && Simulation.ValidIds(colorID, pieceID)
      requires !Grid.RowComplete(Shapes.SetInPlace(piece.Value(), state[..]), Grid.HEIGHT - 1)
      modifies this, state
      ensures Valid() && state == old(state) && fresh(piece) && fresh(piece.state)
      ensures Value() == Simulation.SetPiece(old(Value()), colorID, pieceID)
    {
      piece.SetInPlace(this);
      ScanForCompleteRows();
      piece := CreateRandomPiece(colorID, pieceID);
    }

    /** `Board.HandleCollision`, with the random outcomes of a possible new piece given. */
    method HandleCollision(colorID: int, pieceID: int)
      requires Valid() && Simulation.ValidIds(colorID, pieceID) && Simulation.LockSafe(Value())
      modifies this, piece, state
      ensures Valid() && state == old(state)
      ensures old(prevAction) != Simulation.Down ==> piece == old(piece)
      ensures Value() == Simulation.HandleCollision(old(Value()), colorID, pieceID)
    {
      ghost var g := Value();
      var collides := PieceCollides();
      if collides {
        Simulation.CollisionCases(g, colorID, pieceID);
        if prevAction == Simulation.Down {
          LockAfterDrop(colorID, pieceID);
        } else {
          UndoMove();
        }
      }
    }

    /** The test `HandleCollision` starts with: `piece.IsOverlapping(this) ||
        piece.IsCollidingWithFloor()`. */
    method PieceCollides() returns (collides: bool)
      requires Valid()
      ensures collides == Simulation.Collides(Value())
    {
      collides := Shapes.IsOverlapping(piece.Value(), state[..]) || Shapes.IsCollidingWithFloor(piece.Value());
    }

    /** The `Down` case of `HandleCollision`: back up one row, then lock. */
    method LockAfterDrop(colorID: int, pieceID: int)
      requires Valid() && Simulation.ValidIds(colorID, pieceID)
      requires !Grid.RowComplete(Shapes.SetInPlace(piece.Value().(y := piece.y + 1), state[..]), Grid.HEIGHT - 1)
      modifies this, piece, state
      ensures Valid() && state == old(state) && fresh(piece) && fresh(piece.state)
      ensures Value() == Simulation.SetPiece(old(Value()).(piece := old(piece.Value()).(y := old(piece.y) + 1)),
                                             colorID, pieceID)
    {
      piece.y := piece.y + 1;
      SetPiece(colorID, pieceID);
    }

    /** The cases of `HandleCollision` other than `Down`: the opposite move. */
    method UndoMove()
      requires Valid() && prevAction != Simulation.Down
      modifies piece
      ensures Valid() && piece == old(piece)
      ensures Value() == old(Value()).(piece := Simulation.Undone(old(piece.Value()), prevAction))
    {
      match prevAction
      case Left =>
        piece.x := piece.x + 1;
      case Right =>
        piece.x := piece.x - 1;
      case RotateCW =>
        Shapes.RotationsKeepWellFormed(piece.Value());
        piece.RotateCC();
      case RotateCC =>
        Shapes.RotationsKeepWellFormed(piece.Value());
        piece.RotateCW();
    }

    /** The statement triple `Update` writes for each key action: move the
        piece, record the action, resolve a collision. */
    method Attempt(a: Simulation.Actions, colorID: int, pieceID: int)
      requires Valid() && Simulation.ValidIds(colorID, pieceID) && a != Simulation.Down
      modifies this, piece, state
      ensures Valid() && state == old(state) && piece == old(piece)
      ensures Value() == Simulation.Act(old(Value()), a, colorID, pieceID)
    {
      ghost var g := Value();
      MovePiece(a);
      prevAction := a;
      ghost var m := Value();
      assert m == g.(piece := Simulation.Moved(g.piece, a), prevAction := a);
      HandleCollision(colorID, pieceID);
    }

    /** The first statement of that triple: the move itself. */
    method MovePiece(a: Simulation.Actions)
      requires Valid() && a != Simulation.Down
      modifies piece
      ensures Valid() && piece == old(piece)
      ensures Value() == old(Value()).(piece := Simulation.Moved(old(piece.Value()), a))
    {
      match a {
        case Left =>
          piece.x := piece.x - 1;
        case Right =>
          piece.x := piece.x + 1;
        case RotateCW =>
          Shapes.RotationsKeepWellFormed(piece.Value());
          piece.RotateCW();
        case RotateCC =>
          Shapes.RotationsKeepWellFormed(piece.Value());
          piece.RotateCC();
      }
    }

    /** The throttled A/D block of `Update`. */
    method MoveInput(keys: Simulation.Keys, colorID: int, pieceID: int)
      requires Valid() && Simulation.ValidIds(colorID, pieceID)
      modifies this, piece, state
      ensures Valid() && state == old(state) && piece == old(piece)
      ensures Value() == Simulation.MoveInput(old(Value()), keys)
    {
      if inputElapsedTime > Simulation.INPUT_TIME {
        if keys.a {
          Simulation.ActIdsUnused(Value(), Simulation.Left, colorID, pieceID);
          Attempt(Simulation.Left, colorID, pieceID);
        }
        if keys.d {
          Simulation.ActIdsUnused(Value(), Simulation.Right, colorID, pieceID);
          Attempt(Simulation.Right, colorID, pieceID);
        }
        inputElapsedTime := 0.0;
      }
    }

    /** The press-edge Q/E block of `Update`. */
    method RotateInput(keys: Simulation.Keys, colorID: int, pieceID: int)
      requires Valid() && Simulation.ValidIds(colorID, pieceID)
      modifies this, piece, state
      ensures Valid() && state == old(state) && piece == old(piece)
      ensures Value() == Simulation.RotateInput(old(Value()), keys)
    {
      RotateCCInput(keys, colorID, pieceID);
      RotateCWInput(keys, colorID, pieceID);
    }

    /** The Q half: turn counter-clockwise on a fresh press, then remember the key. */
    method RotateCCInput(keys: Simulation.Keys, colorID: int, pieceID: int)
      requires Valid() && Simulation.ValidIds(colorID, pieceID)
      modifies this, piece, state
      ensures Valid() && state == old(state) && piece == old(piece)
      ensures Value() == Simulation.RotateCCInput(old(Value()), keys)
    {
      if keys.q {
        if keys.q != previousQ {
          Simulation.ActIdsUnused(Value(), Simulation.RotateCC, colorID, pieceID);
          Attempt(Simulation.RotateCC, colorID, pieceID);
        }
        previousQ := true;
      } else {
        previousQ := false;
      }
    }

    /** The E half: turn clockwise on a fresh press, then remember the key. */
    method RotateCWInput(keys: Simulation.Keys, colorID: int, pieceID: int)
      requires Valid() && Simulation.ValidIds(colorID, pieceID)
      modifies this, piece, state
      ensures Valid() && state == old(state) && piece == old(piece)
      ensures Value() == Simulation.RotateCWInput(old(Value()), keys)
    {
      if keys.e {
        if keys.e != previousE {
          Simulation.ActIdsUnused(Value(), Simulation.RotateCW, colorID, pieceID);
          Attempt(Simulation.RotateCW, colorID, pieceID);
        }
        previousE := true;
      } else {
        previousE := false;
      }
    }

    /** The timer and L-key block at the head of `Update`. */
    method TickInput(keys: Simulation.Keys, elapsedTime: real)
      requires Valid()
      modifies this, state
      ensures Valid() && state == old(state) && piece == old(piece)
      ensures Value() == Simulation.ResetInput(Simulation.Tick(old(Value()), elapsedTime), keys)
    {
      simulationElapsedTime := simulationElapsedTime + elapsedTime;
      inputElapsedTime := inputElapsedTime + elapsedTime;
      if keys.l {
        ResetBoard();
      }
    }

    /** The gravity block at the end of `Update`. */
    method GravityInput(keys: Simulation.Keys, colorID: int, pieceID: int)
      requires Valid() && Simulation.ValidIds(colorID, pieceID)
      requires Simulation.GravityFires(Value(), keys) ==> Simulation.DropSafe(Value())
      modifies this, piece, state
      ensures Valid()
      ensures Value() == Simulation.Gravity(old(Value()), keys, colorID, pieceID)
    {
      if simulationElapsedTime > Simulation.FRAME_TIME || keys.s {
        Simulation.DropSafeAnyTime(Value(), 0.0);
        simulationElapsedTime := 0.0;
        Drop(colorID, pieceID);
      }
    }

    /** The drop `Update` applies under gravity: down one row, record it,
        resolve a collision (possibly locking the piece). */
    method Drop(colorID: int, pieceID: int)
      requires Valid() && Simulation.ValidIds(colorID, pieceID) && Simulation.DropSafe(Value())
      modifies this, piece, state
      ensures Valid()
      ensures Value() == Simulation.Act(old(Value()), Simulation.Down, colorID, pieceID)
    {
      ghost var moved := Simulation.Moved(piece.Value(), Simulation.Down);
      piece.y := piece.y - 1;
      assert piece.Value() == moved;
      prevAction := Simulation.Down;
      HandleCollision(colorID, pieceID);
    }

    /** `Board.Update` for one frame of `elapsedTime` seconds, with the random
        outcomes of a possible new piece given. */
    method Update(keys: Simulation.Keys, elapsedTime: real, colorID: int, pieceID: int)
      requires Valid() && Simulation.ValidIds(colorID, pieceID)
      requires Simulation.UpdateSafe(Value(), keys, elapsedTime)
      modifies this, piece, state
      ensures Valid()
      ensures Value() == Simulation.Update(old(Value()), keys, elapsedTime, colorID, pieceID)
    {
      TickInput(keys, elapsedTime);
      MoveInput(keys, colorID, pieceID);
      RotateInput(keys, colorID, pieceID);
      piece.CollideWithSides();
      GravityInput(keys, colorID, pieceID);
    }
  }
}
