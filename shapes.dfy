/** The falling piece of Piece.cs as a value: a 4x4 occupancy grid with its
    local origin at (2, 2), the seven templates, the coordinate mapping onto the
    board, the collision queries, the side nudge, the commit onto the grid and
    the two index-arithmetic rotations. */
module Shapes {
  import opened Blocks
  import Grid

  const SIZE := 4
  const ORIGIN_OFFSET := 2
  const PIECES_COUNT := 7
  /** Template index of the 4-long bar, the only piece with the rotation redirect. */
  const BAR := 1

  /** Flat position of local cell (x, y), row-major. */
  function Cell(x: int, y: int): (i: int) {
    y * SIZE + x
  }

  /** The `Piece` object's state: its template index (`type`), color, 16
      occupancy flags and the board position of its local origin. */
  datatype PieceVal = PieceVal(kind: int, color: Color, cells: seq<bool>, x: int, y: int)

  /** `Piece.BoardX`: the board column under local column `localX`. The
      local origin column sits on the piece's x, and the four local columns
      cover board columns x - 2 .. x + 1, one each. */
  function BoardX(p: PieceVal, localX: int): (boardX: int)
    ensures localX == ORIGIN_OFFSET ==> boardX == p.x
    ensures 0 <= localX < SIZE <==> p.x - ORIGIN_OFFSET <= boardX < p.x - ORIGIN_OFFSET + SIZE
  {
    p.x - ORIGIN_OFFSET + localX
  }

  /** `Piece.BoardY`: the board row under local row `localY`, the same way. */
  function BoardY(p: PieceVal, localY: int): (boardY: int)
    ensures localY == ORIGIN_OFFSET ==> boardY == p.y
    ensures 0 <= localY < SIZE <==> p.y - ORIGIN_OFFSET <= boardY < p.y - ORIGIN_OFFSET + SIZE
  {
    p.y - ORIGIN_OFFSET + localY
  }

  /** `Piece.GetStateValue`: the flag of local cell (x, y). The C# array
      access throws outside the 16 cells. */
  function GetStateValue(s: seq<bool>, x: int, y: int): (b: bool)
    requires |s| == SIZE * SIZE && 0 <= Cell(x, y) < SIZE * SIZE
    ensures 0 <= x < SIZE ==>
              (b <==> exists i :: 0 <= i < SIZE * SIZE && s[i] && i % SIZE == x && i / SIZE == y)
  {
    if 0 <= x < SIZE then CellCoords(x, y); s[Cell(x, y)] else s[Cell(x, y)]
  }

  lemma CellCoords(x: int, y: int)
    requires 0 <= x < SIZE
    ensures Cell(x, y) % SIZE == x && Cell(x, y) / SIZE == y
  {
  }

  predicate HasCell(s: seq<bool>) {
    exists i :: 0 <= i < |s| && s[i]
  }

  function Bit(b: bool): (n: nat) {
    if b then 1 else 0
  }

  /** Occupied cells in local row y. */
  function RowCount(s: seq<bool>, y: int): (n: nat)
    requires |s| == SIZE * SIZE && 0 <= y < SIZE
  {
    Bit(s[Cell(0, y)]) + Bit(s[Cell(1, y)]) + Bit(s[Cell(2, y)]) + Bit(s[Cell(3, y)])
  }

  /** Occupied cells of a 4x4 grid. */
  function Count(s: seq<bool>): (n: nat)
    requires |s| == SIZE * SIZE
  {
    RowCount(s, 0) + RowCount(s, 1) + RowCount(s, 2) + RowCount(s, 3)
  }

  lemma CountHasCell(s: seq<bool>)
    requires |s| == SIZE * SIZE && Count(s) > 0
    ensures HasCell(s)
  {
    var i :| i in {0, 1, 2, 3, 4, 5, 6, 7, 8, 9, 10, 11, 12, 13, 14, 15} && s[i];
  }

  // ---------------------------------------------------------------------
  // Templates (Piece.GeneratePieces)
  // ---------------------------------------------------------------------

  function GeneratePieces(): (t: seq<seq<bool>>)
    ensures |t| == PIECES_COUNT
    ensures forall k :: 0 <= k < |t| ==> |t[k]| == SIZE * SIZE
  {
    [ [false, false, false, false, false, true, true, false, false, true, true, false, false, false, false, false],
      [false, false, false, false, false, false, false, false, true, true, true, true, false, false, false, false],
      [false, false, false, false, false, true, true, false, false, false, true, true, false, false, false, false],
      [false, false, false, false, false, false, true, true, false, true, true, false, false, false, false, false],
      [false, false, false, false, false, true, false, false, false, true, true, true, false, false, false, false],
      [false, false, false, false, false, false, false, true, false, true, true, true, false, false, false, false],
      [false, false, false, false, false, false, true, false, false, true, true, true, false, false, false, false] ]
  }

  function Template(kind: int): (s: seq<bool>)
    requires 0 <= kind < PIECES_COUNT
    ensures |s| == SIZE * SIZE
  {
    GeneratePieces()[kind]
  }

  /** A cell of the local box [1, 3] x [1, 3], which contains the origin and the
      cells a quarter turn about it maps to one another. */
  predicate InBoxCell(i: int) {
    1 <= i % SIZE && 1 <= i / SIZE
  }

  predicate InBox(s: seq<bool>)
    requires |s| == SIZE * SIZE
  {
    forall i :: 0 <= i < SIZE * SIZE && s[i] ==> InBoxCell(i)
  }

  /** The bar lying along local row 2 (its template) and standing in column 2. */
  function BarHorizontal(): (s: seq<bool>)
    ensures |s| == SIZE * SIZE
  {
    seq(SIZE * SIZE, i => i / SIZE == ORIGIN_OFFSET)
  }

  function BarVertical(): (s: seq<bool>)
    ensures |s| == SIZE * SIZE
  {
    seq(SIZE * SIZE, i => i % SIZE == ORIGIN_OFFSET)
  }

  /** Every template has four cells; the bar's is the horizontal bar and every
      other template lies in the local box. */
  lemma TemplateShapes(kind: int)
    requires 0 <= kind < PIECES_COUNT
    ensures Count(Template(kind)) == 4
    ensures kind == BAR ==> Template(kind) == BarHorizontal()
    ensures kind != BAR ==> InBox(Template(kind))
  {
    if kind == BAR {
      BarCells();
    } else {
      TemplateInBox(kind);
    }
  }

  lemma TemplateInBox(kind: int)
    requires 0 <= kind < PIECES_COUNT && kind != BAR
    ensures InBox(Template(kind))
  {
    var s := Template(kind);
    assert !s[0] && !s[1] && !s[2] && !s[3] && !s[4] && !s[8] && !s[12];
    forall i | 0 <= i < SIZE * SIZE && s[i] ensures InBoxCell(i) {
      LocalIndexCases(i);
    }
  }

  // ---------------------------------------------------------------------
  // Rotations (Piece.RotateCW / Piece.RotateCC)
  // ---------------------------------------------------------------------
  // The names follow the source. Board rows count upwards on screen, so the
  // "clockwise" offset map (dx, dy) -> (-dy, dx) is seen as a
  // counter-clockwise quarter turn, and the "counter-clockwise" one as a
  // clockwise turn.

  /** Flat index `setY * SIZE + setX` that the clockwise loop writes for an
      occupied old cell (x, y): (x - 2, y - 2) becomes (2 - y, x - 2) around the
      origin, so the write goes to Cell(4 - y, x). For y == 0 that is the first
      cell of the next local row, and for (3, 0) it is 16, past the array. */
  function CWTarget(x: int, y: int): (j: int) {
    Cell(ORIGIN_OFFSET - (y - ORIGIN_OFFSET), (x - ORIGIN_OFFSET) + ORIGIN_OFFSET)
  }

  /** Flat index the counter-clockwise loop writes: (x - 2, y - 2) becomes
      (y - 2, 2 - x), so the write goes to Cell(y, 4 - x); for x == 0 it lies
      past the array. */
  function CCTarget(x: int, y: int): (j: int) {
    Cell((y - ORIGIN_OFFSET) + ORIGIN_OFFSET, ORIGIN_OFFSET - (x - ORIGIN_OFFSET))
  }

  /** The clockwise loop stays inside the array unless local cell (3, 0) is set. */
  predicate CanTurnCW(s: seq<bool>) {
    |s| == SIZE * SIZE && !s[Cell(3, 0)]
  }

  /** The counter-clockwise loop stays inside the array unless column 0 has a cell. */
  predicate CanTurnCC(s: seq<bool>) {
    |s| == SIZE * SIZE && forall y :: 0 <= y < SIZE ==> !s[Cell(0, y)]
  }

  /** The new state the clockwise loop builds, cell by cell: the one old cell
      written to position j, if any. Old cell (x, y) lands on CWTarget(x, y)
      whenever that index lies in the array, and nothing reaches position 0. */
  function TurnCW(s: seq<bool>): (r: seq<bool>)
    requires CanTurnCW(s)
    ensures |r| == SIZE * SIZE
    ensures forall x, y {:trigger CWTarget(x, y)} :: 0 <= x < SIZE && 0 <= y < SIZE && CWTarget(x, y) < SIZE * SIZE ==>
              r[CWTarget(x, y)] == s[Cell(x, y)]
    ensures !r[0]
  {
    seq(SIZE * SIZE, j requires 0 <= j < SIZE * SIZE =>
      if j % SIZE == 0 then j >= SIZE && s[Cell(j / SIZE - 1, 0)]
      else s[Cell(j / SIZE, SIZE - j % SIZE)])
  }

  /** The same for the counter-clockwise loop: old cell (x, y), x > 0, lands
      on CCTarget(x, y), and nothing reaches local row 0. */
  function TurnCC(s: seq<bool>): (r: seq<bool>)
    requires CanTurnCC(s)
    ensures |r| == SIZE * SIZE
    ensures forall x, y {:trigger CCTarget(x, y)} :: 0 < x < SIZE && 0 <= y < SIZE ==> r[CCTarget(x, y)] == s[Cell(x, y)]
    ensures forall j :: 0 <= j < SIZE ==> !r[j]
  {
    seq(SIZE * SIZE, j requires 0 <= j < SIZE * SIZE =>
      j >= SIZE && s[Cell(SIZE - j / SIZE, j % SIZE)])
  }

  /** Position j of the new array the clockwise loop builds, once every old cell
      before (x, y) in its order (columns before x, then rows of column x before
      y) has been copied: the one old cell that writes to j, if any, is set and
      has been visited. Position 0 has no source. */
  predicate CWWritten(s: seq<bool>, x: int, y: int, j: int)
    requires |s| == SIZE * SIZE && 0 <= j < SIZE * SIZE
  {
    var sx := if j % SIZE == 0 then j / SIZE - 1 else j / SIZE;
    var sy := if j % SIZE == 0 then 0 else SIZE - j % SIZE;
    0 <= sx && (sx < x || (sx == x && sy < y)) && s[Cell(sx, sy)]
  }

  /** The same for the counter-clockwise loop; local row 0 has no source. */
  predicate CCWritten(s: seq<bool>, x: int, y: int, j: int)
    requires |s| == SIZE * SIZE && 0 <= j < SIZE * SIZE
  {
    var sx := SIZE - j / SIZE;
    var sy := j % SIZE;
    sx < SIZE && (sx < x || (sx == x && sy < y)) && s[Cell(sx, sy)]
  }

  /** Visiting old cell (x, y) sets exactly its clockwise target, which lies in
      the array whenever the cell is set; finishing a column moves on to the
      next; after the last column the array is `TurnCW`. */
  lemma CWLoopStep(s: seq<bool>, x: int, y: int)
    requires CanTurnCW(s) && 0 <= x < SIZE && 0 <= y < SIZE
    ensures s[Cell(x, y)] ==> 0 <= CWTarget(x, y) < SIZE * SIZE
    ensures forall j :: 0 <= j < SIZE * SIZE ==>
              CWWritten(s, x, y + 1, j) == (CWWritten(s, x, y, j) || (j == CWTarget(x, y) && s[Cell(x, y)]))
  {
    forall j | 0 <= j < SIZE * SIZE
      ensures CWWritten(s, x, y + 1, j) == (CWWritten(s, x, y, j) || (j == CWTarget(x, y) && s[Cell(x, y)]))
    {
      LocalIndexCases(j);
    }
  }

  lemma CWLoopColumn(s: seq<bool>, x: int)
    requires |s| == SIZE * SIZE && 0 <= x < SIZE
    ensures forall j :: 0 <= j < SIZE * SIZE ==> CWWritten(s, x, SIZE, j) == CWWritten(s, x + 1, 0, j)
  {
    forall j | 0 <= j < SIZE * SIZE ensures CWWritten(s, x, SIZE, j) == CWWritten(s, x + 1, 0, j) {
      LocalIndexCases(j);
    }
  }

  lemma CWLoopDone(s: seq<bool>)
    requires CanTurnCW(s)
    ensures forall j :: 0 <= j < SIZE * SIZE ==> CWWritten(s, SIZE, 0, j) == TurnCW(s)[j]
  {
    forall j | 0 <= j < SIZE * SIZE ensures CWWritten(s, SIZE, 0, j) == TurnCW(s)[j] {
      LocalIndexCases(j);
    }
  }

  lemma CCLoopStep(s: seq<bool>, x: int, y: int)
    requires CanTurnCC(s) && 0 <= x < SIZE && 0 <= y < SIZE
    ensures s[Cell(x, y)] ==> 0 <= CCTarget(x, y) < SIZE * SIZE
    ensures forall j :: 0 <= j < SIZE * SIZE ==>
              CCWritten(s, x, y + 1, j) == (CCWritten(s, x, y, j) || (j == CCTarget(x, y) && s[Cell(x, y)]))
  {
    forall j | 0 <= j < SIZE * SIZE
      ensures CCWritten(s, x, y + 1, j) == (CCWritten(s, x, y, j) || (j == CCTarget(x, y) && s[Cell(x, y)]))
    {
      LocalIndexCases(j);
    }
  }

  lemma CCLoopColumn(s: seq<bool>, x: int)
    requires |s| == SIZE * SIZE && 0 <= x < SIZE
    ensures forall j :: 0 <= j < SIZE * SIZE ==> CCWritten(s, x, SIZE, j) == CCWritten(s, x + 1, 0, j)
  {
    forall j | 0 <= j < SIZE * SIZE ensures CCWritten(s, x, SIZE, j) == CCWritten(s, x + 1, 0, j) {
      LocalIndexCases(j);
    }
  }

  lemma CCLoopDone(s: seq<bool>)
    requires CanTurnCC(s)
    ensures forall j :: 0 <= j < SIZE * SIZE ==> CCWritten(s, SIZE, 0, j) == TurnCC(s)[j]
  {
    forall j | 0 <= j < SIZE * SIZE ensures CCWritten(s, SIZE, 0, j) == TurnCC(s)[j] {
      LocalIndexCases(j);
    }
  }

  /** `RotateCW` may run: a bar with cell 2 set is redirected to `RotateCC`,
      which must not redirect back (that would recurse forever). */
  predicate CanRotateCW(kind: int, s: seq<bool>) {
    |s| == SIZE * SIZE &&
    if kind == BAR && s[2] then !s[8] && CanTurnCC(s) else CanTurnCW(s)
  }

  predicate CanRotateCC(kind: int, s: seq<bool>) {
    |s| == SIZE * SIZE &&
    if kind == BAR && s[8] then !s[2] && CanTurnCW(s) else CanTurnCC(s)
  }

  /** `RotateCW` as a value: the bar with cell 2 set takes the
      counter-clockwise turn, which then does not redirect again; every other
      state takes the clockwise turn. */
  function RotatedCW(kind: int, s: seq<bool>): (r: seq<bool>)
    requires CanRotateCW(kind, s)
    ensures |r| == SIZE * SIZE
    ensures kind == BAR && s[2] ==> CanTurnCC(s) && r == TurnCC(s)
    ensures !(kind == BAR && s[2]) ==> CanTurnCW(s) && r == TurnCW(s)
    decreases if kind == BAR && s[2] then 1 else 0
  {
    if kind == BAR && s[2] then RotatedCC(kind, s) else TurnCW(s)
  }

  /** `RotateCC` as a value, with the bar's redirect through cell 8. */
  function RotatedCC(kind: int, s: seq<bool>): (r: seq<bool>)
    requires CanRotateCC(kind, s)
    ensures |r| == SIZE * SIZE
    ensures kind == BAR && s[8] ==> CanTurnCW(s) && r == TurnCW(s)
    ensures !(kind == BAR && s[8]) ==> CanTurnCC(s) && r == TurnCC(s)
    decreases if kind == BAR && s[8] then 1 else 0
  {
    if kind == BAR && s[8] then RotatedCW(kind, s) else TurnCC(s)
  }

  /** On the local box the clockwise turn is the quarter turn (x, y) -> (4 - y, x)
      (counter-clockwise as drawn, since board rows count upwards). */
  lemma TurnCWOnBox(s: seq<bool>, x: int, y: int)
    requires |s| == SIZE * SIZE && InBox(s) && 1 <= x < SIZE && 1 <= y < SIZE
    ensures CanTurnCW(s) && TurnCW(s)[Cell(4 - y, x)] == s[Cell(x, y)]
  {
    assert CWTarget(x, y) == Cell(4 - y, x);
  }

  lemma TurnCCOnBox(s: seq<bool>, x: int, y: int)
    requires |s| == SIZE * SIZE && InBox(s) && 1 <= x < SIZE && 1 <= y < SIZE
    ensures CanTurnCC(s) && TurnCC(s)[Cell(y, 4 - x)] == s[Cell(x, y)]
  {
    assert !s[Cell(0, 0)] && !s[Cell(0, 1)] && !s[Cell(0, 2)] && !s[Cell(0, 3)];
    assert CCTarget(x, y) == Cell(y, 4 - x);
  }

  /** The clockwise turn written out cell by cell. */
  lemma TurnCWCells(s: seq<bool>)
    requires CanTurnCW(s)
    ensures TurnCW(s) == [false, s[12], s[8], s[4], s[0], s[13], s[9], s[5],
                          s[1], s[14], s[10], s[6], s[2], s[15], s[11], s[7]]
  {
    var r := TurnCW(s);
    var l := [false, s[12], s[8], s[4], s[0], s[13], s[9], s[5],
              s[1], s[14], s[10], s[6], s[2], s[15], s[11], s[7]];
    forall j | 0 <= j < SIZE * SIZE ensures r[j] == l[j] {
      LocalIndexCases(j);
    }
  }

  lemma TurnCCCells(s: seq<bool>)
    requires CanTurnCC(s)
    ensures TurnCC(s) == [false, false, false, false, s[3], s[7], s[11], s[15],
                          s[2], s[6], s[10], s[14], s[1], s[5], s[9], s[13]]
  {
    var r := TurnCC(s);
    var l := [false, false, false, false, s[3], s[7], s[11], s[15],
              s[2], s[6], s[10], s[14], s[1], s[5], s[9], s[13]];
    forall j | 0 <= j < SIZE * SIZE ensures r[j] == l[j] {
      LocalIndexCases(j);
    }
  }

  /** The sixteen local positions, one by one. */
  lemma LocalIndexCases(j: int)
    requires 0 <= j < SIZE * SIZE
    ensures j == 0 || j == 1 || j == 2 || j == 3 || j == 4 || j == 5 || j == 6 || j == 7 ||
            j == 8 || j == 9 || j == 10 || j == 11 || j == 12 || j == 13 || j == 14 || j == 15
  {
  }

  /** A box state, written out: only its nine box cells can be set. */
  lemma BoxCells(s: seq<bool>)
    requires |s| == SIZE * SIZE && InBox(s)
    ensures s == [false, false, false, false, false, s[5], s[6], s[7],
                  false, s[9], s[10], s[11], false, s[13], s[14], s[15]]
  {
    assert !s[0] && !s[1] && !s[2] && !s[3] && !s[4] && !s[8] && !s[12];
  }

  /** Both turns keep a box state inside the box and keep its number of
      occupied cells. */
  lemma TurnsKeepBox(s: seq<bool>)
    requires |s| == SIZE * SIZE && InBox(s)
    ensures CanTurnCW(s) && InBox(TurnCW(s)) && Count(TurnCW(s)) == Count(s)
    ensures CanTurnCC(s) && InBox(TurnCC(s)) && Count(TurnCC(s)) == Count(s)
  {
    TurnCWKeepsBox(s);
    TurnCCKeepsBox(s);
  }

  lemma TurnCWKeepsBox(s: seq<bool>)
    requires |s| == SIZE * SIZE && InBox(s)
    ensures CanTurnCW(s) && InBox(TurnCW(s)) && Count(TurnCW(s)) == Count(s)
  {
    BoxCells(s);
    TurnCWCells(s);
  }

  lemma TurnCCKeepsBox(s: seq<bool>)
    requires |s| == SIZE * SIZE && InBox(s)
    ensures CanTurnCC(s) && InBox(TurnCC(s)) && Count(TurnCC(s)) == Count(s)
  {
    BoxCells(s);
    TurnCCCells(s);
  }

  /** On box states the two turns undo each other. */
  lemma TurnsUndo(s: seq<bool>)
    requires |s| == SIZE * SIZE && InBox(s)
    ensures CanTurnCW(s) && CanTurnCC(TurnCW(s)) && TurnCC(TurnCW(s)) == s
    ensures CanTurnCC(s) && CanTurnCW(TurnCC(s)) && TurnCW(TurnCC(s)) == s
  {
    TurnCCUndoesCW(s);
    TurnCWUndoesCC(s);
  }

  lemma TurnCCUndoesCW(s: seq<bool>)
    requires |s| == SIZE * SIZE && InBox(s)
    ensures CanTurnCW(s) && CanTurnCC(TurnCW(s)) && TurnCC(TurnCW(s)) == s
  {
    BoxCells(s);
    TurnCWCells(s);
    TurnCCCells(TurnCW(s));
  }

  lemma TurnCWUndoesCC(s: seq<bool>)
    requires |s| == SIZE * SIZE && InBox(s)
    ensures CanTurnCC(s) && CanTurnCW(TurnCC(s)) && TurnCW(TurnCC(s)) == s
  {
    BoxCells(s);
    TurnCCCells(s);
    TurnCWCells(TurnCC(s));
  }

  /** Two clockwise turns are the half turn (x, y) -> (4 - x, 4 - y) on box states. */
  lemma HalfTurn(s: seq<bool>)
    requires |s| == SIZE * SIZE && InBox(s)
    ensures CanTurnCW(s) && CanTurnCW(TurnCW(s)) && InBox(TurnCW(TurnCW(s)))
    ensures TurnCW(TurnCW(s)) == [false, false, false, false, false, s[15], s[14], s[13],
                                  false, s[11], s[10], s[9], false, s[7], s[6], s[5]]
  {
    TurnsKeepBox(s);
    TurnsKeepBox(TurnCW(s));
    BoxCells(s);
    TurnCWCells(s);
    TurnCWCells(TurnCW(s));
  }

  /** Four clockwise turns are the identity on box states. */
  lemma FourTurnsCW(s: seq<bool>)
    requires |s| == SIZE * SIZE && InBox(s)
    ensures CanTurnCW(s) && CanTurnCW(TurnCW(s)) && CanTurnCW(TurnCW(TurnCW(s)))
    ensures CanTurnCW(TurnCW(TurnCW(TurnCW(s))))
    ensures TurnCW(TurnCW(TurnCW(TurnCW(s)))) == s
  {
    HalfTurn(s);
    var h := TurnCW(TurnCW(s));
    HalfTurn(h);
    BoxCells(s);
  }

  /** Two counter-clockwise turns are the same half turn. */
  lemma HalfTurnCC(s: seq<bool>)
    requires |s| == SIZE * SIZE && InBox(s)
    ensures CanTurnCC(s) && CanTurnCC(TurnCC(s)) && InBox(TurnCC(TurnCC(s)))
    ensures TurnCC(TurnCC(s)) == [false, false, false, false, false, s[15], s[14], s[13],
                                  false, s[11], s[10], s[9], false, s[7], s[6], s[5]]
  {
    TurnsKeepBox(s);
    TurnsKeepBox(TurnCC(s));
    BoxCells(s);
    TurnCCCells(s);
    TurnCCCells(TurnCC(s));
  }

  /** Four counter-clockwise turns are the identity on box states. */
  lemma FourTurnsCC(s: seq<bool>)
    requires |s| == SIZE * SIZE && InBox(s)
    ensures CanTurnCC(s) && CanTurnCC(TurnCC(s)) && CanTurnCC(TurnCC(TurnCC(s)))
    ensures CanTurnCC(TurnCC(TurnCC(TurnCC(s))))
    ensures TurnCC(TurnCC(TurnCC(TurnCC(s)))) == s
  {
    HalfTurnCC(s);
    var h := TurnCC(TurnCC(s));
    HalfTurnCC(h);
    BoxCells(s);
  }

  // ---------------------------------------------------------------------
  // The bar redirect and the shape invariant
  // ---------------------------------------------------------------------

  lemma BarCells()
    ensures BarHorizontal() == [false, false, false, false, false, false, false, false,
                                true, true, true, true, false, false, false, false]
    ensures BarVertical() == [false, false, true, false, false, false, true, false,
                              false, false, true, false, false, false, true, false]
  {
    var h := [false, false, false, false, false, false, false, false,
              true, true, true, true, false, false, false, false];
    var v := [false, false, true, false, false, false, true, false,
              false, false, true, false, false, false, true, false];
    forall j | 0 <= j < SIZE * SIZE ensures BarHorizontal()[j] == h[j] && BarVertical()[j] == v[j] {
      LocalIndexCases(j);
    }
  }

  /** The bar only ever toggles: from lying along row 2 either rotation stands
      it in column 2 and from there either rotation lays it back down. Each
      redirect goes one call deep, and no write leaves the array. */
  lemma BarRotations()
    ensures CanRotateCW(BAR, BarHorizontal()) && RotatedCW(BAR, BarHorizontal()) == BarVertical()
    ensures CanRotateCC(BAR, BarHorizontal()) && RotatedCC(BAR, BarHorizontal()) == BarVertical()
    ensures CanRotateCW(BAR, BarVertical()) && RotatedCW(BAR, BarVertical()) == BarHorizontal()
    ensures CanRotateCC(BAR, BarVertical()) && RotatedCC(BAR, BarVertical()) == BarHorizontal()
  {
    BarCells();
    TurnCWCells(BarHorizontal());
    TurnCCCells(BarVertical());
  }

  /** The shapes a piece can have: a template index, at least one set cell,
      and either one of the two bar positions or a state inside the local box. */
  predicate WellFormed(p: PieceVal) {
    0 <= p.kind < PIECES_COUNT && |p.cells| == SIZE * SIZE && HasCell(p.cells) &&
    if p.kind == BAR then p.cells == BarHorizontal() || p.cells == BarVertical()
    else InBox(p.cells)
  }

  /** A piece freshly copied from its template is well formed. */
  lemma TemplateWellFormed(kind: int, color: Color, x: int, y: int)
    requires 0 <= kind < PIECES_COUNT
    ensures WellFormed(PieceVal(kind, color, Template(kind), x, y))
  {
    TemplateShapes(kind);
    CountHasCell(Template(kind));
  }

  /** A set cell of a box state is still set after either turn. */
  lemma TurnsKeepCell(s: seq<bool>)
    requires |s| == SIZE * SIZE && InBox(s) && HasCell(s)
    ensures CanTurnCW(s) && HasCell(TurnCW(s))
    ensures CanTurnCC(s) && HasCell(TurnCC(s))
  {
    var i :| 0 <= i < |s| && s[i];
    var x, y := i % SIZE, i / SIZE;
    assert i == Cell(x, y);
    TurnCWOnBox(s, x, y);
    TurnCCOnBox(s, x, y);
    assert TurnCW(s)[Cell(4 - y, x)];
    assert TurnCC(s)[Cell(y, 4 - x)];
  }

  /** Both rotations may run on a well-formed piece and leave it well formed. */
  lemma RotationsKeepWellFormed(p: PieceVal)
    requires WellFormed(p)
    ensures CanRotateCW(p.kind, p.cells) && WellFormed(p.(cells := RotatedCW(p.kind, p.cells)))
    ensures CanRotateCC(p.kind, p.cells) && WellFormed(p.(cells := RotatedCC(p.kind, p.cells)))
  {
    if p.kind == BAR {
      BarRotations();
      BarCells();
      assert BarHorizontal()[8] && BarVertical()[2];
    } else {
      TurnsKeepBox(p.cells);
      TurnsKeepCell(p.cells);
    }
  }

  /** Rotating a well-formed piece keeps its number of set cells, so every
      piece keeps the four cells of its template. */
  lemma RotationsKeepCount(p: PieceVal)
    requires WellFormed(p)
    ensures CanRotateCW(p.kind, p.cells) && Count(RotatedCW(p.kind, p.cells)) == Count(p.cells)
    ensures CanRotateCC(p.kind, p.cells) && Count(RotatedCC(p.kind, p.cells)) == Count(p.cells)
  {
    if p.kind == BAR {
      BarRotations();
      BarCount();
    } else {
      TurnsKeepBox(p.cells);
    }
  }

  lemma BarCount()
    ensures Count(BarHorizontal()) == 4 && Count(BarVertical()) == 4
  {
    BarCells();
  }

  /** On a well-formed piece each rotation is undone by the other one. */
  lemma RotationsUndo(p: PieceVal)
    requires WellFormed(p)
    ensures CanRotateCW(p.kind, p.cells) && CanRotateCC(p.kind, RotatedCW(p.kind, p.cells))
    ensures RotatedCC(p.kind, RotatedCW(p.kind, p.cells)) == p.cells
    ensures CanRotateCC(p.kind, p.cells) && CanRotateCW(p.kind, RotatedCC(p.kind, p.cells))
    ensures RotatedCW(p.kind, RotatedCC(p.kind, p.cells)) == p.cells
  {
    RotationsKeepWellFormed(p);
    if p.kind == BAR {
      BarRotations();
    } else {
      TurnsUndo(p.cells);
      TurnsKeepBox(p.cells);
    }
  }

  // ---------------------------------------------------------------------
  // Collision queries (Piece.IsOverlapping / Piece.IsCollidingWithFloor)
  // ---------------------------------------------------------------------

  /** `Piece.ScanRow`: local row `row` has a set cell. */
  function ScanRow(s: seq<bool>, row: int): (r: bool)
    requires |s| == SIZE * SIZE && 0 <= row < SIZE
    ensures r <==> exists x :: 0 <= x < SIZE && s[Cell(x, row)]
  {
    ScanRowFrom(s, row, 0)
  }

  /** The scan loop of `ScanRow` from column x on, returning at the first hit. */
  function ScanRowFrom(s: seq<bool>, row: int, x: int): (r: bool)
    requires |s| == SIZE * SIZE && 0 <= row < SIZE && 0 <= x <= SIZE
    ensures r <==> exists c :: x <= c < SIZE && s[Cell(c, row)]
    decreases SIZE - x
  {
    if x == SIZE then false
    else GetStateValue(s, x, row) || ScanRowFrom(s, row, x + 1)
  }

  /** `Piece.ScanColumn`: local column `column` has a set cell. */
  function ScanColumn(s: seq<bool>, column: int): (r: bool)
    requires |s| == SIZE * SIZE && 0 <= column < SIZE
    ensures r <==> exists y :: 0 <= y < SIZE && s[Cell(column, y)]
  {
    ScanColumnFrom(s, column, 0)
  }

  function ScanColumnFrom(s: seq<bool>, column: int, y: int): (r: bool)
    requires |s| == SIZE * SIZE && 0 <= column < SIZE && 0 <= y <= SIZE
    ensures r <==> exists c :: y <= c < SIZE && s[Cell(column, c)]
    decreases SIZE - y
  {
    if y == SIZE then false
    else GetStateValue(s, column, y) || ScanColumnFrom(s, column, y + 1)
  }

  /** The loop of `IsOverlapping` from flat local index k on (rows outer,
      columns inner), returning at the first local cell that is set and lies
      on an occupied board cell. */
  function OverlapFrom(p: PieceVal, g: seq<Block>, k: int): (r: bool)
    requires |p.cells| == SIZE * SIZE && Grid.IsGrid(g) && 0 <= k <= SIZE * SIZE
    ensures r <==> exists i :: k <= i < SIZE * SIZE && p.cells[i] &&
                     Grid.GetStateValue(g, BoardX(p, i % SIZE), BoardY(p, i / SIZE)).occupied
    decreases SIZE * SIZE - k
  {
    if k == SIZE * SIZE then false
    else (Grid.GetStateValue(g, BoardX(p, k % SIZE), BoardY(p, k / SIZE)).occupied &&
          GetStateValue(p.cells, k % SIZE, k / SIZE)) ||
         OverlapFrom(p, g, k + 1)
  }

  /** `Piece.IsOverlapping`: some set local cell lies on an occupied board
      cell; cells off the board read as empty and never overlap. */
  function IsOverlapping(p: PieceVal, g: seq<Block>): (r: bool)
    requires |p.cells| == SIZE * SIZE && Grid.IsGrid(g)
    ensures r <==> exists i :: 0 <= i < SIZE * SIZE && p.cells[i] &&
                     Grid.InBounds(BoardX(p, i % SIZE), BoardY(p, i / SIZE)) &&
                     g[Grid.Index(BoardX(p, i % SIZE), BoardY(p, i / SIZE))].occupied
  {
    OverlapFrom(p, g, 0)
  }

  /** The rows loop of `IsCollidingWithFloor` from local row `row` up to
      (not including) `last`. It would read past the 16 cells only if it ran
      beyond row 3, which a set cell at or above `row` prevents. */
  function FloorRowsFrom(s: seq<bool>, row: int, last: int): (r: bool)
    requires |s| == SIZE * SIZE && 0 <= row <= SIZE
    requires last > SIZE ==> exists i :: Cell(0, row) <= i < SIZE * SIZE && s[i]
    ensures r <==> exists i :: Cell(0, row) <= i < SIZE * SIZE && i / SIZE < last && s[i]
    decreases last - row
  {
    if row >= last then false
    else ScanRow(s, row) || FloorRowsFrom(s, row + 1, last)
  }

  /** `Piece.IsCollidingWithFloor`: some set cell lies below board row 0. Only
      an empty piece more than two rows below the floor would make the C#
      loop read past the array. */
  function IsCollidingWithFloor(p: PieceVal): (r: bool)
    requires |p.cells| == SIZE * SIZE && (p.y < -2 ==> HasCell(p.cells))
    ensures r <==> exists i :: 0 <= i < SIZE * SIZE && p.cells[i] && BoardY(p, i / SIZE) < 0
  {
    var boardY := BoardY(p, 0);
    if boardY >= 0 then false
    else FloorRowsFrom(p.cells, 0, -boardY)
  }

  // ---------------------------------------------------------------------
  // Side nudge (Piece.CollideWithSides)
  // ---------------------------------------------------------------------

  /** The left-wall loop over columns c .. offset - 1, first hit wins. It
      would read column 4 (past the array) only if no set cell remains. */
  function LeftWallFrom(s: seq<bool>, c: int, offset: int): (r: bool)
    requires |s| == SIZE * SIZE && 0 <= c <= SIZE
    requires offset > SIZE ==> exists i :: 0 <= i < SIZE * SIZE && s[i] && c <= i % SIZE
    ensures r <==> exists i :: 0 <= i < SIZE * SIZE && s[i] && c <= i % SIZE < offset
    decreases offset - c
  {
    if c >= offset then false
    else ScanColumn(s, c) || LeftWallFrom(s, c + 1, offset)
  }

  /** The right-wall loop over columns c down to offset, first hit wins. It
      would read column -1 only if no set cell remains. */
  function RightWallFrom(s: seq<bool>, c: int, offset: int): (r: bool)
    requires |s| == SIZE * SIZE && -1 <= c < SIZE
    requires offset < 0 ==> exists i :: 0 <= i < SIZE * SIZE && s[i] && i % SIZE <= c
    ensures r <==> exists i :: 0 <= i < SIZE * SIZE && s[i] && offset <= i % SIZE <= c
    decreases c + 1
  {
    if c < offset then false
    else ScanColumn(s, c) || RightWallFrom(s, c - 1, offset)
  }

  /** `Piece.CollideWithSides`: moves the piece one column back towards the
      board when a set cell hangs over the left or the right edge; nothing but
      x changes. */
  function CollideWithSides(p: PieceVal): (r: PieceVal)
    requires |p.cells| == SIZE * SIZE && (p.x < -2 || p.x > 14 ==> HasCell(p.cells))
    ensures r == p.(x := r.x)
    ensures r.x == p.x || r.x == p.x + 1 || r.x == p.x - 1
    ensures r.x == p.x + 1 <==> exists i :: 0 <= i < SIZE * SIZE && p.cells[i] && BoardX(p, i % SIZE) < 0
    ensures r.x == p.x - 1 <==> exists i :: 0 <= i < SIZE * SIZE && p.cells[i] && BoardX(p, i % SIZE) >= Grid.WIDTH
  {
    if p.x < ORIGIN_OFFSET then
      if LeftWallFrom(p.cells, 0, -(p.x - ORIGIN_OFFSET)) then p.(x := p.x + 1) else p
    else if p.x > Grid.WIDTH - 2 then
      if RightWallFrom(p.cells, SIZE - 1, Grid.WIDTH - (p.x - ORIGIN_OFFSET)) then p.(x := p.x - 1) else p
    else p
  }

  // ---------------------------------------------------------------------
  // Commit onto the grid (Piece.SetInPlace)
  // ---------------------------------------------------------------------

  /** Board cell (cx, cy) lies under a set local cell whose flat index is at least k. */
  predicate CoveredFrom(p: PieceVal, cx: int, cy: int, k: int)
    requires |p.cells| == SIZE * SIZE
  {
    var lx := cx - (p.x - ORIGIN_OFFSET);
    var ly := cy - (p.y - ORIGIN_OFFSET);
    0 <= lx < SIZE && 0 <= ly < SIZE && k <= Cell(lx, ly) && p.cells[Cell(lx, ly)]
  }

  /** The loop of `SetInPlace` from flat local index k on: every set cell is
      written through the bounds-safe `Board.SetStateValue`. */
  function PlaceFrom(p: PieceVal, g: seq<Block>, k: int): (r: seq<Block>)
    requires |p.cells| == SIZE * SIZE && Grid.IsGrid(g) && 0 <= k <= SIZE * SIZE
    ensures Grid.IsGrid(r)
    decreases SIZE * SIZE - k
  {
    if k == SIZE * SIZE then g
    else
      var g' := if p.cells[k]
                then Grid.SetStateValue(g, BoardX(p, k % SIZE), BoardY(p, k / SIZE), Block(p.color, true))
                else g;
      PlaceFrom(p, g', k + 1)
  }

  /** One write of that loop, at local cell (lx, ly). */
  lemma PlaceStep(p: PieceVal, g: seq<Block>, lx: int, ly: int)
    requires |p.cells| == SIZE * SIZE && Grid.IsGrid(g) && 0 <= lx < SIZE && 0 <= ly < SIZE
    ensures PlaceFrom(p, g, Cell(lx, ly)) ==
            PlaceFrom(p, if p.cells[Cell(lx, ly)]
                         then Grid.SetStateValue(g, BoardX(p, lx), BoardY(p, ly), Block(p.color, true))
                         else g, Cell(lx, ly) + 1)
  {
    CellCoords(lx, ly);
  }

  /** `Piece.SetInPlace`: every board cell under a set local cell becomes an
      occupied block of the piece's color, every other cell keeps its block,
      and set cells that fall off the board are dropped. */
  function SetInPlace(p: PieceVal, g: seq<Block>): (r: seq<Block>)
    requires |p.cells| == SIZE * SIZE && Grid.IsGrid(g)
    ensures Grid.IsGrid(r)
    ensures forall cx, cy {:trigger Grid.GetStateValue(r, cx, cy)} :: Grid.GetStateValue(r, cx, cy) ==
              if Grid.InBounds(cx, cy) && CoveredFrom(p, cx, cy, 0) then Block(p.color, true)
              else Grid.GetStateValue(g, cx, cy)
  {
    SetInPlaceCells(p, g);
    PlaceFrom(p, g, 0)
  }

  /** What the remaining writes from k on do to one board cell. */
  lemma {:induction false} PlaceFromCell(p: PieceVal, g: seq<Block>, k: int, cx: int, cy: int)
    requires |p.cells| == SIZE * SIZE && Grid.IsGrid(g) && 0 <= k <= SIZE * SIZE
    ensures Grid.GetStateValue(PlaceFrom(p, g, k), cx, cy) ==
            if Grid.InBounds(cx, cy) && CoveredFrom(p, cx, cy, k) then Block(p.color, true)
            else Grid.GetStateValue(g, cx, cy)
    decreases SIZE * SIZE - k
  {
    if k < SIZE * SIZE {
      var tx, ty := BoardX(p, k % SIZE), BoardY(p, k / SIZE);
      var g' := if p.cells[k] then Grid.SetStateValue(g, tx, ty, Block(p.color, true)) else g;
      PlaceFromCell(p, g', k + 1, cx, cy);
      Grid.GetAfterSet(g, tx, ty, Block(p.color, true), cx, cy);
      CoveredStep(p, cx, cy, k);
    }
  }

  /** Cell (cx, cy) is covered from k on when it is covered from k + 1 on or
      local cell k is set and lands on it. */
  lemma CoveredStep(p: PieceVal, cx: int, cy: int, k: int)
    requires |p.cells| == SIZE * SIZE && 0 <= k < SIZE * SIZE
    ensures CoveredFrom(p, cx, cy, k) ==
            (CoveredFrom(p, cx, cy, k + 1) ||
             (p.cells[k] && cx == BoardX(p, k % SIZE) && cy == BoardY(p, k / SIZE)))
  {
    var lx, ly := cx - (p.x - ORIGIN_OFFSET), cy - (p.y - ORIGIN_OFFSET);
    if 0 <= lx < SIZE && 0 <= ly < SIZE {
      CellCoords(lx, ly);
    }
    assert (cx == BoardX(p, k % SIZE) && cy == BoardY(p, k / SIZE)) <==>
           (0 <= lx < SIZE && 0 <= ly < SIZE && Cell(lx, ly) == k);
  }

  /** The writes of the whole loop, cell by cell. */
  lemma SetInPlaceCells(p: PieceVal, g: seq<Block>)
    requires |p.cells| == SIZE * SIZE && Grid.IsGrid(g)
    ensures forall cx, cy {:trigger Grid.GetStateValue(PlaceFrom(p, g, 0), cx, cy)} ::
              Grid.GetStateValue(PlaceFrom(p, g, 0), cx, cy) ==
              if Grid.InBounds(cx, cy) && CoveredFrom(p, cx, cy, 0) then Block(p.color, true)
              else Grid.GetStateValue(g, cx, cy)
  {
    forall cx, cy {
      PlaceFromCell(p, g, 0, cx, cy);
    }
  }
}
