/** The settled-cell grid of Board.cs as a value: WIDTH x HEIGHT blocks stored
    row-major, bounds-safe reads and writes, and the row-clearing scan. */
module Grid {
  import opened Blocks

  const WIDTH := 12
  const HEIGHT := 20
  const WIDTH_HALF := 6

  predicate IsGrid(g: seq<Block>) {
    |g| == WIDTH * HEIGHT
  }

  predicate InBounds(x: int, y: int) {
    0 <= x < WIDTH && 0 <= y < HEIGHT
  }

  /** Row-major position of board cell (x, y). */
  function Index(x: int, y: int): (i: int) {
    y * WIDTH + x
  }

  /** The grid `ResetBoard` leaves: every read, on or off the board, is `Block.EMPTY`. */
  function EmptyGrid(): (g: seq<Block>)
    ensures IsGrid(g)
    ensures forall x, y :: GetStateValue(g, x, y) == Empty()
  {
    seq(WIDTH * HEIGHT, _ => Empty())
  }

  /** `Board.GetStateValue`: a read outside the grid yields `Block.EMPTY`. */
  function GetStateValue(g: seq<Block>, x: int, y: int): (b: Block)
    requires IsGrid(g)
    ensures !InBounds(x, y) ==> b == Empty()
    ensures InBounds(x, y) ==> b == g[Index(x, y)]
  {
    if y < 0 || y >= HEIGHT then Empty()
    else if x < 0 || x >= WIDTH then Empty()
    else g[Index(x, y)]
  }

  /** `Board.SetStateValue`: a write outside the grid is ignored. */
  function SetStateValue(g: seq<Block>, x: int, y: int, data: Block): (r: seq<Block>)
    requires IsGrid(g)
    ensures IsGrid(r)
    ensures forall i :: 0 <= i < |g| && i != Index(x, y) ==> r[i] == g[i]
    ensures InBounds(x, y) ==> r[Index(x, y)] == data
    ensures !InBounds(x, y) ==> r == g
  {
    if y < 0 || y >= HEIGHT then g
    else if x < 0 || x >= WIDTH then g
    else g[Index(x, y) := data]
  }

  /** Every grid position is the in-bounds cell (i % WIDTH, i / WIDTH). */
  lemma CellRoundTrip(g: seq<Block>, i: int)
    requires IsGrid(g) && 0 <= i < |g|
    ensures InBounds(i % WIDTH, i / WIDTH) && Index(i % WIDTH, i / WIDTH) == i
    ensures GetStateValue(g, i % WIDTH, i / WIDTH) == g[i]
  {
  }

  /** Reading after a write sees the write exactly at an in-bounds target. */
  lemma GetAfterSet(g: seq<Block>, x: int, y: int, data: Block, x': int, y': int)
    requires IsGrid(g)
    ensures GetStateValue(SetStateValue(g, x, y, data), x', y') ==
            if InBounds(x, y) && x' == x && y' == y then data else GetStateValue(g, x', y')
  {
    if InBounds(x', y') && InBounds(x, y) && (x', y') != (x, y) {
      assert Index(x', y') != Index(x, y) by {
        if y' == y {
        } else if y' < y {
          assert Index(x', y') < y' * WIDTH + WIDTH <= Index(x, y);
        } else {
          assert Index(x, y) < y * WIDTH + WIDTH <= Index(x', y');
        }
      }
    }
  }

  // ---------------------------------------------------------------------
  // Row clearing (Board.ScanForCompleteRows)
  // ---------------------------------------------------------------------

  /** A row is complete when every one of its columns is occupied. */
  predicate RowComplete(g: seq<Block>, y: int)
    requires IsGrid(g) && 0 <= y < HEIGHT
  {
    forall x :: 0 <= x < WIDTH ==> GetStateValue(g, x, y).occupied
  }

  /** The push-down part-way: the first n flat positions from row y on have
      taken the position one row above; the rest are as in g. */
  function PartialShift(g: seq<Block>, y: int, n: int): (r: seq<Block>)
    requires IsGrid(g) && 0 <= y < HEIGHT && n <= (HEIGHT - 1) * WIDTH
    ensures IsGrid(r)
  {
    seq(WIDTH * HEIGHT, i requires 0 <= i < WIDTH * HEIGHT =>
      if y * WIDTH <= i < n then g[i + WIDTH] else g[i])
  }

  /** One push-down at row y: row u is copied into row u - 1 for
      u = y + 1 .. HEIGHT - 1, in that order. Rows y .. HEIGHT - 2 then hold
      the row above them, the top row is left as it was, and rows below y are
      untouched. */
  function ShiftDown(g: seq<Block>, y: int): (r: seq<Block>)
    requires IsGrid(g) && 0 <= y < HEIGHT
    ensures IsGrid(r)
    ensures forall x, k {:trigger GetStateValue(r, x, k)} :: 0 <= x < WIDTH && 0 <= k < HEIGHT ==>
              GetStateValue(r, x, k) ==
              if y <= k < HEIGHT - 1 then GetStateValue(g, x, k + 1) else GetStateValue(g, x, k)
  {
    PartialShift(g, y, (HEIGHT - 1) * WIDTH)
  }

  /** One copy of the push-down loop: reading cell (x, u) and writing it to
      (x, u - 1) extends the shifted prefix by one position. The source cell
      has not been written yet. */
  lemma ShiftStep(g: seq<Block>, y: int, x: int, u: int)
    requires IsGrid(g) && 0 <= y < u < HEIGHT && 0 <= x < WIDTH
    ensures var h := PartialShift(g, y, Index(x, u - 1));
            SetStateValue(h, x, u - 1, GetStateValue(h, x, u)) == PartialShift(g, y, Index(x, u - 1) + 1)
  {
    var n := Index(x, u - 1);
    var h := PartialShift(g, y, n);
    var r := SetStateValue(h, x, u - 1, GetStateValue(h, x, u));
    assert GetStateValue(h, x, u) == g[n + WIDTH];
    forall i | 0 <= i < WIDTH * HEIGHT ensures r[i] == PartialShift(g, y, n + 1)[i] {
    }
  }

  /** Row completeness after a push-down: rows y .. HEIGHT - 2 take it from
      the row above, the others keep their own. */
  lemma ShiftDownRows(g: seq<Block>, y: int, k: int)
    requires IsGrid(g) && 0 <= y < HEIGHT && 0 <= k < HEIGHT
    ensures RowComplete(ShiftDown(g, y), k) ==
            if y <= k < HEIGHT - 1 then RowComplete(g, k + 1) else RowComplete(g, k)
  {
    var k' := if y <= k < HEIGHT - 1 then k + 1 else k;
    assert forall x :: 0 <= x < WIDTH ==> GetStateValue(ShiftDown(g, y), x, k) == GetStateValue(g, x, k');
  }

  /** Number of complete rows among rows lo .. HEIGHT - 1. */
  function CompleteRows(g: seq<Block>, lo: int): (n: nat)
    requires IsGrid(g) && 0 <= lo <= HEIGHT
    decreases HEIGHT - lo
  {
    if lo == HEIGHT then 0
    else (if RowComplete(g, lo) then 1 else 0) + CompleteRows(g, lo + 1)
  }

  /** After a push-down at y, the complete rows from lo >= y on are the old
      ones from lo + 1 on, plus the top row again (it is never cleared). */
  lemma {:induction false} ShiftDownCompleteRows(g: seq<Block>, y: int, lo: int)
    requires IsGrid(g) && 0 <= y <= lo < HEIGHT
    ensures CompleteRows(ShiftDown(g, y), lo) ==
            CompleteRows(g, lo + 1) + (if RowComplete(g, HEIGHT - 1) then 1 else 0)
    decreases HEIGHT - lo
  {
    ShiftDownRows(g, y, lo);
    if lo < HEIGHT - 1 {
      ShiftDownCompleteRows(g, y, lo + 1);
    }
  }

  /** The state of the scan loop when its row variable is y: shift and look at
      the same row again while it is complete, otherwise move to the next row.
      It terminates only because the top row is not complete: the measure is
      the pair (complete rows at or above y, rows left). */
  function ScanFrom(g: seq<Block>, y: int): (r: seq<Block>)
    requires IsGrid(g) && 0 <= y <= HEIGHT && !RowComplete(g, HEIGHT - 1)
    ensures IsGrid(r) && !RowComplete(r, HEIGHT - 1)
    ensures (forall k :: 0 <= k < y ==> !RowComplete(g, k)) ==>
              forall k :: 0 <= k < HEIGHT ==> !RowComplete(r, k)
    ensures forall i :: 0 <= i < y * WIDTH ==> r[i] == g[i]
    ensures forall i :: (HEIGHT - 1) * WIDTH <= i < WIDTH * HEIGHT ==> r[i] == g[i]
    decreases CompleteRows(g, y), HEIGHT - y
  {
    if y == HEIGHT then g
    else if RowComplete(g, y) then
      ShiftDownCompleteRows(g, y, y);
      ShiftDownRows(g, y, HEIGHT - 1);
      ShiftDownBelow(g, y);
      ScanFrom(ShiftDown(g, y), y)
    else
      ScanFrom(g, y + 1)
  }

  /** A push-down at y keeps every row below y. */
  lemma ShiftDownBelow(g: seq<Block>, y: int)
    requires IsGrid(g) && 0 <= y < HEIGHT
    ensures forall k :: 0 <= k < y ==> RowComplete(ShiftDown(g, y), k) == RowComplete(g, k)
  {
    forall k | 0 <= k < y
      ensures RowComplete(ShiftDown(g, y), k) == RowComplete(g, k)
    {
      ShiftDownRows(g, y, k);
    }
  }

  /** `Board.ScanForCompleteRows` on a grid whose top row is not complete. */
  function ScanForCompleteRows(g: seq<Block>): (r: seq<Block>)
    requires IsGrid(g) && !RowComplete(g, HEIGHT - 1)
    ensures IsGrid(r)
    ensures forall k :: 0 <= k < HEIGHT ==> !RowComplete(r, k)
    ensures forall i :: (HEIGHT - 1) * WIDTH <= i < WIDTH * HEIGHT ==> r[i] == g[i]
  {
    ScanFrom(g, 0)
  }

  /** A scan that meets no complete row changes nothing. */
  lemma {:induction false} ScanFromNoComplete(g: seq<Block>, y: int)
    requires IsGrid(g) && 0 <= y <= HEIGHT && !RowComplete(g, HEIGHT - 1)
    requires forall k :: y <= k < HEIGHT ==> !RowComplete(g, k)
    ensures ScanFrom(g, y) == g
    decreases HEIGHT - y
  {
    if y < HEIGHT {
      ScanFromNoComplete(g, y + 1);
    }
  }

  /** A single complete row r is removed by exactly one push-down at r. */
  lemma {:induction false} ScanSingleCompleteRow(g: seq<Block>, r: int)
    requires IsGrid(g) && 0 <= r < HEIGHT - 1 && RowComplete(g, r)
    requires forall k :: 0 <= k < HEIGHT && k != r ==> !RowComplete(g, k)
    ensures ScanForCompleteRows(g) == ShiftDown(g, r)
  {
    var h := ShiftDown(g, r);
    forall k | r <= k < HEIGHT ensures !RowComplete(h, k) {
      ShiftDownRows(g, r, k);
    }
    ScanFromNoComplete(h, r);
    ScanUpTo(g, 0, r);
  }

  /** Rows that are not complete are passed over. */
  lemma {:induction false} ScanUpTo(g: seq<Block>, y: int, r: int)
    requires IsGrid(g) && 0 <= y <= r < HEIGHT && !RowComplete(g, HEIGHT - 1)
    requires forall k :: y <= k < r ==> !RowComplete(g, k)
    ensures ScanFrom(g, y) == ScanFrom(g, r)
    decreases r - y
  {
    if y < r {
      ScanUpTo(g, y + 1, r);
    }
  }

  // ---------------------------------------------------------------------
  // Occupied cells, and what a push-down and the scan do to their number
  // ---------------------------------------------------------------------

  /** Number of occupied blocks in s. */
  function Occupied(s: seq<Block>): (n: nat)
    ensures n <= |s|
  {
    if s == [] then 0 else (if s[0].occupied then 1 else 0) + Occupied(s[1..])
  }

  /** Counting is additive over concatenation. */
  lemma {:induction false} OccupiedConcat(a: seq<Block>, b: seq<Block>)
    ensures Occupied(a + b) == Occupied(a) + Occupied(b)
  {
    if a == [] {
      assert a + b == b;
    } else {
      assert (a + b)[1..] == a[1..] + b;
      OccupiedConcat(a[1..], b);
    }
  }

  /** Every block is counted exactly when every block is occupied. */
  lemma {:induction false} OccupiedAll(s: seq<Block>)
    ensures Occupied(s) == |s| <==> forall i :: 0 <= i < |s| ==> s[i].occupied
  {
    if s != [] {
      OccupiedAll(s[1..]);
      assert forall i :: 1 <= i < |s| ==> s[i] == s[1..][i - 1];
    }
  }

  /** The blocks of row y, from column 0 to column WIDTH - 1. */
  function Row(g: seq<Block>, y: int): (row: seq<Block>)
    requires IsGrid(g) && 0 <= y < HEIGHT
    ensures |row| == WIDTH
    ensures forall x :: 0 <= x < WIDTH ==> row[x] == GetStateValue(g, x, y)
  {
    g[y * WIDTH..(y + 1) * WIDTH]
  }

  /** A row is complete exactly when all WIDTH of its blocks are counted. */
  lemma RowCompleteCount(g: seq<Block>, y: int)
    requires IsGrid(g) && 0 <= y < HEIGHT
    ensures RowComplete(g, y) <==> Occupied(Row(g, y)) == WIDTH
  {
    OccupiedAll(Row(g, y));
  }

  /** The grid as its rows below y, row y and its rows above y. */
  lemma SplitAtRow(g: seq<Block>, y: int)
    requires IsGrid(g) && 0 <= y < HEIGHT
    ensures g == g[..y * WIDTH] + Row(g, y) + g[(y + 1) * WIDTH..]
  {
  }

  /** A push-down at y drops row y and repeats the top row. */
  lemma ShiftDownSplit(g: seq<Block>, y: int)
    requires IsGrid(g) && 0 <= y < HEIGHT
    ensures ShiftDown(g, y) == g[..y * WIDTH] + g[(y + 1) * WIDTH..] + Row(g, HEIGHT - 1)
  {
    var h := ShiftDown(g, y);
    var r := g[..y * WIDTH] + g[(y + 1) * WIDTH..] + Row(g, HEIGHT - 1);
    assert |r| == |h|;
    forall i | 0 <= i < |h| ensures h[i] == r[i] {
      CellRoundTrip(h, i);
      CellRoundTrip(g, i);
      if y * WIDTH <= i < (HEIGHT - 1) * WIDTH {
        CellRoundTrip(g, i + WIDTH);
      }
    }
  }

  /** Clearing a complete row removes its WIDTH blocks, and the top row,
      which the push-down leaves in place, is counted twice. */
  lemma ShiftDownCount(g: seq<Block>, y: int)
    requires IsGrid(g) && 0 <= y < HEIGHT && RowComplete(g, y)
    ensures Occupied(ShiftDown(g, y)) == Occupied(g) - WIDTH + Occupied(Row(g, HEIGHT - 1))
  {
    RowCompleteCount(g, y);
    SplitAtRow(g, y);
    OccupiedConcat(g[..y * WIDTH], Row(g, y));
    OccupiedConcat(g[..y * WIDTH] + Row(g, y), g[(y + 1) * WIDTH..]);
    ShiftDownSplit(g, y);
    OccupiedConcat(g[..y * WIDTH], g[(y + 1) * WIDTH..]);
    OccupiedConcat(g[..y * WIDTH] + g[(y + 1) * WIDTH..], Row(g, HEIGHT - 1));
  }

  /** The scan from row y pushes down once for every complete row at or
      above y, and each push-down takes away WIDTH blocks less those of
      the top row, which the scan keeps. */
  lemma {:induction false} ScanFromCount(g: seq<Block>, y: int)
    requires IsGrid(g) && 0 <= y <= HEIGHT && !RowComplete(g, HEIGHT - 1)
    ensures Occupied(ScanFrom(g, y)) ==
            Occupied(g) - CompleteRows(g, y) * (WIDTH - Occupied(Row(g, HEIGHT - 1)))
    decreases CompleteRows(g, y), HEIGHT - y
  {
    if y < HEIGHT {
      if RowComplete(g, y) {
        var h := ShiftDown(g, y);
        ScanShiftStep(g, y);
        ScanFromCount(h, y);
        ClearedArith(Occupied(g), Occupied(h), Occupied(ScanFrom(h, y)),
                     CompleteRows(g, y), CompleteRows(h, y), WIDTH - Occupied(Row(g, HEIGHT - 1)));
      } else {
        ScanFromCount(g, y + 1);
      }
    }
  }

  /** A scan that finds row y complete goes on from row y of the pushed-down
      grid, which has one complete row fewer from y on, the same top row and
      WIDTH blocks fewer less those of the top row. */
  lemma ScanShiftStep(g: seq<Block>, y: int)
    requires IsGrid(g) && 0 <= y < HEIGHT && !RowComplete(g, HEIGHT - 1) && RowComplete(g, y)
    ensures !RowComplete(ShiftDown(g, y), HEIGHT - 1)
    ensures ScanFrom(g, y) == ScanFrom(ShiftDown(g, y), y)
    ensures CompleteRows(ShiftDown(g, y), y) == CompleteRows(g, y) - 1
    ensures Row(ShiftDown(g, y), HEIGHT - 1) == Row(g, HEIGHT - 1)
    ensures Occupied(ShiftDown(g, y)) == Occupied(g) - WIDTH + Occupied(Row(g, HEIGHT - 1))
  {
    ShiftDownCount(g, y);
    ShiftDownCompleteRows(g, y, y);
    ShiftDownRows(g, y, HEIGHT - 1);
    assert Row(ShiftDown(g, y), HEIGHT - 1) == Row(g, HEIGHT - 1);
  }

  /** The counting step of the scan: one push-down takes d blocks away from
      og, and the c - 1 later ones (c - 1) * d more. */
  lemma ClearedArith(og: int, oh: int, os: int, c: int, ch: int, d: int)
    requires oh == og - d && ch == c - 1 && os == oh - ch * d
    ensures os == og - c * d
  {
    assert ch * d == c * d - d;
  }

  /** The whole scan removes, for every complete row, WIDTH blocks less
      those of the top row. */
  lemma ScanCount(g: seq<Block>)
    requires IsGrid(g) && !RowComplete(g, HEIGHT - 1)
    ensures Occupied(ScanForCompleteRows(g)) ==
            Occupied(g) - CompleteRows(g, 0) * (WIDTH - Occupied(Row(g, HEIGHT - 1)))
  {
    ScanFromCount(g, 0);
  }

  /** With exactly one complete row, the scan removes WIDTH blocks and adds
      back those of the top row. */
  lemma ScanSingleCount(g: seq<Block>, r: int)
    requires IsGrid(g) && 0 <= r < HEIGHT - 1 && RowComplete(g, r)
    requires forall k :: 0 <= k < HEIGHT && k != r ==> !RowComplete(g, k)
    ensures Occupied(ScanForCompleteRows(g)) == Occupied(g) - WIDTH + Occupied(Row(g, HEIGHT - 1))
  {
    ScanSingleCompleteRow(g, r);
    ShiftDownCount(g, r);
  }
}
