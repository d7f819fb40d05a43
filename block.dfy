/** One board cell (Block.cs): an occupancy flag and a color. */
module Blocks {

  /** The colors a cell can carry. `Black` is the all-zero vector a default
      `Block` holds; the other six are the piece palette. */
  datatype Color = Black | Red | Cyan | Blue | Magenta | Yellow | LawnGreen

  /** The struct `Block`; its constructor takes the color first, then the flag. */
  datatype Block = Block(color: Color, occupied: bool)

  /** `Block.EMPTY`: the default struct value, which is never occupied. */
  function Empty(): (b: Block)
    ensures !b.occupied
  {
    Block(Black, false)
  }

  /** `Block.ConvertFromBoolArray`: despite its name it ignores the flags it is
      given and returns one unoccupied block of `color` per input entry. */
  method ConvertFromBoolArray(bools: array<bool>, color: Color) returns (output: array<Block>)
    ensures fresh(output) && output.Length == bools.Length
    ensures forall i :: 0 <= i < output.Length ==> !output[i].occupied && output[i].color == color
  {
    output := new Block[bools.Length];
    var i := 0;
    while i < bools.Length
      invariant 0 <= i <= bools.Length
      invariant forall j :: 0 <= j < i ==> output[j] == Block(color, false)
    {
      output[i] := Block(color, false);
      i := i + 1;
    }
  }
}
