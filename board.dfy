/** The playfield: an occupancy matrix and a parallel colour matrix of
    `height` rows by `width` columns, updated in place by line clears (here)
    and by locking pieces (module Pieces). */
module Playfield {
  import opened Config
  import opened Grid

  class Board {
    const width: nat
    const height: nat
    /** The background colour of an empty cell. */
    const blockColor: Color
    var grid: seq<seq<bool>>
    var colors: seq<seq<Color>>

    /** Both matrices are `height` rows of `width` cells. */
    ghost predicate Valid()
      reads this
    {
      Rect(grid, width, height) && Rect(colors, width, height)
    }

    /** A new board is all empty, every cell in the background colour. */
    constructor (width: nat, height: nat, blockColor: Color)
      ensures Valid()
      ensures this.width == width && this.height == height && this.blockColor == blockColor
      ensures forall r, c :: 0 <= r < height && 0 <= c < width ==>
        !grid[r][c] && colors[r][c] == blockColor
    {
      this.width := width;
      this.height := height;
      this.blockColor := blockColor;
      grid := Uniform(width, height, false);
      colors := Uniform(width, height, blockColor);
    }

    /** Removes every full row, shifts the remaining rows (with their
        colours) down to the bottom in their original order, fills the top
        with as many empty rows as were removed, and returns that number. */
    method CheckLines() returns (linesCleared: nat)
      requires Valid()
      modifies this
      ensures Valid()
      ensures linesCleared == CountFull(old(grid))
      ensures grid == ClearedGrid(old(grid), width)
      ensures colors == ClearedColors(old(grid), old(colors), width, blockColor)
    {
      var rows, colorRows := grid, colors;
      linesCleared := 0;
      var newGrid: seq<seq<bool>> := [];
      var newColors: seq<seq<Color>> := [];
      var i := 0;
      while i < height
        invariant 0 <= i <= height
        invariant linesCleared == CountFull(rows[..i])
        invariant newGrid == Kept(rows[..i], rows[..i])
        invariant newColors == Kept(rows[..i], colorRows[..i])
      {
        ScanStep(rows, rows, i);
        ScanStep(rows, colorRows, i);
        if !IsFull(rows[i]) {
          newGrid := newGrid + [rows[i]];
          newColors := newColors + [colorRows[i]];
        } else {
          linesCleared := linesCleared + 1;
        }
        i := i + 1;
      }
      assert rows[..height] == rows && colorRows[..height] == colorRows;
      var kept, keptColors := newGrid, newColors;
      var j := 0;
      while j < linesCleared
        invariant 0 <= j <= linesCleared
        invariant newGrid == Uniform(width, j, false) + kept
        invariant newColors == Uniform(width, j, blockColor) + keptColors
      {
        newGrid := [seq(width, _ => false)] + newGrid;
        newColors := [seq(width, _ => blockColor)] + newColors;
        UniformCons(width, j, false);
        UniformCons(width, j, blockColor);
        j := j + 1;
      }
      ClearShape(rows, colorRows, width, height, blockColor);
      grid := newGrid;
      colors := newColors;
    }

    /** Empties the board: every cell unoccupied, in the background colour. */
    method Reset()
      requires Valid()
      modifies this
      ensures Valid()
      ensures grid == Uniform(width, height, false)
      ensures colors == Uniform(width, height, blockColor)
    {
      grid := Uniform(width, height, false);
      colors := Uniform(width, height, blockColor);
    }
  }
}
