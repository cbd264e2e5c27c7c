/** The piece-against-grid geometry of `Tetromino`: the collision test of
    `is_valid_position`, the cell list of `get_cells`, the grid update of
    `lock`, and the ordered wall-kick search of `rotate`, as functions of a
    bitmap, an anchor (the bitmap's top-left cell) and a grid value. */
module Placement {
  import opened Config
  import opened Grid

  datatype Option<T> = None | Some(value: T)

  /** One occupied cell of a piece may stand at (x, y): inside the side
      walls, above the floor and, when on the visible board (y >= 0), on a
      free grid cell. Rows above the top never collide. */
  predicate CellFree(grid: seq<seq<bool>>, w: nat, h: nat, x: int, y: int)
    requires Rect(grid, w, h)
  {
    !(x < 0 || x >= w || y >= h) && !(y >= 0 && grid[y][x])
  }

  /** The column scan of one bitmap row whose first cell lands at (x, y). */
  predicate RowFits(row: seq<bool>, grid: seq<seq<bool>>, w: nat, h: nat, x: int, y: int)
    requires Rect(grid, w, h)
    decreases |row|
  {
    |row| == 0 ||
    ((!row[0] || CellFree(grid, w, h, x, y)) && RowFits(row[1..], grid, w, h, x + 1, y))
  }

  /** The row-by-row scan of `is_valid_position`: the bitmap anchored at
      (x, y) fits the grid. */
  predicate Fits(shape: Shape, grid: seq<seq<bool>>, w: nat, h: nat, x: int, y: int)
    requires Rect(grid, w, h)
    decreases |shape|
  {
    |shape| == 0 ||
    (RowFits(shape[0], grid, w, h, x, y) && Fits(shape[1..], grid, w, h, x, y + 1))
  }

  /** The cells of one bitmap row, left to right, first cell at (x, y). */
  function RowCells(row: seq<bool>, x: int, y: int): seq<Point>
    decreases |row|
  {
    if |row| == 0 then []
    else (if row[0] then [Point(x, y)] else []) + RowCells(row[1..], x + 1, y)
  }

  /** `get_cells`: the grid coordinates of the occupied bitmap cells, row by
      row, for the bitmap anchored at (x, y). */
  function ShapeCells(shape: Shape, x: int, y: int): seq<Point>
    decreases |shape|
  {
    if |shape| == 0 then []
    else RowCells(shape[0], x, y) + ShapeCells(shape[1..], x, y + 1)
  }

  /** The occupancy matrix after `lock`: every in-bounds cell of `cells`
      becomes occupied; nothing else changes. */
  function LockedGrid(grid: seq<seq<bool>>, cells: seq<Point>): seq<seq<bool>>
  {
    seq(|grid|, r requires 0 <= r < |grid| =>
      seq(|grid[r]|, c requires 0 <= c < |grid[r]| => grid[r][c] || Point(c, r) in cells))
  }

  /** The colour matrix after `lock`: every in-bounds cell of `cells` takes
      the piece colour; nothing else changes. */
  function PaintedColors<C>(colors: seq<seq<C>>, cells: seq<Point>, color: C): seq<seq<C>>
  {
    seq(|colors|, r requires 0 <= r < |colors| =>
      seq(|colors[r]|, c requires 0 <= c < |colors[r]| =>
        if Point(c, r) in cells then color else colors[r][c]))
  }

  /** Some cell lies above the visible top. */
  predicate AnyAboveTop(cells: seq<Point>)
  {
    exists i :: 0 <= i < |cells| && cells[i].y < 0
  }

  /** `rotate`'s search: the index of the first kick offset at which the
      bitmap, anchored at (x, y) plus that offset, fits; None when no offset
      does. */
  function FirstFit(shape: Shape, grid: seq<seq<bool>>, w: nat, h: nat, x: int, y: int, kicks: seq<Point>)
    : (k: Option<nat>)
    requires Rect(grid, w, h)
    ensures k.Some? ==>
      k.value < |kicks| && Fits(shape, grid, w, h, x + kicks[k.value].x, y + kicks[k.value].y)
    ensures k.Some? ==> forall j :: 0 <= j < k.value ==>
      !Fits(shape, grid, w, h, x + kicks[j].x, y + kicks[j].y)
    ensures k.None? ==> forall j :: 0 <= j < |kicks| ==>
      !Fits(shape, grid, w, h, x + kicks[j].x, y + kicks[j].y)
    decreases |kicks|
  {
    if |kicks| == 0 then None
    else if Fits(shape, grid, w, h, x + kicks[0].x, y + kicks[0].y) then Some(0)
    else
      match FirstFit(shape, grid, w, h, x, y, kicks[1..])
      case None => None
      case Some(k) => Some(k + 1)
  }

  // ---------------------------------------------------------------------
  // Lemmas

  lemma {:induction false} RowFitsAll(row: seq<bool>, grid: seq<seq<bool>>, w: nat, h: nat, x: int, y: int)
    requires Rect(grid, w, h)
    ensures RowFits(row, grid, w, h, x, y) <==>
      forall c :: 0 <= c < |row| && row[c] ==> CellFree(grid, w, h, x + c, y)
    decreases |row|
  {
    if |row| > 0 {
      RowFitsAll(row[1..], grid, w, h, x + 1, y);
      assert forall c :: 1 <= c < |row| ==> row[1..][c - 1] == row[c];
    }
  }

  lemma {:induction false} FitsAll(shape: Shape, grid: seq<seq<bool>>, w: nat, h: nat, x: int, y: int)
    requires Rect(grid, w, h)
    ensures Fits(shape, grid, w, h, x, y) <==>
      forall r, c :: 0 <= r < |shape| && 0 <= c < |shape[r]| && shape[r][c] ==>
        CellFree(grid, w, h, x + c, y + r)
    decreases |shape|
  {
    if |shape| > 0 {
      RowFitsAll(shape[0], grid, w, h, x, y);
      FitsAll(shape[1..], grid, w, h, x, y + 1);
      assert forall r :: 1 <= r < |shape| ==> shape[1..][r - 1] == shape[r];
    }
  }

  /** `is_valid_position` is false exactly when some occupied bitmap cell
      lands left or right of the walls, at or below the floor, or on an
      occupied grid cell of the visible board. */
  lemma FitsIff(shape: Shape, grid: seq<seq<bool>>, w: nat, h: nat, x: int, y: int)
    requires Rect(grid, w, h)
    ensures !Fits(shape, grid, w, h, x, y) <==>
      exists r, c :: 0 <= r < |shape| && 0 <= c < |shape[r]| && shape[r][c] &&
        (x + c < 0 || x + c >= w || y + r >= h || (y + r >= 0 && grid[y + r][x + c]))
  {
    FitsAll(shape, grid, w, h, x, y);
  }

  /** Cells above the top never collide: a placement whose occupied cells
      all lie above the visible top and between the walls fits any grid. */
  lemma AboveTopFitsAnyGrid(shape: Shape, grid: seq<seq<bool>>, w: nat, h: nat, x: int, y: int)
    requires Rect(grid, w, h)
    requires forall r, c :: 0 <= r < |shape| && 0 <= c < |shape[r]| && shape[r][c] ==>
      0 <= x + c < w && y + r < 0
    ensures Fits(shape, grid, w, h, x, y)
  {
    FitsAll(shape, grid, w, h, x, y);
  }

  lemma {:induction false} RowCellsMembers(row: seq<bool>, x: int, y: int, p: Point)
    ensures p in RowCells(row, x, y) <==>
      exists c :: 0 <= c < |row| && row[c] && p == Point(x + c, y)
    decreases |row|
  {
    if |row| > 0 {
      RowCellsMembers(row[1..], x + 1, y, p);
      if p in RowCells(row[1..], x + 1, y) {
        var c :| 0 <= c < |row[1..]| && row[1..][c] && p == Point(x + 1 + c, y);
        assert row[c + 1];
      }
      if exists c :: 0 <= c < |row| && row[c] && p == Point(x + c, y) {
        var c :| 0 <= c < |row| && row[c] && p == Point(x + c, y);
        if c > 0 {
          assert row[1..][c - 1];
        }
      }
    }
  }

  /** `get_cells` lists exactly the occupied bitmap cells, shifted by the
      anchor. */
  lemma {:induction false} ShapeCellsMembers(shape: Shape, x: int, y: int, p: Point)
    ensures p in ShapeCells(shape, x, y) <==>
      exists r, c :: 0 <= r < |shape| && 0 <= c < |shape[r]| && shape[r][c] && p == Point(x + c, y + r)
    decreases |shape|
  {
    if |shape| > 0 {
      RowCellsMembers(shape[0], x, y, p);
      ShapeCellsMembers(shape[1..], x, y + 1, p);
      if p in ShapeCells(shape[1..], x, y + 1) {
        var r, c :| 0 <= r < |shape[1..]| && 0 <= c < |shape[1..][r]| && shape[1..][r][c] &&
          p == Point(x + c, y + 1 + r);
        assert shape[r + 1][c];
      }
      if exists r, c :: 0 <= r < |shape| && 0 <= c < |shape[r]| && shape[r][c] && p == Point(x + c, y + r) {
        var r, c :| 0 <= r < |shape| && 0 <= c < |shape[r]| && shape[r][c] && p == Point(x + c, y + r);
        if r > 0 {
          assert shape[1..][r - 1][c];
        }
      }
    }
  }

  /** `ShapeCellsMembers` for every point at once. */
  lemma ShapeCellsAll(shape: Shape, x: int, y: int)
    ensures forall p :: p in ShapeCells(shape, x, y) <==>
      exists r, c :: 0 <= r < |shape| && 0 <= c < |shape[r]| && shape[r][c] && p == Point(x + c, y + r)
    ensures HasCell(shape) ==> |ShapeCells(shape, x, y)| > 0
  {
    forall p {
      ShapeCellsMembers(shape, x, y, p);
    }
    if HasCell(shape) {
      var r, c :| 0 <= r < |shape| && 0 <= c < |shape[r]| && shape[r][c];
      assert Point(x + c, y + r) in ShapeCells(shape, x, y);
    }
  }

  /** The collision test agrees with the cell list: a placement fits exactly
      when every cell `get_cells` reports is free. */
  lemma FitsIffCellsFree(shape: Shape, grid: seq<seq<bool>>, w: nat, h: nat, x: int, y: int)
    requires Rect(grid, w, h)
    ensures Fits(shape, grid, w, h, x, y) <==>
      forall p :: p in ShapeCells(shape, x, y) ==> CellFree(grid, w, h, p.x, p.y)
  {
    FitsAll(shape, grid, w, h, x, y);
    forall p | p in ShapeCells(shape, x, y) {
      ShapeCellsMembers(shape, x, y, p);
    }
    forall r, c | 0 <= r < |shape| && 0 <= c < |shape[r]| && shape[r][c]
      ensures Point(x + c, y + r) in ShapeCells(shape, x, y)
    {
      ShapeCellsMembers(shape, x, y, Point(x + c, y + r));
    }
  }

  /** A fitting placement lies above the floor: an occupied cell in bitmap
      row r means y + r < h. */
  lemma FitsAboveFloor(shape: Shape, grid: seq<seq<bool>>, w: nat, h: nat, x: int, y: int)
    requires Rect(grid, w, h) && HasCell(shape)
    requires Fits(shape, grid, w, h, x, y)
    ensures y < h
  {
    FitsAll(shape, grid, w, h, x, y);
  }

  /** `lock` above the top: the cell list has a cell above the visible top
      exactly when some occupied bitmap row lands above it. */
  lemma AboveTopIff(shape: Shape, x: int, y: int)
    ensures AnyAboveTop(ShapeCells(shape, x, y)) <==>
      exists r, c :: 0 <= r < |shape| && 0 <= c < |shape[r]| && shape[r][c] && y + r < 0
  {
    var cells := ShapeCells(shape, x, y);
    if AnyAboveTop(cells) {
      var i :| 0 <= i < |cells| && cells[i].y < 0;
      ShapeCellsMembers(shape, x, y, cells[i]);
    }
    if exists r, c :: 0 <= r < |shape| && 0 <= c < |shape[r]| && shape[r][c] && y + r < 0 {
      var r, c :| 0 <= r < |shape| && 0 <= c < |shape[r]| && shape[r][c] && y + r < 0;
      ShapeCellsMembers(shape, x, y, Point(x + c, y + r));
      var i :| 0 <= i < |cells| && cells[i] == Point(x + c, y + r);
    }
  }

  /** Locking keeps the grid's dimensions and writes only in-bounds cells of
      the list: each such cell is occupied with the given colour, and every
      other entry keeps its value. */
  lemma LockCellwise<C>(grid: seq<seq<bool>>, colors: seq<seq<C>>, w: nat, h: nat, cells: seq<Point>, color: C)
    requires Rect(grid, w, h) && Rect(colors, w, h)
    ensures Rect(LockedGrid(grid, cells), w, h)
    ensures Rect(PaintedColors(colors, cells, color), w, h)
    ensures forall p :: p in cells && 0 <= p.x < w && 0 <= p.y < h ==>
      LockedGrid(grid, cells)[p.y][p.x] && PaintedColors(colors, cells, color)[p.y][p.x] == color
    ensures forall r, c :: 0 <= r < h && 0 <= c < w && Point(c, r) !in cells ==>
      LockedGrid(grid, cells)[r][c] == grid[r][c] &&
      PaintedColors(colors, cells, color)[r][c] == colors[r][c]
  {
  }

  /** Locking no cell changes nothing. */
  lemma LockNothing<C>(grid: seq<seq<bool>>, colors: seq<seq<C>>, color: C)
    ensures LockedGrid(grid, []) == grid
    ensures PaintedColors(colors, [], color) == colors
  {
    var g := LockedGrid(grid, []);
    forall r | 0 <= r < |grid| ensures g[r] == grid[r] { }
    var k := PaintedColors(colors, [], color);
    forall r | 0 <= r < |colors| ensures k[r] == colors[r] { }
  }

  lemma LockGridStep(grid: seq<seq<bool>>, w: nat, h: nat, cells: seq<Point>, p: Point)
    requires Rect(grid, w, h)
    ensures var g := LockedGrid(grid, cells);
      Rect(g, w, h) &&
      LockedGrid(grid, cells + [p]) ==
        (if 0 <= p.x < w && 0 <= p.y < h then g[p.y := g[p.y][p.x := true]] else g)
  {
    var g, g2 := LockedGrid(grid, cells), LockedGrid(grid, cells + [p]);
    var upd := if 0 <= p.x < w && 0 <= p.y < h then g[p.y := g[p.y][p.x := true]] else g;
    forall r | 0 <= r < h ensures g2[r] == upd[r] {
      forall c | 0 <= c < w ensures g2[r][c] == upd[r][c] {
        assert Point(c, r) in cells + [p] <==> Point(c, r) in cells || Point(c, r) == p;
      }
    }
  }

  lemma PaintStep<C>(colors: seq<seq<C>>, w: nat, h: nat, cells: seq<Point>, p: Point, color: C)
    requires Rect(colors, w, h)
    ensures var k := PaintedColors(colors, cells, color);
      Rect(k, w, h) &&
      PaintedColors(colors, cells + [p], color) ==
        (if 0 <= p.x < w && 0 <= p.y < h then k[p.y := k[p.y][p.x := color]] else k)
  {
    var k, k2 := PaintedColors(colors, cells, color), PaintedColors(colors, cells + [p], color);
    var upd := if 0 <= p.x < w && 0 <= p.y < h then k[p.y := k[p.y][p.x := color]] else k;
    forall r | 0 <= r < h ensures k2[r] == upd[r] {
      forall c | 0 <= c < w ensures k2[r][c] == upd[r][c] {
        assert Point(c, r) in cells + [p] <==> Point(c, r) in cells || Point(c, r) == p;
      }
    }
  }

  lemma AboveTopStep(cells: seq<Point>, p: Point)
    ensures AnyAboveTop(cells + [p]) <==> AnyAboveTop(cells) || p.y < 0
  {
    var all := cells + [p];
    if AnyAboveTop(all) {
      var j :| 0 <= j < |all| && all[j].y < 0;
      if j < |cells| {
        assert cells[j].y < 0;
      }
    }
    if AnyAboveTop(cells) {
      var j :| 0 <= j < |cells| && cells[j].y < 0;
      assert all[j].y < 0;
    }
    if p.y < 0 {
      assert all[|cells|].y < 0;
    }
  }

  /** Locking the same cells a second time changes nothing. */
  lemma LockTwice<C>(grid: seq<seq<bool>>, colors: seq<seq<C>>, cells: seq<Point>, color: C)
    ensures LockedGrid(LockedGrid(grid, cells), cells) == LockedGrid(grid, cells)
    ensures PaintedColors(PaintedColors(colors, cells, color), cells, color) == PaintedColors(colors, cells, color)
  {
    var g := LockedGrid(grid, cells);
    forall r | 0 <= r < |g| ensures LockedGrid(g, cells)[r] == g[r] { }
    var k := PaintedColors(colors, cells, color);
    forall r | 0 <= r < |k| ensures PaintedColors(k, cells, color)[r] == k[r] { }
  }

  /** After a piece locks where it fits, with some cell on the visible
      board, the same placement no longer fits: its own cells now collide. */
  lemma LockedPlacementCollides(shape: Shape, grid: seq<seq<bool>>, w: nat, h: nat, x: int, y: int)
    requires Rect(grid, w, h)
    requires Fits(shape, grid, w, h, x, y)
    requires exists r, c :: 0 <= r < |shape| && 0 <= c < |shape[r]| && shape[r][c] && y + r >= 0
    ensures Rect(LockedGrid(grid, ShapeCells(shape, x, y)), w, h)
    ensures !Fits(shape, LockedGrid(grid, ShapeCells(shape, x, y)), w, h, x, y)
  {
    var locked := LockedGrid(grid, ShapeCells(shape, x, y));
    var r, c :| 0 <= r < |shape| && 0 <= c < |shape[r]| && shape[r][c] && y + r >= 0;
    FitsAll(shape, grid, w, h, x, y);
    assert CellFree(grid, w, h, x + c, y + r);
    ShapeCellsMembers(shape, x, y, Point(x + c, y + r));
    assert locked[y + r][x + c];
    FitsIff(shape, locked, w, h, x, y);
  }
}
