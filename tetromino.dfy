/** The active piece: its kind, rotation, anchor (the top-left cell of its
    bitmap, in grid coordinates) and its timing state. The board it is
    tested against or locked into is passed to each operation; the clock is
    passed in as `now` (milliseconds). */
module Pieces {
  import opened Config
  import opened Grid
  import opened Placement
  import opened Playfield

  class Tetromino {
    const kind: Kind
    const tables: Tables
    /** The colour the piece locks with. */
    const color: Color
    /** The level whose fall delay `ResetFallDelay` restores. */
    const level: nat
    var x: int
    var y: int
    var rotation: int
    /** When the piece last stepped sideways. */
    var lastMove: int
    /** When the piece last descended by gravity. */
    var lastFall: int
    var fallingDelay: nat

    ghost predicate Valid()
      reads this
    {
      WellFormed(tables) && 0 <= rotation < 4 &&
      color == tables.colors[kind] && level < |tables.levelSpeeds|
    }

    /** The bitmap of the current rotation; it occupies at least one cell. */
    function Shape(): (s: Shape)
      reads this
      requires Valid()
      ensures HasCell(s)
    {
      tables.shapes[kind][rotation]
    }

    /** The grid coordinates of the piece's occupied cells: exactly the
        occupied bitmap cells shifted by the anchor, at least one of them. */
    function GetCells(): (cells: seq<Point>)
      reads this
      requires Valid()
      ensures forall p :: p in cells <==>
        exists r, c :: 0 <= r < |Shape()| && 0 <= c < |Shape()[r]| && Shape()[r][c] &&
          p == Point(x + c, y + r)
      ensures |cells| > 0
    {
      ShapeCellsAll(Shape(), x, y);
      ShapeCells(Shape(), x, y)
    }

    /** The piece, shifted by (dx, dy) and shown in `rot` (or in its own
        rotation when `rot` is None), fits the board. */
    function IsValidPosition(board: Board, dx: int, dy: int, rot: Option<int>): (ok: bool)
      reads this, board
      requires Valid() && board.Valid()
      requires rot.Some? ==> 0 <= rot.value < 4
      ensures var s := tables.shapes[kind][if rot.Some? then rot.value else rotation];
        ok == Fits(s, board.grid, board.width, board.height, x + dx, y + dy)
      ensures var s := tables.shapes[kind][if rot.Some? then rot.value else rotation];
        !ok <==> (exists r, c :: 0 <= r < |s| && 0 <= c < |s[r]| && s[r][c] &&
                   (x + dx + c < 0 || x + dx + c >= board.width || y + dy + r >= board.height ||
                    (y + dy + r >= 0 && board.grid[y + dy + r][x + dx + c])))
    {
      var s := tables.shapes[kind][if rot.Some? then rot.value else rotation];
      FitsIff(s, board.grid, board.width, board.height, x + dx, y + dy);
      Fits(s, board.grid, board.width, board.height, x + dx, y + dy)
    }

    /** A new piece of `kind` at the spawn position of `board`, timed from
        `now`, falling at the speed of `level`. */
    constructor (kind: Kind, board: Board, level: nat, tables: Tables, now: int)
      requires WellFormed(tables) && level < |tables.levelSpeeds|
      ensures Valid()
      ensures this.kind == kind && this.tables == tables && this.level == level
      ensures x == (if kind == O then board.width / 2 - 1 else board.width / 2 - 2)
      ensures y == -1 && rotation == 0
      ensures lastMove == now && lastFall == now
      ensures fallingDelay == tables.levelSpeeds[level]
    {
      this.kind := kind;
      this.tables := tables;
      this.color := tables.colors[kind];
      this.level := level;
      x := if kind == O then board.width / 2 - 1 else board.width / 2 - 2;
      y := -1;
      rotation := 0;
      lastMove := now;
      lastFall := now;
      fallingDelay := tables.levelSpeeds[level];
    }

    /** Turns by `direction` quarter turns, trying the kick offsets of the
        transition in order: the first offset at which the turned piece fits
        is taken; when none fits, rotation and position are restored. */
    method Rotate(board: Board, direction: int := 1) returns (ok: bool)
      requires Valid() && board.Valid()
      modifies this
      ensures Valid()
      ensures lastMove == old(lastMove) && lastFall == old(lastFall) && fallingDelay == old(fallingDelay)
      ensures var next := NextRotation(old(rotation), direction);
        var kicks := KickList(tables, kind, old(rotation), next);
        var found := FirstFit(tables.shapes[kind][next], board.grid, board.width, board.height,
                              old(x), old(y), kicks);
        ok == found.Some? &&
        (ok ==> rotation == next && x == old(x) + kicks[found.value].x && y == old(y) + kicks[found.value].y) &&
        (!ok ==> rotation == old(rotation) && x == old(x) && y == old(y))
      ensures ok ==> IsValidPosition(board, 0, 0, None)
    {
      var oldRotation, oldX, oldY := rotation, x, y;
      rotation := NextRotation(rotation, direction);
      var kicks := KickList(tables, kind, oldRotation, rotation);
      ghost var shape := tables.shapes[kind][rotation];
      var i := 0;
      while i < |kicks|
        invariant 0 <= i <= |kicks|
        invariant Valid() && rotation == NextRotation(oldRotation, direction)
        invariant lastMove == old(lastMove) && lastFall == old(lastFall) && fallingDelay == old(fallingDelay)
        invariant forall j :: 0 <= j < i ==>
          !Fits(shape, board.grid, board.width, board.height, oldX + kicks[j].x, oldY + kicks[j].y)
      {
        x := oldX + kicks[i].x;
        y := oldY + kicks[i].y;
        if IsValidPosition(board, 0, 0, None) {
          return true;
        }
        i := i + 1;
      }
      rotation := oldRotation;
      x, y := oldX, oldY;
      return false;
    }

    /** Writes the piece's in-bounds cells into the board with its colour and
        reports whether any cell lies above the visible top. */
    method Lock(board: Board) returns (lockedAbove: bool)
      requires Valid() && board.Valid()
      modifies board
      ensures board.Valid()
      ensures board.grid == LockedGrid(old(board.grid), GetCells())
      ensures board.colors == PaintedColors(old(board.colors), GetCells(), color)
      ensures lockedAbove == AnyAboveTop(GetCells())
    {
      var cells := GetCells();
      LockNothing(board.grid, board.colors, color);
      lockedAbove := false;
      var i := 0;
      while i < |cells|
        invariant 0 <= i <= |cells|
        invariant board.Valid()
        invariant board.grid == LockedGrid(old(board.grid), cells[..i])
        invariant board.colors == PaintedColors(old(board.colors), cells[..i], color)
        invariant lockedAbove == AnyAboveTop(cells[..i])
      {
        var p := cells[i];
        assert cells[..i + 1] == cells[..i] + [p];
        LockGridStep(old(board.grid), board.width, board.height, cells[..i], p);
        PaintStep(old(board.colors), board.width, board.height, cells[..i], p, color);
        AboveTopStep(cells[..i], p);
        if p.y < 0 {
          lockedAbove := true;
        } else if 0 <= p.x < board.width && 0 <= p.y < board.height {
          board.grid := board.grid[p.y := board.grid[p.y][p.x := true]];
          board.colors := board.colors[p.y := board.colors[p.y][p.x := color]];
        }
        i := i + 1;
      }
      assert cells[..|cells|] == cells;
    }

    /** Moves by (dx, dy) when the shifted piece fits. A vertical step is
        applied at once; a horizontal step only when at least `moveDelay`
        has passed since the last one (the call still reports success when
        the step is held back). */
    method Move(board: Board, dx: int, dy: int, now: int) returns (ok: bool)
      requires Valid() && board.Valid()
      modifies this
      ensures Valid()
      ensures ok == old(IsValidPosition(board, dx, dy, None))
      ensures rotation == old(rotation) && lastFall == old(lastFall) && fallingDelay == old(fallingDelay)
      ensures y == (if ok then old(y) + dy else old(y))
      ensures var stepped := ok && dx != 0 && now - old(lastMove) >= tables.moveDelay;
        x == (if stepped then old(x) + dx else old(x)) &&
        lastMove == (if stepped then now else old(lastMove))
      ensures ok && (dx == 0 || dy == 0) && old(IsValidPosition(board, 0, 0, None)) ==>
        IsValidPosition(board, 0, 0, None)
    {
      if IsValidPosition(board, dx, dy, None) {
        if dx != 0 {
          if now - lastMove >= tables.moveDelay {
            x := x + dx;
            lastMove := now;
          }
        }
        y := y + dy;
        return true;
      }
      return false;
    }

    /** One gravity tick: nothing happens before `fallingDelay` has passed
        since the last descent; after that the piece descends one row when it
        can, and otherwise locks into the board. Returns (locked, locked with
        a cell above the visible top). */
    method Fall(board: Board, now: int) returns (locked: bool, lockedAbove: bool)
      requires Valid() && board.Valid()
      modifies this, board
      ensures Valid() && board.Valid()
      ensures x == old(x) && rotation == old(rotation)
      ensures lastMove == old(lastMove) && fallingDelay == old(fallingDelay)
      ensures now - old(lastFall) < fallingDelay ==>
        !locked && !lockedAbove && y == old(y) && lastFall == old(lastFall) &&
        board.grid == old(board.grid) && board.colors == old(board.colors)
      ensures now - old(lastFall) >= fallingDelay && old(IsValidPosition(board, 0, 1, None)) ==>
        !locked && !lockedAbove && y == old(y) + 1 && lastFall == now &&
        board.grid == old(board.grid) && board.colors == old(board.colors)
      ensures now - old(lastFall) >= fallingDelay && !old(IsValidPosition(board, 0, 1, None)) ==>
        locked && y == old(y) && lastFall == old(lastFall) &&
        lockedAbove == AnyAboveTop(GetCells()) &&
        board.grid == LockedGrid(old(board.grid), GetCells()) &&
        board.colors == PaintedColors(old(board.colors), GetCells(), color)
    {
      if now - lastFall >= fallingDelay {
        var moved := Move(board, 0, 1, now);
        if !moved {
          lockedAbove := Lock(board);
          return true, lockedAbove;
        }
        lastFall := now;
      }
      return false, false;
    }

    /** Drops the piece straight down as far as it fits, then locks it and
        returns whether it locked with a cell above the visible top. */
    method HardDrop(board: Board, now: int) returns (lockedAbove: bool)
      requires Valid() && board.Valid()
      modifies this, board
      ensures Valid() && board.Valid()
      ensures x == old(x) && rotation == old(rotation) && y >= old(y)
      ensures lastMove == old(lastMove) && lastFall == old(lastFall) && fallingDelay == old(fallingDelay)
      ensures forall row :: old(y) < row <= y ==>
        Fits(Shape(), old(board.grid), board.width, board.height, x, row)
      ensures !Fits(Shape(), old(board.grid), board.width, board.height, x, y + 1)
      ensures board.grid == LockedGrid(old(board.grid), GetCells())
      ensures board.colors == PaintedColors(old(board.colors), GetCells(), color)
      ensures lockedAbove == AnyAboveTop(GetCells())
    {
      var moved := Move(board, 0, 1, now);
      while moved
        invariant Valid() && board.Valid()
        invariant board.grid == old(board.grid) && board.colors == old(board.colors)
        invariant x == old(x) && rotation == old(rotation) && y >= old(y)
        invariant lastMove == old(lastMove) && lastFall == old(lastFall) && fallingDelay == old(fallingDelay)
        invariant forall row :: old(y) < row <= y ==>
          Fits(Shape(), board.grid, board.width, board.height, x, row)
        invariant moved ==> y > old(y)
        invariant !moved ==> !Fits(Shape(), board.grid, board.width, board.height, x, y + 1)
        decreases board.height - y, moved
      {
        FitsAboveFloor(Shape(), board.grid, board.width, board.height, x, y);
        moved := Move(board, 0, 1, now);
      }
      lockedAbove := Lock(board);
    }

    /** Puts the piece back at the spawn position of `board`: rotation 0,
        row `y`, and the column centring the bitmap (one further left for
        every kind but O). */
    method ResetPosition(board: Board, y: int := -1)
      modifies this
      ensures x == (if kind == O then board.width / 2 - 1 else board.width / 2 - 2)
      ensures this.y == y && rotation == 0
      ensures lastMove == old(lastMove) && lastFall == old(lastFall) && fallingDelay == old(fallingDelay)
    {
      if kind == O {
        x := board.width / 2 - 1;
      } else {
        x := board.width / 2 - 2;
      }
      this.y := y;
      rotation := 0;
    }

    /** Moves the piece to the spawn position of `newBoard`, optionally
        emptying that board first and optionally locking the piece into it. */
    method SwapBoard(newBoard: Board, y: int := -1, boardReset: bool := false, lock: bool := false)
      requires Valid() && newBoard.Valid()
      modifies this, newBoard
      ensures Valid() && newBoard.Valid()
      ensures x == (if kind == O then newBoard.width / 2 - 1 else newBoard.width / 2 - 2)
      ensures this.y == y && rotation == 0
      ensures lastMove == old(lastMove) && lastFall == old(lastFall) && fallingDelay == old(fallingDelay)
      ensures var w, h := newBoard.width, newBoard.height;
        var grid := if boardReset then Uniform(w, h, false) else old(newBoard.grid);
        var colors := if boardReset then Uniform(w, h, newBoard.blockColor) else old(newBoard.colors);
        newBoard.grid == (if lock then LockedGrid(grid, GetCells()) else grid) &&
        newBoard.colors == (if lock then PaintedColors(colors, GetCells(), color) else colors)
    {
      ResetPosition(newBoard, y);
      if boardReset {
        newBoard.Reset();
      }
      if lock {
        var _ := Lock(newBoard);
      }
    }

    /** Sets the delay between gravity steps (used for soft drop). */
    method ChangeFallDelay(newDelay: nat)
      modifies this
      ensures fallingDelay == newDelay
      ensures x == old(x) && y == old(y) && rotation == old(rotation)
      ensures lastMove == old(lastMove) && lastFall == old(lastFall)
    {
      fallingDelay := newDelay;
    }

    /** Restores the delay between gravity steps to the piece's level speed. */
    method ResetFallDelay()
      requires Valid()
      modifies this
      ensures Valid()
      ensures fallingDelay == tables.levelSpeeds[level]
      ensures x == old(x) && y == old(y) && rotation == old(rotation)
      ensures lastMove == old(lastMove) && lastFall == old(lastFall)
    {
      fallingDelay := tables.levelSpeeds[level];
    }
  }
}
