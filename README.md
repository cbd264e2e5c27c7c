# Falling-block playfield: board and active piece

This project models the game-state core of a Tetris clone written in Python
with pygame: the playfield `Board` (an occupancy matrix `grid` and a parallel
colour matrix `colors`, with its line clear and reset) and the active piece
`Tetromino` (collision test, rotation with wall-kick search, throttled
movement, gravity and lock timing, hard drop, locking into the grid, spawn
position, moving to another board, and fall-delay changes).

Layout:

- `config.dfy` (module `Config`): the static tables the code imports from
  `config.py` (piece bitmaps, colours, the two wall-kick tables, level fall
  delays, the horizontal move delay). `config.py` is not part of this model,
  so the tables are a `Tables` value handed to each piece. Every result holds
  for all tables satisfying `WellFormed`: each kind has a colour and four
  rotation bitmaps, and each bitmap has at least one occupied cell.
- `grid.dfy` (module `Grid`): the line clear of `check_lines` as functions on
  matrix values, with the lemmas about it.
- `placement.dfy` (module `Placement`): the piece-against-grid geometry.
  `Fits` is the nested scan of `is_valid_position`. `ShapeCells` is
  `get_cells`. `LockedGrid`/`PaintedColors` give the grid after `lock`.
  `FirstFit` is `rotate`'s ordered kick search.
- `board.dfy` (module `Playfield`): `class Board` with `grid` and `colors`
  as sequence fields that its methods reassign.
- `tetromino.dfy` (module `Pieces`): `class Tetromino` with the fields `x`,
  `y`, `rotation`, `lastMove`, `lastFall` and `fallingDelay`, updated in place.
  Its methods take the board as an argument and the clock as `now`.

Modelling choices:

- Grid cells are `bool`. The source stores only `0` and `1` and tests them
  for truthiness.
- Times are integers (milliseconds). Delays are non-negative integers.
- The source's `(rotation + direction) % 4` floors. With the positive
  modulus 4 it agrees with Dafny's `%`.
- `//` on the board width is floor division of a non-negative number. It
  agrees with Dafny's `/`.
- A row of width 0 counts as full, as Python's `all([])` is true. That is
  why idempotence of the line clear needs a width of at least 1.
- The code looks up the kick table for every kind, including `O`
  (tetromino.py:68-69), and the model does the same.

## Model

| member | source | states |
|---|---|---|
| `Config.NextRotation` | tetromino.py:64 | the new rotation is in 0..3 and congruent to old + direction mod 4; +1 from 3 wraps to 0, and -1 from 0 wraps to 3 (never negative) |
| `Placement.FitsIff` | tetromino.py:32-49 | the collision test is false iff some occupied bitmap cell lands at x < 0, x >= width or y >= height, or lands with y >= 0 on an occupied grid cell |
| `Placement.AboveTopFitsAnyGrid` | tetromino.py:43-48 | cells above the visible top never collide: a placement whose cells are all between the walls and above row 0 fits any grid |
| `Placement.FitsIffCellsFree` | tetromino.py:32-49 | the collision test agrees with the cell list: a placement fits iff every cell `get_cells` reports is free |
| `Placement.ShapeCellsMembers` | tetromino.py:112-119 | the cell list holds exactly the occupied bitmap cells shifted by the anchor (x + column, y + row) |
| `Placement.FitsAboveFloor` | tetromino.py:106-108 | a fitting placement of a non-empty bitmap has its anchor row above the floor (y < height), so a hard drop stops |
| `Placement.ShapeCellsAll` | tetromino.py:112-119 | a point is in the cell list iff it is an occupied bitmap cell shifted by the anchor; a bitmap with an occupied cell gives a non-empty list |
| `Placement.FirstFit` | tetromino.py:71-77 | the kick search yields the index of a kick offset at which the turned piece fits, and no earlier offset fits; None only when no offset fits |
| `Placement.AboveTopIff` | tetromino.py:84-93 | lock's flag: the cell list has a cell above the top iff some occupied bitmap row lands at y < 0 |
| `Placement.LockCellwise` | tetromino.py:84-93 | locking keeps the height x width dimensions; every in-bounds listed cell becomes occupied with the piece colour; every other grid and colour entry is unchanged |
| `Placement.LockTwice` | tetromino.py:84-93 | locking the same cells again changes neither matrix (lock is deterministic and idempotent) |
| `Placement.LockedPlacementCollides` | tetromino.py:84-93 | after a fitting piece with a visible cell is locked, the same placement no longer fits |
| `Grid.CountFullIsNumberOfFullRows` | board.py:24-29 | the count returned is the number of rows in which every cell is occupied |
| `Grid.ZeroCountNoFullRow` | board.py:24-29 | a count of 0 means no row is full |
| `Grid.KeptLength` | board.py:24-36 | the rows removed plus the rows kept make up the whole grid, so as many empty rows are inserted as rows were removed |
| `Grid.SurvivorsAreNonFullInOrder` | board.py:24-27 | the kept rows are exactly the non-full rows, in strictly increasing original order |
| `Grid.KeptAt` | board.py:24-36 | the j-th kept grid row and the j-th kept colour row come from the same original row |
| `Grid.ClearShape` | board.py:24-36 | after a clear both matrices have height rows of width cells; the top k rows (k = rows removed) are empty with the background colour; the rest are the surviving rows with their own colour rows, in order |
| `Grid.ClearWithoutFullRow` | board.py:24-38 | with no full row the clear returns 0 and leaves the grid and colours unchanged |
| `Grid.ClearIdempotent` | board.py:24-38 | on a board at least one cell wide, a second clear finds no full row and changes neither the grid nor the colour matrix |
| `Playfield.Board.constructor` | board.py:11-17 | a new board is height x width, all cells empty, all colours the background colour |
| `Playfield.Board.CheckLines` | board.py:19-38 | returns the number of full rows; the new grid and colours are the cleared matrices of the old ones; both matrices keep their dimensions |
| `Playfield.Board.Reset` | board.py:78-80 | afterwards the board is all empty with the background colour, at the same dimensions |
| `Config.KickList` | tetromino.py:68-69 | the I piece reads the I table and every other kind the default table, at the (old, new) rotation pair; a pair missing from the table gives the single zero offset |
| `Pieces.Tetromino.Shape` | tetromino.py:149-151 | the bitmap of the piece's kind at its current rotation has at least one occupied cell |
| `Pieces.Tetromino.GetCells` | tetromino.py:112-119 | the cells are exactly the occupied cells of the current bitmap shifted by (x, y), and there is at least one |
| `Pieces.Tetromino.IsValidPosition` | tetromino.py:32-49 | the bitmap of the override rotation (or the current one) shifted by (dx, dy) is invalid iff some occupied cell lands at x < 0, x >= width or y >= height, or lands with y >= 0 on an occupied grid cell |
| `Pieces.Tetromino.constructor` | tetromino.py:16-30 | a new piece sits at the spawn position (row -1, rotation 0), both timestamps are `now`, and the fall delay is the level's speed |
| `Pieces.Tetromino.Rotate` | tetromino.py:60-82 | returns whether some kick offset fits; on success the rotation is (old + direction) mod 4 and the position is the old one plus the first fitting offset of the I or default table (falling back to the zero offset); on failure rotation, x and y are exactly as before |
| `Pieces.Tetromino.Lock` | tetromino.py:84-93 | the board's matrices become the locked/painted matrices of the piece's cells; the result is whether any cell lies above the visible top |
| `Pieces.Tetromino.Move` | tetromino.py:95-104 | returns exactly the validity of the shifted position; when false nothing changes; when true y grows by dy, and x grows by dx (with lastMove := now) only if dx is non-zero and moveDelay has passed |
| `Pieces.Tetromino.Fall` | tetromino.py:51-58 | before the fall delay, (false, false) and nothing changes; else if the piece fits one row lower it descends and lastFall := now, (false, false); otherwise it locks and returns (true, above-top flag) |
| `Pieces.Tetromino.HardDrop` | tetromino.py:106-110 | the piece descends through rows that all fit to the first row from which one more step does not fit, keeps its column and rotation, then locks and returns lock's above-top flag |
| `Pieces.Tetromino.ResetPosition` | tetromino.py:153-159 | rotation 0, the given row, and column width/2 - 1 for O or width/2 - 2 for every other kind |
| `Pieces.Tetromino.SwapBoard` | tetromino.py:161-168 | the piece takes the spawn position of the new board; that board is first emptied if requested, then the piece is locked into it if requested |
| `Pieces.Tetromino.ChangeFallDelay` | tetromino.py:170-171 | the fall delay becomes the given value; position and timestamps are unchanged |
| `Pieces.Tetromino.ResetFallDelay` | tetromino.py:173-174 | the fall delay returns to the level's speed; position and timestamps are unchanged |

## Left out

- Rendering: `Tetromino._draw_block` and `draw` (tetromino.py:121-147), including the ghost-piece loop that moves `y` temporarily. Also `Board.draw`, `draw_lines` and `draw_blocks` (board.py:40-76) and the board's `x`, `y` and `block_size`. They only draw.
- main.py: the pygame window, frame loop and keyboard handling. It is outside the core.
- The pygame clock: float seconds become an integer `now` parameter. Delays are abstract non-negative integers.
- The contents of `config.py` (bitmaps, kick offsets, colours, level speeds, move delay, background colour): config.py is not part of this model. The tables are parameters constrained only by `WellFormed`. For that reason no concrete scenario with a particular piece (an I piece landing on row 19, say) is proved.
- `Pieces.Tetromino.Move`: the "still valid afterwards" guarantee covers only axis moves (dx = 0 or dy = 0). With both non-zero and the horizontal step held back, the source moves `y` by `dy` after testing only the diagonal target. No caller makes such a move (main.py:68-73).
- The object aliasing of `swap_board` (tetromino.py:161-168), where the piece stores a reference to another board: here every operation takes the board as an argument.
- `is_valid_position`'s rotation override is modelled only for rotations 0..3. The source would index the bitmap list with whatever it is given. No caller passes one.
- Bag randomizer, hold, DAS/ARR, levels and scoring do not appear in the modelled code (the `random` import at tetromino.py:1 is unused).
