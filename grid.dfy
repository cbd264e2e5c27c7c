/** The playfield's occupancy and colour matrices as values, and the
    line-clear operation of `Board.check_lines` stated as functions on them. */
module Grid {

  /** `m` has exactly `h` rows of exactly `w` entries each. */
  predicate Rect<T>(m: seq<seq<T>>, w: nat, h: nat)
  {
    |m| == h && forall i :: 0 <= i < h ==> |m[i]| == w
  }

  /** `h` rows of `w` entries, all equal to `v`. */
  function Uniform<T>(w: nat, h: nat, v: T): seq<seq<T>>
  {
    seq(h, _ => seq(w, _ => v))
  }

  /** A row every cell of which is occupied (an empty row counts as full,
      as Python's `all([])` does). */
  predicate IsFull(row: seq<bool>)
  {
    forall i :: 0 <= i < |row| ==> row[i]
  }

  /** The number of full rows. */
  function CountFull(grid: seq<seq<bool>>): nat
    decreases |grid|
  {
    if |grid| == 0 then 0
    else
      var n := |grid| - 1;
      CountFull(grid[..n]) + (if IsFull(grid[n]) then 1 else 0)
  }

  /** The entries of `rows` (the grid itself, or the colour matrix zipped
      with it) whose grid row is not full, in their original order. */
  function Kept<T>(grid: seq<seq<bool>>, rows: seq<T>): seq<T>
    requires |grid| == |rows|
    decreases |grid|
  {
    if |grid| == 0 then []
    else
      var n := |grid| - 1;
      Kept(grid[..n], rows[..n]) + (if IsFull(grid[n]) then [] else [rows[n]])
  }

  /** The indices of the rows that are not full, in increasing order. */
  function Survivors(grid: seq<seq<bool>>): seq<nat>
    decreases |grid|
  {
    if |grid| == 0 then []
    else
      var n := |grid| - 1;
      Survivors(grid[..n]) + (if IsFull(grid[n]) then [] else [n])
  }

  /** The occupancy matrix after a line clear: one empty row on top for each
      full row removed, then the surviving rows. */
  function ClearedGrid(grid: seq<seq<bool>>, w: nat): seq<seq<bool>>
  {
    Uniform(w, CountFull(grid), false) + Kept(grid, grid)
  }

  /** The colour matrix after a line clear: one background row on top for
      each full row removed, then the colour rows of the surviving rows. */
  function ClearedColors<C>(grid: seq<seq<bool>>, colors: seq<seq<C>>, w: nat, blank: C): seq<seq<C>>
    requires |grid| == |colors|
  {
    Uniform(w, CountFull(grid), blank) + Kept(grid, colors)
  }

  // ---------------------------------------------------------------------
  // Lemmas

  /** One more row of the scan: the prefix of length i + 1 adds row i. */
  lemma ScanStep<T>(grid: seq<seq<bool>>, rows: seq<T>, i: nat)
    requires |grid| == |rows| && i < |grid|
    ensures CountFull(grid[..i + 1]) == CountFull(grid[..i]) + (if IsFull(grid[i]) then 1 else 0)
    ensures Kept(grid[..i + 1], rows[..i + 1]) ==
      Kept(grid[..i], rows[..i]) + (if IsFull(grid[i]) then [] else [rows[i]])
  {
    assert grid[..i + 1][..i] == grid[..i] && rows[..i + 1][..i] == rows[..i];
  }

  /** One more blank row on top. */
  lemma UniformCons<T>(w: nat, h: nat, v: T)
    ensures [seq(w, _ => v)] + Uniform(w, h, v) == Uniform(w, h + 1, v)
  {
  }

  /** Every row is either counted as full or survives. */
  lemma {:induction false} KeptLength<T>(grid: seq<seq<bool>>, rows: seq<T>)
    requires |grid| == |rows|
    ensures |Kept(grid, rows)| == |Survivors(grid)|
    ensures |Kept(grid, rows)| + CountFull(grid) == |grid|
    decreases |grid|
  {
    if |grid| > 0 {
      var n := |grid| - 1;
      KeptLength(grid[..n], rows[..n]);
    }
  }

  /** The surviving rows are exactly the non-full rows, in strictly
      increasing order of their original index. */
  lemma {:induction false} SurvivorsAreNonFullInOrder(grid: seq<seq<bool>>)
    ensures forall j :: 0 <= j < |Survivors(grid)| ==>
      Survivors(grid)[j] < |grid| && !IsFull(grid[Survivors(grid)[j]])
    ensures forall j, k :: 0 <= j < k < |Survivors(grid)| ==> Survivors(grid)[j] < Survivors(grid)[k]
    ensures forall i :: 0 <= i < |grid| && !IsFull(grid[i]) ==> i in Survivors(grid)
    decreases |grid|
  {
    if |grid| > 0 {
      var n := |grid| - 1;
      var pre := grid[..n];
      SurvivorsAreNonFullInOrder(pre);
      assert forall i :: 0 <= i < n ==> pre[i] == grid[i];
    }
  }

  /** The `j`-th kept entry is the entry of the `j`-th surviving row: each
      surviving grid row keeps its own colour row. */
  lemma {:induction false} KeptAt<T>(grid: seq<seq<bool>>, rows: seq<T>, j: nat)
    requires |grid| == |rows|
    requires j < |Kept(grid, rows)|
    ensures |Survivors(grid)| == |Kept(grid, rows)|
    ensures Survivors(grid)[j] < |rows| && Kept(grid, rows)[j] == rows[Survivors(grid)[j]]
    decreases |grid|
  {
    KeptLength(grid, rows);
    var n := |grid| - 1;
    KeptLength(grid[..n], rows[..n]);
    SurvivorsAreNonFullInOrder(grid[..n]);
    if j < |Kept(grid[..n], rows[..n])| {
      KeptAt(grid[..n], rows[..n], j);
    }
  }

  /** With no full row nothing is counted and every row is kept. */
  lemma {:induction false} NoFullRowKeepsAll<T>(grid: seq<seq<bool>>, rows: seq<T>)
    requires |grid| == |rows|
    requires forall i :: 0 <= i < |grid| ==> !IsFull(grid[i])
    ensures CountFull(grid) == 0
    ensures Kept(grid, rows) == rows
    decreases |grid|
  {
    if |grid| > 0 {
      var n := |grid| - 1;
      NoFullRowKeepsAll(grid[..n], rows[..n]);
      assert rows[..n] + [rows[n]] == rows;
    }
  }

  /** When some row is full, at least one row is counted. */
  lemma {:induction false} FullRowCounted(grid: seq<seq<bool>>, i: nat)
    requires i < |grid| && IsFull(grid[i])
    ensures CountFull(grid) > 0
    decreases |grid|
  {
    var n := |grid| - 1;
    if i < n {
      FullRowCounted(grid[..n], i);
    }
  }

  /** The count is the number of indices whose row is full. */
  lemma {:induction false} CountFullIsNumberOfFullRows(grid: seq<seq<bool>>)
    ensures CountFull(grid) == |set i | 0 <= i < |grid| && IsFull(grid[i])|
    decreases |grid|
  {
    if |grid| > 0 {
      var n := |grid| - 1;
      var pre := grid[..n];
      CountFullIsNumberOfFullRows(pre);
      var before := set i | 0 <= i < |pre| && IsFull(pre[i]);
      var all := set i | 0 <= i < |grid| && IsFull(grid[i]);
      if IsFull(grid[n]) {
        assert all == before + {n};
      } else {
        assert all == before;
      }
    }
  }

  /** A full-row count of zero means there is no full row. */
  lemma {:induction false} ZeroCountNoFullRow(grid: seq<seq<bool>>)
    requires CountFull(grid) == 0
    ensures forall i :: 0 <= i < |grid| ==> !IsFull(grid[i])
  {
    forall i | 0 <= i < |grid| ensures !IsFull(grid[i]) {
      if IsFull(grid[i]) {
        FullRowCounted(grid, i);
      }
    }
  }

  /** A line clear leaves exactly `|grid|` rows of width `w`; its first
      `CountFull(grid)` rows are empty (background colour), and below them
      come the surviving rows, each still paired with its own colour row. */
  lemma ClearShape<C>(grid: seq<seq<bool>>, colors: seq<seq<C>>, w: nat, h: nat, blank: C)
    requires Rect(grid, w, h) && Rect(colors, w, h)
    ensures Rect(ClearedGrid(grid, w), w, h)
    ensures Rect(ClearedColors(grid, colors, w, blank), w, h)
    ensures |Survivors(grid)| == h - CountFull(grid)
    ensures forall j :: 0 <= j < |Survivors(grid)| ==> Survivors(grid)[j] < h
    ensures forall r :: 0 <= r < CountFull(grid) ==>
      (forall c :: 0 <= c < w ==> !ClearedGrid(grid, w)[r][c]) &&
      (forall c :: 0 <= c < w ==> ClearedColors(grid, colors, w, blank)[r][c] == blank)
    ensures forall r :: CountFull(grid) <= r < h ==>
      ClearedGrid(grid, w)[r] == grid[Survivors(grid)[r - CountFull(grid)]] &&
      ClearedColors(grid, colors, w, blank)[r] == colors[Survivors(grid)[r - CountFull(grid)]]
  {
    var k := CountFull(grid);
    KeptLength(grid, grid);
    KeptLength(grid, colors);
    SurvivorsAreNonFullInOrder(grid);
    forall r | k <= r < h
      ensures ClearedGrid(grid, w)[r] == grid[Survivors(grid)[r - k]]
      ensures ClearedColors(grid, colors, w, blank)[r] == colors[Survivors(grid)[r - k]]
    {
      KeptAt(grid, grid, r - k);
      KeptAt(grid, colors, r - k);
    }
  }

  /** With no full row a line clear changes nothing. */
  lemma ClearWithoutFullRow<C>(grid: seq<seq<bool>>, colors: seq<seq<C>>, w: nat, blank: C)
    requires |grid| == |colors|
    requires forall i :: 0 <= i < |grid| ==> !IsFull(grid[i])
    ensures CountFull(grid) == 0
    ensures ClearedGrid(grid, w) == grid
    ensures ClearedColors(grid, colors, w, blank) == colors
  {
    NoFullRowKeepsAll(grid, grid);
    NoFullRowKeepsAll(grid, colors);
  }

  /** On a grid at least one cell wide, a second line clear finds no full
      row and changes neither the grid nor the colours: clearing is
      idempotent. */
  lemma ClearIdempotent<C>(grid: seq<seq<bool>>, colors: seq<seq<C>>, w: nat, h: nat, blank: C)
    requires Rect(grid, w, h) && Rect(colors, w, h) && w >= 1
    ensures CountFull(ClearedGrid(grid, w)) == 0
    ensures ClearedGrid(ClearedGrid(grid, w), w) == ClearedGrid(grid, w)
    ensures |ClearedGrid(grid, w)| == |ClearedColors(grid, colors, w, blank)|
    ensures ClearedColors(ClearedGrid(grid, w), ClearedColors(grid, colors, w, blank), w, blank)
      == ClearedColors(grid, colors, w, blank)
  {
    var k := CountFull(grid);
    var g := ClearedGrid(grid, w);
    ClearShape(grid, colors, w, h, blank);
    KeptLength(grid, grid);
    SurvivorsAreNonFullInOrder(grid);
    forall r | 0 <= r < |g| ensures !IsFull(g[r]) {
      if r < k {
        assert !g[r][0];
      } else {
        KeptAt(grid, grid, r - k);
      }
    }
    NoFullRowKeepsAll(g, g);
    ZeroCountNoFullRow(g);
    ClearWithoutFullRow(g, ClearedColors(grid, colors, w, blank), w, blank);
  }
}
