/**
 * The 9×9 Sudoku board as a value, its three kinds of region, and the
 * standard rule that the search is meant to keep.
 *
 * The source keeps a board as a list of nine rows; a cell is read
 * `board[y][x]` with `x` the column and `y` the row, and 0 means blank.
 */
module Board {

  /** Rows top to bottom, each a list of cells left to right. */
  type Grid = seq<seq<int>>

  /** Nine rows of nine cells. */
  predicate IsBoard(g: Grid)
  {
    |g| == 9 && forall y :: 0 <= y < 9 ==> |g[y]| == 9
  }

  /**
   * find_group: the band of three indices that `n` falls in. Any `n` outside
   * 0..5 (so also a negative one) gets the last band.
   */
  function FindGroup(n: int): (band: seq<int>)
    ensures |band| == 3 && forall k :: 0 <= k < 3 ==> 0 <= band[k] < 9
  {
    if n in [0, 1, 2] then [0, 1, 2]
    else if n in [3, 4, 5] then [3, 4, 5]
    else [6, 7, 8]
  }

  /**
   * An index of the board lies in its band, the aligned triple n / 3 * 3 ..
   * n / 3 * 3 + 2; every index outside 0..5 gets the band 6..8.
   */
  lemma FindGroupBand(n: int)
    ensures 0 <= n < 9 ==> FindGroup(n) == [n / 3 * 3, n / 3 * 3 + 1, n / 3 * 3 + 2]
    ensures !(0 <= n < 6) ==> FindGroup(n) == [6, 7, 8]
  {
  }

  function Row(g: Grid, y: int): seq<int>
    requires IsBoard(g) && 0 <= y < 9
  {
    g[y]
  }

  function Column(g: Grid, x: int): seq<int>
    requires IsBoard(g) && 0 <= x < 9
  {
    seq(9, i requires 0 <= i < 9 => g[i][x])
  }

  /**
   * The nine cells of the box holding (x, y), in the order the source visits
   * them: the rows of FindGroup(y) top to bottom, in each the columns of
   * FindGroup(x) left to right.
   */
  function Box(g: Grid, x: int, y: int): seq<int>
    requires IsBoard(g) && 0 <= x < 9 && 0 <= y < 9
  {
    seq(9, k requires 0 <= k < 9 => g[FindGroup(y)[k / 3]][FindGroup(x)[k % 3]])
  }

  /** The k-th cell of a box, counted row by row from its top-left corner. */
  lemma BoxAt(g: Grid, x: int, y: int, k: int)
    requires IsBoard(g) && 0 <= x < 9 && 0 <= y < 9 && 0 <= k < 9
    ensures Box(g, x, y)[k] == g[y / 3 * 3 + k / 3][x / 3 * 3 + k % 3]
  {
    var rows, cols := FindGroup(y), FindGroup(x);
    FindGroupBand(x);
    FindGroupBand(y);
    assert rows[k / 3] == y / 3 * 3 + k / 3 && cols[k % 3] == x / 3 * 3 + k % 3;
  }

  /** Step (a, b) of a scan over the rows of FindGroup(y) and the columns of FindGroup(x) reads box cell 3a + b. */
  lemma BoxCell(g: Grid, x: int, y: int, a: int, b: int)
    requires IsBoard(g) && 0 <= x < 9 && 0 <= y < 9 && 0 <= a < 3 && 0 <= b < 3
    ensures Box(g, x, y)[3 * a + b] == g[FindGroup(y)[a]][FindGroup(x)[b]]
  {
    assert (3 * a + b) / 3 == a && (3 * a + b) % 3 == b;
  }

  /** The k-th cell of a box is a cell of the same 3×3 block as (x, y). */
  lemma BoxMember(g: Grid, x: int, y: int, k: int) returns (col: int, row: int)
    requires IsBoard(g) && 0 <= x < 9 && 0 <= y < 9 && 0 <= k < 9
    ensures 0 <= col < 9 && 0 <= row < 9 && col / 3 == x / 3 && row / 3 == y / 3
    ensures Box(g, x, y)[k] == g[row][col]
    ensures k == row % 3 * 3 + col % 3
  {
    BoxAt(g, x, y, k);
    col, row := x / 3 * 3 + k % 3, y / 3 * 3 + k / 3;
  }

  /** Cell (x2, y2) sits in the box of (x, y) at position y2 % 3 * 3 + x2 % 3. */
  lemma SameBoxAt(g: Grid, x: int, y: int, x2: int, y2: int)
    requires IsBoard(g) && 0 <= x < 9 && 0 <= y < 9 && 0 <= x2 < 9 && 0 <= y2 < 9
    requires x / 3 == x2 / 3 && y / 3 == y2 / 3
    ensures Box(g, x, y)[y2 % 3 * 3 + x2 % 3] == g[y2][x2]
  {
    var k := y2 % 3 * 3 + x2 % 3;
    assert k / 3 == y2 % 3 && k % 3 == x2 % 3;
    assert y / 3 * 3 + y2 % 3 == y2 && x / 3 * 3 + x2 % 3 == x2;
    BoxAt(g, x, y, k);
  }

  /** The board after `board[y][x] = v`. */
  function Place(g: Grid, x: int, y: int, v: int): Grid
    requires IsBoard(g) && 0 <= x < 9 && 0 <= y < 9
  {
    g[y := g[y][x := v]]
  }

  /** Writing a digit into a blank cell and then 0 back gives the board it started from. */
  lemma PlaceUndo(g: Grid, x: int, y: int, v: int)
    requires IsBoard(g) && 0 <= x < 9 && 0 <= y < 9 && g[y][x] == 0
    ensures IsBoard(Place(g, x, y, v))
    ensures Place(Place(g, x, y, v), x, y, 0) == g
  {
    assert g[y][x := v][x := 0] == g[y];
  }

  /** Two different cells that share a row, a column or a 3×3 box. */
  predicate Peers(x1: int, y1: int, x2: int, y2: int)
  {
    (x1 != x2 || y1 != y2) &&
    (y1 == y2 || x1 == x2 || (x1 / 3 == x2 / 3 && y1 / 3 == y2 / 3))
  }

  /** The Sudoku rule: no non-zero digit occurs twice in a row, a column or a box. */
  ghost predicate NoDup(g: Grid)
    requires IsBoard(g)
  {
    forall y1, x1, y2, x2 ::
      0 <= y1 < 9 && 0 <= x1 < 9 && 0 <= y2 < 9 && 0 <= x2 < 9 &&
      Peers(x1, y1, x2, y2) && g[y1][x1] != 0
      ==> g[y1][x1] != g[y2][x2]
  }

  /** `h` differs from `g` only where `g` was blank, and there it holds a digit 1..9. */
  ghost predicate FillsOnlyBlanks(g: Grid, h: Grid)
    requires IsBoard(g) && IsBoard(h)
  {
    forall y, x :: 0 <= y < 9 && 0 <= x < 9 ==>
      h[y][x] == g[y][x] || (g[y][x] == 0 && 1 <= h[y][x] <= 9)
  }

  /** No cell is blank. */
  ghost predicate Full(g: Grid)
    requires IsBoard(g)
  {
    forall y, x :: 0 <= y < 9 && 0 <= x < 9 ==> g[y][x] != 0
  }

  // ---------------------------------------------------------------------------
  // Counting blanks: the measure that each level of the search brings down.

  function RowZeros(r: seq<int>): nat
  {
    if r == [] then 0 else (if r[0] == 0 then 1 else 0) + RowZeros(r[1..])
  }

  function GridZeros(g: Grid): nat
  {
    if g == [] then 0 else RowZeros(g[0]) + GridZeros(g[1..])
  }

  lemma {:induction false} RowZerosUpdate(r: seq<int>, x: int, v: int)
    requires 0 <= x < |r|
    ensures RowZeros(r[x := v]) ==
            RowZeros(r) - (if r[x] == 0 then 1 else 0) + (if v == 0 then 1 else 0)
  {
    if x == 0 {
      assert r[x := v][1..] == r[1..];
    } else {
      assert r[x := v][1..] == r[1..][x - 1 := v];
      RowZerosUpdate(r[1..], x - 1, v);
    }
  }

  lemma {:induction false} GridZerosUpdate(g: Grid, y: int, row: seq<int>)
    requires 0 <= y < |g|
    ensures GridZeros(g[y := row]) == GridZeros(g) - RowZeros(g[y]) + RowZeros(row)
  {
    if y == 0 {
      assert g[y := row][1..] == g[1..];
    } else {
      assert g[y := row][1..] == g[1..][y - 1 := row];
      GridZerosUpdate(g[1..], y - 1, row);
    }
  }

  /** Filling a blank cell leaves exactly one blank fewer. */
  lemma PlaceZeros(g: Grid, x: int, y: int, v: int)
    requires IsBoard(g) && 0 <= x < 9 && 0 <= y < 9 && g[y][x] == 0 && v != 0
    ensures GridZeros(Place(g, x, y, v)) == GridZeros(g) - 1
  {
    RowZerosUpdate(g[y], x, v);
    GridZerosUpdate(g, y, g[y][x := v]);
  }

  // ---------------------------------------------------------------------------
  // The board the classes mutate in place.

  /** Two boards that agree cell by cell are the same board. */
  lemma SameCells(g: Grid, h: Grid)
    requires IsBoard(g) && IsBoard(h)
    requires forall y, x :: 0 <= y < 9 && 0 <= x < 9 ==> g[y][x] == h[y][x]
    ensures g == h
  {
    assert forall y :: 0 <= y < 9 ==> g[y] == h[y];
  }

  /** Writing one cell of an array board changes its value as Place does. */
  lemma SnapshotWrite(b: array2<int>, x: int, y: int, before: Grid)
    requires b.Length0 == 9 && b.Length1 == 9 && IsBoard(before) && 0 <= x < 9 && 0 <= y < 9
    requires forall i, j :: 0 <= i < 9 && 0 <= j < 9 && (i != y || j != x) ==> b[i, j] == before[i][j]
    ensures Snapshot(b) == Place(before, x, y, b[y, x])
  {
    SameCells(Snapshot(b), Place(before, x, y, b[y, x]));
  }

  /** The value of a 9×9 array board, row by row. */
  function Snapshot(b: array2<int>): (g: Grid)
    requires b.Length0 == 9 && b.Length1 == 9
    reads b
    ensures IsBoard(g)
    ensures forall y, x :: 0 <= y < 9 && 0 <= x < 9 ==> g[y][x] == b[y, x]
  {
    seq(9, y requires 0 <= y < 9 reads b => seq(9, x requires 0 <= x < 9 reads b => b[y, x]))
  }

  /** Step (a, b) of the box scan of find_solutions and validate_cell, read from the array board. */
  lemma BoxCellOf(b: array2<int>, x: int, y: int, a: int, c: int)
    requires b.Length0 == 9 && b.Length1 == 9 && 0 <= x < 9 && 0 <= y < 9 && 0 <= a < 3 && 0 <= c < 3
    ensures Box(Snapshot(b), x, y)[3 * a + c] == b[FindGroup(y)[a], FindGroup(x)[c]]
  {
    BoxCell(Snapshot(b), x, y, a, c);
  }
}
