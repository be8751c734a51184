/**
 * The engine's read-only queries: find_blank_cell, find_solutions,
 * validate_cell and is_solved (find_group is Board.FindGroup).
 *
 * Each query is given twice: a specification function on the board's value
 * (FirstBlank, Candidates, CellValid, GridSolved) and a method that does what
 * the source does, loop for loop, on the array board (FindBlankCell,
 * FindSolutions, ValidateCell, IsSolved), proved to compute that function.
 */
module Queries {
  import opened Wrappers
  import opened Board

  // ---------------------------------------------------------------------------
  // find_blank_cell

  /** Cell (x1, y1) comes strictly before (x2, y2) when rows are scanned top to bottom, columns left to right. */
  predicate Before(x1: int, y1: int, x2: int, y2: int)
  {
    y1 < y2 || (y1 == y2 && x1 < x2)
  }

  /** The first blank cell, as (column, row), at or after (x, y) in row-major order. */
  function FirstBlankFrom(g: Grid, x: int, y: int): (r: Option<(int, int)>)
    requires IsBoard(g) && 0 <= x <= 9 && 0 <= y <= 9
    decreases 9 - y, 9 - x
    ensures r.Some? ==>
      0 <= r.value.0 < 9 && 0 <= r.value.1 < 9 && g[r.value.1][r.value.0] == 0 &&
      !Before(r.value.0, r.value.1, x, y) &&
      forall j, i :: 0 <= i < 9 && 0 <= j < 9 && !Before(j, i, x, y) && Before(j, i, r.value.0, r.value.1)
        ==> g[i][j] != 0
    ensures r.None? ==>
      forall j, i :: 0 <= i < 9 && 0 <= j < 9 && !Before(j, i, x, y) ==> g[i][j] != 0
  {
    if y == 9 then None
    else if x == 9 then FirstBlankFrom(g, 0, y + 1)
    else if g[y][x] == 0 then Some((x, y))
    else FirstBlankFrom(g, x + 1, y)
  }

  /**
   * find_blank_cell: the first 0 in row-major order as (column, row); None
   * exactly when the board has no blank.
   */
  function FirstBlank(g: Grid): (r: Option<(int, int)>)
    requires IsBoard(g)
    ensures r.Some? ==> 0 <= r.value.0 < 9 && 0 <= r.value.1 < 9 && g[r.value.1][r.value.0] == 0
    ensures r.Some? ==>
      forall j, i :: 0 <= i < 9 && 0 <= j < 9 && Before(j, i, r.value.0, r.value.1) ==> g[i][j] != 0
    ensures r.None? <==> Full(g)
  {
    FirstBlankFrom(g, 0, 0)
  }

  /** A blank cell with no blank before it is the one FirstBlank finds. */
  lemma FirstBlankUnique(g: Grid, x: int, y: int)
    requires IsBoard(g) && 0 <= x < 9 && 0 <= y < 9 && g[y][x] == 0
    requires forall j, i :: 0 <= i < 9 && 0 <= j < 9 && Before(j, i, x, y) ==> g[i][j] != 0
    ensures FirstBlank(g) == Some((x, y))
  {
    var r := FirstBlank(g);
    assert r.Some?;
    var (a, b) := r.value;
    assert !Before(a, b, x, y);
    assert !Before(x, y, a, b);
  }

  /** find_blank_cell as the source runs it: two nested scans that return at the first 0. */
  method FindBlankCell(board: array2<int>) returns (r: Option<(int, int)>)
    requires board.Length0 == 9 && board.Length1 == 9
    ensures r == FirstBlank(Snapshot(board))
  {
    ghost var g := Snapshot(board);
    for i := 0 to 9
      invariant forall x, y :: 0 <= y < i && 0 <= x < 9 ==> g[y][x] != 0
    {
      for j := 0 to 9
        invariant forall x, y :: 0 <= y < 9 && 0 <= x < 9 && Before(x, y, j, i) ==> g[y][x] != 0
      {
        if board[i, j] == 0 {
          FirstBlankUnique(g, j, i);
          return Some((j, i));
        }
      }
    }
    return None;
  }

  // ---------------------------------------------------------------------------
  // find_solutions

  /** The digits 1..hi-1 that are not in `used`, ascending: the list comprehension over range(1, hi). */
  function MissingDigits(used: set<int>, hi: int): (r: seq<int>)
    decreases hi
    ensures forall k :: 0 <= k < |r| ==> 1 <= r[k] < hi && r[k] !in used
    ensures forall d :: d in r <==> 1 <= d < hi && d !in used
  {
    if hi <= 1 then []
    else MissingDigits(used, hi - 1) + (if hi - 1 in used then [] else [hi - 1])
  }

  /** Strictly increasing from left to right. */
  predicate Ascending(s: seq<int>)
  {
    forall i, j :: 0 <= i < j < |s| ==> s[i] < s[j]
  }

  /** The comprehension keeps range order: the missing digits come out strictly ascending. */
  lemma {:induction false} MissingAscending(used: set<int>, hi: int)
    decreases hi
    ensures Ascending(MissingDigits(used, hi))
  {
    if hi > 1 {
      MissingAscending(used, hi - 1);
      var below := MissingDigits(used, hi - 1);
      var r := MissingDigits(used, hi);
      assert r == below + (if hi - 1 in used then [] else [hi - 1]);
      forall i, j | 0 <= i < j < |r|
        ensures r[i] < r[j]
      {
        if j >= |below| {
          assert below[i] in below;
        }
      }
    }
  }

  /** The non-zero digits of the cell's column, row and box, duplicates collapsed. */
  function Used(g: Grid, x: int, y: int): set<int>
    requires IsBoard(g) && 0 <= x < 9 && 0 <= y < 9
  {
    set n | n in Column(g, x) + Row(g, y) + Box(g, x, y) && n != 0
  }

  /**
   * find_solutions: the digits 1..9 in ascending order that occur in neither
   * the column, the row nor the box of (x, y). The bound of range(1, 10) is
   * written |g| + 1 (9 + 1 on a board) so that the verifier does not unroll
   * the comprehension digit by digit wherever a candidate list is mentioned.
   */
  function Candidates(g: Grid, x: int, y: int): (r: seq<int>)
    requires IsBoard(g) && 0 <= x < 9 && 0 <= y < 9
    ensures forall k :: 0 <= k < |r| ==> 1 <= r[k] <= 9
    ensures forall d :: d in r <==> 1 <= d <= 9 && d !in Used(g, x, y)
  {
    MissingDigits(Used(g, x, y), |g| + 1)
  }

  /** The candidates come in ascending order, as range(1, 10) yields them. */
  lemma CandidatesAscending(g: Grid, x: int, y: int)
    requires IsBoard(g) && 0 <= x < 9 && 0 <= y < 9
    ensures Ascending(Candidates(g, x, y))
  {
    MissingAscending(Used(g, x, y), |g| + 1);
  }

  /** A digit is a candidate exactly when it is in neither the column, the row nor the box of the cell. */
  lemma CandidateMeaning(g: Grid, x: int, y: int, d: int)
    requires IsBoard(g) && 0 <= x < 9 && 0 <= y < 9
    ensures d in Candidates(g, x, y) <==>
      1 <= d <= 9 && d !in Column(g, x) && d !in Row(g, y) && d !in Box(g, x, y)
  {
    assert d in Column(g, x) + Row(g, y) + Box(g, x, y) <==>
      d in Column(g, x) || d in Row(g, y) || d in Box(g, x, y);
  }

  /**
   * The non-zero values of a region in the order they are scanned: the lists
   * col_nums, row_nums and group_nums of find_solutions.
   */
  function NonZeros(s: seq<int>): seq<int>
  {
    if s == [] then []
    else
      var front, last := s[..|s| - 1], s[|s| - 1];
      if last == 0 then NonZeros(front) else NonZeros(front) + [last]
  }

  /** The list holds exactly the non-zero values of the region. */
  lemma {:induction false} NonZerosMembers(s: seq<int>)
    ensures forall n :: n in NonZeros(s) <==> n != 0 && n in s
  {
    if s != [] {
      var front, last := s[..|s| - 1], s[|s| - 1];
      NonZerosMembers(front);
      assert s == front + [last];
    }
  }

  /** Scanning one more cell appends it, unless it is a 0. */
  lemma NonZerosSnoc(s: seq<int>, k: int)
    requires 0 <= k < |s|
    ensures NonZeros(s[..k + 1]) == if s[k] == 0 then NonZeros(s[..k]) else NonZeros(s[..k]) + [s[k]]
  {
    assert s[..k + 1][..k] == s[..k];
  }

  /** The set built from the three lists of non-zero digits is Used. */
  lemma UsedFromRegions(g: Grid, x: int, y: int)
    requires IsBoard(g) && 0 <= x < 9 && 0 <= y < 9
    ensures (set n | n in NonZeros(Column(g, x)) + NonZeros(Row(g, y)) + NonZeros(Box(g, x, y))) == Used(g, x, y)
  {
    var col, row, box := Column(g, x), Row(g, y), Box(g, x, y);
    NonZerosMembers(col);
    NonZerosMembers(row);
    NonZerosMembers(box);
    forall n
      ensures n in NonZeros(col) + NonZeros(row) + NonZeros(box) <==> n in Used(g, x, y)
    {
      assert n in NonZeros(col) + NonZeros(row) + NonZeros(box) <==>
        n in NonZeros(col) || n in NonZeros(row) || n in NonZeros(box);
      assert n in col + row + box <==> n in col || n in row || n in box;
    }
  }

  /**
   * find_solutions as the source runs it: collect the non-zero digits of the
   * column, the row and the box, make a set of them, keep the digits 1..9
   * that are not in it.
   */
  method FindSolutions(board: array2<int>, x: int, y: int) returns (possible: seq<int>)
    requires board.Length0 == 9 && board.Length1 == 9 && 0 <= x < 9 && 0 <= y < 9
    ensures possible == Candidates(Snapshot(board), x, y)
  {
    ghost var g := Snapshot(board);
    ghost var col, row := Column(g, x), Row(g, y);
    var colNums := [];
    for z := 0 to 9
      invariant colNums == NonZeros(col[..z])
    {
      NonZerosSnoc(col, z);
      if board[z, x] != 0 {
        colNums := colNums + [board[z, x]];
      }
    }
    var rowNums := [];
    for j := 0 to 9
      invariant rowNums == NonZeros(row[..j])
    {
      NonZerosSnoc(row, j);
      if board[y, j] != 0 {
        rowNums := rowNums + [board[y, j]];
      }
    }
    var groupNums := BoxNumbers(board, x, y);
    assert col[..9] == col && row[..9] == row;
    var numbers := set n | n in colNums + rowNums + groupNums;
    UsedFromRegions(g, x, y);
    possible := [];
    for n := 1 to 10
      invariant possible == MissingDigits(numbers, n)
    {
      if n !in numbers {
        possible := possible + [n];
      }
    }
  }

  /** The box part of find_solutions: the non-zero cells of the rows of find_group(y), in the columns of find_group(x). */
  method BoxNumbers(board: array2<int>, x: int, y: int) returns (groupNums: seq<int>)
    requires board.Length0 == 9 && board.Length1 == 9 && 0 <= x < 9 && 0 <= y < 9
    ensures groupNums == NonZeros(Box(Snapshot(board), x, y))
  {
    ghost var box := Box(Snapshot(board), x, y);
    var xGroup := FindGroup(x);
    var yGroup := FindGroup(y);
    groupNums := [];
    for a := 0 to 3
      invariant groupNums == NonZeros(box[..3 * a])
    {
      for b := 0 to 3
        invariant groupNums == NonZeros(box[..3 * a + b])
      {
        var i, j := yGroup[a], xGroup[b];
        BoxCellOf(board, x, y, a, b);
        NonZerosSnoc(box, 3 * a + b);
        if board[i, j] != 0 {
          groupNums := groupNums + [board[i, j]];
        }
      }
    }
    assert box[..9] == box;
  }

  // ---------------------------------------------------------------------------
  // validate_cell and is_solved

  /**
   * Some non-zero digit occurs exactly twice in the region: the only tally
   * validate_cell rejects. A digit seen three or more times is not a pair.
   */
  ghost predicate HasPair(region: seq<int>)
  {
    exists d :: d != 0 && multiset(region)[d] == 2
  }

  /** validate_cell: no non-zero digit has a tally of exactly 2 in the cell's row, column or box. */
  ghost predicate CellValid(g: Grid, x: int, y: int)
    requires IsBoard(g) && 0 <= x < 9 && 0 <= y < 9
  {
    !HasPair(Row(g, y)) && !HasPair(Column(g, x)) && !HasPair(Box(g, x, y))
  }

  /** is_solved: no blank anywhere, and every cell validates. */
  ghost predicate GridSolved(g: Grid)
    requires IsBoard(g)
  {
    Full(g) && forall x, y :: 0 <= x < 9 && 0 <= y < 9 ==> CellValid(g, x, y)
  }

  /** `counts.get(k, 0) + 1` stored back under k. */
  function Tally(counts: map<int, int>, k: int): map<int, int>
  {
    counts[k := (if k in counts then counts[k] else 0) + 1]
  }

  /**
   * The dictionary validate_cell builds from a region scanned left to right:
   * each non-zero value seen is tallied, a 0 is skipped.
   */
  function TallyOf(s: seq<int>): map<int, int>
  {
    if s == [] then map[]
    else
      var front, last := s[..|s| - 1], s[|s| - 1];
      if last == 0 then TallyOf(front) else Tally(TallyOf(front), last)
  }

  /** Scanning one more cell of a region tallies it, unless it is a 0. */
  lemma TallyOfSnoc(s: seq<int>, k: int)
    requires 0 <= k < |s|
    ensures TallyOf(s[..k + 1]) == if s[k] == 0 then TallyOf(s[..k]) else Tally(TallyOf(s[..k]), s[k])
  {
    assert s[..k + 1][..k] == s[..k];
  }

  /** The tally holds exactly the non-zero values of the region, each with the number of times it occurs. */
  lemma {:induction false} TallyOfCounts(s: seq<int>)
    ensures forall d :: d in TallyOf(s) ==> d != 0 && d in s && TallyOf(s)[d] == multiset(s)[d]
    ensures forall d :: d != 0 && d in s ==> d in TallyOf(s)
  {
    if s != [] {
      var front, last := s[..|s| - 1], s[|s| - 1];
      TallyOfCounts(front);
      assert s == front + [last];
      assert multiset(s) == multiset(front) + multiset{last};
      forall d | d != 0 && d in s
        ensures d in TallyOf(s)
      {
        if d != last {
          assert d in front;
        }
      }
    }
  }

  lemma KeyOf(m: map<int, int>, v: int) returns (k: int)
    requires v in m.Values
    ensures k in m && m[k] == v
  {
    if forall j :: j in m ==> m[j] != v {
      assert false;
    }
    k :| k in m && m[k] == v;
  }

  /** `2 in counts.values()` says exactly that the region has a pair. */
  lemma TallyPair(s: seq<int>)
    ensures (2 in TallyOf(s).Values) == HasPair(s)
  {
    var counts := TallyOf(s);
    TallyOfCounts(s);
    if 2 in counts.Values {
      var d := KeyOf(counts, 2);
      assert d != 0 && multiset(s)[d] == 2;
    }
    if HasPair(s) {
      var d :| d != 0 && multiset(s)[d] == 2;
      assert d in s;
      assert counts[d] in counts.Values;
    }
  }

  /** validate_cell as the source runs it: three dictionaries of tallies, then a search for a tally of 2. */
  method ValidateCell(board: array2<int>, x: int, y: int) returns (valid: bool)
    requires board.Length0 == 9 && board.Length1 == 9 && 0 <= x < 9 && 0 <= y < 9
    ensures valid == CellValid(Snapshot(board), x, y)
  {
    ghost var g := Snapshot(board);
    ghost var row, col, box := Row(g, y), Column(g, x), Box(g, x, y);
    var rowCounts: map<int, int> := map[];
    var colCounts: map<int, int> := map[];
    for i := 0 to 9
      invariant rowCounts == TallyOf(row[..i])
      invariant colCounts == TallyOf(col[..i])
    {
      TallyOfSnoc(row, i);
      TallyOfSnoc(col, i);
      if board[y, i] != 0 {
        rowCounts := Tally(rowCounts, board[y, i]);
      }
      if board[i, x] != 0 {
        colCounts := Tally(colCounts, board[i, x]);
      }
    }
    var groupCounts := TallyBox(board, x, y);
    assert row[..9] == row && col[..9] == col;
    TallyPair(row);
    TallyPair(col);
    TallyPair(box);
    if 2 in rowCounts.Values || 2 in colCounts.Values || 2 in groupCounts.Values {
      return false;
    }
    return true;
  }

  /** The box part of validate_cell: the rows of find_group(y), in each the columns of find_group(x). */
  method TallyBox(board: array2<int>, x: int, y: int) returns (groupCounts: map<int, int>)
    requires board.Length0 == 9 && board.Length1 == 9 && 0 <= x < 9 && 0 <= y < 9
    ensures groupCounts == TallyOf(Box(Snapshot(board), x, y))
  {
    ghost var box := Box(Snapshot(board), x, y);
    groupCounts := map[];
    var colGroup := FindGroup(y);
    var rowGroup := FindGroup(x);
    for a := 0 to 3
      invariant groupCounts == TallyOf(box[..3 * a])
    {
      for b := 0 to 3
        invariant groupCounts == TallyOf(box[..3 * a + b])
      {
        var yPos, xPos := colGroup[a], rowGroup[b];
        BoxCellOf(board, x, y, a, b);
        TallyOfSnoc(box, 3 * a + b);
        if board[yPos, xPos] != 0 {
          groupCounts := Tally(groupCounts, board[yPos, xPos]);
        }
      }
    }
    assert box[..9] == box;
  }

  /**
   * is_solved as the source runs it: row by row, a 0 in the row answers
   * False, and then every (i, j) of the row is validated. The source passes
   * the row index i as the column argument x; all 81 pairs are still visited,
   * so the answer is GridSolved.
   */
  method IsSolved(grid: array2<int>) returns (solved: bool)
    requires grid.Length0 == 9 && grid.Length1 == 9
    ensures solved == GridSolved(Snapshot(grid))
  {
    ghost var g := Snapshot(grid);
    for i := 0 to 9
      invariant forall x, y :: 0 <= y < i && 0 <= x < 9 ==> g[y][x] != 0
      invariant forall x, y :: 0 <= x < i && 0 <= y < 9 ==> CellValid(g, x, y)
    {
      if exists j :: 0 <= j < 9 && grid[i, j] == 0 {
        return false;
      }
      for j := 0 to 9
        invariant forall x, y :: 0 <= x < 9 && 0 <= y < 9 && (x < i || (x == i && y < j)) ==> CellValid(g, x, y)
      {
        var valid := ValidateCell(grid, i, j);
        if !valid {
          return false;
        }
      }
    }
    return true;
  }

  // ---------------------------------------------------------------------------
  // What validation means for boards that keep the Sudoku rule, and what it misses.

  /** No two positions of the sequence hold the same non-zero value. */
  predicate Distinct(s: seq<int>)
  {
    forall i, j :: 0 <= i < j < |s| && s[i] != 0 ==> s[i] != s[j]
  }

  lemma {:induction false} AtMostOnce(s: seq<int>, d: int)
    requires d != 0 && Distinct(s)
    ensures multiset(s)[d] <= 1
  {
    if s != [] {
      var n := |s| - 1;
      assert s == s[..n] + [s[n]];
      assert Distinct(s[..n]);
      AtMostOnce(s[..n], d);
      if s[n] == d {
        assert forall i :: 0 <= i < n ==> s[..n][i] != d;
        assert multiset(s[..n])[d] == 0;
      }
    }
  }

  lemma DistinctHasNoPair(s: seq<int>)
    requires Distinct(s)
    ensures !HasPair(s)
  {
    forall d | d != 0
      ensures multiset(s)[d] != 2
    {
      AtMostOnce(s, d);
    }
  }

  /** Under the Sudoku rule every cell validates. */
  lemma NoDupCellValid(g: Grid, x: int, y: int)
    requires IsBoard(g) && 0 <= x < 9 && 0 <= y < 9 && NoDup(g)
    ensures CellValid(g, x, y)
  {
    var row, col, box := Row(g, y), Column(g, x), Box(g, x, y);
    forall i, j | 0 <= i < j < 9 && row[i] != 0
      ensures row[i] != row[j]
    {
      assert Peers(i, y, j, y);
    }
    forall i, j | 0 <= i < j < 9 && col[i] != 0
      ensures col[i] != col[j]
    {
      assert Peers(x, i, x, j);
    }
    forall i, j | 0 <= i < j < 9 && box[i] != 0
      ensures box[i] != box[j]
    {
      var c1, r1 := BoxMember(g, x, y, i);
      var c2, r2 := BoxMember(g, x, y, j);
      assert Peers(c1, r1, c2, r2);
    }
    assert Distinct(row) && Distinct(col) && Distinct(box);
    DistinctHasNoPair(row);
    DistinctHasNoPair(col);
    DistinctHasNoPair(box);
  }

  /** A full board that keeps the Sudoku rule passes is_solved. */
  lemma FullNoDupSolved(g: Grid)
    requires IsBoard(g) && Full(g) && NoDup(g)
    ensures GridSolved(g)
  {
    forall x, y | 0 <= x < 9 && 0 <= y < 9
      ensures CellValid(g, x, y)
    {
      NoDupCellValid(g, x, y);
    }
  }

  lemma {:induction false} ConstantTally(s: seq<int>, c: int)
    requires forall k :: 0 <= k < |s| ==> s[k] == c
    ensures multiset(s)[c] == |s|
  {
    if s != [] {
      var n := |s| - 1;
      assert s == s[..n] + [s[n]];
      ConstantTally(s[..n], c);
    }
  }

  lemma OnlyOnesHaveNoPair(s: seq<int>)
    requires |s| == 9 && forall k :: 0 <= k < |s| ==> s[k] == 1
    ensures !HasPair(s)
  {
    ConstantTally(s, 1);
    forall d | d != 0 && d != 1
      ensures multiset(s)[d] == 0
    {
      assert d !in s;
    }
  }

  /**
   * The tally check misses a digit seen nine times: the board whose 81 cells
   * are all 1 passes is_solved.
   */
  lemma AllOnesPassesIsSolved()
    ensures GridSolved(seq(9, _ => seq(9, _ => 1)))
  {
    var g: Grid := seq(9, _ => seq(9, _ => 1));
    forall x, y | 0 <= x < 9 && 0 <= y < 9
      ensures CellValid(g, x, y)
    {
      forall k | 0 <= k < 9
        ensures Row(g, y)[k] == 1 && Column(g, x)[k] == 1 && Box(g, x, y)[k] == 1
      {
        BoxAt(g, x, y, k);
      }
      OnlyOnesHaveNoPair(Row(g, y));
      OnlyOnesHaveNoPair(Column(g, x));
      OnlyOnesHaveNoPair(Box(g, x, y));
    }
  }
}
