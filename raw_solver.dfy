/**
 * The SudokuGame class: the puzzle loaded from a file of grids, the
 * recursion counter, and solve_sudoku, which fills the board in place.
 * The start and end times and the printing methods are not modelled.
 */
module RawSolver {
  import opened Wrappers
  import opened Board
  import opened Queries
  import opened Backtracking
  import opened GridText

  class SudokuGame {
    /** Calls of solve_sudoku made so far. */
    var recursions: nat
    /** The unsolved puzzle the game was created with. */
    var grid: array2<int>
    /** The board solve_sudoku solved, once a call has succeeded through a placement. */
    var solvedGrid: array2?<int>

    constructor(grid: array2<int>)
      ensures this.grid == grid && recursions == 0 && solvedGrid == null
    {
      this.grid := grid;
      recursions := 0;
      solvedGrid := null;
    }

    /**
     * load_grid on the lines of the file: the first line that starts with
     * "Grid" and holds the padded grid number selects the up to nine lines
     * after it, which BuildGrid turns into rows; False when there is no such
     * line.
     */
    static method LoadGrid(lines: seq<string>, gridNumber: int) returns (r: LoadOutcome)
      ensures r == Load(lines, gridNumber)
    {
      var key := GridLabel(gridNumber);
      var board: Option<seq<string>> := None;
      for i := 0 to |lines|
        invariant forall k :: 0 <= k < i ==> !IsGridHeader(lines[k], key)
      {
        if StartsWith(lines[i], "Grid") && Contains(lines[i], key) {
          board := Some(lines[i + 1 .. if i + 10 <= |lines| then i + 10 else |lines|]);
          LoadAtHeader(lines, gridNumber, i);
          break;
        }
      }
      if board.None? {
        return NotFound;
      }
      r := BuildGrid(board.value);
    }

    /**
     * The second half of load_grid: each selected line with '\n' stripped
     * from both ends, each of its characters appended to the row as int(c);
     * the first character that is not a digit raises ValueError.
     */
    static method BuildGrid(block: seq<string>) returns (r: LoadOutcome)
      ensures r == LoadBlock(block)
    {
      var grid: seq<seq<int>> := [];
      for i := 0 to |block|
        invariant ParseRows(block[..i]) == Some(grid)
      {
        assert block[..i + 1][..i] == block[..i];
        var line := StripNewlines(block[i]);
        var row: seq<int> := [];
        for j := 0 to |line|
          invariant ParseDigits(line[..j]) == Some(row)
        {
          assert line[..j + 1][..j] == line[..j];
          if !IsDigitChar(line[j]) {
            ParseDigitsMeaning(line);
            BadLineSpoilsBlock(block, i);
            return BadCharacter;
          }
          row := row + [DigitValue(line[j])];
        }
        assert line[..|line|] == line;
        grid := grid + [row];
      }
      assert block[..|block|] == block;
      return Loaded(grid);
    }

    /**
     * solve_sudoku: count the call; stop if the board is solved; otherwise
     * try the candidates of the first blank cell in turn (TrySolutions). A
     * full board that fails is_solved ends in the TypeError of unpacking
     * None, and the exception passes through every caller without an undo.
     */
    method SolveSudoku(board: array2<int>) returns (r: Outcome)
      requires board.Length0 == 9 && board.Length1 == 9
      modifies this`recursions, this`solvedGrid, board
      decreases GridZeros(Snapshot(board)), 1
      ensures r == Search(old(Snapshot(board))).outcome
      ensures Snapshot(board) == Search(old(Snapshot(board))).grid
      ensures recursions == old(recursions) + Search(old(Snapshot(board))).calls
      ensures r != Solved ==> solvedGrid == old(solvedGrid)
      ensures r == Solved ==> solvedGrid == if GridSolved(old(Snapshot(board))) then old(solvedGrid) else board
    {
      ghost var g := Snapshot(board);
      recursions := recursions + 1;
      var solved := IsSolved(board);
      if solved {
        SolvedAtOnce(g);
        return Solved;
      }
      var cell := FindBlankCell(board);
      if cell.None? {
        FullInvalidCrashes(g);
        return Crashed;
      }
      var (x, y) := cell.value;
      var possibleSolutions := FindSolutions(board, x, y);
      if possibleSolutions == [] {
        SearchNoCandidates(g, x, y);
        return NoCandidates;
      }
      SearchTries(g, x, y);
      r := TrySolutions(board, x, y, possibleSolutions);
    }

    /**
     * The candidate loop of solve_sudoku at the blank cell (x, y): write the
     * candidate, recurse, and on success record the board as solved; on a
     * falsy result write 0 back and go on; an exception leaves at once.
     */
    method TrySolutions(board: array2<int>, x: int, y: int, possibleSolutions: seq<int>) returns (r: Outcome)
      requires board.Length0 == 9 && board.Length1 == 9 && 0 <= x < 9 && 0 <= y < 9 && board[y, x] == 0
      requires forall k :: 0 <= k < |possibleSolutions| ==> 1 <= possibleSolutions[k] <= 9
      modifies this`recursions, this`solvedGrid, board
      decreases GridZeros(Snapshot(board)), 0
      ensures var t := TryCandidates(old(Snapshot(board)), x, y, possibleSolutions);
        r == t.outcome && Snapshot(board) == t.grid && recursions == old(recursions) + t.calls &&
        solvedGrid == if r == Solved then board else old(solvedGrid)
    {
      ghost var g := Snapshot(board);
      ghost var all := TryCandidates(g, x, y, possibleSolutions);
      ghost var base := recursions;
      assert g[y][x] == 0;
      for i := 0 to |possibleSolutions|
        invariant Snapshot(board) == g
        invariant solvedGrid == old(solvedGrid)
        invariant all.outcome == TryCandidates(g, x, y, possibleSolutions[i..]).outcome
        invariant all.grid == TryCandidates(g, x, y, possibleSolutions[i..]).grid
        invariant all.calls == recursions - base + TryCandidates(g, x, y, possibleSolutions[i..]).calls
      {
        var solution := possibleSolutions[i];
        ghost var placed := Place(g, x, y, solution);
        board[y, x] := solution;
        SnapshotWrite(board, x, y, g);
        PlaceZeros(g, x, y, solution);
        var results := SolveSudoku(board);
        if results == Crashed {
          TryStops(g, x, y, possibleSolutions, i);
          return Crashed;
        }
        if results == Solved {
          TryStops(g, x, y, possibleSolutions, i);
          solvedGrid := board;
          return Solved;
        }
        TryContinues(g, x, y, possibleSolutions, i);
        ghost var failed := Snapshot(board);
        board[y, x] := 0;
        SnapshotWrite(board, x, y, failed);
        PlaceUndo(g, x, y, solution);
      }
      return Exhausted;
    }
  }
}
