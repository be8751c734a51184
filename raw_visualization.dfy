/**
 * The Game class of the pygame front end: the same backtracking engine as
 * SudokuGame, with the drawing, delay and timing calls of solve_sudoku left
 * out, and rect_area, which places the highlight rectangle of a cell on the
 * 720×800 window (an 80-pixel bar on top, then nine rows of 80-pixel cells).
 * The queries are the shared ones of module Queries: the source's copies of
 * them are the same code.
 */
module RawVisualization {
  import opened Board
  import opened Queries
  import opened Backtracking

  /** Side of a cell in pixels. */
  const CellSize := 80
  /** Height of the bar above the board that shows the attempts and the time. */
  const TopBar := 80

  class Game {
    /** The puzzle the game was created with; the demo solves this very board. */
    var grid: array2<int>
    /** The board solve_sudoku solved, once a call has succeeded through a placement. */
    var solved: array2?<int>
    /** Calls of solve_sudoku made so far. */
    var recursions: nat

    constructor(grid: array2<int>)
      ensures this.grid == grid && solved == null && recursions == 0
    {
      this.grid := grid;
      solved := null;
      recursions := 0;
    }

    /**
     * rect_area: (left, top, width, height) of the rectangle drawn around
     * cell (x, y). Its corner is 5 pixels into the cell, counted from the
     * cell's own corner, and it is 70 pixels square.
     */
    static function RectArea(x: int, y: int): (r: (int, int, int, int))
      ensures r.2 == CellSize - 10 && r.3 == CellSize - 10
      ensures r.0 / CellSize == x && r.0 % CellSize == 5
      ensures (r.1 - TopBar) / CellSize == y && (r.1 - TopBar) % CellSize == 5
    {
      (x * 80 + 5, 80 + y * 80 + 5, 80 - 10, 80 - 10)
    }

    /**
     * solve_sudoku of the Game class, with its pygame calls stripped: the
     * same search as SudokuGame's, recording the solved board in `solved`.
     */
    method SolveSudoku(board: array2<int>) returns (r: Outcome)
      requires board.Length0 == 9 && board.Length1 == 9
      modifies this`recursions, this`solved, board
      decreases GridZeros(Snapshot(board)), 1
      ensures r == Search(old(Snapshot(board))).outcome
      ensures Snapshot(board) == Search(old(Snapshot(board))).grid
      ensures recursions == old(recursions) + Search(old(Snapshot(board))).calls
      ensures r != Solved ==> solved == old(solved)
      ensures r == Solved ==> solved == if GridSolved(old(Snapshot(board))) then old(solved) else board
    {
      ghost var g := Snapshot(board);
      recursions := recursions + 1;
      var isSolved := IsSolved(board);
      if isSolved {
        SolvedAtOnce(g);
        return Solved;
      }
      var cell := FindBlankCell(board);
      if cell.None? {
        FullInvalidCrashes(g);
        return Crashed;
      }
      var (x, y) := cell.value;
      var possibleSolutions := FindSolutions(board, x, y);
      if possibleSolutions == [] {
        SearchNoCandidates(g, x, y);
        return NoCandidates;
      }
      SearchTries(g, x, y);
      r := TrySolutions(board, x, y, possibleSolutions);
    }

    /**
     * The candidate loop of Game.solve_sudoku at the blank cell (x, y): write
     * the candidate, recurse, on success record the board in `solved`; on a
     * falsy result write 0 back and go on; an exception leaves at once.
     */
    method TrySolutions(board: array2<int>, x: int, y: int, possibleSolutions: seq<int>) returns (r: Outcome)
      requires board.Length0 == 9 && board.Length1 == 9 && 0 <= x < 9 && 0 <= y < 9 && board[y, x] == 0
      requires forall k :: 0 <= k < |possibleSolutions| ==> 1 <= possibleSolutions[k] <= 9
      modifies this`recursions, this`solved, board
      decreases GridZeros(Snapshot(board)), 0
      ensures var t := TryCandidates(old(Snapshot(board)), x, y, possibleSolutions);
        r == t.outcome && Snapshot(board) == t.grid && recursions == old(recursions) + t.calls &&
        solved == if r == Solved then board else old(solved)
    {
      ghost var g := Snapshot(board);
      ghost var all := TryCandidates(g, x, y, possibleSolutions);
      ghost var base := recursions;
      assert g[y][x] == 0;
      for i := 0 to |possibleSolutions|
        invariant Snapshot(board) == g
        invariant solved == old(solved)
        invariant all.outcome == TryCandidates(g, x, y, possibleSolutions[i..]).outcome
        invariant all.grid == TryCandidates(g, x, y, possibleSolutions[i..]).grid
        invariant all.calls == recursions - base + TryCandidates(g, x, y, possibleSolutions[i..]).calls
      {
        var solution := possibleSolutions[i];
        board[y, x] := solution;
        SnapshotWrite(board, x, y, g);
        PlaceZeros(g, x, y, solution);
        var results := SolveSudoku(board);
        if results == Crashed {
          TryStops(g, x, y, possibleSolutions, i);
          return Crashed;
        }
        if results == Solved {
          TryStops(g, x, y, possibleSolutions, i);
          solved := board;
          return Solved;
        }
        TryContinues(g, x, y, possibleSolutions, i);
        ghost var failed := Snapshot(board);
        board[y, x] := 0;
        SnapshotWrite(board, x, y, failed);
        PlaceUndo(g, x, y, solution);
      }
      return Exhausted;
    }
  }

  /** A pixel inside the rectangle of cell (x, y) lies in that cell: the rectangle never spills into a neighbour. */
  lemma RectInsideCell(x: int, y: int, px: int, py: int)
    requires var r := Game.RectArea(x, y); r.0 <= px < r.0 + r.2 && r.1 <= py < r.1 + r.3
    ensures px / CellSize == x && (py - TopBar) / CellSize == y
  {
    var r := Game.RectArea(x, y);
    assert px == CellSize * x + (px - r.0 + 5) && 0 <= px - r.0 + 5 < CellSize;
    assert py - TopBar == CellSize * y + (py - r.1 + 5) && 0 <= py - r.1 + 5 < CellSize;
  }

  /** The rectangles of two different cells share no pixel. */
  lemma RectsDisjoint(x1: int, y1: int, x2: int, y2: int, px: int, py: int)
    requires x1 != x2 || y1 != y2
    ensures var r1, r2 := Game.RectArea(x1, y1), Game.RectArea(x2, y2);
      !(r1.0 <= px < r1.0 + r1.2 && r1.1 <= py < r1.1 + r1.3 &&
        r2.0 <= px < r2.0 + r2.2 && r2.1 <= py < r2.1 + r2.3)
  {
    var r1, r2 := Game.RectArea(x1, y1), Game.RectArea(x2, y2);
    if r1.0 <= px < r1.0 + r1.2 && r1.1 <= py < r1.1 + r1.3 &&
       r2.0 <= px < r2.0 + r2.2 && r2.1 <= py < r2.1 + r2.3 {
      RectInsideCell(x1, y1, px, py);
      RectInsideCell(x2, y2, px, py);
    }
  }

  /** The rectangle of a board cell lies inside the 720×800 window, below the top bar. */
  lemma RectOnBoard(x: int, y: int)
    requires 0 <= x < 9 && 0 <= y < 9
    ensures var r := Game.RectArea(x, y);
      0 <= r.0 && r.0 + r.2 <= 720 && TopBar <= r.1 && r.1 + r.3 <= 800
  {
  }
}
