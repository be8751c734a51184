/**
 * solve_sudoku as a function of the board: what one call returns, the board
 * it leaves behind, and how many calls (the `recursions` counter) it makes.
 * The classes' SolveSudoku methods are proved to behave exactly like it;
 * the properties the source relies on are proved here, about the function.
 */
module Backtracking {
  import opened Wrappers
  import opened Board
  import opened Queries

  /**
   * How a call of solve_sudoku ends: True; False, when the first blank cell
   * has no candidate; None, when the candidate loop runs out without a
   * success; or the TypeError raised by unpacking find_blank_cell's None,
   * which happens when the board is full but is_solved is False. The
   * exception is not caught, so no frame above undoes its placement.
   */
  datatype Outcome = Solved | NoCandidates | Exhausted | Crashed
  {
    /** False and None: the calling loop writes 0 back and tries its next candidate. */
    predicate Falsy()
    {
      this == NoCandidates || this == Exhausted
    }
  }

  /** The outcome, the board afterwards, and how many calls of solve_sudoku were made. */
  datatype Run = Run(outcome: Outcome, grid: Grid, calls: nat)

  /** One call of solve_sudoku on board g. */
  ghost function Search(g: Grid): (r: Run)
    requires IsBoard(g)
    decreases GridZeros(g), 1, 0
    ensures IsBoard(r.grid) && r.calls >= 1
    ensures r.outcome.Falsy() ==> r.grid == g
  {
    if GridSolved(g) then Run(Solved, g, 1)
    else match FirstBlank(g)
      case None => Run(Crashed, g, 1)
      case Some(cell) =>
        var cs := Candidates(g, cell.0, cell.1);
        if cs == [] then Run(NoCandidates, g, 1)
        else
          var t := TryCandidates(g, cell.0, cell.1, cs);
          Run(t.outcome, t.grid, t.calls + 1)
  }

  /**
   * The candidate loop of solve_sudoku at blank cell (x, y): write cs[0],
   * recurse, stop on success or on an exception, otherwise write 0 back and
   * go on with the rest of cs. Its calls are those of the recursive calls.
   */
  ghost function TryCandidates(g: Grid, x: int, y: int, cs: seq<int>): (r: Run)
    requires IsBoard(g) && 0 <= x < 9 && 0 <= y < 9 && g[y][x] == 0
    requires forall k :: 0 <= k < |cs| ==> 1 <= cs[k] <= 9
    decreases GridZeros(g), 0, |cs|
    ensures IsBoard(r.grid)
    ensures r.outcome.Falsy() ==> r.grid == g
    ensures r.outcome != NoCandidates
  {
    if cs == [] then Run(Exhausted, g, 0)
    else
      var placed := Place(g, x, y, cs[0]);
      PlaceZeros(g, x, y, cs[0]);
      var sub := Search(placed);
      if sub.outcome == Solved then Run(Solved, sub.grid, sub.calls)
      else if sub.outcome == Crashed then Run(Crashed, sub.grid, sub.calls)
      else
        var reset := Place(sub.grid, x, y, 0);
        PlaceUndo(g, x, y, cs[0]);
        var rest := TryCandidates(reset, x, y, cs[1..]);
        Run(rest.outcome, rest.grid, sub.calls + rest.calls)
  }

  // ---------------------------------------------------------------------------
  // The steps of one call, one equation per way through its body.

  /** A blank cell without candidates: the call returns False at once and leaves the board alone. */
  lemma SearchNoCandidates(g: Grid, x: int, y: int)
    requires IsBoard(g) && !GridSolved(g) && FirstBlank(g) == Some((x, y))
    requires Candidates(g, x, y) == []
    ensures Search(g) == Run(NoCandidates, g, 1)
  {
  }

  /**
   * A call returns False exactly when the board is not solved and its first
   * blank cell has no candidate; a loop that runs out returns None instead.
   */
  lemma SearchFalse(g: Grid)
    requires IsBoard(g)
    ensures Search(g).outcome == NoCandidates <==>
      !GridSolved(g) && FirstBlank(g).Some? && Candidates(g, FirstBlank(g).value.0, FirstBlank(g).value.1) == []
  {
  }

  /** Otherwise the call is the candidate loop over all candidates of the first blank cell, plus itself. */
  lemma SearchTries(g: Grid, x: int, y: int)
    requires IsBoard(g) && !GridSolved(g) && FirstBlank(g) == Some((x, y))
    requires Candidates(g, x, y) != []
    ensures var t := TryCandidates(g, x, y, Candidates(g, x, y));
      Search(g) == Run(t.outcome, t.grid, t.calls + 1)
  {
  }

  /** Candidate i whose recursive call succeeds or raises ends the loop with that call's result. */
  lemma TryStops(g: Grid, x: int, y: int, cs: seq<int>, i: int)
    requires IsBoard(g) && 0 <= x < 9 && 0 <= y < 9 && g[y][x] == 0
    requires forall k :: 0 <= k < |cs| ==> 1 <= cs[k] <= 9
    requires 0 <= i < |cs| && !Search(Place(g, x, y, cs[i])).outcome.Falsy()
    ensures TryCandidates(g, x, y, cs[i..]) == Search(Place(g, x, y, cs[i]))
  {
    assert cs[i..][0] == cs[i];
  }

  /** Candidate i whose recursive call fails is undone, and the loop goes on from the same board. */
  lemma TryContinues(g: Grid, x: int, y: int, cs: seq<int>, i: int)
    requires IsBoard(g) && 0 <= x < 9 && 0 <= y < 9 && g[y][x] == 0
    requires forall k :: 0 <= k < |cs| ==> 1 <= cs[k] <= 9
    requires 0 <= i < |cs| && Search(Place(g, x, y, cs[i])).outcome.Falsy()
    ensures var sub, rest := Search(Place(g, x, y, cs[i])), TryCandidates(g, x, y, cs[i + 1..]);
      TryCandidates(g, x, y, cs[i..]) == Run(rest.outcome, rest.grid, sub.calls + rest.calls)
  {
    assert cs[i..][0] == cs[i] && cs[i..][1..] == cs[i + 1..];
    PlaceUndo(g, x, y, cs[i]);
  }

  // ---------------------------------------------------------------------------
  // Soundness: a success leaves a board that passes is_solved, and only blanks
  // are ever written.

  lemma {:induction false} SearchSound(g: Grid)
    requires IsBoard(g)
    decreases GridZeros(g), 1, 0
    ensures FillsOnlyBlanks(g, Search(g).grid)
    ensures Search(g).outcome == Solved ==> GridSolved(Search(g).grid)
  {
    if !GridSolved(g) {
      match FirstBlank(g)
      case None =>
      case Some(cell) =>
        var cs := Candidates(g, cell.0, cell.1);
        if cs != [] {
          TrySound(g, cell.0, cell.1, cs);
        }
    }
  }

  lemma {:induction false} TrySound(g: Grid, x: int, y: int, cs: seq<int>)
    requires IsBoard(g) && 0 <= x < 9 && 0 <= y < 9 && g[y][x] == 0
    requires forall k :: 0 <= k < |cs| ==> 1 <= cs[k] <= 9
    decreases GridZeros(g), 0, |cs|
    ensures FillsOnlyBlanks(g, TryCandidates(g, x, y, cs).grid)
    ensures TryCandidates(g, x, y, cs).outcome == Solved ==> GridSolved(TryCandidates(g, x, y, cs).grid)
  {
    if cs != [] {
      var placed := Place(g, x, y, cs[0]);
      PlaceZeros(g, x, y, cs[0]);
      SearchSound(placed);
      var sub := Search(placed);
      if sub.outcome.Falsy() {
        PlaceUndo(g, x, y, cs[0]);
        TrySound(g, x, y, cs[1..]);
      } else {
        FillsAfterPlace(g, x, y, cs[0], sub.grid);
      }
    }
  }

  /** A board that only fills blanks of g after digit d went into blank (x, y) only fills blanks of g. */
  lemma FillsAfterPlace(g: Grid, x: int, y: int, d: int, h: Grid)
    requires IsBoard(g) && IsBoard(h) && 0 <= x < 9 && 0 <= y < 9 && g[y][x] == 0 && 1 <= d <= 9
    requires FillsOnlyBlanks(Place(g, x, y, d), h)
    ensures FillsOnlyBlanks(g, h)
  {
  }

  // ---------------------------------------------------------------------------
  // On a board that keeps the Sudoku rule, the search keeps it and never
  // reaches the TypeError.

  /** Writing a candidate into its blank cell keeps the Sudoku rule. */
  lemma PlaceCandidate(g: Grid, x: int, y: int, d: int)
    requires IsBoard(g) && 0 <= x < 9 && 0 <= y < 9 && g[y][x] == 0 && NoDup(g)
    requires d in Candidates(g, x, y)
    ensures NoDup(Place(g, x, y, d))
  {
    var h := Place(g, x, y, d);
    forall y1, x1, y2, x2 |
      0 <= y1 < 9 && 0 <= x1 < 9 && 0 <= y2 < 9 && 0 <= x2 < 9 &&
      Peers(x1, y1, x2, y2) && h[y1][x1] != 0
      ensures h[y1][x1] != h[y2][x2]
    {
      if x1 == x && y1 == y {
        CandidateAbsentFromPeer(g, x, y, d, x2, y2);
      } else if x2 == x && y2 == y {
        CandidateAbsentFromPeer(g, x, y, d, x1, y1);
      }
    }
  }

  /** A candidate of (x, y) is in no cell that shares a row, column or box with it. */
  lemma CandidateAbsentFromPeer(g: Grid, x: int, y: int, d: int, x2: int, y2: int)
    requires IsBoard(g) && 0 <= x < 9 && 0 <= y < 9 && 0 <= x2 < 9 && 0 <= y2 < 9
    requires d in Candidates(g, x, y) && Peers(x, y, x2, y2)
    ensures g[y2][x2] != d
  {
    CandidateMeaning(g, x, y, d);
    if y2 == y {
      assert Row(g, y)[x2] == g[y2][x2];
    } else if x2 == x {
      assert Column(g, x)[y2] == g[y2][x2];
    } else {
      SameBoxAt(g, x, y, x2, y2);
    }
  }

  lemma {:induction false} SearchKeepsRule(g: Grid)
    requires IsBoard(g) && NoDup(g)
    decreases GridZeros(g), 1, 0
    ensures NoDup(Search(g).grid)
    ensures Search(g).outcome != Crashed
  {
    if !GridSolved(g) {
      match FirstBlank(g)
      case None =>
        FullNoDupSolved(g);
        assert false;
      case Some(cell) =>
        var cs := Candidates(g, cell.0, cell.1);
        if cs != [] {
          TryKeepsRule(g, cell.0, cell.1, cs);
        }
    }
  }

  lemma {:induction false} TryKeepsRule(g: Grid, x: int, y: int, cs: seq<int>)
    requires IsBoard(g) && 0 <= x < 9 && 0 <= y < 9 && g[y][x] == 0 && NoDup(g)
    requires forall k :: 0 <= k < |cs| ==> 1 <= cs[k] <= 9 && cs[k] in Candidates(g, x, y)
    decreases GridZeros(g), 0, |cs|
    ensures NoDup(TryCandidates(g, x, y, cs).grid)
    ensures TryCandidates(g, x, y, cs).outcome != Crashed
  {
    if cs != [] {
      var placed := Place(g, x, y, cs[0]);
      PlaceZeros(g, x, y, cs[0]);
      PlaceCandidate(g, x, y, cs[0]);
      SearchKeepsRule(placed);
      if Search(placed).outcome.Falsy() {
        PlaceUndo(g, x, y, cs[0]);
        TryKeepsRule(g, x, y, cs[1..]);
      }
    }
  }

  // ---------------------------------------------------------------------------
  // Completeness: when the board can be completed to a Sudoku solution, the
  // search succeeds, so a falsy result means the puzzle has no solution.

  /** s is a Sudoku solution that keeps every digit already on g. */
  ghost predicate Completes(g: Grid, s: Grid)
    requires IsBoard(g) && IsBoard(s)
  {
    NoDup(s) &&
    (forall y, x :: 0 <= y < 9 && 0 <= x < 9 ==> 1 <= s[y][x] <= 9) &&
    (forall y, x :: 0 <= y < 9 && 0 <= x < 9 && g[y][x] != 0 ==> s[y][x] == g[y][x])
  }

  /** A board that some solution completes keeps the Sudoku rule itself. */
  lemma CompletedKeepsRule(g: Grid, s: Grid)
    requires IsBoard(g) && IsBoard(s) && Completes(g, s)
    ensures NoDup(g)
  {
    forall y1, x1, y2, x2 |
      0 <= y1 < 9 && 0 <= x1 < 9 && 0 <= y2 < 9 && 0 <= x2 < 9 &&
      Peers(x1, y1, x2, y2) && g[y1][x1] != 0
      ensures g[y1][x1] != g[y2][x2]
    {
      assert s[y1][x1] != s[y2][x2];
    }
  }

  /** The digit a solution puts in a blank cell is one of that cell's candidates. */
  lemma SolutionDigitIsCandidate(g: Grid, s: Grid, x: int, y: int)
    requires IsBoard(g) && IsBoard(s) && Completes(g, s)
    requires 0 <= x < 9 && 0 <= y < 9 && g[y][x] == 0
    ensures s[y][x] in Candidates(g, x, y)
  {
    var d := s[y][x];
    CandidateMeaning(g, x, y, d);
    forall k | 0 <= k < 9
      ensures Row(g, y)[k] != d && Column(g, x)[k] != d && Box(g, x, y)[k] != d
    {
      if g[y][k] == d {
        assert Peers(x, y, k, y);
      }
      if g[k][x] == d {
        assert Peers(x, y, x, k);
      }
      var col, row := BoxMember(g, x, y, k);
      if g[row][col] == d {
        assert Peers(x, y, col, row);
      }
    }
  }

  lemma {:induction false} SearchComplete(g: Grid, s: Grid)
    requires IsBoard(g) && IsBoard(s) && Completes(g, s)
    decreases GridZeros(g), 1, 0
    ensures Search(g).outcome == Solved
  {
    if !GridSolved(g) {
      CompletedKeepsRule(g, s);
      match FirstBlank(g)
      case None =>
        FullNoDupSolved(g);
        assert false;
      case Some(cell) =>
        var (x, y) := cell;
        SolutionDigitIsCandidate(g, s, x, y);
        var cs := Candidates(g, x, y);
        TryComplete(g, s, x, y, cs);
    }
  }

  lemma {:induction false} TryComplete(g: Grid, s: Grid, x: int, y: int, cs: seq<int>)
    requires IsBoard(g) && IsBoard(s) && Completes(g, s)
    requires 0 <= x < 9 && 0 <= y < 9 && g[y][x] == 0
    requires forall k :: 0 <= k < |cs| ==> 1 <= cs[k] <= 9 && cs[k] in Candidates(g, x, y)
    requires s[y][x] in cs
    decreases GridZeros(g), 0, |cs|
    ensures TryCandidates(g, x, y, cs).outcome == Solved
  {
    var placed := Place(g, x, y, cs[0]);
    PlaceZeros(g, x, y, cs[0]);
    CompletedKeepsRule(g, s);
    PlaceCandidate(g, x, y, cs[0]);
    SearchKeepsRule(placed);
    if cs[0] == s[y][x] {
      assert Completes(placed, s);
      SearchComplete(placed, s);
    } else if Search(placed).outcome.Falsy() {
      PlaceUndo(g, x, y, cs[0]);
      TryComplete(g, s, x, y, cs[1..]);
    }
  }

  // ---------------------------------------------------------------------------
  // The two outcomes that end the search at once.

  /** A board that already passes is_solved is reported solved after one call, untouched. */
  lemma SolvedAtOnce(g: Grid)
    requires IsBoard(g) && GridSolved(g)
    ensures Search(g) == Run(Solved, g, 1)
  {
  }

  /** A full board that fails is_solved makes find_blank_cell return None: the TypeError. */
  lemma FullInvalidCrashes(g: Grid)
    requires IsBoard(g) && Full(g) && !GridSolved(g)
    ensures Search(g) == Run(Crashed, g, 1)
  {
  }
}
