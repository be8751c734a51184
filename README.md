# Sudoku backtracking engine, modelled in Dafny

This project models the backtracking Sudoku solver of `raw_solver.py` (class
`SudokuGame`) and the copy of that engine in `raw_visualization.py` (class
`Game`), with the pygame drawing stripped. Both classes solve a 9×9 board of
integers in place, where 0 is a blank cell, column `x` and row `y` are read
`board[y][x]`, and `recursions` counts the calls of `solve_sudoku`.

The model is laid out as follows:

- `board.dfy` (module `Board`): the board as a value, `Grid = seq<seq<int>>`.
  It defines rows, columns, 3×3 boxes (through `find_group`), one-cell writes,
  the Sudoku rule `NoDup`, the count of blanks, and `Snapshot`, which is the
  value of a mutable `array2<int>` board.
- `queries.dfy` (module `Queries`): the read-only queries `find_blank_cell`,
  `find_solutions`, `validate_cell` and `is_solved`. Each has a specification
  function on the board's value and a method with the source's loops that is
  proved to compute it. The source's `Game` class holds verbatim copies of these
  queries (`raw_visualization.py` lines 187-190, 224-245, 261-290 and
  303-310), so both classes share them, and each table row below for
  `raw_solver.py` holds for the copy as well.
- `search.dfy` (module `Backtracking`): `solve_sudoku` as a ghost function
  `Search`. It gives the outcome, the board left behind and the number of
  calls made. This file proves:
  - soundness: only blanks are filled, and a success passes `is_solved`;
  - the Sudoku rule is kept and the `TypeError` is never reached;
  - completeness: any board that has a solution is solved.
- `raw_solver.dfy` (module `RawSolver`): class `SudokuGame`, with its
  constructor, `load_grid` over the file's lines, and `solve_sudoku`, which
  writes the board in place and is proved to behave exactly as `Search`.
- `raw_visualization.dfy` (module `RawVisualization`): class `Game`, with
  `rect_area` and its own `solve_sudoku`, which records the result in `solved`.
- `grid_text.dfy` (module `GridText`): the text side of `load_grid`. It covers
  the zero-padded grid label, the header search, the `strip('\n')` and the
  digit-by-digit `int` conversion. It also proves a round trip: a rendered
  grid file loads back to the same grid.

`solve_sudoku` ends in one of four ways, modelled by `Outcome`:

- `Solved`: it returns True.
- `NoCandidates`: it returns False, because the first blank cell has no
  candidate.
- `Exhausted`: it returns the implicit None, because every candidate failed.
  `Outcome.Falsy` covers both this and `NoCandidates`: on either, the calling
  loop writes 0 back and goes on.
- `Crashed`: it raises `TypeError`. This happens when the board is full but
  `is_solved` is False, because `find_blank_cell` then returns None and its
  result is unpacked. The exception is not caught, so no caller resets its
  cell.

`validate_cell` rejects only a tally of exactly 2, as the source does. A digit
that appears three or more times is not flagged, and `AllOnesPassesIsSolved`
proves that an all-ones board passes `is_solved`.

## Model

| member | source | states |
|---|---|---|
| Queries.FirstBlank | raw_solver.py:90-93 | the result is a blank cell (column, row) with no blank before it in row-major order, and it is None exactly when the board has no blank |
| Queries.FirstBlankUnique | raw_solver.py:90-93 | a blank cell with no blank before it in row-major order is the cell returned |
| Queries.FindBlankCell | raw_solver.py:90-93 | the nested row/column scan returns the first blank cell as (column, row), or None on a full board |
| Board.FindGroupBand | raw_solver.py:105-111 | find_group(n) is the aligned band n/3*3 .. n/3*3+2 for every board index, and [6, 7, 8] for every n outside 0..5, negatives included |
| Board.FindGroup | raw_solver.py:105-111 | find_group always returns three indices of the board |
| Queries.Candidates | raw_solver.py:127-146 | the candidates are digits 1..9, and d is one exactly when d is not a non-zero value of the cell's column, row or box |
| Queries.CandidateMeaning | raw_solver.py:127-146 | d is a candidate of (x, y) if and only if 1 <= d <= 9 and d is absent from column x, row y and the box of find_group(y) × find_group(x) |
| Queries.CandidatesAscending | raw_solver.py:146 | the candidates come in strictly ascending order |
| Queries.MissingAscending | raw_solver.py:146 | the comprehension over range(1, hi) that skips used digits yields a strictly ascending list |
| Queries.NonZerosMembers | raw_solver.py:127-141 | the lists col_nums, row_nums and group_nums hold exactly the non-zero values of their region |
| Queries.UsedFromRegions | raw_solver.py:144 | set(col_nums + row_nums + group_nums) is the set of non-zero digits in the column, row and box |
| Queries.FindSolutions | raw_solver.py:127-148 | the method with the source's loops returns exactly the candidate list of the cell |
| Queries.BoxNumbers | raw_solver.py:135-141 | the scan of the rows of find_group(y) and the columns of find_group(x) collects the box's non-zero values in visiting order |
| Queries.TallyOfCounts | raw_solver.py:169-186 | the tally dictionary has a key for every non-zero value of the region and for nothing else, and each count is the value's number of occurrences |
| Queries.TallyPair | raw_solver.py:189-190 | 2 is among the tallies exactly when some non-zero digit occurs exactly twice in the region |
| Queries.ValidateCell | raw_solver.py:164-193 | the method returns False exactly when the row, the column or the box of the cell has a non-zero digit occurring exactly twice |
| Queries.TallyBox | raw_solver.py:178-186 | group_counts is the tally of the box's cells in the order find_group visits them |
| Queries.IsSolved | raw_solver.py:206-213 | the method returns True exactly when no cell is 0 and every cell validates |
| Queries.NoDupCellValid | raw_solver.py:189-193 | on a board that keeps the Sudoku rule, every cell passes validate_cell |
| Queries.FullNoDupSolved | raw_solver.py:206-213 | a full board that keeps the Sudoku rule passes is_solved |
| Queries.DistinctHasNoPair | raw_solver.py:189-190 | a region with no repeated non-zero digit has no tally of 2 |
| Queries.AllOnesPassesIsSolved | raw_solver.py:189-213 | the board of 81 ones passes is_solved, because only a tally of exactly 2 is rejected |
| Backtracking.Search | raw_solver.py:226-244 | one call of solve_sudoku: its outcome, the board it leaves and its calls; every call counts at least itself, and a False or None result leaves the board exactly as it was at entry |
| Backtracking.TryCandidates | raw_solver.py:236-244 | the candidate loop: a False or None result leaves the board as it was before the loop, and the loop never returns False itself, only None when it runs out |
| Backtracking.SearchFalse | raw_solver.py:227-234 | a call returns False exactly when the board is not solved and its first blank cell has no candidate |
| Queries.CellValid | raw_solver.py:164-193 | what validate_cell decides: no non-zero digit occurs exactly twice in the cell's row, column or box |
| Queries.GridSolved | raw_solver.py:206-213 | what is_solved decides: no cell is 0 and every cell validates |
| GridText.ParseRows | raw_solver.py:71-77 | the rows built from the block: none as soon as a line has a non-digit, otherwise one row per line, each of digits 0..9 |
| Backtracking.SearchNoCandidates | raw_solver.py:226-234 | a call whose first blank cell has no candidate makes one call, returns False and leaves the board alone |
| Backtracking.SearchTries | raw_solver.py:226-244 | otherwise the call is the candidate loop at the first blank cell plus the one call itself |
| Backtracking.TryStops | raw_solver.py:236-241 | a candidate whose recursive call succeeds or raises ends the loop with that call's result and board |
| Backtracking.TryContinues | raw_solver.py:242-244 | a candidate whose recursive call fails is reset to 0, and the loop goes on from the original board, adding its calls |
| Backtracking.SolvedAtOnce | raw_solver.py:226-228 | a board that passes is_solved is returned at once and untouched, after exactly one call |
| Backtracking.FullInvalidCrashes | raw_solver.py:227-230 | a full board that fails is_solved raises at the unpacking of find_blank_cell's None, after one call |
| Backtracking.SearchSound | raw_solver.py:226-244 | the search only writes digits 1..9 into cells that were blank at entry, and a success leaves a board that passes is_solved |
| Backtracking.TrySound | raw_solver.py:236-244 | the candidate loop only writes digits 1..9 into blank cells, and its success leaves a board that passes is_solved |
| Backtracking.FillsAfterPlace | raw_solver.py:237-238 | what the recursive call fills after a candidate is written still fills only the blanks of the board before the write |
| Backtracking.PlaceCandidate | raw_solver.py:236-237 | writing a candidate into its blank cell keeps the Sudoku rule |
| Backtracking.CandidateAbsentFromPeer | raw_solver.py:127-146 | a candidate of a cell is in no other cell of its row, column or box |
| Backtracking.SearchKeepsRule | raw_solver.py:226-244 | on a board that keeps the Sudoku rule, the search keeps it and never raises the TypeError |
| Backtracking.TryKeepsRule | raw_solver.py:236-244 | the candidate loop over candidates of the cell keeps the Sudoku rule and never raises |
| Backtracking.CompletedKeepsRule | raw_solver.py:226-244 | a board that some solution completes keeps the Sudoku rule |
| Backtracking.SolutionDigitIsCandidate | raw_solver.py:127-146 | the digit a solution puts in a blank cell is among that cell's candidates |
| Backtracking.SearchComplete | raw_solver.py:226-244 | on a board that some solution completes, the search returns True |
| Backtracking.TryComplete | raw_solver.py:236-244 | the candidate loop succeeds when the solution's digit is among the candidates it tries |
| Board.PlaceUndo | raw_solver.py:237-243 | writing a digit into a blank cell and then 0 back restores the board |
| Board.PlaceZeros | raw_solver.py:237-238 | each recursive call sees one blank fewer than its caller |
| RawSolver.SudokuGame.constructor | raw_solver.py:32-37 | a new game holds the puzzle, zero recursions and no solved grid |
| RawSolver.SudokuGame.SolveSudoku | raw_solver.py:226-244 | the outcome, the board left behind and the calls added to recursions are those of Search; solved_grid is set to the board exactly when a placement led to success |
| RawSolver.SudokuGame.TrySolutions | raw_solver.py:236-244 | the candidate loop writes, recurses and resets in place exactly as TryCandidates says, and sets solved_grid to the board on success |
| RawSolver.SudokuGame.LoadGrid | raw_solver.py:54-77 | the loop over the lines returns Load's outcome: False without a header line, the ValueError of a non-digit, or the parsed rows |
| RawSolver.SudokuGame.BuildGrid | raw_solver.py:70-77 | the nested append loops return the rows of the stripped lines parsed digit by digit, or the ValueError of a non-digit |
| GridText.Load | raw_solver.py:54-77 | False exactly when no line starts with "Grid" and holds the label, and otherwise at most nine rows of digits 0..9 |
| GridText.GridLabel | raw_solver.py:54-57 | a one-character number is padded with a leading '0', and any other number is its decimal text |
| GridText.GridLabelInjective | raw_solver.py:54-57 | two different grid numbers never get the same label |
| GridText.NatStringValue | raw_solver.py:54-57 | the decimal text of a natural number reads back as that number |
| GridText.FirstHeader | raw_solver.py:60-65 | the first line at or after the start that starts with "Grid" and contains the label, or None when there is none |
| GridText.LoadAtHeader | raw_solver.py:60-65 | the first header line for the label decides the nine lines that are read |
| GridText.StripNewlinesMeaning | raw_solver.py:72 | strip('\n') leaves a middle slice of the line that neither starts nor ends with '\n', having removed only '\n' characters |
| GridText.ParseDigitsMeaning | raw_solver.py:74-75 | a line converts exactly when every character is a digit, and then each cell is the value of its character |
| GridText.ParseRowsFails | raw_solver.py:71-75 | the block raises the ValueError exactly when one of its lines holds a non-digit |
| GridText.ParseRowsRows | raw_solver.py:71-77 | row i of the grid is line i of the block, converted |
| GridText.BadLineSpoilsBlock | raw_solver.py:74-75 | one line with a non-digit makes load_grid raise |
| GridText.LoadRendered | raw_solver.py:54-77 | a file rendered from a grid of digits loads back to that same grid |
| RawVisualization.Game.constructor | raw_visualization.py:46-52 | a new game holds the puzzle, no solved board and zero recursions |
| RawVisualization.Game.RectArea | raw_visualization.py:98 | the rectangle is 70×70 with its corner 5 pixels into cell (x, y), below the 80-pixel top bar |
| RawVisualization.RectInsideCell | raw_visualization.py:98 | every pixel of a cell's rectangle lies in that cell |
| RawVisualization.RectsDisjoint | raw_visualization.py:98 | the rectangles of two different cells share no pixel |
| RawVisualization.RectOnBoard | raw_visualization.py:98 | the rectangle of a board cell lies in the 720×800 window, below the top bar |
| RawVisualization.Game.SolveSudoku | raw_visualization.py:325-348 | the outcome, the board left behind and the calls added to recursions are those of Search; solved is set to the board exactly when a placement led to success |
| RawVisualization.Game.TrySolutions | raw_visualization.py:336-348 | the candidate loop writes, recurses and resets in place exactly as TryCandidates says, and sets solved to the board on success |

## Left out

- Timing is not modelled. This covers `start`, `end` and `calc_time` in
  `SudokuGame`, and `start` and `current_time` in `Game`: they are wall-clock,
  floating-point values.
- Printing is not modelled: `print_grid` and `print_solution`.
- pygame is not modelled. This covers the window, the fonts, `draw_board`,
  `steady_numbers`, `set_screen`, `draw_cell`, `green_cell`, `clear_cell`,
  `print_stats` and `clear_top`, plus the delay, drawing and stats calls inside
  `Game.solve_sudoku`. They draw only and do not change the board or the
  counters. `Game`'s `screen` field is left out with them.
- `open(file)` in `load_grid` is not modelled: the model takes the file's
  lines as a sequence of strings, each keeping its '\n'.
- The module-level demo and event loop of `raw_visualization.py` are not
  modelled. `text_demo.py` is not part of this model.
- Boards are 9×9 arrays. Ragged or smaller lists, and Python's negative
  indices on them, are not modelled.
- `int()` is modelled on the ASCII digits 0..9 only. Other Unicode digits,
  which Python also accepts, count as non-digits here.
- `validate_cell` keys its dictionaries by `str(digit)`. The model keys them
  by the digit itself. This is a one-to-one renaming, so the tallies are the
  same.
- The board is one object whose rows are not shared with other boards. The
  aliasing of row lists between boards is not modelled.
- Some methods are split into two to keep each proof small. `SolveSudoku` and
  `TrySolutions` are one `solve_sudoku`. `LoadGrid` and `BuildGrid` are one
  `load_grid`. `FindSolutions` and `BoxNumbers` are one `find_solutions`.
  `ValidateCell` and `TallyBox` are one `validate_cell`.
- Backtracking.Search is a ghost function. A call of `solve_sudoku` is
  specified by it, but it is not itself executable.
