# Sudoku backtracking solver, modelled in Dafny

This project models the solver at the heart of `SudokuSolverGUI`, a Swing
application that loads a fixed 9x9 Sudoku puzzle and solves it by
backtracking. Four pieces of solver state are updated in place:

- `board`, a 9x9 array of ints in which 0 means an empty cell;
- `rows`, `cols` and `subgrids`, three arrays of nine digit sets. They cache
  which digits each row, column and 3x3 box already holds.

The model has three modules.

- `SudokuGrid` (`Grid.dfy`) is the vocabulary of boards as values:
  - cells, the 27 units and the box index `(row / 3) * 3 + col / 3`;
  - `UnitDigits`, the digits a unit holds, gathered cell by cell in
    row-major order;
  - `Tracks`, which says the three set arrays are exactly the units' digits
    (the cache invariant);
  - `CanPlace`, Sudoku legality stated on the board itself.
- `SudokuSearch` (`Search.dfy`) holds a pure reference definition of the
  depth-first search:
  - `Search` and `TryDigits` fill the first empty cell with digits 1..9 in
    ascending order and return the first branch that succeeds;
  - proofs that this search is sound and complete against `Completes` (a
    full board keeping the givens, every filled-in digit clashing with
    nothing);
  - the termination measure, the number of empty cells.
- `SudokuSolver` (`Solver.dfy`) is the class `SudokuSolver`. It has the
  four fields as `array2<int>` and `array<set<int>>`, and the source's
  operations as methods:
  - Load Puzzle, Clear, `IsValid`, `FindEmptyCell`;
  - the recursive `Solve`, which places a digit on the board and in the
    three sets together and undoes both on failure.

  `Solve` is proved against the reference search:
  - when the sets track the board it returns what `Search` returns,
    leaves exactly `Search`'s board and keeps the sets tracking it;
  - in any state, a success leaves a full board that keeps every filled
    cell, and a failure restores the board and all 27 sets exactly.

Two behaviours of the code are worth stating outright:
- A failed `solve` restores the board and all 27 sets exactly as they were
  on entry (`Solve`'s contract).
- Clashing givens are never detected. A full board is accepted without
  being checked (`AllOnesAccepted`), and the search checks only the digits
  it places, so a board with clashing givens may be reported solved.

For the program's one input, the fixed puzzle, the run Load Puzzle then
Solve is proved to succeed (`PuzzleSolvable`, `LoadAndSolve`).

## Model

| member | source | states |
|---|---|---|
| SudokuGrid.Box | SudokuSolverGUI.java:139 | the box index `(row / 3) * 3 + col / 3` of every cell of the board lies in 0..8 |
| SudokuGrid.InDigitsBefore | SudokuSolverGUI.java:93-102 | a digit is gathered from the cells of a unit before a row-major position exactly when it is non-zero and some such cell holds it |
| SudokuGrid.InUnitDigits | SudokuSolverGUI.java:12-14 | a unit's digit set holds d exactly when d is non-zero and some cell of the unit holds d |
| SudokuGrid.AbsentIffCanPlace | SudokuSolverGUI.java:138-140 | a non-zero digit is missing from the cell's row, column and box digits exactly when no cell sharing a unit with it holds that digit |
| SudokuGrid.PlaceUnitDigits | SudokuSolverGUI.java:152-155 | writing d on an empty cell adds d to the digits of exactly the three units holding that cell and changes no other unit |
| SudokuGrid.PlaceKeepsTracks | SudokuSolverGUI.java:151-155 | placing a digit on an empty cell together with adding it to the cell's row, column and box sets keeps the sets a cache of the board |
| SudokuSearch.PlaceDecreasesZeros | SudokuSolverGUI.java:152-158 | filling an empty cell lowers the number of empty cells by one, so the recursion terminates |
| SudokuSearch.FirstEmptyFrom | SudokuSolverGUI.java:172-181 | the result is None exactly when no cell at or after the start is 0; otherwise it is a 0 cell at or after the start with no 0 cell between the start and it |
| SudokuSearch.TryDigitsTaken | SudokuSolverGUI.java:151-160 | a digit that is legal and whose recursive search succeeds is the answer, returned without undoing it |
| SudokuSearch.TryDigitsPassed | SudokuSolverGUI.java:150-168 | a digit that is illegal, or whose recursive search fails, is passed over for the next digit |
| SudokuSearch.CompletesAfterPlace | SudokuSolverGUI.java:151-159 | a completion of the board with a legal digit placed on an empty cell is a completion of the board before the placement |
| SudokuSearch.ExtendsAfterPlace | SudokuSolverGUI.java:147-152 | a board keeping every filled cell of the board after a placement keeps every filled cell of the board before it |
| SudokuSearch.SearchSound | SudokuSolverGUI.java:142-170 | a successful search returns a full board that keeps the givens, each filled-in cell holding a digit 1..9 that clashes with no cell of its row, column or box |
| SudokuSearch.CompletesBeforePlace | SudokuSolverGUI.java:150-155 | the digit a completion puts on the first empty cell is legal there, and the completion still completes the board with that digit placed |
| SudokuSearch.SearchComplete | SudokuSolverGUI.java:142-170 | whenever the board has a completion, the search succeeds, so a failure means the puzzle has none |
| SudokuSearch.CompletionIsSolution | SudokuSolverGUI.java:142-170 | when the givens are digits 0..9 that do not clash, a completion is a solved Sudoku |
| SudokuSearch.FilledBoardAccepted | SudokuSolverGUI.java:143-146 | a board without an empty cell is returned as solved and unchanged |
| SudokuSearch.AllOnesAccepted | SudokuSolverGUI.java:143-146 | a full board of ones is not a solved Sudoku, yet the search reports it solved |
| SudokuSolver.SudokuSolver.constructor | SudokuSolverGUI.java:36-39 | a new solver has freshly allocated arrays, an empty board and 27 empty sets that track it |
| SudokuSolver.SudokuSolver.LoadPuzzle | SudokuSolverGUI.java:80-110 | the board becomes the fixed puzzle; each set becomes its old contents plus its unit's digits of the puzzle; the sets track the board exactly when every old set held only digits of its unit of the puzzle (in particular when all were empty) |
| SudokuSolver.SudokuSolver.LoadCell | SudokuSolverGUI.java:95-102 | one cell is overwritten with the value, which is added to the cell's row, column and box sets unless it is 0; nothing else changes |
| SudokuSolver.SudokuSolver.LoadGrid | SudokuSolverGUI.java:93-109 | after the outer loop the board equals the puzzle and each set family is its old sets seeded with every cell of the puzzle |
| SudokuSolver.SudokuSolver.LoadRow | SudokuSolverGUI.java:94-108 | one pass of the outer loop copies one more row of the puzzle and seeds the sets with exactly that row's cells |
| SudokuSolver.SudokuSolver.ClearBoard | SudokuSolverGUI.java:124-136 | every cell becomes 0 and all 27 sets become empty, which track the empty board |
| SudokuSolver.SudokuSolver.IsValid | SudokuSolverGUI.java:138-140 | while the sets track the board, the set test holds exactly when no cell in the row, column or box holds the digit |
| SudokuSolver.SudokuSolver.FindEmptyCell | SudokuSolverGUI.java:172-181 | the nested scan returns the first 0 cell in row-major order, or None exactly when the board has no 0 cell |
| SudokuSolver.SudokuSolver.Place | SudokuSolverGUI.java:152-155 | only the chosen empty cell and its three sets change, getting num; the sets keep tracking the board |
| SudokuSolver.SudokuSolver.Remove | SudokuSolverGUI.java:161-164 | only the chosen cell and its three sets change: the cell becomes 0 and num leaves the sets |
| SudokuSolver.SudokuSolver.Solve | SudokuSolverGUI.java:142-170 | success: no cell is 0 and every given cell is unchanged; failure: board and 27 sets as on entry; when the sets track the board: they still do, the result and board are the reference search's (digits in ascending order, first success kept), and a failure means no completion exists |
| SudokuSolver.SudokuSolver.ResetAndLoadPuzzle | SudokuSolverGUI.java:80-110 | whatever the prior state, afterwards the board is the fixed puzzle and the sets track it |
| SudokuSolver.IndexOf | SudokuSolverGUI.java:100-102 | the row, column or box set index of a cell is in 0..8, its unit holds the cell and no other unit of that family does |
| SudokuSolver.AddDigit | SudokuSolverGUI.java:96-102 | adding a non-zero value changes only the one set, by that value; a 0 value changes nothing |
| SudokuSolver.CopyStep | SudokuSolverGUI.java:95 | copying cell (row, col) of the puzzle extends the copied row-major prefix by one cell |
| SudokuSolver.SeedStep | SudokuSolverGUI.java:96-102 | adding a cell's value to its unit's set extends the seeded row-major prefix of that family by one cell |
| SudokuSolver.SeedEnd | SudokuSolverGUI.java:93-109 | seeding every cell adds each unit's puzzle digits to its set, and the seeded sets track the puzzle exactly when every starting set held only digits of its unit |
| SudokuSolver.EmptyWithinUnits | SudokuSolverGUI.java:124-128 | empty sets hold only digits of their units, so loading after Clear yields tracking sets |
| SudokuSolver.PuzzleIsGrid | SudokuSolverGUI.java:81-91 | the fixed puzzle has 9 rows of 9 cells |
| SudokuSolver.UnitsDistinctClashFree | SudokuSolverGUI.java:138-140 | a board whose rows, columns and boxes each hold pairwise distinct values has no clash at any cell |
| SudokuSolver.SolutionRowsDistinct | SudokuSolverGUI.java:81-91 | no row of the puzzle's solution holds a digit twice |
| SudokuSolver.SolutionColsDistinct | SudokuSolverGUI.java:81-91 | no column of the puzzle's solution holds a digit twice |
| SudokuSolver.SolutionTopBoxesDistinct | SudokuSolverGUI.java:81-91 | no box in rows 0-2 of the puzzle's solution holds a digit twice |
| SudokuSolver.SolutionMiddleBoxesDistinct | SudokuSolverGUI.java:81-91 | no box in rows 3-5 of the puzzle's solution holds a digit twice |
| SudokuSolver.SolutionBottomBoxesDistinct | SudokuSolverGUI.java:81-91 | no box in rows 6-8 of the puzzle's solution holds a digit twice |
| SudokuSolver.SolutionDigits | SudokuSolverGUI.java:81-91 | every cell of the puzzle's solution holds a digit 1..9 |
| SudokuSolver.SolutionExtendsPuzzle | SudokuSolverGUI.java:81-91 | the solution keeps every given of the fixed puzzle |
| SudokuSolver.PuzzleSolvable | SudokuSolverGUI.java:81-91 | the solution completes the fixed puzzle, so the reference search from the puzzle succeeds |
| SudokuSolver.LoadAndSolve | SudokuSolverGUI.java:112-122 | on a new solver, Load Puzzle then Solve returns true (the "Sudoku Solved!" branch) and leaves the search's completion of the puzzle on the board |
| SudokuSolver.EmptyTracks | SudokuSolverGUI.java:124-136 | empty sets track the empty board |
| SudokuSolver.WithUndo | SudokuSolverGUI.java:152-161 | writing 0 back on a cell that was empty before the placement restores the board |
| SudokuSolver.UndoAdd | SudokuSolverGUI.java:153-164 | removing a digit that was absent before it was added restores the set array |
| SudokuSolver.StaleRowDigit | SudokuSolverGUI.java:93-102 | loading over a row-0 set that still holds 4 leaves 4 in it although row 0 of the puzzle lacks 4, and 4 is legal at (0, 2) |

## Left out

- The Swing user interface is not modelled: the window, the buttons, `createStyledButton`, the `cells` text fields, colours, `setText`, `setEditable` and `setForeground`. It has no bearing on the board or the sets.
- `updateGUI` is not modelled. It only posts a repaint of one cell to the Swing event thread and never touches the solver state.
- `delay` (`Thread.sleep`) is not modelled. It is animation pacing with no effect on the result.
- `solvePuzzle` is not modelled: its dialogs and the thread that runs the solve. Only the boolean that `solve` returns to it is kept. Concurrency between that thread and the event thread (e.g. pressing Clear during a solve) is outside the model.
- `main` is not modelled.
- Java's `HashSet<Integer>` becomes a Dafny `set<int>`. A set does not model object identity, so the arrays `rows`, `cols` and `subgrids` are required to be distinct.
- The board holds unbounded `int`s. The source only ever stores the puzzle constants and the digits 0..9, so 32-bit overflow cannot arise.
- Solve: when the sets do not track the board, it promises only a full board that keeps the filled cells, or an exact restoration. In that case the source's result depends on stale set contents, so no completion is promised.

## Findings

| source | as written | input that shows it | evidently intended | confidence | as-written member | corrected member |
|---|---|---|---|---|---|---|
| SudokuSolverGUI.java:93-102 | Load Puzzle copies the puzzle into the board and adds its digits to the sets without emptying the sets first | Load Puzzle, then Solve (which fills row 0 with every digit), then Load Puzzle again: `rows[0]` still holds 4, although row 0 of the puzzle lacks 4, so `isValid(0, 2, 4)` is false even though 4 is legal there and is the digit the solution puts there | empty the sets (as Clear does) before seeding them, so that they track the loaded board | not executed | SudokuSolver.StaleRowDigit | SudokuSolver.SudokuSolver.ResetAndLoadPuzzle |
