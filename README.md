# Sudoku solver model

This is a Dafny model of a small Swift Sudoku solver (`SudokuSolver.playground/Contents.swift`), with proofs about it. The model has four parts:

- **Constraint evaluator** (`constraints.dfy`, module `Constraints`). It models the digits used in a row, a column or a 3x3 block, and the candidate digits of a cell. Each has an exact membership contract.
- **Trivial-fill loop** (`trivial_fill.dfy`, module `TrivialFill`). This is step 1 of `solveSudoku`. Full row-major passes place every digit that is a cell's only candidate, and stop at the first cell with no candidate. The loop tracks a cell with the fewest candidates.
  - The tracker `cellWithMinCandidates` is kept across passes, as in the source. It is replaced only by a strictly smaller candidate set.
  - The method `FillTrivialCells` keeps the source's loops and local variables. It is proved equal to a ghost specification, `FillSpec`, built from one-cell steps (`Visit`) and the rest of a pass (`ScanFrom`). Everything else is proved about that specification.
- **Solver** (`solver.dfy`, module `Solver`). `SolveSudoku` runs the trivial fill and then backtracks on the tracked cell. It puts each recorded candidate into a copy of the table and recurses; the first solution wins.
- **Verifier** (`verifier.dfy`, module `Verifier`). `VerifySudokuSolution` re-derives every group's digit set with the nested loops of the source.

`grid.dfy` (module `SudokuGrid`) holds the notions that the promises are stated in:

- the table (`seq<seq<int>>`, 0 for an unset cell);
- peers (same row, same column or same 3x3 block);
- a conflict-free table;
- a valid solution;
- one table extending another (preset cells kept, unset cells filled with 1..9);
- the number of unset cells.

### What is proved

- The used-digit sets hold exactly the nonzero values of their row, column or block. The candidates of a cell are exactly the digits 1..9 that no peer holds.
- `VerifySudokuSolution` returns true exactly for valid solutions. For every (i, j), the row, column and block digit sets all equal 1..9 exactly when the table is valid.
- A returned solution keeps every preset cell and has no unset cell.
- After a stalled trivial fill, a returned solution is the recursive result on the assumption table: the branch cell holds one of the recorded candidates, and every other cell set by the trivial fills is kept.
- If the input is a conflict-free table of digits and the trivial fills complete it, the returned table is a valid solution.
- `NoSolution` is returned only when no valid solution extends the input. This holds even with the stale tracker.
  - The recorded candidate set of a cell always contains the digit that any solution puts there.
  - The recorded cell was unset in the input.
- Termination:
  - A pass repeats only after a digit was placed.
  - Every recursive call receives a table with strictly fewer unset cells than the caller's input.

Swift's `Int` never exceeds 0..9 for values or 0..8 for indices here, so the model uses unbounded `int`. A Swift `Set` is iterated in an unspecified order, so the backtracking loop picks the next candidate with `:|`, an arbitrary choice from the untried ones.

## Model

| member | source | states |
|---|---|---|
| Constraints.AllDigitsRange | SudokuSolver.playground/Contents.swift:10 | `allDigits` holds exactly the integers 1..9 |
| Constraints.NonzeroSet | SudokuSolver.playground/Contents.swift:13 | `Set(cells.filter { $0 != 0 })`: never holds 0, holds the value of every nonzero cell, and every member is the value of some cell |
| Constraints.UsedDigitsInRow | SudokuSolver.playground/Contents.swift:12-14 | d is used in row i iff d != 0 and some cell of row i holds d |
| Constraints.ColumnCells | SudokuSolver.playground/Contents.swift:16-21 | the column walked top to bottom: nine cells, the r-th being table[r][j] |
| Constraints.UsedDigitsInColumn | SudokuSolver.playground/Contents.swift:16-22 | d is used in column j iff d != 0 and some row holds d at column j |
| Constraints.BlockCells | SudokuSolver.playground/Contents.swift:30-38 | the cells visited by the two nested block loops: nine of them (which cells, and where each sits, is stated by BlockIndex and BlockCellAt) |
| Constraints.BlockIndex | SudokuSolver.playground/Contents.swift:25-32 | the k-th cell visited by the block loops lies in the block of (i, j), at index 3*(r%3)+c%3 |
| Constraints.BlockCellAt | SudokuSolver.playground/Contents.swift:25-36 | every cell of the block of (i, j) is visited, at index 3*(r%3)+c%3 |
| Constraints.BlockMembers | SudokuSolver.playground/Contents.swift:24-38 | a value appears among the visited block cells iff some cell of the block holds it |
| Constraints.UsedDigitsInRelatedBlock | SudokuSolver.playground/Contents.swift:24-40 | d is used iff d != 0 and some cell in rows (i/3)*3..+2, columns (j/3)*3..+2 holds d |
| Constraints.Candidates | SudokuSolver.playground/Contents.swift:42-47 | candidates are a subset of 1..9, and d is a candidate iff 1 <= d <= 9 and no cell of the row, column or block holds d |
| Constraints.SolutionInCandidates | SudokuSolver.playground/Contents.swift:42-47 | the digit a valid extending solution puts in an unset cell is one of that cell's candidates |
| Constraints.PlaceCandidateConflictFree | SudokuSolver.playground/Contents.swift:72-73 | writing a candidate into an unset cell keeps a conflict-free table conflict-free |
| Constraints.NonzeroSetCons | SudokuSolver.playground/Contents.swift:13 | the nonzero-value set of cells splits into the first cell's value and the rest's |
| Constraints.NonzeroSetSize | SudokuSolver.playground/Contents.swift:13 | a set built from nonzero cells has at most as many members as cells, and as many only when all cells are set and pairwise different |
| Constraints.DistinctNonzeroSize | SudokuSolver.playground/Contents.swift:13 | pairwise different nonzero cells give a set with one member per cell |
| Constraints.FullCellsDistinct | SudokuSolver.playground/Contents.swift:114-116 | nine cells whose nonzero set is 1..9 hold nine pairwise different digits 1..9 |
| Constraints.FullDigitSet | SudokuSolver.playground/Contents.swift:114-116 | nine members drawn from 1..9 are all of 1..9 |
| Constraints.DistinctDigitsFull | SudokuSolver.playground/Contents.swift:114-116 | nine pairwise different digits 1..9 give the set 1..9 |
| Verifier.GroupsFullAt | SudokuSolver.playground/Contents.swift:114-116 | the three checks at (i, j): the row, column and block digit sets each equal 1..9; when they pass, every cell of that row, that column and that block holds a digit 1..9 |
| Verifier.AllGroupsFull | SudokuSolver.playground/Contents.swift:112-120 | what the nested loops of verifySudokuSolution test: the three checks pass at every (i, j) |
| Verifier.DistinctGroupsConflictFree | SudokuSolver.playground/Contents.swift:111-122 | rows, columns and blocks without repeats leave no two peers with the same digit |
| Verifier.GroupsFullIsValid | SudokuSolver.playground/Contents.swift:111-122 | if every check passes, every cell is a digit 1..9 and no two peers agree |
| Verifier.ValidRowDistinct | SudokuSolver.playground/Contents.swift:114 | a valid solution's row holds nine different digits |
| Verifier.ValidColumnDistinct | SudokuSolver.playground/Contents.swift:115 | a valid solution's column holds nine different digits 1..9 |
| Verifier.ValidBlockDistinct | SudokuSolver.playground/Contents.swift:116 | a valid solution's block holds nine different digits 1..9 |
| Verifier.ValidGroupsFullAt | SudokuSolver.playground/Contents.swift:114-116 | a valid solution passes the three checks at (i, j) |
| Verifier.ValidIsGroupsFull | SudokuSolver.playground/Contents.swift:111-122 | a valid solution passes the checks at every (i, j) |
| Verifier.VerifySudokuSolution | SudokuSolver.playground/Contents.swift:111-122 | returns true iff the table is a valid solution: all cells 1..9 and no peer conflict |
| SudokuGrid.Place | SudokuSolver.playground/Contents.swift:73 | the written cell holds the new digit and every other cell is unchanged |
| SudokuGrid.ExtendsTrans | SudokuSolver.playground/Contents.swift:97-104 | extending an extension of a table extends the table |
| SudokuGrid.ExtendsFull | SudokuSolver.playground/Contents.swift:86-87 | a table without unset cells has no extension but itself |
| SudokuGrid.ZerosInRowUpdate | SudokuSolver.playground/Contents.swift:73 | setting a cell of a row to a digit removes one unset cell if it was unset, none otherwise |
| SudokuGrid.ZeroCountUpdate | SudokuSolver.playground/Contents.swift:73 | the same for a whole table |
| SudokuGrid.PlaceZeroCount | SudokuSolver.playground/Contents.swift:73 | writing a digit into an unset cell removes exactly one unset cell, into a set cell none |
| TrivialFill.PassState | SudokuSolver.playground/Contents.swift:59-65 | the locals of one pass: `table`, `noCellsWithMultipleCandidates`, `foundNewDigitOnCurrentIteration` and `cellWithMinCandidates`, or a dead pass after the return at line 70 |
| TrivialFill.Sole | SudokuSolver.playground/Contents.swift:72 | `cand.first` of a one-element set is its only member |
| TrivialFill.Branch | SudokuSolver.playground/Contents.swift:56 | the tracked cell (`CellIndexWithCandidates`): row, column and the candidate set recorded with it; a tracked branch satisfies BranchOk (indices 0..8, two or more digits 1..9), shown by FillFacts |
| TrivialFill.Visit | SudokuSolver.playground/Contents.swift:67-81 | one cell keeps the state well formed; a changed table has exactly one unset cell fewer and raises `found` |
| TrivialFill.VisitPlacesForced | SudokuSolver.playground/Contents.swift:67-75 | a set cell is skipped and leaves the state as it was; a cell aborts the pass iff it is unset with an empty candidate set; an unset cell with a single candidate is written with that digit and raises `found`, and nothing else changes; a cell is written only in that case, and later cells see the write |
| TrivialFill.VisitExtends | SudokuSolver.playground/Contents.swift:67-81 | one cell only fills an unset cell, with a digit 1..9 |
| TrivialFill.VisitFlags | SudokuSolver.playground/Contents.swift:64-80 | the flag stays set only if it was and the cell is set; a cleared flag comes with a tracker; a tracker is never dropped |
| TrivialFill.VisitRecords | SudokuSolver.playground/Contents.swift:78-79 | a newly tracked branch is this cell, which is unset, and the table is unchanged; the tracker is replaced only when it was nil or by a strictly smaller candidate set |
| TrivialFill.VisitTracksAmbiguous | SudokuSolver.playground/Contents.swift:76-80 | an unset cell with two or more candidates clears `noCellsWithMultipleCandidates` and leaves the table and `found` alone; it becomes the tracker, with its candidate set, exactly when the tracker was nil or holds a strictly larger set, and otherwise the tracker is kept |
| TrivialFill.VisitCount | SudokuSolver.playground/Contents.swift:72-75 | one cell never adds unset cells, removes one whenever it changes the table, and raises `found` only by a placement |
| TrivialFill.ScanFrom | SudokuSolver.playground/Contents.swift:66-83 | the cells from (i, j) on in row-major order keep the state well formed, and a pass that died stays dead (the early return at line 70) |
| TrivialFill.ScanCount | SudokuSolver.playground/Contents.swift:66-83 | the same for the rest of a pass: no unset cell is added, a changed table has fewer, and a raised `found` means fewer |
| TrivialFill.Pass | SudokuSolver.playground/Contents.swift:64-83 | one pass of the `for` loops, both flags reset and the tracker kept: it yields a dead pass or a well-formed 9 by 9 table with a well-formed tracker |
| TrivialFill.ScanExtends | SudokuSolver.playground/Contents.swift:66-83 | a pass only fills unset cells, with digits 1..9, so preset cells are kept |
| TrivialFill.FilledFromStep | SudokuSolver.playground/Contents.swift:66-67 | a cell set before the pass reached it stays set, so "set from (i, j+1) on" extends to (i, j) |
| TrivialFill.FilledFromRow | SudokuSolver.playground/Contents.swift:66-67 | "set from the start of row i+1 on" is "set from the end of row i on" |
| TrivialFill.ScanFilled | SudokuSolver.playground/Contents.swift:64-83 | a pass that keeps `noCellsWithMultipleCandidates` leaves no unset cell behind it |
| TrivialFill.ScanTracker | SudokuSolver.playground/Contents.swift:77-80 | a pass that clears the flag ends with a tracker, and a tracker is never dropped |
| TrivialFill.RecordedChain | SudokuSolver.playground/Contents.swift:78-79 | a branch recorded at a cell unset in a middle table was unset in the earlier table too, when the middle table only filled cells |
| TrivialFill.ScanRecorded | SudokuSolver.playground/Contents.swift:78-79 | a tracker recorded in a pass names a cell unset at the pass start, still unset unless digits were placed |
| TrivialFill.PassFacts | SudokuSolver.playground/Contents.swift:64-83 | a full pass extends the table; if the flag survives, no cell is unset; otherwise there is a tracker; a new tracker was recorded at an unset cell |
| TrivialFill.VisitKeepsSolution | SudokuSolver.playground/Contents.swift:67-81 | a valid extending solution survives one cell: no abort, a forced digit is the solution's, a new tracked set holds the solution's digit |
| TrivialFill.ScanKeepsSolution | SudokuSolver.playground/Contents.swift:66-83 | the same for the rest of a pass |
| TrivialFill.VisitKeepsConflictFree | SudokuSolver.playground/Contents.swift:72-73 | one cell keeps a conflict-free table conflict-free |
| TrivialFill.ScanKeepsConflictFree | SudokuSolver.playground/Contents.swift:66-83 | a pass keeps a conflict-free table conflict-free |
| TrivialFill.Fill | SudokuSolver.playground/Contents.swift:63-92 | the three exits of the trivial-fill loop: `.noSolution` at line 70, `.solution(table)` at line 87, and the `break` at line 90 with the table and the tracker |
| TrivialFill.FillSpec | SudokuSolver.playground/Contents.swift:63-92 | the `while true` loop pass by pass, recursing on the count of unset cells: a completed or stalled result is a 9 by 9 table, and a stalled one carries a well-formed tracker |
| TrivialFill.FillFacts | SudokuSolver.playground/Contents.swift:63-92 | a completed table extends the input and has no unset cell; a stalled one extends it, has no more unset cells, has a tracked branch, and a branch not handed in was recorded at a cell unset in the input |
| TrivialFill.FillKeepsSolution | SudokuSolver.playground/Contents.swift:63-92 | with a valid extending solution the loop never reports noSolution, a completed table is that solution, and a stalled table is still extended by it with its digit in the tracked set |
| TrivialFill.ContradictionUnsolvable | SudokuSolver.playground/Contents.swift:68-71 | returning noSolution at an empty candidate set means no valid solution extends the input |
| TrivialFill.TrivialFillSound | SudokuSolver.playground/Contents.swift:68-87 | from a conflict-free table of digits, a table completed by trivial fills is a valid solution |
| TrivialFill.FillTrivialCells | SudokuSolver.playground/Contents.swift:59-92 | the loop with its in-place writes, flags and never-reset tracker ends exactly as the pass-by-pass specification says |
| TrivialFill.ExtendsPlace | SudokuSolver.playground/Contents.swift:97-98 | writing a solution's own digit into a cell keeps the solution an extension |
| Solver.Result | SudokuSolver.playground/Contents.swift:5-8 | the outcome of solveSudoku: a solution table, or noSolution |
| Solver.ExtendsPlaceUnset | SudokuSolver.playground/Contents.swift:97-98 | writing a digit into a cell unset in the input keeps an extension an extension |
| Solver.BranchShrinks | SudokuSolver.playground/Contents.swift:95-100 | the recursive call's table has strictly fewer unset cells than the caller's input |
| Solver.BranchCovers | SudokuSolver.playground/Contents.swift:95-96 | every valid solution of the input puts one of the tracked candidates into the branch cell |
| Solver.BranchExtends | SudokuSolver.playground/Contents.swift:95-100 | the assumption table keeps the input's presets and has strictly fewer unset cells than the input |
| Solver.BranchSolution | SudokuSolver.playground/Contents.swift:97-104 | a solution of the assumption table holds the tried candidate in the branch cell, so it extends the stalled table with that cell set to its own digit |
| Solver.DeadEnd | SudokuSolver.playground/Contents.swift:100-102 | a dead end for a candidate rules out every solution of the input with that digit in the branch cell |
| Solver.SolveSudoku | SudokuSolver.playground/Contents.swift:58-109 | a solution keeps every preset cell and has no unset cell, and is valid when a conflict-free input is completed by trivial fills; noSolution only when no valid solution extends the input; a trivial fill that meets an empty candidate set gives noSolution, and a table the trivial fill completes is returned as the solution; after a stalled fill, a solution holds one of the tracked candidates in the branch cell and keeps every other cell the trivial fills set, because it is the recursive result on the assumption table; termination on the count of unset cells |

## Left out

- Solver.SolveSudoku: does not promise that a solution found by backtracking is valid. The tracker `cellWithMinCandidates` is never reset between passes, so the branch cell may have been filled since it was recorded, and its recorded candidates may include digits now used by a peer. A placement there can overwrite a filled cell or add a conflict that the trivial fill never checks again. What is proved is listed above. The model also does not say which candidate is tried first, so "the first success wins" is not stated: the contract holds for whichever candidate succeeds.
- All printing (`print`, `printSudokuTable`) is left out. It is console output only.
- The demo table and top-level driver (lines 124-145) are left out. They are I/O glue.
- The order in which a Swift `Set` is iterated is unspecified. The model chooses the next candidate arbitrarily, so it does not say which of several solutions is returned.
- The `if let` at line 95 has a nil case. It is not modelled because it cannot happen: a stalled loop always has a tracker (TrivialFill.FillFacts).
- Tables that are not 9 rows of 9 cells are outside the model. The demo table is 9 by 9, and the solver and the verifier fix the size: the candidate set is drawn from `allDigits` (1..9), the trivial-fill loops and `verifySudokuSolution` run over indices 0...8, and the blocks are 3 by 3. On a table of another shape the source would index out of range or miss cells. `usedDigitsInRow` and `usedDigitsInColumn` walk the whole row and every row, which is the same as indices 0...8 on a 9 by 9 table.
- Performance of the solver is not modelled.
