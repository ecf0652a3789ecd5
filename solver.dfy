/** solveSudoku: the trivial-fill loop, then backtracking on the tracked cell,
    trying its recorded candidates one by one on a copy of the table. */
module Solver {
  import opened SudokuGrid
  import opened Constraints
  import opened TrivialFill

  /** The outcome of solveSudoku (Swift's `enum Result`). */
  datatype Result = Solution(table: Grid) | NoSolution

  /** Filling a cell unset in the input with a digit keeps an extension an extension. */
  lemma ExtendsPlaceUnset(table: Grid, t: Grid, i: int, j: int, d: int)
    requires Extends(table, t) && 0 <= i < 9 && 0 <= j < 9 && table[i][j] == 0 && 1 <= d <= 9
    ensures Extends(table, Place(t, i, j, d))
  {
  }

  /** The assumption table handed to the recursive call has fewer unset cells than
      the caller's input: the branch cell was unset in the input, and either it is
      still unset in the stalled table or digits were placed since. */
  lemma BranchShrinks(table: Grid, t: Grid, b: Branch, candidate: int)
    requires IsGrid(table) && IsGrid(t) && BranchOk(b) && candidate != 0
    requires ZeroCount(t) <= ZeroCount(table) && RecordedUnset(b, table, t)
    ensures ZeroCount(Place(t, b.row, b.col, candidate)) < ZeroCount(table)
  {
    PlaceZeroCount(t, b.row, b.col, candidate);
  }

  /** Every valid solution of the input puts one of the tracked branch's digits
      into the branch cell. */
  lemma BranchCovers(table: Grid, t: Grid, b: Branch)
    requires IsGrid(table) && BranchOk(b) && FillSpec(table, None) == Stalled(t, Some(b))
    ensures forall s :: Extends(table, s) && ValidSolution(s) ==> s[b.row][b.col] in b.cands
  {
    forall s | Extends(table, s) && ValidSolution(s)
      ensures s[b.row][b.col] in b.cands
    {
      FillKeepsSolution(table, None, s);
    }
  }

  /** The assumption table extends the input: the branch cell was unset in it. */
  lemma BranchExtends(table: Grid, t: Grid, b: Branch, candidate: int)
    requires IsGrid(table) && IsGrid(t) && BranchOk(b) && candidate in b.cands
    requires FillSpec(table, None) == Stalled(t, Some(b))
    ensures Extends(table, Place(t, b.row, b.col, candidate))
    ensures ZeroCount(Place(t, b.row, b.col, candidate)) < ZeroCount(table)
  {
    FillFacts(table, None);
    var out := FillSpec(table, None);
    assert out.table == t && out.tracker == Some(b);
    assert Extends(table, t);
    assert RecordedUnset(b, table, t);
    assert ZeroCount(t) <= ZeroCount(table);
    AllDigitsRange(candidate);
    BranchShrinks(table, t, b, candidate);
    ExtendsPlaceUnset(table, t, b.row, b.col, candidate);
  }

  /** A table extending the assumption table holds the candidate in the branch
      cell, so the assumption table is the stalled table with that cell set to it. */
  lemma BranchSolution(t: Grid, b: Branch, candidate: int, sol: Grid)
    requires IsGrid(t) && BranchOk(b) && candidate in b.cands
    requires Extends(Place(t, b.row, b.col, candidate), sol)
    ensures sol[b.row][b.col] == candidate
    ensures Extends(Place(t, b.row, b.col, sol[b.row][b.col]), sol)
  {
    AllDigitsRange(candidate);
  }

  /** When the assumption table has no solution, no valid solution of the input puts
      that candidate into the branch cell. */
  lemma DeadEnd(table: Grid, t: Grid, b: Branch, candidate: int)
    requires IsGrid(table) && IsGrid(t) && BranchOk(b) && FillSpec(table, None) == Stalled(t, Some(b))
    requires !Solvable(Place(t, b.row, b.col, candidate))
    ensures forall s :: Extends(table, s) && ValidSolution(s) ==> s[b.row][b.col] != candidate
  {
    forall s | Extends(table, s) && ValidSolution(s)
      ensures s[b.row][b.col] != candidate
    {
      FillKeepsSolution(table, None, s);
      ExtendsPlace(t, b.row, b.col, s);
    }
  }

  /** solveSudoku, lines 58-109. A returned solution keeps every preset cell of the
      input and has no unset cell; it is a valid solution whenever the input is a
      conflict-free table of digits that the trivial fills complete. NoSolution is
      returned only when no valid solution extends the input. An empty candidate
      set met by the trivial fill gives NoSolution at once, and a table the trivial
      fill completes is returned as it is. After a stalled fill, a solution is one
      returned by the recursive call on the stalled table with the branch cell set
      to one of its recorded candidates, so it keeps every cell of the stalled
      table except the branch cell, which holds that candidate. Candidates of the
      branch cell are tried in an arbitrary order, the first success wins. */
  method SolveSudoku(table: Grid) returns (res: Result)
    requires IsGrid(table)
    ensures res.Solution? ==> Extends(table, res.table) && NoZeros(res.table)
    ensures res.Solution? && HasDigits(table) && ConflictFree(table) && FillSpec(table, None).Complete? ==>
      ValidSolution(res.table)
    ensures res.NoSolution? ==> !Solvable(table)
    ensures FillSpec(table, None).Contradiction? ==> res.NoSolution?
    ensures FillSpec(table, None).Complete? ==> res == Solution(FillSpec(table, None).table)
    ensures FillSpec(table, None).Stalled? && res.Solution? ==>
      var f := FillSpec(table, None);
      && f.tracker.Some? && 0 <= f.tracker.value.row < 9 && 0 <= f.tracker.value.col < 9
      && var b := f.tracker.value;
         && res.table[b.row][b.col] in b.cands
         && Extends(Place(f.table, b.row, b.col, res.table[b.row][b.col]), res.table)
    decreases ZeroCount(table)
  {
    var fill := FillTrivialCells(table);
    FillFacts(table, None);
    match fill
    case Contradiction =>
      ContradictionUnsolvable(table);
      return NoSolution;
    case Complete(t) =>
      if HasDigits(table) && ConflictFree(table) {
        TrivialFillSound(table, None);
      }
      return Solution(t);
    case Stalled(t, Some(b)) =>
      var i, j := b.row, b.col;
      BranchCovers(table, t, b);
      var untried := b.cands;
      while untried != {}
        invariant untried <= b.cands
        invariant forall s :: Extends(table, s) && ValidSolution(s) ==> s[i][j] in untried
        decreases |untried|
      {
        NoMemberEmpty(untried);
        var candidate :| candidate in untried;
        var assumptionTable := t;
        assumptionTable := assumptionTable[i := assumptionTable[i][j := candidate]];
        BranchExtends(table, t, b, candidate);
        var sub := SolveSudoku(assumptionTable);
        match sub
        case Solution(solutionTable) =>
          ExtendsTrans(table, assumptionTable, solutionTable);
          BranchSolution(t, b, candidate, solutionTable);
          return Solution(solutionTable);
        case NoSolution =>
          DeadEnd(table, t, b, candidate);
          untried := untried - {candidate};
      }
      return NoSolution;
  }
}
