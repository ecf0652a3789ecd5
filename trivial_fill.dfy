/** Step 1 of solveSudoku: the trivial-fill loop. Full row-major passes over
    the table place every digit that is a cell's only candidate, abort on a
    cell without candidates, and track a cell with the fewest candidates for
    the backtracking step. The tracker is never reset between passes. */
module TrivialFill {
  import opened SudokuGrid
  import opened Constraints

  datatype Option<T> = None | Some(value: T)

  /** A tracked branching cell and the candidate set it had when recorded
      (Swift's `CellIndexWithCandidates`). */
  datatype Branch = Branch(row: int, col: int, cands: set<int>)

  /** The local variables of one pass (`table`, `noCellsWithMultipleCandidates`,
      `foundNewDigitOnCurrentIteration`, `cellWithMinCandidates`), or Dead once
      a cell without candidates was met. */
  datatype PassState =
    | Dead
    | Scanning(table: Grid, noMultiple: bool, found: bool, tracker: Option<Branch>)

  /** How the trivial-fill loop ends: `.noSolution` at line 70, `.solution` at
      line 87, or the `break` at line 90 that leads to backtracking. */
  datatype Fill =
    | Contradiction
    | Complete(table: Grid)
    | Stalled(table: Grid, tracker: Option<Branch>)

  /** A branch names a cell of the table and at least two digits. */
  predicate BranchOk(b: Branch) {
    0 <= b.row < 9 && 0 <= b.col < 9 && b.cands <= AllDigits && |b.cands| >= 2
  }

  predicate TrackerOk(tracker: Option<Branch>) {
    tracker.Some? ==> BranchOk(tracker.value)
  }

  predicate StateOk(st: PassState) {
    st.Scanning? ==> IsGrid(st.table) && TrackerOk(st.tracker)
  }

  /** A set without members is empty. */
  lemma NoMemberEmpty(s: set<int>)
    ensures (forall x :: x !in s) ==> s == {}
  {
    if forall x :: x !in s {
      assert forall x :: x in s <==> x in {};
    }
  }

  /** The only member of a one-element set (`cand.first` when `cand.count == 1`). */
  ghost function Sole(s: set<int>): (x: int)
    requires |s| == 1
    ensures s == {x}
  {
    NoMemberEmpty(s);
    var x :| x in s;
    assert |s - {x}| == 0;
    x
  }

  /** One cell of a pass, lines 67-81: an unset cell with no candidate kills the
      pass, one with a single candidate gets it, one with several competes for
      the tracker, which is replaced only by a strictly smaller candidate set. */
  ghost function Visit(st: PassState, i: int, j: int): (next: PassState)
    requires StateOk(st) && st.Scanning? && 0 <= i < 9 && 0 <= j < 9
    ensures StateOk(next)
    ensures next.Scanning? && next.table != st.table ==>
      ZeroCount(next.table) == ZeroCount(st.table) - 1 && next.found
  {
    if st.table[i][j] != 0 then st
    else
      var cand := Candidates(i, j, st.table);
      if cand == {} then Dead
      else if |cand| == 1 then
        var digit := Sole(cand);
        PlaceZeroCount(st.table, i, j, digit);
        st.(table := Place(st.table, i, j, digit), found := true)
      else
        var tracker :=
          if st.tracker.None? || |cand| < |st.tracker.value.cands| then Some(Branch(i, j, cand))
          else st.tracker;
        st.(noMultiple := false, tracker := tracker)
  }

  /** The rest of a pass: the cells from (i, j) on, in row-major order. A dead
      pass stays dead. */
  ghost function ScanFrom(st: PassState, i: int, j: int): (last: PassState)
    requires StateOk(st) && 0 <= i <= 9 && 0 <= j <= 9
    ensures StateOk(last)
    ensures st.Dead? ==> last.Dead?
    decreases 9 - i, 9 - j
  {
    if st.Dead? || i == 9 then st
    else if j == 9 then ScanFrom(st, i + 1, 0)
    else
      ScanFrom(Visit(st, i, j), i, j + 1)
  }

  /** One cell never adds unset cells, removes one whenever it changes the table,
      and raises `found` only by a placement. */
  lemma VisitCount(st: PassState, i: int, j: int)
    requires StateOk(st) && st.Scanning? && 0 <= i < 9 && 0 <= j < 9
    ensures var next := Visit(st, i, j);
      next.Scanning? ==>
        && ZeroCount(next.table) <= ZeroCount(st.table)
        && (next.table == st.table || ZeroCount(next.table) < ZeroCount(st.table))
        && (next.found && !st.found ==> ZeroCount(next.table) < ZeroCount(st.table))
  {
  }

  /** A pass never adds unset cells, removes some whenever it changes the table,
      and raises `found` only by a placement. */
  lemma {:induction false} ScanCount(st: PassState, i: int, j: int)
    requires StateOk(st) && st.Scanning? && 0 <= i <= 9 && 0 <= j <= 9
    ensures var last := ScanFrom(st, i, j);
      last.Scanning? ==>
        && ZeroCount(last.table) <= ZeroCount(st.table)
        && (last.table == st.table || ZeroCount(last.table) < ZeroCount(st.table))
        && (last.found && !st.found ==> ZeroCount(last.table) < ZeroCount(st.table))
    decreases 9 - i, 9 - j
  {
    var last := ScanFrom(st, i, j);
    if i == 9 || !last.Scanning? {
    } else if j == 9 {
      ScanCount(st, i + 1, 0);
    } else {
      var next := Visit(st, i, j);
      assert last == ScanFrom(next, i, j + 1);
      VisitCount(st, i, j);
      ScanCount(next, i, j + 1);
    }
  }

  /** One full pass from a fresh start: both flags reset, the tracker kept. */
  ghost function Pass(t: Grid, tracker: Option<Branch>): (last: PassState)
    requires IsGrid(t) && TrackerOk(tracker)
    ensures StateOk(last)
  {
    ScanFrom(Scanning(t, true, false, tracker), 0, 0)
  }

  /** Every cell at or after (i, j) in row-major order is set. */
  ghost predicate FilledFrom(t: Grid, i: int, j: int)
    requires IsGrid(t)
  {
    forall r, c :: 0 <= r < 9 && 0 <= c < 9 && (r > i || (r == i && c >= j)) ==> t[r][c] != 0
  }

  /** b was recorded when its cell was unset in a, and the cell is still unset in
      z unless z has fewer unset cells than a. */
  ghost predicate RecordedUnset(b: Branch, a: Grid, z: Grid)
    requires IsGrid(a) && IsGrid(z) && BranchOk(b)
  {
    a[b.row][b.col] == 0 && (z[b.row][b.col] == 0 || ZeroCount(z) < ZeroCount(a))
  }

  /** One cell only fills an unset cell, and only with a digit. */
  lemma VisitExtends(st: PassState, i: int, j: int)
    requires StateOk(st) && st.Scanning? && 0 <= i < 9 && 0 <= j < 9
    ensures var next := Visit(st, i, j);
      next.Scanning? ==> Extends(st.table, next.table)
  {
  }

  /** After one cell, `noMultiple` is still set only if it was and the cell is set;
      a cleared `noMultiple` comes with a tracker, and a tracker is never dropped. */
  lemma VisitFlags(st: PassState, i: int, j: int)
    requires StateOk(st) && st.Scanning? && 0 <= i < 9 && 0 <= j < 9
    ensures var next := Visit(st, i, j);
      next.Scanning? ==>
        && (next.noMultiple ==> st.noMultiple && next.table[i][j] != 0)
        && (!next.noMultiple ==> !st.noMultiple || next.tracker.Some?)
        && (st.tracker.Some? ==> next.tracker.Some?)
  {
  }

  /** A newly tracked branch is this cell, unset, with the table unchanged, and it
      replaces the tracker only if there was none or its candidate set is strictly
      smaller than the tracked one. */
  lemma VisitRecords(st: PassState, i: int, j: int)
    requires StateOk(st) && st.Scanning? && 0 <= i < 9 && 0 <= j < 9
    ensures var next := Visit(st, i, j);
      next.Scanning? && next.tracker != st.tracker ==>
        && next.tracker.Some? && next.tracker.value.row == i && next.tracker.value.col == j
        && st.table[i][j] == 0 && next.table == st.table
        && (st.tracker.None? || |next.tracker.value.cands| < |st.tracker.value.cands|)
  {
  }

  /** An unset cell with several candidates clears `noMultiple` and leaves the table
      alone; it becomes the tracked branch, with its current candidate set, exactly
      when there was no tracker or its set is strictly smaller than the tracked one;
      otherwise the tracker is kept, even if it is stale. */
  lemma VisitTracksAmbiguous(st: PassState, i: int, j: int)
    requires StateOk(st) && st.Scanning? && 0 <= i < 9 && 0 <= j < 9
    requires st.table[i][j] == 0 && |Candidates(i, j, st.table)| >= 2
    ensures var next := Visit(st, i, j);
      var cand := Candidates(i, j, st.table);
      && next.Scanning? && next.table == st.table && !next.noMultiple && next.found == st.found
      && (st.tracker.None? || |cand| < |st.tracker.value.cands| ==> next.tracker == Some(Branch(i, j, cand)))
      && (st.tracker.Some? && |cand| >= |st.tracker.value.cands| ==> next.tracker == st.tracker)
  {
  }

  /** A set cell is skipped. A cell kills the pass exactly when it is unset and has
      no candidate. An unset cell with a single candidate is written with it and
      raises `found`, and a cell changes only in that case; the written table is
      the old one with that cell set, which later cells see. */
  lemma VisitPlacesForced(st: PassState, i: int, j: int)
    requires StateOk(st) && st.Scanning? && 0 <= i < 9 && 0 <= j < 9
    ensures var next := Visit(st, i, j);
      && (st.table[i][j] != 0 ==> next == st)
      && (next.Dead? <==> st.table[i][j] == 0 && Candidates(i, j, st.table) == {})
      && (st.table[i][j] == 0 && |Candidates(i, j, st.table)| == 1 ==>
            && Candidates(i, j, st.table) == {Sole(Candidates(i, j, st.table))}
            && next == st.(table := Place(st.table, i, j, Sole(Candidates(i, j, st.table))), found := true))
      && (next.Scanning? && next.table != st.table ==>
            && st.table[i][j] == 0 && Candidates(i, j, st.table) == {next.table[i][j]}
            && next.table == Place(st.table, i, j, next.table[i][j]))
  {
  }

  /** A pass only fills unset cells, and only with digits. */
  lemma {:induction false} ScanExtends(st: PassState, i: int, j: int)
    requires StateOk(st) && st.Scanning? && 0 <= i <= 9 && 0 <= j <= 9
    ensures var last := ScanFrom(st, i, j);
      last.Scanning? ==> Extends(st.table, last.table)
    decreases 9 - i, 9 - j
  {
    var last := ScanFrom(st, i, j);
    if i == 9 || !last.Scanning? {
    } else if j == 9 {
      ScanExtends(st, i + 1, 0);
    } else {
      var next := Visit(st, i, j);
      assert last == ScanFrom(next, i, j + 1);
      VisitExtends(st, i, j);
      ScanExtends(next, i, j + 1);
      ExtendsTrans(st.table, next.table, last.table);
    }
  }

  /** Moving the start of FilledFrom one cell back over a set cell. */
  lemma FilledFromStep(a: Grid, z: Grid, i: int, j: int)
    requires Extends(a, z) && 0 <= i < 9 && 0 <= j < 9 && a[i][j] != 0
    requires FilledFrom(z, i, j + 1)
    ensures FilledFrom(z, i, j)
  {
  }

  /** The end of row i is the start of row i + 1. */
  lemma FilledFromRow(z: Grid, i: int)
    requires IsGrid(z) && 0 <= i < 9 && FilledFrom(z, i + 1, 0)
    ensures FilledFrom(z, i, 9)
  {
  }

  /** A pass that keeps `noMultiple` set leaves no unset cell from (i, j) on. */
  lemma {:induction false} ScanFilled(st: PassState, i: int, j: int)
    requires StateOk(st) && st.Scanning? && 0 <= i <= 9 && 0 <= j <= 9
    ensures var last := ScanFrom(st, i, j);
      last.Scanning? && last.noMultiple ==> st.noMultiple && FilledFrom(last.table, i, j)
    decreases 9 - i, 9 - j
  {
    var last := ScanFrom(st, i, j);
    if i == 9 || !last.Scanning? || !last.noMultiple {
    } else if j == 9 {
      ScanFilled(st, i + 1, 0);
      FilledFromRow(last.table, i);
    } else {
      var next := Visit(st, i, j);
      assert last == ScanFrom(next, i, j + 1);
      VisitFlags(st, i, j);
      ScanFilled(next, i, j + 1);
      ScanExtends(next, i, j + 1);
      FilledFromStep(next.table, last.table, i, j);
    }
  }

  /** A pass that clears `noMultiple` ends with a tracker, and a tracker is never dropped. */
  lemma {:induction false} ScanTracker(st: PassState, i: int, j: int)
    requires StateOk(st) && st.Scanning? && 0 <= i <= 9 && 0 <= j <= 9
    ensures var last := ScanFrom(st, i, j);
      last.Scanning? ==>
        && (!last.noMultiple ==> !st.noMultiple || last.tracker.Some?)
        && (st.tracker.Some? ==> last.tracker.Some?)
    decreases 9 - i, 9 - j
  {
    var last := ScanFrom(st, i, j);
    if i == 9 || !last.Scanning? {
    } else if j == 9 {
      ScanTracker(st, i + 1, 0);
    } else {
      var next := Visit(st, i, j);
      assert last == ScanFrom(next, i, j + 1);
      VisitFlags(st, i, j);
      ScanTracker(next, i, j + 1);
    }
  }

  /** A branch recorded unset between m and z was already unset in a, if m only
      fills cells of a and is either a itself or has fewer unset cells. */
  lemma RecordedChain(b: Branch, a: Grid, m: Grid, z: Grid)
    requires IsGrid(a) && IsGrid(m) && IsGrid(z) && BranchOk(b)
    requires Extends(a, m) && RecordedUnset(b, m, z)
    requires m == a || ZeroCount(m) < ZeroCount(a)
    ensures RecordedUnset(b, a, z)
  {
  }

  /** A tracker recorded during a pass names a cell unset when the pass began, which
      stays unset unless a digit was placed after it was recorded. */
  lemma {:induction false} ScanRecorded(st: PassState, i: int, j: int)
    requires StateOk(st) && st.Scanning? && 0 <= i <= 9 && 0 <= j <= 9
    ensures var last := ScanFrom(st, i, j);
      last.Scanning? && last.tracker != st.tracker ==>
        last.tracker.Some? && RecordedUnset(last.tracker.value, st.table, last.table)
    decreases 9 - i, 9 - j
  {
    var last := ScanFrom(st, i, j);
    if i == 9 || !last.Scanning? || last.tracker == st.tracker {
    } else if j == 9 {
      ScanRecorded(st, i + 1, 0);
    } else {
      var next := Visit(st, i, j);
      assert last == ScanFrom(next, i, j + 1);
      VisitExtends(st, i, j);
      VisitRecords(st, i, j);
      if last.tracker == next.tracker {
        ScanCount(next, i, j + 1);
        assert next.table == st.table && st.table[i][j] == 0;
      } else {
        ScanRecorded(next, i, j + 1);
        RecordedChain(last.tracker.value, st.table, next.table, last.table);
      }
    }
  }

  /** All facts about one full pass from a fresh start. */
  lemma PassFacts(t: Grid, tracker: Option<Branch>)
    requires IsGrid(t) && TrackerOk(tracker)
    ensures var last := Pass(t, tracker);
      last.Scanning? ==>
        && Extends(t, last.table)
        && ZeroCount(last.table) <= ZeroCount(t)
        && (last.found ==> ZeroCount(last.table) < ZeroCount(t))
        && (last.noMultiple ==> NoZeros(last.table))
        && (!last.noMultiple ==> last.tracker.Some?)
        && (last.tracker != tracker ==> last.tracker.Some? && RecordedUnset(last.tracker.value, t, last.table))
  {
    var first := Scanning(t, true, false, tracker);
    ScanExtends(first, 0, 0);
    ScanCount(first, 0, 0);
    ScanFilled(first, 0, 0);
    ScanTracker(first, 0, 0);
    ScanRecorded(first, 0, 0);
  }

  /** The tracked cell, if any, holds one of its candidates in the solution s. */
  ghost predicate Admits(tracker: Option<Branch>, s: Grid)
    requires IsGrid(s)
  {
    tracker.Some? ==>
      var b := tracker.value;
      0 <= b.row < 9 && 0 <= b.col < 9 && s[b.row][b.col] in b.cands
  }

  /** Putting a solution's own digit into a cell of t keeps the solution an extension. */
  lemma ExtendsPlace(t: Grid, i: int, j: int, s: Grid)
    requires Extends(t, s) && ValidSolution(s) && 0 <= i < 9 && 0 <= j < 9
    ensures Extends(Place(t, i, j, s[i][j]), s)
  {
  }

  /** A solution of the table survives one cell: the cell has a candidate, a forced
      digit is the solution's, and a newly tracked set contains the solution's digit. */
  lemma VisitKeepsSolution(st: PassState, i: int, j: int, s: Grid)
    requires StateOk(st) && st.Scanning? && 0 <= i < 9 && 0 <= j < 9
    requires ValidSolution(s) && Extends(st.table, s) && Admits(st.tracker, s)
    ensures var next := Visit(st, i, j);
      next.Scanning? && Extends(next.table, s) && Admits(next.tracker, s)
  {
    if st.table[i][j] == 0 {
      var cand := Candidates(i, j, st.table);
      SolutionInCandidates(st.table, s, i, j);
      assert s[i][j] in cand;
      if |cand| == 1 {
        assert Sole(cand) == s[i][j];
        ExtendsPlace(st.table, i, j, s);
      }
    }
  }

  /** A valid solution that extends the table and agrees with the tracked branch
      survives a pass: the pass cannot die, its placements agree with the
      solution, and every tracked candidate set contains the solution's digit. */
  lemma {:induction false} ScanKeepsSolution(st: PassState, i: int, j: int, s: Grid)
    requires StateOk(st) && st.Scanning? && 0 <= i <= 9 && 0 <= j <= 9
    requires ValidSolution(s) && Extends(st.table, s) && Admits(st.tracker, s)
    ensures var last := ScanFrom(st, i, j);
      last.Scanning? && Extends(last.table, s) && Admits(last.tracker, s)
    decreases 9 - i, 9 - j
  {
    if i == 9 {
    } else if j == 9 {
      ScanKeepsSolution(st, i + 1, 0, s);
    } else {
      VisitKeepsSolution(st, i, j, s);
      ScanKeepsSolution(Visit(st, i, j), i, j + 1, s);
    }
  }

  /** One cell keeps a conflict-free table conflict-free. */
  lemma VisitKeepsConflictFree(st: PassState, i: int, j: int)
    requires StateOk(st) && st.Scanning? && 0 <= i < 9 && 0 <= j < 9
    requires ConflictFree(st.table)
    ensures var next := Visit(st, i, j);
      next.Scanning? ==> ConflictFree(next.table)
  {
    var next := Visit(st, i, j);
    if next.Scanning? && next.table != st.table {
      PlaceCandidateConflictFree(st.table, i, j, Sole(Candidates(i, j, st.table)));
    }
  }

  /** A pass keeps a conflict-free table conflict-free. */
  lemma {:induction false} ScanKeepsConflictFree(st: PassState, i: int, j: int)
    requires StateOk(st) && st.Scanning? && 0 <= i <= 9 && 0 <= j <= 9
    requires ConflictFree(st.table)
    ensures var last := ScanFrom(st, i, j);
      last.Scanning? ==> ConflictFree(last.table)
    decreases 9 - i, 9 - j
  {
    if i == 9 {
    } else if j == 9 {
      ScanKeepsConflictFree(st, i + 1, 0);
    } else {
      var next := Visit(st, i, j);
      VisitKeepsConflictFree(st, i, j);
      if next.Scanning? {
        ScanKeepsConflictFree(next, i, j + 1);
      }
    }
  }

  /** The trivial-fill loop, lines 63-92: repeat passes while a pass placed a digit
      and left an ambiguous cell; stop on a dead pass, on a pass with no ambiguous
      cell, or on a pass that placed nothing. The tracker carries over. */
  ghost function FillSpec(t: Grid, tracker: Option<Branch>): (out: Fill)
    requires IsGrid(t) && TrackerOk(tracker)
    ensures !out.Contradiction? ==> IsGrid(out.table)
    ensures out.Stalled? ==> TrackerOk(out.tracker)
    decreases ZeroCount(t)
  {
    ScanCount(Scanning(t, true, false, tracker), 0, 0);
    match Pass(t, tracker)
    case Dead => Contradiction
    case Scanning(table, noMultiple, found, tracked) =>
      if noMultiple then Complete(table)
      else if !found then Stalled(table, tracked)
      else FillSpec(table, tracked)
  }

  /** A completed table extends t and has no unset cell; a stalled one extends t,
      has no more unset cells and has a tracked branch, and a branch not handed in
      was recorded at a cell unset in t that is still unset unless unset cells
      were filled since. */
  lemma {:induction false} FillFacts(t: Grid, tracker: Option<Branch>)
    requires IsGrid(t) && TrackerOk(tracker)
    ensures var out := FillSpec(t, tracker);
      && (out.Complete? ==> Extends(t, out.table) && NoZeros(out.table))
      && (out.Stalled? ==>
            && Extends(t, out.table) && ZeroCount(out.table) <= ZeroCount(t)
            && out.tracker.Some? && BranchOk(out.tracker.value))
      && (out.Stalled? && out.tracker != tracker ==>
            RecordedUnset(out.tracker.value, t, out.table))
    decreases ZeroCount(t)
  {
    PassFacts(t, tracker);
    var last := Pass(t, tracker);
    if last.Scanning? && !last.noMultiple && last.found {
      FillFacts(last.table, last.tracker);
      var out := FillSpec(last.table, last.tracker);
      if !out.Contradiction? {
        ExtendsTrans(t, last.table, out.table);
      }
    }
  }

  /** Solutions survive the trivial-fill loop: it never reports a contradiction on a
      table some valid solution extends, a completed table is that solution, and a
      stalled table is still extended by it, with its digit among the branch's. */
  lemma {:induction false} FillKeepsSolution(t: Grid, tracker: Option<Branch>, s: Grid)
    requires IsGrid(t) && TrackerOk(tracker)
    requires ValidSolution(s) && Extends(t, s) && Admits(tracker, s)
    ensures var out := FillSpec(t, tracker);
      && !out.Contradiction?
      && (out.Complete? ==> out.table == s)
      && (out.Stalled? ==> Extends(out.table, s) && Admits(out.tracker, s))
    decreases ZeroCount(t)
  {
    var first := Scanning(t, true, false, tracker);
    ScanKeepsSolution(first, 0, 0, s);
    PassFacts(t, tracker);
    var last := Pass(t, tracker);
    if last.noMultiple {
      ExtendsFull(last.table, s);
    } else if last.found {
      FillKeepsSolution(last.table, last.tracker, s);
    }
  }

  /** A contradiction proves the table has no solution. */
  lemma ContradictionUnsolvable(t: Grid)
    requires IsGrid(t) && FillSpec(t, None).Contradiction?
    ensures !Solvable(t)
  {
    forall s | Extends(t, s) && ValidSolution(s)
      ensures false
    {
      FillKeepsSolution(t, None, s);
    }
  }

  /** Soundness of the trivial path: from a conflict-free table of digits, a table
      completed by trivial fills alone is a valid solution. */
  lemma {:induction false} TrivialFillSound(t: Grid, tracker: Option<Branch>)
    requires IsGrid(t) && TrackerOk(tracker) && HasDigits(t) && ConflictFree(t)
    requires FillSpec(t, tracker).Complete?
    ensures ValidSolution(FillSpec(t, tracker).table)
    decreases ZeroCount(t)
  {
    var first := Scanning(t, true, false, tracker);
    ScanKeepsConflictFree(first, 0, 0);
    PassFacts(t, tracker);
    var last := Pass(t, tracker);
    if !last.noMultiple {
      TrivialFillSound(last.table, last.tracker);
    }
  }

  /** Lines 59-92 of solveSudoku, run on a local copy of the table; returns how the
      loop ended, exactly as FillSpec describes. */
  method FillTrivialCells(table0: Grid) returns (out: Fill)
    requires IsGrid(table0)
    ensures out == FillSpec(table0, None)
  {
    var table := table0;
    var cellWithMinCandidates: Option<Branch> := None;
    while true
      invariant IsGrid(table) && TrackerOk(cellWithMinCandidates)
      invariant FillSpec(table, cellWithMinCandidates) == FillSpec(table0, None)
      decreases ZeroCount(table)
    {
      ghost var first := Scanning(table, true, false, cellWithMinCandidates);
      ScanCount(first, 0, 0);
      var noCellsWithMultipleCandidates := true;
      var foundNewDigitOnCurrentIteration := false;
      for i := 0 to 9
        invariant IsGrid(table) && TrackerOk(cellWithMinCandidates)
        invariant ScanFrom(first, 0, 0) ==
          ScanFrom(Scanning(table, noCellsWithMultipleCandidates, foundNewDigitOnCurrentIteration,
                            cellWithMinCandidates), i, 0)
      {
        for j := 0 to 9
          invariant IsGrid(table) && TrackerOk(cellWithMinCandidates)
          invariant ScanFrom(first, 0, 0) ==
            ScanFrom(Scanning(table, noCellsWithMultipleCandidates, foundNewDigitOnCurrentIteration,
                              cellWithMinCandidates), i, j)
        {
          if table[i][j] == 0 {
            var cand := Candidates(i, j, table);
            if cand == {} {
              return Contradiction;
            }
            if |cand| == 1 {
              var digit :| digit in cand;
              table := table[i := table[i][j := digit]];
              foundNewDigitOnCurrentIteration := true;
            } else {
              noCellsWithMultipleCandidates := false;
              if cellWithMinCandidates.None? || |cand| < |cellWithMinCandidates.value.cands| {
                cellWithMinCandidates := Some(Branch(i, j, cand));
              }
            }
          }
        }
      }
      if noCellsWithMultipleCandidates {
        return Complete(table);
      }
      if !foundNewDigitOnCurrentIteration {
        return Stalled(table, cellWithMinCandidates);
      }
    }
  }
}
