/** The Sudoku table and the notions the solver's promises are stated in:
    which cells constrain each other, what a valid completed table is,
    when one table extends another, and how many cells are still unset. */
module SudokuGrid {

  /** A table of rows of cells; 0 marks an unset cell, 1..9 a placed digit
      (Swift's `typealias Table = [[Int]]`). */
  type Grid = seq<seq<int>>

  /** The table is 9 rows of 9 cells. */
  predicate IsGrid(t: Grid) {
    |t| == 9 && forall r :: 0 <= r < 9 ==> |t[r]| == 9
  }

  /** Every cell holds 0 or a digit 1..9. */
  predicate HasDigits(t: Grid)
    requires IsGrid(t)
  {
    forall r, c :: 0 <= r < 9 && 0 <= c < 9 ==> 0 <= t[r][c] <= 9
  }

  /** No cell is unset. */
  predicate NoZeros(t: Grid)
    requires IsGrid(t)
  {
    forall r, c :: 0 <= r < 9 && 0 <= c < 9 ==> t[r][c] != 0
  }

  /** (r, c) lies in the 3x3 block of (i, j). */
  predicate SameBlock(i: int, j: int, r: int, c: int) {
    r / 3 == i / 3 && c / 3 == j / 3
  }

  /** (r, c) shares a row, a column or a 3x3 block with (i, j); a cell is its own peer. */
  predicate Peer(i: int, j: int, r: int, c: int) {
    r == i || c == j || SameBlock(i, j, r, c)
  }

  /** No peer of (i, j) holds the digit d. */
  predicate FreeFor(t: Grid, i: int, j: int, d: int)
    requires IsGrid(t)
  {
    forall r, c :: 0 <= r < 9 && 0 <= c < 9 && Peer(i, j, r, c) ==> t[r][c] != d
  }

  /** No two distinct peers hold the same placed digit. */
  predicate ConflictFree(t: Grid)
    requires IsGrid(t)
  {
    forall r1, c1, r2, c2 ::
      0 <= r1 < 9 && 0 <= c1 < 9 && 0 <= r2 < 9 && 0 <= c2 < 9 &&
      (r1 != r2 || c1 != c2) && Peer(r1, c1, r2, c2) && t[r1][c1] != 0
      ==> t[r1][c1] != t[r2][c2]
  }

  /** A solved Sudoku: every cell a digit 1..9 and no peer conflict. */
  predicate ValidSolution(s: Grid) {
    && IsGrid(s)
    && (forall r, c :: 0 <= r < 9 && 0 <= c < 9 ==> 1 <= s[r][c] <= 9)
    && ConflictFree(s)
  }

  /** b keeps every placed cell of a and fills only unset cells of a, with digits 1..9. */
  predicate Extends(a: Grid, b: Grid) {
    && IsGrid(a) && IsGrid(b)
    && forall r, c :: 0 <= r < 9 && 0 <= c < 9 ==>
         b[r][c] == a[r][c] || (a[r][c] == 0 && 1 <= b[r][c] <= 9)
  }

  /** Some valid solution keeps all the placed cells of t. */
  ghost predicate Solvable(t: Grid) {
    exists s :: Extends(t, s) && ValidSolution(s)
  }

  /** t with cell (i, j) set to v. */
  function Place(t: Grid, i: int, j: int, v: int): (u: Grid)
    requires IsGrid(t) && 0 <= i < 9 && 0 <= j < 9
    ensures IsGrid(u) && u[i][j] == v
    ensures forall r, c :: 0 <= r < 9 && 0 <= c < 9 && (r != i || c != j) ==> u[r][c] == t[r][c]
  {
    t[i := t[i][j := v]]
  }

  lemma ExtendsTrans(a: Grid, b: Grid, z: Grid)
    requires Extends(a, b) && Extends(b, z)
    ensures Extends(a, z)
  {
  }

  /** A table with no unset cell has exactly one extension: itself. */
  lemma {:induction false} ExtendsFull(a: Grid, b: Grid)
    requires Extends(a, b) && NoZeros(a)
    ensures a == b
  {
    forall r | 0 <= r < 9
      ensures a[r] == b[r]
    {
      assert forall c :: 0 <= c < 9 ==> a[r][c] == b[r][c];
    }
  }

  /** Number of unset cells in a row. */
  function ZerosInRow(row: seq<int>): nat {
    if row == [] then 0 else (if row[0] == 0 then 1 else 0) + ZerosInRow(row[1..])
  }

  /** Number of unset cells in a table. */
  function ZeroCount(t: Grid): nat {
    if t == [] then 0 else ZerosInRow(t[0]) + ZeroCount(t[1..])
  }

  lemma {:induction false} ZerosInRowUpdate(row: seq<int>, j: int, v: int)
    requires 0 <= j < |row| && v != 0
    ensures ZerosInRow(row[j := v]) == ZerosInRow(row) - (if row[j] == 0 then 1 else 0)
  {
    if j == 0 {
      assert row[j := v][1..] == row[1..];
    } else {
      assert row[j := v][1..] == row[1..][j - 1 := v];
      ZerosInRowUpdate(row[1..], j - 1, v);
    }
  }

  lemma {:induction false} ZeroCountUpdate(t: Grid, i: int, j: int, v: int)
    requires 0 <= i < |t| && 0 <= j < |t[i]| && v != 0
    ensures ZeroCount(t[i := t[i][j := v]]) == ZeroCount(t) - (if t[i][j] == 0 then 1 else 0)
  {
    if i == 0 {
      assert t[i := t[i][j := v]][1..] == t[1..];
      ZerosInRowUpdate(t[0], j, v);
    } else {
      assert t[i := t[i][j := v]][1..] == t[1..][i - 1 := t[i][j := v]];
      ZeroCountUpdate(t[1..], i - 1, j, v);
    }
  }

  /** Placing a digit removes one unset cell if the cell was unset, and none otherwise. */
  lemma PlaceZeroCount(t: Grid, i: int, j: int, v: int)
    requires IsGrid(t) && 0 <= i < 9 && 0 <= j < 9 && v != 0
    ensures ZeroCount(Place(t, i, j, v)) == ZeroCount(t) - (if t[i][j] == 0 then 1 else 0)
  {
    ZeroCountUpdate(t, i, j, v);
  }
}
