/** verifySudokuSolution: re-derive every row, column and block digit set and
    compare it with 1..9. */
module Verifier {
  import opened SudokuGrid
  import opened Constraints

  /** The row, the column and the block of (i, j) each hold all of 1..9; then every
      cell of that row, that column and that block holds a digit 1..9. */
  predicate GroupsFullAt(t: Grid, i: int, j: int): (full: bool)
    requires IsGrid(t) && 0 <= i < 9 && 0 <= j < 9
    ensures full ==> forall c :: 0 <= c < 9 ==> 1 <= t[i][c] <= 9
    ensures full ==> forall r :: 0 <= r < 9 ==> 1 <= t[r][j] <= 9
    ensures full ==> forall r, c :: 0 <= r < 9 && 0 <= c < 9 && SameBlock(i, j, r, c) ==> 1 <= t[r][c] <= 9
  {
    FullRowDigits(t, i);
    FullColumnDigits(t, j);
    FullBlockDigits(t, i, j);
    && UsedDigitsInRow(i, t) == AllDigits
    && UsedDigitsInColumn(j, t) == AllDigits
    && UsedDigitsInRelatedBlock(i, j, t) == AllDigits
  }

  /** A row whose digit set is 1..9 has a digit 1..9 in every cell. */
  lemma FullRowDigits(t: Grid, i: int)
    requires IsGrid(t) && 0 <= i < 9
    ensures UsedDigitsInRow(i, t) == AllDigits ==> forall c :: 0 <= c < 9 ==> 1 <= t[i][c] <= 9
  {
    if UsedDigitsInRow(i, t) == AllDigits {
      FullCellsDistinct(t[i]);
    }
  }

  /** A column whose digit set is 1..9 has a digit 1..9 in every cell. */
  lemma FullColumnDigits(t: Grid, j: int)
    requires IsGrid(t) && 0 <= j < 9
    ensures UsedDigitsInColumn(j, t) == AllDigits ==> forall r :: 0 <= r < 9 ==> 1 <= t[r][j] <= 9
  {
    if UsedDigitsInColumn(j, t) == AllDigits {
      FullCellsDistinct(ColumnCells(t, j));
    }
  }

  /** A block whose digit set is 1..9 has a digit 1..9 in every cell. */
  lemma FullBlockDigits(t: Grid, i: int, j: int)
    requires IsGrid(t) && 0 <= i < 9 && 0 <= j < 9
    ensures UsedDigitsInRelatedBlock(i, j, t) == AllDigits ==>
      forall r, c :: 0 <= r < 9 && 0 <= c < 9 && SameBlock(i, j, r, c) ==> 1 <= t[r][c] <= 9
  {
    if UsedDigitsInRelatedBlock(i, j, t) == AllDigits {
      var blk := BlockCells(t, i, j);
      FullCellsDistinct(blk);
      forall r, c | 0 <= r < 9 && 0 <= c < 9 && SameBlock(i, j, r, c)
        ensures 1 <= t[r][c] <= 9
      {
        BlockCellAt(t, i, j, r, c);
      }
    }
  }

  /** What the nested loops of verifySudokuSolution test, for every (i, j). */
  predicate AllGroupsFull(t: Grid)
    requires IsGrid(t)
  {
    forall i, j :: 0 <= i < 9 && 0 <= j < 9 ==> GroupsFullAt(t, i, j)
  }

  /** Rows, columns and blocks without repeats leave no two peers equal. */
  lemma DistinctGroupsConflictFree(t: Grid)
    requires IsGrid(t)
    requires forall i :: 0 <= i < 9 ==> Distinct(t[i])
    requires forall j :: 0 <= j < 9 ==> Distinct(ColumnCells(t, j))
    requires forall i, j :: 0 <= i < 9 && 0 <= j < 9 ==> Distinct(BlockCells(t, i, j))
    ensures ConflictFree(t)
  {
    forall r1, c1, r2, c2 |
      0 <= r1 < 9 && 0 <= c1 < 9 && 0 <= r2 < 9 && 0 <= c2 < 9 &&
      (r1 != r2 || c1 != c2) && Peer(r1, c1, r2, c2) && t[r1][c1] != 0
      ensures t[r1][c1] != t[r2][c2]
    {
      if r1 == r2 {
        var row := t[r1];
        assert Distinct(row);
        if c1 < c2 { assert row[c1] != row[c2]; } else { assert row[c2] != row[c1]; }
      } else if c1 == c2 {
        var col := ColumnCells(t, c1);
        assert Distinct(col);
        if r1 < r2 { assert col[r1] != col[r2]; } else { assert col[r2] != col[r1]; }
      } else {
        var blk := BlockCells(t, r1, c1);
        assert Distinct(blk);
        BlockCellAt(t, r1, c1, r1, c1);
        BlockCellAt(t, r1, c1, r2, c2);
        var k1, k2 := 3 * (r1 % 3) + c1 % 3, 3 * (r2 % 3) + c2 % 3;
        assert k1 != k2;
        if k1 < k2 { assert blk[k1] != blk[k2]; } else { assert blk[k2] != blk[k1]; }
      }
    }
  }

  /** Full digit sets in every group mean every cell is set and no two peers agree. */
  lemma GroupsFullIsValid(t: Grid)
    requires IsGrid(t) && AllGroupsFull(t)
    ensures ValidSolution(t)
  {
    forall i | 0 <= i < 9
      ensures Distinct(t[i]) && forall c :: 0 <= c < 9 ==> 1 <= t[i][c] <= 9
    {
      assert GroupsFullAt(t, i, 0);
      FullCellsDistinct(t[i]);
    }
    forall j | 0 <= j < 9
      ensures Distinct(ColumnCells(t, j))
    {
      assert GroupsFullAt(t, 0, j);
      FullCellsDistinct(ColumnCells(t, j));
    }
    forall i, j | 0 <= i < 9 && 0 <= j < 9
      ensures Distinct(BlockCells(t, i, j))
    {
      assert GroupsFullAt(t, i, j);
      FullCellsDistinct(BlockCells(t, i, j));
    }
    DistinctGroupsConflictFree(t);
  }

  /** In a valid solution a row holds nine different digits. */
  lemma ValidRowDistinct(t: Grid, i: int)
    requires ValidSolution(t) && 0 <= i < 9
    ensures Distinct(t[i])
  {
    forall k, l | 0 <= k < l < 9 ensures t[i][k] != t[i][l] {
      assert Peer(i, k, i, l);
    }
  }

  /** In a valid solution a column holds nine different digits 1..9. */
  lemma ValidColumnDistinct(t: Grid, j: int)
    requires ValidSolution(t) && 0 <= j < 9
    ensures Distinct(ColumnCells(t, j)) && forall k :: 0 <= k < 9 ==> 1 <= ColumnCells(t, j)[k] <= 9
  {
    var col := ColumnCells(t, j);
    forall k, l | 0 <= k < l < 9 ensures col[k] != col[l] {
      assert Peer(k, j, l, j);
    }
  }

  /** In a valid solution a block holds nine different digits 1..9. */
  lemma ValidBlockDistinct(t: Grid, i: int, j: int)
    requires ValidSolution(t) && 0 <= i < 9 && 0 <= j < 9
    ensures Distinct(BlockCells(t, i, j)) && forall k :: 0 <= k < 9 ==> 1 <= BlockCells(t, i, j)[k] <= 9
  {
    var blk := BlockCells(t, i, j);
    forall k | 0 <= k < 9
      ensures 1 <= blk[k] <= 9
    {
      BlockIndex(i, j, k);
    }
    forall k, l | 0 <= k < l < 9
      ensures blk[k] != blk[l]
    {
      BlockIndex(i, j, k);
      BlockIndex(i, j, l);
      var rk, ck := (i / 3) * 3 + k / 3, (j / 3) * 3 + k % 3;
      var rl, cl := (i / 3) * 3 + l / 3, (j / 3) * 3 + l % 3;
      assert blk[k] == t[rk][ck] && blk[l] == t[rl][cl];
      assert Peer(rk, ck, rl, cl);
    }
  }

  /** If the table is a valid solution, the checks at (i, j) all pass. */
  lemma ValidGroupsFullAt(t: Grid, i: int, j: int)
    requires IsGrid(t) && 0 <= i < 9 && 0 <= j < 9
    ensures ValidSolution(t) ==> GroupsFullAt(t, i, j)
  {
    if ValidSolution(t) {
      ValidRowDistinct(t, i);
      ValidColumnDistinct(t, j);
      ValidBlockDistinct(t, i, j);
      DistinctDigitsFull(t[i]);
      DistinctDigitsFull(ColumnCells(t, j));
      DistinctDigitsFull(BlockCells(t, i, j));
    }
  }

  /** A valid solution has all of 1..9 in every row, column and block. */
  lemma ValidIsGroupsFull(t: Grid)
    requires ValidSolution(t)
    ensures AllGroupsFull(t)
  {
    forall i, j | 0 <= i < 9 && 0 <= j < 9
      ensures GroupsFullAt(t, i, j)
    {
      ValidGroupsFullAt(t, i, j);
    }
  }

  /** Every (i', j') before (i, j) in row-major order passes the checks. */
  predicate CheckedBefore(t: Grid, i: int, j: int)
    requires IsGrid(t)
  {
    forall i', j' :: 0 <= i' < 9 && 0 <= j' < 9 && (i' < i || (i' == i && j' < j)) ==> GroupsFullAt(t, i', j')
  }

  /** verifySudokuSolution: true exactly when the table is a valid solution. */
  method VerifySudokuSolution(t: Grid) returns (ok: bool)
    requires IsGrid(t)
    ensures ok <==> ValidSolution(t)
  {
    for i := 0 to 9
      invariant CheckedBefore(t, i, 0)
    {
      for j := 0 to 9
        invariant CheckedBefore(t, i, j)
      {
        if !GroupsFullAt(t, i, j) {
          ValidGroupsFullAt(t, i, j);
          return false;
        }
        assert CheckedBefore(t, i, j + 1);
      }
    }
    assert AllGroupsFull(t);
    GroupsFullIsValid(t);
    return true;
  }
}
