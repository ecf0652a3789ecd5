/** The constraint evaluator: the digits used in a row, a column or a 3x3
    block, and the candidate digits of a cell. */
module Constraints {
  import opened SudokuGrid

  /** The digits 1..9 (Swift's `allDigits`). */
  const AllDigits: set<int> := {1, 2, 3, 4, 5, 6, 7, 8, 9}

  /** Membership in 1..9. */
  lemma AllDigitsRange(d: int)
    ensures d in AllDigits <==> 1 <= d <= 9
  {
  }

  /** The distinct nonzero values among some cells (`Set(cells.filter { $0 != 0 })`). */
  function NonzeroSet(cells: seq<int>): (s: set<int>)
    ensures 0 !in s
    ensures forall k :: 0 <= k < |cells| && cells[k] != 0 ==> cells[k] in s
    ensures forall v :: v in s ==> exists k :: 0 <= k < |cells| && cells[k] == v
  {
    set x | x in cells && x != 0
  }

  /** All elements are pairwise different. */
  predicate Distinct(s: seq<int>) {
    forall k, l :: 0 <= k < l < |s| ==> s[k] != s[l]
  }

  /** Column j, top to bottom, in the order `for row in table` visits it. */
  function ColumnCells(t: Grid, j: int): (col: seq<int>)
    requires IsGrid(t) && 0 <= j < 9
    ensures |col| == 9 && forall r :: 0 <= r < 9 ==> col[r] == t[r][j]
  {
    seq(9, r requires 0 <= r < 9 => t[r][j])
  }

  /** The nine cells of the 3x3 block of (i, j), row by row from its top-left
      corner ((i / 3) * 3, (j / 3) * 3), in the order of the two nested loops. */
  function BlockCells(t: Grid, i: int, j: int): (blk: seq<int>)
    requires IsGrid(t) && 0 <= i < 9 && 0 <= j < 9
    ensures |blk| == 9
  {
    var i0 := (i / 3) * 3;
    var j0 := (j / 3) * 3;
    seq(9, k requires 0 <= k < 9 => t[i0 + k / 3][j0 + k % 3])
  }

  /** Index k of BlockCells and the cell it stands for. */
  lemma BlockIndex(i: int, j: int, k: int)
    requires 0 <= i < 9 && 0 <= j < 9 && 0 <= k < 9
    ensures var r, c := (i / 3) * 3 + k / 3, (j / 3) * 3 + k % 3;
      0 <= r < 9 && 0 <= c < 9 && SameBlock(i, j, r, c) && k == 3 * (r % 3) + c % 3
  {
  }

  /** Each cell of the block of (i, j) sits at index 3 * (r % 3) + c % 3 of BlockCells. */
  lemma BlockCellAt(t: Grid, i: int, j: int, r: int, c: int)
    requires IsGrid(t) && 0 <= i < 9 && 0 <= j < 9 && 0 <= r < 9 && 0 <= c < 9
    requires SameBlock(i, j, r, c)
    ensures BlockCells(t, i, j)[3 * (r % 3) + c % 3] == t[r][c]
  {
    var k := 3 * (r % 3) + c % 3;
    assert k / 3 == r % 3 && k % 3 == c % 3;
  }

  /** usedDigitsInRow: exactly the placed digits of row i. */
  function UsedDigitsInRow(i: int, t: Grid): (used: set<int>)
    requires IsGrid(t) && 0 <= i < 9
    ensures forall d :: d in used <==> d != 0 && exists c :: 0 <= c < 9 && t[i][c] == d
  {
    NonzeroSet(t[i])
  }

  /** usedDigitsInColumn: exactly the placed digits of column j. */
  function UsedDigitsInColumn(j: int, t: Grid): (used: set<int>)
    requires IsGrid(t) && 0 <= j < 9
    ensures forall d :: d in used <==> d != 0 && exists r :: 0 <= r < 9 && t[r][j] == d
  {
    var col := ColumnCells(t, j);
    assert forall d :: d in col <==> exists r :: 0 <= r < 9 && col[r] == d;
    NonzeroSet(col)
  }

  /** usedDigitsInRelatedBlock: exactly the placed digits of the 3x3 block of (i, j). */
  function UsedDigitsInRelatedBlock(i: int, j: int, t: Grid): (used: set<int>)
    requires IsGrid(t) && 0 <= i < 9 && 0 <= j < 9
    ensures forall d :: d in used <==>
      d != 0 && exists r, c :: 0 <= r < 9 && 0 <= c < 9 && SameBlock(i, j, r, c) && t[r][c] == d
  {
    var blk := BlockCells(t, i, j);
    BlockMembers(t, i, j);
    NonzeroSet(blk)
  }

  lemma BlockMembers(t: Grid, i: int, j: int)
    requires IsGrid(t) && 0 <= i < 9 && 0 <= j < 9
    ensures forall d :: d in BlockCells(t, i, j) <==>
      exists r, c :: 0 <= r < 9 && 0 <= c < 9 && SameBlock(i, j, r, c) && t[r][c] == d
  {
    var blk := BlockCells(t, i, j);
    forall d | d in blk
      ensures exists r, c :: 0 <= r < 9 && 0 <= c < 9 && SameBlock(i, j, r, c) && t[r][c] == d
    {
      var k :| 0 <= k < 9 && blk[k] == d;
      BlockIndex(i, j, k);
    }
    forall r, c | 0 <= r < 9 && 0 <= c < 9 && SameBlock(i, j, r, c)
      ensures t[r][c] in blk
    {
      BlockCellAt(t, i, j, r, c);
    }
  }

  /** candidates: the digits 1..9 used by no peer of (i, j). */
  function Candidates(i: int, j: int, t: Grid): (cands: set<int>)
    requires IsGrid(t) && 0 <= i < 9 && 0 <= j < 9
    ensures cands <= AllDigits
    ensures forall d :: d in cands <==> 1 <= d <= 9 && FreeFor(t, i, j, d)
  {
    AllDigits
      - UsedDigitsInRow(i, t)
      - UsedDigitsInColumn(j, t)
      - UsedDigitsInRelatedBlock(i, j, t)
  }

  /** The digit a valid solution puts in an unset cell is one of that cell's candidates. */
  lemma SolutionInCandidates(g: Grid, s: Grid, i: int, j: int)
    requires Extends(g, s) && ValidSolution(s)
    requires 0 <= i < 9 && 0 <= j < 9 && g[i][j] == 0
    ensures s[i][j] in Candidates(i, j, g)
  {
    var d := s[i][j];
    forall r, c | 0 <= r < 9 && 0 <= c < 9 && Peer(i, j, r, c)
      ensures g[r][c] != d
    {
      if g[r][c] != 0 {
        assert r != i || c != j;
        assert s[r][c] == g[r][c];
      }
    }
  }

  /** Placing a candidate digit in an unset cell keeps a conflict-free table conflict-free. */
  lemma PlaceCandidateConflictFree(g: Grid, i: int, j: int, d: int)
    requires IsGrid(g) && ConflictFree(g)
    requires 0 <= i < 9 && 0 <= j < 9 && g[i][j] == 0 && d in Candidates(i, j, g)
    ensures ConflictFree(Place(g, i, j, d))
  {
    var h := Place(g, i, j, d);
    forall r1, c1, r2, c2 |
      0 <= r1 < 9 && 0 <= c1 < 9 && 0 <= r2 < 9 && 0 <= c2 < 9 &&
      (r1 != r2 || c1 != c2) && Peer(r1, c1, r2, c2) && h[r1][c1] != 0
      ensures h[r1][c1] != h[r2][c2]
    {
      if r1 == i && c1 == j {
        assert g[r2][c2] != d;
      } else if r2 == i && c2 == j {
        assert Peer(i, j, r1, c1);
        assert g[r1][c1] != d;
      }
    }
  }

  /** Splitting off the first cell of a sequence. */
  lemma NonzeroSetCons(s: seq<int>)
    requires s != []
    ensures NonzeroSet(s) == (if s[0] != 0 then {s[0]} else {}) + NonzeroSet(s[1..])
  {
    assert forall x :: x in s <==> x == s[0] || x in s[1..];
  }

  /** There are never more distinct nonzero values than cells, and as many only
      when every cell is set and no two cells agree. */
  lemma {:induction false} NonzeroSetSize(s: seq<int>)
    ensures |NonzeroSet(s)| <= |s|
    ensures |NonzeroSet(s)| == |s| ==> (forall k :: 0 <= k < |s| ==> s[k] != 0) && Distinct(s)
  {
    if s != [] {
      var tail := s[1..];
      NonzeroSetSize(tail);
      NonzeroSetCons(s);
      if |NonzeroSet(s)| == |s| {
        assert s[0] != 0 && s[0] !in NonzeroSet(tail);
        forall k, l | 0 <= k < l < |s|
          ensures s[k] != s[l]
        {
          assert s[l] == tail[l - 1];
          if k > 0 {
            assert s[k] == tail[k - 1];
          } else {
            assert s[l] in tail;
          }
        }
      }
    }
  }

  /** Pairwise different nonzero cells show as many distinct values as there are cells. */
  lemma {:induction false} DistinctNonzeroSize(s: seq<int>)
    requires forall k :: 0 <= k < |s| ==> s[k] != 0
    requires Distinct(s)
    ensures |NonzeroSet(s)| == |s|
  {
    if s != [] {
      var tail := s[1..];
      assert Distinct(tail) by {
        forall k, l | 0 <= k < l < |tail| ensures tail[k] != tail[l] {
          assert tail[k] == s[k + 1] && tail[l] == s[l + 1];
        }
      }
      DistinctNonzeroSize(tail);
      NonzeroSetCons(s);
      forall l | 0 <= l < |tail| ensures tail[l] != s[0] {
        assert tail[l] == s[l + 1];
      }
      assert s[0] !in NonzeroSet(tail);
    }
  }

  /** Nine cells whose nonzero values are all of 1..9 hold nine different digits 1..9. */
  lemma FullCellsDistinct(s: seq<int>)
    requires |s| == 9 && NonzeroSet(s) == AllDigits
    ensures Distinct(s) && forall k :: 0 <= k < 9 ==> 1 <= s[k] <= 9
  {
    assert |AllDigits| == 9;
    NonzeroSetSize(s);
    forall k | 0 <= k < 9 ensures 1 <= s[k] <= 9 {
      assert s[k] in NonzeroSet(s);
    }
  }

  /** A set of digits with nine members is all of 1..9. */
  lemma FullDigitSet(used: set<int>)
    requires used <= AllDigits && |used| == 9
    ensures used == AllDigits
  {
    var missing := AllDigits - used;
    assert |AllDigits| == 9;
    assert |missing| == 0;
  }

  /** Nine pairwise different digits 1..9 make up all of 1..9. */
  lemma DistinctDigitsFull(s: seq<int>)
    requires |s| == 9 && Distinct(s) && forall k :: 0 <= k < 9 ==> 1 <= s[k] <= 9
    ensures NonzeroSet(s) == AllDigits
  {
    DistinctNonzeroSize(s);
    FullDigitSet(NonzeroSet(s));
  }
}
