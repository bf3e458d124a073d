/** Counting cells: a list of fewer cells than the grid holds leaves at least
    one grid cell free, so the apple's rejection loop has a cell to find. */
module Cells {
  import opened Grid

  const TOTAL_CELLS: int := GRID_WIDTH * GRID_HEIGHT

  /** No cell occurs twice in `s`. */
  predicate Distinct(s: seq<Cell>) {
    forall i, j :: 0 <= i < j < |s| ==> s[i] != s[j]
  }

  /** Some grid cell is not in `s`. */
  ghost predicate HasFreeCell(s: seq<Cell>) {
    exists c :: OnGrid(c) && c !in s
  }

  /** The set of cells of `s`; it has at most as many members as `s` has entries. */
  ghost function Elems(s: seq<Cell>): (r: set<Cell>)
    ensures forall c :: c in r <==> c in s
    ensures |r| <= |s|
  {
    if s == [] then {} else {s[0]} + Elems(s[1..])
  }

  /** Without repetitions, the set of a list is exactly as large as the list. */
  lemma {:induction false} DistinctElems(s: seq<Cell>)
    requires Distinct(s)
    ensures |Elems(s)| == |s|
  {
    if s != [] {
      assert Distinct(s[1..]) by {
        forall i, j | 0 <= i < j < |s[1..]| ensures s[1..][i] != s[1..][j] {
          assert s[1..][i] == s[i + 1] && s[1..][j] == s[j + 1];
        }
      }
      DistinctElems(s[1..]);
      assert s[0] !in s[1..] by {
        forall k | 0 <= k < |s[1..]| ensures s[1..][k] != s[0] {
          assert s[1..][k] == s[k + 1];
        }
      }
    }
  }

  /** Every grid cell, row by row. */
  function AllCells(): (r: seq<Cell>)
    ensures |r| == TOTAL_CELLS
  {
    seq(TOTAL_CELLS, k requires 0 <= k < TOTAL_CELLS => CellAt(k % GRID_WIDTH, k / GRID_WIDTH))
  }

  /** The grid has TOTAL_CELLS distinct cells, and they are all in AllCells. */
  lemma AllCellsComplete()
    ensures Distinct(AllCells())
    ensures forall c :: OnGrid(c) <==> c in AllCells()
  {
    var all := AllCells();
    forall i, j | 0 <= i < j < |all| ensures all[i] != all[j] {
      assert i == GRID_WIDTH * (i / GRID_WIDTH) + i % GRID_WIDTH;
      assert j == GRID_WIDTH * (j / GRID_WIDTH) + j % GRID_WIDTH;
    }
    forall c | OnGrid(c) ensures c in all {
      CellAtIndices(c);
      var col, row := c.0 / GRID_SIZE, c.1 / GRID_SIZE;
      var k := col + GRID_WIDTH * row;
      assert 0 <= k < TOTAL_CELLS;
      assert k % GRID_WIDTH == col && k / GRID_WIDTH == row;
      assert all[k] == c;
    }
  }

  /** A smaller set cannot contain a larger one. */
  lemma Outside(all: set<Cell>, taken: set<Cell>) returns (c: Cell)
    requires |taken| < |all|
    ensures c in all && c !in taken
  {
    assert all == (all - taken) + (all * taken);
    assert taken == (all * taken) + (taken - all);
    c :| c in all - taken;
  }

  /** Pigeonhole: fewer cells than the grid holds cannot cover the grid. */
  lemma FreeCellExists(s: seq<Cell>)
    requires |s| < TOTAL_CELLS
    ensures HasFreeCell(s)
  {
    AllCellsComplete();
    DistinctElems(AllCells());
    var c := Outside(Elems(AllCells()), Elems(s));
    assert OnGrid(c) && c !in s;
  }
}
