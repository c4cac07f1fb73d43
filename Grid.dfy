/** The maze grid shared by the level generator, the pursuit rules and the
    simple map generator: a rectangular matrix of terrain cells, indexed
    `[row, column]`. */
module Grid {

  /** The four terrain kinds a cell holds ('empty', 'obstacle', 'key', 'path').
      `Path` marks the corridor carved by the level generator. */
  datatype Cell = Empty | Obstacle | Key | Path

  /** The grid as a value: one sequence per row. */
  function Cells(m: array2<Cell>): (g: seq<seq<Cell>>)
    reads m
    ensures IsGrid(g, m.Length0, m.Length1)
    ensures forall i, j :: 0 <= i < m.Length0 && 0 <= j < m.Length1 ==> g[i][j] == m[i, j]
  {
    seq(m.Length0, i requires 0 <= i < m.Length0 reads m =>
      seq(m.Length1, j requires 0 <= j < m.Length1 reads m => m[i, j]))
  }

  /** `g` has `rows` rows of `cols` cells each. */
  predicate IsGrid(g: seq<seq<Cell>>, rows: int, cols: int) {
    |g| == rows && forall i :: 0 <= i < |g| ==> |g[i]| == cols
  }

  /** Two grids of the same shape that agree cell by cell are equal. */
  lemma SameCells(g: seq<seq<Cell>>, h: seq<seq<Cell>>, rows: int, cols: int)
    requires IsGrid(g, rows, cols) && IsGrid(h, rows, cols)
    requires forall i, j :: 0 <= i < rows && 0 <= j < cols ==> g[i][j] == h[i][j]
    ensures g == h
  {
    forall i | 0 <= i < rows ensures g[i] == h[i] {
      assert forall j :: 0 <= j < cols ==> g[i][j] == h[i][j];
    }
  }

  /** Number of cells of kind `c` in one row (`row.filter(cell => cell === c).length`). */
  function CountInRow(row: seq<Cell>, c: Cell): nat {
    if row == [] then 0
    else CountInRow(row[..|row| - 1], c) + (if row[|row| - 1] == c then 1 else 0)
  }

  /** Number of cells of kind `c` in the grid, summed row by row as a left fold. */
  function CountCells(g: seq<seq<Cell>>, c: Cell): nat {
    if g == [] then 0
    else CountCells(g[..|g| - 1], c) + CountInRow(g[|g| - 1], c)
  }

  lemma {:induction false} CountInRowPositive(row: seq<Cell>, c: Cell)
    ensures CountInRow(row, c) > 0 <==> c in row
  {
    if row != [] {
      CountInRowPositive(row[..|row| - 1], c);
      assert row == row[..|row| - 1] + [row[|row| - 1]];
    }
  }

  /** A grid holds a cell of kind `c` exactly when its count of `c` is positive. */
  lemma {:induction false} CountCellsPositive(g: seq<seq<Cell>>, c: Cell)
    ensures CountCells(g, c) > 0 <==> exists i, j :: 0 <= i < |g| && 0 <= j < |g[i]| && g[i][j] == c
  {
    if g != [] {
      var n := |g| - 1;
      CountCellsPositive(g[..n], c);
      CountInRowPositive(g[n], c);
      if CountCells(g, c) > 0 {
        if CountInRow(g[n], c) > 0 {
          var j :| 0 <= j < |g[n]| && g[n][j] == c;
          assert g[n][j] == c;
        } else {
          var i, j :| 0 <= i < n && 0 <= j < |g[..n][i]| && g[..n][i][j] == c;
          assert g[i][j] == c;
        }
      } else {
        forall i, j | 0 <= i < |g| && 0 <= j < |g[i]| ensures g[i][j] != c {
          if i < n {
            assert g[..n][i][j] == g[i][j];
          }
        }
      }
    }
  }

  lemma {:induction false} CountInRowSet(row: seq<Cell>, j: int, c: Cell)
    requires 0 <= j < |row| && row[j] != c
    ensures CountInRow(row[j := c], c) == CountInRow(row, c) + 1
  {
    var n := |row| - 1;
    if j < n {
      assert row[j := c][..n] == row[..n][j := c];
      CountInRowSet(row[..n], j, c);
    } else {
      assert row[j := c][..n] == row[..n];
    }
  }

  /** Turning one cell that is not of kind `c` into a `c` raises the count of `c` by exactly one. */
  lemma {:induction false} CountCellsSet(g: seq<seq<Cell>>, i: int, j: int, c: Cell)
    requires 0 <= i < |g| && 0 <= j < |g[i]| && g[i][j] != c
    ensures CountCells(g[i := g[i][j := c]], c) == CountCells(g, c) + 1
  {
    var n := |g| - 1;
    var h := g[i := g[i][j := c]];
    if i < n {
      assert h[..n] == g[..n][i := g[..n][i][j := c]];
      CountCellsSet(g[..n], i, j, c);
    } else {
      assert h[..n] == g[..n];
      CountInRowSet(g[i], j, c);
    }
  }

  /** Count of `c` in the first `j + 1` cells of a row, from the count in the first `j`. */
  lemma CountInRowPrefix(row: seq<Cell>, j: int, c: Cell)
    requires 0 <= j < |row|
    ensures CountInRow(row[..j + 1], c) == CountInRow(row[..j], c) + (if row[j] == c then 1 else 0)
  {
    assert row[..j + 1][..j] == row[..j];
  }

  /** Count of `c` in the first `i + 1` rows, from the count in the first `i`. */
  lemma CountCellsPrefix(g: seq<seq<Cell>>, i: int, c: Cell)
    requires 0 <= i < |g|
    ensures CountCells(g[..i + 1], c) == CountCells(g[..i], c) + CountInRow(g[i], c)
  {
    assert g[..i + 1][..i] == g[..i];
  }

  /** The grid `g` with every cell of row `r` set to `c`. */
  function Filled(g: seq<seq<Cell>>, r: int, c: Cell): (h: seq<seq<Cell>>)
    requires 0 <= r < |g|
    ensures |h| == |g| && forall i :: 0 <= i < |g| ==> |h[i]| == |g[i]|
    ensures forall i, j :: 0 <= i < |g| && 0 <= j < |g[i]| ==> h[i][j] == if i == r then c else g[i][j]
  {
    g[r := seq(|g[r]|, _ => c)]
  }

  /** `row.fill(c)` on row `r`: every cell of that row becomes `c`, nothing else changes. */
  method FillRow(m: array2<Cell>, r: int, c: Cell)
    requires 0 <= r < m.Length0
    modifies m
    ensures forall i, j :: 0 <= i < m.Length0 && 0 <= j < m.Length1 ==>
      m[i, j] == if i == r then c else old(m[i, j])
    ensures Cells(m) == Filled(old(Cells(m)), r, c)
  {
    ghost var g := Cells(m);
    var j := 0;
    while j < m.Length1
      invariant 0 <= j <= m.Length1
      invariant forall a, b :: 0 <= a < m.Length0 && 0 <= b < m.Length1 ==>
        m[a, b] == if a == r && b < j then c else old(m[a, b])
    {
      m[r, j] := c;
      j := j + 1;
    }
    SameCells(Cells(m), Filled(g, r, c), m.Length0, m.Length1);
  }
}
