/** The level generator fragment of the game screen: after the corridor has
    been carved as `Path` cells, it scatters terrain over the remaining
    `Empty` cells, closes the last row, promotes one surviving corridor cell
    to a key, counts the keys, and searches row 0 for the runner's and the
    enemy's start columns. Grids are indexed `[row][column]`; a start position
    is `{x: row, y: column}`, always in row 0. */
module LevelGenerator {
  import opened Grid
  import opened Wrappers

  /** Some in-bounds 4-neighbour of `(i, j)` holds `c`. With `c == Path` this is
      `hasPathNeighbor`; with `c == Key` it is the model of `hasKeyNeighbor`. */
  predicate HasNeighbor(g: seq<seq<Cell>>, numRows: int, numCols: int, i: int, j: int, c: Cell): (near: bool)
    requires IsGrid(g, numRows, numCols) && 0 <= i < numRows && 0 <= j < numCols
    ensures near <==> exists a, b :: 0 <= a < numRows && 0 <= b < numCols && Adjacent(a, b, i, j) && g[a][b] == c
  {
    (i > 0 && g[i - 1][j] == c) ||
    (i < numRows - 1 && g[i + 1][j] == c) ||
    (j > 0 && g[i][j - 1] == c) ||
    (j < numCols - 1 && g[i][j + 1] == c)
  }

  /** Cells `(a, b)` and `(i, j)` share a side. */
  predicate Adjacent(a: int, b: int, i: int, j: int) {
    (a == i && (b == j - 1 || b == j + 1)) || (b == j && (a == i - 1 || a == i + 1))
  }

  /** What the scatter pass writes into an `Empty` cell whose draw is `d`:
      below 0.7 it stays empty; below 0.9 it becomes an obstacle unless a
      corridor cell is next to it; otherwise it becomes a key unless a key is
      next to it. */
  function ScatterOutcome(d: real, pathNear: bool, keyNear: bool): (c: Cell)
    ensures c != Path
    ensures c == Obstacle <==> 0.7 <= d < 0.9 && !pathNear
    ensures c == Key <==> 0.9 <= d && !keyNear
  {
    if d < 0.7 then Empty
    else if d < 0.9 then (if pathNear then Empty else Obstacle)
    else (if keyNear then Empty else Key)
  }

  /** The number of the draw the scatter pass spends on cell `(i, j)`: one draw
      per `Empty` cell, taken in row-major order. */
  function DrawIndex(g: seq<seq<Cell>>, i: int, j: int): nat
    requires 0 <= i < |g| && 0 <= j <= |g[i]|
  {
    CountCells(g[..i], Empty) + CountInRow(g[i][..j], Empty)
  }

  /** Cell `(a, b)` comes before cell `(i, j)` in row-major order. */
  predicate Before(a: int, b: int, i: int, j: int) {
    a < i || (a == i && b < j)
  }

  /** `hasKeyNeighbor(newMap, i, j)` as the pass sees it when it visits
      `(i, j)` of the original grid `g0`, with `g` the grid after the pass:
      the cells above and to the left are visited and hold their value in
      `g`; the cells below and to the right are not, and hold their value in
      `g0`. */
  predicate KeyNearAtVisit(g0: seq<seq<Cell>>, g: seq<seq<Cell>>, numRows: int, numCols: int, i: int, j: int): (near: bool)
    requires IsGrid(g0, numRows, numCols) && IsGrid(g, numRows, numCols)
    requires 0 <= i < numRows && 0 <= j < numCols
    ensures near <==> exists a, b :: (0 <= a < numRows && 0 <= b < numCols && Adjacent(a, b, i, j) &&
                                      (if Before(a, b, i, j) then g[a][b] else g0[a][b]) == Key)
  {
    (i > 0 && g[i - 1][j] == Key) ||
    (i < numRows - 1 && g0[i + 1][j] == Key) ||
    (j > 0 && g[i][j - 1] == Key) ||
    (j < numCols - 1 && g0[i][j + 1] == Key)
  }

  /** Cell `(i, j)` of `g` holds what the scatter pass writes for draw `d`:
      judged against its corridor neighbours, which the pass never changes,
      and against the keys next to it at the time of its visit. */
  predicate Scattered(g0: seq<seq<Cell>>, g: seq<seq<Cell>>, numRows: int, numCols: int, i: int, j: int, d: real)
    requires IsGrid(g0, numRows, numCols) && IsGrid(g, numRows, numCols)
    requires 0 <= i < numRows && 0 <= j < numCols
  {
    g[i][j] == ScatterOutcome(d, HasNeighbor(g, numRows, numCols, i, j, Path),
                              KeyNearAtVisit(g0, g, numRows, numCols, i, j))
  }

  /** The state of the scatter pass on `g0` once every cell before `(i, j)` has
      been visited: visited `Empty` cells are scattered with their own draw,
      all other cells are as they were. */
  predicate ScatterInvariant(g0: seq<seq<Cell>>, g: seq<seq<Cell>>, numRows: int, numCols: int, rand: nat -> real, i: int, j: int)
  {
    && IsGrid(g0, numRows, numCols)
    && IsGrid(g, numRows, numCols)
    && (forall a, b :: 0 <= a < numRows && 0 <= b < numCols && (!Before(a, b, i, j) || g0[a][b] != Empty) ==>
          g[a][b] == g0[a][b])
    && (forall a, b :: 0 <= a < numRows && 0 <= b < numCols && Before(a, b, i, j) && g0[a][b] == Empty ==>
          Scattered(g0, g, numRows, numCols, a, b, rand(DrawIndex(g0, a, b))))
  }

  /** Visiting one more cell `(i, j)`, `Empty` in the original grid, keeps the
      invariant: the neighbours it reads now are its visited neighbours and
      its unvisited, original ones; and no earlier cell reads `(i, j)` as a
      key neighbour, since it comes after them. */
  lemma ScatterStep(g0: seq<seq<Cell>>, g: seq<seq<Cell>>, numRows: int, numCols: int, rand: nat -> real, i: int, j: int)
    requires ScatterInvariant(g0, g, numRows, numCols, rand, i, j)
    requires 0 <= i < numRows && 0 <= j < numCols && g0[i][j] == Empty
    ensures var v := ScatterOutcome(rand(DrawIndex(g0, i, j)),
                                    HasNeighbor(g, numRows, numCols, i, j, Path),
                                    HasNeighbor(g, numRows, numCols, i, j, Key));
      ScatterInvariant(g0, g[i := g[i][j := v]], numRows, numCols, rand, i, j + 1)
  {
    var v := ScatterOutcome(rand(DrawIndex(g0, i, j)),
                            HasNeighbor(g, numRows, numCols, i, j, Path),
                            HasNeighbor(g, numRows, numCols, i, j, Key));
    var h := g[i := g[i][j := v]];
    assert g[i][j] == Empty;
    assert IsGrid(h, numRows, numCols);
    assert HasNeighbor(h, numRows, numCols, i, j, Path) == HasNeighbor(g, numRows, numCols, i, j, Path);
    assert HasNeighbor(h, numRows, numCols, i, j, Key) == HasNeighbor(g, numRows, numCols, i, j, Key);
    assert KeyNearAtVisit(g0, h, numRows, numCols, i, j) == HasNeighbor(g, numRows, numCols, i, j, Key);
    forall a, b | 0 <= a < numRows && 0 <= b < numCols && Before(a, b, i, j) && g0[a][b] == Empty
      ensures Scattered(g0, h, numRows, numCols, a, b, rand(DrawIndex(g0, a, b)))
    {
      ScatterStepOther(g0, g, numRows, numCols, rand, i, j, v, a, b);
    }
  }

  /** The step of `ScatterStep` for one earlier cell `(a, b)`. */
  lemma ScatterStepOther(g0: seq<seq<Cell>>, g: seq<seq<Cell>>, numRows: int, numCols: int, rand: nat -> real,
                         i: int, j: int, v: Cell, a: int, b: int)
    requires ScatterInvariant(g0, g, numRows, numCols, rand, i, j)
    requires 0 <= i < numRows && 0 <= j < numCols && g0[i][j] == Empty
    requires v == ScatterOutcome(rand(DrawIndex(g0, i, j)),
                                 HasNeighbor(g, numRows, numCols, i, j, Path),
                                 HasNeighbor(g, numRows, numCols, i, j, Key))
    requires 0 <= a < numRows && 0 <= b < numCols && Before(a, b, i, j) && g0[a][b] == Empty
    ensures Scattered(g0, g[i := g[i][j := v]], numRows, numCols, a, b, rand(DrawIndex(g0, a, b)))
  {
  }

  /** Visiting a cell that was not `Empty` changes nothing. */
  lemma ScatterSkip(g0: seq<seq<Cell>>, g: seq<seq<Cell>>, numRows: int, numCols: int, rand: nat -> real, i: int, j: int)
    requires ScatterInvariant(g0, g, numRows, numCols, rand, i, j)
    requires 0 <= i < numRows && 0 <= j < numCols && g0[i][j] != Empty
    ensures ScatterInvariant(g0, g, numRows, numCols, rand, i, j + 1)
  {
  }

  /** Row `i` done is row `i + 1` begun. */
  lemma ScatterNextRow(g0: seq<seq<Cell>>, g: seq<seq<Cell>>, numRows: int, numCols: int, rand: nat -> real, i: int)
    requires ScatterInvariant(g0, g, numRows, numCols, rand, i, numCols)
    ensures ScatterInvariant(g0, g, numRows, numCols, rand, i + 1, 0)
  {
  }

  /** The pass never writes a corridor cell and never overwrites one: the
      corridor cells are those of the original grid. */
  lemma ScatterKeepsPaths(g0: seq<seq<Cell>>, g: seq<seq<Cell>>, numRows: int, numCols: int, rand: nat -> real, i: int, j: int)
    requires ScatterInvariant(g0, g, numRows, numCols, rand, i, j)
    ensures forall a, b :: 0 <= a < numRows && 0 <= b < numCols ==> (g[a][b] == Path <==> g0[a][b] == Path)
  {
    forall a, b | 0 <= a < numRows && 0 <= b < numCols && g0[a][b] == Empty && Before(a, b, i, j)
      ensures g[a][b] != Path
    {
      assert Scattered(g0, g, numRows, numCols, a, b, rand(DrawIndex(g0, a, b)));
    }
  }

  /** Cell `(a, b)` of a finished pass is decided by the cells before it: two
      finished passes over `g0` with the same draws that agree before `(a, b)`
      agree on it. */
  lemma ScatterCellDetermined(g0: seq<seq<Cell>>, g: seq<seq<Cell>>, h: seq<seq<Cell>>, numRows: int, numCols: int,
                              rand: nat -> real, a: int, b: int)
    requires ScatterInvariant(g0, g, numRows, numCols, rand, numRows, 0)
    requires ScatterInvariant(g0, h, numRows, numCols, rand, numRows, 0)
    requires 0 <= a < numRows && 0 <= b < numCols
    requires forall x, y :: 0 <= x < numRows && 0 <= y < numCols && Before(x, y, a, b) ==> g[x][y] == h[x][y]
    ensures g[a][b] == h[a][b]
  {
    if g0[a][b] == Empty {
      ScatterKeepsPaths(g0, g, numRows, numCols, rand, numRows, 0);
      ScatterKeepsPaths(g0, h, numRows, numCols, rand, numRows, 0);
      assert HasNeighbor(g, numRows, numCols, a, b, Path) == HasNeighbor(h, numRows, numCols, a, b, Path);
      assert KeyNearAtVisit(g0, g, numRows, numCols, a, b) == KeyNearAtVisit(g0, h, numRows, numCols, a, b);
      assert Scattered(g0, g, numRows, numCols, a, b, rand(DrawIndex(g0, a, b)));
      assert Scattered(g0, h, numRows, numCols, a, b, rand(DrawIndex(g0, a, b)));
    }
  }

  /** Two finished passes agree on every cell before `(i, j)`. */
  lemma {:induction false} ScatterAgreeBefore(g0: seq<seq<Cell>>, g: seq<seq<Cell>>, h: seq<seq<Cell>>, numRows: int, numCols: int,
                                              rand: nat -> real, i: int, j: int)
    requires ScatterInvariant(g0, g, numRows, numCols, rand, numRows, 0)
    requires ScatterInvariant(g0, h, numRows, numCols, rand, numRows, 0)
    requires 0 <= i <= numRows && 0 <= j <= numCols && (i < numRows || j == 0)
    ensures forall x, y :: 0 <= x < numRows && 0 <= y < numCols && Before(x, y, i, j) ==> g[x][y] == h[x][y]
    decreases i, j
  {
    if j > 0 {
      ScatterAgreeBefore(g0, g, h, numRows, numCols, rand, i, j - 1);
      ScatterCellDetermined(g0, g, h, numRows, numCols, rand, i, j - 1);
    } else if i > 0 {
      ScatterAgreeBefore(g0, g, h, numRows, numCols, rand, i - 1, numCols);
    }
  }

  /** The pass is deterministic: the invariant at its end admits exactly one
      grid for a given original grid and given draws. */
  lemma ScatterDeterministic(g0: seq<seq<Cell>>, g: seq<seq<Cell>>, h: seq<seq<Cell>>, numRows: int, numCols: int, rand: nat -> real)
    requires ScatterInvariant(g0, g, numRows, numCols, rand, numRows, 0)
    requires ScatterInvariant(g0, h, numRows, numCols, rand, numRows, 0)
    ensures g == h
  {
    if numRows > 0 {
      assert |g0[0]| == numCols;
      ScatterAgreeBefore(g0, g, h, numRows, numCols, rand, numRows, 0);
    }
    SameCells(g, h, numRows, numCols);
  }

  /** Two neighbouring empty cells whose draws both name a key: the first
      one visited becomes the key, and the second sees it and stays empty. */
  lemma ScatterFirstKeyWins(g: seq<seq<Cell>>, rand: nat -> real)
    requires forall k :: rand(k) == 0.95
    requires ScatterInvariant([[Empty, Empty]], g, 1, 2, rand, 1, 0)
    ensures g == [[Key, Empty]]
  {
    var g0 := [[Empty, Empty]];
    assert Scattered(g0, g, 1, 2, 0, 0, rand(DrawIndex(g0, 0, 0)));
    assert Scattered(g0, g, 1, 2, 0, 1, rand(DrawIndex(g0, 0, 1)));
    SameCells(g, [[Key, Empty]], 1, 2);
  }

  /** Judged in the finished grid: because keys are never removed, a cell
      that became a key has no key next to it at the end (a later neighbour
      saw it and stayed clear), and a cell that a neighbouring key kept empty
      still has that key beside it. */
  lemma ScatterFinalCell(g0: seq<seq<Cell>>, g: seq<seq<Cell>>, numRows: int, numCols: int, rand: nat -> real, a: int, b: int)
    requires ScatterInvariant(g0, g, numRows, numCols, rand, numRows, 0)
    requires 0 <= a < numRows && 0 <= b < numCols && g0[a][b] == Empty
    ensures g[a][b] == ScatterOutcome(rand(DrawIndex(g0, a, b)), HasNeighbor(g, numRows, numCols, a, b, Path),
                                      HasNeighbor(g, numRows, numCols, a, b, Key))
  {
    assert Scattered(g0, g, numRows, numCols, a, b, rand(DrawIndex(g0, a, b)));
    if g[a][b] == Key {
      if a < numRows - 1 && g0[a + 1][b] == Empty {
        assert Scattered(g0, g, numRows, numCols, a + 1, b, rand(DrawIndex(g0, a + 1, b)));
      }
      if b < numCols - 1 && g0[a][b + 1] == Empty {
        assert Scattered(g0, g, numRows, numCols, a, b + 1, rand(DrawIndex(g0, a, b + 1)));
      }
    }
  }

  /** `ScatterFinalCell` for every cell that was `Empty`. */
  lemma ScatterFinal(g0: seq<seq<Cell>>, g: seq<seq<Cell>>, numRows: int, numCols: int, rand: nat -> real)
    requires ScatterInvariant(g0, g, numRows, numCols, rand, numRows, 0)
    ensures forall a, b :: 0 <= a < numRows && 0 <= b < numCols && g0[a][b] == Empty ==>
      g[a][b] == ScatterOutcome(rand(DrawIndex(g0, a, b)), HasNeighbor(g, numRows, numCols, a, b, Path),
                                HasNeighbor(g, numRows, numCols, a, b, Key))
  {
    forall a, b | 0 <= a < numRows && 0 <= b < numCols && g0[a][b] == Empty
      ensures g[a][b] == ScatterOutcome(rand(DrawIndex(g0, a, b)), HasNeighbor(g, numRows, numCols, a, b, Path),
                                        HasNeighbor(g, numRows, numCols, a, b, Key))
    {
      ScatterFinalCell(g0, g, numRows, numCols, rand, a, b);
    }
  }

  /** One visit of the scatter pass to an `Empty` cell `(i, j)` with draw `d`,
      in place: the cell becomes `ScatterOutcome` of the draw and of its
      current neighbours; no other cell changes. */
  method ScatterCell(m: array2<Cell>, i: int, j: int, d: real)
    requires 0 <= i < m.Length0 && 0 <= j < m.Length1 && m[i, j] == Empty
    modifies m
    ensures var g := old(Cells(m));
      Cells(m) == g[i := g[i][j := ScatterOutcome(d, HasNeighbor(g, m.Length0, m.Length1, i, j, Path),
                                                      HasNeighbor(g, m.Length0, m.Length1, i, j, Key))]]
  {
    ghost var g := Cells(m);
    var numRows, numCols := m.Length0, m.Length1;
    if d < 0.7 {
      m[i, j] := Empty;
    } else if d < 0.9 {
      if !HasNeighbor(Cells(m), numRows, numCols, i, j, Path) {
        m[i, j] := Obstacle;
      }
    } else {
      if !HasNeighbor(Cells(m), numRows, numCols, i, j, Key) {
        m[i, j] := Key;
      } else {
        m[i, j] := Empty;
      }
    }
    SameCells(Cells(m), g[i := g[i][j := m[i, j]]], numRows, numCols);
  }

  /** The scatter pass: visits the cells in row-major order and classifies every
      `Empty` cell with the next draw of `rand`, in place. Non-empty cells,
      corridor cells among them, are left alone. Because keys are never removed,
      a cell that became a key has no key next to it in the final grid, and a
      cell that a neighbouring key kept empty still has that key next to it. */
  method Scatter(m: array2<Cell>, rand: nat -> real) returns (used: nat)
    modifies m
    ensures used == CountCells(old(Cells(m)), Empty)
    ensures ScatterInvariant(old(Cells(m)), Cells(m), m.Length0, m.Length1, rand, m.Length0, 0)
    ensures forall i, j :: 0 <= i < m.Length0 && 0 <= j < m.Length1 && old(m[i, j]) != Empty ==>
      m[i, j] == old(m[i, j])
    ensures forall i, j :: 0 <= i < m.Length0 && 0 <= j < m.Length1 && old(m[i, j]) == Empty ==>
      m[i, j] != Path &&
      (m[i, j] == Obstacle ==> !HasNeighbor(Cells(m), m.Length0, m.Length1, i, j, Path)) &&
      (m[i, j] == Key ==> !HasNeighbor(Cells(m), m.Length0, m.Length1, i, j, Key))
  {
    ghost var g0 := Cells(m);
    var numRows, numCols := m.Length0, m.Length1;
    used := 0;
    var i := 0;
    while i < numRows
      invariant 0 <= i <= numRows
      invariant used == CountCells(g0[..i], Empty)
      invariant ScatterInvariant(g0, Cells(m), numRows, numCols, rand, i, 0)
    {
      var j := 0;
      while j < numCols
        invariant 0 <= j <= numCols
        invariant used == DrawIndex(g0, i, j)
        invariant ScatterInvariant(g0, Cells(m), numRows, numCols, rand, i, j)
      {
        CountInRowPrefix(g0[i], j, Empty);
        ghost var g := Cells(m);
        if m[i, j] == Empty {
          ScatterStep(g0, g, numRows, numCols, rand, i, j);
          ScatterCell(m, i, j, rand(used));
          used := used + 1;
        } else {
          ScatterSkip(g0, g, numRows, numCols, rand, i, j);
        }
        j := j + 1;
      }
      ScatterNextRow(g0, Cells(m), numRows, numCols, rand, i);
      CountCellsPrefix(g0, i, Empty);
      assert g0[i][..numCols] == g0[i];
      i := i + 1;
    }
    assert g0[..numRows] == g0;
    ScatterFinal(g0, Cells(m), numRows, numCols, rand);
  }

  /** No key of `g` has a key as a 4-neighbour. */
  predicate NoAdjacentKeys(g: seq<seq<Cell>>, numRows: int, numCols: int)
    requires IsGrid(g, numRows, numCols)
  {
    forall i, j :: 0 <= i < numRows && 0 <= j < numCols && g[i][j] == Key ==>
      !HasNeighbor(g, numRows, numCols, i, j, Key)
  }

  /** The scatter pass never puts two keys side by side: if the grid had no
      adjacent keys before the pass, it has none after it. */
  lemma ScatterKeepsKeysApart(g0: seq<seq<Cell>>, g: seq<seq<Cell>>, numRows: int, numCols: int, rand: nat -> real)
    requires ScatterInvariant(g0, g, numRows, numCols, rand, numRows, 0)
    requires NoAdjacentKeys(g0, numRows, numCols)
    ensures NoAdjacentKeys(g, numRows, numCols)
  {
    ScatterFinal(g0, g, numRows, numCols, rand);
  }

  /** The positions of the corridor cells of one row `r`, left to right. */
  function PathCellsInRow(row: seq<Cell>, r: int): (ps: seq<(int, int)>)
    ensures forall p :: p in ps <==> p.0 == r && 0 <= p.1 < |row| && row[p.1] == Path
    ensures |ps| == CountInRow(row, Path)
    ensures forall k, l :: 0 <= k < l < |ps| ==> ps[k].1 < ps[l].1
  {
    if row == [] then []
    else PathCellsInRow(row[..|row| - 1], r) + (if row[|row| - 1] == Path then [(r, |row| - 1)] else [])
  }

  /** `pathKeys`: the positions of all corridor cells, each once, in row-major order. */
  function PathCells(g: seq<seq<Cell>>): (ps: seq<(int, int)>)
    ensures forall p :: p in ps <==> 0 <= p.0 < |g| && 0 <= p.1 < |g[p.0]| && g[p.0][p.1] == Path
    ensures |ps| == CountCells(g, Path)
    ensures forall k, l :: 0 <= k < l < |ps| ==> Before(ps[k].0, ps[k].1, ps[l].0, ps[l].1)
  {
    if g == [] then []
    else PathCells(g[..|g| - 1]) + PathCellsInRow(g[|g| - 1], |g| - 1)
  }

  /** `Math.floor(draw * n)`: a draw in [0, 1) picks an index below `n`. */
  function PickIndex(draw: real, n: int): (k: int)
    requires 0.0 <= draw < 1.0 && n > 0
    ensures 0 <= k < n
    ensures k as real <= draw * n as real < k as real + 1.0
  {
    assert draw * n as real < n as real by {
      assert (1.0 - draw) * n as real > 0.0;
    }
    (draw * n as real).Floor
  }

  /** The grid after the promotion: the corridor cell that `draw` picks among
      `PathCells` of `g` becomes a key; without corridor cells, `g` itself. */
  function Promote(g: seq<seq<Cell>>, draw: real): (h: seq<seq<Cell>>)
    requires 0.0 <= draw < 1.0
    ensures CountCells(h, Key) == CountCells(g, Key) + (if |PathCells(g)| > 0 then 1 else 0)
    ensures |h| == |g| && forall i :: 0 <= i < |g| ==> |h[i]| == |g[i]|
    ensures forall i, j :: 0 <= i < |g| && 0 <= j < |g[i]| ==> h[i][j] == g[i][j] || (g[i][j] == Path && h[i][j] == Key)
  {
    var ps := PathCells(g);
    if |ps| == 0 then g
    else
      var p := ps[PickIndex(draw, |ps|)];
      assert p in ps;
      CountCellsSet(g, p.0, p.1, Key);
      g[p.0 := g[p.0][p.1 := Key]]
  }

  /** Promotes one corridor cell, chosen by `draw` among `PathCells` of the
      grid, to a key, when there is one; otherwise nothing changes. */
  method PromoteKey(m: array2<Cell>, draw: real) returns (promoted: bool, chosen: (int, int))
    requires 0.0 <= draw < 1.0
    modifies m
    ensures var g := old(Cells(m)); var ps := PathCells(g);
      && (promoted <==> |ps| > 0)
      && (promoted ==>
            && 0 <= chosen.0 < m.Length0 && 0 <= chosen.1 < m.Length1
            && g[chosen.0][chosen.1] == Path
            && chosen == ps[PickIndex(draw, |ps|)]
            && Cells(m) == g[chosen.0 := g[chosen.0][chosen.1 := Key]])
      && (!promoted ==> Cells(m) == g)
    ensures Cells(m) == Promote(old(Cells(m)), draw)
    ensures CountCells(Cells(m), Key) == CountCells(old(Cells(m)), Key) + (if promoted then 1 else 0)
  {
    ghost var g := Cells(m);
    var pathKeys := PathCells(Cells(m));
    promoted, chosen := false, (0, 0);
    if |pathKeys| > 0 {
      chosen := pathKeys[PickIndex(draw, |pathKeys|)];
      assert chosen in pathKeys;
      m[chosen.0, chosen.1] := Key;
      promoted := true;
      SameCells(Cells(m), g[chosen.0 := g[chosen.0][chosen.1 := Key]], m.Length0, m.Length1);
      CountCellsSet(g, chosen.0, chosen.1, Key);
    }
  }

  /** `keyPieceCount`: the number of keys on the grid. It is positive exactly
      when some cell holds a key. */
  function KeyPieceCount(g: seq<seq<Cell>>): (n: nat)
    ensures n > 0 <==> exists i, j :: 0 <= i < |g| && 0 <= j < |g[i]| && g[i][j] == Key
  {
    CountCellsPositive(g, Key);
    CountCells(g, Key)
  }

  /** Cyclic distance from column `a` forward to column `b` on a row of `n` columns. */
  function CyclicDistance(a: int, b: int, n: int): int {
    if a <= b then b - a else b - a + n
  }

  /** `(y + 1) % n` on a column `y` is the next column, wrapping to 0 after the last. */
  lemma NextColumn(y: int, n: int)
    requires 0 <= y < n
    ensures (y + 1) % n == if y + 1 == n then 0 else y + 1
  {
  }

  /** The runner search: scans row 0 from column `currentY` cyclically
      (`y := (y + 1) % numCols`) and stops at the first `Empty` cell. The loop
      only ends if row 0 has an `Empty` cell, hence the precondition. */
  method FindRunnerStart(m: array2<Cell>, currentY: int) returns (runnerY: int)
    requires m.Length0 > 0
    requires 0 <= currentY < m.Length1
    requires exists j :: 0 <= j < m.Length1 && m[0, j] == Empty
    ensures 0 <= runnerY < m.Length1 && m[0, runnerY] == Empty
    ensures forall j :: 0 <= j < m.Length1 ==>
      (CyclicDistance(currentY, j, m.Length1) < CyclicDistance(currentY, runnerY, m.Length1) ==> m[0, j] != Empty)
  {
    var numCols := m.Length1;
    ghost var target :| 0 <= target < numCols && m[0, target] == Empty;
    var foundSuitablePosition := false;
    var newRunnerX := 0;
    runnerY := currentY;
    while !foundSuitablePosition
      invariant 0 <= runnerY < numCols
      invariant foundSuitablePosition ==> m[newRunnerX, runnerY] == Empty
      invariant !foundSuitablePosition ==> CyclicDistance(currentY, runnerY, numCols) <= CyclicDistance(currentY, target, numCols)
      invariant forall j :: 0 <= j < numCols ==>
        (CyclicDistance(currentY, j, numCols) < CyclicDistance(currentY, runnerY, numCols) ==> m[0, j] != Empty)
      decreases !foundSuitablePosition, CyclicDistance(runnerY, target, numCols)
    {
      if m[newRunnerX, runnerY] == Empty {
        foundSuitablePosition := true;
      } else {
        NextColumn(runnerY, numCols);
        runnerY := (runnerY + 1) % numCols;
      }
    }
  }

  /** `positionIsValid` for a spawn cell in row 0 at column `y`: on the board,
      neither obstacle nor key, and not the runner's cell (the runner is in
      row 0 too, so only the columns can differ). */
  predicate SpawnIsValid(m: array2<Cell>, y: int, runnerY: int)
    requires m.Length0 > 0
    reads m
  {
    0 <= y < m.Length1 && m[0, y] != Obstacle && m[0, y] != Key && y != runnerY
  }

  /** `validPositions`: the probes left and right of column `y` that pass `SpawnIsValid`, in that order. */
  function ValidProbes(m: array2<Cell>, y: int, runnerY: int): (vs: seq<int>)
    requires m.Length0 > 0
    reads m
    ensures |vs| <= 2
    ensures forall v :: v in vs <==> (v == y - 1 || v == y + 1) && SpawnIsValid(m, v, runnerY)
    ensures forall k, l :: 0 <= k < l < |vs| ==> vs[k] < vs[l]
  {
    (if SpawnIsValid(m, y - 1, runnerY) then [y - 1] else []) +
    (if SpawnIsValid(m, y + 1, runnerY) then [y + 1] else [])
  }

  /** One round of the enemy search from column `y`: a valid probe picked by
      the draw when there is one, otherwise a column picked by the draw. */
  function EnemyStep(m: array2<Cell>, y: int, runnerY: int, d: real): (next: int)
    requires m.Length0 > 0 && m.Length1 > 0 && 0.0 <= d < 1.0
    reads m
    ensures 0 <= next < m.Length1
    ensures |ValidProbes(m, y, runnerY)| > 0 ==> SpawnIsValid(m, next, runnerY)
  {
    var validPositions := ValidProbes(m, y, runnerY);
    if |validPositions| > 0 then validPositions[PickIndex(d, |validPositions|)]
    else PickIndex(d, m.Length1)
  }

  /** The enemy search as a sequence of rounds from column `y`, one draw each:
      the first round that lands off the runner's column decides, and `None`
      when the draws run out before that. */
  function EnemySearch(m: array2<Cell>, y: int, runnerY: int, draws: seq<real>): (r: Option<int>)
    requires m.Length0 > 0 && m.Length1 > 0
    requires forall k :: 0 <= k < |draws| ==> 0.0 <= draws[k] < 1.0
    reads m
    ensures r.Some? ==> 0 <= r.value < m.Length1 && r.value != runnerY
    decreases |draws|
  {
    if draws == [] then None
    else
      var next := EnemyStep(m, y, runnerY, draws[0]);
      if next != runnerY then Some(next) else EnemySearch(m, next, runnerY, draws[1..])
  }

  /** The first round: with a valid probe the enemy takes the probe the draw
      picks, and that cell is neither obstacle nor key; without one it takes
      the column the draw picks, unless that is the runner's. */
  lemma EnemyFirstRound(m: array2<Cell>, y: int, runnerY: int, draws: seq<real>)
    requires m.Length0 > 0 && m.Length1 > 0
    requires forall k :: 0 <= k < |draws| ==> 0.0 <= draws[k] < 1.0
    requires |draws| > 0
    ensures var vs := ValidProbes(m, y, runnerY);
      |vs| > 0 ==> EnemySearch(m, y, runnerY, draws) == Some(vs[PickIndex(draws[0], |vs|)]) &&
                   m[0, vs[PickIndex(draws[0], |vs|)]] != Obstacle && m[0, vs[PickIndex(draws[0], |vs|)]] != Key
    ensures var c := PickIndex(draws[0], m.Length1);
      |ValidProbes(m, y, runnerY)| == 0 && c != runnerY ==> EnemySearch(m, y, runnerY, draws) == Some(c)
  {
  }

  /** Where the enemy lands: on a valid probe, whose cell is neither obstacle
      nor key, or on a column one of the draws picked, which is not checked. */
  lemma {:induction false} EnemyLanding(m: array2<Cell>, y: int, runnerY: int, draws: seq<real>)
    requires m.Length0 > 0 && m.Length1 > 0
    requires forall k :: 0 <= k < |draws| ==> 0.0 <= draws[k] < 1.0
    ensures var r := EnemySearch(m, y, runnerY, draws);
      r.Some? ==> SpawnIsValid(m, r.value, runnerY) ||
                  exists k :: 0 <= k < |draws| && r.value == PickIndex(draws[k], m.Length1)
    decreases |draws|
  {
    if draws != [] {
      var next := EnemyStep(m, y, runnerY, draws[0]);
      if next == runnerY {
        EnemyLanding(m, next, runnerY, draws[1..]);
        var r := EnemySearch(m, next, runnerY, draws[1..]);
        if r.Some? && !SpawnIsValid(m, r.value, runnerY) {
          var k :| 0 <= k < |draws[1..]| && r.value == PickIndex(draws[1..][k], m.Length1);
          assert draws[1..][k] == draws[k + 1];
        }
      }
    }
  }

  /** A search that ends with some draws ends the same way with more: the
      finite supply of draws only cuts off searches the source would continue. */
  lemma {:induction false} EnemyMoreDraws(m: array2<Cell>, y: int, runnerY: int, draws: seq<real>, more: seq<real>)
    requires m.Length0 > 0 && m.Length1 > 0
    requires forall k :: 0 <= k < |draws| ==> 0.0 <= draws[k] < 1.0
    requires forall k :: 0 <= k < |more| ==> 0.0 <= more[k] < 1.0
    requires EnemySearch(m, y, runnerY, draws).Some?
    ensures EnemySearch(m, y, runnerY, draws + more) == EnemySearch(m, y, runnerY, draws)
    decreases |draws|
  {
    assert (draws + more)[0] == draws[0];
    var next := EnemyStep(m, y, runnerY, draws[0]);
    if next == runnerY {
      assert (draws + more)[1..] == draws[1..] + more;
      EnemyMoreDraws(m, next, runnerY, draws[1..], more);
    }
  }

  /** On a board one column wide the runner holds the only column: both
      probes are off the board and every picked column is the runner's, so
      the search never ends, however many draws it gets. */
  lemma EnemyOneColumn(m: array2<Cell>, y: int, runnerY: int, draws: seq<real>)
    requires m.Length0 > 0 && m.Length1 == 1 && runnerY == 0
    requires forall k :: 0 <= k < |draws| ==> 0.0 <= draws[k] < 1.0
    ensures EnemySearch(m, y, runnerY, draws) == None
    decreases |draws|
  {
  }

  /** The enemy search: from column `currentY` in row 0, try the two
      neighbouring columns and pick one of the valid ones with the next draw;
      if neither is valid, jump to a column picked by the next draw and try
      again from there. It stops once the enemy's column differs from the
      runner's. Every round spends one draw of `draws`; `found` is false when
      the draws ran out first. */
  method FindEnemyStart(m: array2<Cell>, currentY: int, runnerY: int, draws: seq<real>)
    returns (found: bool, enemyY: int)
    requires m.Length0 > 0 && m.Length1 > 0
    requires forall k :: 0 <= k < |draws| ==> 0.0 <= draws[k] < 1.0
    ensures found <==> EnemySearch(m, currentY, runnerY, draws).Some?
    ensures found ==> enemyY == EnemySearch(m, currentY, runnerY, draws).value
    ensures found ==> 0 <= enemyY < m.Length1 && enemyY != runnerY
  {
    var numCols := m.Length1;
    found, enemyY := false, currentY;
    var k := 0;
    assert draws[k..] == draws;
    while !found && k < |draws|
      invariant 0 <= k <= |draws|
      invariant EnemySearch(m, currentY, runnerY, draws) ==
        if found then Some(enemyY) else EnemySearch(m, enemyY, runnerY, draws[k..])
      decreases |draws| - k
    {
      ghost var y := enemyY;
      var validPositions := ValidProbes(m, enemyY, runnerY);
      if |validPositions| > 0 {
        enemyY := validPositions[PickIndex(draws[k], |validPositions|)];
      } else {
        enemyY := PickIndex(draws[k], numCols);
      }
      assert enemyY == EnemyStep(m, y, runnerY, draws[k]);
      assert draws[k..][1..] == draws[k + 1..];
      k := k + 1;
      // the enemy and the runner are both in row 0, so only the columns can differ
      found := enemyY != runnerY;
    }
  }

  /** Row 0 holds an `Empty` cell: exactly when the runner search ends. */
  predicate RunnerSearchEnds(m: array2<Cell>)
    requires m.Length0 > 0
    reads m
  {
    Empty in Cells(m)[0]
  }

  /** The terrain stages in the source's order, as values: `scattered` is the
      grid after the scatter pass on `g0`, then the last row is closed and a
      corridor cell is promoted with `promoteDraw`, giving `g`. */
  predicate TerrainOf(g0: seq<seq<Cell>>, scattered: seq<seq<Cell>>, g: seq<seq<Cell>>, numRows: int, numCols: int,
                      scatterDraws: nat -> real, promoteDraw: real)
  {
    && numRows > 0 && 0.0 <= promoteDraw < 1.0
    && ScatterInvariant(g0, scattered, numRows, numCols, scatterDraws, numRows, 0)
    && g == Promote(Filled(scattered, numRows - 1, Obstacle), promoteDraw)
  }

  /** The terrain stages are deterministic: the original grid and the draws
      decide the final grid. */
  lemma TerrainDeterministic(g0: seq<seq<Cell>>, s1: seq<seq<Cell>>, g: seq<seq<Cell>>, s2: seq<seq<Cell>>, h: seq<seq<Cell>>,
                             numRows: int, numCols: int, scatterDraws: nat -> real, promoteDraw: real)
    requires TerrainOf(g0, s1, g, numRows, numCols, scatterDraws, promoteDraw)
    requires TerrainOf(g0, s2, h, numRows, numCols, scatterDraws, promoteDraw)
    ensures g == h
  {
    ScatterDeterministic(g0, s1, s2, numRows, numCols, scatterDraws);
  }

  /** Cell by cell, the closed and promoted grid `g` holds what `scattered`
      held, except for the last row, all obstacles, and the promoted key. */
  lemma TerrainCells(g0: seq<seq<Cell>>, scattered: seq<seq<Cell>>, g: seq<seq<Cell>>, numRows: int, numCols: int,
                     scatterDraws: nat -> real, promoteDraw: real)
    requires TerrainOf(g0, scattered, g, numRows, numCols, scatterDraws, promoteDraw)
    ensures IsGrid(g, numRows, numCols)
    ensures forall i, j :: 0 <= i < numRows && 0 <= j < numCols ==>
      if i == numRows - 1 then g[i][j] == Obstacle
      else g[i][j] == scattered[i][j] || (scattered[i][j] == Path && g[i][j] == Key)
  {
  }

  /** A cell that was empty and ends up an obstacle has no corridor cell next
      to it: the scatter pass checked that, and later stages remove corridor
      cells but never add one. */
  lemma TerrainObstacle(g0: seq<seq<Cell>>, scattered: seq<seq<Cell>>, g: seq<seq<Cell>>, numRows: int, numCols: int,
                        scatterDraws: nat -> real, promoteDraw: real, i: int, j: int)
    requires TerrainOf(g0, scattered, g, numRows, numCols, scatterDraws, promoteDraw)
    requires IsGrid(g, numRows, numCols)
    requires forall a, b :: 0 <= a < numRows && 0 <= b < numCols && g[a][b] == Path ==> scattered[a][b] == Path
    requires 0 <= i < numRows - 1 && 0 <= j < numCols && g0[i][j] == Empty && scattered[i][j] == Obstacle
    ensures !HasNeighbor(g, numRows, numCols, i, j, Path)
  {
  }

  /** What the terrain stages combine to: the last row is all obstacles; above
      it, corridor cells are corridor or the promoted key, obstacles stay, a
      cell that was empty is never a corridor cell and, if an obstacle, has no
      corridor cell next to it; and there is a key whenever a corridor cell
      above the last row existed. */
  lemma TerrainStages(g0: seq<seq<Cell>>, scattered: seq<seq<Cell>>, g: seq<seq<Cell>>, numRows: int, numCols: int,
                      scatterDraws: nat -> real, promoteDraw: real)
    requires TerrainOf(g0, scattered, g, numRows, numCols, scatterDraws, promoteDraw)
    ensures IsGrid(g, numRows, numCols)
    ensures forall i, j :: 0 <= i < numRows && 0 <= j < numCols && i == numRows - 1 ==> g[i][j] == Obstacle
    ensures forall i, j :: 0 <= i < numRows - 1 && 0 <= j < numCols && g0[i][j] == Path ==>
      g[i][j] == Path || g[i][j] == Key
    ensures forall i, j :: 0 <= i < numRows - 1 && 0 <= j < numCols && g0[i][j] == Obstacle ==>
      g[i][j] == Obstacle
    ensures forall i, j :: 0 <= i < numRows - 1 && 0 <= j < numCols && g0[i][j] == Empty ==>
      g[i][j] != Path && (g[i][j] == Obstacle ==> !HasNeighbor(g, numRows, numCols, i, j, Path))
    ensures (exists i, j :: 0 <= i < numRows - 1 && 0 <= j < numCols && g0[i][j] == Path) ==>
      KeyPieceCount(g) > 0
  {
    TerrainCells(g0, scattered, g, numRows, numCols, scatterDraws, promoteDraw);
    forall i, j | 0 <= i < numRows - 1 && 0 <= j < numCols && g0[i][j] == Empty
      ensures g[i][j] != Path && (g[i][j] == Obstacle ==> !HasNeighbor(g, numRows, numCols, i, j, Path))
    {
      assert scattered[i][j] != Path;
      if g[i][j] == Obstacle {
        TerrainObstacle(g0, scattered, g, numRows, numCols, scatterDraws, promoteDraw, i, j);
      }
    }
    if exists i, j :: 0 <= i < numRows - 1 && 0 <= j < numCols && g0[i][j] == Path {
      var i, j :| 0 <= i < numRows - 1 && 0 <= j < numCols && g0[i][j] == Path;
      TerrainKey(g0, scattered, g, numRows, numCols, scatterDraws, promoteDraw, i, j);
    }
  }

  /** A corridor cell above the last row survives the scatter pass and the
      fill, so the promotion happens and the grid has a key. */
  lemma TerrainKey(g0: seq<seq<Cell>>, scattered: seq<seq<Cell>>, g: seq<seq<Cell>>, numRows: int, numCols: int,
                   scatterDraws: nat -> real, promoteDraw: real, i: int, j: int)
    requires TerrainOf(g0, scattered, g, numRows, numCols, scatterDraws, promoteDraw)
    requires 0 <= i < numRows - 1 && 0 <= j < numCols && g0[i][j] == Path
    ensures KeyPieceCount(g) > 0
  {
    var closed := Filled(scattered, numRows - 1, Obstacle);
    assert (i, j) in PathCells(closed);
  }

  /** The terrain part of the generator fragment, in place: scatter, close the
      last row, promote a corridor cell, count the keys. `scattered` is the
      grid the scatter pass left, with every cell that was `Empty` the outcome
      of its own draw. */
  method GenerateTerrain(m: array2<Cell>, scatterDraws: nat -> real, promoteDraw: real)
    returns (keyPieceCount: nat, ghost scattered: seq<seq<Cell>>)
    requires m.Length0 > 0
    requires 0.0 <= promoteDraw < 1.0
    modifies m
    ensures TerrainOf(old(Cells(m)), scattered, Cells(m), m.Length0, m.Length1, scatterDraws, promoteDraw)
    ensures forall i, j :: 0 <= i < m.Length0 && 0 <= j < m.Length1 && i == m.Length0 - 1 ==> m[i, j] == Obstacle
    ensures forall i, j :: 0 <= i < m.Length0 - 1 && 0 <= j < m.Length1 && old(m[i, j]) == Path ==>
      m[i, j] == Path || m[i, j] == Key
    ensures forall i, j :: 0 <= i < m.Length0 - 1 && 0 <= j < m.Length1 && old(m[i, j]) == Obstacle ==>
      m[i, j] == Obstacle
    ensures forall i, j :: 0 <= i < m.Length0 - 1 && 0 <= j < m.Length1 && old(m[i, j]) == Empty ==>
      m[i, j] != Path && (m[i, j] == Obstacle ==> !HasNeighbor(Cells(m), m.Length0, m.Length1, i, j, Path))
    ensures keyPieceCount == CountCells(Cells(m), Key)
    ensures (exists i, j :: 0 <= i < m.Length0 - 1 && 0 <= j < m.Length1 && old(m[i, j]) == Path) ==> keyPieceCount > 0
  {
    var numRows, numCols := m.Length0, m.Length1;
    ghost var g0 := Cells(m);
    var _ := Scatter(m, scatterDraws);
    scattered := Cells(m);
    FillRow(m, numRows - 1, Obstacle);
    var _, _ := PromoteKey(m, promoteDraw);
    TerrainStages(g0, scattered, Cells(m), numRows, numCols, scatterDraws, promoteDraw);
    keyPieceCount := KeyPieceCount(Cells(m));
  }

  /** The whole generator fragment after carving: the terrain, then the runner
      and the enemy in row 0. `runnerY` is `None` when row 0 ends up with no
      `Empty` cell, where the source's runner search never ends; `enemyY` is
      `None` when there is no runner or the enemy search did not end within
      the supplied draws. */
  method GenerateLevel(m: array2<Cell>, currentY: int, scatterDraws: nat -> real, promoteDraw: real, enemyDraws: seq<real>)
    returns (keyPieceCount: nat, runnerY: Option<int>, enemyY: Option<int>, ghost scattered: seq<seq<Cell>>)
    requires m.Length0 > 0
    requires 0 <= currentY < m.Length1
    requires 0.0 <= promoteDraw < 1.0
    requires forall k :: 0 <= k < |enemyDraws| ==> 0.0 <= enemyDraws[k] < 1.0
    modifies m
    ensures TerrainOf(old(Cells(m)), scattered, Cells(m), m.Length0, m.Length1, scatterDraws, promoteDraw)
    ensures forall i, j :: 0 <= i < m.Length0 && 0 <= j < m.Length1 && i == m.Length0 - 1 ==> m[i, j] == Obstacle
    ensures keyPieceCount == CountCells(Cells(m), Key)
    ensures (exists i, j :: 0 <= i < m.Length0 - 1 && 0 <= j < m.Length1 && old(m[i, j]) == Path) ==> keyPieceCount > 0
    ensures runnerY.Some? <==> RunnerSearchEnds(m)
    ensures runnerY.Some? ==> 0 <= runnerY.value < m.Length1 && m[0, runnerY.value] == Empty
    ensures runnerY.Some? ==> forall j :: 0 <= j < m.Length1 ==>
      (CyclicDistance(currentY, j, m.Length1) < CyclicDistance(currentY, runnerY.value, m.Length1) ==> m[0, j] != Empty)
    ensures enemyY.Some? ==> runnerY.Some?
    ensures runnerY.Some? ==> enemyY == EnemySearch(m, currentY, runnerY.value, enemyDraws)
  {
    keyPieceCount, scattered := GenerateTerrain(m, scatterDraws, promoteDraw);
    if RunnerSearchEnds(m) {
      var r := FindRunnerStart(m, currentY);
      runnerY := Some(r);
      var found, e := FindEnemyStart(m, currentY, r, enemyDraws);
      enemyY := if found then Some(e) else None;
    } else {
      runnerY, enemyY := None, None;
    }
  }
}
