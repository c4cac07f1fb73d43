/** The simple map generator: every cell is classified by one draw, then the
    last row is replaced by obstacles. Grids are indexed `[row, column]`. */
module RandomMap {
  import opened Grid

  /** What the generator's loop writes for a draw `d`: an obstacle below 0.1
      (never in the last row), a key below 0.15, otherwise the cell stays empty.
      In the last row a draw below 0.1 falls through to the key test. */
  function Classify(d: real, lastRow: bool): (c: Cell)
    ensures c != Path
    ensures c == Obstacle <==> d < 0.1 && !lastRow
    ensures c == Key <==> (if lastRow then d < 0.15 else 0.1 <= d < 0.15)
    ensures c == Empty <==> d >= 0.15
  {
    if d < 0.1 && !lastRow then Obstacle
    else if d < 0.15 then Key
    else Empty
  }

  /** The generator's nested loops, in place on the all-empty map: cell
      `(i, j)` is classified by draw number `i * columns + j`, i.e. one draw
      per cell in row-major order; a draw that names neither obstacle nor key
      leaves the cell empty. */
  method ClassifyCells(grid: array2<Cell>, rand: nat -> real)
    requires forall i, j :: 0 <= i < grid.Length0 && 0 <= j < grid.Length1 ==> grid[i, j] == Empty
    modifies grid
    ensures forall i, j :: 0 <= i < grid.Length0 && 0 <= j < grid.Length1 ==>
      grid[i, j] == Classify(rand(i * grid.Length1 + j), i == grid.Length0 - 1)
  {
    var rows, columns := grid.Length0, grid.Length1;
    var i := 0;
    while i < rows
      invariant 0 <= i <= rows
      invariant forall a, b :: 0 <= a < i && 0 <= b < columns ==>
        grid[a, b] == Classify(rand(a * columns + b), a == rows - 1)
      invariant forall a, b :: i <= a < rows && 0 <= b < columns ==> grid[a, b] == Empty
    {
      var j := 0;
      while j < columns
        invariant 0 <= j <= columns
        invariant forall a, b :: 0 <= a < rows && 0 <= b < columns && (a < i || (a == i && b < j)) ==>
          grid[a, b] == Classify(rand(a * columns + b), a == rows - 1)
        invariant forall a, b :: 0 <= a < rows && 0 <= b < columns && !(a < i || (a == i && b < j)) ==>
          grid[a, b] == Empty
      {
        var d := rand(i * columns + j);
        if d < 0.1 && i != rows - 1 {
          grid[i, j] := Obstacle;
        } else if d < 0.15 {
          grid[i, j] := Key;
        }
        j := j + 1;
      }
      i := i + 1;
    }
  }

  /** `generateMap`: a fresh `rows x columns` grid, first all empty, then
      classified cell by cell, then its last row replaced by obstacles. Every
      row but the last keeps what the loop wrote. (With no rows, the source's
      write to index -1 leaves the empty map as it is.) */
  method GenerateMap(rows: nat, columns: nat, rand: nat -> real) returns (grid: array2<Cell>)
    ensures fresh(grid)
    ensures grid.Length0 == rows && grid.Length1 == columns
    ensures forall i, j :: 0 <= i < rows && 0 <= j < columns ==> grid[i, j] != Path
    ensures forall i, j :: 0 <= i < rows && 0 <= j < columns && i == rows - 1 ==> grid[i, j] == Obstacle
    ensures forall i, j :: 0 <= i < rows - 1 && 0 <= j < columns ==> grid[i, j] == Classify(rand(i * columns + j), false)
  {
    grid := new Cell[rows, columns]((i, j) => Empty);
    ClassifyCells(grid, rand);
    if rows > 0 {
      FillRow(grid, rows - 1, Obstacle);
    }
  }
}
