/** The runner's movement on the game screen: one step in a named direction,
    clamped to the `GridRows x GridCols` board. Here `x` is the column and
    `y` the row. */
module Player {

  const GridRows: int := 20
  const GridCols: int := 12

  datatype Position = Position(x: int, y: int)

  predicate InBounds(p: Position) {
    0 <= p.x < GridCols && 0 <= p.y < GridRows
  }

  function Max(a: int, b: int): int { if a < b then b else a }
  function Min(a: int, b: int): int { if a < b then a else b }

  /** The starting position: the middle of the board. */
  function InitialPosition(): (p: Position)
    ensures InBounds(p)
    ensures p == Position(6, 10)
  {
    Position(GridCols / 2, GridRows / 2)
  }

  /** The unit vector a direction names; any other string names no movement. */
  function Delta(direction: string): (d: Position)
    ensures d.x == 0 || d.y == 0
    ensures -1 <= d.x <= 1 && -1 <= d.y <= 1
  {
    if direction == "up" then Position(0, -1)
    else if direction == "down" then Position(0, 1)
    else if direction == "left" then Position(-1, 0)
    else if direction == "right" then Position(1, 0)
    else Position(0, 0)
  }

  /** The nearest position on the board. */
  function Clamp(p: Position): (q: Position)
    ensures InBounds(q)
    ensures InBounds(p) ==> q == p
  {
    Position(Max(0, Min(p.x, GridCols - 1)), Max(0, Min(p.y, GridRows - 1)))
  }

  /** The updater that `movePlayer` hands to the position state. From a position
      on the board, it is the one-step move followed by the clamp to the board. */
  function MovePlayer(prev: Position, direction: string): (next: Position)
    ensures InBounds(prev) ==> InBounds(next)
    ensures InBounds(prev) ==> next == Clamp(Position(prev.x + Delta(direction).x, prev.y + Delta(direction).y))
    ensures direction !in {"up", "down", "left", "right"} ==> next == prev
  {
    if direction == "up" then prev.(y := Max(prev.y - 1, 0))
    else if direction == "down" then prev.(y := Min(prev.y + 1, GridRows - 1))
    else if direction == "left" then prev.(x := Max(prev.x - 1, 0))
    else if direction == "right" then prev.(x := Min(prev.x + 1, GridCols - 1))
    else prev
  }

  /** Every move changes at most one coordinate, by at most one. */
  lemma MoveIsUnitStep(prev: Position, direction: string)
    requires InBounds(prev)
    ensures var next := MovePlayer(prev, direction);
      (next.x == prev.x || next.y == prev.y) &&
      -1 <= next.x - prev.x <= 1 && -1 <= next.y - prev.y <= 1
  {
  }

  /** Against the wall the move does nothing; away from it the move takes a full step. */
  lemma MoveAtWall(prev: Position, direction: string)
    requires InBounds(prev)
    ensures direction == "up" ==> (MovePlayer(prev, direction) == prev <==> prev.y == 0)
    ensures direction == "down" ==> (MovePlayer(prev, direction) == prev <==> prev.y == GridRows - 1)
    ensures direction == "left" ==> (MovePlayer(prev, direction) == prev <==> prev.x == 0)
    ensures direction == "right" ==> (MovePlayer(prev, direction) == prev <==> prev.x == GridCols - 1)
  {
  }
}
