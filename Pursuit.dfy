/** The enemy's step candidates on the game screen: four moves at unit
    distance around the enemy, ordered by their distance to the runner.
    Positions are `{x: row, y: column}`, as the grid is indexed `map[x][y]`. */
module Pursuit {
  import opened Grid
  import opened Wrappers

  datatype Pos = Pos(x: int, y: int)

  /** `newPositionIsValid`: `(x, y)` is on the board and its cell is neither an
      obstacle nor a key. Over the four terrain kinds, that is an on-board
      cell that is empty or corridor. */
  predicate NewPositionIsValid(g: seq<seq<Cell>>, numRows: int, numCols: int, x: int, y: int): (valid: bool)
    requires IsGrid(g, numRows, numCols)
    ensures valid <==> 0 <= x < numRows && 0 <= y < numCols && (g[x][y] == Empty || g[x][y] == Path)
  {
    x >= 0 && x < numRows && y >= 0 && y < numCols && g[x][y] != Obstacle && g[x][y] != Key
  }

  /** `Math.sign` on integers. */
  function Sign(n: int): (s: int)
    ensures s * n >= 0 && -1 <= s <= 1
    ensures s == 0 <==> n == 0
  {
    if n > 0 then 1 else if n < 0 then -1 else 0
  }

  /** `possibleMoves`: towards the runner along the rows, along the columns,
      then away from it along the rows and along the columns. */
  function PossibleMoves(runner: Pos, enemy: Pos): (moves: seq<Pos>)
    ensures |moves| == 4
    ensures forall k :: 0 <= k < 4 ==>
      (moves[k].x == enemy.x || moves[k].y == enemy.y) &&
      -1 <= moves[k].x - enemy.x <= 1 && -1 <= moves[k].y - enemy.y <= 1
  {
    var dx := runner.x - enemy.x;
    var dy := runner.y - enemy.y;
    [Pos(enemy.x + Sign(dx), enemy.y),
     Pos(enemy.x, enemy.y + Sign(dy)),
     Pos(enemy.x - Sign(dx), enemy.y),
     Pos(enemy.x, enemy.y - Sign(dy))]
  }

  /** The square of the Euclidean distance between two positions. The source
      orders by `Math.hypot`, its square root, which orders the same way (see
      `HypotOrder`). */
  function SqDist(a: Pos, b: Pos): nat {
    (a.x - b.x) * (a.x - b.x) + (a.y - b.y) * (a.y - b.y)
  }

  /** Comparing two non-negative reals is comparing their squares. */
  lemma SquareMonotone(p: real, q: real)
    requires p >= 0.0 && q >= 0.0
    ensures p <= q <==> p * p <= q * q
  {
    if p > q {
      var d := p - q;
      assert p * p - q * q == d * d + 2.0 * d * q;
      assert d * d > 0.0;
      assert d * q >= 0.0;
    } else {
      assert q * q - p * p == (q - p) * (q + p);
      assert (q - p) * (q + p) >= 0.0;
    }
  }

  /** Ordering by `Math.hypot` is ordering by squared distance: whenever
      `distA` and `distB` are the distances of `a` and `b` to the runner. */
  lemma HypotOrder(distA: real, distB: real, a: Pos, b: Pos, runner: Pos)
    requires distA >= 0.0 && distB >= 0.0
    requires distA * distA == SqDist(a, runner) as real && distB * distB == SqDist(b, runner) as real
    ensures distA <= distB <==> SqDist(a, runner) <= SqDist(b, runner)
  {
    SquareMonotone(distA, distB);
  }

  /** Stepping towards the runner never increases the distance to it, stepping
      away never decreases it. */
  lemma TowardsAndAway(runner: Pos, enemy: Pos)
    ensures var moves := PossibleMoves(runner, enemy);
      && SqDist(moves[0], runner) <= SqDist(enemy, runner) <= SqDist(moves[2], runner)
      && SqDist(moves[1], runner) <= SqDist(enemy, runner) <= SqDist(moves[3], runner)
  {
  }

  /** The elements are in non-decreasing order of `key`. */
  predicate SortedBy<T>(s: seq<T>, key: T -> int) {
    forall i, j :: 0 <= i < j < |s| ==> key(s[i]) <= key(s[j])
  }

  /** Swaps `a[j - 1]` and `a[j]`. */
  method SwapAdjacent<T>(a: array<T>, j: int)
    requires 0 < j < a.Length
    modifies a
    ensures a[j - 1] == old(a[j]) && a[j] == old(a[j - 1])
    ensures forall k :: 0 <= k < a.Length && k != j - 1 && k != j ==> a[k] == old(a[k])
    ensures multiset(a[..]) == multiset(old(a[..]))
  {
    a[j - 1], a[j] := a[j], a[j - 1];
  }

  /** Moves `a[i]` left past every larger key, so that `a[..i + 1]`, sorted
      but for its last element before, is sorted after. */
  method InsertLast<T>(a: array<T>, i: int, key: T -> int)
    requires 0 <= i < a.Length
    requires SortedBy(a[..i], key)
    modifies a
    ensures SortedBy(a[..i + 1], key)
    ensures forall k :: i < k < a.Length ==> a[k] == old(a[k])
    ensures multiset(a[..]) == multiset(old(a[..]))
  {
    var j := i;
    while j > 0 && key(a[j - 1]) > key(a[j])
      invariant 0 <= j <= i
      invariant forall k, l :: 0 <= k < l <= i && k != j && l != j ==> key(a[k]) <= key(a[l])
      invariant forall l :: j < l <= i ==> key(a[j]) <= key(a[l])
      invariant forall k :: i < k < a.Length ==> a[k] == old(a[k])
      invariant multiset(a[..]) == multiset(old(a[..]))
    {
      SwapAdjacent(a, j);
      j := j - 1;
    }
  }

  /** `array.sort(comparator)` with a comparator that subtracts keys: sorts
      the array in place by `key` (an insertion sort). */
  method SortByKey<T>(a: array<T>, key: T -> int)
    modifies a
    ensures SortedBy(a[..], key)
    ensures multiset(a[..]) == multiset(old(a[..]))
  {
    var i := 0;
    while i < a.Length
      invariant 0 <= i <= a.Length
      invariant SortedBy(a[..i], key)
      invariant multiset(a[..]) == multiset(old(a[..]))
    {
      InsertLast(a, i, key);
      i := i + 1;
    }
    assert a[..a.Length] == a[..];
  }

  /** The moves are in non-decreasing order of distance to the runner. */
  predicate SortedByDistance(moves: seq<Pos>, runner: Pos) {
    SortedBy(moves, p => SqDist(p, runner))
  }

  /** `moveEnemyTowardsRunner`: nothing without both positions; otherwise the
      four candidate moves, ordered by distance to the runner. */
  method MoveEnemyTowardsRunner(runner: Option<Pos>, enemy: Option<Pos>) returns (moves: Option<seq<Pos>>)
    ensures moves.None? <==> runner.None? || enemy.None?
    ensures moves.Some? ==>
      && multiset(moves.value) == multiset(PossibleMoves(runner.value, enemy.value))
      && SortedByDistance(moves.value, runner.value)
  {
    if runner.None? || enemy.None? {
      return None;
    }
    var possibleMoves := PossibleMoves(runner.value, enemy.value);
    var a := new Pos[4](k requires 0 <= k < 4 => possibleMoves[k]);
    assert a[..] == possibleMoves;
    SortByKey(a, p => SqDist(p, runner.value));
    moves := Some(a[..]);
  }
}
