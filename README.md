# TowerEscape maze rules in Dafny

This project models the grid logic of the TowerEscape maze game: how the
runner moves on the board, how the level generator turns a grid with a carved
corridor into a level (scattering obstacles and keys, closing the last row,
promoting a corridor cell to a key, counting keys, choosing the runner's and
the enemy's start columns in row 0), how the enemy's candidate steps are
ordered by distance to the runner, and how the simple map generator classifies
cells. Rendering, navigation and timers are not modelled.

Modules:

- `Grid` (`Grid.dfy`): the four terrain kinds (`'empty'`, `'obstacle'`,
  `'key'`, `'path'`), the grid as an `array2<Cell>` indexed `[row, column]`
  and as a value (`Cells`), the cell counts that `keyPieceCount` computes, and
  the in-place `fill` of one row.
- `Player` (`Player.dfy`): `movePlayer`'s position updater on the 20 x 12
  board, where `x` is the column and `y` the row.
- `LevelGenerator` (`LevelGenerator.dfy`): the generator code that follows
  the corridor carving in `screens/GameScreen.js`. It works in place on the
  grid, as the source does. Start positions here are `{x: row, y: column}`,
  always in row 0.
- `Pursuit` (`Pursuit.dfy`): `moveEnemyTowardsRunner`: the validity test,
  the four candidate moves and their in-place sort by distance to the runner.
- `RandomMap` (`RandomMap.dfy`): `generateMap` from `components/RandomMap.js`.
- `Wrappers` (`Wrappers.dfy`): `Option`, for missing positions and for a
  search that does not end.

Randomness is injected. Each `Math.random()` call becomes a `real` draw that
the caller supplies. The scatter pass and `generateMap` read draw number `k`
from a stream `rand: nat -> real`. The promotion takes one draw. The enemy
search takes a finite sequence of draws. `Math.floor(draw * n)` is
`PickIndex`. The thresholds (0.7, 0.9, 0.1, 0.15) are compared exactly.

`hasKeyNeighbor` is called at `screens/GameScreen.js:82`, but
`screens/GameScreen.js` does not define it. It is modelled as "some in-bounds 4-neighbour is a key". This
is the same predicate (`HasNeighbor`) as the inline `hasPathNeighbor`, with
`Key` in place of `Path`.

What the scatter pass does, exactly: every cell that was `'empty'` before the
pass ends up as `ScatterOutcome` of its own draw. Its draw is number
`DrawIndex`, i.e. one draw per empty cell in row-major order. The outcome is
judged against the grid as the pass sees it at the visit. Corridor cells never
change. The key test reads the neighbours above and to the left as the pass
left them, and the neighbours below and to the right as they were
(`KeyNearAtVisit`). `Scatter` ensures this as `ScatterInvariant`, and
`ScatterStep` proves that one visit keeps it. `ScatterDeterministic` proves
that the invariant admits exactly one final grid; `ScatterFirstKeyWins` shows
the visit order deciding between two neighbouring key draws. Because keys are
never removed, the same outcome also holds when judged against the final
neighbours (`ScatterFinal`). `ScatterKeepsKeysApart` derives from that that
the pass never places two keys side by side.

The enemy search is specified round by round by `EnemySearch`, and
`FindEnemyStart`'s loop is proved to compute it. The terrain stages are stated
exactly by `TerrainOf`, which `TerrainDeterministic` shows admits one final
grid: the grid after the scatter pass satisfies
`ScatterInvariant`, and the final grid is that grid with the last row filled
and then `Promote`d. `TerrainStages` derives the cell-level facts from that.

The model follows the generator code as written:

- Corridor cells that are not promoted stay `'path'`. The code has no step
  that turns them back into `'empty'`.
- A corridor cell is promoted to a key whenever one survives the last-row
  fill. This happens even if the scatter pass already placed keys.
- The runner search scans row 0 cyclically for an `'empty'` cell, starting at
  the carved column. It never ends when row 0 has none. There is no retry and
  no error. `GenerateLevel` reports this case as `runnerY == None`.
- The enemy's fallback column is not checked for obstacles or keys. Only the
  runner's cell is excluded. So the enemy may start on an obstacle or a key.
- The generator's start positions are `{x: row, y: column}`. The player's
  position in `movePlayer` is `{x: column, y: row}`.

## Model

| member | source | states |
|---|---|---|
| `Grid.CountCellsPositive` | screens/GameScreen.js:105-108 | the key count (the row-by-row sum of `filter(cell === 'key').length`) is positive exactly when some cell is a key |
| `Grid.CountCellsSet` | screens/GameScreen.js:101-108 | turning a non-key cell into a key raises the key count by exactly one |
| `Grid.FillRow` | screens/GameScreen.js:92 | `newMap[numRows - 1].fill('obstacle')`: every cell of that row becomes the value, no other cell changes |
| `Player.InitialPosition` | screens/GameScreen.js:10-13 | the start position is column 6, row 10, on the board |
| `Player.MovePlayer` | screens/GameScreen.js:41-58 | from a position on the board the result is on the board and equals one step in the direction, clamped to the board; an unrecognised direction changes nothing |
| `Player.MoveIsUnitStep` | screens/GameScreen.js:45-58 | from a position on the board, a move changes at most one coordinate, by at most one |
| `Player.MoveAtWall` | screens/GameScreen.js:46-57 | each direction leaves the position unchanged exactly when the runner is against that wall |
| `LevelGenerator.HasNeighbor` | screens/GameScreen.js:72-76 | `hasPathNeighbor` (and `hasKeyNeighbor` at line 82, with a key in place of a corridor cell) holds exactly when some on-board cell sharing a side with `(i, j)` holds that kind |
| `LevelGenerator.KeyNearAtVisit` | screens/GameScreen.js:82 | `hasKeyNeighbor(newMap, i, j)` at the visit of `(i, j)`: some side neighbour is a key, reading visited cells (before `(i, j)` in row-major order) after the pass and unvisited ones as they were |
| `LevelGenerator.ScatterOutcome` | screens/GameScreen.js:66-88 | an empty cell becomes an obstacle exactly when its draw is in [0.7, 0.9) and no corridor cell is next to it, a key exactly when its draw is at least 0.9 and no key is next to it, and never a corridor cell |
| `LevelGenerator.ScatterCell` | screens/GameScreen.js:66-88 | one visit to an empty cell rewrites that cell to `ScatterOutcome` of its draw and current neighbours, and no other cell |
| `LevelGenerator.ScatterStep` | screens/GameScreen.js:64-90 | visiting one more empty cell keeps every visited empty cell consistent with its own draw and the neighbours it saw at its visit, and leaves unvisited and non-empty cells alone |
| `LevelGenerator.Scatter` | screens/GameScreen.js:64-90 | the pass spends one draw per empty cell in row-major order and leaves every non-empty cell, corridor cells included, unchanged; each empty cell becomes the outcome of its own draw judged against the neighbours it sees at its visit (`ScatterInvariant`, which fixes one grid); in the final grid a rewritten cell is not a corridor cell, an obstacle has no corridor neighbour and a key has no key neighbour |
| `LevelGenerator.ScatterKeepsPaths` | screens/GameScreen.js:64-90 | the pass neither writes nor overwrites a corridor cell |
| `LevelGenerator.ScatterDeterministic` | screens/GameScreen.js:64-90 | for a given grid and draws, exactly one grid satisfies the finished pass's invariant |
| `LevelGenerator.ScatterFirstKeyWins` | screens/GameScreen.js:64-90 | on two neighbouring empty cells whose draws both name a key, the first visited becomes the key and the second stays empty |
| `LevelGenerator.ScatterFinalCell` | screens/GameScreen.js:81-86 | judged against its neighbours in the finished grid, a scattered cell still holds the outcome of its draw: a new key has no key next to it at the end |
| `LevelGenerator.ScatterFinal` | screens/GameScreen.js:64-90 | the same for every cell that was empty |
| `LevelGenerator.ScatterKeepsKeysApart` | screens/GameScreen.js:81-86 | if no two keys were adjacent before the scatter pass, none are after it |
| `LevelGenerator.PathCells` | screens/GameScreen.js:94-96 | `pathKeys` contains exactly the positions of corridor cells, as many as there are corridor cells, in strictly increasing row-major order (so each once, in the order of `flatMap` and `filter`) |
| `LevelGenerator.PickIndex` | screens/GameScreen.js:100 | `Math.floor(draw * n)` for a draw in [0, 1) is an index in [0, n) |
| `LevelGenerator.Promote` | screens/GameScreen.js:98-102 | the promotion as a value: the key count rises by one exactly when a corridor cell exists, and the only cell that can change is a corridor cell that becomes a key |
| `LevelGenerator.PromoteKey` | screens/GameScreen.js:98-102 | a cell is promoted exactly when some corridor cell exists; the promoted cell is the corridor cell the draw picks from `pathKeys`; it becomes a key and nothing else changes; the new grid is `Promote` of the old one; the key count rises by exactly one |
| `LevelGenerator.KeyPieceCount` | screens/GameScreen.js:105-108 | the key count is positive exactly when some cell holds a key |
| `LevelGenerator.TerrainDeterministic` | screens/GameScreen.js:64-102 | the original grid and the draws decide the grid after scatter, fill and promotion |
| `LevelGenerator.TerrainCells` | screens/GameScreen.js:92-102 | after fill and promotion, the last row is all obstacles and every other cell is what the scatter pass left, or a corridor cell turned key |
| `LevelGenerator.TerrainObstacle` | screens/GameScreen.js:70-80 | a cell that was empty and ends up an obstacle has no corridor cell next to it in the final grid |
| `LevelGenerator.TerrainKey` | screens/GameScreen.js:92-102 | a corridor cell above the last row guarantees a key in the final grid |
| `LevelGenerator.TerrainStages` | screens/GameScreen.js:64-102 | after scatter, fill and promotion: the last row is all obstacles; above it corridor cells are corridor or key, obstacles stay, a cell that was empty is never a corridor cell and, if an obstacle, has no corridor neighbour; a key exists whenever a corridor cell above the last row existed |
| `LevelGenerator.GenerateTerrain` | screens/GameScreen.js:63-108 | the terrain stages in order on the grid in place: some grid satisfying the scatter pass's exact invariant, filled and promoted, is the new grid; the cell-level facts of `TerrainStages` hold; `keyPieceCount` equals the number of keys |
| `LevelGenerator.NextColumn` | screens/GameScreen.js:122 | `(y + 1) % numCols` moves to the next column and wraps from the last to 0 |
| `LevelGenerator.FindRunnerStart` | screens/GameScreen.js:113-124 | given an empty cell in row 0, the search stops at the first empty cell of row 0 in cyclic order from `currentY`; every column it passed is not empty |
| `LevelGenerator.ValidProbes` | screens/GameScreen.js:135-147 | the valid positions are exactly those of the columns left and right of the enemy that are on the board, not obstacle, not key and not the runner's, each once, left before right |
| `LevelGenerator.EnemyStep` | screens/GameScreen.js:134-156 | one round lands on the board, and on a valid probe (neither obstacle, key nor the runner's cell) whenever one exists |
| `LevelGenerator.EnemySearch` | screens/GameScreen.js:129-164 | the rounds in sequence: a result is on the board and off the runner's column |
| `LevelGenerator.EnemyFirstRound` | screens/GameScreen.js:147-163 | with a valid probe, the first round takes the probe the draw picks, whose cell is neither obstacle nor key; without one, it takes the column the draw picks unless that is the runner's |
| `LevelGenerator.EnemyLanding` | screens/GameScreen.js:147-156 | the enemy ends on a valid probe or on a column some draw picked, the only unchecked case |
| `LevelGenerator.EnemyMoreDraws` | screens/GameScreen.js:134-164 | a search that ends within some draws ends on the same column with more draws |
| `LevelGenerator.EnemyOneColumn` | screens/GameScreen.js:134-164 | on a board one column wide the search never ends |
| `LevelGenerator.FindEnemyStart` | screens/GameScreen.js:129-164 | the loop computes `EnemySearch`: it ends exactly when the reference search does, on the same column, which is on the board and off the runner's |
| `LevelGenerator.GenerateLevel` | screens/GameScreen.js:63-166 | the whole fragment: the terrain as in `GenerateTerrain` (exact stages, last row all obstacles, key count, a key whenever a corridor cell survived); a runner start exactly when row 0 has an empty cell, the first empty cell in cyclic order from `currentY`; the enemy start is `EnemySearch` from `currentY` |
| `Pursuit.NewPositionIsValid` | screens/GameScreen.js:185-191 | `newPositionIsValid` holds exactly for on-board cells that are empty or corridor |
| `Pursuit.PossibleMoves` | screens/GameScreen.js:193-198 | four candidates, each differing from the enemy by at most one on a single axis |
| `Pursuit.TowardsAndAway` | screens/GameScreen.js:193-198 | the first two candidates never increase the distance to the runner, the last two never decrease it |
| `Pursuit.HypotOrder` | screens/GameScreen.js:201-205 | comparing `Math.hypot` distances is comparing squared integer distances |
| `Pursuit.SortByKey` | screens/GameScreen.js:201-205 | the in-place sort leaves the array ordered by the key and a permutation of what it was |
| `Pursuit.MoveEnemyTowardsRunner` | screens/GameScreen.js:172-205 | nothing when a position is missing; otherwise a permutation of the four candidates in non-decreasing distance to the runner |
| `RandomMap.Classify` | components/RandomMap.js:14-19 | outside the last row a draw below 0.1 gives an obstacle, one in [0.1, 0.15) a key, anything else an empty cell; never a corridor cell |
| `RandomMap.ClassifyCells` | components/RandomMap.js:12-21 | on the all-empty map, cell `(i, j)` holds the classification of draw number `i * columns + j`; a draw naming neither obstacle nor key leaves the cell empty |
| `RandomMap.GenerateMap` | components/RandomMap.js:6-27 | a fresh `rows x columns` grid with no corridor cells, last row all obstacles, every other row as the loop classified it |

## Left out

- Rendering, style sheets, the on-screen buttons and `cellSize`
  (`screens/GameScreen.js:15-39`, `:208-251`; `components/RandomMap.js:29-68`):
  presentation only.
- The corridor carving before `screens/GameScreen.js:60`: only its last
  statement is in the file. The model starts from a grid whose corridor cells
  are already `Path`, with `currentY` the carved column.
- `initializeEnemy(newMap)` (`screens/GameScreen.js:127`) and the React state
  setters: `screens/GameScreen.js` does not define them. The setters' arguments are the
  methods' results. `setKeyPiecesCollected(0)` passes a constant and is not
  modelled.
- `components/Enemy.js` is not part of this model: its path search is the
  external `pathfinding` library, and its movement is driven by a timer.
- `App.js`, `screens/HomeScreen.js`, `screens/SettingsScreen.js`,
  `screens/CustomizeScreen.js`: navigation and static screens.
- Floating point: draws are exact reals, so the thresholds are exact.
  `Math.hypot` is replaced by the squared integer distance. `HypotOrder`
  shows that the two give the same order.
- FindEnemyStart: stops with `found == false` when the supplied draws run
  out, where the source keeps calling `Math.random()`. `found == false` thus
  stands both for a search that needs more draws (`EnemyMoreDraws` shows more
  draws never change an answer) and for one that never ends, as on a board
  one column wide (`EnemyOneColumn`).
- MovePlayer: as written, the updater passed to `setPlayerPosition`
  (`screens/GameScreen.js:42-60`) has no `return { x, y }`: the file's text
  breaks off after the `switch` and continues with the generator. Its next
  statement, `newMap[currentX][currentY] = 'path'` (line 60), names variables
  that are not in scope there, so the updater would throw before it could
  return anything. The model returns the updated position, which is what
  the `switch` computes.
- FindRunnerStart: requires `0 <= currentY < numCols`. The carving has just
  written `newMap[currentX][currentY]` at `screens/GameScreen.js:60`.
- SortByKey: does not state that the sort is stable, although JavaScript's
  sort is.
- MoveEnemyTowardsRunner: returns the sorted candidates. The source computes
  them and then discards them.
- GenerateMap: a JavaScript map is an array of row arrays, and line 24
  replaces the last row array with a new one. The model uses one
  two-dimensional array and fills that row in place. The visible contents are
  the same. With zero rows the source writes to index -1, which leaves the
  empty map unchanged; the model does nothing in that case.
- Key pickup, clearing the bottom row, score, pause and level exit:
  `screens/GameScreen.js` does not contain them.
