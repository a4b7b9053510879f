# Carcassonne map generator: a verified model of its core

The carcassonne-map-generator fills a grid with Carcassonne-style tiles by
wave function collapse. This project models three parts of it:

- **The tile-possibility grid of the collapse draft** (`src/collapse.ts`).
  - Each cell of the fixed 10×6 map holds a list of possible tiles and four side sets, one per direction, derived from that list.
  - Each cell holds a dependency record per in-bounds neighbour. The record carries a `hasChanged` flag and a `reverse` link to the neighbour's record that points back.
  - `getPossibleTiles` keeps the possibilities whose sides the four neighbours still admit.
  - `propagateThroughTiles` refilters a cell, clears its flags, flags its neighbours when the cell lost tiles, and recurses into flagged uncollapsed neighbours.
  - `collapse` fixes a cell to one tile and propagates from it.
  - The full-collapse loop repeatedly collapses the uncollapsed cell with the fewest possibilities.
- **The utilities** (`src/utils.ts`):
  - rotating tilemap tiles into four orientations;
  - enumerating every side combination;
  - the side-name check and position assignment of `parseTilemapData`;
  - the in-place Fisher–Yates `shuffleArray`;
  - the first-occurrence `unique`;
  - the maze filters and the row-major, stop-at-first-failure loop of `limitMapToMaze`.
- **The maze wall wiring** (`src/maze.ts`). Every cell is created with four wall objects of its own. The cells then learn their coordinates, and a nested loop re-points wall references so that two adjacent cells share one wall.

Modules:

- `Common` (`common.dfy`): shared enums (`Side`, `Direction`), `Option`, direction offsets, and the subsequence relation with its basic lemmas.
- `CollapseGrid` (`collapse_grid.dfy`): tiles, side sets, the compatibility filter, the dependency flags, and the grid after one refilter or collapse step, written as functions on values. It also holds the invariant `Settled` that the engine keeps between calls of `collapse`:
  - side sets derived from the possibilities;
  - flags sound;
  - no pending cell;
  - collapsed neighbours agree;
  - a collapsed cell holds at most one tile.
- `Collapse` (`collapse.dfy`): the imperative engine. The class `TileMap` owns the grid. Its methods update the grid in place and are proved against the `CollapseGrid` functions. `Propagate` is the recursive propagation, and it terminates on the lexicographic measure (total possibilities, total set flags, own flag set).
- `Utils` (`utils.dfy`) and `MazeLimit` (`maze_limit.dfy`): the `src/utils.ts` operations. `shuffleArray` works in place on an `array`. `limitMapToMaze` is a method with nested loops, proved against a recursive function of the same loop.
- `Maze` (`maze.dfy`): the class `MazeGrid`. Wall objects live in an arena of open flags, and each cell stores the four arena indices of its walls. Sharing a wall therefore means holding the same index.

Randomness (`Math.random`) becomes parameters: a draw per round of the full-collapse loop, a draw per step of the shuffle, and the 240 initial wall flags of the maze.

## Model

| member | source | states |
|---|---|---|
| Collapse.ExpandRotations | src/collapse.ts:48-55 | the palette is the base tiles followed by three rotations of each, in order: 4×N tiles with the first variant taking left→top, top→right, right→bottom, bottom→left |
| Collapse.ExpansionRotationClosed | src/collapse.ts:48-55 | the expanded palette is closed under rotation and every tile is a rotation of a base tile |
| CollapseGrid.RotateMovesFaces | src/collapse.ts:52-54 | one rotation moves each face one quarter clockwise; four rotations give back the tile |
| CollapseGrid.SidesOf | src/collapse.ts:66-71 | each side set is exactly the set of that field over the tile list |
| CollapseGrid.RotationClosedFacesAgree | src/collapse.ts:48-71 | over a rotation-closed palette every side a tile shows in one direction is in every side set, so the fresh map is consistent |
| Collapse.TileMap.constructor | src/collapse.ts:57-105 | the map starts fresh: each cell has the whole expanded palette, is uncollapsed, has no flag set, has side sets derived from the palette and its own (x, y); the invariant Settled holds |
| CollapseGrid.FreshIsSettled | src/collapse.ts:57-80 | a fresh map over a rotation-closed palette already satisfies the engine's invariant |
| CollapseGrid.DependenciesExact | src/collapse.ts:82-98 | a cell's dependencies are exactly its in-bounds neighbours, each once |
| CollapseGrid.NearDependency | src/collapse.ts:82-98 | every in-bounds neighbour of a cell is reached through one of its dependencies |
| CollapseGrid.FindDependencyUnique | src/collapse.ts:101-102 | the `find` over a neighbour's records returns the only record that points back at the cell |
| CollapseGrid.ReverseIsOpposite | src/collapse.ts:99-105 | the reverse of the record (cell, d) is the neighbour's record in the opposite direction, and it exists |
| CollapseGrid.ChecksAreCompatibility | src/collapse.ts:146-151 | the four continue-checks pass exactly when every existing neighbour's facing side set admits the tile's facing side |
| Collapse.TileMap.GetPossibleTiles | src/collapse.ts:142-156 | the method's loop returns the compatibility filter of the possibilities |
| CollapseGrid.FittingTiles | src/collapse.ts:142-156 | the filter result is a subsequence of the possibilities, keeping every copy of a compatible tile and no incompatible one |
| CollapseGrid.FittingTilesAppend | src/collapse.ts:146-152 | filtering a list with one more tile appends that tile exactly when it is compatible |
| CollapseGrid.FittingTilesMembers | src/collapse.ts:142-156 | a tile is in the result if and only if it was possible and is compatible |
| CollapseGrid.SetCell | src/collapse.ts:163-169 | writing one cell leaves every other cell unchanged |
| CollapseGrid.NotifyOne | src/collapse.ts:171-174 | one record's step clears its own flag when asked and sets the reverse record's flag when asked, changing nothing else |
| CollapseGrid.NotifyAll | src/collapse.ts:171-174 | walking all records changes only flags: a cell's own flags in the walked directions are cleared, and the reverse flags are set exactly when marking |
| CollapseGrid.RefilteredCells | src/collapse.ts:159-174 | per cell, one visit replaces the visited cell's possibilities by the filter and its side sets by those of the result, clears its flags, and sets each neighbour's reverse flag exactly when the count changed |
| CollapseGrid.RefilterWellFormed | src/collapse.ts:162-169 | after a visit the side sets are still derived from the possibilities everywhere |
| CollapseGrid.RefilterNarrows | src/collapse.ts:162-169 | a visit only removes possibilities, keeps coordinates and collapsed flags, and leaves collapsed cells other than the visited one alone |
| CollapseGrid.RefilterFlagsSound | src/collapse.ts:171-174 | after a visit every unflagged record of an uncollapsed cell is satisfied by each of its possibilities |
| CollapseGrid.RefilterMarksReverse | src/collapse.ts:173 | when the count changed, the reverse record of each dependency is flagged |
| CollapseGrid.RefilterPending | src/collapse.ts:171-178 | after a visit, a cell still pending was pending before or is a neighbour of the visited cell |
| CollapseGrid.RefilterProgress | src/collapse.ts:162-174 | a visit lowers (total possibilities, total flags) lexicographically, or leaves both unchanged when the visited cell had no flag |
| CollapseGrid.RefilterKeepsInvariants | src/collapse.ts:159-174 | a visit keeps the side sets and the flags sound, narrows, refilters the visited cell, bounds the pending cells and makes progress |
| Collapse.TileMap.RefilterCell | src/collapse.ts:160-174 | the in-place refilter and flag loop leaves exactly the grid of one visit |
| CollapseGrid.NeighbourVisitKeeps | src/collapse.ts:176-180 | recursing into a flagged uncollapsed neighbour composes: narrowing, progress and kept collapsed cells carry over, and that neighbour is no longer pending |
| CollapseGrid.NarrowedTransitive | src/collapse.ts:159-181 | narrowing composes across successive visits |
| CollapseGrid.NarrowingKeepsAgreement | src/collapse.ts:159-181 | narrowing keeps collapsed neighbours agreeing and collapsed cells at most one tile |
| Collapse.TileMap.Propagate | src/collapse.ts:158-181 | propagation terminates; keeps the side sets and the flags sound; only removes possibilities; skips collapsed cells other than the start; leaves no pending cell near the start nor any new pending cell; refilters a collapsed start against its neighbours |
| CollapseGrid.SingletonSides | src/collapse.ts:188-194 | the singleton side sets are the side sets of the one-tile list |
| CollapseGrid.CollapsedAtCell | src/collapse.ts:188-196 | the collapse step makes the cell [tile], collapsed, with singleton side sets and its own flags kept, and flags each neighbour's record pointing back at it |
| Collapse.TileMap.SetCollapsed | src/collapse.ts:188-196 | the in-place collapse step leaves exactly that grid |
| CollapseGrid.ChosenTileAgrees | src/collapse.ts:184-196 | a possible tile of a settled uncollapsed cell agrees with every tile of each collapsed neighbour |
| CollapseGrid.CollapsedAtFacts | src/collapse.ts:184-197 | after the collapse step the side sets, flag soundness and collapsed agreement still hold; only the collapsed cell's neighbours are pending; the other cells differ only in flags; a newly collapsed tile survives its own refilter |
| CollapseGrid.CollapsedAtKeepsTile | src/collapse.ts:188-197 | refiltering a freshly collapsed cell keeps its single tile |
| CollapseGrid.CollapseFinish | src/collapse.ts:184-199 | after the collapse step and propagation the invariant holds again, the cell is collapsed to [tile] (or to at most [tile] if it had been collapsed before), and every other cell only lost possibilities |
| Collapse.TileMap.Collapse | src/collapse.ts:183-199 | a tile not among the cell's possibilities changes nothing; otherwise the cell ends collapsed to the tile, other cells are only narrowed, other collapsed cells are untouched, and the invariant is kept |
| CollapseGrid.SettledIsArcConsistent | src/collapse.ts:142-199 | between collapses every possibility of an uncollapsed cell is compatible, and each neighbour has a possibility showing the same side on the shared edge |
| CollapseGrid.FullyCollapsedFits | src/collapse.ts:215-228 | on a fully collapsed map, any two adjacent non-empty cells hold one tile each and show each other the same side |
| Collapse.TileMap.SelectCell | src/collapse.ts:216-222 | a cell is found exactly when an uncollapsed cell exists, and it is the first in row-major order among those with the fewest possibilities |
| CollapseGrid.FirstLeastOpenUnique | src/collapse.ts:216-222 | the stable sort's head is determined by the map |
| CollapseGrid.FirstLeastOpenStuck | src/collapse.ts:219-227 | the chosen cell has no possibility exactly when some uncollapsed cell has none |
| CollapseGrid.UncollapsedCountDrops | src/collapse.ts:223-227 | collapsing one open cell lowers the count of uncollapsed cells by one |
| Collapse.TileMap.CollapseStep | src/collapse.ts:215-228 | one round ends the loop exactly when every cell is collapsed; otherwise the returned cell is the first uncollapsed cell with the fewest possibilities (the stable sort's first entry); a finished or stuck map is unchanged; otherwise that cell is collapsed to its possibility at index draw mod its count, every other cell is only narrowed, collapsed cells keep their tile, the uncollapsed count drops by one and the invariant is kept |
| Collapse.TileMap.FullCollapse | src/collapse.ts:215-228 | the bounded loop keeps the invariant; when it reports finished every cell is collapsed; given more rounds than open cells it ends finished or stuck |
| Utils.TurnLeft | src/utils.ts:158-165 | the Left variant shows on each face what the original shows one quarter clockwise, keeping tilemapIndex |
| Utils.TurnLeftFourTimes | src/utils.ts:158-181 | four Left turns give back the tile |
| Utils.OrientedFaces | src/utils.ts:149-181 | the Up, Left, Down and Right variants are the tile turned 0, 1, 2 and 3 quarters, each with its direction and the tile's tilemapIndex |
| Utils.CreateTilesFromTilemapData | src/utils.ts:145-184 | the result has 4 tiles per input tile, in order Up, Left, Down, Right |
| Utils.TileAtDigits | src/utils.ts:283-287 | position 125a+25b+5c+d holds the combination of sides a, b, c, d |
| Utils.TileIndexRoundTrip | src/utils.ts:281-293 | position and combination are inverse to each other |
| Utils.GeneratedPrefixExtends | src/utils.ts:283-288 | each push extends the enumerated prefix by the next combination |
| Utils.CreateAllPossibleTiles | src/utils.ts:281-293 | the loops produce 625 tiles, the combination for each position |
| Utils.AllPossibleTilesExactlyOnce | src/utils.ts:281-293 | every combination appears exactly once, and every entry has direction Up and tilemapIndex -1 |
| Utils.SwapPermutes | src/utils.ts:303-305 | a swap keeps the multiset of the array |
| Utils.ShuffledFromPermutes | src/utils.ts:300-307 | every suffix of the swap sequence keeps the length and the multiset |
| Utils.ShuffledIsPermutation | src/utils.ts:300-307 | the shuffle yields a permutation for any draws |
| Utils.ShuffleArray | src/utils.ts:300-307 | the in-place loop leaves the array as the shuffle specification and a permutation of its old contents |
| Utils.IndexOfFirst | src/utils.ts:339 | a non-negative index holds the element and nothing earlier does; -1 exactly when it is absent |
| Utils.UniquePrefixFacts | src/utils.ts:338-340 | filtering a prefix keeps exactly the first occurrences, in input order, as a subsequence |
| Utils.FirstOccurrenceAppended | src/utils.ts:339 | an element at its first occurrence is kept |
| Utils.RepeatSkipped | src/utils.ts:339 | a repeated element is dropped |
| Utils.UniqueFacts | src/utils.ts:338-340 | unique has no duplicates, keeps every element of the input, keeps first-occurrence order and is a subsequence |
| Utils.UniqueOfDistinct | src/utils.ts:338-340 | unique leaves a duplicate-free array as it is |
| Utils.UniqueIdempotent | src/utils.ts:338-340 | applying unique twice equals applying it once |
| Utils.SideNameRoundTrip | src/utils.ts:81 | a side's name maps back to the side, and a name is accepted exactly when it names some side |
| Utils.IssuesExact | src/utils.ts:89-121 | a tile's issues are exactly its fields whose name is not a side, each once |
| Utils.FirstIssue | src/utils.ts:87-124 | the first tile with an issue is found, and every earlier tile has none |
| Utils.NoIssuesIffValid | src/utils.ts:89-124 | a tile has no issue exactly when its four names are sides |
| Utils.ParseTilemapDataFacts | src/utils.ts:79-138 | parsing succeeds exactly when the header is valid and every side name is valid; the i-th tile gets x = i mod width, y = i div width, tilemapIndex i and direction Up; an error names the first invalid tile and its bad fields |
| MazeLimit.EffectiveOptions | src/utils.ts:202-203 | side connections stay allowed only when tiles outside the maze may carry the side; the other options are unchanged |
| MazeLimit.KeepInMazeMeaning | src/utils.ts:221-235 | a maze tile is kept exactly when it shows the side type on every open wall, and, when side connections are off, not on any closed wall |
| MazeLimit.KeepOutsideMeaning | src/utils.ts:250-256 | an outside tile is kept exactly when none of its four sides is the side type |
| MazeLimit.MazeCandidates | src/utils.ts:221-235 | the maze filter is a subsequence keeping every copy of a kept tile and nothing else |
| MazeLimit.OutsideCandidates | src/utils.ts:250-256 | the outside filter is a subsequence keeping every copy of a kept tile and nothing else |
| MazeLimit.CandidatesMeaning | src/utils.ts:203-257 | a cell is skipped exactly when it is outside the maze and outside tiles may carry the side; otherwise a tile is a candidate exactly when it is possible and passes the filter under the options in force |
| MazeLimit.LimitMapToMaze | src/utils.ts:194-275 | the method returns the options as mutated and runs the row-major loop of the recursive specification |
| MazeLimit.FailureIsNarrowing | src/utils.ts:207-263 | the loop reports no tiles left only at an in-bounds cell at or after the start in row-major order whose maze cell is defined, which received a candidate list, and whose narrowing step failed on that list, leaving the map the loop returns |
| MazeLimit.LaterCellsUntouched | src/utils.ts:207-263 | when the loop fails at (x, y), the narrowing of any cell after (x, y) has no effect on the outcome: no later cell is processed |
| Maze.WiredSharesEdges | src/maze.ts:54-69 | after wiring, right/left and bottom/top walls of adjacent cells are one wall |
| Maze.WiredReusesWalls | src/maze.ts:54-69 | wiring keeps coordinates, visited and direction; a right or bottom wall with an inside neighbour becomes that neighbour's original left or top wall, and every other wall reference is kept |
| Maze.OwnWallInjective | src/maze.ts:24-43 | every created wall belongs to exactly one cell and direction |
| Maze.WallOwner | src/maze.ts:54-69 | the surviving owner of a wall is a cell inside the maze |
| Maze.FreshWired | src/maze.ts:37-69 | on the created maze each wall reference is the wall its owner created, so its open flag is that owner's draw |
| Maze.OwnersMeetOnEdges | src/maze.ts:54-69 | two cell sides have the same owner exactly when they are the same side or the two faces of one interior edge |
| Maze.FreshWallsIdentifyEdges | src/maze.ts:24-69 | after wiring, two cells reference the same wall exactly when it is the same side or the shared edge between them; border walls stay the cell's own; no new wall is created |
| Maze.OpeningIsShared | src/maze.ts:53-69 | opening a wall through one cell is seen through its neighbour |
| Maze.WiringStep | src/maze.ts:54-69 | one loop iteration extends the wired region by one cell and leaves later cells as they were |
| Maze.WiringNextRow | src/maze.ts:54-55 | finishing a row moves the loop to the next row |
| Maze.WiringDone | src/maze.ts:54-69 | when the loops end, the grid is the wired grid |
| Maze.MazeGrid.constructor | src/maze.ts:24-69 | every cell ends at its grid position, not visited, facing Up, holding the wired walls, with the wall flags the draws |
| Maze.MazeGrid.InitializeCoordinates | src/maze.ts:45-51 | every cell gets its own (x, y) and nothing else changes |
| Maze.MazeGrid.ShareWalls | src/maze.ts:53-69 | the nested loops leave exactly the wired grid and change no open flag |
| Maze.MazeGrid.WireCell | src/maze.ts:56-67 | one cell's four guarded re-pointings, changing no other cell and no open flag |
| Common.SubsequenceTransitive | src/collapse.ts:159-181 | repeated filtering keeps a subsequence of the original possibilities |
| Common.SubsequenceBounds | src/collapse.ts:162-163 | a filtered list is no longer than the original, equal to it at the same length, and holds only original elements |

## Left out

- `printMap` and `printMaze` (src/collapse.ts:107-140, src/maze.ts:71-163): console rendering, not logic.
- The demo collapses, console output and timing (src/collapse.ts:200-213, 229-231): fixed script calls, not operations.
- `sleep`, `unsleptTime` and `getSleepMs` (src/utils.ts:68, 314-331): wall-clock timers and a floating-point curve.
- The zod schema parse of `parseTilemapData` (src/utils.ts:46-62, 80): a library. It becomes a single header check (positive width, height and tile size), the `SchemaViolation` error. An input that is not an object at all has no counterpart.
- The `ZodError` object (src/utils.ts:89-124): the model reports the first failing tile and its failing fields, not the message text.
- `startProcessingMap` and the "Map processing was canceled" catch in `limitMapToMaze` (src/utils.ts:200, 267-274): cancellation plumbing. Its `await`s and the `collapseEvent` callback are also left out.
- `limitTilePossibilities` is not part of this model. `MapAccess` stands for it: `possible` reads a cell's possible tiles and `narrow` returns success and the new map. `NoTilesLeft(x, y)` stands for the thrown error. `MissingMazeRow(y)` stands for the TypeError raised when the maze has fewer rows than the map.
- `Math.random` (src/collapse.ts:226, src/maze.ts:37-40, src/utils.ts:302) becomes parameters:
  - a draw per full-collapse round, reduced modulo the possibility count;
  - a draw per shuffle step, reduced modulo i + 1;
  - a boolean per maze wall.
- Collapse.TileMap.FullCollapse: the source loop is `while (true)` and never ends once a cell is stuck. The model runs one round per draw, and says nothing about the rounds after a stuck map.
- Collapse.TileMap.Collapse: on a cell that is already collapsed, the source refilters the cell against its neighbours and may leave it empty. The contract then promises only that the result is a subsequence of [tile].
- Tiles are compared by value where the source's `find(t => t === tile)` compares object identity. The expanded palette holds four equal all-Field tiles, which the model cannot tell apart. The draft reads only the sides of a tile, so this changes no outcome for any call the source makes (it collapses only uncollapsed cells, to a tile taken from that cell's own list). A direct call that re-collapses an already-collapsed cell to an equal but distinct tile object is a no-op in the source, while the model collapses again and propagates.
- `entropyChecked` (src/collapse.ts:64): never read in the draft.
- The dependency records are modelled as a set of flagged directions per cell. `reverse` is the function `Reverse`, not a stored pointer.
- The stable `sort` in the full-collapse loop (src/collapse.ts:219) is modelled by its result: the first uncollapsed cell in row-major order with the fewest possibilities.
- `unique` and `indexOf` on NaN or object identity: the model compares values with `==`.
- `Side` is the five-valued enum of the shown src/collapse.ts (Startpeice, Water, Field, Road, City), so `createAllPossibleTiles` yields 5^4 = 625 tiles.
- MazeLimit.LimitMapToMaze: the source mutates the caller's `options` object. The model returns the options as they are left (`used`) instead.
- The maze's `mazePathProcentage`, its random-walk carving and src/index.ts, src/controls.ts, src/appCanvas.ts and performanceTests/performance.ts: outside the modelled core or browser and benchmark code.
