# Light-cycle bot decision engine

A Dafny model of the per-tick decision engine of the light-cycle bot in
`src/client/client_zeid.cpp`. On each tick the bot picks one of the four
cardinal directions using three routines:

- the **move validator** (`is_valid_move`) accepts a step when it lands inside
  the grid on a cell whose occupancy marker is 0;
- the **flood-fill area estimator** (`floodFill`) walks breadth-first from a
  start cell with a queue and a caller-owned `visited` matrix. It pushes
  neighbours unchecked and tests bounds, visited and occupancy only when a
  position is popped. It returns the number of cells it marks;
- the **move selector** (`decideMove`) records `(direction, area)` for every
  legal direction in direction-value order, each with a fresh all-false
  `visited` matrix. It stops with a failure when there is none. Otherwise it
  keeps every direction of maximal area and picks one of them with a random
  draw.

Files:

- `grid.dfy` (module `GameGrid`): positions, directions, the read-only grid,
  and its bounds check and cell lookup.
- `reachability.dfy` (module `Reachability`): what the flood fill computes.
  It defines open paths, the region `Region(g, marked, start)` reachable
  through free cells not already marked, and the free component
  `Component(g, start)`. Lemmas show that the region is the least closed set
  holding the start, that it is a connected component, and its size bounds.
- `selection.dfy` (module `Selection`): the recorded pairs, the maximal area,
  the tied directions, and the scan of `decideMove` that computes them.
- `bot_client.dfy` (module `BotClient`): the validator, the flood fill (a
  method over an `array2<bool>`), and the selector (a method that allocates a
  fresh matrix per legal direction).

## Model

| member | source | states |
|---|---|---|
| GameGrid.DirectionFromValue | src/client/client_zeid.cpp:45-46 | a value below 4 names the direction whose numeric value it is |
| GameGrid.DirectionValueRoundTrip | src/client/client_zeid.cpp:57-58 | reading a direction's value and converting it back gives the same direction |
| GameGrid.DirectionValue | src/client/client_zeid.cpp:89 | the assumed numeric value of a direction, one of 0 to 3 |
| GameGrid.Neighbor | src/client/client_zeid.cpp:22 | a position plus a direction's displacement is four-adjacent to it, one unit away along one axis (also the additions at lines 47 and 60) |
| GameGrid.IsInsideGrid | src/client/client_zeid.cpp:23 | the assumed bounds check `0 <= x < width && 0 <= y < height` (also used at line 39); only a non-empty grid has a cell inside it |
| GameGrid.GridCell | src/client/client_zeid.cpp:26 | the assumed lookup of the marker at column x, row y of an in-bounds cell (also used at line 41): a marker held in column x |
| GameGrid.DirectionVector | src/client/client_zeid.cpp:22 | each direction displaces by a unit step along exactly one axis |
| GameGrid.Neighbors | src/client/client_zeid.cpp:45-49 | the four cells pushed for a position, in direction-value order: entry v is one step in direction v |
| GameGrid.NeighborsSymmetric | src/client/client_zeid.cpp:45-49 | if q is one of p's four neighbours then p is one of q's |
| GameGrid.AllCells | src/client/client_zeid.cpp:62-63 | one cell per entry of the width-by-height visited matrix: exactly the in-bounds positions, width * height of them |
| BotClient.IsValidMove | src/client/client_zeid.cpp:20-30 | legal exactly when the landing cell is inside the grid and its marker is 0, so leaving the grid is illegal, not an error; legal exactly when the landing cell is open for a fill with nothing marked |
| BotClient.EnqueueNeighbors | src/client/client_zeid.cpp:45-49 | the queue grows by exactly the four neighbours in value order, unchecked; every neighbour is queued |
| BotClient.FloodFill | src/client/client_zeid.cpp:32-52 | the loop terminates; the cells set in `visited` afterwards are those set before plus the region reachable from the start through free, previously unvisited cells; no marker is cleared or set elsewhere; the new marks are disjoint from the old, all free, and their number is the returned area |
| BotClient.FillStart | src/client/client_zeid.cpp:33-35 | with only the start queued and nothing marked, the fill's invariant holds |
| BotClient.DiscardStep | src/client/client_zeid.cpp:39-41 | popping a position that is outside, already visited or occupied keeps the invariant |
| BotClient.VisitStep | src/client/client_zeid.cpp:42-49 | marking a popped open cell and queueing its neighbours keeps the invariant; the marked count grows by one and stays within width * height |
| BotClient.FillComplete | src/client/client_zeid.cpp:36-51 | when the queue empties, the cells marked by the fill are exactly the region, disjoint from the earlier marks and all free |
| Reachability.ReachableStep | src/client/client_zeid.cpp:45-49 | stepping from a reachable cell to an open neighbour reaches that neighbour |
| Reachability.ReachableSymmetric | src/client/client_zeid.cpp:45-49 | if t is reachable from s then s is reachable from t |
| Reachability.ReachableTransitive | src/client/client_zeid.cpp:45-49 | reachability composes |
| Reachability.RegionIsOpen | src/client/client_zeid.cpp:39-42 | the region only holds cells that are inside the grid, free and not marked before the fill |
| Reachability.RegionOfStart | src/client/client_zeid.cpp:34-43 | an open start belongs to its region; a start that is outside, occupied or already visited has an empty region (area 0) |
| Reachability.RegionIsClosed | src/client/client_zeid.cpp:45-49 | an open neighbour of a region cell is in the region |
| Reachability.PathStaysInClosedSet | src/client/client_zeid.cpp:36-49 | a path of open cells that starts in a set closed under open steps ends in it |
| Reachability.RegionIsLeast | src/client/client_zeid.cpp:36-51 | the region is contained in every set that holds the open start and is closed under open steps |
| Reachability.RegionSize | src/client/client_zeid.cpp:40-43 | an open start gives at least one cell; the region never exceeds the unmarked grid cells, so it has at most width * height cells |
| Reachability.RegionOfMemberIncluded | src/client/client_zeid.cpp:36-51 | the region of a member of s's region lies inside s's region |
| Reachability.RegionOfMember | src/client/client_zeid.cpp:36-51 | every member of s's region reaches s back and has exactly the same region: the region is a connected component |
| Reachability.ReversedPath | src/client/client_zeid.cpp:45-49 | an open path walked backwards is an open path between the same end cells, swapped |
| Reachability.JoinedPath | src/client/client_zeid.cpp:45-49 | two open paths that meet at a cell join into one open path |
| BotClient.LegalMoveArea | src/client/client_zeid.cpp:59-64 | a legal direction's area, the size of the free component of its landing cell, is between 1 and width * height |
| BotClient.Candidates | src/client/client_zeid.cpp:57-68 | the recorded pairs hold exactly the legal directions below the loop bound, each with its area, in strictly increasing direction value |
| BotClient.BestMovesAreMaximal | src/client/client_zeid.cpp:57-84 | a direction is among the best moves exactly when it is legal and no legal direction has a larger area; the best moves are in value order; there are none exactly when no direction is legal |
| BotClient.DecideMove | src/client/client_zeid.cpp:54-91 | no move exactly when no direction is legal; otherwise the direction at the drawn index of the best moves, which is legal and whose area is at least that of every legal direction |
| Selection.MaxArea | src/client/client_zeid.cpp:74-84 | -1 for no moves, otherwise an area that some move has and no move exceeds |
| Selection.Ties | src/client/client_zeid.cpp:74-84 | the listed directions are exactly those of moves with the given area, never more than there are moves |
| Selection.SelectBest | src/client/client_zeid.cpp:74-84 | the scan ends with the maximal area and the directions tied at it |
| Selection.MaxAreaStep | src/client/client_zeid.cpp:77-78 | one more move raises the running maximum exactly when its area is larger |
| Selection.TiesExtend | src/client/client_zeid.cpp:79-82 | a move whose area equals the running maximum has its direction appended |
| Selection.TiesSkip | src/client/client_zeid.cpp:76-84 | a move of another area leaves the tied directions unchanged |
| Selection.TiesAboveMax | src/client/client_zeid.cpp:77-79 | a new larger area has no earlier ties, which is why the list restarts |
| Selection.TiesKeepOrder | src/client/client_zeid.cpp:76-84 | ties taken from moves in value order are in value order |
| Selection.BestOfNonEmpty | src/client/client_zeid.cpp:69-87 | there is a best move exactly when some move was recorded, so the random index range is never empty |

## Left out

- `receiveGameState`, `sendMove`, the constructor, `run` and `main`: network transport, the game loop and process start-up. The model starts from a grid and a position as `receiveGameState` would leave them.
- The game state and the player's position are fields of the bot object in the original. Here they are parameters, because the engine only reads them.
- Logging through `spdlog`: diagnostic only.
- The Mersenne Twister and `uniform_int_distribution`: the draw is the parameter `draw`, with `draw(n) < n` for every positive `n`. Its distribution is not modelled.
- `exit(1)` when no direction is legal becomes the outcome `NoLegalMove`. Ending the process is not modelled.
- `api.h` and `utils.h` are not part of this model. Direction values 0 to 3 are assumed to be North, East, South and West, with displacements (0,-1), (1,0), (0,1) and (-1,0). `isInsideGrid` is assumed to be `0 <= x < width && 0 <= y < height`, and `getGridCell` to read column x, row y. Only the four distinct unit displacements matter to the proofs, beyond the order in which directions are recorded.
- `area`, `max_area` and the coordinates are C++ `int`s. Here they are unbounded. The area is proved to stay within width * height, so it cannot overflow while that product fits in an `int`. Coordinate overflow is not modelled.
- `BotClient.FloodFill`: the `visited` matrix is an `array2<bool>` with exactly width by height entries. A jagged `vector<vector<bool>>` is not modelled. The queue is a sequence, reassigned on each pop and push.
- `BotClient.DecideMove`: the area it compares is stated through the ghost function `Area`, the size of the free component. The method computes it by calling `FloodFill` on a fresh matrix. The selection scan runs in the helper method `Selection.SelectBest`, and the neighbour loop of the fill in `BotClient.EnqueueNeighbors`.
