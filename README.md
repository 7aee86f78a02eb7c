# Halite III bot core: toroidal grid bookkeeping and the ship behaviour classifier

This project models, in Dafny, the integer logic of a Halite III bot. The
bot's floating-point cost model and its two library solvers (shortest paths
and the linear assignment) sit around this logic and are not modelled.

* `grid.dfy` (module `Grid`) covers the toroidal geometry of the game map.
  The map is H rows by W columns and every axis wraps. The module has the
  four directional step counts and the step distance (toroidal Manhattan
  distance). It has the bijection between a cell index `x + W*y` and its
  coordinates. It has the four-neighbour enumeration and the radius-4 "bonus"
  diamond of 41 offsets. It also has the list of single-step directions that
  bring a ship closer to a destination.
* `map_data.dfy` (module `MapData`) covers the bookkeeping of the map
  analysis:
  * the static adjacency arrays of the map graph (each node four times,
    paired with its neighbours) and their process-wide cache;
  * the duplicate-free set of origins for the shortest-path computation
    (own ship cells and their neighbours);
  * the per-cell occurrence counter used for enemy exposure, applied to the
    bonus neighbourhoods and to the threat lists;
  * the threat multiplicity `ceil(4 (1 - (cargo/MAX)^2))` and the rule for
    whether a ship can move.
* `scheduler.dfy` (module `ShipScheduler`) covers the behaviour classifier.
  The persistent set of ids of ships returning to the shipyard is a
  `ReturningSet` object that outlives a turn. A `Scheduler` object runs one
  turn in two steps:
  1. The exit step removes every ship with less than a quarter of the
     capacity from the set.
  2. Each matched (ship row, cell column) pair is classified as returning,
     mining or relocating, in that order of priority. A returning ship is
     added to the set. Each pair produces one call of the schedule's
     `assign`.

  The loops are proved against the specification functions `Classified` and
  `TurnOutcome`. The lemmas prove the following about those functions:
  * the final set equals the old set, minus the low-cargo ships, plus the
    matched high-cargo ships;
  * the priority of the three behaviours;
  * the hysteresis: a ship below 25 % never returns, a matched ship above
    75 % always does, and a returning ship between the two keeps returning;
  * ids of other ships are not touched;
  * each ship gets exactly one assignment when the matching covers each row
    once.

Thresholds that the source writes as float fractions of the capacity are
exact integer comparisons here: `4c > 3 MAX`, `4c < MAX`, `20h > MAX` and
`h > 5c`. Each predicate also proves that it agrees with the same comparison
over the reals. The threat factor is the exact ceiling of
`4 (MAX^2 - c^2) / MAX^2`. "Can move" is `ceil(h / 10) <= c`, which is the
same as `h <= 10 c`. The source computes these in binary floating
point. The model does not prove that the floating-point forms and the exact
forms agree.

For the positive divisors used here, Dafny's `/` and `%` give the same
results as Python's `//` and `%`.

### Modelling decisions

* The last branch of `viable_directions` (`utility.py:49-50`) appends
  `Still` when all four counts are zero, which shows that a ship already at
  its destination was meant to stay still. That branch is unreachable. For
  equal rows the code sets the north count to the full height
  (`utility.py:16`), so the all-zero test can never hold for a map of
  positive size. The model follows the code: `Grid.ViableDirections` never contains
  `Still`, and the list is empty exactly when origin and destination
  coincide (`Grid.ViableDirectionsEmpty`).
* `scheduler.py` imports `calc_distances`, `index_to_cell` and
  `cell_to_index` from a `scheduling` module that is not part of this model
  (`scheduler.py:7`). The model assumes that they behave like the
  definitions in `utility.py` and reuses the `Grid` versions.
* `shortest_path_indices` removes duplicates by turning the list into a set
  and back (`utility.py:203`). The order of that list is unspecified. The
  model lists the cells in order of first occurrence, and only the set of
  cells and the absence of duplicates are claimed.

## Model

| member | source | states |
|---|---|---|
| `Grid.CalcDistances` | utility.py:9-19 | north + south is the height and east + west is the width; on equal rows south is 0 and north is the full height; on equal columns east is 0 and west is the full width |
| `Grid.CalcDistancesInGrid` | utility.py:15-18 | between cells of the grid, south and east lie in [0, extent) and are the displacement modulo the extent; north and west lie in (0, extent] |
| `Grid.IndexToCell` | utility.py:65-69 | the decoded x lies in [0, W) and x + W*y gives back the index, so x and y are the floor remainder and floor quotient of the index by W |
| `Grid.CellToIndex` | utility.py:72-76 | no contract of its own; `Grid.CellToIndexRoundTrip` and `Grid.CellToIndexInjective` state that on cells of the grid it is a bijection onto [0, H*W), inverse to `Grid.IndexToCell` |
| `Grid.IndexToCellRoundTrip` | utility.py:65-76 | an index of the grid decodes to a cell of the grid that encodes back to the same index |
| `Grid.CellToIndexRoundTrip` | utility.py:65-76 | a cell of the grid encodes to an index in [0, H*W) that decodes back to the cell |
| `Grid.CellToIndexInjective` | utility.py:72-76 | distinct cells of the grid have distinct indices |
| `Grid.SimpleDistance` | utility.py:22-28 | for any two indices the step distance is at most W//2 + H//2; that it is the wrap distance of the decoded cells and a metric is stated by `Grid.SimpleDistanceOfCells`, `Grid.SimpleDistanceMetric` and `Grid.SimpleDistanceIsMinOfDirections` |
| `Grid.SimpleDistanceOfCells` | utility.py:22-28 | the step distance between two indices is the sum of the wrap distances along x and along y of their cells |
| `Grid.SimpleDistanceMetric` | utility.py:22-28 | the step distance is symmetric, is 0 exactly for equal indices, and is at most W//2 + H//2 |
| `Grid.SimpleDistanceIsMinOfDirections` | utility.py:9-28 | the step distance equals min(north, south) + min(east, west) of the directional counts of the decoded cells |
| `Grid.Move` | utility.py:54-56 | no contract of its own (one step of `directional_offset`, wrapped onto the map); `Grid.MoveInGrid` states that the step stays in the grid and moves the one coordinate by one with wrap-around |
| `Grid.MoveInGrid` | utility.py:54-56 | one step in a direction from a cell of the grid gives a cell of the grid, wrapping at each edge |
| `Grid.ViableDirections` | utility.py:37-51 | the list of viable directions never contains `Still` |
| `Grid.ViableDirectionsMembers` | utility.py:40-48 | South is listed iff 0 < south <= north, North iff 0 < north <= south, West iff 0 < west <= east, East iff 0 < east <= west |
| `Grid.StepChangesDistance` | utility.py:41-48 | a step whose count is positive and not larger than the opposite count shortens the distance between cells by exactly one; any other step does not shorten it |
| `Grid.ViableDirectionsGetCloser` | utility.py:37-51 | a direction other than `Still` is listed iff its step brings the origin strictly closer to the destination, and a listed step brings it exactly one step closer |
| `Grid.ViableDirectionsEmpty` | utility.py:37-51 | the list is empty exactly when origin equals destination (the `Still` branch is dead code) |
| `Grid.Neighbours` | utility.py:79-89 | exactly four indices are returned |
| `Grid.NeighboursAreSteps` | utility.py:83-89 | the four indices are those of the cells one step north, south, east and west, in that order, and all are indices of the grid |
| `Grid.NeighboursInGrid` | utility.py:79-89 | every neighbour of a cell of the grid is an index of the grid |
| `Grid.NeighboursAtDistanceOne` | utility.py:79-89 | on a grid at least 2 by 2, each neighbour is at step distance 1 |
| `Grid.NeighboursDistinct` | utility.py:79-89 | on a grid at least 3 by 3, the four neighbours are pairwise distinct |
| `Grid.BonusOffsetsSize` | utility.py:100-101 | the radius-4 diamond of offsets has 41 entries |
| `Grid.BonusOffsetsMembers` | utility.py:100-101 | an offset (dx, dy) is in the diamond iff abs(dx) + abs(dy) <= 4 |
| `Grid.BonusOffsetsDistinct` | utility.py:100-101 | no offset occurs twice |
| `Grid.BonusNeighbours` | utility.py:92-102 | one index is produced per offset of the diamond |
| `Grid.BonusNeighboursNear` | utility.py:92-102 | exactly 41 indices are produced, each an index of the grid at step distance at most 4 from the centre |
| `Grid.BonusNeighboursDistinct` | utility.py:92-102 | on a grid at least 9 by 9, the 41 indices are pairwise distinct |
| `MapData.EdgeArrays` | utility.py:167-168 | no contract of its own; `MapData.EdgeArraysShape`, `MapData.EdgeArraysOutDegree` and `MapData.EdgeArraysInGrid` state the layout entry by entry, the out-degree 4 of every node and that every endpoint is in the grid |
| `MapData.EdgeArraysShape` | utility.py:164-169 | both arrays have length 4m; `row[4i+j] == i` and `col[4i+j]` is neighbour j of cell i |
| `MapData.EdgeArraysOutDegree` | utility.py:164-169 | the edges leaving node i are exactly positions 4i to 4i+3, so every node has out-degree 4 |
| `MapData.EdgeArraysInGrid` | utility.py:164-169 | the arrays have equal length and every entry of both is an index of the grid |
| `MapData.EdgeDataCache.constructor` | utility.py:140 | the class-level cache starts empty |
| `MapData.EdgeDataCache.InitializeEdgeData` | utility.py:164-169 | the cache holds the adjacency arrays of the given grid |
| `MapData.EdgeDataCache.GraphStructure` | utility.py:186-189 | an empty cache is filled with the arrays of the given grid and they are returned; a filled cache is returned unchanged |
| `MapData.Dedup` | utility.py:203 | the result has no duplicates, has the same members as the input, and is no longer |
| `MapData.NeighbourIndicesFacts` | utility.py:202 | the neighbour list of n cells has 4n entries, which are exactly the neighbours of those cells and all lie in the grid |
| `MapData.ShortestPathIndices` | utility.py:193-203 | the origins have no duplicates; as a set they are the ship cells together with all their neighbours; all are indices of the grid; there are at most 5 per ship |
| `MapData.Counter` | utility.py:245-250 | the counter's keys are exactly the produced indices, and each maps to its number of occurrences |
| `MapData.StoreCounts` | utility.py:244-252 | a fresh array of m entries holds each counted key's count and 0 elsewhere |
| `MapData.IndexCount` | utility.py:241-253 | entry k is the number of times k occurs across all the per-ship index lists, and 0 when it occurs in none |
| `MapData.EnemiesInBonusRange` | utility.py:255-257 | entry c is the number of enemy bonus neighbourhoods that contain c, counted with multiplicity |
| `MapData.EnemyThreatCounts` | utility.py:259-261 | entry c is the number of times c occurs in the enemy ships' threat lists |
| `MapData.CeilDiv` | utility.py:122 | the result q is the integer ceiling of n / d: (q - 1) d < n <= q d |
| `MapData.ThreatFactor` | utility.py:122 | no contract of its own; `MapData.ThreatFactorRange` and `MapData.ThreatFactorMonotone` state its range [0, 4], its values at empty and full cargo, and that it never grows with cargo |
| `MapData.ThreatFactorRange` | utility.py:122 | for cargo in [0, MAX] the factor lies in [0, 4]; it is 4 at cargo 0, 0 at full cargo, and at least 1 otherwise |
| `MapData.ThreatFactorMonotone` | utility.py:122 | more cargo never gives a larger factor |
| `MapData.Repeat` | utility.py:123 | n copies of the cell, and none when n is not positive |
| `MapData.Threat` | utility.py:111-123 | no contract of its own; `MapData.ThreatMultiplicity` states its length, that it stays in the grid, and how often it holds the ship cell and each neighbour |
| `MapData.ThreatMultiplicity` | utility.py:111-123 | on a grid at least 3 by 3, the threat list has factor + 4 entries, all in the grid; it holds the ship cell exactly factor times and each neighbour exactly once |
| `MapData.CanMove` | utility.py:126-129 | a ship can move iff cell halite <= 10 * cargo, that is iff cell halite / 10 <= cargo over the reals |
| `ShipScheduler.Returning` | scheduler.py:13-14 | a ship returns iff cargo > 0.75 MAX or its id is in the returning set |
| `ShipScheduler.Mining` | scheduler.py:17-18 | a ship mines iff local halite > 0.05 MAX or 0.2 * local halite > cargo |
| `ShipScheduler.LowCargo` | scheduler.py:91 | the exit test holds iff cargo < 0.25 MAX |
| `ShipScheduler.HighCargo` | scheduler.py:14 | the cargo test of `returning` holds iff cargo > 0.75 MAX |
| `ShipScheduler.CalcShortestDist` | scheduler.py:21-23 | twice the distance is at most H + W, and the distance from a cell to itself is 0 |
| `ShipScheduler.CalcShortestDistAgrees` | scheduler.py:21-23 | on cells of the grid it equals the step distance of `utility.py` between their indices, is symmetric, and is 0 only from a cell to itself |
| `ShipScheduler.LocalHalite` | scheduler.py:99 | the halite read for a ship is an entry of the map's halite list, and it is the entry of every index that decodes to the ship's own cell |
| `ShipScheduler.Classify` | scheduler.py:96-102 | priority: Return iff `returning` holds; Mine iff it does not and `mining` holds; Relocate otherwise |
| `ShipScheduler.TargetFor` | scheduler.py:98-102 | Return targets the shipyard, Mine the ship's own position, Relocate the matched cell |
| `ShipScheduler.LowCargoIds` | scheduler.py:90-92 | the ids removed by the exit step are exactly those of the ships with low cargo |
| `ShipScheduler.HighCargoMatched` | scheduler.py:94-97 | exactly the ids of matched ships with cargo above 75 % |
| `ShipScheduler.Classified` | scheduler.py:94-103 | the classification of the pairs only adds to the set and makes exactly one assignment per pair |
| `ShipScheduler.TurnOutcome` | scheduler.py:85-104 | one turn makes exactly one assignment per matched pair |
| `ShipScheduler.ClassifiedSet` | scheduler.py:94-97 | after the classification the set is the starting set plus the ids of matched ships with high cargo |
| `ShipScheduler.ClassifiedAssignments` | scheduler.py:94-103 | assignment k names the ship of pair k and its target under the behaviour chosen against the set at that point: the starting set plus the high-cargo ships of the earlier pairs |
| `ShipScheduler.FinalReturningSet` | scheduler.py:90-97 | after a turn the set is (old set minus the ids of low-cargo ships) plus the ids of matched high-cargo ships, and nothing else changes it |
| `ShipScheduler.OtherIdsUntouched` | scheduler.py:90-97 | an id that belongs to none of the player's ships is in the set after the turn iff it was before |
| `ShipScheduler.TurnTargetAt` | scheduler.py:94-103 | priority over a whole turn: pair k's ship is sent to the shipyard if it returns against the set it sees; otherwise it is sent to its own position if it mines; otherwise to cell j |
| `ShipScheduler.LowCargoNotSeen` | scheduler.py:90-97 | with distinct ids, a low-cargo ship is in none of the sets the classification sees |
| `ShipScheduler.LowCargoNeverReturns` | scheduler.py:90-98 | with distinct ids, a ship below 25 % is not in the set after the turn, and each of its pairs sends it to its own position or its matched cell, never by the returning branch |
| `ShipScheduler.HighCargoReturns` | scheduler.py:94-98 | a matched ship above 75 % is in the set after the turn and is sent to the shipyard |
| `ShipScheduler.ReturningShipKeepsReturning` | scheduler.py:90-98 | with distinct ids, a returning ship not below 25 % stays in the set and every pair of it sends it to the shipyard |
| `ShipScheduler.OneAssignmentPerShip` | scheduler.py:94-103 | with distinct ids, if ship i's row occurs in exactly one pair, the schedule names ship i exactly once |
| `ShipScheduler.ReturningSet.constructor` | scheduler.py:10 | the module-level set starts empty |
| `ShipScheduler.ReturningSet.Discard` | scheduler.py:92 | the id is removed and nothing else changes |
| `ShipScheduler.ReturningSet.Add` | scheduler.py:97 | the id is added and nothing else changes |
| `ShipScheduler.Scheduler.constructor` | scheduler.py:42-49 | the scheduler records the map, the ships and the shared set, and starts with an empty schedule |
| `ShipScheduler.Scheduler.Assign` | scheduler.py:103 | the schedule grows by exactly this assignment |
| `ShipScheduler.Scheduler.DiscardLowCargo` | scheduler.py:90-92 | the set becomes the old set minus the ids of the low-cargo ships |
| `ShipScheduler.Scheduler.ClassifyPair` | scheduler.py:95-103 | one pair: the set gains the ship's id iff it returns, and the schedule grows by the ship and the target its behaviour gives |
| `ShipScheduler.Scheduler.ClassifyMatches` | scheduler.py:94-103 | the set and the schedule become what `Classified` gives for the pairs |
| `ShipScheduler.Scheduler.ToDestination` | scheduler.py:85-104 | the set and the schedule become what `TurnOutcome` gives for the old set and the pairs, and the schedule is returned |

## Left out

- Shortest paths over the weighted map graph are not modelled. This covers `dijkstra`, `csr_matrix`, the edge costs `1.0 + halite/750 + occupied`, the `99999.9` sentinel and the list lookups `get_distances`/`get_distance` (`utility.py:188-191` and `utility.py:205-224`). The solvers are foreign library code and the costs are floating point. `MapData.EdgeDataCache.GraphStructure` models only the structural part of `create_graph`: it fills the cache and reads the arrays.
- The linear assignment (`linear_sum_assignment`) is not modelled. The matching it produces is an input to `ToDestination`, given as a list of (row, column) pairs.
- The cost terms are not modelled, and neither are the integer arrays that only they read. The cost terms are the sqrt-based cost matrix of the scheduler, `free_turns`, `mining_probability` and the `3 / (count + 3)` division of the global threat. The arrays are `halite_matrix` (scheduler.py:78-83), the halite amounts by index, and `simple_distances` (utility.py:31-34), the step distance to every cell. `EnemyThreatCounts` models the integer count underneath that division.
- `local_threat` is not modelled because it is a stub that returns ones.
- `plot` and the matplotlib output are not modelled, since they are visualisation only.
- One step of a ship, `origin.directional_offset(direction)` wrapped onto the map, is modelled by `Grid.Move`. Two things around it are left out: the `MapCell` lookup that `target` does on the reached position, and the `targets` list built from the viable directions (`utility.py:54-62`). Both just wrap the game's objects around `Grid.Move` and `Grid.ViableDirections`.
- The rest of the game glue is not modelled: `hlt` objects, other `game_map[...]` lookups, the module globals set in `MapData.__init__`, `get_available_halite`/`get_occupation` and `ship_bonus_neighbours`. Map extents, cargo values, ship cells, per-cell halite and the shipyard position are passed explicitly instead.
- The filter that picks out enemy players (`utility.py:247-248`) is not modelled. Enemy ship cells, and for the threat their cargo, are inputs.
- The `Schedule` class and the `scheduling` module are not part of this model. `Schedule.assign` is modelled as appending the (ship, target) pair to a list.
- Floating-point rounding is not modelled. Every threshold, the threat factor and the move cost are computed exactly.
- `MapData.ShortestPathIndices` does not model the order of the list, which the source leaves to its set type. Only the members and the absence of duplicates are stated.
- `MapData.IndexCount` requires every produced index to lie in the grid, which every caller in the source meets. numpy's indexing from the end for negative keys is therefore not modelled.
- `ShipScheduler.Scheduler.ToDestination` requires every matched row to name a ship and every column a cell. The assignment solver guarantees this, so Python's negative indexing is not modelled.
