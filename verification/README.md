# Lane planner

A Dafny model of the lane planner in `final-exam/programming.py`. A road is a
grid of speeds, one row per lane (lane 0 is the leftmost) and one column per
step along the highway. A speed of 0 marks an obstacle. A car moves one
column ahead at a time, keeping its lane or changing to a lane next to it.
Leaving a cell costs the inverse of its speed, plus the lane-change cost when
the lane changes. `plan` finds the cheapest cost from `init` to `goal` with a
uniform-cost search. The search sorts a frontier of `[cost, [lane, column]]`
entries, pops the cheapest one, marks its cell in a shared `closed` grid and
stops when that cell is the goal. Otherwise it offers the open neighbours of
the cell through `add_to_frontier` and searches the rest of the frontier. It
answers 0.0 when the frontier runs out.

The model has four modules:

- `Road` (Road.dfy) holds the grid, `blocked`, `valid`, `neighbors` and the
  obstacle-free part of `build_road`. These are pure functions.
- `Frontier` (Frontier.dfy) holds the entry order, `frontier.sort()` as a
  sorting function, and `add_to_frontier`. `add_to_frontier` is a method with
  the source's two loops. It is proved equal to `Merge`: drop the entries the
  candidate makes stale, then append the candidate. The merge laws are
  proved about `Merge`.
- `Routes` (Routes.dfy) is the reference: `Cheapest` is the least route cost
  computed column by column. It is related to explicit routes, as lists of
  cells, in both directions.
- `Planner` (Planner.dfy) holds `recursive_plan` and `plan` as methods over
  an `array2<bool>` closed grid. `RecursivePlan` keeps the Dijkstra invariant
  `SearchInv` and terminates on a column-weighted measure of the frontier.
  The weight of a frontier is the sum of 4^(columns − column) over its
  entries.

The main result is `Planner.Plan`. Whenever a route exists, the returned cost
is no more than the cost of any route and equals the cost of some route. The
result is 0.0 when no route exists.

Costs are exact `real`s.

A popped entry whose cell is already closed is not skipped; it is expanded
again, as in the source (`final-exam/programming.py:149-150`). The invariant
copes with such entries.

## Model

| member | source | states |
|---|---|---|
| Road.ValidMeansOpenAndNotClosed | final-exam/programming.py:112-120 | a position is valid exactly when it is inside the grid (lane below the number of lanes, column below the length of the first lane), its speed is not 0 and its closed flag is false; `Blocked` is only asked of cells inside the grid |
| Road.Neighbors | final-exam/programming.py:122-130 | at most three moves, each into column x+1 and within one lane of y, each to a valid cell, costing the lane-change cost when the lane changes and 0 otherwise, listed in increasing lane order (y-1, y, y+1) |
| Road.NeighborsComplete | final-exam/programming.py:122-130 | every valid cell of column x+1 within one lane of y is among the neighbours |
| Road.NeighborsFromCorner | final-exam/programming.py:259-270 | on the all-1 grid of five lanes and four columns, the neighbours of [0,0] are exactly [[0,[0,1]],[lcc,[1,1]]] and those of [0,1] are exactly [[0,[0,2]],[lcc,[1,2]]] |
| Road.BuildRoad | final-exam/programming.py:80-81 | one lane per given speed, every lane of the given length, every cell of lane i holding speed i |
| Road.BuildRoadOpen | final-exam/programming.py:74-81 | a road built from positive lane speeds is well formed and has no obstacle |
| Frontier.SortFrontier | final-exam/programming.py:147 | the result is sorted in Python's lexicographic order of [cost, [lane, column]] and is a permutation of the frontier |
| Frontier.PopIsMinimum | final-exam/programming.py:147-149 | the head of the sorted frontier is one of its entries, and it is below or equal to every entry in that order |
| Frontier.BeatenIndices | final-exam/programming.py:134-138 | `new_neighbor_beats` is ascending and holds exactly the indices of the entries with the new position and a cost not below the new cost |
| Frontier.Merge | final-exam/programming.py:132-143 | the last entry is the candidate; the others are exactly the old entries that the candidate does not make stale (same position and cost not below the candidate's) |
| Frontier.AddToFrontier | final-exam/programming.py:132-143 | deleting the collected indices from the back and then appending yields `Merge(frontier, neighbor)` |
| Frontier.MergeLeavesOtherPositions | final-exam/programming.py:132-143 | the entries for every other position are the same entries, in the same order |
| Frontier.MergeCounts | final-exam/programming.py:132-143 | entry by entry, the entries before the candidate are the old frontier with every copy of each stale entry removed and every other entry kept as often as it was there |
| Frontier.MergeKeepsOrder | final-exam/programming.py:132-143 | the surviving entries keep their relative order (a subsequence of the old frontier) |
| Frontier.MergeWorseKeepsBetter | final-exam/programming.py:132-143 | a strictly worse candidate leaves the better entry for its position in place and is still appended |
| Frontier.MergeIdempotent | final-exam/programming.py:283-284 | adding the same candidate a second time leaves the frontier unchanged |
| Frontier.MergeBetterDropsWorse | final-exam/programming.py:285-291 | a candidate at least as cheap removes the dearer entry for its position |
| Frontier.MergeExample | final-exam/programming.py:272-291 | the three frontiers of the source's test of `add_to_frontier`, exactly |
| Frontier.MergeAllOffered | final-exam/programming.py:153-157 | after offering a list of candidates one by one, each offered position has an entry no dearer than its offer |
| Frontier.MergeAllFrom | final-exam/programming.py:153-157 | every entry after the offers was in the frontier or was offered |
| Routes.StepCostPositive | final-exam/programming.py:155-156 | leaving an open cell costs a positive amount when the lane-change cost is not negative |
| Routes.Cheapest | final-exam/programming.py:46-50 | the least cost of reaching a cell, built column by column from the price of a move: the inverse speed of the departed cell plus the lane-change cost on a change of lane, as `recursive_plan` prices it at lines 155-156. It is defined only for open cells at or after the start column, and it is never negative when the lane-change cost is not negative |
| Routes.CheapestStep | final-exam/programming.py:153-157 | relaxing a move never undercuts the least cost: reaching u makes its successor v reachable at no more than u's least cost plus the price of the move |
| Routes.CheapestPred | final-exam/programming.py:153-157 | the least cost of any cell other than the start is attained through a predecessor one move back |
| Routes.CheapestIsLowest | final-exam/programming.py:97-110 | every route ends in a reachable cell, and no route is cheaper than `Cheapest` |
| Routes.RouteToCheapest | final-exam/programming.py:97-110 | some route attains `Cheapest` |
| Routes.FastLeftColumns | final-exam/programming.py:201-206 | on `build_road(8, [100, 10, 1])`, starting from the last lane's first cell with lane-change cost 0.001, the least costs of the three cells of every column equal a table computed column by column from the prices of the moves |
| Routes.FastLeftLaneExample | final-exam/programming.py:201-206 | on `build_road(8, [100, 10, 1])` with lane-change cost 0.001, the least cost from the last lane's first cell to its last cell is exactly 1.244 |
| Planner.OffersNotCheaper | final-exam/programming.py:153-157 | with positive speeds and a lane-change cost that is not negative, every entry offered is strictly dearer than the popped one |
| Planner.OffersExpand | final-exam/programming.py:153-157 | the offers are at most three. Each goes to a cell one move ahead that is not closed, at the popped cost plus the step cost plus the inverse speed of the departed cell. Every such cell is offered |
| Planner.OfferNeighbors | final-exam/programming.py:153-157 | the loop over `neighbors` leaves the frontier with every offer merged in, in the order of `neighbors` |
| Planner.Close | final-exam/programming.py:150 | the popped cell becomes closed and no other cell of `closed` changes |
| Planner.FrontierCovers | final-exam/programming.py:146-164 | under the search invariant, some frontier entry costs no more than the least cost of any reachable cell that is not closed (the entry may be for another cell) |
| Planner.PopSettles | final-exam/programming.py:147-152 | when the popped cell is not yet closed, the popped entry's cost is exactly the least cost of its cell; so on reaching the goal the returned cost is the least cost |
| Planner.ExhaustedMeansUnreachable | final-exam/programming.py:163-164 | when the frontier is empty the goal cannot be reached |
| Planner.StepKeepsSearchInv | final-exam/programming.py:153-162 | one expansion followed by `frontier[1:]` keeps the search invariant for the enlarged closed set and lowers the weight of the frontier |
| Planner.StepShrinks | final-exam/programming.py:153-162 | dropping the popped entry and merging its offers (at most three, all in the next column) lowers the weight of the frontier, so the recursion ends |
| Planner.Advance | final-exam/programming.py:150-162 | the frontier handed to the recursive call satisfies the invariant and weighs less than the frontier received |
| Planner.RecursivePlan | final-exam/programming.py:146-164 | returns the least cost of the goal, or 0.0 when it cannot be reached. Closed cells stay closed. The popped cell ends closed. Every cell it closes is reachable |
| Planner.Plan | final-exam/programming.py:97-110 | the result is at most the cost of every route from init to goal. It equals the cost of some route when one exists, and it is 0.0 when none exists |

## Left out

- Random obstacles and printing in `build_road` (final-exam/programming.py:82-89) are left out. They are randomness and output. `Road.BuildRoad` is the obstacle-free comprehension only; roads with obstacles are ordinary `Grid` values.
- The test harness is not modelled: `solution_check`, `test_fail`, the test calls and the printing (final-exam/programming.py:173-298). Its expected values appear as `Road.NeighborsFromCorner`, `Frontier.MergeExample` and `Routes.FastLeftLaneExample`. The other three expected suite costs (0.293333333333, 0.355333333333 and 0.450641025641) are not proved as concrete values; `Planner.Plan` covers them in general.
- Floating-point rounding is not modelled, nor is the comparison within 1e-5 of the expected costs. Costs are exact reals, so `1./speed` is the exact inverse.
- Python's recursion limit and the copying done by `frontier[1:]` are not modelled. `RecursivePlan` is a terminating recursive method over frontier values.
- `add_to_frontier` edits the caller's list in place and returns it. In the model it returns the new list as a value, so aliasing of that list is not captured.
- `frontier.sort()` sorts the caller's list in place. In the model it is the function `SortFrontier`. Entries with the same cost and position are equal, so the sorted order is unique.
- Planner.Plan: requires a well-formed road, a lane-change cost that is not negative, and an open start cell inside the grid. A well-formed road has at least one lane, all lanes as long as the first, and no negative speed. Without these the source can raise (division by a zero speed, an index out of range), wrap negative indices around, or return a cost that is not the least.
- Planner.RecursivePlan: requires the same road and lane-change cost as `Plan`, a closed grid of the road's shape, and a frontier and closed grid that satisfy the search invariant. `Plan`'s initial frontier [[0.0, init]] with an all-open grid satisfies it.
