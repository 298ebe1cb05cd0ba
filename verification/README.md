# spring-challenge bot core, modelled in Dafny

A model of the decision core of a grid-based Pac-Man bot. Each turn the bot does three things.

1. It folds the game's view into its beliefs:
   - the cells it has seen, with walls, pellet values and the chance that each pellet is still there;
   - the last known state of every pac;
   - the two team scores.
2. It builds planning maps:
   - a breadth-first shortest-path map from a pac (`PathMap`);
   - an occupant map that says which cells a pac may enter;
   - a value map, and a payoff map that adds discounted value along the shortest path.
3. Three actors fill in one action per controllable pac, in turn:
   - the threat actor switches form against an enemy that could arrive now, or speeds up;
   - the collect actor runs a greedy, best-so-far planner that claims cells;
   - the wait actor is the fallback.

   The serialiser then writes the actions out as one output line.

There is one module per source file. Code that changes state step by step is imperative Dafny:

- the grids are `array2` fields of classes;
- the loops carry invariants;
- methods are specified against ghost functions of the grid contents (`Grid(a)`, a `map<Vec, T>`).

Pure code (dominance, keys, the formatter, the arrival formula) is functions and lemmas.

Notes on how the model reads the code:

- Costs are `Fin(n) | Inf`; `Inf` plays the part of `Infinity`.
- Probabilities and payoffs are `real`, computed exactly.
- The probability pass follows the code:
  - every alive enemy is processed, whether or not it is visible;
  - only the ring at exactly the enemy's seen age is touched;
  - a cell's probability is lowered to `1 - 1/maxNumCells` (a minimum, not a product);
  - `maxNumCells` is `Spread`, the size of the largest wall-only ring up to the seen age (or 1); the buckets are those rings, and a bucket holds no cell twice;
  - `Cell.seen` does not reset the probability of a cell it observes.
- `ThreatMap.generate` is followed with the arguments of its own declaration, and the passability callback it passes is read as "not a wall".

Modules:

| module | file | models |
|---|---|---|
| `Traverse` | traverse.dfy | src/util/traverse.ts |
| `Collections` | collections.dfy | src/util/collections.ts |
| `PathMaps` | pathmap.dfy | src/util/PathMap.ts |
| `AgentHelper` | agenthelper.dfy | src/agent/AgentHelper.ts |
| `PacBeliefs`, `CellBeliefs`, `TeamBeliefs`, `AgentBeliefs` | pac.dfy, cell.dfy, team.dfy, beliefs.dfy | src/beliefs/*.ts |
| `Occupants`, `Values`, `Payoffs` | occupantmap.dfy, valuemap.dfy, payoffmap.dfy | src/agent/OccupantMap.ts, ValueMap.ts, PayoffMap.ts |
| `Collecting`, `Threats`, `ThreatActing`, `Waiting` | collectactor.dfy, threatmap.dfy, threatactor.dfy, waitactor.dfy | src/agent/CollectActor.ts, ThreatMap.ts, ThreatActor.ts, WaitActor.ts |
| `Codingame`, `Decimal` | codingame.dfy, decimal.dfy | src/codingame/index.ts (formatting only) |
| `Model`, `Wrappers` | model.dfy, wrappers.dfy | record types of src/model/model.ts and src/agent/agent.model.ts; `Option`/`Result` |

## Model

| member | source | states |
|---|---|---|
| Traverse.DistanceToEdge | src/util/traverse.ts:68-73 | the result is at most each of the four margins and equal to one of them, so it is their minimum |
| Traverse.WithinBoundsIff | src/util/traverse.ts:53-55 | a cell is within bounds (0 <= x < width, 0 <= y < height) iff its distance to the edge is >= 0 |
| Traverse.Wrap | src/util/traverse.ts:39-51 | an in-bounds position is unchanged; a position at most one width/height outside is brought back in bounds; each coordinate moves by 0 or one width/height |
| Traverse.RayFrom | src/util/traverse.ts:29-36 | the ray of n steps has n positions and starts at `from` |
| Traverse.Ray | src/util/traverse.ts:18-37 | the counted loop yields the ray of `limit` positions |
| Traverse.RayLengths | src/util/traverse.ts:21-29 | a ray has width positions for a horizontal step, height for a vertical one, the larger for a diagonal, none for a zero step |
| Traverse.RayWithinBounds | src/util/traverse.ts:29-36 | with wrapping, an in-bounds start and a unit step, every position of the ray is in bounds |
| Traverse.All | src/util/traverse.ts:10-16 | yields exactly the in-bounds cells, in row-major order (hence each once), width*height of them |
| Traverse.Neighbours | src/util/traverse.ts:57-66 | yields exactly the in-bounds cells within L1 distance `range`, `pos` included, in row-major order, with no wrap-around |
| Traverse.KeepWithinBounds | src/util/traverse.ts:61 | keeps exactly the in-bounds members, and no more elements than it was given |
| Traverse.RowMajorCard | src/util/PathMap.ts:64-81 | a row-major sequence has as many elements as cells, so a bucket's length is its ring's size |
| Traverse.KeptInOrder | src/util/traverse.ts:57-66 | each kept member lies at or after its own place in the input, so the order is kept |
| Traverse.AdjacentMembers | src/util/traverse.ts:57-66 | the range-1 neighbourhood is the in-bounds part of the five-cell diamond, row-major, including `pos` |
| Traverse.Adjacent | src/util/traverse.ts:57-66 | every neighbour is in the grid, and `pos` is among them exactly when it is in the grid |
| Traverse.Headings | src/util/traverse.ts:75-80 | four distinct headings, exactly the axis unit vectors |
| Collections.LessIsStrictTotalOrder | src/util/collections.ts:60 | `<` on numbers with +/-Infinity is a strict total order |
| Collections.Create1D | src/util/collections.ts:7-13 | `length` entries, all `initial` |
| Collections.Create2D | src/util/collections.ts:15-24 | `height` rows of `width` entries, all `initial` |
| Collections.Init2D | src/util/collections.ts:26-35 | entry [y][x] is `initializer(x, y)` |
| Collections.Clone2D | src/util/collections.ts:37-43 | a fresh grid of the same shape and contents, so writes to it leave the source alone |
| Collections.Map | src/util/collections.ts:99-103 | the i-th result is the selector of the i-th item |
| Collections.MinBy | src/util/collections.ts:54-67 | null exactly when every value is +Infinity (or there are no items); otherwise the first item with the strictly smallest value |
| Collections.MaxBy | src/util/collections.ts:69-82 | null exactly when every value is -Infinity; otherwise the first item with the strictly largest value |
| Collections.Min | src/util/collections.ts:84-97 | undefined exactly when every item is +Infinity; otherwise the first smallest item |
| Collections.KeepMembers | src/util/collections.ts:105-111 | the filtered items are exactly the items satisfying the predicate, an order-preserving subsequence |
| Collections.Filter | src/util/collections.ts:105-111 | the loop yields the order-preserving filter |
| Collections.GroupBy | src/util/collections.ts:113-125 | each key's group is exactly the items with that key, in input order, and keys are exactly the selected keys |
| Collections.GroupedStep | src/util/collections.ts:115-123 | appending one item to its key's group keeps the grouping exact |
| Collections.Lookup | src/util/collections.ts:127-133 | keys are exactly the selected keys and each maps to the last item with that key |
| Collections.SumOfAppend | src/util/collections.ts:143-149 | the total of a concatenation is the sum of the totals |
| Collections.SumOfNonNegative | src/util/collections.ts:143-149 | non-negative terms give a non-negative total |
| Collections.Sum | src/util/collections.ts:143-149 | the loop's total is the sum of the selector over the items |
| Collections.Shuffle | src/util/collections.ts:151-159 | the result is a permutation of the items (the input is a value, untouched) |
| Collections.PermutationKeepsDistinct | src/util/collections.ts:151-159 | a shuffle of distinct items has distinct items |
| Collections.ToArray | src/util/collections.ts:135-141 | holds exactly the members of the collection, each once |
| PathMaps.InsertKeepsSorted | src/util/PathMap.ts:158-169 | inserting before the first entry of no smaller cost keeps the queue sorted by cost |
| PathMaps.InsertContents | src/util/PathMap.ts:164-168 | the insertion adds exactly one entry |
| PathMaps.FirstMinIndex | src/util/PathMap.ts:83-94 | the index of the first strictly smallest cost |
| PathMaps.FirstMinIndexSnoc | src/util/PathMap.ts:86-92 | one more loop step replaces the best only on a strictly lower cost |
| PathMaps.WalkBound | src/util/PathMap.ts:96-120 | after the search, no walk reaches a cell in fewer steps than its cost |
| PathMaps.WalkExists | src/util/PathMap.ts:96-120 | a finite cost is attained by some walk from the source |
| PathMaps.CostIsShortest | src/util/PathMap.ts:96-120 | a finite cost is the shortest walk length |
| PathMaps.InfIsUnreachable | src/util/PathMap.ts:96-120 | a cost is Infinity iff no walk reaches the cell |
| PathMaps.CostsContiguous | src/util/PathMap.ts:64-81 | every cost up to a reached cost is held by some cell, so no isochrone is empty below it |
| PathMaps.PrevOf | src/util/PathMap.ts:83-94 | the previous neighbour is one of the range-1 neighbours |
| PathMaps.PrevDescends | src/util/PathMap.ts:30-37 | from a reached cell other than the source, the previous neighbour is a step back with cost one less |
| PathMaps.PrevCost | src/util/PathMap.ts:83-94 | when some neighbour has cost one less, the previous neighbour has that cost |
| PathMaps.SearchStarts | src/util/PathMap.ts:100-105 | the source at cost 0 with a one-entry queue satisfies the search invariant |
| PathMaps.RaiseLevel | src/util/PathMap.ts:106-107 | taking the queue's head raises the settled level to its cost |
| PathMaps.SkipExpanded | src/util/PathMap.ts:137-139 | an already expanded entry is dropped without effect |
| PathMaps.StartExpansion | src/util/PathMap.ts:140-142 | marking an unexpanded entry starts its relaxation |
| PathMaps.RelaxStep | src/util/PathMap.ts:149-154 | lowering a passable neighbour to cost+1 and queueing it keeps the invariant |
| PathMaps.FinishExpansion | src/util/PathMap.ts:144-156 | once every neighbour is relaxed the search invariant holds again |
| PathMaps.SearchEnds | src/util/PathMap.ts:106-114 | an empty queue means every cost is a shortest distance with a justifying parent |
| PathMaps.ChainIsWalk | src/util/PathMap.ts:30-37 | a path chained back to the source is a walk |
| PathMaps.AddToIsochrone | src/util/PathMap.ts:70-76 | the sparse bucket array grows to the key and only that bucket gains the cell |
| PathMaps.BucketedStep | src/util/PathMap.ts:67-78 | one cell of the row-major loop keeps the bucket invariant |
| PathMaps.IsochronesHaveNoHoles | src/util/PathMap.ts:64-81 | after a search no bucket below the last is missing |
| PathMaps.PathMap.constructor | src/util/PathMap.ts:13-14 | stores source, bounds and grid, with nothing expanded |
| PathMaps.PathMap.Cost | src/util/PathMap.ts:16-18 | a finite cost is a shortest walk length, and Infinity means unreachable |
| PathMaps.PathMap.CostIsShortestOrUnreachable | src/util/PathMap.ts:96-120 | the generated map's cells hold shortest distances, or Infinity exactly when unreachable |
| PathMaps.PathMap.PathTo | src/util/PathMap.ts:20-51 | `[target]` for an unreachable target or the source; otherwise a shortest walk from the source without it, of length `cost(target)`, ending at the target, each step one cost lower going back |
| PathMaps.WalkBackStep | src/util/PathMap.ts:33-38 | one step back from a reached cell other than the source lands one cost lower, on the cell `previousNeighbour` picks |
| PathMaps.PathMap.Isochrone | src/util/PathMap.ts:53-62 | exactly the cells of that cost, in row-major order |
| PathMaps.PathMap.Isochrones | src/util/PathMap.ts:64-81 | bucket k holds exactly the cells of cost k <= maxCost, row-major, each once; Infinity cells are in none; no bucket below the last is missing |
| PathMaps.PathMap.PreviousNeighbour | src/util/PathMap.ts:83-94 | the first neighbour (current included) of minimum cost |
| PathMaps.PathMap.Assign | src/util/PathMap.ts:122-131 | writes only a strictly lower cost; nothing else changes |
| PathMaps.PathMap.InsertNeighbour | src/util/PathMap.ts:158-169 | inserts before the first entry of no smaller cost, adds exactly one entry, and keeps a sorted queue sorted |
| PathMaps.PathMap.Expand | src/util/PathMap.ts:133-156 | an expanded cell is skipped; otherwise it joins the expansions and its neighbours are relaxed, keeping the search invariant |
| PathMaps.PathMap.Relax | src/util/PathMap.ts:144-155 | one neighbour: skipped if impassable or not improved, else lowered and queued |
| PathMaps.PathMap.Generate | src/util/PathMap.ts:96-120 | an out-of-bounds source leaves every cell at Infinity; otherwise every cost is the shortest passable-walk length, and unreachable cells stay Infinity |
| AgentHelper.Pow | src/agent/AgentHelper.ts:9 | a positive base has a positive power, and a base >= 1 a power >= 1 |
| AgentHelper.PowMonotone | src/agent/AgentHelper.ts:9 | with base >= 1 the power grows with the exponent |
| AgentHelper.Discount | src/agent/AgentHelper.ts:8-10 | nothing is discounted at 0 ticks, and a non-negative value stays non-negative |
| AgentHelper.DivideByMore | src/agent/AgentHelper.ts:9 | a non-negative value divided by a larger positive divisor gives no more |
| AgentHelper.DiscountProperties | src/agent/AgentHelper.ts:8-10 | no discount at 0 ticks; non-negative for a non-negative value; non-increasing in ticks for a rate >= 1 |
| AgentHelper.DominateCycle | src/agent/AgentHelper.ts:12-19 | succeeds exactly on the three forms, never returns its argument, and three applications are the identity |
| AgentHelper.Dominate | src/agent/AgentHelper.ts:12-19 | succeeds exactly on the three forms, and then with another of the three forms |
| AgentHelper.MaxMovementSpeed | src/agent/AgentHelper.ts:21-28 | 1 or 2; 2 exactly when speeding or an enemy whose ability is ready; an own pac not speeding gets 1 |
| AgentHelper.PacsToControl | src/agent/AgentHelper.ts:30-32 | exactly the alive own pacs whose key has no action |
| PacBeliefs.KeyOf | src/beliefs/Pac.ts:19-21 | starts with 'S' for the own team and 'E' otherwise |
| PacBeliefs.KeyOfInjective | src/beliefs/Pac.ts:19-25 | two keys are equal iff same side and same id |
| PacBeliefs.InitSelf | src/beliefs/Pac.ts:31-35 | an alive own pac at the sensor's cell and form, seen this tick, timers 0 |
| PacBeliefs.InitEnemyAsWrittenLeavesGrid | src/beliefs/Pac.ts:37-42 | with the column `width - x`, an own pac in column 0 seeds its enemy twin off the grid |
| PacBeliefs.InitEnemyAsWritten | src/beliefs/Pac.ts:37-42 | an alive enemy under the sensor id's enemy key, with its form and this tick, in the same row at column `width - x` |
| PacBeliefs.InitEnemy | src/beliefs/Pac.ts:37-42 | an alive enemy with the sensor's id and form, seen this tick, at the mirrored column `width - 1 - x` |
| PacBeliefs.MirrorInGrid | src/beliefs/Pac.ts:38 | the mirrored cell of an in-grid cell is in the grid, and mirroring is an involution |
| PacBeliefs.Seen | src/beliefs/Pac.ts:65-85 | "DEAD" only clears `alive`; any other report copies cell and form, stamps the tick, and sets each timer to tick + turns, or 0 when turns is 0 |
| PacBeliefs.SeenByKeepsDead | src/beliefs/Pac.ts:59-62 | a sequence of reports never changes the key and never revives a dead pac |
| PacBeliefs.Seed | src/beliefs/Pac.ts:46-56 | at tick 0 each own sensor adds an own pac and its enemy twin, mirrored to column `width - 1 - x`, under their keys; other entries stay |
| PacBeliefs.Apply | src/beliefs/Pac.ts:59-62 | with every sensor's key present, each pac is updated by exactly its own reports, in order |
| PacBeliefs.Update | src/beliefs/Pac.ts:44-63 | seeding happens only at tick 0, and then every pac is a seeded pac followed through its own reports; afterwards keys are unchanged, each pac follows its reports, and no pac revives |
| CellBeliefs.Init | src/beliefs/Cell.ts:22-28 | wall iff '#', value 1 iff ' ' (else 0), seen at the view's tick, probability 1 |
| CellBeliefs.ExpectedValue | src/agent/ValueMap.ts:18 | a certain pellet is worth its value; with a probability in [0, 1] the expected value lies between 0 and the value |
| CellBeliefs.Seen | src/beliefs/Cell.ts:49-52 | records the pellet value and the tick; position, wall and probability are kept |
| CellBeliefs.InitializeCells | src/beliefs/Cell.ts:15-20 | entry [y][x] is the initial cell of (x, y) |
| CellBeliefs.UntilWall | src/beliefs/Cell.ts:36-37 | the longest wall-free start of the ray, stopping before the first wall |
| CellBeliefs.Observed | src/beliefs/Cell.ts:30-52 | a cell's new state: the last pellet's value when one is reported, else 0 if seen, else unchanged; wall and probability never change |
| CellBeliefs.Observe | src/beliefs/Cell.ts:30-47 | every cell of the grid is observed, and no cell is added or lost |
| CellBeliefs.SightInGrid | src/beliefs/Cell.ts:35-39 | the cells seen along a heading are in the grid and not walls |
| CellBeliefs.SeenFromSnocOther | src/beliefs/Cell.ts:33 | an enemy sensor adds no seen cell |
| CellBeliefs.SeenFromSnocOwn | src/beliefs/Cell.ts:32-41 | an own sensor adds the cells along its four headings |
| CellBeliefs.MarkSight | src/beliefs/Cell.ts:36-39 | one ray marks exactly its wall-free start as seen with value 0 |
| CellBeliefs.MarkAround | src/beliefs/Cell.ts:35-40 | the four rays of one pac mark their sight |
| CellBeliefs.MarkSeen | src/beliefs/Cell.ts:32-41 | the first loop marks exactly the cells seen by own pacs |
| CellBeliefs.PlaceAll | src/beliefs/Cell.ts:44-46 | the second loop writes each pellet over its cell, later pellets last |
| CellBeliefs.PlacePelletsAt | src/beliefs/Cell.ts:44-46 | a cell ends with its last pellet's value at this tick, or unchanged without a pellet |
| CellBeliefs.PassesObserve | src/beliefs/Cell.ts:30-47 | the two passes together give each cell its observed state |
| CellBeliefs.Update | src/beliefs/Cell.ts:30-47 | the grid becomes the observed state of every cell |
| CellBeliefs.ObserveIdempotent | src/beliefs/Cell.ts:30-47 | observing the same view twice equals observing it once |
| CellBeliefs.OwnCellSeen | src/beliefs/Cell.ts:36-38 | an own pac on a non-wall cell sees its own cell |
| TeamBeliefs.InitializeTeams | src/beliefs/Team.ts:12-17 | two teams, ids Self = 0 and Enemy = 1 in that order, each with score 0 |
| TeamBeliefs.Update | src/beliefs/Team.ts:19-23 | score i becomes scores[i], overwritten; ids and teams without a score are unchanged |
| AgentBeliefs.ProbsLoweredStep | src/beliefs/Beliefs.ts:39-76 | one enemy's pass keeps the invariant: only probabilities change, never upwards, into [0, 1), and only on an enemy's ring not seen since |
| AgentBeliefs.LowerAllKeepsWalls | src/beliefs/Beliefs.ts:65-74 | lowering never changes walls |
| AgentBeliefs.LowerAllCommutes | src/beliefs/Beliefs.ts:65-74 | lowering two rings gives the same grid in either order |
| AgentBeliefs.AfterEnemiesCommute | src/beliefs/Beliefs.ts:39 | two enemies' passes commute, so the Map's iteration order does not matter |
| AgentBeliefs.RingIsCost | src/beliefs/Beliefs.ts:44-46 | a cell is on the ring k iff its wall-only distance from the enemy is exactly k |
| AgentBeliefs.IsochroneIsRing | src/beliefs/Beliefs.ts:46-60 | the isochrone at any distance up to the seen age is exactly the ring at that distance, within the grid |
| AgentBeliefs.BucketsAreRings | src/beliefs/Beliefs.ts:46-57 | every bucket up to the seen age is its ring, there is none beyond, and each present bucket holds as many cells as its ring |
| AgentBeliefs.MaxNumCellsIsSpread | src/beliefs/Beliefs.ts:48-57 | over such buckets, the loop's maximum is `Spread`: the largest ring size up to the seen age, or 1 |
| AgentBeliefs.Spread | src/beliefs/Beliefs.ts:48-57 | the spread is at least 1 |
| AgentBeliefs.SpreadIsLargestRing | src/beliefs/Beliefs.ts:48-57 | the spread is at least every ring's size up to the seen age, and equals one of them unless it is 1 |
| AgentBeliefs.EnemyPass | src/beliefs/Beliefs.ts:44-75 | one enemy's part keeps the grid's cells |
| AgentBeliefs.EnemyPassValue | src/beliefs/Beliefs.ts:60-72 | a cell one enemy's part changes is on its ring, was last seen before the tick, and now holds exactly 1 - 1/maxNumCells, with maxNumCells the spread |
| AgentBeliefs.EnemyPassKeepsWalls | src/beliefs/Beliefs.ts:65-74 | one enemy's part never changes walls |
| AgentBeliefs.EnemyPassTwice | src/beliefs/Beliefs.ts:44-57 | the second of two enemies' parts uses the spread it has on the first grid, since walls are unchanged |
| AgentBeliefs.EnemyPassesCommute | src/beliefs/Beliefs.ts:39 | two enemies' parts, spreads included, give the same grid in either order |
| AgentBeliefs.AfterAll | src/beliefs/Beliefs.ts:39-76 | the enemies' parts in turn keep the grid's cells |
| AgentBeliefs.AfterAllLowers | src/beliefs/Beliefs.ts:39-76 | the enemies' parts in any order satisfy `ProbsLowered` for the enemies listed |
| AgentBeliefs.EnemyPassLowers | src/beliefs/Beliefs.ts:44-75 | one more enemy's part, with its spread, keeps `ProbsLowered` |
| AgentBeliefs.BucketPassIsEnemyPass | src/beliefs/Beliefs.ts:44-75 | lowering the bucket at the seen age with the spread of the wall-only rings is that enemy's part |
| AgentBeliefs.Ring | src/beliefs/Beliefs.ts:45-46 | the ring at a distance lies in the grid, and is empty for a negative distance |
| AgentBeliefs.AfterEnemy | src/beliefs/Beliefs.ts:60-73 | one enemy's lowering keeps the grid's cells |
| AgentBeliefs.Beliefs.constructor | src/beliefs/Beliefs.ts:20-27 | copies tick, width and height, initial cells, no pacs, the two initial teams |
| AgentBeliefs.Beliefs.Walls | src/beliefs/Beliefs.ts:45 | exactly the wall cells |
| AgentBeliefs.Beliefs.Update | src/beliefs/Beliefs.ts:29-35 | tick, then teams, pacs, cells and probabilities, each as its own update states; at tick 0 every pac is a seeded pac followed through its own reports; the cells are the observed grid after every alive enemy's part, each enemy once, in some order |
| AgentBeliefs.Beliefs.UpdateStillAvailableProbabilities | src/beliefs/Beliefs.ts:37-81 | the grid is `AfterAll` over an order listing each alive enemy once, so each changed cell holds 1 - 1/maxNumCells for an enemy whose ring it is on; probabilities only, only lowered, into [0, 1), only on an alive enemy's ring not seen since it could arrive |
| AgentBeliefs.Beliefs.LowerAround | src/beliefs/Beliefs.ts:44-75 | maxNumCells is the spread of the enemy's wall-only rings up to its seen age, and the grid becomes `EnemyPass` of the old grid |
| AgentBeliefs.Beliefs.Isochrones | src/beliefs/Beliefs.ts:45-46 | every wall-only bucket up to the seen age is the ring at that distance with as many cells; none lies beyond |
| AgentBeliefs.Beliefs.LowerBucket | src/beliefs/Beliefs.ts:60-75 | lowers the ring to 1 - 1/maxNumCells, or leaves it when the bucket is missing |
| AgentBeliefs.Beliefs.MaxNumCells | src/beliefs/Beliefs.ts:48-57 | at least 1, at least every bucket's size, and equal to one of them unless 1 |
| AgentBeliefs.Beliefs.LowerRing | src/beliefs/Beliefs.ts:65-74 | lowers exactly the ring's cells not seen since the arrival tick, when lower |
| AgentBeliefs.Beliefs.LowerCell | src/beliefs/Beliefs.ts:66-72 | one cell of the ring |
| Occupants.KeyIsNotWall | src/agent/OccupantMap.ts:16 | no pac key is the wall mark '#' |
| Occupants.Present | src/agent/OccupantMap.ts:20 | exactly the alive pacs seen this tick |
| Occupants.Claims | src/agent/OccupantMap.ts:40 | the in-bounds cells within one step of each enemy |
| Occupants.Walled | src/agent/OccupantMap.ts:16 | '#' exactly on wall cells, empty elsewhere |
| Occupants.PlacedStep | src/agent/OccupantMap.ts:24 | writing one more pac's key keeps the placement invariant |
| Occupants.CollidedStep | src/agent/OccupantMap.ts:41-44 | one more enemy neighbour: written only if reachable by an own pac and empty |
| Occupants.ClaimedAll | src/agent/OccupantMap.ts:40-46 | the loop over an enemy's neighbours covers exactly its claims |
| Occupants.ThreatenedIsClaimed | src/agent/OccupantMap.ts:38-40 | a cell is threatened iff some present enemy claims it |
| Occupants.GeneratedFree | src/agent/OccupantMap.ts:15-50 | a cell is left empty iff it is no wall, holds no present pac, and is not an own-reachable threatened cell |
| Occupants.GeneratedHolder | src/agent/OccupantMap.ts:15-50 | a filled cell holds '#' on a wall, the key of a pac on it, or the key of an adjacent enemy |
| Occupants.GeneratedShowsPacs | src/agent/OccupantMap.ts:19-25 | every present pac's cell holds the key of a present pac there |
| Occupants.PassableCellCases | src/agent/OccupantMap.ts:67-89 | empty and own-key cells are passable; another occupant only if a current alive enemy whose dominator is the pac's form and whose ability is cooling down; never a wall or another own pac |
| Occupants.PassableCell | src/agent/OccupantMap.ts:67-89 | a free cell and the pac's own cell are passable; any other passable occupant is an enemy pac of one of the three forms |
| Occupants.Passability | src/agent/OccupantMap.ts:56-60 | only cells of the grid pass, and every free cell does |
| Occupants.OccupantMap.constructor | src/agent/OccupantMap.ts:12-13 | stores the beliefs' tick and pacs and the grid |
| Occupants.OccupantMap.Generate | src/agent/OccupantMap.ts:15-50 | walls, then present pacs, then collision cells, as `Generated` states |
| Occupants.OccupantMap.WallOccupants | src/agent/OccupantMap.ts:16 | '#' exactly on walls |
| Occupants.OccupantMap.PlacePacs | src/agent/OccupantMap.ts:19-25 | every present pac's cell holds some present pac's key there; other cells unchanged |
| Occupants.OccupantMap.SelfLocations | src/agent/OccupantMap.ts:28-37 | the cells each current own pac could reach at its greatest speed |
| Occupants.OccupantMap.MarkCollisions | src/agent/OccupantMap.ts:38-47 | empty reachable cells next to a present enemy get an enemy's key; occupied cells are never overwritten |
| Occupants.OccupantMap.MarkAround | src/agent/OccupantMap.ts:40-46 | one enemy's neighbours |
| Occupants.OccupantMap.Clone | src/agent/OccupantMap.ts:52-54 | a fresh grid with equal contents |
| Occupants.OccupantMap.Block | src/agent/OccupantMap.ts:63-65 | exactly one cell takes the pac's key |
| Occupants.OccupantMap.Pathfind | src/agent/OccupantMap.ts:56-61 | a generated path map from the pac under this map's passability |
| Values.ExpectedBounds | src/agent/ValueMap.ts:18 | an expected value lies between 0 and the pellet's value, and is 0 for an empty cell |
| Values.ClearedTwice | src/agent/ValueMap.ts:26-31 | clearing is idempotent, and clearing two paths clears their concatenation |
| Values.ClearedSnoc | src/agent/ValueMap.ts:27-30 | clearing one more cell zeroes just it |
| Values.ValueMap.constructor | src/agent/ValueMap.ts:11-12 | stores the grid |
| Values.ValueMap.Generate | src/agent/ValueMap.ts:14-20 | each cell holds its expected value |
| Values.ValueMap.Clone | src/agent/ValueMap.ts:22-24 | a fresh grid with equal contents |
| Values.ValueMap.Clear | src/agent/ValueMap.ts:26-31 | path cells become 0 and all others keep their value |
| Values.ValueMap.Value | src/agent/ValueMap.ts:33-35 | the stored entry |
| Payoffs.PrevOfZero | src/agent/PayoffMap.ts:24 | a cell of cost zero steps back to a cell of cost zero |
| Payoffs.PrevOfSource | src/agent/PayoffMap.ts:24-25 | the source steps back to itself, so its payoff adds nothing from a predecessor |
| Payoffs.PrevOfReached | src/agent/PayoffMap.ts:24 | the previous neighbour of a reached cell has cost one less, or is the source itself |
| Payoffs.ValidStepsBack | src/agent/PayoffMap.ts:24 | on a generated path map every reached cell steps back one cost, the source to itself |
| Payoffs.PayoffGrows | src/agent/PayoffMap.ts:24-27 | with non-negative values, payoffs are non-negative and at least their predecessor's |
| Payoffs.PayoffStep | src/agent/PayoffMap.ts:21-28 | a cell in ring r > 0 has the discounted value plus its predecessor's payoff |
| Payoffs.PayoffAlongPath | src/agent/PayoffMap.ts:21-28 | a payoff is the sum of discounted values along the path back to the source |
| Payoffs.PayoffRecurrence | src/agent/PayoffMap.ts:24-27 | the payoff of a cell within range is its discounted value plus, off the source, its predecessor's payoff |
| Payoffs.PayoffOf | src/agent/PayoffMap.ts:20-28 | 0 beyond the search range or when unreachable; never negative when no value is |
| Payoffs.Payoffs | src/agent/PayoffMap.ts:17-29 | a payoff for every cell of the grid |
| Payoffs.PayoffsRecur | src/agent/PayoffMap.ts:21-28 | the payoff function satisfies that recurrence at every cell within range |
| Payoffs.FilledStart | src/agent/PayoffMap.ts:18 | the zero grid is the state before the first ring |
| Payoffs.FillStep | src/agent/PayoffMap.ts:24-27 | storing discounted value plus the stored predecessor entry fills in exactly one more cell with its final payoff |
| Payoffs.FilledNext | src/agent/PayoffMap.ts:21-23 | a finished ring is the start of the next |
| Payoffs.FilledAll | src/agent/PayoffMap.ts:21-29 | after the last ring the grid is the payoff function, 0 beyond the range |
| Payoffs.PositiveSound | src/agent/PayoffMap.ts:47-53 | each candidate is a cell of the run with its payoff, which is positive |
| Payoffs.PositiveComplete | src/agent/PayoffMap.ts:47-53 | each cell of positive payoff is a candidate |
| Payoffs.PositiveOrdered | src/agent/PayoffMap.ts:47 | candidates keep the row-major order of the run |
| Payoffs.PositiveMembers | src/agent/PayoffMap.ts:46-56 | the kept cells are exactly those of positive payoff, in row-major order |
| Payoffs.CandidateWithinRange | src/agent/PayoffMap.ts:18-29 | a positive payoff means reachable within the search range: other cells stay 0 |
| Payoffs.PayoffMap.constructor | src/agent/PayoffMap.ts:14-15 | stores the grid |
| Payoffs.PayoffMap.Generate | src/agent/PayoffMap.ts:17-36 | the grid is the payoff function of the path map and value map |
| Payoffs.PayoffMap.Rings | src/agent/PayoffMap.ts:20-22 | ring k holds exactly the cells of cost k <= range, row-major, and every such cost has a ring |
| Payoffs.PayoffMap.FillRing | src/agent/PayoffMap.ts:22-28 | after one ring, every cell of that ring holds its final payoff and nothing else changed |
| Payoffs.PayoffMap.FillNext | src/agent/PayoffMap.ts:23-27 | the cell gets its discounted value plus the entry stored at the cell it steps back to, one ring down or itself |
| Payoffs.PayoffMap.FillCell | src/agent/PayoffMap.ts:24-27 | only the current cell changes, to its discounted value plus the entry at its previous neighbour |
| Payoffs.PayoffMap.CellPayoff | src/agent/PayoffMap.ts:24-26 | the discounted value plus the entry stored at the previous neighbour |
| Payoffs.PayoffMap.Clone | src/agent/PayoffMap.ts:38-40 | a fresh grid with equal contents |
| Payoffs.PayoffMap.Payoff | src/agent/PayoffMap.ts:42-44 | the stored entry |
| Payoffs.PayoffMap.Candidates | src/agent/PayoffMap.ts:46-56 | exactly the cells of positive payoff, each once, in row-major order, with their payoffs |
| Collecting.StraightToUnique | src/agent/CollectActor.ts:89-102 | the straight run of a path is unique |
| Collecting.Heading | src/agent/CollectActor.ts:91-94 | each component is -1, 0 or 1, and the heading is zero exactly at `from` itself |
| Collecting.ShuffledIdsUnique | src/agent/CollectActor.ts:67 | a shuffled order keeps pac ids distinct |
| Collecting.StoredActions | src/agent/CollectActor.ts:52-56 | storing moves adds exactly their own-team keys, keeps other actions, and each stored action is a move for that pac |
| Collecting.PlannedSnoc | src/agent/CollectActor.ts:67-84 | a pass without a move keeps the plan; a pass with one appends it and adds its payoff |
| Collecting.CollectActor.constructor | src/agent/CollectActor.ts:22-30 | the initial occupant map and value map generated from the beliefs |
| Collecting.CollectActor.Choose | src/agent/CollectActor.ts:32-57 | at least one attempt, stopping at the first clock reading past the deadline; the best is the first strict maximum; its moves are stored under own keys; existing actions are kept; new keys belong to pacs to control |
| Collecting.CollectActor.Attempts | src/agent/CollectActor.ts:35-49 | the best-so-far loop, replaced only on strictly greater payoff |
| Collecting.CollectActor.StoredMoves | src/agent/CollectActor.ts:52-56 | a plan's moves land under keys of pacs to control, without touching existing actions |
| Collecting.CollectActor.StoreMoves | src/agent/CollectActor.ts:52-56 | the loop stores each move under its pac's own key |
| Collecting.CollectActor.ChooseOne | src/agent/CollectActor.ts:59-87 | at most one move per pac, each a move into the grid; the total is positive exactly when something moves |
| Collecting.CollectActor.Turn | src/agent/CollectActor.ts:67-83 | one turn keeps the plan a plan of the pacs so far; the moves either stay or gain exactly this pac's move, with a larger total |
| Collecting.CollectActor.Pass | src/agent/CollectActor.ts:68-83 | the pac's cost map and the payoff map are those of the grids before the pass; no candidate: no move, payoff 0, maps unchanged; else a move to a path cell, the target the first cell of greatest payoff, the path the pac's own cell or the shortest walk `pathTo` chains back from it, path cleared, first step blocked |
| Collecting.CollectActor.Claim | src/agent/CollectActor.ts:81-82 | clears the path and blocks its first cell |
| Collecting.CollectActor.Plan | src/agent/CollectActor.ts:68-76 | the payoff is the maximum payoff, at the path's end, within the search range; that end is the first cell of greatest payoff in row-major order; the path is the pac's own cell or the shortest passable walk `pathTo` chains back from it; the target is the end of the path's straight run |
| Collecting.CollectActor.Route | src/agent/CollectActor.ts:72 | a non-empty in-grid path ending at the target: just the target when it is the source or unreachable, otherwise a shortest walk from the source, as long as its distance, each cell one step further than the one before |
| Collecting.CollectActor.PathInBounds | src/agent/CollectActor.ts:72 | a path from `pathTo` stays in the grid |
| Collecting.CollectActor.BestTarget | src/agent/CollectActor.ts:68-70 | the best candidate has the maximum positive payoff and every cell before it in row-major order a strictly smaller one, or no cell has a positive one |
| Collecting.CollectActor.MaxPayoff | src/agent/CollectActor.ts:70 | a cell of maximal positive payoff, every cell before it in row-major order paying strictly less; or none when no payoff is positive |
| Collecting.FirstMaxCandidate | src/util/collections.ts:69-82 | `maxBy` over row-major candidates: none pays more than the chosen one, and each before it pays strictly less |
| Collecting.FirstBestUnique | src/agent/CollectActor.ts:70 | at most one cell is the first best, so the tie-break fixes the target |
| Collecting.CollectActor.FindTarget | src/agent/CollectActor.ts:89-102 | path[k] for the largest k with path[0..k] in path[0]'s heading from the pac; always on the path |
| Threats.ArrivalTicks | src/agent/ThreatMap.ts:46 | Infinity iff the cost is; 0 iff within range; otherwise cost minus range |
| Threats.ArrivalTicksMonotone | src/agent/ThreatMap.ts:43-46 | a longer range never gives a later arrival |
| Threats.MaxRange | src/agent/ThreatMap.ts:43 | at least the enemy's top speed, itself at least 1, for a pac seen no later than now; 0 for a pac seen one tick ahead |
| Threats.ThreatMap.constructor | src/agent/ThreatMap.ts:16-17 | stores beliefs, enemies and path maps |
| Threats.ThreatMap.Generate | src/agent/ThreatMap.ts:19-32 | tracks exactly the alive enemies seen fewer than NearbyEnemiesTicks ago, each with a wall-only path map from its cell |
| Threats.ThreatMap.Size | src/agent/ThreatMap.ts:34-36 | the number of tracked enemies |
| Threats.ThreatMap.Threats | src/agent/ThreatMap.ts:38-51 | one threat per tracked enemy, its arrival being max(0, shortest distance - maxRange), Infinity when unreachable |
| Threats.ThreatMap.Arrival | src/agent/ThreatMap.ts:42-46 | one enemy's arrival ticks |
| ThreatActing.SpeedTagReadsBack | src/agent/ThreatActor.ts:59 | '*' iff no closest; otherwise the enemy key, ':', and digits reading back as the arrival ticks |
| ThreatActing.SpeedTag | src/agent/ThreatActor.ts:59 | '*' exactly when there is no closest threat |
| ThreatActing.Respond | src/agent/ThreatActor.ts:42-60 | arriving now with an unknown form fails; arriving now with the dominator differing from the pac's form: a switch to it, tagged with the enemy key; otherwise a speed with its tag |
| ThreatActing.ResponsesStep | src/agent/ThreatActor.ts:22-27 | storing one response for a pac without an action keeps the invariant |
| ThreatActing.ThreatActor.constructor | src/agent/ThreatActor.ts:12-18 | stores beliefs and parameters |
| ThreatActing.ThreatActor.Choose | src/agent/ThreatActor.ts:20-31 | keeps every existing action, adds only switch/speed responses for pacs to control, and one for each whose ability is ready; it fails only when some tracked nearby enemy has no known form, so with every enemy's form known it succeeds |
| ThreatActing.ThreatActor.Visit | src/agent/ThreatActor.ts:22-27 | one pac of the loop: keeps the chosen actions, adds this pac's response when it is ready, and fails only on a tracked enemy of unknown form |
| ThreatActing.ThreatActor.ChooseOne | src/agent/ThreatActor.ts:33-61 | nothing while cooling down; otherwise the threats, the first minimal closest threat, and its response; it fails only when that closest tracked enemy arrives now with an unknown form, as `dominate` throws |
| Waiting.WaitsStep | src/agent/WaitActor.ts:18-21 | storing one wait keeps the invariant |
| Waiting.WaitsForKey | src/agent/WaitActor.ts:18-21 | a stored wait is for the pac owning the key |
| Waiting.WaitActor.constructor | src/agent/WaitActor.ts:10-14 | stores beliefs and parameters |
| Waiting.WaitActor.Choose | src/agent/WaitActor.ts:16-22 | every pac to control gets `wait` under its key, existing actions are kept, none is left to control, and a second call adds nothing |
| Codingame.IntentWords | src/codingame/index.ts:70-78 | the words of an intent, none containing a space, as many as its verb takes |
| Codingame.IntentReadsBack | src/codingame/index.ts:70-78 | the intent string is its words joined by spaces, and they parse back to the pac and intent |
| Codingame.MoveReadsBack | src/codingame/index.ts:73 | "MOVE pac x y" parses back to the move |
| Codingame.ReadsBackWords | src/codingame/index.ts:62-68 | an intent's words followed by a tag's words parse back to the action |
| Codingame.FormatActionReadsBack | src/codingame/index.ts:62-78 | a well-formed action reads back with its tag dropped exactly when absent or empty; an unknown type ("NULL") reads back as nothing |
| Codingame.JoinBars | src/codingame/index.ts:96 | joining parts free of the bar character with the " bar " separator gives one bar fewer than parts, and "" for none |
| Codingame.TurnCommands | src/codingame/index.ts:96 | a turn line holds exactly one bar character between each two actions, and is empty for no actions |
| Codingame.NoBar | src/codingame/index.ts:62-78 | an action whose tag and form have no bar character formats without one |
| Codingame.IntTextHasNoBar | src/codingame/index.ts:73 | a printed integer has no bar character |
| Codingame.FormatActionIntent | src/codingame/index.ts:70-78 | "NULL" exactly for an unknown action type |
| Codingame.FormatAction | src/codingame/index.ts:62-68 | starts with the intent's command, and has more only when the tag is present and non-empty |
| Codingame.FormatTurn | src/codingame/index.ts:96 | empty for no action, the action's command for one, and the first command followed by " bar " for more |
| Decimal.NatToString | src/codingame/index.ts:72 | non-empty digits without a leading zero |
| Decimal.ParseNatToString | src/codingame/index.ts:72 | printed numbers read back |
| Decimal.IntToString | src/codingame/index.ts:73 | non-empty, no space, digits only iff non-negative |
| Decimal.ParseIntToString | src/codingame/index.ts:73 | printed integers read back |
| Decimal.IntToStringInjective | src/codingame/index.ts:73 | distinct integers print differently |

## Left out

- Vec (src/util/vector.ts) is not part of this model:
  - `Vec` is a value pair;
  - `l1` is |dx| + |dy|;
  - `unit` is the componentwise sign;
  - `hash` is replaced by the cell itself, assuming it is injective on the grid;
  - `wrap` returns the wrapped cell rather than updating the object in place.
- `traverse.untilRange` is not part of this model. It is taken to be the in-bounds cells within L1 distance `range`.
- `Cell.expectedValue` and `stillAvailableProbability` are not part of this model:
  - the probability is a field that starts at 1;
  - the expected value is `value * probability`.
- `params.SearchRange` and `NearbyEnemiesTicks` are fields of `AgentParams`.
- `Math.pow` is an exact power on `real` with a positive rate. IEEE floating point is not modelled.
- I/O:
  - `readInitial`, `readNext` and `main` in src/codingame/index.ts are left out (readline and console I/O, the endless loop);
  - every `console.error` and the `Debug` counters (`assignments`, `numIterations`, `numUpdates`) are dropped.
- Non-determinism:
  - `Date.now()` is a sequence of clock readings given to `Choose`;
  - `Math.random` in `shuffle` is an unconstrained choice of permutation;
  - JavaScript `Map` insertion order is an unconstrained order. `AgentBeliefs.AfterEnemiesCommute` shows the probability pass does not depend on it.
- A JavaScript `Map` keyed by a `Pac` object (ThreatMap) is keyed by the pac's value. Two pacs with identical fields would share an entry.
- The actors take the `actions` map and return the extended map, rather than updating a shared `Map` in place.
- Thrown errors:
  - `dominate` on an unknown form gives `Failure`, which ends `ThreatActor.choose` with `Failure`, as the throw would;
  - Occupants.PassableCell: an enemy of unknown form makes the cell impassable, whereas the source's `dominate` throws out of `passable` (src/agent/OccupantMap.ts:82, src/agent/AgentHelper.ts:12-19), ending `PathMap.generate` and `CollectActor.chooseOne`; the model goes on searching with that cell blocked;
  - an out-of-grid position that the source would index without a check is excluded by `requires`. Affected: own pacs in `ThreatActor.choose`, present pacs in `OccupantMap.generate`, and pac and pellet positions in `Cell.update`.
- Orchestration and records:
  - src/agent/Actor.ts and src/agent/Agent.ts are orchestration glue and are not part of this model;
  - the `Action` record gains switch and speed variants (an `Intent` datatype) that src/model/model.ts lacks;
  - the `ThreatActor` constructor's `view` is unused; its `occupantMap` is passed on to a `ThreatMap.generate` that takes no such parameter (src/agent/ThreatActor.ts:21); its `start` only feeds the timing log line (src/agent/ThreatActor.ts:29-30). All three are dropped.
- `collections.range` and `collections.some` are not used by the modelled code.
- `ThreatMap.generate`'s `(x, y)` callback is read as the wall test it evidently means (`Open` of the wall set).
- PacBeliefs.Seed: seeds each enemy twin at the corrected mirror column `width - 1 - x` (see Findings) rather than at src/beliefs/Pac.ts:38's `width - x`; PacBeliefs.Update and AgentBeliefs.Beliefs.Update inherit this.
- Collecting.CollectActor.ChooseOne: the contract states at most one move per pac and a positive total exactly when something moves. It does not state that the total equals the sum of the chosen candidates' payoffs; that holds per pass in `Pass` and `Plan`.
- ThreatActing.ThreatActor.Choose: the contract states which keys gain a switch or speed action. That each one equals `Respond` for that pac's closest threat is stated per pac by `ChooseOne`, not for the whole map.
- Payoffs.PayoffMap.Generate: the source's first parameter, the pac (src/agent/PayoffMap.ts:17), is unused in its body, so the model does not take it.

## Findings

| source | as written | input that shows it | evidently intended | confidence | as-written member | corrected member |
|---|---|---|---|---|---|---|
| src/beliefs/Pac.ts:38 | the enemy twin of an own pac at column x is seeded at column `width - x` | an own pac at x = 0 on a grid of width w: its twin is at column w, off the grid | the left-right mirror `width - 1 - x`, which stays on the grid and is an involution | medium, not executed | PacBeliefs.InitEnemyAsWrittenLeavesGrid | PacBeliefs.InitEnemy |
