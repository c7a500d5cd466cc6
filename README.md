# TrafficSimulator2D: road graph, router and simulation engine in Dafny

This project models the core of TrafficSimulator2D, a 2-D traffic simulator whose map is a set
of road rectangles, hubs (spawn points), traffic lights and road symbols.

- **Graph builder** (`build_graph` in map_utils.py). It has four passes over the map:
  - three centre-line nodes per road, chained extremity–middle–extremity;
  - one node at the centre of each overlapping pair of roads, linked to the nearest node of each road;
  - stitching of any two nodes closer than 40 that are not yet neighbours;
  - each hub snapped to its nearest other node within `hub_snap_dist`.
- **Router** (`find_path`). A lazy-deletion Dijkstra search over the adjacency map. Each step costs `w + 10 * traffic`, where the traffic count is keyed by the sorted pair of the endpoints' names.
- **Simulation engine** (simulator.py without pygame):
  - traffic lights with a clock in seconds (a real number) and a horizontal/vertical phase;
  - cars that follow a path one edge per tick, slowed or stopped by:
    - the car ahead;
    - red lights;
    - lights reserved by another car;
    - `slow` and `no_entry` symbols;
  - the simulator, which owns the cars, the lights and the reservation map `occupied` (light → car), spawns cars along routed paths and removes finished ones.

Modules, one per file:

| module | file | content |
|---|---|---|
| `Wrappers` | wrappers.dfy | `Option` |
| `Geometry` | geometry.dfy | points, rectangles, `_rect_overlap`, the length oracle |
| `NodeIds` | node_ids.dfy | node identifiers and their rendering as the source's dictionary keys |
| `RoadGraph` | road_graph.dfy | roads, hubs, links, adjacency maps and the paired append |
| `GraphBuilder` | graph_builder.dfy | the four passes of `build_graph` |
| `Router` | router.dfy | `find_path` |
| `TrafficLights` | lights.dfy | `TrafficLight` |
| `Simulation` | simulator.dfy | `Car` and `Simulator` |

**Lengths.** Every length the source takes with `math.hypot` or `Vector2.length` is a call of a function parameter `hypot: (real, real) -> real`.
- Every property holds for any such function.
- Where a property needs non-negative lengths, it says so (`NonNegative(hypot)`), and likewise where it needs a length that ignores the sign of the vector (`EvenLength(hypot)`).

**Imperative code stays imperative.**
- Each loop of `build_graph` and `find_path` is a method with a loop.
- Each method is proved equal to a fold defined as a function (`RoadsFrom`, `PairsFrom`, `StitchFrom`, `HubsFrom`), or proved against loop invariants.
- The properties are lemmas about those functions.
- Dictionary insertion order, which decides the scans of passes 2 to 4, is kept as a sequence `order` beside the node map.
- `TrafficLight`, `Car` and `Simulator` are classes whose methods update their fields.

**Node names.**
- Road and intersection nodes are keyed by strings in the source (`r5_L`, `i2_7`), hubs by their integer id.
- The model uses a tagged `NodeId` and a rendering `Name`.
- `Name` is proved injective.
- The source's string tests, `startswith("r{id}_")` and `"r{id}_" in str(node)`, are proved to hold exactly of the road nodes of road `id`.

## Where the code and its comments differ

The model follows the code.

- **Acquiring a light overwrites any reservation** (simulator.py:115-117). A car that is within 40 of a green light takes it even when another car holds it. The same light is then within 60 and held by another car (simulator.py:111-113), so the car stops for that tick, but the reservation is still overwritten. `Simulation.TakeoverStops` states both, and `Simulation.ReserveSpec` states the overwrite.
- **A car never releases, in the same tick, a light it takes over.** The release test (simulator.py:120-124) reads the target after the light loop. A light the car takes over lies within 40 of it, so the car is not beyond 60 of it. This needs a length that ignores the sign of the vector (`Geometry.EvenLength`), as `math.hypot` does. `Simulation.ReservationsOwn` proves it: every entry a tick adds, overwrites or removes names the car, and at most one entry is removed.
- **A hub may snap to another hub** (map_utils.py:158-164). The scan considers every earlier node, hubs included. The docstring at map_utils.py:40 and the comments at map_utils.py:150 and map_utils.py:156 say a hub connects to the nearest road node. The comment at map_utils.py:161 says road nodes are preferred over other hubs. No such preference is coded.
- **A hub may end with more than one link.** A later hub may snap to it. `GraphBuilder.HubSnappedAt` states the shape the code gives: the hub's own snap link first, then only links from later hubs.

## Model

| member | source | states |
|---|---|---|
| Geometry.RectOverlap | map_utils.py:16-26 | an overlap exists iff both rectangles have positive extent and their x- and y-intervals intersect; the overlap has positive width and height, each of its points lies in both inputs, and each point of both inputs lies in it |
| Geometry.RectOverlapSymmetric | map_utils.py:16-26 | the overlap is the same with the arguments swapped |
| Geometry.LengthSubSymmetric | simulator.py:119-125 | with a length that ignores the vector's sign, the release test's `self.pos - light_pos` has the same length as the acquire test's `light_pos - self.pos` |
| Geometry.Centre | map_utils.py:104-106 | the centre of a rectangle of non-negative size lies inside it, so an intersection node stands inside both roads |
| NodeIds.NatToString | map_utils.py:63-65 | `str` of a natural number is a non-empty string of digits, with at least two digits from 10 on |
| NodeIds.IntToString | map_utils.py:63-65 | `str` of an integer is non-empty and contains only digits and `-` |
| NodeIds.NatToStringInjective | map_utils.py:63-65 | distinct naturals render differently |
| NodeIds.IntToStringInjective | map_utils.py:63-65 | distinct integers render differently |
| NodeIds.PrefixUpToUnderscore | map_utils.py:113-114 | a numeral followed by `_` that prefixes another numeral-and-`_` name fixes that numeral |
| NodeIds.RoadNameInjective | map_utils.py:63-65 | two road-node names are equal only for the same road id and the same point tag |
| NodeIds.InterNameInjective | map_utils.py:107 | two intersection names `i{a}_{b}` are equal only for the same pair of road ids |
| NodeIds.NameInjective | map_utils.py:63-65 | distinct nodes have distinct keys, so the builder's dictionaries never merge two nodes |
| NodeIds.StartsWithRoadPrefix | map_utils.py:113-114 | a node's name starts with `r{id}_` iff it is a node of road `id` |
| NodeIds.LetterROnlyFirst | simulator.py:183 | the letter `r` occurs in a node's name only as the first character of a road node's name |
| NodeIds.ContainsRoadPrefix | simulator.py:183 | `r{id}_` occurs anywhere in a node's name iff it is a node of road `id` |
| RoadGraph.Append | map_utils.py:74-77 | appending a link adds the node's key if missing, puts the link at the end of its list and leaves every other list unchanged |
| RoadGraph.ConnectSymmetric | map_utils.py:147-148 | a paired append of `(v, d)` to `u` and `(u, d)` to `v` keeps every link mirrored and keeps every existing list as a prefix |
| RoadGraph.ConnectNonNeg | map_utils.py:147-148 | a paired append of a non-negative weight keeps all weights non-negative |
| RoadGraph.AdjacentSymmetric | map_utils.py:141 | in a mirrored map, `v` is a neighbour of `u` iff `u` is a neighbour of `v` |
| RoadGraph.ConnectSimple | map_utils.py:141-148 | joining two distinct non-neighbours keeps every list free of repeats and self-links |
| RoadGraph.ConnectShape | map_utils.py:147-148 | a paired append adds exactly one link at the end of each endpoint's list and changes no other list |
| RoadGraph.ConnectKeeps | map_utils.py:147-148 | a paired append only extends lists |
| RoadGraph.KeepsTrans | map_utils.py:52-169 | extending lists is transitive across passes |
| RoadGraph.AdjacentKept | map_utils.py:52-169 | a neighbour stays a neighbour once lists only grow |
| GraphBuilder.FirstMinIsLeast | map_utils.py:116-125 | the index the strict-`<` scan keeps holds the least distance, and every earlier distance is strictly greater |
| GraphBuilder.Nearest | map_utils.py:116-125 | the scan finds no node iff there are no candidates; otherwise it finds the first nearest candidate and its distance |
| GraphBuilder.RoadNodesOf | map_utils.py:113-114 | the candidates of a road are nodes of the graph |
| GraphBuilder.WithRoadIndexed | map_utils.py:60-94 | one road adds exactly its three nodes to the keys, keeps the order faithful, and gives every node a list |
| GraphBuilder.WithRoadSymmetric | map_utils.py:74-94 | one road's chain keeps links mirrored and, with non-negative lengths, weights non-negative |
| GraphBuilder.WithRoadFresh | map_utils.py:60-94 | for a new road id, the road's nodes form the chain extremity–M–extremity at its centre-line points (`L`/`M`/`R` when `w >= h`, else `T`/`M`/`B`) weighted by their distances, and no earlier node changes |
| GraphBuilder.ChainFrame | map_utils.py:60-94 | a chain survives any step that leaves the chain's nodes unchanged |
| GraphBuilder.AddRoad | map_utils.py:53-94 | one iteration of pass 1 extends the fold `RoadsFrom` by road `i`: it adds the road's three nodes; for a new road id it builds the chain, leaves earlier nodes unchanged and keeps lists free of repeats; links stay mirrored |
| GraphBuilder.AddRoadNodes | map_utils.py:52-94 | pass 1 computes the fold `RoadsFrom` over all roads; the nodes are exactly three per road, links are mirrored and non-negative; with distinct road ids no list repeats and every road has its chain |
| GraphBuilder.NearestRoadNodeAddNode | map_utils.py:108-114 | adding an intersection node does not change which road node is nearest |
| GraphBuilder.LinkBothSymmetric | map_utils.py:126-131 | the intersection's paired appends keep links mirrored |
| GraphBuilder.LinkBothNonNeg | map_utils.py:126-131 | the intersection's links carry non-negative distances |
| GraphBuilder.OverlapSymmetric | map_utils.py:102-131 | one pair of pass 2 keeps links mirrored |
| GraphBuilder.OverlapNodes | map_utils.py:102-108 | node `i{a}_{b}` is added at the centre of the overlap exactly when `_rect_overlap` returns a rectangle, and otherwise the nodes are unchanged |
| GraphBuilder.OverlapLinked | map_utils.py:102-131 | a new intersection node gets exactly two links, one to the first nearest node of road `a` and one to that of road `b`, and no non-road node's list changes |
| GraphBuilder.OverlapPair | map_utils.py:100-131 | the loop body of pass 2, with its two nearest-node scans, equals one step of the fold `Overlap` |
| GraphBuilder.PairsSymmetric | map_utils.py:98-131 | pass 2 keeps links mirrored |
| GraphBuilder.PairsNonNeg | map_utils.py:98-131 | pass 2 keeps weights non-negative |
| GraphBuilder.PairsNodes | map_utils.py:98-108 | pass 2 adds exactly one node per overlapping pair `i < j` |
| GraphBuilder.PairsExtends | map_utils.py:98-131 | with distinct road ids pass 2 keeps every position, only extends lists and adds no road node |
| GraphBuilder.PairsLinked | map_utils.py:98-131 | with distinct road ids, after pass 2 the node of every overlapping pair is linked to the nearest node of both roads and has no other link |
| GraphBuilder.AddIntersections | map_utils.py:98-131 | the nested loops of pass 2 compute the fold `PairsFrom` over all pairs `i < j` |
| GraphBuilder.StitchPairJoins | map_utils.py:141-148 | two distinct nodes closer than 40 are neighbours after their pair is visited |
| GraphBuilder.StitchPairClose | map_utils.py:144-148 | a visited pair adds only links shorter than 40 whose weight is the nodes' distance |
| GraphBuilder.StitchPairSimple | map_utils.py:141-148 | a visited pair of distinct nodes never duplicates a connection and keeps links mirrored |
| GraphBuilder.StitchSymmetric | map_utils.py:136-148 | pass 3 keeps links mirrored |
| GraphBuilder.StitchNonNeg | map_utils.py:136-148 | pass 3 keeps weights non-negative |
| GraphBuilder.StitchKeys | map_utils.py:136-148 | pass 3 gives no node a new key |
| GraphBuilder.StitchSimple | map_utils.py:136-148 | over distinct node keys, pass 3 keeps mirrored lists free of repeated neighbours |
| GraphBuilder.StitchJoins | map_utils.py:136-148 | after pass 3 any two nodes closer than 40 are neighbours |
| GraphBuilder.StitchClose | map_utils.py:136-148 | every link pass 3 adds is shorter than 40 and weighted by the distance |
| GraphBuilder.StitchOne | map_utils.py:138-148 | the loop body of pass 3 (skip if already neighbours, join if closer than 40) equals one step of `StitchPair` |
| GraphBuilder.StitchRow | map_utils.py:137-148 | the inner loop of pass 3 completes one row `i` of the fold and keeps positions |
| GraphBuilder.Stitch | map_utils.py:135-148 | the nested loops of pass 3 over the snapshot of node keys compute the fold `StitchFrom` |
| GraphBuilder.Others | map_utils.py:158-160 | the hub's scan skips the hub itself |
| GraphBuilder.OthersAbsent | map_utils.py:158-160 | skipping a node not in the order skips nothing |
| GraphBuilder.SnapLinkTarget | map_utils.py:162-168 | a snap link goes to one of the scanned nodes, within `hub_snap_dist`, at non-negative distance |
| GraphBuilder.HubStepSymmetric | map_utils.py:154-168 | a new hub keeps links mirrored |
| GraphBuilder.HubStepSnapped | map_utils.py:154-168 | a new hub's list is reset and holds exactly its snap link to the first nearest earlier node when that is within `hub_snap_dist`, and nothing otherwise |
| GraphBuilder.HubStepKeepsSnapped | map_utils.py:154-168 | a later hub leaves an earlier hub's snap link at the head of its list and adds only hub links |
| GraphBuilder.HubsSymmetric | map_utils.py:151-168 | pass 4 with new, distinct hub ids keeps links mirrored |
| GraphBuilder.HubsNonNeg | map_utils.py:151-168 | pass 4 keeps weights non-negative |
| GraphBuilder.HubsKeys | map_utils.py:154-155 | after pass 4 every node, hubs included, has an adjacency list |
| GraphBuilder.HubsNodes | map_utils.py:151-154 | pass 4 adds exactly the hubs' nodes |
| GraphBuilder.HubsLength | map_utils.py:151-154 | with new, distinct hub ids pass 4 adds one node to the order per hub |
| GraphBuilder.HubsExtends | map_utils.py:151-168 | with new, distinct hub ids pass 4 keeps every position and only extends lists |
| GraphBuilder.HubsSimple | map_utils.py:151-168 | pass 4 with new, distinct hub ids keeps mirrored lists free of repeats |
| GraphBuilder.HubsOrdered | map_utils.py:154 | pass 4 keeps the order faithful to the node keys |
| GraphBuilder.HubsSnapped | map_utils.py:151-168 | with new, distinct hub ids, hub `m` is node `base + m` and ends pass 4 snapped |
| GraphBuilder.SnapHubs | map_utils.py:151-169 | the loop of pass 4, with its nearest-node scan, computes the fold `HubsFrom` |
| GraphBuilder.HubsAfterStitch | map_utils.py:150-169 | pass 4 keeps links mirrored, adds one node per hub and keeps stitched nodes joined |
| GraphBuilder.HubsAllSnapped | map_utils.py:150-169 | after pass 4, with distinct hub ids, the hubs are the last nodes and every one of them is snapped |
| GraphBuilder.RoadsAfterHubs | map_utils.py:52-169 | each road's chain and each intersection's two links survive passes 3 and 4 at the head of their lists |
| GraphBuilder.ConnectInside | map_utils.py:166-168 | joining two nodes of the graph keeps every link's target a node of the graph |
| GraphBuilder.HubStepInside | map_utils.py:151-168 | a hub's node, its emptied list and its snap link keep every link's target a node of the graph |
| GraphBuilder.HubsInside | map_utils.py:151-168 | pass 4 keeps every link's target a node of the graph |
| GraphBuilder.BuildGraph | map_utils.py:34-172 | the graph is exactly the four passes composed (`Built`), so it has no other node or link; every link leads to a node of the graph; the nodes are exactly three per road, one per overlapping pair, and the hubs, each with a list; weights are non-negative; with distinct hub ids links are mirrored, close nodes are joined and every hub is snapped; with distinct road ids as well lists have no repeats, roads keep their chains and intersections their links |
| Router.StrLeTotal | map_utils.py:198 | the string order used to sort a key pair is total |
| Router.StrLeAntisymmetric | map_utils.py:198 | the string order is antisymmetric |
| Router.KeyOf | map_utils.py:198 | the traffic key is the two endpoint names in sorted order |
| Router.KeyOfSymmetric | map_utils.py:198 | an edge has the same traffic key in both directions |
| Router.StepCost | map_utils.py:198-200 | a step costs at least its weight, exactly its weight without traffic, and `w + 10 * count` when the edge has a count |
| Router.StepCostSymmetric | map_utils.py:198-200 | a step costs the same in both directions |
| Router.WalkExtend | map_utils.py:202 | extending a walk by a link of its last node gives a walk to the link's target |
| Router.ClosedWalk | map_utils.py:190-203 | a walk that starts in a set closed under links stays in it |
| Router.FirstMin | map_utils.py:191 | the popped entry has the least cost, and every earlier entry costs strictly more |
| Router.PopPending | map_utils.py:191 | popping one entry leaves every other node pending |
| Router.PushPending | map_utils.py:202 | a push keeps every pending node pending and makes the pushed node pending |
| Router.CoveredAfterPop | map_utils.py:194-202 | after settling a node and pushing its links, every link out of the settled set leads to a settled or pending node |
| Router.PopMin | map_utils.py:191 | `heappop` returns an entry of least cost and the remaining entries |
| Router.Offer | map_utils.py:198-202 | one neighbour of the relax loop is pushed unless it is settled at no higher cost, and the queue keeps its walks and cost bounds |
| Router.Relax | map_utils.py:197-202 | after relaxing a node every one of its neighbours is settled or pending, each queued entry carries a walk from `start`, and costs stay at least the popped cost |
| Router.Unreachable | map_utils.py:203 | when the queue is empty and the goal was never settled, no walk leads from `start` to the goal |
| Router.PopFacts | map_utils.py:191-195 | the popped entry carries a walk from `start`, costs never fall, and a settled node's cost is at most the popped cost, so the skip test is a plain membership test |
| Router.SkipKeeps | map_utils.py:194-195 | skipping an already settled node keeps the search invariant |
| Router.SettleKeeps | map_utils.py:196-202 | settling a node and relaxing it keeps the search invariant and shrinks the unsettled set |
| Router.FindPath | map_utils.py:175-203 | None when an end is missing; `[start]` when start is the goal; a returned path is a walk from start to goal along entries of `edges`; None only when no such walk exists |
| TrafficLights.FloorMod | simulator.py:33 | Python's float `%` with the sign of the divisor: the remainder lies in `[0, b)` for `b > 0`, in `(b, 0]` for `b < 0`, and `a = (a // b) * b + r` |
| TrafficLights.ModUnique | simulator.py:33 | for a real clock value, the floored remainder is the unique remainder in `[0, b)` |
| TrafficLights.FloorModPeriodic | simulator.py:33 | the phase of a real clock value repeats every whole number of cycles |
| TrafficLights.OneAxisGreen | simulator.py:30-40 | at any real clock value a horizontal direction has green iff a vertical one has red |
| TrafficLights.GreenPeriodic | simulator.py:30-40 | at any real clock value the signal repeats every `green + red` seconds |
| TrafficLights.GreenSchedule | simulator.py:30-40 | within each cycle, at any real offset into it, horizontal traffic has green for the first `green` seconds and vertical traffic for the remaining `red` |
| TrafficLights.TrafficLight.constructor | simulator.py:19-25 | the light keeps its position, durations and offset, and its clock starts at `offset` |
| TrafficLights.TrafficLight.Update | simulator.py:27-28 | the clock advances by exactly `dt` |
| Simulation.EdgeLength | simulator.py:76 | the edge length used for progress is never zero, and positive for non-negative lengths |
| Simulation.SpacingLimit | simulator.py:92-96 | the speed after the leader rule is between 0 and the car's speed: 0 behind a leader closer than 18, at most half behind one closer than 40, the full speed without a leader |
| Simulation.ReserveSpec | simulator.py:99-117 | after the light loop, every light the car acquires is reserved for it even if another car held it, no entry is removed, and every changed entry is an acquired light now naming the car |
| Simulation.LastAcquiredSpec | simulator.py:114-117 | the car targets a light iff it acquires one, and then the last one it acquires |
| Simulation.ReserveOutside | simulator.py:99-117 | the light loop changes no entry for a light it does not visit |
| Simulation.LeaderRule | simulator.py:80-96 | the nearest car ahead, as the scan finds it, is closer than 18 iff some car ahead is, and there is one iff some car ahead is closer than 40 |
| Simulation.AllowedSpeed | simulator.py:80-134 | the speed of a tick that no `no_entry` symbol ends lies in `[0, speed]`; it is 0 behind a car ahead closer than 18 and when a light demands a stop, at most half the speed behind one closer than 40, at most 40 near a `slow` symbol, and exactly the car's speed when no rule applies |
| Simulation.ReservationsOwn | simulator.py:98-125 | with a length that ignores the vector's sign, a tick's reservations and release add or overwrite only entries that name the car, and remove at most one entry, which named the car |
| Simulation.TakeoverStops | simulator.py:99-117 | a car within 40 of a green light another car holds stops for the tick (speed 0) and still takes the reservation |
| Simulation.ReleaseMap | simulator.py:123-124 | the release removes nothing but the target's entry, never another car's entry, and leaves no entry for the target naming the car |
| Simulation.EdgeKindSymmetric | simulator.py:180-185 | the type of an edge does not depend on its direction |
| Simulation.EdgeKindOffRoad | simulator.py:180-185 | an edge between two non-road nodes is `small` |
| Simulation.KeptSpec | simulator.py:199-202 | the kept cars are exactly the unfinished ones, and distinct cars stay distinct |
| Simulation.KeptByFlags | simulator.py:199-202 | removing by the flags recorded during the loop gives the unfinished cars |
| Simulation.KeptList | simulator.py:199-202 | the list left by the removal loop is the unfinished cars in their original order |
| Simulation.Car.constructor | simulator.py:45-59 | a new car keeps its path, starts on edge 0 with progress 0, unfinished and without a target, at the first node of its path (origin for an empty path), with speed `80 + jitter` |
| Simulation.Car.CurrentEdge | simulator.py:61-64 | there is a current edge iff `edge_idx + 1 < len(path)`, and it is the pair of path nodes at `edge_idx` |
| Simulation.Car.FindLeader | simulator.py:80-91 | a leader is found iff some unfinished other car is ahead within 25; the gap is the least distance among them |
| Simulation.Car.ConsiderLight | simulator.py:103-117 | at one light the car must stop iff the light is red near the stop point or held by another car within 60, and it takes the light iff it is green within 40 |
| Simulation.Car.ApproachLights | simulator.py:98-117 | the light loop zeroes the limit iff some light demands a stop, reserves exactly the acquired lights, and targets the last of them |
| Simulation.Car.ReleaseTarget | simulator.py:119-125 | beyond 60 of its target the car drops the target and releases the entry only if it owns it; otherwise nothing changes |
| Simulation.Car.CheckSymbols | simulator.py:127-134 | blocked iff a `no_entry` symbol lies ahead within 50; otherwise the limit is capped at 40 near a `slow` symbol |
| Simulation.Car.Limit | simulator.py:80-134 | blocked iff a `no_entry` symbol lies ahead within 50; otherwise the limit is exactly `AllowedSpeed` of the state before; the reservations and the target become exactly `Reservations` of the state before |
| Simulation.Car.Move | simulator.py:136-157 | the car advances one edge iff its progress plus `max_speed * dt / edge_len` reaches 1; on reaching the last node it is finished at that node; on a new edge the progress is 0 at the edge's start; otherwise it stands on the edge at its new progress plus the lane offset of the road type |
| Simulation.Car.MovedAtBounds | simulator.py:136-146 | at a speed in `[0, speed]`, a zero speed from progress below 1 leaves the car on its edge at the same progress, and with non-negative lengths and time the progress grows by at most `speed * dt / edge_len` |
| Simulation.Car.Drive | simulator.py:73-157 | a tick of an unfinished car on a valid edge sets the reservations and the target to `Reservations`; at a `no_entry` symbol ahead the car keeps its edge, progress and position; otherwise it moves as `Move` states at exactly `AllowedSpeed`, on its edge's road type; it advances at most one edge, and with a length that ignores the sign the reservation changes are its own |
| Simulation.Car.DrivenStepped | simulator.py:73-157 | a drive from a state, at a speed that is 0 at a red light near its stop point, is a step as `Stepped` describes it |
| Simulation.Car.Update | simulator.py:66-157 | a finished car is unchanged; a car at the end of its path is only marked finished; otherwise it drives as `Drive` states; in every case it advances at most one edge, finishes only at the last node, stays put at a `no_entry` symbol ahead, does not advance at a red light near its stop point, and with non-negative lengths advances by at most its speed's worth |
| Simulation.LightStep | simulator.py:99-117 | one more light of the loop adds its own stop condition, its own acquire and possibly a new target |
| Simulation.Advance | simulator.py:137-139 | progress grows by at most `speed * dt / edge_len` and not at all at a zero limit |
| Simulation.Simulator.constructor | simulator.py:165-178 | a new simulator holds the given graph, lights and symbols, no cars, car id counter 1 and no reservations |
| Simulation.Simulator.GetEdgeType | simulator.py:180-185 | the type of an edge is that of the first road either of whose nodes' names contains `r{id}_`, else `small` |
| Simulation.Simulator.SpawnCar | simulator.py:187-194 | spawning succeeds iff both ends are keys of the adjacency map, they differ and a walk joins them; on failure nothing changes; on success it appends one fresh car with the next id on a walk of at least two nodes from start to end, with speed `80 + jitter`, at the start node on edge 0 with progress 0, unfinished and without a target, and increments the counter |
| Simulation.Simulator.TickLights | simulator.py:197-198 | every light's clock advances by `dt` |
| Simulation.Simulator.TickCar | simulator.py:200 | the car takes its step as `Car.Update` states it against the simulator's lights, symbols and reservations at that moment |
| Simulation.Simulator.StepAt | simulator.py:199-200 | updating car `i` of the snapshot keeps the steps of the cars before it and leaves the cars after it in their states before the loop |
| Simulation.Simulator.TickAt | simulator.py:199-202 | one turn of the loop updates car `i`, records its flag and drops it from the list iff it is finished |
| Simulation.Simulator.TickAll | simulator.py:199-202 | updating the cars of a snapshot one by one, removing each finished one, leaves exactly the unfinished cars in their original order, and every car of the snapshot has taken its step from its state before the loop |
| Simulation.Simulator.TickCars | simulator.py:199-202 | the car list becomes exactly the unfinished cars in their original order, and every car has taken its step |
| Simulation.Simulator.Update | simulator.py:196-202 | every light's clock advances by `dt`; the car list becomes exactly the cars unfinished after their update, in their original order; each car's step is stated against the lights with their advanced clocks, as the lights are updated first |

## Left out

- `load_map_data` (map_utils.py:12-14) is file and JSON input. The map's roads, hubs, lights and symbols are parameters.
- Simulator's pygame setup, `draw`, `run` and `main` are rendering and the event loop. This includes the click-to-spawn mode and the probabilistic auto-spawn with its random destination.
- editor.py is not part of this model. It is a Tkinter map editor.
- `math.hypot` and `Vector2.length` are not modelled. Every length is a call of the parameter `hypot`.
- Floating-point rounding is not modelled. Coordinates are exact reals.
- Simulation.Car.constructor: the random speed jitter `random.uniform(-15, 15)` is a parameter limited to `[-15, 15]`.
- `Vector2.normalize` of a zero-length edge raises an exception in the source. `Normalize` returns the zero vector instead, and the exception is not modelled.
- The exact lane-offset arithmetic of a big road is modelled, but no property about it is stated.
- Router.FindPath: the priority queue is a sequence, and the pop takes the first entry of least cost.
  - Python's heap breaks cost ties by comparing node ids and paths.
  - When an integer hub id meets a string road id at equal cost, that comparison raises `TypeError`. This is not modelled.
- Router.FindPath: optimality of the returned path and its total cost are not stated. The contract covers the ends, the walk and unreachability.
- Router.FindPath requires non-negative weights. The search invariant (costs never fall as entries are popped) depends on them, and `build_graph` provides them for a non-negative length.
- Router.FindPath: traffic counts are natural numbers.
- Router.FindPath: the edge map and the traffic counts are values, so the source's promise not to mutate them holds by construction.
- GraphBuilder.BuildGraph: mirrored links, stitching and hub snapping are stated only for distinct hub ids. With a repeated hub id, `edges[hid] = []` discards links that other nodes still mirror.
- GraphBuilder.BuildGraph: the chains, the intersection links and repeat-free lists are stated only for distinct road ids as well. A repeated road id overwrites the same nodes.
- The `node_roads` map of `build_graph` is never read by the returned graph, so it is not modelled.
- A light with `green + red == 0` makes `is_green_for` divide by zero. Every method that reads the phase requires a non-zero cycle (`Cycles`), and `Simulator.constructor` demands it of its lights.
- `TrafficLights.GreenSchedule` states the schedule for positive `green` and `red`. For other values only `OneAxisGreen` and `GreenPeriodic` are stated.
- A road's `type` other than `big` is `small`, and a symbol's type other than `slow` or `no_entry` is inert. The model has no raw strings for these.
- Simulation.Simulator.TickCars: the source removes each finished car from `self.cars` while it iterates over a copy. The model keeps the list in a local variable during the loop and writes it back once after the loop.
  - During the loop the model's `cars` still holds the cars finished earlier in the same tick.
  - The only read of `cars` in the loop is the leader scan, and it skips finished cars.
  - So the speed decisions are the same. The model does not capture the intermediate states of the list.
- Simulation.ReservationsOwn: it is stated only for a length with `hypot(-x, -y) == hypot(x, y)`. For an arbitrary length parameter a car could take a light over from another car and release it in the same tick.
- Simulation.Simulator.TickAll: each car's step is stated through `Car.Stepped`, which leaves out the exact speed and reservations. Those depend on the cars updated earlier in the same tick, so they are stated per car, by `Car.Update` through `Driven`.
- Simulation.Simulator.Update: how the reservation map changes over the whole loop is not stated. Each car's update is stated, and with a length that ignores the sign it changes only that car's own entries.
