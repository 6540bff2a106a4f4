# Wildfire spread: a Dafny model of the two simulation engines

This project models the fire-spread core of a wildfire simulator in two forms.

**The graph engine** is `py/wildfire_sim/incinerate.py`.
- The build makes one node per row of the terrain table, at most 2500 of them, with ids 1..n. They are placed column by column on a 50 x 50 grid, so a short table leaves the last cells of the grid without a node.
- Each node has:
  - a fire state: empty, not_burnt, burning or burnt;
  - a colour;
  - a terrain-derived ignition threshold;
  - an integer lifeline;
  - a count of burning neighbours.
- Edges join two non-empty nodes that lie within 1.42 cells of each other. Each edge has a weight, a colour, a life, a wind direction and a strength flag.
- One `incinerate` step runs these passes in order:
  1. a collect-then-apply neighbour-ignition scan;
  2. an ember (spotting) pass;
  3. the lifeline decay of nodes, then of edges;
  4. a refresh of the burning-neighbour counts;
  5. browning the edges of burnt nodes.
- From step 1 on, `simulate_wind` then reweights the edges inside a random ellipse.
- The driver `run_wildfire_simulation` builds the domain from a terrain table and picks an ignition node. It then runs timesteps 0..100: each one counts the burning nodes and draws a frame, then runs one `incinerate` step (and, after timestep 0, a wind event). That is at most 101 steps. The loop stops at the first timestep after 0 at which nothing burns, before stepping.

**The raster engine** is `py/wildfire_sim/sca.py` and its script twin `sca_geotiff.py`.
- A grid of cells is each no_forest, forest, burning or burnt.
- One step:
  - turns burning cells burnt;
  - counts each cell's burning Moore neighbours by a zero-filled convolution;
  - ignites forest cells against per-cell random draws.
- The ignition pixel is validated. A crop window is clamped around it.
- The run writes frame 0 and at most 20 more frames. It stops at the first step after which nothing burns.

Every random draw is an explicit oracle argument:
- an integer draw `randint(lo, hi)` becomes `lo + d % (hi - lo + 1)` for an oracle value `d`;
- `choice(xs)` becomes `xs[d % |xs|]`;
- uniform draws are plain reals compared against the source's constants.

The transcendental functions (`sqrt`, `tan`, `atan`, `cos`, `ln`, `exp`) are uninterpreted fields of a `Numerics` record. Only the arithmetic, branches and clamps around them are modelled.

The files are:
- `wrappers.dfy`: Option and Result.
- `draws.dfy`: the random-draw oracles.
- `grid_index.dfy`: `node_id_to_grid` and the ceiling square root.
- `terrain.dfy`: `get_direction`, `node_threshold`, `edge_weight`, `get_angle` and `dist`.
- `wind.dfy`: the pure parts of `simulate_wind`.
- `fire_graph.dfy`: the node and edge model, the step passes and the `Forest` class, whose methods update the graph in place.
- `domain.dfy`: the domain build, the snapshot grid and the driver.
- `ca_step.dfy`: the raster step.
- `raster_run.dfy`: the cast, crop and save, the run loop and the two entry points.

Where the code and the prose description of the system differ, the model follows the code:
- The neighbour pass marks the igniting edge by colouring it orange. It does not set its strength flag.
- The ember pass draws its targets from the not_burnt nodes only. The code's list excludes empty, burning and burnt nodes.
- A node is left empty when its density draw is *above* `DENSITY_FACTOR` (0.95). A larger factor therefore means a denser forest.
- `simulate_wind` ignores its `dist_scale` argument. It always scales distances by 30.
- `sca_geotiff.py`'s `main` reports each failure by printing a message and returning. The model gives each of those returns its own error value.
- `sca_geotiff.py` creates the output directory *before* validating the ignition pixel. `sca.py` creates it after validation.

## Model

| member | source | states |
|---|---|---|
| GridIndex.NodeIdToGrid | py/wildfire_sim/incinerate.py:138-144 | the row is in 0..g-1 and the cell maps back to the same id: id = col*g + row + 1 |
| GridIndex.NodeIdInGrid | py/wildfire_sim/incinerate.py:138-144 | every id in 1..g² lands on a column in 0..g-1, so every id maps into the grid |
| GridIndex.GridRoundTrip | py/wildfire_sim/incinerate.py:138-144 | every cell of the grid has an id in 1..g², and that id maps back to the cell (the map is a bijection) |
| GridIndex.BuildOrderMatches | py/wildfire_sim/incinerate.py:367-424 | the build loop's counter k at column i, row j is the id that node_id_to_grid places at row j-1, column i-1 |
| GridIndex.CeilSqrt | py/wildfire_sim/incinerate.py:148 | the result g is the ceiling of the square root: g² ≥ n and (g-1)² < n |
| GridIndex.CeilSqrtUnique | py/wildfire_sim/incinerate.py:328 | any positive g with g² ≥ n > (g-1)² is the ceiling square root |
| Domain.GridSideIsCeilSqrt | py/wildfire_sim/incinerate.py:328 | the grid side for 2500 requested nodes is 50 |
| Draws.RandInt | py/wildfire_sim/incinerate.py:394 | an integer draw lies in the closed range [lo, hi] |
| Draws.RandIntReachesAll | py/wildfire_sim/incinerate.py:394 | every value of [lo, hi] is drawn for some oracle value |
| Draws.Choice | py/wildfire_sim/incinerate.py:231 | a choice is an element of the list |
| Draws.ChoiceReachesAll | py/wildfire_sim/incinerate.py:231 | every element of the list can be chosen |
| Terrain.GetDirection | py/wildfire_sim/incinerate.py:93-101 | N exactly when a < 22.5 or a ≥ 337.5; any other octant is returned only for an angle within 22.5 degrees of its centre |
| Terrain.GetDirectionUnique | py/wildfire_sim/incinerate.py:93-101 | an angle in the 45-degree window around an octant's centre gets that octant (the windows do not overlap) |
| Terrain.Round2 | py/wildfire_sim/incinerate.py:78 | rounding gives a whole number of hundredths within half a hundredth of the input; inputs of at least 0.01 stay at least 0.01 |
| Terrain.NodeThreshold | py/wildfire_sim/incinerate.py:120-131 | the terrain threshold is rounded to hundredths |
| Terrain.EdgeWeight | py/wildfire_sim/incinerate.py:70-78 | a zero distance gives exactly 0.01; every weight is at least 0.01 and a whole number of hundredths |
| Terrain.GetAngle | py/wildfire_sim/incinerate.py:80-88 | two positions with the same x give 90 exactly when the second lies above the first and 270 exactly when it does not |
| Wind.AxesAt | py/wildfire_sim/incinerate.py:236-237 | both semi-axis draws of a round lie in 1..4 |
| Wind.DrawSemiAxes | py/wildfire_sim/incinerate.py:233-237 | the redraw loop ends at the first round whose draws differ: a ≠ b, both in 1..4, every earlier round drew equal values, and (a, b) is SemiAxes of the draws |
| Wind.SemiAxes | py/wildfire_sim/incinerate.py:233-237 | the semi-axes the redraw loop settles on differ and both lie in 1..4 |
| Wind.FocusShift | py/wildfire_sim/incinerate.py:238-239 | the focus shift c has magnitude in 1..max(a,b)-1 when that range is non-empty, and is 0 otherwise |
| Wind.ColumnOffsetMovesColumn | py/wildfire_sim/incinerate.py:254-255 | for a horizontal ellipse the offset g·c moves an id by c columns and keeps its row |
| Wind.RowOffsetMovesRow | py/wildfire_sim/incinerate.py:256-257 | for a vertical ellipse the offset c moves an id by c rows and keeps its column, while the row stays on the grid |
| Wind.CentreInEllipse | py/wildfire_sim/incinerate.py:246-251 | the chosen centre lies in its own ellipse, so the wind zone is never empty |
| Wind.WindAngle | py/wildfire_sim/incinerate.py:274-277 | horizontal: 0 exactly when both endpoints lie east of the focus, else 180; vertical: 90 exactly when both lie north of it, else 270 |
| FireGraph.CountState | py/wildfire_sim/incinerate.py:56-60 | a state count never exceeds the number of nodes |
| FireGraph.CountStateZero | py/wildfire_sim/incinerate.py:56-57 | a state count is zero exactly when no node has that state |
| FireGraph.CountPartition | py/wildfire_sim/incinerate.py:56-63 | the four state counts add up to the number of nodes, and count_non_empty is not_burnt + burning + burnt |
| FireGraph.IdsWithState | py/wildfire_sim/incinerate.py:90-91 | the listed ids are exactly the ids of nodes in the state (both directions) |
| FireGraph.IdsWithStateAscending | py/wildfire_sim/incinerate.py:151 | the ids are listed in ascending order, the graph's node order |
| FireGraph.NonEmptyIds | py/wildfire_sim/incinerate.py:227 | exactly the non-empty ids, and as many of them as count_non_empty |
| FireGraph.JoinedWithinMeans | py/wildfire_sim/incinerate.py:160 | the edge search over the first k edges succeeds exactly when one of them joins the two nodes |
| FireGraph.JoinsUnique | py/wildfire_sim/incinerate.py:428-442 | in a well-formed edge list, at most one edge joins a given pair of nodes |
| FireGraph.Pressure | py/wildfire_sim/incinerate.py:158-164 | the accumulated pressure s never exceeds 1 |
| FireGraph.PressureIsClampedSum | py/wildfire_sim/incinerate.py:158-164 | with non-negative weights and noise, the step-by-step clamped sum equals min(1, the full sum of noisy weights), and lies in [0, 1] |
| FireGraph.PressureOn | py/wildfire_sim/incinerate.py:157-164 | the pressure loop over the neighbours computes the clamped pressure |
| FireGraph.ReachesThreshold | py/wildfire_sim/incinerate.py:157-170 | the method decides exactly whether the pressure reaches the noisy threshold |
| FireGraph.ScanEdge | py/wildfire_sim/incinerate.py:155-171 | examining one edge of a burning node appends (nb, b) or leaves the list unchanged |
| FireGraph.ScanNode | py/wildfire_sim/incinerate.py:155-171 | scanning one burning node gives exactly the edge scan ScanEdges over all its edges; the earlier pairs stay a prefix and every new pair names that node as the igniter |
| FireGraph.ScanDone | py/wildfire_sim/incinerate.py:151-171 | after the scan, the list holds exactly the pairs (nb, b) where b burns, nb is a not_burnt neighbour of b, and nb's pressure reaches its noisy threshold |
| FireGraph.IgnitionScan | py/wildfire_sim/incinerate.py:151-171 | the loop computes the scan list ScanList; it schedules exactly the one-hop ignitions, ordered by igniter, and every scheduled node is not_burnt at the start of the step |
| FireGraph.ScanEdgesScanned | py/wildfire_sim/incinerate.py:155-171 | the scan over one burning node's first k edges keeps the scan invariant, keeps the earlier pairs as a prefix and names that node in every new pair |
| FireGraph.ScanBeforeScanned | py/wildfire_sim/incinerate.py:151-171 | after the nodes before b the list holds exactly their scheduled pairs, ordered by igniter, every igniter below b |
| FireGraph.ScanListSchedules | py/wildfire_sim/incinerate.py:151-171 | a pair is in the whole scan's list exactly when its igniter schedules its target; the list is ordered by igniter and names only not_burnt nodes |
| FireGraph.FirstIgniterIsFirst | py/wildfire_sim/incinerate.py:173-180 | the first scheduled pair that names a node determines which edge ignites it |
| FireGraph.EligibleNow | py/wildfire_sim/incinerate.py:174 | part way through the apply loop, a node is still eligible exactly when no earlier pair ignited it and it was eligible at the start |
| FireGraph.ApplyStep | py/wildfire_sim/incinerate.py:173-180 | applying one more pair ignites its target and lights the joining edge when the target is eligible, and changes nothing otherwise |
| FireGraph.LitOneEdge | py/wildfire_sim/incinerate.py:179-180 | lighting the edge between two nodes changes exactly that edge's colour, to orange |
| FireGraph.LitNoEdge | py/wildfire_sim/incinerate.py:179 | when no edge joins the two nodes, lighting changes nothing |
| FireGraph.IgnitedConsistent | py/wildfire_sim/incinerate.py:175-180 | igniting a node keeps the colours list in step with the node colours, and keeps the edges well formed |
| FireGraph.FindEdge | py/wildfire_sim/incinerate.py:179 | the result is the index of an edge joining the two nodes, or -1 exactly when none does |
| FireGraph.IgniteVia | py/wildfire_sim/incinerate.py:175-180 | igniting a node sets it burning and orange, sets its colours entry orange and lights the joining edge; the invariant is kept |
| FireGraph.ApplyPair | py/wildfire_sim/incinerate.py:173-180 | one iteration of the apply loop extends the applied prefix by one pair and keeps the invariant |
| FireGraph.ApplyList | py/wildfire_sim/incinerate.py:173-180 | the apply loop leaves each node and edge as the scheduled pairs, taken in order, determine under the "not yet burning" rule |
| FireGraph.AppliedIsApplied | py/wildfire_sim/incinerate.py:173-180 | a state that the apply-loop invariant describes is exactly the applied list Applied |
| FireGraph.AppliedIgnitesOrKeeps | py/wildfire_sim/incinerate.py:173-180 | when every scheduled node was not_burnt, each node afterwards is unchanged or ignited from not_burnt, and each edge is unchanged or orange |
| FireGraph.Forest.ApplyIgnitions | py/wildfire_sim/incinerate.py:173-180 | the graph afterwards is the applied list, and, for not_burnt targets, every node is ignited or unchanged and every edge orange or unchanged |
| FireGraph.EmberCandidates | py/wildfire_sim/incinerate.py:189-195 | the candidates are exactly the pool nodes within EMBER_RADIUS cells of the burning node in both axes |
| FireGraph.CollectEmberCandidates | py/wildfire_sim/incinerate.py:189-195 | the candidate loop collects exactly those candidates |
| FireGraph.EmberTarget | py/wildfire_sim/incinerate.py:187-203 | a target is a pool node, and exists only when the spark draw is below 0.02 and the landing draw below 0.5; a target outside the radius needs the 0.1 fallback and an empty candidate list; with candidates and both draws passing, a target always exists |
| FireGraph.DrawEmberTarget | py/wildfire_sim/incinerate.py:197-203 | the draw picks that target, and the target is a node of the graph |
| FireGraph.EmberHits | py/wildfire_sim/incinerate.py:184-210 | every ember hit pairs a pool node with a node burning at the start of the step |
| FireGraph.EmberHitsSnoc | py/wildfire_sim/incinerate.py:184-210 | each burning node, in order, adds at most its own landed target to the hits |
| FireGraph.EmberHitsEmptyPool | py/wildfire_sim/incinerate.py:185-186 | with no not_burnt node the ember pass does nothing |
| FireGraph.Forest.ThrowEmber | py/wildfire_sim/incinerate.py:187-210 | one ember extends the applied hits by its landing, which ignites only a not_burnt target |
| FireGraph.Forest.EmberPass | py/wildfire_sim/incinerate.py:182-210 | the ember loop applies exactly the ember hits; each node is ignited from not_burnt or kept, and every edge is kept or orange |
| FireGraph.Decayed | py/wildfire_sim/incinerate.py:103-111 | a non-burning node is unchanged; a burning one loses exactly one life, turns burnt (and brown) exactly when its life goes negative, and keeps its other attributes |
| FireGraph.DecayNodes | py/wildfire_sim/incinerate.py:103-111 | the lifeline loop decays every node, and browns the colours entry of exactly the nodes that burn out |
| FireGraph.DecayedConsistent | py/wildfire_sim/incinerate.py:103-111 | decay keeps the colours list in step with the nodes, and keeps every burnt node brown |
| FireGraph.Forest.LifelineUpdate | py/wildfire_sim/incinerate.py:103-111 | every node becomes its decayed self; the edges do not change |
| FireGraph.EdgeDecayed | py/wildfire_sim/incinerate.py:113-118 | a non-orange edge is unchanged; an orange one loses exactly one life and turns brown exactly when its life goes negative; its endpoints, weight, strength and direction are kept |
| FireGraph.DecayEdges | py/wildfire_sim/incinerate.py:113-118 | the edge loop decays every edge |
| FireGraph.Forest.LifeEdgeUpdate | py/wildfire_sim/incinerate.py:113-118 | every edge becomes its decayed self; nodes and colours do not change |
| FireGraph.BurningNeighbourCount | py/wildfire_sim/incinerate.py:135 | the number of burning neighbours over the first k edges is at most k |
| FireGraph.BurningNeighbourCountZero | py/wildfire_sim/incinerate.py:135 | the count is zero exactly when no incident edge leads to a burning node |
| FireGraph.BurningNeighbourCountFrame | py/wildfire_sim/incinerate.py:135 | the count depends only on the fire states and the edge endpoints |
| FireGraph.CountBurningNeighbours | py/wildfire_sim/incinerate.py:135 | the loop over one node's edges computes its burning-neighbour count |
| FireGraph.RecountNodes | py/wildfire_sim/incinerate.py:133-136 | every node receives its burning-neighbour count, and nothing else changes |
| FireGraph.RecountedConsistent | py/wildfire_sim/incinerate.py:133-136 | recounting keeps the invariant, and the stored counts agree with the recounted graph itself |
| FireGraph.Forest.UpdateActiveNeighbors | py/wildfire_sim/incinerate.py:133-136 | only the counts change, and each stored count equals the node's number of burning neighbours |
| FireGraph.BrownBurntEdges | py/wildfire_sim/incinerate.py:216-221 | burnt nodes turn brown; every edge touching a burnt node turns brown, and every other edge is kept |
| FireGraph.BrowningKeepsNodes | py/wildfire_sim/incinerate.py:216-218 | since burnt nodes are already brown, recolouring them changes no node |
| FireGraph.Forest.MarkBurntEdges | py/wildfire_sim/incinerate.py:216-221 | exactly the edges touching a burnt node turn brown; the nodes do not change |
| FireGraph.CountsSurviveBrowning | py/wildfire_sim/incinerate.py:214-221 | browning the edges keeps the burning-neighbour counts correct |
| FireGraph.Forest.SpreadPass | py/wildfire_sim/incinerate.py:151-210 | the graph afterwards is exactly SpreadState: the scan list applied under the not-yet-burning rule, then the ember landings applied; each node is ignited or kept and each edge orange or kept |
| FireGraph.Forest.DecayPass | py/wildfire_sim/incinerate.py:212-221 | afterwards each node is its decayed self with a fresh count, and each edge is decayed, then browned when it touches a burnt node; the graph is exactly DecayState |
| FireGraph.DecayPassIsDecayState | py/wildfire_sim/incinerate.py:212-221 | nodes that are decayed and counted and edges that are decayed and browned are exactly DecayState |
| FireGraph.DecayedNodesRecounted | py/wildfire_sim/incinerate.py:212-214 | decayed nodes carrying their burning-neighbour counts are the recount of the decayed nodes over the aged edges |
| FireGraph.DecayedEdgesBrowned | py/wildfire_sim/incinerate.py:213-221 | decayed edges browned at burnt endpoints are the browning of the aged edges at the decayed nodes |
| FireGraph.SpreadIgnitesScheduled | py/wildfire_sim/incinerate.py:151-180 | a node that a burning neighbour schedules is ignited by the spread passes |
| FireGraph.SpreadIgnitesOnlyScheduledOrHit | py/wildfire_sim/incinerate.py:151-210 | a node the spread passes change was not_burnt and is ignited, and was scheduled by a burning neighbour or hit by an ember |
| FireGraph.StepBurnsScheduled | py/wildfire_sim/incinerate.py:146-222 | a node that a burning neighbour schedules is burning or burnt after the step |
| FireGraph.StepIgnitesOnlyScheduledOrHit | py/wildfire_sim/incinerate.py:146-222 | a not_burnt node that is no longer not_burnt after the step was scheduled by a burning neighbour or hit by an ember |
| FireGraph.StepCompose | py/wildfire_sim/incinerate.py:146-222 | across a whole step: empty stays empty, burnt stays burnt, burning stays burning or burns out, only not_burnt can ignite, and a burning node loses exactly one life |
| FireGraph.StepEdgesCompose | py/wildfire_sim/incinerate.py:146-222 | across a whole step every edge keeps its endpoints, weight and strength, and every edge touching a burnt node ends brown |
| FireGraph.Forest.Incinerate | py/wildfire_sim/incinerate.py:146-222 | the graph afterwards is exactly StepState (spread, then decay); every node moves along a legal transition, a burning node loses exactly one life, positions and thresholds are kept, every count is correct, edge endpoints, weight and strength are kept, and every edge touching a burnt node is brown |
| FireGraph.WindScale | py/wildfire_sim/incinerate.py:242-244 | a semi-axis of at least 1 scales to a positive length |
| FireGraph.ChooseFocus | py/wildfire_sim/incinerate.py:253-262 | the focus is always a non-empty node: centre + offset when that is a non-empty node, the centre otherwise |
| FireGraph.BlowEdge | py/wildfire_sim/incinerate.py:266-282 | an edge not wholly inside the ellipse is unchanged; an edge inside gets strength 1 and a weight of at least 0.01 in hundredths, its direction follows the focus rule, and only weight, direction and strength change |
| FireGraph.CentreEdgeBlown | py/wildfire_sim/incinerate.py:246-282 | an edge from the centre to a node in the ellipse is always reinforced |
| FireGraph.BlowOne | py/wildfire_sim/incinerate.py:266-282 | reweighting one edge gives its blown form |
| FireGraph.BlowAll | py/wildfire_sim/incinerate.py:266-282 | the edge loop blows every edge |
| FireGraph.WindCentre | py/wildfire_sim/incinerate.py:227-231 | there is no centre exactly when no node is non-empty; a centre is a non-empty node |
| FireGraph.WindFocus | py/wildfire_sim/incinerate.py:253-262 | the drawn focus is a non-empty node |
| FireGraph.WindWithoutCentre | py/wildfire_sim/incinerate.py:227-229 | without a non-empty node the wind event has no centre and leaves the edges as they are |
| FireGraph.BlowListAt | py/wildfire_sim/incinerate.py:266-282 | edge k of the blown list is edge k blown |
| FireGraph.BlownIsBlowList | py/wildfire_sim/incinerate.py:266-282 | an edge list in which every edge is the blown form of the old one is the blown list |
| FireGraph.WindEdgesIsBlowList | py/wildfire_sim/incinerate.py:224-282 | with the drawn centre and the drawn semi-axes, the wind event's edges are the blown list around that centre, with the semi-axes' scales, the orientation a > b and the WindFocus focus |
| FireGraph.BlownIsWindEdges | py/wildfire_sim/incinerate.py:224-282 | edges blown around the drawn centre with the drawn semi-axes and focus are exactly WindEdges |
| FireGraph.Forest.CollectWindZone | py/wildfire_sim/incinerate.py:246-251 | the zone holds exactly the non-empty nodes inside the ellipse |
| FireGraph.Forest.BlowEdges | py/wildfire_sim/incinerate.py:266-282 | the edges become their blown forms; the nodes do not change |
| FireGraph.Forest.BlowEllipse | py/wildfire_sim/incinerate.py:242-282 | with a non-empty centre and semi-axes of at least 1, every edge is blown around the centre with the semi-axes' scales and the WindFocus focus; the nodes and colours do not change |
| FireGraph.Forest.BlowAround | py/wildfire_sim/incinerate.py:231-284 | with some non-empty node: the centre is WindCentre and its position returned, (a, b) is SemiAxes, and the edges are blown and equal WindEdges |
| FireGraph.Forest.SimulateWind | py/wildfire_sim/incinerate.py:224-284 | no centre, a = b = 0 and no change exactly when no node is non-empty; otherwise the centre is the drawn non-empty node WindCentre and its position is returned, (a, b) is SemiAxes of the draws, and every edge is blown around that centre with the WindFocus focus; either way the edges equal WindEdges; the nodes and colours do not change |
| Domain.SeqMax | py/wildfire_sim/incinerate.py:355 | the maximum is an element of the list, and no element exceeds it |
| Domain.SeqMin | py/wildfire_sim/incinerate.py:356 | the minimum is an element of the list, and no element is below it |
| Domain.NodesCount | py/wildfire_sim/incinerate.py:347-351 | the row count is capped at 2500 and never exceeds the table's rows |
| Domain.ElevationRange | py/wildfire_sim/incinerate.py:353-356 | min ≤ max, the elevation of every used row lies between them, and with at least one row both the minimum and the maximum are some row's elevation |
| Domain.ElevationAttained | py/wildfire_sim/incinerate.py:355-356 | a value among the rows' elevations is some row's elevation |
| Domain.BuiltNode | py/wildfire_sim/incinerate.py:393-422 | a new node sits at its grid position with no active neighbours and a life in 3..7; it is empty exactly when it lies outside the forest shape or its density draw exceeds 0.95; empty nodes are black with threshold 1.0, occupied ones green with the terrain threshold |
| Domain.MakeNode | py/wildfire_sim/incinerate.py:393-422 | one iteration of the build loop makes that node and its colour |
| Domain.BuildColumn | py/wildfire_sim/incinerate.py:372-424 | one column of the build; a missing column is reported exactly when the first node needs a Slope or Aspect that is not there, and otherwise the nodes up to min(count, i·50) are built in id order |
| Domain.BuildNodes | py/wildfire_sim/incinerate.py:365-426 | the build fails exactly when a node is to be built and Slope or Aspect is missing (the first missing column is named); otherwise it makes exactly nodes_count nodes, node m being the node built from row m with id m+1, and a parallel colours list |
| Domain.BuildEdgePairs | py/wildfire_sim/incinerate.py:428-435 | the pairs are exactly the a < b of non-empty nodes closer than the proximity, in lexicographic order |
| Domain.PairsFrom | py/wildfire_sim/incinerate.py:431-435 | the inner loop adds exactly the close pairs whose first node is a, keeping the order |
| Domain.BuiltEdge | py/wildfire_sim/incinerate.py:437-442 | a new edge is green with strength 0, a weight of at least 0.02 and the get_angle direction; its life is the floor of its endpoints' mean life |
| Domain.EdgeLifeInRange | py/wildfire_sim/incinerate.py:441 | the floor of the mean of two lives in 3..7 is in 3..7 |
| Domain.AttachEdges | py/wildfire_sim/incinerate.py:437-442 | edge k carries the attributes built for pair k |
| Domain.BuiltEdgesWellFormed | py/wildfire_sim/incinerate.py:428-442 | the built edges join two distinct non-empty nodes, appear at most once each, and have lives in 3..7 |
| Domain.BuiltEdgesJoinClosePairs | py/wildfire_sim/incinerate.py:428-442 | every edge joins a close pair with its built attributes, and every close pair is joined by an edge |
| Domain.SelectIgnition | py/wildfire_sim/incinerate.py:444-458 | the choice fails with "No nodes available to ignite" exactly when no node is not_burnt; otherwise it is a not_burnt node, and a valid fixed setting is used as given |
| Domain.EmptyPool | py/wildfire_sim/incinerate.py:444-447 | an empty list of not_burnt ids means that no node is not_burnt |
| Domain.StateToInt | py/wildfire_sim/incinerate.py:45-50 | state codes lie in 0..3, and 0 means empty |
| Domain.DrawForestSnapshot | py/wildfire_sim/incinerate.py:290-303 | the image is g × g, and each cell holds the state code of the node mapped there, or 0 |
| Domain.SnapshotShowsEveryNode | py/wildfire_sim/incinerate.py:294-301 | with at most g² nodes, every node lands inside the image with its own state code, so the out-of-bounds branch is never taken |
| Domain.BuildGraph | py/wildfire_sim/incinerate.py:365-442 | the graph build fails exactly on the missing-column case; otherwise nodes, edges and colours are consistent and are exactly the built nodes and the edges joining close pairs |
| Domain.BuildForest | py/wildfire_sim/incinerate.py:365-442 | the same for a freshly allocated forest object |
| Domain.IgniteCountsOne | py/wildfire_sim/incinerate.py:455-458 | igniting a non-burning node raises the burning count by exactly one |
| Domain.SetIgnition | py/wildfire_sim/incinerate.py:455-458 | the ignition changes only the chosen node, to burning and orange, and leaves exactly one node burning |
| Domain.BuiltNodeStates | py/wildfire_sim/incinerate.py:444-447 | no built node burns, and no node is not_burnt exactly when no row yields an occupied node |
| Domain.RunTimesteps | py/wildfire_sim/incinerate.py:468-489 | the final timestep is at most 100 and the frame count is one more; burningAt[j] is the burning count of the run's graph StateAt at timestep j; one node burns at frame 0, something burns at every frame before the last, and a run that stops early stops at a frame > 0 with nothing burning; the forest ends as StateAt at the final timestep, or at 101 when the last frame still burns |
| Domain.RunCountsAt | py/wildfire_sim/incinerate.py:468-475 | the recorded counts are the run's counts exactly when each entry j is the burning count of StateAt at timestep j |
| Domain.RunCountsSnoc | py/wildfire_sim/incinerate.py:468-475 | appending the burning count of the next timestep's graph extends the record |
| Domain.StateAtNext | py/wildfire_sim/incinerate.py:484-489 | the run's graph at timestep i + 1 is the step of its graph at i, followed after timestep 0 by WindEdges of the stepped graph |
| Domain.RunTimestep | py/wildfire_sim/incinerate.py:468-489 | one timestep returns the burning count of StateAt at i, stops exactly when it is 0 and i > 0, and otherwise leaves the forest at StateAt i + 1 |
| Domain.AdvanceForest | py/wildfire_sim/incinerate.py:484-489 | the step and the wind event take the forest from the run's graph at timestep i to its graph at i + 1 |
| Domain.StartFire | py/wildfire_sim/incinerate.py:444-499 | fails with "No nodes available to ignite" exactly when no node is not_burnt; otherwise the run has the timestep bounds above, and its burning counts are those of the run from the graph with the SelectIgnition node ignited |
| Domain.BuildAndRun | py/wildfire_sim/incinerate.py:365-499 | the missing-column and no-ignitable failures happen exactly in their cases; a success reports grid size 50, a run within the timestep bounds, and burning counts that are those of the run from some built graph (GraphBuilt) with its SelectIgnition node ignited |
| Domain.RunWildfireSimulation | py/wildfire_sim/incinerate.py:312-499 | each failure (file missing, unreadable, invalid shape, no Elevation column, missing column, nothing to ignite) is returned with its message exactly in its case; a success reports grid size 50, final timestep ≤ 100 and final + 1 frames, and burning counts that are those of the run from the built, ignited graph |
| Automaton.Equals | py/wildfire_sim/sca.py:81 | the mask is true exactly on the cells equal to the value |
| Automaton.BurningIndicator | py/wildfire_sim/sca.py:84 | the indicator grid is 1 exactly on burning cells and 0 elsewhere |
| Automaton.Convolve2dSame | py/wildfire_sim/sca.py:85 | the convolution keeps the grid's shape, and each cell is the kernel sum over its zero-filled 3 x 3 neighbourhood |
| Automaton.AssignWhere | py/wildfire_sim/sca.py:95-96 | the masked assignment sets exactly the masked cells and keeps the rest |
| Automaton.NeighbourIgnition | py/wildfire_sim/sca.py:92 | a cell ignites from a neighbour exactly when it is forest, has a burning neighbour and its draw is below p_ignite |
| Automaton.SpontaneousIgnition | py/wildfire_sim/sca.py:93 | a cell ignites spontaneously exactly when it is forest, has no burning neighbour and its draw is below p_spontaneous |
| Automaton.CaStep | py/wildfire_sim/sca.py:77-98 | the step keeps the grid's shape |
| Automaton.CaStepCell | py/wildfire_sim/sca.py:77-98 | each new cell depends only on its own old value, the old grid's neighbourhood and its own draws; the input grid is only read |
| Automaton.CaStepTransitions | py/wildfire_sim/sca.py:80-96 | burning becomes burnt; no_forest and burnt are kept; forest stays forest or ignites; a cell burns afterwards exactly when it was forest and changed |
| Automaton.IgnitionMasksDisjoint | sca_geotiff.py:119-130 | no cell ignites both from a neighbour and spontaneously |
| Automaton.CaStepExtremes | py/wildfire_sim/sca.py:92-93 | with p_ignite = 1 every forest cell with a burning neighbour ignites; with p_spontaneous = 0 no forest cell without one ignites |
| Automaton.KernelSumCounts | sca_geotiff.py:98-106 | the convolution at a cell counts its burning in-bounds Moore neighbours, the centre excluded, so it is at most 8 |
| Automaton.NeighbourCountIsMooreCount | py/wildfire_sim/sca.py:83-87 | the neighbour count equals the number of burning Moore neighbours, lies in 0..8, and is positive exactly when a burning Moore neighbour exists |
| Automaton.BurningNeighboursAreMoore | py/wildfire_sim/sca.py:83-85 | the counted cells are exactly the burning in-bounds Moore neighbours |
| Automaton.OneHopSpread | py/wildfire_sim/sca.py:92-96 | with p_spontaneous = 0, a cell burning after a step was forest and had a burning Moore neighbour |
| RasterRun.CastUint8 | py/wildfire_sim/sca.py:140 | the uint8 cast keeps the shape and reduces every cell modulo 256 |
| RasterRun.CastUint8OfBytes | py/wildfire_sim/sca.py:64 | casting a grid of bytes changes nothing |
| RasterRun.CaStepKeepsBytes | py/wildfire_sim/sca.py:77-98 | a step of a byte grid is a byte grid |
| RasterRun.CountCellsZero | py/wildfire_sim/sca.py:194 | the count of cells with a value is zero exactly when no cell has it |
| RasterRun.CellsWith | sca_geotiff.py:169 | the listed cells are exactly the cells holding the value, in strictly increasing row-major order, and there are CountCells of them |
| RasterRun.CropWindow | py/wildfire_sim/sca.py:176-181 | the window lies within the raster, contains the ignition pixel, and is non-empty with height and width at most 2·CROP_BUFFER |
| RasterRun.CropGrid | py/wildfire_sim/sca.py:54-55 | the slice has exactly the window's size, and cell (r, c) is the raster's cell (row_off + r, col_off + c) |
| RasterRun.WindowTransformKeepsPlaces | py/wildfire_sim/sca.py:53 | the cropped transform maps a window pixel to where the original maps the corresponding raster pixel |
| RasterRun.SavedData | py/wildfire_sim/sca.py:52-64 | the saved data is bytes, sized as the crop window, or as the raster when there is no crop |
| RasterRun.SavedProfile | py/wildfire_sim/sca.py:52-69 | the saved metadata is uint8, one band, lzw, with the window's transform and size, or the original's when there is no crop |
| RasterRun.SavedSizeMatches | py/wildfire_sim/sca.py:52-69 | the metadata's height and width agree with the saved data |
| RasterRun.SaveRaster | py/wildfire_sim/sca.py:49-75 | the write saves that data, and the metadata object is updated to that metadata |
| RasterRun.DrawField | py/wildfire_sim/sca.py:89-90 | a per-cell draw field has the grid's shape |
| RasterRun.StateAt | py/wildfire_sim/sca.py:189-200 | the state after t steps has the start's shape |
| RasterRun.StepAndSave | py/wildfire_sim/sca.py:192-200 | one loop iteration either stops with the finished frames or saves frame t and continues |
| RasterRun.RunSteps | py/wildfire_sim/sca.py:186-200 | the run writes frames 0..last of the stepped states, with last ≤ 20, something burning before last, and, when last < 20, nothing burning at last |
| RasterRun.Ignite | py/wildfire_sim/sca.py:185 | only the start pixel changes, to burning |
| RasterRun.IgniteAndRun | py/wildfire_sim/sca.py:173-200 | the run goes from the ignited grid with the clamped crop window and writes the run's frames |
| RasterRun.RunGeotiffSimulation | py/wildfire_sim/sca.py:120-205 | a missing directory, file or read fails with no effect; an out-of-bounds or non-forest pixel fails before any output directory exists; otherwise the output directory is made and the frames of the run are written |
| RasterRun.StartPixel | sca_geotiff.py:165-198 | random mode finds no pixel exactly when no cell is forest; a user_set pixel is used exactly when it is in bounds and forest; unknown modes find none; any pixel found is an in-bounds forest cell |
| RasterRun.GeotiffScript | sca_geotiff.py:139-258 | a read error stops with no effect; every later failure (bounds, not forest, no forest cells, unknown mode) stops after the directory is made and writes no raster; otherwise the frames of the run from the start pixel are written |

## Left out

- File and library I/O is left out. This covers CSV reading, GeoTIFF reading and writing with LZW compression, PNG rendering and the matplotlib colour map, and logging. The loaded table and raster are inputs, and a write is an `Effect` value.
- The Earth Engine services, the Flask and Socket.IO routes, the shared state dictionary, the path configuration and the interactive viewer are left out. They are network services, request plumbing or a UI. `create_forest.py` is not part of this model; its forest-shape predicate is an input function.
- The point_in_forest exception branch is left out: the predicate is total, so its "inside on error" default never arises.
- Floating point is left out. Reals are exact.
- Terrain.Round2 rounds halves upward. Python's `round` rounds binary floats half-to-even.
- The transcendental functions and `window_transform` are uninterpreted. Only the collaborator facts that a square root is non-negative and ln(x) ≥ 0 for x ≥ 1 are assumed, through `WellBehaved`.
- Terrain.NodeThreshold: only the rounding to hundredths is stated, because the formula goes through uninterpreted tan, ln and atan.
- Terrain.GetAngle: only the vertical case is stated, for the same reason.
- The random generator is not modelled. Draws are oracle arguments indexed by where they are taken.
  - The ranges of the noise draws (0.6..1.6 and 0.6..1.4) are not enforced.
  - FireGraph.PressureIsClampedSum assumes non-negative weights and noise.
- Wind.DrawSemiAxes and FireGraph.Forest.SimulateWind require an oracle round whose two draws differ. Without one, the source's redraw loop does not terminate.
- The pressure sum runs over the edge list rather than `g.neighbors(nb)`. The clamped sum of non-negative terms does not depend on the order (FireGraph.PressureIsClampedSum).
- simulate_wind's pair loop over ellipse nodes becomes a loop over the edge list. An edge is reweighted exactly when both endpoints lie in the ellipse. This is the same set of edges, each once, because edges are stored with u < v.
- The ember pass takes one draw record per burning node: spark, fallback, pick and landing. The source consumes its generator only along the branch taken; with indexed oracles the outcome is the same.
- The edge attributes `wind_speed` and `eb` are left out, as are the extra metadata keys of a raster profile (CRS, nodata). They are written once and never read by the core.
- The "Error processing elevation data" branch is left out. So is the NaN elevation range of an empty table: with zero rows no node is built.
- The `ValueError` of `int(IGNITION_POINT)` for a non-numeric setting is left out; a fixed setting is an integer.
- The returned message string, the output directory path and its timestamped name are left out. A success carries the grid size, the final timestep and the frame count.
- The file search by county pattern and `src.index` are inputs of RasterRun.RunGeotiffSimulation. These are the load outcome and the pixel.
- Integer widths are left out, apart from the uint8 cast, which is written out as modulo 256.
- Each loop of the `Forest` methods runs on value copies of the node, edge and colour lists, and the method assigns its fields once. No aliasing is lost: the loops only read and write the graph.
