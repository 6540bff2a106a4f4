/**
 * The graph engine's driver: building the forest graph from the terrain
 * table, choosing the ignition node, rendering a snapshot raster and the
 * timestep loop of run_wildfire_simulation.
 */
module Domain {
  import opened Wrappers
  import opened GridIndex
  import opened Draws
  import opened Terrain
  import opened Wind
  import opened FireGraph

  // ---------------------------------------------------------------------
  // Configuration
  // ---------------------------------------------------------------------

  /** NODES: the number of nodes asked for, 50 * 50. */
  const RequestedNodes: nat := 2500
  /** int(ceil(sqrt(NODES))). */
  const GridSide: nat := 50
  const DensityFactor: real := 0.95
  const MaxWindSpeed: real := 40.0
  const PpFactor: real := 2.0
  const BuildEpsilon: real := 0.1
  const WindEpsilon: real := 0.1
  const BuildDistScale: real := 30.0
  const Timesteps: nat := 100

  /** The system scale: 100 / grid side. */
  const CellSide: real := 100.0 / 50.0
  /** Two nodes closer than this (1.42 cells) are joined. */
  const Proximity: real := 1.42 * CellSide

  /** The configured grid side is the ceiling of the square root of NODES. */
  lemma GridSideIsCeilSqrt()
    ensures CeilSqrt(RequestedNodes) == GridSide
  {
    CeilSqrtUnique(RequestedNodes, GridSide);
  }

  // ---------------------------------------------------------------------
  // The terrain table
  // ---------------------------------------------------------------------

  datatype Row = Row(slope: real, elevation: real, aspect: real)

  /** The loaded table: which of the three columns it has, and its rows. */
  datatype Table = Table(hasSlope: bool, hasElevation: bool, hasAspect: bool, rows: seq<Row>)

  /** The outcome of reading the CSV file. */
  datatype CsvLoad = Loaded(table: Table) | FileMissing | Unreadable

  /** The largest of a non-empty sequence of reals. */
  function SeqMax(xs: seq<real>): (m: real)
    requires |xs| > 0
    ensures m in xs && forall x :: x in xs ==> x <= m
  {
    if |xs| == 1 then xs[0]
    else
      var rest := SeqMax(xs[1..]);
      assert forall x :: x in xs ==> x == xs[0] || x in xs[1..];
      Max(xs[0], rest)
  }

  /** The smallest of a non-empty sequence of reals. */
  function SeqMin(xs: seq<real>): (m: real)
    requires |xs| > 0
    ensures m in xs && forall x :: x in xs ==> m <= x
  {
    if |xs| == 1 then xs[0]
    else
      var rest := SeqMin(xs[1..]);
      assert forall x :: x in xs ==> x == xs[0] || x in xs[1..];
      Min(xs[0], rest)
  }

  function Elevations(rows: seq<Row>): (es: seq<real>)
    ensures |es| == |rows| && forall i :: 0 <= i < |rows| ==> es[i] == rows[i].elevation
  {
    seq(|rows|, i requires 0 <= i < |rows| => rows[i].elevation)
  }

  /** The number of nodes built: NODES, or the table's row count when it
      has fewer rows. */
  function NodesCount(t: Table): (n: nat)
    ensures n <= |t.rows| && n <= RequestedNodes
    ensures n == RequestedNodes || n == |t.rows|
  {
    if |t.rows| < RequestedNodes then |t.rows| else RequestedNodes
  }

  // ---------------------------------------------------------------------
  // Building the nodes
  // ---------------------------------------------------------------------

  /** The draws of the domain build: the density draw and life draw of node
      k, and the uniform draw of the weight of the edge (n1, n2). */
  datatype BuildDraws = BuildDraws(
    density: nat -> real,
    life: nat -> nat,
    weight: (nat, nat) -> real)

  /** The position of node k: its column and row, counted from 1, times
      the cell side. */
  function NodePosition(k: nat): (real, real)
  {
    var rc := NodeIdToGrid(k, GridSide);
    ((rc.1 + 1) as real * CellSide, (rc.0 + 1) as real * CellSide)
  }

  /** Whether a position is inside the forest shape; with no shape every
      position is. */
  predicate InsideForest(pif: Option<((real, real)) -> bool>, p: (real, real))
  {
    pif.None? || pif.value(p)
  }

  /** Node k as the build makes it from table row k - 1: empty when outside
      the forest shape or when the density draw exceeds DENSITY_FACTOR,
      otherwise not burnt with its terrain threshold. */
  function BuiltNode(num: Numerics, row: Row, k: nat, eleMin: real, eleMax: real,
                     pif: Option<((real, real)) -> bool>, d: BuildDraws): (n: Node)
    requires WellBehaved(num)
    ensures n.pos == NodePosition(k) && n.activeNeighbors == 0 && 3 <= n.life <= 7
    ensures n.state == Empty || n.state == NotBurnt
    ensures n.state == Empty <==> !InsideForest(pif, NodePosition(k)) || d.density(k) > DensityFactor
    ensures n.state == Empty ==> n.color == Black && n.threshold == 1.0
    ensures n.state == NotBurnt ==>
              n.color == Green && IsHundredths(n.threshold) &&
              n.threshold == NodeThreshold(num, row.slope, row.elevation, eleMin, eleMax, row.aspect)
  {
    var theta := NodeThreshold(num, row.slope, row.elevation, eleMin, eleMax, row.aspect);
    var lf := RandInt(3, 7, d.life(k));
    var pos := NodePosition(k);
    if !InsideForest(pif, pos) || d.density(k) > DensityFactor then Node(Empty, 1.0, Black, 0, lf, pos)
    else Node(NotBurnt, theta, Green, 0, lf, pos)
  }

  /** The body of the node loop for column i, row j and id k. */
  method MakeNode(num: Numerics, row: Row, i: nat, j: nat, k: nat, eleMin: real, eleMax: real,
                  pif: Option<((real, real)) -> bool>, d: BuildDraws)
    returns (node: Node, color: Color)
    requires WellBehaved(num)
    requires 1 <= i <= GridSide && 1 <= j <= GridSide && k == (i - 1) * GridSide + j
    ensures node == BuiltNode(num, row, k, eleMin, eleMax, pif, d) && color == node.color
  {
    var theta := NodeThreshold(num, row.slope, row.elevation, eleMin, eleMax, row.aspect);
    var lf := RandInt(3, 7, d.life(k));
    var pos := (i as real * CellSide, j as real * CellSide);
    BuildOrderMatches(i, j, GridSide);
    assert pos == NodePosition(k);
    if !InsideForest(pif, pos) {
      node, color := Node(Empty, 1.0, Black, 0, lf, pos), Black;
    } else if d.density(k) > DensityFactor {
      node, color := Node(Empty, 1.0, Black, 0, lf, pos), Black;
    } else {
      node, color := Node(NotBurnt, theta, Green, 0, lf, pos), Green;
    }
  }

  function MissingColumn(name: string): string
  {
    "CSV missing required column: '" + name + "'."
  }

  /** nodes and colors hold the first |nodes| built nodes and their colours. */
  ghost predicate Built(num: Numerics, t: Table, eleMin: real, eleMax: real,
                        pif: Option<((real, real)) -> bool>, d: BuildDraws,
                        nodes: seq<Node>, colors: seq<Color>)
    requires WellBehaved(num)
  {
    |colors| == |nodes| && |nodes| <= |t.rows| &&
    forall m :: 0 <= m < |nodes| ==>
      nodes[m] == BuiltNode(num, t.rows[m], m + 1, eleMin, eleMax, pif, d) && colors[m] == nodes[m].color
  }

  lemma BuiltSnoc(num: Numerics, t: Table, eleMin: real, eleMax: real,
                  pif: Option<((real, real)) -> bool>, d: BuildDraws,
                  nodes: seq<Node>, colors: seq<Color>, k: nat, node: Node, color: Color)
    requires WellBehaved(num) && Built(num, t, eleMin, eleMax, pif, d, nodes, colors) && |nodes| == k - 1 && k <= |t.rows|
    requires node == BuiltNode(num, t.rows[k - 1], k, eleMin, eleMax, pif, d) && color == node.color
    ensures Built(num, t, eleMin, eleMax, pif, d, nodes + [node], colors + [color])
  {
  }

  /** The inner loop of the build for column i: rows j = 1..GridSide while
      ids remain. It stops at the first node when a column is missing. */
  method BuildColumn(num: Numerics, t: Table, nodesCount: nat, eleMin: real, eleMax: real,
                     pif: Option<((real, real)) -> bool>, d: BuildDraws,
                     i: nat, nodes0: seq<Node>, colors0: seq<Color>)
    returns (nodes: seq<Node>, colors: seq<Color>, missing: bool)
    requires WellBehaved(num) && nodesCount <= |t.rows|
    requires 1 <= i <= GridSide && |nodes0| == (i - 1) * GridSide && |nodes0| < nodesCount
    requires Built(num, t, eleMin, eleMax, pif, d, nodes0, colors0)
    requires |nodes0| > 0 ==> t.hasSlope && t.hasAspect
    ensures missing <==> |nodes0| == 0 && (!t.hasSlope || !t.hasAspect)
    ensures !missing ==> Built(num, t, eleMin, eleMax, pif, d, nodes, colors)
    ensures !missing ==> |nodes| == if nodesCount < i * GridSide then nodesCount else i * GridSide
  {
    nodes, colors, missing := nodes0, colors0, false;
    var k := |nodes0| + 1;
    var j := 1;
    while j <= GridSide
      invariant 1 <= j <= GridSide + 1
      invariant k <= nodesCount + 1 && |nodes| == k - 1 && k == (i - 1) * GridSide + j
      invariant k > |nodes0| + 1 ==> t.hasSlope && t.hasAspect
      invariant Built(num, t, eleMin, eleMax, pif, d, nodes, colors)
    {
      if k > nodesCount {
        break;
      }
      if !t.hasSlope || !t.hasAspect {
        return nodes, colors, true;
      }
      var node, color := MakeNode(num, t.rows[k - 1], i, j, k, eleMin, eleMax, pif, d);
      BuiltSnoc(num, t, eleMin, eleMax, pif, d, nodes, colors, k, node, color);
      colors := colors + [color];
      nodes := nodes + [node];
      k := k + 1;
      j := j + 1;
    }
  }

  /** The node loop of the build: columns i, rows j, both from 1, with the
      counter k running over ids 1..nodesCount. A table without the Slope or
      Aspect column fails at the first node. */
  method BuildNodes(num: Numerics, t: Table, nodesCount: nat, eleMin: real, eleMax: real,
                    pif: Option<((real, real)) -> bool>, d: BuildDraws)
    returns (r: Result<(seq<Node>, seq<Color>), string>)
    requires WellBehaved(num) && t.hasElevation
    requires nodesCount <= |t.rows| && nodesCount <= GridSide * GridSide
    ensures r.Err? <==> nodesCount > 0 && (!t.hasSlope || !t.hasAspect)
    ensures r.Err? ==> r.error == MissingColumn(if !t.hasSlope then "Slope" else "Aspect")
    ensures r.Ok? ==> |r.value.0| == nodesCount && |r.value.1| == nodesCount
    ensures r.Ok? ==> forall m :: 0 <= m < nodesCount ==>
              r.value.0[m] == BuiltNode(num, t.rows[m], m + 1, eleMin, eleMax, pif, d) &&
              r.value.1[m] == r.value.0[m].color
  {
    var nodes: seq<Node> := [];
    var colors: seq<Color> := [];
    var i := 1;
    while i <= GridSide && |nodes| < nodesCount
      invariant 1 <= i <= GridSide + 1
      invariant |nodes| == nodesCount || |nodes| == (i - 1) * GridSide
      invariant |nodes| <= nodesCount
      invariant |nodes| > 0 ==> t.hasSlope && t.hasAspect
      invariant Built(num, t, eleMin, eleMax, pif, d, nodes, colors)
    {
      var missing;
      nodes, colors, missing := BuildColumn(num, t, nodesCount, eleMin, eleMax, pif, d, i, nodes, colors);
      if missing {
        return Err(MissingColumn(if !t.hasSlope then "Slope" else "Aspect"));
      }
      i := i + 1;
    }
    r := Ok((nodes, colors));
  }

  // ---------------------------------------------------------------------
  // Building the edges
  // ---------------------------------------------------------------------

  /** Whether the build joins nodes a and b: both are not empty and they are
      closer than the proximity. */
  predicate Close(num: Numerics, nodes: seq<Node>, a: nat, b: nat)
    requires IsNodeId(nodes, a) && IsNodeId(nodes, b)
  {
    Dist(num, nodes[a - 1].pos, nodes[b - 1].pos, 1.0) < Proximity &&
    nodes[a - 1].state != Empty && nodes[b - 1].state != Empty
  }

  /** Whether pair p comes before pair q in the order the pair loop visits them. */
  predicate PairBefore(p: (nat, nat), q: (nat, nat))
  {
    p.0 < q.0 || (p.0 == q.0 && p.1 < q.1)
  }

  /** The edge_list loop: every pair of distinct ids, smaller first, that the
      build joins, in loop order. */
  method BuildEdgePairs(num: Numerics, nodes: seq<Node>) returns (pairs: seq<(nat, nat)>)
    ensures forall p: (nat, nat) :: p in pairs <==> 1 <= p.0 < p.1 <= |nodes| && Close(num, nodes, p.0, p.1)
    ensures forall k1, k2 :: 0 <= k1 < k2 < |pairs| ==> PairBefore(pairs[k1], pairs[k2])
  {
    pairs := [];
    var a := 1;
    while a <= |nodes|
      invariant 1 <= a <= |nodes| + 1 || |nodes| == 0
      invariant forall p: (nat, nat) :: p in pairs <==> 1 <= p.0 < p.1 <= |nodes| && p.0 < a && Close(num, nodes, p.0, p.1)
      invariant forall k1, k2 :: 0 <= k1 < k2 < |pairs| ==> PairBefore(pairs[k1], pairs[k2])
      invariant forall k :: 0 <= k < |pairs| ==> pairs[k].0 < a
    {
      pairs := PairsFrom(num, nodes, a, pairs);
      a := a + 1;
    }
  }

  /** pairs is what the pair loop has collected before it reaches (a, b):
      the joined pairs visited so far, in visiting order. */
  ghost predicate PairsBefore(num: Numerics, nodes: seq<Node>, pairs: seq<(nat, nat)>, a: nat, b: nat)
  {
    (forall p: (nat, nat) :: p in pairs <==>
       1 <= p.0 < p.1 <= |nodes| && (p.0 < a || (p.0 == a && p.1 < b)) && Close(num, nodes, p.0, p.1)) &&
    (forall k1, k2 :: 0 <= k1 < k2 < |pairs| ==> PairBefore(pairs[k1], pairs[k2])) &&
    (forall k :: 0 <= k < |pairs| ==> PairBefore(pairs[k], (a, b)))
  }

  /** Visiting a pair the build joins appends it. */
  lemma PairsJoinStep(num: Numerics, nodes: seq<Node>, pairs: seq<(nat, nat)>, a: nat, b: nat)
    requires 1 <= a < b <= |nodes| && PairsBefore(num, nodes, pairs, a, b) && Close(num, nodes, a, b)
    ensures PairsBefore(num, nodes, pairs + [(a, b)], a, b + 1)
  {
  }

  /** Visiting a pair the build does not join changes nothing. */
  lemma PairsSkipStep(num: Numerics, nodes: seq<Node>, pairs: seq<(nat, nat)>, a: nat, b: nat)
    requires 1 <= a < b <= |nodes| && PairsBefore(num, nodes, pairs, a, b) && !Close(num, nodes, a, b)
    ensures PairsBefore(num, nodes, pairs, a, b + 1)
  {
  }

  /** The inner loop of edge_list for node a: the pairs (a, b), b > a, that
      the build joins, appended in order of b. */
  method PairsFrom(num: Numerics, nodes: seq<Node>, a: nat, pairs0: seq<(nat, nat)>) returns (pairs: seq<(nat, nat)>)
    requires 1 <= a <= |nodes|
    requires forall p: (nat, nat) :: p in pairs0 <==> 1 <= p.0 < p.1 <= |nodes| && p.0 < a && Close(num, nodes, p.0, p.1)
    requires forall k1, k2 :: 0 <= k1 < k2 < |pairs0| ==> PairBefore(pairs0[k1], pairs0[k2])
    requires forall k :: 0 <= k < |pairs0| ==> pairs0[k].0 < a
    ensures forall p: (nat, nat) :: p in pairs <==> 1 <= p.0 < p.1 <= |nodes| && p.0 <= a && Close(num, nodes, p.0, p.1)
    ensures forall k1, k2 :: 0 <= k1 < k2 < |pairs| ==> PairBefore(pairs[k1], pairs[k2])
    ensures forall k :: 0 <= k < |pairs| ==> pairs[k].0 <= a
  {
    pairs := pairs0;
    var b := a + 1;
    while b <= |nodes|
      invariant a + 1 <= b <= |nodes| + 1
      invariant PairsBefore(num, nodes, pairs, a, b)
    {
      if Close(num, nodes, a, b) {
        PairsJoinStep(num, nodes, pairs, a, b);
        pairs := pairs + [(a, b)];
      } else {
        PairsSkipStep(num, nodes, pairs, a, b);
      }
      b := b + 1;
    }
  }

  /** The edge the build puts between the nodes of pair p: weight twice the
      calm-air edge weight along the pair's bearing, green, strength 0, and
      the floor of the mean of its endpoints' lives. */
  function BuiltEdge(num: Numerics, nodes: seq<Node>, p: (nat, nat), d: BuildDraws): (e: Edge)
    requires IsNodeId(nodes, p.0) && IsNodeId(nodes, p.1)
    ensures e.u == p.0 && e.v == p.1 && e.color == Green && e.strength == 0
    ensures e.w >= 0.02
    ensures e.windDir == GetAngle(num, nodes[p.0 - 1].pos, nodes[p.1 - 1].pos)
    ensures e.life == ((nodes[p.0 - 1].life + nodes[p.1 - 1].life) as real / 2.0).Floor
  {
    var p1 := nodes[p.0 - 1].pos;
    var p2 := nodes[p.1 - 1].pos;
    var angle := GetAngle(num, p1, p2);
    var pp := EdgeWeight(num, MaxWindSpeed, BuildEpsilon, 0, angle, Dist(num, p1, p2, BuildDistScale), d.weight(p.0, p.1)) * PpFactor;
    var lf := ((nodes[p.0 - 1].life + nodes[p.1 - 1].life) as real / 2.0).Floor;
    Edge(p.0, p.1, pp, Green, lf, 0, angle)
  }

  /** The floor of the mean of two lives from [3, 7] is again in [3, 7]. */
  lemma EdgeLifeInRange(l1: int, l2: int)
    requires 3 <= l1 <= 7 && 3 <= l2 <= 7
    ensures 3 <= ((l1 + l2) as real / 2.0).Floor <= 7
  {
    var m := (l1 + l2) as real / 2.0;
    assert 3.0 <= m <= 7.0;
  }

  /** The attribute loop: one edge per pair, in pair order. */
  method AttachEdges(num: Numerics, nodes: seq<Node>, pairs: seq<(nat, nat)>, d: BuildDraws)
    returns (edges: seq<Edge>)
    requires forall k :: 0 <= k < |pairs| ==> IsNodeId(nodes, pairs[k].0) && IsNodeId(nodes, pairs[k].1)
    ensures |edges| == |pairs|
    ensures forall k :: 0 <= k < |pairs| ==> edges[k] == BuiltEdge(num, nodes, pairs[k], d)
  {
    edges := [];
    var k := 0;
    while k < |pairs|
      invariant 0 <= k <= |pairs| && |edges| == k
      invariant forall m :: 0 <= m < k ==> edges[m] == BuiltEdge(num, nodes, pairs[m], d)
    {
      var n1, n2 := pairs[k].0, pairs[k].1;
      var p1, p2 := nodes[n1 - 1].pos, nodes[n2 - 1].pos;
      var angle := GetAngle(num, p1, p2);
      var pp := EdgeWeight(num, MaxWindSpeed, BuildEpsilon, 0, angle, Dist(num, p1, p2, BuildDistScale), d.weight(n1, n2)) * PpFactor;
      var lf := ((nodes[n1 - 1].life + nodes[n2 - 1].life) as real / 2.0).Floor;
      edges := edges + [Edge(n1, n2, pp, Green, lf, 0, angle)];
      k := k + 1;
    }
  }

  /** The built edges satisfy the edge invariant of the forest graph, and
      every edge life is in [3, 7]. */
  lemma BuiltEdgesWellFormed(num: Numerics, nodes: seq<Node>, pairs: seq<(nat, nat)>,
                             edges: seq<Edge>, d: BuildDraws)
    requires forall k :: 0 <= k < |nodes| ==> 3 <= nodes[k].life <= 7
    requires forall p: (nat, nat) :: p in pairs <==> 1 <= p.0 < p.1 <= |nodes| && Close(num, nodes, p.0, p.1)
    requires forall k1, k2 :: 0 <= k1 < k2 < |pairs| ==> PairBefore(pairs[k1], pairs[k2])
    requires |edges| == |pairs|
    requires forall k :: 0 <= k < |pairs| ==>
               IsNodeId(nodes, pairs[k].0) && IsNodeId(nodes, pairs[k].1) &&
               edges[k] == BuiltEdge(num, nodes, pairs[k], d)
    ensures EdgesWellFormed(nodes, edges)
    ensures forall k :: 0 <= k < |edges| ==> 3 <= edges[k].life <= 7
  {
    forall k | 0 <= k < |edges|
      ensures 1 <= edges[k].u < edges[k].v <= |nodes|
      ensures nodes[edges[k].u - 1].state != Empty && nodes[edges[k].v - 1].state != Empty
      ensures 3 <= edges[k].life <= 7
    {
      assert pairs[k] in pairs;
      EdgeLifeInRange(nodes[pairs[k].0 - 1].life, nodes[pairs[k].1 - 1].life);
    }
  }

  // ---------------------------------------------------------------------
  // Ignition
  // ---------------------------------------------------------------------

  /** IGNITION_POINT: "random", or a node id. */
  datatype IgnitionSetting = RandomIgnition | FixedIgnition(id: int)

  const NoIgnitable: string := "No nodes available to ignite"

  /** The ignition node: a random not-burnt node, or the configured one; a
      configured id that is not a not-burnt node is replaced by a second
      random choice. Fails when no node is not burnt. */
  function SelectIgnition(nodes: seq<Node>, setting: IgnitionSetting, first: nat, second: nat)
    : (r: Result<nat, string>)
    ensures r.Err? <==> forall i :: 0 <= i < |nodes| ==> nodes[i].state != NotBurnt
    ensures r.Err? ==> r.error == NoIgnitable
    ensures r.Ok? ==> IsNodeId(nodes, r.value) && nodes[r.value - 1].state == NotBurnt
    ensures setting.FixedIgnition? && IsNodeId(nodes, setting.id) && nodes[setting.id - 1].state == NotBurnt ==>
              r == Ok(setting.id)
  {
    var pool := IdsWithState(nodes, NotBurnt);
    if |pool| == 0 then
      EmptyPool(nodes, NotBurnt);
      Err(NoIgnitable)
    else
      var chosen := if setting.RandomIgnition? then Choice(pool, first) else setting.id;
      var fallback := pool[second % |pool|];   // Choice(pool, second)
      Ok(if IsNodeId(nodes, chosen) && nodes[chosen - 1].state == NotBurnt then chosen else fallback)
  }

  /** An empty pool of ids in state s means no node is in state s. */
  lemma EmptyPool(nodes: seq<Node>, s: FireState)
    requires IdsWithState(nodes, s) == []
    ensures forall i :: 0 <= i < |nodes| ==> nodes[i].state != s
  {
  }

  // ---------------------------------------------------------------------
  // The snapshot raster
  // ---------------------------------------------------------------------

  /** STATE_TO_INT. */
  function StateToInt(s: FireState): (v: int)
    ensures 0 <= v <= 3
    ensures v == 0 <==> s == Empty
  {
    match s
    case Empty => 0
    case NotBurnt => 1
    case Burning => 2
    case Burnt => 3
  }

  /** The raster value of cell (row, col): the state of the node numbered
      there, or 0 where no node is. */
  function SnapshotValue(nodes: seq<Node>, g: nat, row: int, col: int): int
  {
    var id := GridToNodeId(row, col, g);
    if 1 <= id <= |nodes| then StateToInt(nodes[id - 1].state) else 0
  }

  /** The grid fill of draw_forest_snapshot: every node writes its state at
      its grid cell; nodes whose cell lies off the grid are skipped. */
  method DrawForestSnapshot(nodes: seq<Node>, g: nat) returns (img: array2<int>)
    requires g > 0
    ensures fresh(img) && img.Length0 == g && img.Length1 == g
    ensures forall r, c :: 0 <= r < g && 0 <= c < g ==> img[r, c] == SnapshotValue(nodes, g, r, c)
  {
    img := new int[g, g]((r, c) => 0);
    var k := 1;
    while k <= |nodes|
      invariant 1 <= k <= |nodes| + 1
      invariant forall r, c :: 0 <= r < g && 0 <= c < g ==>
                  img[r, c] == if GridToNodeId(r, c, g) < k then SnapshotValue(nodes, g, r, c) else 0
    {
      var rc := NodeIdToGrid(k, g);
      var row, col := rc.0, rc.1;
      if 0 <= row < g && 0 <= col < g {
        forall r, c | 0 <= r < g && 0 <= c < g && GridToNodeId(r, c, g) == k
          ensures (r, c) == (row, col)
        {
          GridRoundTrip(r, c, g);
        }
        img[row, col] := StateToInt(nodes[k - 1].state);
      } else {
        forall r, c | 0 <= r < g && 0 <= c < g
          ensures GridToNodeId(r, c, g) != k
        {
          GridRoundTrip(r, c, g);
        }
      }
      k := k + 1;
    }
  }

  /** With at most g * g nodes every node has its own cell on the raster, so
      the off-grid branch is never taken and every node's state shows. */
  lemma SnapshotShowsEveryNode(nodes: seq<Node>, g: nat, id: nat)
    requires g > 0 && |nodes| <= g * g && IsNodeId(nodes, id)
    ensures 0 <= NodeIdToGrid(id, g).1 < g
    ensures SnapshotValue(nodes, g, NodeIdToGrid(id, g).0, NodeIdToGrid(id, g).1) == StateToInt(nodes[id - 1].state)
  {
    NodeIdInGrid(id, g);
  }

  // ---------------------------------------------------------------------
  // The run
  // ---------------------------------------------------------------------

  /** The elevation range over the rows that become nodes (ele_min,
      ele_max); with no such rows the range is never used. */
  function ElevationRange(t: Table): (r: (real, real))
    ensures r.0 <= r.1
    ensures forall m :: 0 <= m < NodesCount(t) ==> r.0 <= t.rows[m].elevation <= r.1
    ensures NodesCount(t) > 0 ==>
              (exists m :: 0 <= m < NodesCount(t) && t.rows[m].elevation == r.0) &&
              (exists m :: 0 <= m < NodesCount(t) && t.rows[m].elevation == r.1)
  {
    var es := Elevations(t.rows[..NodesCount(t)]);
    if |es| == 0 then (0.0, 0.0)
    else
      assert forall m :: 0 <= m < NodesCount(t) ==> es[m] in es;
      ElevationAttained(t.rows[..NodesCount(t)], SeqMin(es));
      ElevationAttained(t.rows[..NodesCount(t)], SeqMax(es));
      (SeqMin(es), SeqMax(es))
  }

  /** An elevation in the list is the elevation of one of the rows. */
  lemma ElevationAttained(rows: seq<Row>, x: real)
    requires x in Elevations(rows)
    ensures exists m :: 0 <= m < |rows| && rows[m].elevation == x
  {
    var es := Elevations(rows);
    var m :| 0 <= m < |es| && es[m] == x;
    assert rows[m].elevation == x;
  }

  /** Node k of the graph the run builds from table t. */
  function RunNode(num: Numerics, t: Table, pif: Option<((real, real)) -> bool>, d: BuildDraws, m: nat): Node
    requires WellBehaved(num) && m < |t.rows|
  {
    var range := ElevationRange(t);
    BuiltNode(num, t.rows[m], m + 1, range.0, range.1, pif, d)
  }

  /** Every pair of the pair loop joins two close node ids. */
  lemma PairsAreNodes(num: Numerics, nodes: seq<Node>, pairs: seq<(nat, nat)>)
    requires forall p: (nat, nat) :: p in pairs <==> 1 <= p.0 < p.1 <= |nodes| && Close(num, nodes, p.0, p.1)
    ensures forall k :: 0 <= k < |pairs| ==>
              IsNodeId(nodes, pairs[k].0) && IsNodeId(nodes, pairs[k].1) && Close(num, nodes, pairs[k].0, pairs[k].1)
  {
    forall k | 0 <= k < |pairs|
      ensures IsNodeId(nodes, pairs[k].0) && IsNodeId(nodes, pairs[k].1) && Close(num, nodes, pairs[k].0, pairs[k].1)
    {
      assert pairs[k] in pairs;
    }
  }

  /** The built edges join exactly the close pairs: each edge is the built
      edge of its pair, and every close pair is joined. */
  lemma BuiltEdgesJoinClosePairs(num: Numerics, nodes: seq<Node>, pairs: seq<(nat, nat)>,
                                 edges: seq<Edge>, d: BuildDraws)
    requires forall p: (nat, nat) :: p in pairs <==> 1 <= p.0 < p.1 <= |nodes| && Close(num, nodes, p.0, p.1)
    requires |edges| == |pairs|
    requires forall k :: 0 <= k < |pairs| ==>
               IsNodeId(nodes, pairs[k].0) && IsNodeId(nodes, pairs[k].1) && Close(num, nodes, pairs[k].0, pairs[k].1) &&
               edges[k] == BuiltEdge(num, nodes, pairs[k], d)
    ensures forall k :: 0 <= k < |edges| ==>
              IsNodeId(nodes, edges[k].u) && IsNodeId(nodes, edges[k].v) &&
              edges[k] == BuiltEdge(num, nodes, (edges[k].u, edges[k].v), d) &&
              Close(num, nodes, edges[k].u, edges[k].v)
    ensures forall a, b :: 1 <= a < b <= |nodes| && Close(num, nodes, a, b) ==> Adjacent(edges, a, b)
  {
    forall k | 0 <= k < |edges|
      ensures (edges[k].u, edges[k].v) == pairs[k]
    {
    }
    forall a, b | 1 <= a < b <= |nodes| && Close(num, nodes, a, b)
      ensures Adjacent(edges, a, b)
    {
      assert (a, b) in pairs;
      var k :| 0 <= k < |pairs| && pairs[k] == (a, b);
      JoinedWithinMeans(edges, a, b, |edges|);
      assert Joins(edges[k], a, b);
    }
  }

  /** What the build promises about its graph: the run's nodes in id order,
      every edge built from a close pair with its drawn weight and life, and
      every close pair joined. */
  ghost predicate GraphBuilt(num: Numerics, t: Table, pif: Option<((real, real)) -> bool>, d: BuildDraws,
                             nodes: seq<Node>, edges: seq<Edge>)
    requires WellBehaved(num) && EdgesWellFormed(nodes, edges)
  {
    |nodes| == NodesCount(t) &&
    (forall m :: 0 <= m < NodesCount(t) ==> nodes[m] == RunNode(num, t, pif, d, m)) &&
    (forall k :: 0 <= k < |edges| ==>
       edges[k] == BuiltEdge(num, nodes, (edges[k].u, edges[k].v), d) &&
       Close(num, nodes, edges[k].u, edges[k].v) && 3 <= edges[k].life <= 7) &&
    (forall a, b :: 1 <= a < b <= |nodes| && Close(num, nodes, a, b) ==> Adjacent(edges, a, b))
  }

  /** The domain build on values: nodes with their colours, then the edges. */
  method BuildGraph(num: Numerics, t: Table, pif: Option<((real, real)) -> bool>, d: BuildDraws)
    returns (r: Result<(seq<Node>, seq<Edge>, seq<Color>), string>)
    requires WellBehaved(num) && t.hasElevation
    ensures r.Err? <==> NodesCount(t) > 0 && (!t.hasSlope || !t.hasAspect)
    ensures r.Err? ==> r.error == MissingColumn(if !t.hasSlope then "Slope" else "Aspect")
    ensures r.Ok? ==> Consistent(r.value.0, r.value.2, r.value.1) &&
                      GraphBuilt(num, t, pif, d, r.value.0, r.value.1)
  {
    var nodesCount := NodesCount(t);
    var range := ElevationRange(t);
    var built := BuildNodes(num, t, nodesCount, range.0, range.1, pif, d);
    if built.Err? {
      return Err(built.error);
    }
    var nodes, colors := built.value.0, built.value.1;
    var pairs := BuildEdgePairs(num, nodes);
    PairsAreNodes(num, nodes, pairs);
    var edges := AttachEdges(num, nodes, pairs, d);
    BuiltEdgesWellFormed(num, nodes, pairs, edges, d);
    BuiltEdgesJoinClosePairs(num, nodes, pairs, edges, d);
    r := Ok((nodes, edges, colors));
  }

  /** The whole domain build, as a new forest object. */
  method BuildForest(num: Numerics, t: Table, pif: Option<((real, real)) -> bool>, d: BuildDraws)
    returns (r: Result<Forest, string>)
    requires WellBehaved(num) && t.hasElevation
    ensures r.Err? <==> NodesCount(t) > 0 && (!t.hasSlope || !t.hasAspect)
    ensures r.Err? ==> r.error == MissingColumn(if !t.hasSlope then "Slope" else "Aspect")
    ensures r.Ok? ==> fresh(r.value) && r.value.Valid() &&
                      GraphBuilt(num, t, pif, d, r.value.nodes, r.value.edges)
  {
    var g := BuildGraph(num, t, pif, d);
    if g.Err? {
      return Err(g.error);
    }
    var f := new Forest(g.value.0, g.value.1, g.value.2);
    r := Ok(f);
  }

  /** Igniting one node that is not burning adds one to the burning count. */
  lemma {:induction false} IgniteCountsOne(nodes: seq<Node>, i: nat)
    requires i < |nodes| && nodes[i].state != Burning
    ensures CountState(nodes[i := Ignited(nodes[i])], Burning) == CountState(nodes, Burning) + 1
  {
    var after := nodes[i := Ignited(nodes[i])];
    var last := |nodes| - 1;
    assert after[..last] == if i == last then nodes[..last] else nodes[..last][i := Ignited(nodes[i])];
    if i < last {
      IgniteCountsOne(nodes[..last], i);
    }
  }

  /** The result of a run: an error message, or the timestep the loop ended
      at, the raster side and the number of frames drawn. */
  datatype RunOutcome = Failure(error: string) | Success(finalTimestep: nat, gridSize: nat, frames: nat)

  const InvalidShape: string := "Invalid GeoJSON structure. Must be a Polygon or MultiPolygon Feature/Geometry."
  const MissingElevation: string := "CSV missing 'Elevation' column."
  const LoadFailed: string := "Could not load dataset."

  /** Whether every node the run builds is not ignitable. */
  ghost predicate NoneIgnitable(num: Numerics, t: Table, pif: Option<((real, real)) -> bool>, d: BuildDraws)
    requires WellBehaved(num)
  {
    forall m :: 0 <= m < NodesCount(t) ==> RunNode(num, t, pif, d, m).state != NotBurnt
  }

  /** Sets the ignition node burning and orange, in the graph and in the
      colour list; with no node burning before, exactly one burns after. */
  method SetIgnition(f: Forest, id: nat)
    requires f.Valid() && IsNodeId(f.nodes, id) && f.nodes[id - 1].state == NotBurnt
    requires CountState(f.nodes, Burning) == 0
    modifies f
    ensures f.Valid() && |f.nodes| == |old(f.nodes)| && f.edges == old(f.edges)
    ensures f.nodes == old(f.nodes)[id - 1 := Ignited(old(f.nodes)[id - 1])]
    ensures CountState(f.nodes, Burning) == 1
  {
    IgniteCountsOne(f.nodes, id - 1);
    NonEmptyKeepsEdgesWellFormed(f.nodes, f.nodes[id - 1 := Ignited(f.nodes[id - 1])], f.edges);
    f.nodes := f.nodes[id - 1 := f.nodes[id - 1].(state := Burning, color := Orange)];
    if 0 <= id - 1 < |f.colors| {
      f.colors := f.colors[id - 1 := Orange];
    }
  }

  /** The graph at timestep i of a run from nodes and edges that has not
      stopped before i: pass j runs the step drawn for j and, from the
      second pass on, the wind drawn for j. */
  ghost function StateAt(num: Numerics, nodes: seq<Node>, edges: seq<Edge>,
                         steps: nat -> StepDraws, winds: nat -> WindDraws, i: nat): (r: (seq<Node>, seq<Edge>))
    requires |nodes| > 0 && forall j :: HasUnequalRound(winds(j).axes)
    ensures |r.0| == |nodes| && |r.1| == |edges|
    decreases i, 0
  {
    if i == 0 then (nodes, edges) else PassFrom(num, nodes, edges, steps, winds, i - 1)
  }

  /** The graph after the incinerate step of the pass at timestep i. */
  ghost function StepAt(num: Numerics, nodes: seq<Node>, edges: seq<Edge>,
                        steps: nat -> StepDraws, winds: nat -> WindDraws, i: nat): (r: (seq<Node>, seq<Edge>))
    requires |nodes| > 0 && forall j :: HasUnequalRound(winds(j).axes)
    ensures |r.0| == |nodes| && |r.1| == |edges|
    decreases i, 1
  {
    var s := StateAt(num, nodes, edges, steps, winds, i);
    StepState(s.0, s.1, steps(i))
  }

  /** The edges after the wind event of the pass at timestep i. */
  ghost function WindAt(num: Numerics, nodes: seq<Node>, edges: seq<Edge>,
                        steps: nat -> StepDraws, winds: nat -> WindDraws, i: nat): (r: seq<Edge>)
    requires |nodes| > 0 && forall j :: HasUnequalRound(winds(j).axes)
    ensures |r| == |edges|
    decreases i, 2
  {
    var s := StepAt(num, nodes, edges, steps, winds, i);
    WindEdges(num, s.0, s.1, winds(i), MaxWindSpeed, WindEpsilon)
  }

  /** The graph after the pass at timestep i: the step, then the wind from
      the second pass on. */
  ghost function PassFrom(num: Numerics, nodes: seq<Node>, edges: seq<Edge>,
                          steps: nat -> StepDraws, winds: nat -> WindDraws, i: nat): (r: (seq<Node>, seq<Edge>))
    requires |nodes| > 0 && forall j :: HasUnequalRound(winds(j).axes)
    ensures |r.0| == |nodes| && |r.1| == |edges|
    decreases i, 3
  {
    var s := StepAt(num, nodes, edges, steps, winds, i);
    if i > 0 then (s.0, WindAt(num, nodes, edges, steps, winds, i)) else s
  }

  /** burningAt holds, frame by frame, the burning count of the run from
      nodes and edges. */
  ghost predicate RunCounts(num: Numerics, nodes: seq<Node>, edges: seq<Edge>,
                            steps: nat -> StepDraws, winds: nat -> WindDraws, burningAt: seq<nat>)
    requires |nodes| > 0 && forall j :: HasUnequalRound(winds(j).axes)
    decreases |burningAt|
  {
    |burningAt| == 0 ||
    (RunCounts(num, nodes, edges, steps, winds, burningAt[..|burningAt| - 1]) &&
     burningAt[|burningAt| - 1] ==
       CountState(StateAt(num, nodes, edges, steps, winds, |burningAt| - 1).0, Burning))
  }

  /** Read frame by frame: entry j of the record is the burning count of the
      graph at timestep j. */
  lemma {:induction false} RunCountsAt(num: Numerics, nodes: seq<Node>, edges: seq<Edge>,
                                       steps: nat -> StepDraws, winds: nat -> WindDraws, burningAt: seq<nat>)
    requires |nodes| > 0 && forall j :: HasUnequalRound(winds(j).axes)
    ensures RunCounts(num, nodes, edges, steps, winds, burningAt) <==>
            forall j :: 0 <= j < |burningAt| ==>
              burningAt[j] == CountState(StateAt(num, nodes, edges, steps, winds, j).0, Burning)
    decreases |burningAt|
  {
    if |burningAt| > 0 {
      var init, last := burningAt[..|burningAt| - 1], |burningAt| - 1;
      RunCountsAt(num, nodes, edges, steps, winds, init);
      if RunCounts(num, nodes, edges, steps, winds, burningAt) {
        forall j | 0 <= j < |burningAt|
          ensures burningAt[j] == CountState(StateAt(num, nodes, edges, steps, winds, j).0, Burning)
        {
          if j < last {
            assert init[j] == burningAt[j];
          }
        }
      }
      if forall j :: 0 <= j < |burningAt| ==>
           burningAt[j] == CountState(StateAt(num, nodes, edges, steps, winds, j).0, Burning)
      {
        forall j | 0 <= j < |init|
          ensures init[j] == CountState(StateAt(num, nodes, edges, steps, winds, j).0, Burning)
        {
          assert init[j] == burningAt[j];
        }
      }
    }
  }

  /** One more frame's burning count extends the record. */
  lemma RunCountsSnoc(num: Numerics, nodes: seq<Node>, edges: seq<Edge>,
                      steps: nat -> StepDraws, winds: nat -> WindDraws, burningAt: seq<nat>, c: nat)
    requires |nodes| > 0 && forall j :: HasUnequalRound(winds(j).axes)
    requires RunCounts(num, nodes, edges, steps, winds, burningAt)
    requires c == CountState(StateAt(num, nodes, edges, steps, winds, |burningAt|).0, Burning)
    ensures RunCounts(num, nodes, edges, steps, winds, burningAt + [c])
  {
    assert (burningAt + [c])[..|burningAt|] == burningAt;
  }

  /** The pass at timestep i takes the graph at i to the graph at i + 1. */
  lemma StateAtNext(num: Numerics, nodes: seq<Node>, edges: seq<Edge>,
                    steps: nat -> StepDraws, winds: nat -> WindDraws, i: nat, now: (seq<Node>, seq<Edge>))
    requires |nodes| > 0 && forall j :: HasUnequalRound(winds(j).axes)
    requires now == StateAt(num, nodes, edges, steps, winds, i)
    ensures |now.0| > 0
    ensures StepAt(num, nodes, edges, steps, winds, i) == StepState(now.0, now.1, steps(i))
    ensures var s := StepAt(num, nodes, edges, steps, winds, i);
            WindAt(num, nodes, edges, steps, winds, i) == WindEdges(num, s.0, s.1, winds(i), MaxWindSpeed, WindEpsilon)
    ensures var s := StepAt(num, nodes, edges, steps, winds, i);
            StateAt(num, nodes, edges, steps, winds, i + 1) ==
              if i > 0 then (s.0, WindAt(num, nodes, edges, steps, winds, i)) else s
  {
  }

  /** burningAt holds the burning counts of the run that ignites the node
      SelectIgnition picks in the graph and then advances it. */
  ghost predicate IgnitedRun(num: Numerics, nodes: seq<Node>, edges: seq<Edge>, setting: IgnitionSetting,
                             first: nat, second: nat, steps: nat -> StepDraws, winds: nat -> WindDraws,
                             burningAt: seq<nat>)
    requires forall j :: HasUnequalRound(winds(j).axes)
  {
    var r := SelectIgnition(nodes, setting, first, second);
    r.Ok? && RunCounts(num, nodes[r.value - 1 := Ignited(nodes[r.value - 1])], edges, steps, winds, burningAt)
  }

  /** The timestep loop: for i in 0..TIMESTEPS, count the burning nodes and
      draw the frame, stop if nothing burns and i > 0, else run one step and,
      from the second step on, a wind event. */
  method RunTimesteps(num: Numerics, f: Forest, steps: nat -> StepDraws, winds: nat -> WindDraws)
    returns (finalTimestep: nat, frames: nat, ghost burningAt: seq<nat>)
    requires f.Valid() && |f.nodes| > 0 && CountState(f.nodes, Burning) == 1
    requires forall i :: HasUnequalRound(winds(i).axes)
    modifies f
    ensures finalTimestep <= Timesteps && frames == finalTimestep + 1 && |burningAt| == frames
    ensures burningAt[0] == 1 && forall i :: 0 <= i < finalTimestep ==> burningAt[i] > 0
    ensures finalTimestep < Timesteps ==> finalTimestep > 0 && burningAt[finalTimestep] == 0
    ensures RunCounts(num, old(f.nodes), old(f.edges), steps, winds, burningAt)
    ensures burningAt[finalTimestep] == 0 ==>
              (f.nodes, f.edges) == StateAt(num, old(f.nodes), old(f.edges), steps, winds, finalTimestep)
    ensures burningAt[finalTimestep] > 0 ==>
              finalTimestep == Timesteps &&
              (f.nodes, f.edges) == StateAt(num, old(f.nodes), old(f.edges), steps, winds, Timesteps + 1)
  {
    ghost var nodes0, edges0 := f.nodes, f.edges;
    burningAt := [];
    finalTimestep := 0;
    frames := 0;
    var i := 0;
    while i <= Timesteps
      invariant 0 <= i <= Timesteps + 1
      invariant f.Valid() && |f.nodes| > 0
      invariant |burningAt| == i && frames == i
      invariant i > 0 ==> finalTimestep == i - 1 && burningAt[0] == 1
      invariant i == 0 ==> CountState(f.nodes, Burning) == 1
      invariant forall j :: 0 <= j < i ==> burningAt[j] > 0
      invariant (f.nodes, f.edges) == StateAt(num, nodes0, edges0, steps, winds, i)
      invariant RunCounts(num, nodes0, edges0, steps, winds, burningAt)
    {
      finalTimestep := i;
      var burning, stop := RunTimestep(num, f, steps, winds, i, nodes0, edges0);
      RunCountsSnoc(num, nodes0, edges0, steps, winds, burningAt, burning);
      burningAt := burningAt + [burning];
      frames := frames + 1;
      if stop {
        break;
      }
      i := i + 1;
    }
  }

  /** The body of the timestep loop at timestep i: count the burning nodes,
      draw the frame, and stop when nothing burns and i > 0, else advance
      the forest to its graph at i + 1. */
  method RunTimestep(num: Numerics, f: Forest, steps: nat -> StepDraws, winds: nat -> WindDraws, i: nat,
                     ghost nodes0: seq<Node>, ghost edges0: seq<Edge>)
    returns (burning: nat, stop: bool)
    requires |nodes0| > 0 && forall j :: HasUnequalRound(winds(j).axes)
    requires f.Valid() && (f.nodes, f.edges) == StateAt(num, nodes0, edges0, steps, winds, i)
    modifies f
    ensures burning == CountState(StateAt(num, nodes0, edges0, steps, winds, i).0, Burning)
    ensures stop == (burning == 0 && i > 0)
    ensures f.Valid() && (f.nodes, f.edges) == StateAt(num, nodes0, edges0, steps, winds, if stop then i else i + 1)
  {
    burning := CountState(f.nodes, Burning);
    var frame := DrawForestSnapshot(f.nodes, GridSide);
    stop := burning == 0 && i > 0;
    if !stop {
      AdvanceForest(num, f, steps, winds, i, nodes0, edges0);
    }
  }

  /** One pass of the timestep loop after its snapshot: incinerate, then
      let the wind blow unless this is the first pass. The pass at timestep
      i takes the run's graph at i to its graph at i + 1. */
  method AdvanceForest(num: Numerics, f: Forest, steps: nat -> StepDraws, winds: nat -> WindDraws, i: nat,
                       ghost nodes0: seq<Node>, ghost edges0: seq<Edge>)
    requires |nodes0| > 0 && forall j :: HasUnequalRound(winds(j).axes)
    requires f.Valid() && (f.nodes, f.edges) == StateAt(num, nodes0, edges0, steps, winds, i)
    modifies f
    ensures f.Valid() && (f.nodes, f.edges) == StateAt(num, nodes0, edges0, steps, winds, i + 1)
  {
    StateAtNext(num, nodes0, edges0, steps, winds, i, (f.nodes, f.edges));
    f.Incinerate(steps(i));
    if i > 0 {
      var centrePos, a, b := f.SimulateWind(num, winds(i), MaxWindSpeed, WindEpsilon);
    }
  }

  /** The nodes a run builds hold no burning node, and none of them is
      ignitable exactly when NoneIgnitable holds. */
  lemma BuiltNodeStates(num: Numerics, t: Table, pif: Option<((real, real)) -> bool>, d: BuildDraws, nodes: seq<Node>)
    requires WellBehaved(num) && |nodes| == NodesCount(t)
    requires forall m :: 0 <= m < NodesCount(t) ==> nodes[m] == RunNode(num, t, pif, d, m)
    ensures CountState(nodes, Burning) == 0
    ensures (forall i :: 0 <= i < |nodes| ==> nodes[i].state != NotBurnt) <==> NoneIgnitable(num, t, pif, d)
  {
    CountStateZero(nodes, Burning);
  }

  /** The part of the run after the table checks: build, ignite, loop. */
  method BuildAndRun(num: Numerics, t: Table, pif: Option<((real, real)) -> bool>, setting: IgnitionSetting,
                     build: BuildDraws, first: nat, second: nat,
                     steps: nat -> StepDraws, winds: nat -> WindDraws)
    returns (outcome: RunOutcome, ghost burningAt: seq<nat>)
    requires WellBehaved(num) && t.hasElevation
    requires forall i :: HasUnequalRound(winds(i).axes)
    ensures NodesCount(t) > 0 && (!t.hasSlope || !t.hasAspect) ==>
              outcome == Failure(MissingColumn(if !t.hasSlope then "Slope" else "Aspect"))
    ensures NodesCount(t) == 0 || (t.hasSlope && t.hasAspect) ==>
              (outcome.Failure? <==> NoneIgnitable(num, t, pif, build)) &&
              (outcome.Failure? ==> outcome.error == NoIgnitable)
    ensures outcome.Success? ==>
              outcome.gridSize == GridSide && outcome.finalTimestep <= Timesteps &&
              outcome.frames == outcome.finalTimestep + 1 && |burningAt| == outcome.frames
    ensures outcome.Success? ==> burningAt[0] == 1 && forall i :: 0 <= i < outcome.finalTimestep ==> burningAt[i] > 0
    ensures outcome.Success? && outcome.finalTimestep < Timesteps ==>
              outcome.finalTimestep > 0 && burningAt[outcome.finalTimestep] == 0
    ensures outcome.Success? ==>
              exists nodes, edges :: EdgesWellFormed(nodes, edges) && GraphBuilt(num, t, pif, build, nodes, edges) &&
                IgnitedRun(num, nodes, edges, setting, first, second, steps, winds, burningAt)
  {
    burningAt := [];
    var built := BuildForest(num, t, pif, build);
    if built.Err? {
      return Failure(built.error), burningAt;
    }
    var f := built.value;
    BuiltNodeStates(num, t, pif, build, f.nodes);
    ghost var nodes, edges := f.nodes, f.edges;
    outcome, burningAt := StartFire(num, f, setting, first, second, steps, winds);
    assert outcome.Success? ==>
             EdgesWellFormed(nodes, edges) && GraphBuilt(num, t, pif, build, nodes, edges) &&
             IgnitedRun(num, nodes, edges, setting, first, second, steps, winds, burningAt);
  }

  /** The run after the build: pick and set the ignition node, then the
      timestep loop. It fails only when no node is ignitable. */
  method StartFire(num: Numerics, f: Forest, setting: IgnitionSetting, first: nat, second: nat,
                      steps: nat -> StepDraws, winds: nat -> WindDraws)
    returns (outcome: RunOutcome, ghost burningAt: seq<nat>)
    requires f.Valid() && CountState(f.nodes, Burning) == 0
    requires forall i :: HasUnequalRound(winds(i).axes)
    modifies f
    ensures (outcome.Failure? <==> forall i :: 0 <= i < |old(f.nodes)| ==> old(f.nodes)[i].state != NotBurnt) &&
            (outcome.Failure? ==> outcome.error == NoIgnitable)
    ensures outcome.Success? ==>
              outcome.gridSize == GridSide && outcome.finalTimestep <= Timesteps &&
              outcome.frames == outcome.finalTimestep + 1 && |burningAt| == outcome.frames
    ensures outcome.Success? ==> burningAt[0] == 1 && forall i :: 0 <= i < outcome.finalTimestep ==> burningAt[i] > 0
    ensures outcome.Success? && outcome.finalTimestep < Timesteps ==>
              outcome.finalTimestep > 0 && burningAt[outcome.finalTimestep] == 0
    ensures outcome.Success? ==> IgnitedRun(num, old(f.nodes), old(f.edges), setting, first, second, steps, winds, burningAt)
  {
    burningAt := [];
    var ignition := SelectIgnition(f.nodes, setting, first, second);
    if ignition.Err? {
      return Failure(ignition.error), burningAt;
    }
    SetIgnition(f, ignition.value);
    var finalTimestep, frames;
    finalTimestep, frames, burningAt := RunTimesteps(num, f, steps, winds);
    outcome := Success(finalTimestep, GridSide, frames);
  }

  /** run_wildfire_simulation: load, build, ignite, then draw a frame and
      advance the fire for timesteps 0..TIMESTEPS, stopping at the first
      timestep after the first at which nothing is burning; the wind blows
      after every step but the first. burningAt records the burning count
      seen at each frame. */
  method RunWildfireSimulation(num: Numerics, csv: CsvLoad, csvPath: string, shapeGiven: bool,
                               pif: Option<((real, real)) -> bool>, setting: IgnitionSetting,
                               build: BuildDraws, first: nat, second: nat,
                               steps: nat -> StepDraws, winds: nat -> WindDraws)
    returns (outcome: RunOutcome, ghost burningAt: seq<nat>)
    requires WellBehaved(num)
    requires forall i :: HasUnequalRound(winds(i).axes)
    ensures csv.FileMissing? ==> outcome == Failure("Dataset file not found at " + csvPath)
    ensures csv.Unreadable? ==> outcome == Failure(LoadFailed)
    ensures csv.Loaded? && shapeGiven && pif.None? ==> outcome == Failure(InvalidShape)
    ensures csv.Loaded? && !(shapeGiven && pif.None?) && !csv.table.hasElevation ==>
              outcome == Failure(MissingElevation)
    ensures csv.Loaded? && !(shapeGiven && pif.None?) && csv.table.hasElevation ==>
              (NodesCount(csv.table) > 0 && (!csv.table.hasSlope || !csv.table.hasAspect) ==>
                 outcome == Failure(MissingColumn(if !csv.table.hasSlope then "Slope" else "Aspect"))) &&
              (NodesCount(csv.table) == 0 || (csv.table.hasSlope && csv.table.hasAspect) ==>
                 (outcome.Failure? <==> NoneIgnitable(num, csv.table, pif, build)) &&
                 (outcome.Failure? ==> outcome.error == NoIgnitable))
    ensures outcome.Success? ==>
              csv.Loaded? && outcome.gridSize == GridSide && outcome.finalTimestep <= Timesteps &&
              outcome.frames == outcome.finalTimestep + 1 && |burningAt| == outcome.frames
    ensures outcome.Success? ==> burningAt[0] == 1 && forall i :: 0 <= i < outcome.finalTimestep ==> burningAt[i] > 0
    ensures outcome.Success? && outcome.finalTimestep < Timesteps ==>
              outcome.finalTimestep > 0 && burningAt[outcome.finalTimestep] == 0
    ensures outcome.Success? ==>
              exists nodes, edges :: EdgesWellFormed(nodes, edges) &&
                GraphBuilt(num, csv.table, pif, build, nodes, edges) &&
                IgnitedRun(num, nodes, edges, setting, first, second, steps, winds, burningAt)
  {
    burningAt := [];
    if csv.FileMissing? {
      return Failure("Dataset file not found at " + csvPath), burningAt;
    }
    if csv.Unreadable? {
      return Failure(LoadFailed), burningAt;
    }
    var t := csv.table;
    if shapeGiven && pif.None? {
      return Failure(InvalidShape), burningAt;
    }
    if !t.hasElevation {
      return Failure(MissingElevation), burningAt;
    }
    outcome, burningAt := BuildAndRun(num, t, pif, setting, build, first, second, steps, winds);
  }
}
