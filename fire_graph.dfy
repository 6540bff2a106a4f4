/**
 * The graph engine's state and its one-step fire-spread operations. Nodes
 * are numbered 1..n (node id k is stored at index k - 1); edges join two
 * distinct non-empty nodes, smaller id first, and are never added or removed
 * after the domain is built.
 */
module FireGraph {
  import opened Wrappers
  import opened GridIndex
  import opened Draws
  import opened Terrain
  import opened Wind

  datatype FireState = Empty | NotBurnt | Burning | Burnt

  /** The display colour kept on nodes, edges and the parallel colour list. */
  datatype Color = Black | Green | Orange | Brown

  datatype Node = Node(
    state: FireState,
    threshold: real,        // threshold_switch
    color: Color,
    activeNeighbors: nat,   // num_of_active_neighbors
    life: int,
    pos: (real, real))

  datatype Edge = Edge(
    u: nat,                 // the endpoint with the smaller id
    v: nat,
    w: real,
    color: Color,
    life: int,
    strength: int,          // edge_strength
    windDir: real)          // wind_dir

  // ---------------------------------------------------------------------
  // Counting (count_burning, count_burnt, count_non_empty)
  // ---------------------------------------------------------------------

  /** The number of nodes in the given state. */
  function CountState(nodes: seq<Node>, s: FireState): (c: nat)
    ensures c <= |nodes|
  {
    if |nodes| == 0 then 0
    else CountState(nodes[..|nodes| - 1], s) + (if nodes[|nodes| - 1].state == s then 1 else 0)
  }

  /** The number of nodes that are not empty. */
  function CountNonEmpty(nodes: seq<Node>): (c: nat)
    ensures c <= |nodes|
  {
    if |nodes| == 0 then 0
    else CountNonEmpty(nodes[..|nodes| - 1]) + (if nodes[|nodes| - 1].state != Empty then 1 else 0)
  }

  /** A count is zero exactly when no node is in that state. */
  lemma {:induction false} CountStateZero(nodes: seq<Node>, s: FireState)
    ensures CountState(nodes, s) == 0 <==> forall i :: 0 <= i < |nodes| ==> nodes[i].state != s
  {
    if |nodes| > 0 {
      var init := nodes[..|nodes| - 1];
      CountStateZero(init, s);
      assert forall i :: 0 <= i < |init| ==> init[i] == nodes[i];
    }
  }

  /** The four states partition the nodes, and the non-empty ones are the
      not-burnt, burning and burnt ones together. */
  lemma {:induction false} CountPartition(nodes: seq<Node>)
    ensures CountState(nodes, Empty) + CountState(nodes, NotBurnt)
          + CountState(nodes, Burning) + CountState(nodes, Burnt) == |nodes|
    ensures CountNonEmpty(nodes) == CountState(nodes, NotBurnt)
          + CountState(nodes, Burning) + CountState(nodes, Burnt)
  {
    if |nodes| > 0 {
      CountPartition(nodes[..|nodes| - 1]);
    }
  }

  /** get_burning over all nodes, and its siblings: the ids, in id order, of
      the nodes in a given state. */
  function IdsWithState(nodes: seq<Node>, s: FireState): (ids: seq<nat>)
    ensures forall j :: 0 <= j < |ids| ==> 1 <= ids[j] <= |nodes| && nodes[ids[j] - 1].state == s
    ensures forall id :: 1 <= id <= |nodes| && nodes[id - 1].state == s ==> id in ids
  {
    if |nodes| == 0 then []
    else
      var init := IdsWithState(nodes[..|nodes| - 1], s);
      if nodes[|nodes| - 1].state == s then init + [|nodes|] else init
  }

  /** The ids come in increasing order, the order of the node list. */
  predicate Ascending(xs: seq<nat>)
  {
    forall j, k :: 0 <= j < k < |xs| ==> xs[j] < xs[k]
  }

  lemma {:induction false} IdsWithStateAscending(nodes: seq<Node>, s: FireState)
    ensures Ascending(IdsWithState(nodes, s))
  {
    if |nodes| > 0 {
      var init := IdsWithState(nodes[..|nodes| - 1], s);
      IdsWithStateAscending(nodes[..|nodes| - 1], s);
      if nodes[|nodes| - 1].state == s {
        var ids := init + [|nodes|];
        forall j, k | 0 <= j < k < |ids| ensures ids[j] < ids[k] {
          if k == |init| {
            assert ids[j] == init[j] <= |nodes| - 1;
          } else {
            assert ids[j] == init[j] && ids[k] == init[k];
          }
        }
      }
    }
  }

  // ---------------------------------------------------------------------
  // Edges and adjacency
  // ---------------------------------------------------------------------

  predicate Joins(e: Edge, a: nat, b: nat)
  {
    (e.u == a && e.v == b) || (e.u == b && e.v == a)
  }

  predicate Incident(e: Edge, a: nat)
  {
    e.u == a || e.v == a
  }

  /** The endpoint of e that is not a. */
  function Other(e: Edge, a: nat): nat
  {
    if e.u == a then e.v else e.u
  }

  /** Whether one of the first k edges joins a and b. */
  function JoinedWithin(edges: seq<Edge>, a: nat, b: nat, k: nat): bool
    requires k <= |edges|
  {
    k > 0 && (Joins(edges[k - 1], a, b) || JoinedWithin(edges, a, b, k - 1))
  }

  /** g.has_edge(a, b). */
  predicate Adjacent(edges: seq<Edge>, a: nat, b: nat)
  {
    JoinedWithin(edges, a, b, |edges|)
  }

  /** JoinedWithin is the bounded existential it stands for. */
  lemma {:induction false} JoinedWithinMeans(edges: seq<Edge>, a: nat, b: nat, k: nat)
    requires k <= |edges|
    ensures JoinedWithin(edges, a, b, k) <==> exists j :: 0 <= j < k && Joins(edges[j], a, b)
  {
    if k > 0 {
      JoinedWithinMeans(edges, a, b, k - 1);
    }
  }

  /** Only the first k edges matter to JoinedWithin. */
  lemma {:induction false} JoinedWithinPrefix(edges: seq<Edge>, more: seq<Edge>, a: nat, b: nat, k: nat)
    requires k <= |edges|
    ensures JoinedWithin(edges + more, a, b, k) == JoinedWithin(edges, a, b, k)
  {
    if k > 0 {
      JoinedWithinPrefix(edges, more, a, b, k - 1);
    }
  }

  predicate IsNodeId(nodes: seq<Node>, id: int)
  {
    1 <= id <= |nodes|
  }

  predicate IsBurningId(nodes: seq<Node>, id: int)
  {
    IsNodeId(nodes, id) && nodes[id - 1].state == Burning
  }

  /** The edge invariant of the built domain: each edge joins two distinct
      existing non-empty nodes, smaller id first, and no pair is joined twice. */
  ghost predicate EdgesWellFormed(nodes: seq<Node>, edges: seq<Edge>)
  {
    (forall k :: 0 <= k < |edges| ==>
      1 <= edges[k].u < edges[k].v <= |nodes| &&
      nodes[edges[k].u - 1].state != Empty && nodes[edges[k].v - 1].state != Empty) &&
    (forall k1, k2 :: 0 <= k1 < k2 < |edges| ==>
      edges[k1].u != edges[k2].u || edges[k1].v != edges[k2].v)
  }

  /** Two edges joining the same pair are the same edge. */
  lemma JoinsUnique(nodes: seq<Node>, edges: seq<Edge>, k1: nat, k2: nat, a: nat, b: nat)
    requires EdgesWellFormed(nodes, edges)
    requires k1 < |edges| && k2 < |edges|
    requires Joins(edges[k1], a, b) && Joins(edges[k2], a, b)
    ensures k1 == k2
  {
  }

  /** The ids, in id order, of the nodes that are not empty. */
  function NonEmptyIds(nodes: seq<Node>): (ids: seq<nat>)
    ensures forall j :: 0 <= j < |ids| ==> 1 <= ids[j] <= |nodes| && nodes[ids[j] - 1].state != Empty
    ensures forall id :: 1 <= id <= |nodes| && nodes[id - 1].state != Empty ==> id in ids
    ensures |ids| == CountNonEmpty(nodes)
  {
    if |nodes| == 0 then []
    else
      var init := NonEmptyIds(nodes[..|nodes| - 1]);
      if nodes[|nodes| - 1].state != Empty then init + [|nodes|] else init
  }

  // ---------------------------------------------------------------------
  // The neighbour-ignition pass
  // ---------------------------------------------------------------------

  /** The spread pressure on nb while burning node b is examined: the
      weights of the edges from nb to its burning neighbours, each times its
      noise draw noise(b, nb, m), summed over the first k edges in edge order
      and clamped at 1 after every contribution. */
  function Pressure(nodes: seq<Node>, edges: seq<Edge>, nb: nat, b: nat,
                    noise: (nat, nat, nat) -> real, k: nat): (s: real)
    requires k <= |edges|
    ensures s <= 1.0
  {
    if k == 0 then 0.0
    else
      var s := Pressure(nodes, edges, nb, b, noise, k - 1);
      var e := edges[k - 1];
      if Incident(e, nb) && IsBurningId(nodes, Other(e, nb))
      then Min(1.0, s + EffectiveWeight(e, noise, b, nb, Other(e, nb)))
      else s
  }

  /** The weight of edge e towards m with its noise draw. */
  function EffectiveWeight(e: Edge, noise: (nat, nat, nat) -> real, b: nat, nb: nat, m: nat): real
  {
    e.w * noise(b, nb, m)
  }

  /** The same contributions summed without the clamp. */
  function RawPressure(nodes: seq<Node>, edges: seq<Edge>, nb: nat, b: nat,
                       noise: (nat, nat, nat) -> real, k: nat): real
    requires k <= |edges|
  {
    if k == 0 then 0.0
    else
      var e := edges[k - 1];
      RawPressure(nodes, edges, nb, b, noise, k - 1) +
      (if Incident(e, nb) && IsBurningId(nodes, Other(e, nb)) then EffectiveWeight(e, noise, b, nb, Other(e, nb)) else 0.0)
  }

  /** With non-negative weights and noise the running clamp is the clamp of
      the whole sum, so the pressure lies in [0, 1]. */
  lemma {:induction false} PressureIsClampedSum(nodes: seq<Node>, edges: seq<Edge>, nb: nat, b: nat,
                                                 noise: (nat, nat, nat) -> real, k: nat)
    requires k <= |edges|
    requires forall j :: 0 <= j < |edges| ==> edges[j].w >= 0.0
    requires forall x, y, z :: noise(x, y, z) >= 0.0
    ensures Pressure(nodes, edges, nb, b, noise, k) == Min(1.0, RawPressure(nodes, edges, nb, b, noise, k))
    ensures 0.0 <= Pressure(nodes, edges, nb, b, noise, k) <= 1.0
  {
    if k > 0 {
      PressureIsClampedSum(nodes, edges, nb, b, noise, k - 1);
      var e := edges[k - 1];
      if Incident(e, nb) && IsBurningId(nodes, Other(e, nb)) {
        var t := EffectiveWeight(e, noise, b, nb, Other(e, nb));
        assert t >= 0.0 by {
          assert noise(b, nb, Other(e, nb)) >= 0.0;
          assert e.w >= 0.0;
        }
      }
    }
  }

  /** Whether the pressure on nb from b's side reaches nb's threshold times
      the threshold noise drawn for (b, nb). */
  predicate Reaches(nodes: seq<Node>, edges: seq<Edge>,
                    edgeNoise: (nat, nat, nat) -> real, thresholdNoise: (nat, nat) -> real,
                    b: nat, nb: nat)
    requires IsNodeId(nodes, nb)
  {
    Pressure(nodes, edges, nb, b, edgeNoise, |edges|) >= nodes[nb - 1].threshold * thresholdNoise(b, nb)
  }

  /** Whether burning node b schedules its not-burnt neighbour nb for
      ignition: the pressure on nb reaches its noisy threshold. */
  ghost predicate Schedules(nodes: seq<Node>, edges: seq<Edge>,
                            edgeNoise: (nat, nat, nat) -> real, thresholdNoise: (nat, nat) -> real,
                            b: nat, nb: nat)
  {
    IsBurningId(nodes, b) && IsNodeId(nodes, nb) && nodes[nb - 1].state == NotBurnt &&
    Adjacent(edges, b, nb) && Reaches(nodes, edges, edgeNoise, thresholdNoise, b, nb)
  }

  // ---------------------------------------------------------------------
  // Applying a list of (node, igniting node) pairs
  // ---------------------------------------------------------------------

  /** The igniting node of the first pair in the list that names id. */
  function FirstIgniter(list: seq<(nat, nat)>, id: nat): (r: Option<nat>)
    ensures r.Some? ==> (id, r.value) in list
    ensures r.None? ==> forall j :: 0 <= j < |list| ==> list[j].0 != id
  {
    if |list| == 0 then None
    else
      var f := FirstIgniter(list[..|list| - 1], id);
      if f.Some? then f
      else if list[|list| - 1].0 == id then Some(list[|list| - 1].1)
      else None
  }

  /** The first pair naming id is the one FirstIgniter reports. */
  lemma {:induction false} FirstIgniterIsFirst(list: seq<(nat, nat)>, id: nat, j: nat)
    requires j < |list| && list[j].0 == id
    ensures FirstIgniter(list, id).Some?
    ensures (forall i :: 0 <= i < j ==> list[i].0 != id) ==> FirstIgniter(list, id) == Some(list[j].1)
  {
    var init := list[..|list| - 1];
    if j < |list| - 1 {
      assert init[j] == list[j];
      FirstIgniterIsFirst(init, id, j);
    } else {
      if FirstIgniter(init, id).Some? {
        var b := FirstIgniter(init, id).value;
        var i :| 0 <= i < |init| && init[i] == (id, b);
        assert list[i] == init[i];
      }
    }
  }

  /** The two guards of the source: the neighbour pass re-ignites any node
      that is not burning, the ember pass only a not-burnt one. */
  datatype IgnitionRule = UnlessBurning | OnlyNotBurnt

  predicate Eligible(rule: IgnitionRule, s: FireState)
  {
    match rule
    case UnlessBurning => s != Burning
    case OnlyNotBurnt => s == NotBurnt
  }

  function Ignited(n: Node): Node
  {
    n.(state := Burning, color := Orange)
  }

  /** Node i after applying the list pair by pair: it ignites when some pair
      names it and it was eligible before the first such pair. */
  function NodeAfter(nodes: seq<Node>, list: seq<(nat, nat)>, rule: IgnitionRule, i: nat): Node
    requires i < |nodes|
  {
    if FirstIgniter(list, i + 1).Some? && Eligible(rule, nodes[i].state) then Ignited(nodes[i]) else nodes[i]
  }

  /** Whether the first pair naming nb names b, and nb was eligible. */
  predicate IgnitesVia(nodes: seq<Node>, list: seq<(nat, nat)>, rule: IgnitionRule, nb: nat, b: nat)
  {
    IsNodeId(nodes, nb) && FirstIgniter(list, nb) == Some(b) && Eligible(rule, nodes[nb - 1].state)
  }

  /** An edge after applying the list: the edge from the igniting node to
      the node it ignited is marked orange. */
  function EdgeAfter(nodes: seq<Node>, list: seq<(nat, nat)>, rule: IgnitionRule, e: Edge): Edge
  {
    if IgnitesVia(nodes, list, rule, e.v, e.u) || IgnitesVia(nodes, list, rule, e.u, e.v)
    then e.(color := Orange) else e
  }

  // ---------------------------------------------------------------------
  // The ember pass
  // ---------------------------------------------------------------------

  const EmberProb: real := 0.02
  const EmberRadius: real := 5.0
  const EmberFallbackProb: real := 0.1
  const EmberLandProb: real := 0.5

  /** The draws of one burning node's ember: the spark test, the fallback
      test, the choice among candidates and the landing test. */
  datatype EmberDraw = EmberDraw(spark: real, fallback: real, pick: nat, land: real)

  function Abs(x: real): real { if x < 0.0 then -x else x }

  /** The source's cell scale for a graph of n nodes: 100 / ceil(sqrt(n)). */
  function CellScale(n: nat): real
    requires n > 0
  {
    100.0 / (CeilSqrt(n) as real)
  }

  ghost predicate IdsIn(nodes: seq<Node>, ids: seq<nat>)
  {
    forall id :: id in ids ==> IsNodeId(nodes, id)
  }

  /** Whether node n lies within EMBER_RADIUS cells of node bnode along both axes. */
  predicate WithinEmberRadius(nodes: seq<Node>, bnode: nat, n: nat, cellScale: real)
    requires IsNodeId(nodes, bnode) && IsNodeId(nodes, n) && cellScale > 0.0
  {
    Abs(nodes[n - 1].pos.0 - nodes[bnode - 1].pos.0) / cellScale <= EmberRadius &&
    Abs(nodes[n - 1].pos.1 - nodes[bnode - 1].pos.1) / cellScale <= EmberRadius
  }

  /** The members of the pool within ember range of bnode, in pool order. */
  function EmberCandidates(nodes: seq<Node>, pool: seq<nat>, bnode: nat, cellScale: real): (c: seq<nat>)
    requires IsNodeId(nodes, bnode) && IdsIn(nodes, pool) && cellScale > 0.0
    ensures IdsIn(nodes, c)
    ensures forall id :: id in c <==> id in pool && WithinEmberRadius(nodes, bnode, id, cellScale)
  {
    if |pool| == 0 then []
    else
      var init := EmberCandidates(nodes, pool[..|pool| - 1], bnode, cellScale);
      var n := pool[|pool| - 1];
      assert forall id :: id in pool <==> id in pool[..|pool| - 1] || id == n;
      if WithinEmberRadius(nodes, bnode, n, cellScale) then init + [n] else init
  }

  /** Where bnode's ember lands and tries to ignite, if anywhere. The pool
      is the list of not-burnt nodes taken when the ember pass starts. */
  function EmberTarget(nodes: seq<Node>, pool: seq<nat>, bnode: nat, d: EmberDraw, cellScale: real): (t: Option<nat>)
    requires IsNodeId(nodes, bnode) && IdsIn(nodes, pool) && cellScale > 0.0
    ensures t.Some? ==> t.value in pool && d.spark < EmberProb && d.land < EmberLandProb
    ensures t.Some? && !WithinEmberRadius(nodes, bnode, t.value, cellScale) ==>
              d.fallback < EmberFallbackProb &&
              forall id :: id in pool ==> !WithinEmberRadius(nodes, bnode, id, cellScale)
    ensures (|pool| > 0 && d.spark < EmberProb && d.land < EmberLandProb &&
             exists id :: id in pool && WithinEmberRadius(nodes, bnode, id, cellScale)) ==> t.Some?
  {
    if |pool| == 0 || !(d.spark < EmberProb) then None
    else
      var near := EmberCandidates(nodes, pool, bnode, cellScale);
      var cands := if |near| > 0 then near else if d.fallback < EmberFallbackProb then pool else [];
      if |cands| > 0 && d.land < EmberLandProb then Some(Choice(cands, d.pick)) else None
  }

  /** The (target, burning node) pairs of the embers that land, in the order
      of the burning nodes. */
  function EmberHits(nodes: seq<Node>, pool: seq<nat>, burning: seq<nat>,
                     draws: nat -> EmberDraw, cellScale: real): (hits: seq<(nat, nat)>)
    requires IdsIn(nodes, burning) && IdsIn(nodes, pool) && cellScale > 0.0
    ensures forall j :: 0 <= j < |hits| ==> hits[j].0 in pool && hits[j].1 in burning
  {
    if |burning| == 0 then []
    else
      var init := EmberHits(nodes, pool, burning[..|burning| - 1], draws, cellScale);
      var bnode := burning[|burning| - 1];
      var t := EmberTarget(nodes, pool, bnode, draws(bnode), cellScale);
      if t.Some? then init + [(t.value, bnode)] else init
  }

  // ---------------------------------------------------------------------
  // Decay, neighbour counts, burnt edges
  // ---------------------------------------------------------------------

  /** lifeline_update on one node: a burning node loses one unit of life and
      burns out once its life is negative; other nodes are untouched. */
  function Decayed(n: Node): (r: Node)
    ensures n.state != Burning ==> r == n
    ensures n.state == Burning ==> r.life == n.life - 1
    ensures n.state == Burning ==> (r.state == Burnt <==> r.life < 0)
    ensures n.state == Burning ==> (r.state == Burning || r.state == Burnt)
    ensures n.state == Burning && r.state == Burnt ==> r.color == Brown
    ensures r.state == Burning ==> r.color == n.color
    ensures r.threshold == n.threshold && r.pos == n.pos && r.activeNeighbors == n.activeNeighbors
  {
    if n.state == Burning then
      var l := n.life - 1;
      if l < 0 then n.(life := l, state := Burnt, color := Brown) else n.(life := l)
    else n
  }

  /** life_edge_update on one edge: only an orange edge loses life, and it
      turns brown exactly when its life goes negative. */
  function EdgeDecayed(e: Edge): (r: Edge)
    ensures e.color != Orange ==> r == e
    ensures e.color == Orange ==> r.life == e.life - 1
    ensures e.color == Orange ==> (r.color == Brown <==> r.life < 0)
    ensures e.color == Orange ==> (r.color == Orange || r.color == Brown)
    ensures r.u == e.u && r.v == e.v && r.w == e.w && r.strength == e.strength && r.windDir == e.windDir
  {
    if e.color == Orange then
      var l := e.life - 1;
      if l < 0 then e.(life := l, color := Brown) else e.(life := l)
    else e
  }

  /** The number of burning neighbours of id among the first k edges. */
  function BurningNeighbourCount(nodes: seq<Node>, edges: seq<Edge>, id: nat, k: nat): (c: nat)
    requires k <= |edges|
    ensures c <= k
  {
    if k == 0 then 0
    else
      BurningNeighbourCount(nodes, edges, id, k - 1) +
      (if Incident(edges[k - 1], id) && IsBurningId(nodes, Other(edges[k - 1], id)) then 1 else 0)
  }

  /** The count is zero exactly when none of the first k edges leads from id
      to a burning node. */
  lemma {:induction false} BurningNeighbourCountZero(nodes: seq<Node>, edges: seq<Edge>, id: nat, k: nat)
    requires k <= |edges|
    ensures BurningNeighbourCount(nodes, edges, id, k) == 0 <==>
            forall j :: 0 <= j < k && Incident(edges[j], id) ==> !IsBurningId(nodes, Other(edges[j], id))
  {
    if k > 0 {
      BurningNeighbourCountZero(nodes, edges, id, k - 1);
    }
  }

  /** The count reads nothing of the nodes but their states, and nothing of
      the edges but their endpoints. */
  lemma {:induction false} BurningNeighbourCountFrame(n1: seq<Node>, n2: seq<Node>, e1: seq<Edge>, e2: seq<Edge>,
                                                       id: nat, k: nat)
    requires k <= |e1| && |e1| == |e2| && |n1| == |n2|
    requires forall i :: 0 <= i < |n1| ==> n1[i].state == n2[i].state
    requires forall j :: 0 <= j < |e1| ==> e1[j].u == e2[j].u && e1[j].v == e2[j].v
    ensures BurningNeighbourCount(n1, e1, id, k) == BurningNeighbourCount(n2, e2, id, k)
  {
    if k > 0 {
      BurningNeighbourCountFrame(n1, n2, e1, e2, id, k - 1);
    }
  }

  /** Whether an endpoint of e among the ids 1..i is a burnt node. */
  predicate BurntEndpointUpTo(nodes: seq<Node>, e: Edge, i: nat)
  {
    (e.u <= i && IsNodeId(nodes, e.u) && nodes[e.u - 1].state == Burnt) ||
    (e.v <= i && IsNodeId(nodes, e.v) && nodes[e.v - 1].state == Burnt)
  }

  /** Whether an endpoint of e is a burnt node. */
  predicate TouchesBurnt(nodes: seq<Node>, e: Edge)
  {
    (IsNodeId(nodes, e.u) && nodes[e.u - 1].state == Burnt) ||
    (IsNodeId(nodes, e.v) && nodes[e.v - 1].state == Burnt)
  }

  /** The state changes one incinerate step allows: empty and burnt nodes
      never change, a burning node stays burning or burns out, and a
      not-burnt node may ignite (burning out in the same step if it has no
      life left). */
  predicate StepTransition(s: FireState, t: FireState)
  {
    match s
    case Empty => t == Empty
    case Burnt => t == Burnt
    case Burning => t == Burning || t == Burnt
    case NotBurnt => t != Empty
  }

  /** The scan has proposed exactly the scheduled pairs of the nodes before
      b, and those of b along its first k edges. */
  ghost predicate ScannedUpTo(nodes: seq<Node>, edges: seq<Edge>,
                              edgeNoise: (nat, nat, nat) -> real, thresholdNoise: (nat, nat) -> real,
                              list: seq<(nat, nat)>, b: nat, k: nat)
    requires k <= |edges|
  {
    forall p :: p in list <==>
      Schedules(nodes, edges, edgeNoise, thresholdNoise, p.1, p.0) &&
      (p.1 < b || (p.1 == b && JoinedWithin(edges, p.1, p.0, k)))
  }

  /** What the scan's step of burning node b along edge k leaves in the list. */
  ghost function ScanStepList(nodes: seq<Node>, edges: seq<Edge>,
                              edgeNoise: (nat, nat, nat) -> real, thresholdNoise: (nat, nat) -> real,
                              list: seq<(nat, nat)>, b: nat, k: nat): seq<(nat, nat)>
    requires k < |edges|
  {
    var nb := Other(edges[k], b);
    if Incident(edges[k], b) && IsNodeId(nodes, nb) && nodes[nb - 1].state == NotBurnt &&
       Reaches(nodes, edges, edgeNoise, thresholdNoise, b, nb)
    then list + [(nb, b)] else list
  }

  lemma ScanStep(nodes: seq<Node>, edges: seq<Edge>,
                 edgeNoise: (nat, nat, nat) -> real, thresholdNoise: (nat, nat) -> real,
                 list: seq<(nat, nat)>, b: nat, k: nat)
    requires EdgesWellFormed(nodes, edges)
    requires IsBurningId(nodes, b) && k < |edges|
    requires ScannedUpTo(nodes, edges, edgeNoise, thresholdNoise, list, b, k)
    ensures ScannedUpTo(nodes, edges, edgeNoise, thresholdNoise,
                        ScanStepList(nodes, edges, edgeNoise, thresholdNoise, list, b, k), b, k + 1)
  {
    var e := edges[k];
    var next := ScanStepList(nodes, edges, edgeNoise, thresholdNoise, list, b, k);
    forall p: (nat, nat)
      ensures p in next <==>
        Schedules(nodes, edges, edgeNoise, thresholdNoise, p.1, p.0) &&
        (p.1 < b || (p.1 == b && JoinedWithin(edges, p.1, p.0, k + 1)))
    {
      if p.1 == b && Joins(e, b, p.0) {
        assert p.0 == Other(e, b);
        JoinedWithinMeans(edges, b, p.0, |edges|);
      }
    }
  }

  lemma ScanNextNode(nodes: seq<Node>, edges: seq<Edge>,
                     edgeNoise: (nat, nat, nat) -> real, thresholdNoise: (nat, nat) -> real,
                     list: seq<(nat, nat)>, b: nat)
    requires ScannedUpTo(nodes, edges, edgeNoise, thresholdNoise, list, b, |edges|)
    ensures ScannedUpTo(nodes, edges, edgeNoise, thresholdNoise, list, b + 1, 0)
  {
  }

  lemma ScanSkipNode(nodes: seq<Node>, edges: seq<Edge>,
                     edgeNoise: (nat, nat, nat) -> real, thresholdNoise: (nat, nat) -> real,
                     list: seq<(nat, nat)>, b: nat)
    requires !IsBurningId(nodes, b)
    requires ScannedUpTo(nodes, edges, edgeNoise, thresholdNoise, list, b, 0)
    ensures ScannedUpTo(nodes, edges, edgeNoise, thresholdNoise, list, b + 1, 0)
  {
  }

  lemma ScanDone(nodes: seq<Node>, edges: seq<Edge>,
                 edgeNoise: (nat, nat, nat) -> real, thresholdNoise: (nat, nat) -> real,
                 list: seq<(nat, nat)>)
    requires ScannedUpTo(nodes, edges, edgeNoise, thresholdNoise, list, |nodes| + 1, 0)
    ensures forall p :: p in list <==> Schedules(nodes, edges, edgeNoise, thresholdNoise, p.1, p.0)
  {
  }

  /** The scan's list after burning node b has looked along its first k
      edges, starting from list. */
  ghost function ScanEdges(nodes: seq<Node>, edges: seq<Edge>,
                           edgeNoise: (nat, nat, nat) -> real, thresholdNoise: (nat, nat) -> real,
                           list: seq<(nat, nat)>, b: nat, k: nat): seq<(nat, nat)>
    requires k <= |edges|
  {
    if k == 0 then list
    else ScanStepList(nodes, edges, edgeNoise, thresholdNoise,
                      ScanEdges(nodes, edges, edgeNoise, thresholdNoise, list, b, k - 1), b, k - 1)
  }

  /** The scan's list once every node before b has been examined. */
  ghost function ScanBefore(nodes: seq<Node>, edges: seq<Edge>,
                            edgeNoise: (nat, nat, nat) -> real, thresholdNoise: (nat, nat) -> real,
                            b: nat): seq<(nat, nat)>
  {
    if b <= 1 then []
    else
      var list := ScanBefore(nodes, edges, edgeNoise, thresholdNoise, b - 1);
      if IsBurningId(nodes, b - 1) then ScanEdges(nodes, edges, edgeNoise, thresholdNoise, list, b - 1, |edges|)
      else list
  }

  /** The list the whole scan builds: every node in id order, and each
      burning one along every edge in edge order. */
  ghost function ScanList(nodes: seq<Node>, edges: seq<Edge>,
                          edgeNoise: (nat, nat, nat) -> real, thresholdNoise: (nat, nat) -> real): seq<(nat, nat)>
  {
    ScanBefore(nodes, edges, edgeNoise, thresholdNoise, |nodes| + 1)
  }

  /** Scanning the first k edges of burning node b proposes exactly b's
      scheduled pairs along them, after the pairs it started from. */
  lemma {:induction false} ScanEdgesScanned(nodes: seq<Node>, edges: seq<Edge>,
                                            edgeNoise: (nat, nat, nat) -> real, thresholdNoise: (nat, nat) -> real,
                                            list: seq<(nat, nat)>, b: nat, k: nat)
    requires EdgesWellFormed(nodes, edges) && IsBurningId(nodes, b) && k <= |edges|
    requires ScannedUpTo(nodes, edges, edgeNoise, thresholdNoise, list, b, 0)
    ensures ScannedUpTo(nodes, edges, edgeNoise, thresholdNoise,
                        ScanEdges(nodes, edges, edgeNoise, thresholdNoise, list, b, k), b, k)
    ensures var l := ScanEdges(nodes, edges, edgeNoise, thresholdNoise, list, b, k);
            |list| <= |l| && l[..|list|] == list && forall i :: |list| <= i < |l| ==> l[i].1 == b
  {
    if k > 0 {
      var prev := ScanEdges(nodes, edges, edgeNoise, thresholdNoise, list, b, k - 1);
      ScanEdgesScanned(nodes, edges, edgeNoise, thresholdNoise, list, b, k - 1);
      ScanStep(nodes, edges, edgeNoise, thresholdNoise, prev, b, k - 1);
      var l := ScanEdges(nodes, edges, edgeNoise, thresholdNoise, list, b, k);
      assert l == prev || l == prev + [(Other(edges[k - 1], b), b)];
      assert l[..|prev|] == prev;
    }
  }

  /** After the nodes before b, the list holds exactly their scheduled
      pairs, grouped by igniting node in id order. */
  lemma {:induction false} ScanBeforeScanned(nodes: seq<Node>, edges: seq<Edge>,
                                             edgeNoise: (nat, nat, nat) -> real, thresholdNoise: (nat, nat) -> real,
                                             b: nat)
    requires EdgesWellFormed(nodes, edges) && 1 <= b <= |nodes| + 1
    ensures var l := ScanBefore(nodes, edges, edgeNoise, thresholdNoise, b);
            ScannedUpTo(nodes, edges, edgeNoise, thresholdNoise, l, b, 0) &&
            (forall i, j :: 0 <= i < j < |l| ==> l[i].1 <= l[j].1) &&
            (forall i :: 0 <= i < |l| ==> l[i].1 < b)
  {
    if b > 1 {
      var list := ScanBefore(nodes, edges, edgeNoise, thresholdNoise, b - 1);
      ScanBeforeScanned(nodes, edges, edgeNoise, thresholdNoise, b - 1);
      if IsBurningId(nodes, b - 1) {
        ScanEdgesScanned(nodes, edges, edgeNoise, thresholdNoise, list, b - 1, |edges|);
        var l := ScanEdges(nodes, edges, edgeNoise, thresholdNoise, list, b - 1, |edges|);
        ScanNextNode(nodes, edges, edgeNoise, thresholdNoise, l, b - 1);
        forall i, j | 0 <= i < j < |l|
          ensures l[i].1 <= l[j].1
        {
          if j < |list| {
            assert l[i] == list[i] && l[j] == list[j];
          } else if i < |list| {
            assert l[i] == list[i];
          }
        }
        forall i | 0 <= i < |l|
          ensures l[i].1 < b
        {
          if i < |list| {
            assert l[i] == list[i];
          }
        }
      } else {
        ScanSkipNode(nodes, edges, edgeNoise, thresholdNoise, list, b - 1);
      }
    }
  }

  /** The whole scan's list holds exactly the scheduled pairs, grouped by
      igniting node in id order, and names only not-burnt nodes. */
  lemma ScanListSchedules(nodes: seq<Node>, edges: seq<Edge>,
                          edgeNoise: (nat, nat, nat) -> real, thresholdNoise: (nat, nat) -> real)
    requires EdgesWellFormed(nodes, edges)
    ensures var l := ScanList(nodes, edges, edgeNoise, thresholdNoise);
            (forall p :: p in l <==> Schedules(nodes, edges, edgeNoise, thresholdNoise, p.1, p.0)) &&
            (forall i, j :: 0 <= i < j < |l| ==> l[i].1 <= l[j].1) &&
            (forall j :: 0 <= j < |l| ==> IsNodeId(nodes, l[j].0) && nodes[l[j].0 - 1].state == NotBurnt)
  {
    var l := ScanList(nodes, edges, edgeNoise, thresholdNoise);
    ScanBeforeScanned(nodes, edges, edgeNoise, thresholdNoise, |nodes| + 1);
    ScanDone(nodes, edges, edgeNoise, thresholdNoise, l);
    forall j | 0 <= j < |l|
      ensures IsNodeId(nodes, l[j].0) && nodes[l[j].0 - 1].state == NotBurnt
    {
      assert l[j] in l;
    }
  }

  /** nodesNow and edgesNow are what applying list to nodes0 and edges0 gives. */
  ghost predicate AppliedUpTo(nodes0: seq<Node>, edges0: seq<Edge>, list: seq<(nat, nat)>, rule: IgnitionRule,
                              nodesNow: seq<Node>, edgesNow: seq<Edge>)
  {
    |nodesNow| == |nodes0| && |edgesNow| == |edges0| &&
    (forall i :: 0 <= i < |nodes0| ==> nodesNow[i] == NodeAfter(nodes0, list, rule, i)) &&
    (forall k :: 0 <= k < |edges0| ==> edgesNow[k] == EdgeAfter(nodes0, list, rule, edges0[k]))
  }

  lemma AppliedNothing(nodes0: seq<Node>, edges0: seq<Edge>, rule: IgnitionRule)
    ensures AppliedUpTo(nodes0, edges0, [], rule, nodes0, edges0)
  {
  }

  /** The edges after the ones joining a and b turn orange. */
  function LitEdges(edges: seq<Edge>, a: nat, b: nat): (r: seq<Edge>)
    ensures |r| == |edges|
    ensures forall k :: 0 <= k < |edges| ==>
              r[k] == if Joins(edges[k], a, b) then edges[k].(color := Orange) else edges[k]
  {
    seq(|edges|, k requires 0 <= k < |edges| =>
      if Joins(edges[k], a, b) then edges[k].(color := Orange) else edges[k])
  }

  lemma FirstIgniterSnoc(list: seq<(nat, nat)>, p: (nat, nat), x: nat)
    ensures FirstIgniter(list + [p], x) == if FirstIgniter(list, x).Some? then FirstIgniter(list, x)
                                           else if p.0 == x then Some(p.1) else None
  {
    var next := list + [p];
    assert next[..|next| - 1] == list;
  }

  /** A node is eligible in the current state exactly when no earlier pair
      named it and it was eligible at the start: an ignited node is burning,
      and no rule admits a burning node. */
  lemma EligibleNow(nodes0: seq<Node>, list: seq<(nat, nat)>, rule: IgnitionRule, now: Node, i: nat)
    requires i < |nodes0| && now == NodeAfter(nodes0, list, rule, i)
    ensures Eligible(rule, now.state) <==> FirstIgniter(list, i + 1).None? && Eligible(rule, nodes0[i].state)
  {
  }

  /** Applying one more pair: the named node ignites when it is eligible in
      the current state, and then the edges joining it to its igniter turn
      orange. */
  lemma ApplyStep(nodes0: seq<Node>, edges0: seq<Edge>, list: seq<(nat, nat)>, p: (nat, nat), rule: IgnitionRule,
                  nodesNow: seq<Node>, edgesNow: seq<Edge>)
    requires IsNodeId(nodes0, p.0)
    requires AppliedUpTo(nodes0, edges0, list, rule, nodesNow, edgesNow)
    ensures Eligible(rule, nodesNow[p.0 - 1].state) ==>
              AppliedUpTo(nodes0, edges0, list + [p], rule,
                          nodesNow[p.0 - 1 := Ignited(nodesNow[p.0 - 1])], LitEdges(edgesNow, p.1, p.0))
    ensures !Eligible(rule, nodesNow[p.0 - 1].state) ==>
              AppliedUpTo(nodes0, edges0, list + [p], rule, nodesNow, edgesNow)
  {
    var fire := Eligible(rule, nodesNow[p.0 - 1].state);
    var nodesNext := if fire then nodesNow[p.0 - 1 := Ignited(nodesNow[p.0 - 1])] else nodesNow;
    var edgesNext := if fire then LitEdges(edgesNow, p.1, p.0) else edgesNow;
    forall i | 0 <= i < |nodes0|
      ensures nodesNext[i] == NodeAfter(nodes0, list + [p], rule, i)
    {
      ApplyStepNode(nodes0, list, p, rule, nodesNow[p.0 - 1], nodesNow[i], i);
    }
    forall k | 0 <= k < |edges0|
      ensures edgesNext[k] == EdgeAfter(nodes0, list + [p], rule, edges0[k])
    {
      ApplyStepEdge(nodes0, list, p, rule, nodesNow[p.0 - 1], edgesNow[k], edges0[k]);
    }
  }

  /** ApplyStep at node i, where the named node is now target. */
  lemma ApplyStepNode(nodes0: seq<Node>, list: seq<(nat, nat)>, p: (nat, nat), rule: IgnitionRule,
                      target: Node, now: Node, i: nat)
    requires IsNodeId(nodes0, p.0) && i < |nodes0|
    requires target == NodeAfter(nodes0, list, rule, p.0 - 1) && now == NodeAfter(nodes0, list, rule, i)
    ensures (if Eligible(rule, target.state) && i == p.0 - 1 then Ignited(target) else now) ==
            NodeAfter(nodes0, list + [p], rule, i)
  {
    EligibleNow(nodes0, list, rule, target, p.0 - 1);
    FirstIgniterSnoc(list, p, i + 1);
  }

  /** ApplyStep at edge e, where the named node is now target. */
  lemma ApplyStepEdge(nodes0: seq<Node>, list: seq<(nat, nat)>, p: (nat, nat), rule: IgnitionRule,
                      target: Node, now: Edge, e: Edge)
    requires IsNodeId(nodes0, p.0)
    requires target == NodeAfter(nodes0, list, rule, p.0 - 1) && now == EdgeAfter(nodes0, list, rule, e)
    ensures (if Eligible(rule, target.state) && Joins(e, p.1, p.0) then now.(color := Orange) else now) ==
            EdgeAfter(nodes0, list + [p], rule, e)
  {
    IgnitesViaSnoc(nodes0, list, p, rule, target, e.v, e.u);
    IgnitesViaSnoc(nodes0, list, p, rule, target, e.u, e.v);
  }

  /** One more pair p adds exactly the ignition p names, when its node is
      eligible in the current state target. */
  lemma IgnitesViaSnoc(nodes0: seq<Node>, list: seq<(nat, nat)>, p: (nat, nat), rule: IgnitionRule,
                       target: Node, x: nat, y: nat)
    requires IsNodeId(nodes0, p.0) && target == NodeAfter(nodes0, list, rule, p.0 - 1)
    ensures IgnitesVia(nodes0, list + [p], rule, x, y) <==>
            IgnitesVia(nodes0, list, rule, x, y) || ((x, y) == p && Eligible(rule, target.state))
  {
    EligibleNow(nodes0, list, rule, target, p.0 - 1);
    FirstIgniterSnoc(list, p, x);
  }

  /** With one edge joining a and b, lighting the pair recolours that edge only. */
  lemma LitOneEdge(nodes: seq<Node>, edges: seq<Edge>, k: nat, a: nat, b: nat)
    requires EdgesWellFormed(nodes, edges) && k < |edges| && Joins(edges[k], a, b)
    ensures LitEdges(edges, a, b) == edges[k := edges[k].(color := Orange)]
  {
    forall k2 | 0 <= k2 < |edges| && Joins(edges[k2], a, b)
      ensures k2 == k
    {
      JoinsUnique(nodes, edges, k, k2, a, b);
    }
  }

  lemma LitNoEdge(edges: seq<Edge>, a: nat, b: nat)
    requires !Adjacent(edges, a, b)
    ensures LitEdges(edges, a, b) == edges
  {
    JoinedWithinMeans(edges, a, b, |edges|);
  }

  /** The invariant of the forest: the colour list mirrors the node colours,
      burnt nodes are brown, and the edges are well formed. */
  ghost predicate Consistent(nodes: seq<Node>, colors: seq<Color>, edges: seq<Edge>)
  {
    |colors| == |nodes| &&
    (forall i :: 0 <= i < |nodes| ==> colors[i] == nodes[i].color) &&
    (forall i :: 0 <= i < |nodes| && nodes[i].state == Burnt ==> nodes[i].color == Brown) &&
    EdgesWellFormed(nodes, edges)
  }

  /** Igniting a node via another keeps the invariant. */
  lemma IgnitedConsistent(nodes: seq<Node>, colors: seq<Color>, edges: seq<Edge>, nb: nat, via: nat)
    requires Consistent(nodes, colors, edges) && IsNodeId(nodes, nb)
    ensures Consistent(nodes[nb - 1 := Ignited(nodes[nb - 1])], colors[nb - 1 := Orange], LitEdges(edges, via, nb))
  {
    var nodes' := nodes[nb - 1 := Ignited(nodes[nb - 1])];
    LitKeepsEdgesWellFormed(nodes, edges, LitEdges(edges, via, nb));
    NonEmptyKeepsEdgesWellFormed(nodes, nodes', LitEdges(edges, via, nb));
  }

  /** Changes that never empty a node, and recolourings of edges, keep the
      edge invariant. */
  lemma NonEmptyKeepsEdgesWellFormed(nodes: seq<Node>, nodes': seq<Node>, edges: seq<Edge>)
    requires EdgesWellFormed(nodes, edges) && |nodes'| == |nodes|
    requires forall i :: 0 <= i < |nodes| && nodes[i].state != Empty ==> nodes'[i].state != Empty
    ensures EdgesWellFormed(nodes', edges)
  {
    forall k | 0 <= k < |edges|
      ensures nodes'[edges[k].u - 1].state != Empty && nodes'[edges[k].v - 1].state != Empty
    {
    }
  }

  lemma LitKeepsEdgesWellFormed(nodes: seq<Node>, edges: seq<Edge>, edges': seq<Edge>)
    requires EdgesWellFormed(nodes, edges) && |edges'| == |edges|
    requires forall k :: 0 <= k < |edges| ==> edges'[k].u == edges[k].u && edges'[k].v == edges[k].v
    ensures EdgesWellFormed(nodes, edges')
  {
  }

  /** The hit list extended by one ember's outcome. */
  function Landed(hits: seq<(nat, nat)>, t: Option<nat>, bnode: nat): seq<(nat, nat)>
  {
    if t.Some? then hits + [(t.value, bnode)] else hits
  }

  lemma EmberHitsSnoc(nodes: seq<Node>, pool: seq<nat>, burning: seq<nat>, j: nat,
                      draws: nat -> EmberDraw, cellScale: real)
    requires IdsIn(nodes, burning) && IdsIn(nodes, pool) && cellScale > 0.0 && j < |burning|
    ensures EmberHits(nodes, pool, burning[..j + 1], draws, cellScale) ==
            Landed(EmberHits(nodes, pool, burning[..j], draws, cellScale),
                   EmberTarget(nodes, pool, burning[j], draws(burning[j]), cellScale), burning[j])
  {
    assert burning[..j + 1][..j] == burning[..j];
  }

  /** No ember lands when there is nothing left to ignite. */
  lemma {:induction false} EmberHitsEmptyPool(nodes: seq<Node>, pool: seq<nat>, burning: seq<nat>,
                                               draws: nat -> EmberDraw, cellScale: real)
    requires IdsIn(nodes, burning) && IdsIn(nodes, pool) && cellScale > 0.0 && |pool| == 0
    ensures EmberHits(nodes, pool, burning, draws, cellScale) == []
  {
    if |burning| > 0 {
      EmberHitsEmptyPool(nodes, pool, burning[..|burning| - 1], draws, cellScale);
    }
  }

  /** The candidate loop of the ember pass. */
  method CollectEmberCandidates(nodes: seq<Node>, pool: seq<nat>, bnode: nat, cellScale: real)
    returns (candidates: seq<nat>)
    requires IsNodeId(nodes, bnode) && IdsIn(nodes, pool) && cellScale > 0.0
    ensures candidates == EmberCandidates(nodes, pool, bnode, cellScale)
  {
    candidates := [];
    var i := 0;
    var bpos := nodes[bnode - 1].pos;
    while i < |pool|
      invariant 0 <= i <= |pool|
      invariant candidates == EmberCandidates(nodes, pool[..i], bnode, cellScale)
    {
      assert pool[..i + 1][..i] == pool[..i];
      var n := pool[i];
      assert n in pool;
      var npos := nodes[n - 1].pos;
      var dx := Abs(npos.0 - bpos.0) / cellScale;
      var dy := Abs(npos.1 - bpos.1) / cellScale;
      if dx <= EmberRadius && dy <= EmberRadius {
        candidates := candidates + [n];
      }
      i := i + 1;
    }
    assert pool[..i] == pool;
  }

  /** The draws of one ember: whether it flies, its near candidates or, when
      there are none, the whole pool, whether it lands and where. */
  method DrawEmberTarget(nodes: seq<Node>, pool: seq<nat>, bnode: nat, d: EmberDraw, cellScale: real)
    returns (t: Option<nat>)
    requires IsNodeId(nodes, bnode) && IdsIn(nodes, pool) && cellScale > 0.0 && |pool| > 0
    ensures t == EmberTarget(nodes, pool, bnode, d, cellScale)
    ensures t.Some? ==> IsNodeId(nodes, t.value)
  {
    t := None;
    if d.spark < EmberProb {
      var candidates := CollectEmberCandidates(nodes, pool, bnode, cellScale);
      if |candidates| == 0 && d.fallback < EmberFallbackProb {
        candidates := pool;
      }
      if |candidates| > 0 && d.land < EmberLandProb {
        t := Some(Choice(candidates, d.pick));
      }
    }
  }

  /** The inner loop of update_active_neighbors: the burning neighbours of id. */
  method CountBurningNeighbours(nodes: seq<Node>, edges: seq<Edge>, id: nat) returns (num: nat)
    ensures num == BurningNeighbourCount(nodes, edges, id, |edges|)
  {
    num := 0;
    var k := 0;
    while k < |edges|
      invariant 0 <= k <= |edges|
      invariant num == BurningNeighbourCount(nodes, edges, id, k)
    {
      if Incident(edges[k], id) {
        var m := Other(edges[k], id);
        if IsBurningId(nodes, m) {
          num := num + 1;
        }
      }
      k := k + 1;
    }
  }

  /** updated is nodes with every node's count of burning neighbours
      recomputed from nodes. */
  ghost predicate Recounted(nodes: seq<Node>, edges: seq<Edge>, updated: seq<Node>)
  {
    |updated| == |nodes| &&
    forall m :: 0 <= m < |nodes| ==>
      updated[m] == nodes[m].(activeNeighbors := BurningNeighbourCount(nodes, edges, m + 1, |edges|))
  }

  /** The outer loop of update_active_neighbors, on a copy of the nodes. */
  method RecountNodes(nodes: seq<Node>, edges: seq<Edge>) returns (updated: seq<Node>)
    ensures Recounted(nodes, edges, updated)
  {
    updated := nodes;
    var i := 0;
    while i < |updated|
      invariant 0 <= i <= |updated| && |updated| == |nodes|
      invariant forall m :: 0 <= m < i ==>
                  updated[m] == nodes[m].(activeNeighbors := BurningNeighbourCount(nodes, edges, m + 1, |edges|))
      invariant forall m :: i <= m < |updated| ==> updated[m] == nodes[m]
    {
      var num := CountBurningNeighbours(nodes, edges, i + 1);
      updated := updated[i := updated[i].(activeNeighbors := num)];
      i := i + 1;
    }
  }

  /** Recounting changes no state and no colour, so it keeps the invariant,
      and since the states are those the counts were read from, every
      recorded count is the count in the new nodes. */
  lemma RecountedConsistent(nodes: seq<Node>, colors: seq<Color>, edges: seq<Edge>, updated: seq<Node>)
    requires Consistent(nodes, colors, edges) && Recounted(nodes, edges, updated)
    ensures Consistent(updated, colors, edges)
    ensures forall m :: 0 <= m < |updated| ==>
              updated[m].activeNeighbors == BurningNeighbourCount(updated, edges, m + 1, |edges|)
  {
    forall m | 0 <= m < |updated|
      ensures updated[m].activeNeighbors == BurningNeighbourCount(updated, edges, m + 1, |edges|)
    {
      BurningNeighbourCountFrame(updated, nodes, edges, edges, m + 1, |edges|);
    }
    NonEmptyKeepsEdgesWellFormed(nodes, updated, edges);
  }

  /** A pass of ignitions leaves a node as it was or ignites a not-burnt one. */
  predicate IgnitedOrSame(n0: Node, n1: Node)
  {
    n1 == n0 || (n0.state == NotBurnt && n1 == Ignited(n0))
  }

  /** An ignition pass changes nodes only by igniting not-burnt ones, and
      edges only by turning them orange. */
  lemma AppliedIgnitesOrKeeps(nodes0: seq<Node>, edges0: seq<Edge>, list: seq<(nat, nat)>, rule: IgnitionRule,
                              nodesNow: seq<Node>, edgesNow: seq<Edge>)
    requires AppliedUpTo(nodes0, edges0, list, rule, nodesNow, edgesNow)
    requires rule == UnlessBurning ==>
               forall j :: 0 <= j < |list| ==> IsNodeId(nodes0, list[j].0) && nodes0[list[j].0 - 1].state == NotBurnt
    ensures forall i :: 0 <= i < |nodes0| ==> IgnitedOrSame(nodes0[i], nodesNow[i])
    ensures forall k :: 0 <= k < |edges0| ==>
              edgesNow[k] == edges0[k] || edgesNow[k] == edges0[k].(color := Orange)
  {
    forall i | 0 <= i < |nodes0|
      ensures IgnitedOrSame(nodes0[i], nodesNow[i])
    {
      if FirstIgniter(list, i + 1).Some? && rule == UnlessBurning {
        var p := (i + 1, FirstIgniter(list, i + 1).value);
        assert p in list;
        var j :| 0 <= j < |list| && list[j] == p;
      }
    }
  }

  /** The life of one node across the step: ignition, ember, decay and the
      neighbour count. */
  lemma NodeStepChain(n0: Node, n1: Node, n2: Node, n3: Node, n4: Node)
    requires IgnitedOrSame(n0, n1) && IgnitedOrSame(n1, n2) && n3 == Decayed(n2)
    requires n4 == n3.(activeNeighbors := n4.activeNeighbors)
    ensures StepTransition(n0.state, n4.state)
    ensures n0.state == Burning ==> n4.life == n0.life - 1
    ensures n4.pos == n0.pos && n4.threshold == n0.threshold
  {
  }

  /** The node half of the decay pass: lifeline_update, then the counts. */
  lemma DecayNodesCompose(n0: seq<Node>, n1: seq<Node>, n3: seq<Node>)
    requires |n1| == |n0| && forall i :: 0 <= i < |n1| ==> n1[i] == Decayed(n0[i])
    requires |n3| == |n1| && forall i :: 0 <= i < |n3| ==> n3[i] == n1[i].(activeNeighbors := n3[i].activeNeighbors)
    ensures forall i :: 0 <= i < |n3| ==> n3[i] == Decayed(n0[i]).(activeNeighbors := n3[i].activeNeighbors)
  {
  }

  /** The edge half of the decay pass: life_edge_update, then browning. */
  lemma DecayEdgesCompose(nodes: seq<Node>, e0: seq<Edge>, e1: seq<Edge>, e3: seq<Edge>)
    requires |e1| == |e0| && forall k :: 0 <= k < |e1| ==> e1[k] == EdgeDecayed(e0[k])
    requires |e3| == |e1| && forall k :: 0 <= k < |e3| ==>
               e3[k] == if TouchesBurnt(nodes, e1[k]) then e1[k].(color := Brown) else e1[k]
    ensures forall k :: 0 <= k < |e3| ==>
              e3[k] == if TouchesBurnt(nodes, e0[k]) then EdgeDecayed(e0[k]).(color := Brown) else EdgeDecayed(e0[k])
  {
    forall k | 0 <= k < |e3|
      ensures e3[k] == if TouchesBurnt(nodes, e0[k]) then EdgeDecayed(e0[k]).(color := Brown) else EdgeDecayed(e0[k])
    {
      assert e1[k].u == e0[k].u && e1[k].v == e0[k].v;
    }
  }

  /** Two ignition passes in a row are again one. */
  lemma SpreadCompose(n0: seq<Node>, n1: seq<Node>, n2: seq<Node>, e0: seq<Edge>, e1: seq<Edge>, e2: seq<Edge>)
    requires |n1| == |n0| && forall i :: 0 <= i < |n0| ==> IgnitedOrSame(n0[i], n1[i])
    requires |n2| == |n1| && forall i :: 0 <= i < |n1| ==> IgnitedOrSame(n1[i], n2[i])
    requires |e1| == |e0| && forall k :: 0 <= k < |e0| ==> e1[k] == e0[k] || e1[k] == e0[k].(color := Orange)
    requires |e2| == |e1| && forall k :: 0 <= k < |e1| ==> e2[k] == e1[k] || e2[k] == e1[k].(color := Orange)
    ensures forall i :: 0 <= i < |n2| ==> IgnitedOrSame(n0[i], n2[i])
    ensures forall k :: 0 <= k < |e2| ==> e2[k] == e0[k] || e2[k] == e0[k].(color := Orange)
  {
  }

  /** Browning edges leaves every neighbour count as it was. */
  lemma {:induction false} CountsSurviveBrowning(nodes: seq<Node>, e1: seq<Edge>, e2: seq<Edge>)
    requires |e2| == |e1| && forall k :: 0 <= k < |e2| ==>
               e2[k] == if TouchesBurnt(nodes, e1[k]) then e1[k].(color := Brown) else e1[k]
    requires forall i :: 0 <= i < |nodes| ==> nodes[i].activeNeighbors == BurningNeighbourCount(nodes, e1, i + 1, |e1|)
    ensures forall i :: 0 <= i < |nodes| ==> nodes[i].activeNeighbors == BurningNeighbourCount(nodes, e2, i + 1, |e2|)
  {
    forall i | 0 <= i < |nodes|
      ensures nodes[i].activeNeighbors == BurningNeighbourCount(nodes, e2, i + 1, |e2|)
    {
      BurningNeighbourCountFrame(nodes, nodes, e1, e2, i + 1, |e1|);
    }
  }

  /** The whole step for the nodes: the spreading half, then the decay half. */
  lemma {:induction false} StepCompose(n0: seq<Node>, n1: seq<Node>, n2: seq<Node>)
    requires |n1| == |n0| && forall i :: 0 <= i < |n1| ==> IgnitedOrSame(n0[i], n1[i])
    requires |n2| == |n1| && forall i :: 0 <= i < |n2| ==> n2[i] == Decayed(n1[i]).(activeNeighbors := n2[i].activeNeighbors)
    ensures forall i :: 0 <= i < |n2| ==> StepTransition(n0[i].state, n2[i].state)
    ensures forall i :: 0 <= i < |n2| && n0[i].state == Burning ==> n2[i].life == n0[i].life - 1
    ensures forall i :: 0 <= i < |n2| ==> n2[i].pos == n0[i].pos && n2[i].threshold == n0[i].threshold
  {
    forall i | 0 <= i < |n2|
      ensures StepTransition(n0[i].state, n2[i].state)
      ensures n0[i].state == Burning ==> n2[i].life == n0[i].life - 1
      ensures n2[i].pos == n0[i].pos && n2[i].threshold == n0[i].threshold
    {
      NodeStepChain(n0[i], n1[i], n1[i], Decayed(n1[i]), n2[i]);
    }
  }

  /** The whole step for the edges. */
  lemma {:induction false} StepEdgesCompose(nodes: seq<Node>, e0: seq<Edge>, e1: seq<Edge>, e2: seq<Edge>)
    requires |e1| == |e0| && forall k :: 0 <= k < |e0| ==> e1[k] == e0[k] || e1[k] == e0[k].(color := Orange)
    requires |e2| == |e1| && forall k :: 0 <= k < |e2| ==>
               e2[k] == if TouchesBurnt(nodes, e1[k]) then EdgeDecayed(e1[k]).(color := Brown) else EdgeDecayed(e1[k])
    ensures forall k :: 0 <= k < |e2| ==>
              e2[k].u == e0[k].u && e2[k].v == e0[k].v && e2[k].w == e0[k].w && e2[k].strength == e0[k].strength
    ensures forall k :: 0 <= k < |e2| && TouchesBurnt(nodes, e2[k]) ==> e2[k].color == Brown
  {
    forall k | 0 <= k < |e2|
      ensures e2[k].u == e0[k].u && e2[k].v == e0[k].v && e2[k].w == e0[k].w && e2[k].strength == e0[k].strength
      ensures TouchesBurnt(nodes, e2[k]) ==> e2[k].color == Brown
    {
      assert EdgeDecayed(e1[k]).u == e1[k].u && EdgeDecayed(e1[k]).v == e1[k].v;
    }
  }

  // ---------------------------------------------------------------------
  // Wind (simulate_wind)
  // ---------------------------------------------------------------------

  /** The draws of one wind event: the choice of the centre node, the rounds
      of semi-axis draws, the magnitude and sign of the focus shift, and the
      uniform draw of each blown edge by its endpoints. */
  datatype WindDraws = WindDraws(
    centre: nat,
    axes: seq<(nat, nat)>,
    magnitude: nat,
    sign: nat,
    gamma: (nat, nat) -> real)

  /** The wind distance scale, fixed at 30 whatever scale the caller passes. */
  const WindDistScale: real := 30.0

  /** The semi-axis length, in position units, of a drawn semi-axis of a cells
      of five. */
  function WindScale(n: nat, a: int): (s: real)
    requires n > 0
    ensures a >= 1 ==> s > 0.0
  {
    a as real * CellScale(n) * 5.0
  }

  /** Whether node id lies in the wind ellipse: it exists, is not empty and
      its position lies within the ellipse. */
  predicate InZone(nodes: seq<Node>, id: nat, centre: (real, real), sa: real, sb: real)
    requires sa > 0.0 && sb > 0.0
  {
    IsNodeId(nodes, id) && nodes[id - 1].state != Empty && InEllipse(nodes[id - 1].pos, centre, sa, sb)
  }

  /** The node the wind direction is measured from: the centre shifted by the
      offset when that lands on an existing non-empty node, else the centre. */
  function ChooseFocus(nodes: seq<Node>, centre: nat, offset: int): (focus: nat)
    requires IsNodeId(nodes, centre) && nodes[centre - 1].state != Empty
    ensures IsNodeId(nodes, focus) && nodes[focus - 1].state != Empty
    ensures (1 <= centre + offset <= |nodes| && nodes[centre + offset - 1].state != Empty) ==>
              focus == centre + offset
    ensures !(1 <= centre + offset <= |nodes| && nodes[centre + offset - 1].state != Empty) ==>
              focus == centre
  {
    var f := centre + offset;
    if 1 <= f <= |nodes| && nodes[f - 1].state != Empty then f else centre
  }

  /** One edge after the wind: an edge with both endpoints in the ellipse gets
      the wind's weight, its direction relative to the focus position pf and
      strength 1; any other edge is left as it was. */
  function BlowEdge(num: Numerics, nodes: seq<Node>, e: Edge, centre: (real, real), sa: real, sb: real,
                    horizontal: bool, pf: (real, real), maxSpeed: real, eps: real,
                    gamma: (nat, nat) -> real): (r: Edge)
    requires sa > 0.0 && sb > 0.0
    ensures !(InZone(nodes, e.u, centre, sa, sb) && InZone(nodes, e.v, centre, sa, sb)) ==> r == e
    ensures InZone(nodes, e.u, centre, sa, sb) && InZone(nodes, e.v, centre, sa, sb) ==>
              r == e.(w := r.w, windDir := r.windDir, strength := 1) &&
              r.w >= 0.01 && IsHundredths(r.w) &&
              (horizontal ==> (r.windDir == 0.0 <==> nodes[e.u - 1].pos.0 > pf.0 && nodes[e.v - 1].pos.0 > pf.0)) &&
              (!horizontal ==> (r.windDir == 90.0 <==> nodes[e.u - 1].pos.1 > pf.1 && nodes[e.v - 1].pos.1 > pf.1)) &&
              (horizontal ==> r.windDir == 0.0 || r.windDir == 180.0) &&
              (!horizontal ==> r.windDir == 90.0 || r.windDir == 270.0)
  {
    if InZone(nodes, e.u, centre, sa, sb) && InZone(nodes, e.v, centre, sa, sb) then
      var p1 := nodes[e.u - 1].pos;
      var p2 := nodes[e.v - 1].pos;
      var angle := WindAngle(horizontal, p1, p2, pf);
      var w := EdgeWeight(num, maxSpeed, eps, 1, angle, Dist(num, p1, p2, WindDistScale), gamma(e.u, e.v));
      e.(w := w, windDir := angle, strength := 1)
    else e
  }

  /** The edge list after a wind event. */
  ghost predicate Blown(num: Numerics, nodes: seq<Node>, edges0: seq<Edge>, edges1: seq<Edge>,
                        centre: (real, real), sa: real, sb: real, horizontal: bool, pf: (real, real),
                        maxSpeed: real, eps: real, gamma: (nat, nat) -> real)
    requires sa > 0.0 && sb > 0.0
  {
    |edges1| == |edges0| &&
    forall k :: 0 <= k < |edges0| ==>
      edges1[k] == BlowEdge(num, nodes, edges0[k], centre, sa, sb, horizontal, pf, maxSpeed, eps, gamma)
  }

  /** The centre node of a wind event: a uniform choice among the non-empty
      nodes, or none when there is no such node. */
  function WindCentre(nodes: seq<Node>, d: WindDraws): (c: Option<nat>)
    ensures c.None? <==> CountNonEmpty(nodes) == 0
    ensures c.Some? ==> IsNodeId(nodes, c.value) && nodes[c.value - 1].state != Empty
  {
    var ids := NonEmptyIds(nodes);
    if |ids| == 0 then None
    else
      var c := Choice(ids, d.centre);
      assert c in ids;
      Some(c)
  }

  /** The focus node of a wind event around centre with semi-axes a and b:
      the centre moved by the drawn shift, c columns of the grid of side
      ceil(sqrt(n)) for a horizontal ellipse and c rows otherwise, when that
      lands on a non-empty node. */
  function WindFocus(nodes: seq<Node>, centre: nat, a: int, b: int, d: WindDraws): (f: nat)
    requires IsNodeId(nodes, centre) && nodes[centre - 1].state != Empty
    ensures IsNodeId(nodes, f) && nodes[f - 1].state != Empty
  {
    ChooseFocus(nodes, centre, FocusOffset(a, b, FocusShift(a, b, d.magnitude, d.sign), CeilSqrt(|nodes|)))
  }

  /** The edge list as a wind event drawn by d leaves it: unchanged without
      a non-empty node, else every edge blown around the drawn centre with
      the drawn semi-axes and focus. */
  ghost function WindEdges(num: Numerics, nodes: seq<Node>, edges: seq<Edge>, d: WindDraws,
                           maxSpeed: real, eps: real): (r: seq<Edge>)
    requires HasUnequalRound(d.axes)
    ensures |r| == |edges|
  {
    var c := WindCentre(nodes, d);
    if c.None? then edges
    else
      var ab := SemiAxes(d.axes);
      BlowList(num, nodes, edges, nodes[c.value - 1].pos, WindScale(|nodes|, ab.0), WindScale(|nodes|, ab.1),
               ab.0 > ab.1, nodes[WindFocus(nodes, c.value, ab.0, ab.1, d) - 1].pos, maxSpeed, eps, d.gamma)
  }

  /** Every edge blown by BlowEdge. */
  function BlowList(num: Numerics, nodes: seq<Node>, edges: seq<Edge>, centre: (real, real), sa: real, sb: real,
                    horizontal: bool, pf: (real, real), maxSpeed: real, eps: real,
                    gamma: (nat, nat) -> real): (r: seq<Edge>)
    requires sa > 0.0 && sb > 0.0
    ensures |r| == |edges|
    decreases |edges|
  {
    if |edges| == 0 then []
    else
      BlowList(num, nodes, edges[..|edges| - 1], centre, sa, sb, horizontal, pf, maxSpeed, eps, gamma) +
      [BlowEdge(num, nodes, edges[|edges| - 1], centre, sa, sb, horizontal, pf, maxSpeed, eps, gamma)]
  }

  /** Entry k of BlowList is edge k blown. */
  lemma {:induction false} BlowListAt(num: Numerics, nodes: seq<Node>, edges: seq<Edge>, centre: (real, real),
                                      sa: real, sb: real, horizontal: bool, pf: (real, real), maxSpeed: real,
                                      eps: real, gamma: (nat, nat) -> real)
    requires sa > 0.0 && sb > 0.0
    ensures forall k :: 0 <= k < |edges| ==>
              BlowList(num, nodes, edges, centre, sa, sb, horizontal, pf, maxSpeed, eps, gamma)[k] ==
              BlowEdge(num, nodes, edges[k], centre, sa, sb, horizontal, pf, maxSpeed, eps, gamma)
    decreases |edges|
  {
    if |edges| > 0 {
      var init := edges[..|edges| - 1];
      BlowListAt(num, nodes, init, centre, sa, sb, horizontal, pf, maxSpeed, eps, gamma);
      assert forall k :: 0 <= k < |init| ==> init[k] == edges[k];
    }
  }

  /** Once the centre and the semi-axes are drawn, the wind event blows
      every edge around that centre, with the semi-axes' scales and the
      drawn focus. */
  lemma WindEdgesIsBlowList(num: Numerics, nodes: seq<Node>, edges: seq<Edge>, d: WindDraws,
                            maxSpeed: real, eps: real, centre: nat, a: int, b: int)
    requires HasUnequalRound(d.axes) && WindCentre(nodes, d) == Some(centre) && (a, b) == SemiAxes(d.axes)
    ensures WindEdges(num, nodes, edges, d, maxSpeed, eps) ==
            BlowList(num, nodes, edges, nodes[centre - 1].pos, WindScale(|nodes|, a), WindScale(|nodes|, b),
                     a > b, nodes[WindFocus(nodes, centre, a, b, d) - 1].pos, maxSpeed, eps, d.gamma)
  {
    var c, ab := WindCentre(nodes, d), SemiAxes(d.axes);
    var pos, sa, sb := nodes[c.value - 1].pos, WindScale(|nodes|, ab.0), WindScale(|nodes|, ab.1);
    var pf := nodes[WindFocus(nodes, c.value, ab.0, ab.1, d) - 1].pos;
    assert WindEdges(num, nodes, edges, d, maxSpeed, eps) ==
           BlowList(num, nodes, edges, pos, sa, sb, ab.0 > ab.1, pf, maxSpeed, eps, d.gamma);
    assert c.value == centre && ab.0 == a && ab.1 == b;
  }

  /** What simulate_wind leaves: no centre and no change without a
      non-empty node, else the drawn centre's position, the drawn semi-axes
      and every edge blown around them with the drawn focus, which is the
      edge list WindEdges describes either way. */
  ghost predicate WindOutcome(num: Numerics, nodes: seq<Node>, edges0: seq<Edge>, edges1: seq<Edge>, d: WindDraws,
                              centrePos: Option<(real, real)>, a: int, b: int, maxSpeed: real, eps: real)
    requires HasUnequalRound(d.axes)
  {
    (centrePos.None? <==> WindCentre(nodes, d).None?) &&
    (centrePos.None? ==> a == 0 && b == 0 && edges1 == edges0) &&
    (centrePos.Some? ==>
       centrePos.value == nodes[WindCentre(nodes, d).value - 1].pos &&
       (a, b) == SemiAxes(d.axes) && a != b && 1 <= a <= RandomBound && 1 <= b <= RandomBound &&
       Blown(num, nodes, edges0, edges1, centrePos.value, WindScale(|nodes|, a), WindScale(|nodes|, b),
             a > b, nodes[WindFocus(nodes, WindCentre(nodes, d).value, a, b, d) - 1].pos, maxSpeed, eps, d.gamma)) &&
    edges1 == WindEdges(num, nodes, edges0, d, maxSpeed, eps)
  }

  /** Without a non-empty node the wind event leaves every edge as it was. */
  lemma WindWithoutCentre(num: Numerics, nodes: seq<Node>, edges: seq<Edge>, d: WindDraws, maxSpeed: real, eps: real)
    requires HasUnequalRound(d.axes) && |NonEmptyIds(nodes)| == 0
    ensures WindCentre(nodes, d) == None
    ensures WindEdges(num, nodes, edges, d, maxSpeed, eps) == edges
  {
  }

  /** An edge list blown around the drawn centre, semi-axes and focus is
      the one the wind event leaves. */
  lemma BlownIsWindEdges(num: Numerics, nodes: seq<Node>, edges0: seq<Edge>, edges1: seq<Edge>, d: WindDraws,
                         maxSpeed: real, eps: real, centre: nat, a: int, b: int)
    requires HasUnequalRound(d.axes) && WindCentre(nodes, d) == Some(centre) && (a, b) == SemiAxes(d.axes)
    requires Blown(num, nodes, edges0, edges1, nodes[centre - 1].pos, WindScale(|nodes|, a), WindScale(|nodes|, b),
                   a > b, nodes[WindFocus(nodes, centre, a, b, d) - 1].pos, maxSpeed, eps, d.gamma)
    ensures edges1 == WindEdges(num, nodes, edges0, d, maxSpeed, eps)
  {
    BlownIsBlowList(num, nodes, edges0, edges1, nodes[centre - 1].pos, WindScale(|nodes|, a), WindScale(|nodes|, b),
                    a > b, nodes[WindFocus(nodes, centre, a, b, d) - 1].pos, maxSpeed, eps, d.gamma);
    WindEdgesIsBlowList(num, nodes, edges0, d, maxSpeed, eps, centre, a, b);
  }

  /** Blown describes exactly the list BlowList computes. */
  lemma BlownIsBlowList(num: Numerics, nodes: seq<Node>, edges0: seq<Edge>, edges1: seq<Edge>,
                        centre: (real, real), sa: real, sb: real, horizontal: bool, pf: (real, real),
                        maxSpeed: real, eps: real, gamma: (nat, nat) -> real)
    requires sa > 0.0 && sb > 0.0
    requires Blown(num, nodes, edges0, edges1, centre, sa, sb, horizontal, pf, maxSpeed, eps, gamma)
    ensures edges1 == BlowList(num, nodes, edges0, centre, sa, sb, horizontal, pf, maxSpeed, eps, gamma)
  {
    var r := BlowList(num, nodes, edges0, centre, sa, sb, horizontal, pf, maxSpeed, eps, gamma);
    BlowListAt(num, nodes, edges0, centre, sa, sb, horizontal, pf, maxSpeed, eps, gamma);
    assert forall k :: 0 <= k < |edges1| ==> edges1[k] == r[k];
  }

  /** The centre is always in its own ellipse: an edge from the centre node to
      another node of the ellipse is always blown. */
  lemma CentreEdgeBlown(num: Numerics, nodes: seq<Node>, e: Edge, centre: nat, sa: real, sb: real,
                        horizontal: bool, pf: (real, real), maxSpeed: real, eps: real,
                        gamma: (nat, nat) -> real)
    requires sa > 0.0 && sb > 0.0
    requires IsNodeId(nodes, centre) && nodes[centre - 1].state != Empty
    requires e.u == centre && InZone(nodes, e.v, nodes[centre - 1].pos, sa, sb)
    ensures BlowEdge(num, nodes, e, nodes[centre - 1].pos, sa, sb, horizontal, pf, maxSpeed, eps, gamma).strength == 1
  {
    CentreInEllipse(nodes[centre - 1].pos, sa, sb);
  }

  /** The draws one incinerate step consumes. */
  datatype StepDraws = StepDraws(
    edgeNoise: (nat, nat, nat) -> real,   // by (igniting node, neighbour, burning neighbour of it)
    thresholdNoise: (nat, nat) -> real,   // by (igniting node, neighbour)
    ember: nat -> EmberDraw)              // by burning node

  /** The blowing loop of simulate_wind, on a copy of the edge list: each
      edge with both endpoints in the zone gets its wind weight, direction
      and strength. */
  method BlowAll(num: Numerics, nodes: seq<Node>, edges: seq<Edge>, zone: seq<nat>,
                 centre: (real, real), sa: real, sb: real, horizontal: bool, pf: (real, real),
                 maxSpeed: real, eps: real, gamma: (nat, nat) -> real)
    returns (es: seq<Edge>)
    requires sa > 0.0 && sb > 0.0
    requires forall id :: id in zone <==> InZone(nodes, id, centre, sa, sb)
    ensures Blown(num, nodes, edges, es, centre, sa, sb, horizontal, pf, maxSpeed, eps, gamma)
  {
    es := edges;
    var k := 0;
    while k < |es|
      invariant 0 <= k <= |es| && |es| == |edges|
      invariant forall j :: 0 <= j < k ==>
                  es[j] == BlowEdge(num, nodes, edges[j], centre, sa, sb, horizontal, pf, maxSpeed, eps, gamma)
      invariant forall j :: k <= j < |es| ==> es[j] == edges[j]
    {
      var blown := BlowOne(num, nodes, es[k], zone, centre, sa, sb, horizontal, pf, maxSpeed, eps, gamma);
      es := es[k := blown];
      k := k + 1;
    }
  }

  /** The body of the blowing loop for one edge e. */
  method BlowOne(num: Numerics, nodes: seq<Node>, e: Edge, zone: seq<nat>,
                 centre: (real, real), sa: real, sb: real, horizontal: bool, pf: (real, real),
                 maxSpeed: real, eps: real, gamma: (nat, nat) -> real)
    returns (r: Edge)
    requires sa > 0.0 && sb > 0.0
    requires forall id :: id in zone <==> InZone(nodes, id, centre, sa, sb)
    ensures r == BlowEdge(num, nodes, e, centre, sa, sb, horizontal, pf, maxSpeed, eps, gamma)
  {
    r := e;
    if e.u in zone && e.v in zone {
      var p1 := nodes[e.u - 1].pos;
      var p2 := nodes[e.v - 1].pos;
      var angle := WindAngle(horizontal, p1, p2, pf);
      var w := EdgeWeight(num, maxSpeed, eps, 1, angle, Dist(num, p1, p2, WindDistScale), gamma(e.u, e.v));
      r := e.(w := w, windDir := angle, strength := 1);
    }
  }

  /** The inner accumulation of the neighbour pass. */
  method PressureOn(nodes: seq<Node>, edges: seq<Edge>, nb: nat, b: nat, noise: (nat, nat, nat) -> real)
    returns (s: real)
    ensures s == Pressure(nodes, edges, nb, b, noise, |edges|)
  {
    s := 0.0;
    var k := 0;
    while k < |edges|
      invariant 0 <= k <= |edges|
      invariant s == Pressure(nodes, edges, nb, b, noise, k)
    {
      var e := edges[k];
      if Incident(e, nb) {
        var m := Other(e, nb);
        if IsBurningId(nodes, m) {
          var wEff := EffectiveWeight(e, noise, b, nb, m);
          s := Min(1.0, s + wEff);
        }
      }
      k := k + 1;
    }
  }

  /** One burning node's part of the scan: its scheduled neighbours are
      appended along the edges in order. */
  method ScanNode(nodes: seq<Node>, edges: seq<Edge>, b: nat,
                  edgeNoise: (nat, nat, nat) -> real, thresholdNoise: (nat, nat) -> real,
                  list: seq<(nat, nat)>) returns (toIgnite: seq<(nat, nat)>)
    requires EdgesWellFormed(nodes, edges) && IsBurningId(nodes, b)
    requires ScannedUpTo(nodes, edges, edgeNoise, thresholdNoise, list, b, 0)
    ensures toIgnite == ScanEdges(nodes, edges, edgeNoise, thresholdNoise, list, b, |edges|)
    ensures ScannedUpTo(nodes, edges, edgeNoise, thresholdNoise, toIgnite, b, |edges|)
    ensures |list| <= |toIgnite| && toIgnite[..|list|] == list
    ensures forall i :: |list| <= i < |toIgnite| ==> toIgnite[i].1 == b
  {
    toIgnite := list;
    var k := 0;
    while k < |edges|
      invariant 0 <= k <= |edges|
      invariant toIgnite == ScanEdges(nodes, edges, edgeNoise, thresholdNoise, list, b, k)
    {
      toIgnite := ScanEdge(nodes, edges, b, k, edgeNoise, thresholdNoise, toIgnite);
      k := k + 1;
    }
    ScanEdgesScanned(nodes, edges, edgeNoise, thresholdNoise, list, b, |edges|);
  }

  /** The scan of burning node b along edge k: a not-burnt node at the
      other end is appended when its pressure reaches its noisy threshold. */
  method ScanEdge(nodes: seq<Node>, edges: seq<Edge>, b: nat, k: nat,
                  edgeNoise: (nat, nat, nat) -> real, thresholdNoise: (nat, nat) -> real,
                  list: seq<(nat, nat)>) returns (list': seq<(nat, nat)>)
    requires EdgesWellFormed(nodes, edges) && IsBurningId(nodes, b) && k < |edges|
    ensures list' == ScanStepList(nodes, edges, edgeNoise, thresholdNoise, list, b, k)
    ensures list' == list || list' == list + [(Other(edges[k], b), b)]
  {
    list' := list;
    var e := edges[k];
    if Incident(e, b) {
      var nb := Other(e, b);
      assert IsNodeId(nodes, nb) by {
        assert 1 <= e.u < e.v <= |nodes|;
      }
      if nodes[nb - 1].state == NotBurnt {
        var reaches := ReachesThreshold(nodes, edges, nb, b, edgeNoise, thresholdNoise);
        if reaches {
          list' := list + [(nb, b)];
        }
      }
    }
  }

  /** Whether the pressure on nb from b's side reaches nb's threshold
      times the threshold noise drawn for (b, nb). */
  method ReachesThreshold(nodes: seq<Node>, edges: seq<Edge>, nb: nat, b: nat,
                          edgeNoise: (nat, nat, nat) -> real, thresholdNoise: (nat, nat) -> real)
    returns (reaches: bool)
    requires IsNodeId(nodes, nb)
    ensures reaches == Reaches(nodes, edges, edgeNoise, thresholdNoise, b, nb)
  {
    var s := PressureOn(nodes, edges, nb, b, edgeNoise);
    var thsEff := nodes[nb - 1].threshold * thresholdNoise(b, nb);
    reaches := s >= thsEff;
  }

  /** The scan of the neighbour pass: every burning node proposes each of
      its not-burnt neighbours whose pressure reaches its noisy threshold.
      The list holds exactly the scheduled pairs, grouped by igniting node
      in id order. */
  method IgnitionScan(nodes: seq<Node>, edges: seq<Edge>,
                      edgeNoise: (nat, nat, nat) -> real, thresholdNoise: (nat, nat) -> real)
    returns (toIgnite: seq<(nat, nat)>)
    requires EdgesWellFormed(nodes, edges)
    ensures toIgnite == ScanList(nodes, edges, edgeNoise, thresholdNoise)
    ensures forall p :: p in toIgnite <==> Schedules(nodes, edges, edgeNoise, thresholdNoise, p.1, p.0)
    ensures forall i, j :: 0 <= i < j < |toIgnite| ==> toIgnite[i].1 <= toIgnite[j].1
    ensures forall j :: 0 <= j < |toIgnite| ==>
              IsNodeId(nodes, toIgnite[j].0) && nodes[toIgnite[j].0 - 1].state == NotBurnt
  {
    toIgnite := [];
    var b := 1;
    while b <= |nodes|
      invariant 1 <= b <= |nodes| + 1
      invariant toIgnite == ScanBefore(nodes, edges, edgeNoise, thresholdNoise, b)
    {
      if nodes[b - 1].state == Burning {
        ScanBeforeScanned(nodes, edges, edgeNoise, thresholdNoise, b);
        toIgnite := ScanNode(nodes, edges, b, edgeNoise, thresholdNoise, toIgnite);
      }
      b := b + 1;
    }
    ScanListSchedules(nodes, edges, edgeNoise, thresholdNoise);
  }

  /** lifeline_update on copies of the node and colour lists. The colour of
      a node that burns out turns brown when the colour list reaches it. */
  method DecayNodes(nodes: seq<Node>, colors: seq<Color>) returns (ns: seq<Node>, cs: seq<Color>)
    ensures DecayedFrom(nodes, colors, ns, cs)
  {
    ns, cs := nodes, colors;
    var i := 0;
    while i < |ns|
      invariant 0 <= i <= |ns| && |ns| == |nodes| && |cs| == |colors|
      invariant forall m :: 0 <= m < i ==> ns[m] == Decayed(nodes[m])
      invariant forall m :: i <= m < |ns| ==> ns[m] == nodes[m]
      invariant forall m :: 0 <= m < |cs| ==> cs[m] == if m < i && BurnsOut(nodes, m) then Brown else colors[m]
    {
      if ns[i].state == Burning {
        ns := ns[i := ns[i].(life := ns[i].life - 1)];
        if ns[i].life < 0 {
          ns := ns[i := ns[i].(state := Burnt, color := Brown)];
          if 0 <= i < |cs| {
            cs := cs[i := Brown];
          }
        }
      }
      i := i + 1;
    }
  }

  /** Node m is burning with no life left, so it burns out now. */
  predicate BurnsOut(nodes: seq<Node>, m: nat)
    requires m < |nodes|
  {
    nodes[m].state == Burning && nodes[m].life - 1 < 0
  }

  /** ns and cs are nodes and colors after lifeline_update. */
  ghost predicate DecayedFrom(nodes: seq<Node>, colors: seq<Color>, ns: seq<Node>, cs: seq<Color>)
  {
    |ns| == |nodes| && |cs| == |colors| &&
    (forall m :: 0 <= m < |nodes| ==> ns[m] == Decayed(nodes[m])) &&
    (forall m :: 0 <= m < |colors| ==> cs[m] == if m < |nodes| && BurnsOut(nodes, m) then Brown else colors[m])
  }

  /** Decay keeps the invariant: a node that burns out is brown in both lists. */
  lemma DecayedConsistent(nodes: seq<Node>, colors: seq<Color>, edges: seq<Edge>, ns: seq<Node>, cs: seq<Color>)
    requires Consistent(nodes, colors, edges) && DecayedFrom(nodes, colors, ns, cs)
    ensures Consistent(ns, cs, edges)
  {
    NonEmptyKeepsEdgesWellFormed(nodes, ns, edges);
  }

  /** life_edge_update on a copy of the edge list. */
  method DecayEdges(edges: seq<Edge>) returns (es: seq<Edge>)
    ensures |es| == |edges| && forall k :: 0 <= k < |edges| ==> es[k] == EdgeDecayed(edges[k])
  {
    es := edges;
    var k := 0;
    while k < |es|
      invariant 0 <= k <= |es| && |es| == |edges|
      invariant forall j :: 0 <= j < k ==> es[j] == EdgeDecayed(edges[j])
      invariant forall j :: k <= j < |es| ==> es[j] == edges[j]
    {
      if es[k].color == Orange {
        es := es[k := es[k].(life := es[k].life - 1)];
        if es[k].life < 0 {
          es := es[k := es[k].(color := Brown)];
        }
      }
      k := k + 1;
    }
  }

  /** The closing loop of incinerate on copies of the lists: every burnt
      node is coloured brown and so is every edge at it. */
  method BrownBurntEdges(nodes: seq<Node>, edges: seq<Edge>) returns (ns: seq<Node>, es: seq<Edge>)
    ensures |ns| == |nodes| && forall m :: 0 <= m < |nodes| ==>
              ns[m] == if nodes[m].state == Burnt then nodes[m].(color := Brown) else nodes[m]
    ensures |es| == |edges| && forall k :: 0 <= k < |edges| ==>
              es[k] == if TouchesBurnt(nodes, edges[k]) then edges[k].(color := Brown) else edges[k]
  {
    ns, es := nodes, edges;
    var i := 0;
    while i < |ns|
      invariant 0 <= i <= |ns| && |ns| == |nodes| && |es| == |edges|
      invariant forall m :: 0 <= m < |ns| ==>
                  ns[m] == if m < i && nodes[m].state == Burnt then nodes[m].(color := Brown) else nodes[m]
      invariant forall k :: 0 <= k < |es| ==>
                  es[k] == if BurntEndpointUpTo(nodes, edges[k], i) then edges[k].(color := Brown) else edges[k]
    {
      if ns[i].state == Burnt {
        ns := ns[i := ns[i].(color := Brown)];
        var k := 0;
        while k < |es|
          invariant 0 <= k <= |es| && |es| == |edges|
          invariant forall j :: 0 <= j < |es| ==>
                      es[j] == if BurntEndpointUpTo(nodes, edges[j], i) || (j < k && Incident(edges[j], i + 1))
                               then edges[j].(color := Brown) else edges[j]
        {
          if Incident(es[k], i + 1) {
            es := es[k := es[k].(color := Brown)];
          }
          k := k + 1;
        }
      }
      i := i + 1;
    }
  }

  /** Burnt nodes are already brown, so the closing loop leaves the nodes
      as they were. */
  lemma BrowningKeepsNodes(nodes: seq<Node>, colors: seq<Color>, edges: seq<Edge>, ns: seq<Node>)
    requires Consistent(nodes, colors, edges)
    requires |ns| == |nodes| && forall m :: 0 <= m < |nodes| ==>
               ns[m] == if nodes[m].state == Burnt then nodes[m].(color := Brown) else nodes[m]
    ensures ns == nodes
  {
  }

  /** The index of the edge joining a and b (g.has_edge), or -1. */
  method FindEdge(edges: seq<Edge>, a: nat, b: nat) returns (k: int)
    ensures -1 <= k < |edges|
    ensures k >= 0 ==> Joins(edges[k], a, b)
    ensures k == -1 <==> !Adjacent(edges, a, b)
  {
    k := 0;
    while k < |edges|
      invariant 0 <= k <= |edges|
      invariant !JoinedWithin(edges, a, b, k)
    {
      if Joins(edges[k], a, b) {
        JoinedWithinMeans(edges, a, b, |edges|);
        return;
      }
      k := k + 1;
    }
    k := -1;
  }

  /** Sets node nb burning and orange and the edge from via to nb orange. */
  method IgniteVia(nodes: seq<Node>, colors: seq<Color>, edges: seq<Edge>, nb: nat, via: nat)
    returns (ns: seq<Node>, cs: seq<Color>, es: seq<Edge>)
    requires Consistent(nodes, colors, edges) && IsNodeId(nodes, nb)
    ensures Consistent(ns, cs, es)
    ensures ns == nodes[nb - 1 := Ignited(nodes[nb - 1])]
    ensures cs == colors[nb - 1 := Orange]
    ensures es == LitEdges(edges, via, nb)
  {
    var k := FindEdge(edges, via, nb);
    es := edges;
    if k >= 0 {
      LitOneEdge(nodes, edges, k, via, nb);
      es := edges[k := edges[k].(color := Orange)];
    } else {
      LitNoEdge(edges, via, nb);
    }
    IgnitedConsistent(nodes, colors, edges, nb, via);
    ns, cs := nodes[nb - 1 := nodes[nb - 1].(state := Burning, color := Orange)], colors[nb - 1 := Orange];
  }

  /** Applies one more pair p to the state nodes, colors, edges: its node
      ignites, with the edge from its igniter, when the rule admits that
      node's current state. */
  method ApplyPair(nodes: seq<Node>, colors: seq<Color>, edges: seq<Edge>,
                   ghost nodes0: seq<Node>, ghost edges0: seq<Edge>, ghost list: seq<(nat, nat)>,
                   p: (nat, nat), rule: IgnitionRule)
    returns (ns: seq<Node>, cs: seq<Color>, es: seq<Edge>)
    requires Consistent(nodes, colors, edges) && IsNodeId(nodes0, p.0)
    requires AppliedUpTo(nodes0, edges0, list, rule, nodes, edges)
    ensures Consistent(ns, cs, es)
    ensures AppliedUpTo(nodes0, edges0, list + [p], rule, ns, es)
  {
    ApplyStep(nodes0, edges0, list, p, rule, nodes, edges);
    ns, cs, es := nodes, colors, edges;
    if Eligible(rule, nodes[p.0 - 1].state) {
      ns, cs, es := IgniteVia(nodes, colors, edges, p.0, p.1);
    }
  }

  /** The application loop of the neighbour pass: the pairs applied one by
      one, in order, each node that is not burning igniting. */
  method ApplyList(nodes: seq<Node>, colors: seq<Color>, edges: seq<Edge>, toIgnite: seq<(nat, nat)>)
    returns (ns: seq<Node>, cs: seq<Color>, es: seq<Edge>)
    requires Consistent(nodes, colors, edges)
    requires forall j :: 0 <= j < |toIgnite| ==> IsNodeId(nodes, toIgnite[j].0)
    ensures Consistent(ns, cs, es)
    ensures AppliedUpTo(nodes, edges, toIgnite, UnlessBurning, ns, es)
  {
    AppliedNothing(nodes, edges, UnlessBurning);
    ns, cs, es := nodes, colors, edges;
    var j := 0;
    while j < |toIgnite|
      invariant 0 <= j <= |toIgnite|
      invariant Consistent(ns, cs, es)
      invariant AppliedUpTo(nodes, edges, toIgnite[..j], UnlessBurning, ns, es)
    {
      assert toIgnite[..j + 1] == toIgnite[..j] + [toIgnite[j]];
      ns, cs, es := ApplyPair(ns, cs, es, nodes, edges, toIgnite[..j], toIgnite[j], UnlessBurning);
      j := j + 1;
    }
    assert toIgnite[..j] == toIgnite;
  }

  // ---------------------------------------------------------------------
  // One incinerate step on values
  // ---------------------------------------------------------------------

  /** The state that applying list to nodes and edges gives. */
  function Applied(nodes: seq<Node>, edges: seq<Edge>, list: seq<(nat, nat)>, rule: IgnitionRule)
    : (r: (seq<Node>, seq<Edge>))
    ensures AppliedUpTo(nodes, edges, list, rule, r.0, r.1)
  {
    (seq(|nodes|, i requires 0 <= i < |nodes| => NodeAfter(nodes, list, rule, i)),
     seq(|edges|, k requires 0 <= k < |edges| => EdgeAfter(nodes, list, rule, edges[k])))
  }

  /** AppliedUpTo pins the state down. */
  lemma AppliedIsApplied(nodes0: seq<Node>, edges0: seq<Edge>, list: seq<(nat, nat)>, rule: IgnitionRule,
                         nodesNow: seq<Node>, edgesNow: seq<Edge>)
    requires AppliedUpTo(nodes0, edges0, list, rule, nodesNow, edgesNow)
    ensures (nodesNow, edgesNow) == Applied(nodes0, edges0, list, rule)
  {
    var r := Applied(nodes0, edges0, list, rule);
    assert nodesNow == r.0;
    assert edgesNow == r.1;
  }

  /** The state after the neighbour pass of a step: the scan's list applied,
      re-igniting any node that is not burning. */
  ghost function NeighbourIgnited(nodes: seq<Node>, edges: seq<Edge>, draws: StepDraws): (r: (seq<Node>, seq<Edge>))
    ensures |r.0| == |nodes| && |r.1| == |edges|
  {
    Applied(nodes, edges, ScanList(nodes, edges, draws.edgeNoise, draws.thresholdNoise), UnlessBurning)
  }

  /** The embers that land in a step: thrown by the nodes burning at its
      start onto the nodes left not burnt by the neighbour pass. */
  ghost function EmberLandings(nodes: seq<Node>, edges: seq<Edge>, draws: StepDraws): seq<(nat, nat)>
    requires |nodes| > 0
  {
    var mid := NeighbourIgnited(nodes, edges, draws).0;
    EmberHits(mid, IdsWithState(mid, NotBurnt), IdsWithState(nodes, Burning), draws.ember, CellScale(|mid|))
  }

  /** The spreading half of incinerate on values: the neighbour pass, then
      the ember landings applied, igniting only not-burnt nodes. */
  ghost function SpreadState(nodes: seq<Node>, edges: seq<Edge>, draws: StepDraws): (r: (seq<Node>, seq<Edge>))
    requires |nodes| > 0
    ensures |r.0| == |nodes| && |r.1| == |edges|
  {
    var mid := NeighbourIgnited(nodes, edges, draws);
    Applied(mid.0, mid.1, EmberLandings(nodes, edges, draws), OnlyNotBurnt)
  }

  /** Every node decayed by one step (lifeline_update). */
  function DecayedNodes(nodes: seq<Node>): (r: seq<Node>)
    ensures |r| == |nodes| && forall i :: 0 <= i < |nodes| ==> r[i] == Decayed(nodes[i])
  {
    seq(|nodes|, i requires 0 <= i < |nodes| => Decayed(nodes[i]))
  }

  /** Every edge decayed by one step (life_edge_update). */
  function AgedEdges(edges: seq<Edge>): (r: seq<Edge>)
    ensures |r| == |edges| && forall k :: 0 <= k < |edges| ==> r[k] == EdgeDecayed(edges[k])
  {
    seq(|edges|, k requires 0 <= k < |edges| => EdgeDecayed(edges[k]))
  }

  /** Every node with its count of burning neighbours (update_active_neighbors). */
  function Recount(nodes: seq<Node>, edges: seq<Edge>): (r: seq<Node>)
    ensures Recounted(nodes, edges, r)
  {
    seq(|nodes|, i requires 0 <= i < |nodes| =>
      nodes[i].(activeNeighbors := BurningNeighbourCount(nodes, edges, i + 1, |edges|)))
  }

  /** Every edge at a burnt node browned (the closing loop of incinerate). */
  function BrownAtBurnt(nodes: seq<Node>, edges: seq<Edge>): (r: seq<Edge>)
    ensures |r| == |edges| && forall k :: 0 <= k < |edges| ==>
              r[k] == if TouchesBurnt(nodes, edges[k]) then edges[k].(color := Brown) else edges[k]
  {
    seq(|edges|, k requires 0 <= k < |edges| =>
      if TouchesBurnt(nodes, edges[k]) then edges[k].(color := Brown) else edges[k])
  }

  /** The closing half of incinerate on values: every node and edge decays,
      every node records its burning neighbours, and every edge at a burnt
      node turns brown. */
  function DecayState(nodes: seq<Node>, edges: seq<Edge>): (r: (seq<Node>, seq<Edge>))
    ensures |r.0| == |nodes| && |r.1| == |edges|
  {
    var decayed := DecayedNodes(nodes);
    var aged := AgedEdges(edges);
    (Recount(decayed, aged), BrownAtBurnt(decayed, aged))
  }

  /** One incinerate step on values. */
  ghost function StepState(nodes: seq<Node>, edges: seq<Edge>, draws: StepDraws): (r: (seq<Node>, seq<Edge>))
    requires |nodes| > 0
    ensures |r.0| == |nodes| && |r.1| == |edges|
  {
    var spread := SpreadState(nodes, edges, draws);
    DecayState(spread.0, spread.1)
  }

  /** What the decay pass states about its result is the decay state. */
  lemma DecayPassIsDecayState(n0: seq<Node>, e0: seq<Edge>, n: seq<Node>, e: seq<Edge>)
    requires |n| == |n0| && |e| == |e0|
    requires forall k :: 0 <= k < |e| ==>
               e[k] == if TouchesBurnt(n, e0[k]) then EdgeDecayed(e0[k]).(color := Brown) else EdgeDecayed(e0[k])
    requires forall i :: 0 <= i < |n| ==> n[i] == Decayed(n0[i]).(activeNeighbors := n[i].activeNeighbors)
    requires forall i :: 0 <= i < |n| ==> n[i].activeNeighbors == BurningNeighbourCount(n, e, i + 1, |e|)
    ensures (n, e) == DecayState(n0, e0)
  {
    DecayedNodesRecounted(n0, e0, n, e);
    DecayedEdgesBrowned(n0, e0, n, e);
  }

  /** The nodes the decay pass leaves are the decayed nodes recounted over
      the aged edges. */
  lemma DecayedNodesRecounted(n0: seq<Node>, e0: seq<Edge>, n: seq<Node>, e: seq<Edge>)
    requires |n| == |n0| && |e| == |e0|
    requires forall k :: 0 <= k < |e| ==> e[k].u == e0[k].u && e[k].v == e0[k].v
    requires forall i :: 0 <= i < |n| ==> n[i] == Decayed(n0[i]).(activeNeighbors := n[i].activeNeighbors)
    requires forall i :: 0 <= i < |n| ==> n[i].activeNeighbors == BurningNeighbourCount(n, e, i + 1, |e|)
    ensures n == Recount(DecayedNodes(n0), AgedEdges(e0))
  {
    var decayed := DecayedNodes(n0);
    var aged := AgedEdges(e0);
    assert forall i :: 0 <= i < |n| ==> n[i].state == decayed[i].state;
    assert forall k :: 0 <= k < |e| ==> e[k].u == aged[k].u && e[k].v == aged[k].v;
    var counted := Recount(decayed, aged);
    forall i | 0 <= i < |n|
      ensures n[i] == counted[i]
    {
      BurningNeighbourCountFrame(n, decayed, e, aged, i + 1, |e|);
    }
  }

  /** The edges the decay pass leaves are the aged edges browned at the
      decayed nodes that are burnt. */
  lemma DecayedEdgesBrowned(n0: seq<Node>, e0: seq<Edge>, n: seq<Node>, e: seq<Edge>)
    requires |n| == |n0| && |e| == |e0|
    requires forall k :: 0 <= k < |e| ==>
               e[k] == if TouchesBurnt(n, e0[k]) then EdgeDecayed(e0[k]).(color := Brown) else EdgeDecayed(e0[k])
    requires forall i :: 0 <= i < |n| ==> n[i].state == Decayed(n0[i]).state
    ensures e == BrownAtBurnt(DecayedNodes(n0), AgedEdges(e0))
  {
    var decayed := DecayedNodes(n0);
    var aged := AgedEdges(e0);
    var browned := BrownAtBurnt(decayed, aged);
    forall k | 0 <= k < |e|
      ensures e[k] == browned[k]
    {
      assert TouchesBurnt(n, e0[k]) == TouchesBurnt(decayed, aged[k]);
    }
  }

  /** A node the neighbour scan schedules is burning after the spread. */
  lemma SpreadIgnitesScheduled(nodes: seq<Node>, edges: seq<Edge>, draws: StepDraws, b: nat, nb: nat)
    requires EdgesWellFormed(nodes, edges) && |nodes| > 0
    requires Schedules(nodes, edges, draws.edgeNoise, draws.thresholdNoise, b, nb)
    ensures SpreadState(nodes, edges, draws).0[nb - 1] == Ignited(nodes[nb - 1])
  {
    var scan := ScanList(nodes, edges, draws.edgeNoise, draws.thresholdNoise);
    ScanListSchedules(nodes, edges, draws.edgeNoise, draws.thresholdNoise);
    assert (nb, b) in scan;
    var j :| 0 <= j < |scan| && scan[j] == (nb, b);
    FirstIgniterIsFirst(scan, nb, j);
    var mid := NeighbourIgnited(nodes, edges, draws);
    assert mid.0[nb - 1] == Ignited(nodes[nb - 1]);
  }

  /** Whether some burning node schedules node id in the step's scan. */
  ghost predicate ScheduledBySome(nodes: seq<Node>, edges: seq<Edge>, draws: StepDraws, id: nat)
  {
    exists b :: Schedules(nodes, edges, draws.edgeNoise, draws.thresholdNoise, b, id)
  }

  /** Whether an ember lands on node id in the step. */
  ghost predicate EmberLandsOn(nodes: seq<Node>, edges: seq<Edge>, draws: StepDraws, id: nat)
    requires |nodes| > 0
  {
    exists b :: (id, b) in EmberLandings(nodes, edges, draws)
  }

  /** The converse: a node the spread changes was not burnt and ignites,
      and the scan scheduled it or an ember landed on it. */
  lemma SpreadIgnitesOnlyScheduledOrHit(nodes: seq<Node>, edges: seq<Edge>, draws: StepDraws, i: nat)
    requires EdgesWellFormed(nodes, edges) && i < |nodes|
    requires SpreadState(nodes, edges, draws).0[i] != nodes[i]
    ensures nodes[i].state == NotBurnt && SpreadState(nodes, edges, draws).0[i] == Ignited(nodes[i])
    ensures ScheduledBySome(nodes, edges, draws, i + 1) || EmberLandsOn(nodes, edges, draws, i + 1)
  {
    var scan := ScanList(nodes, edges, draws.edgeNoise, draws.thresholdNoise);
    ScanListSchedules(nodes, edges, draws.edgeNoise, draws.thresholdNoise);
    var mid := NeighbourIgnited(nodes, edges, draws);
    var hits := EmberLandings(nodes, edges, draws);
    if mid.0[i] != nodes[i] {
      var b := FirstIgniter(scan, i + 1).value;
      assert (i + 1, b) in scan;
    } else {
      var b := FirstIgniter(hits, i + 1).value;
      assert (i + 1, b) in hits;
    }
  }

  /** Over the whole step: a node the scan schedules is burning or burnt
      afterwards. */
  lemma StepBurnsScheduled(nodes: seq<Node>, edges: seq<Edge>, draws: StepDraws, b: nat, nb: nat)
    requires EdgesWellFormed(nodes, edges) && |nodes| > 0
    requires Schedules(nodes, edges, draws.edgeNoise, draws.thresholdNoise, b, nb)
    ensures StepState(nodes, edges, draws).0[nb - 1].state in {Burning, Burnt}
  {
    SpreadIgnitesScheduled(nodes, edges, draws, b, nb);
  }

  /** Over the whole step: a not-burnt node that no longer is afterwards was
      scheduled by the scan or hit by an ember. */
  lemma StepIgnitesOnlyScheduledOrHit(nodes: seq<Node>, edges: seq<Edge>, draws: StepDraws, i: nat)
    requires EdgesWellFormed(nodes, edges) && i < |nodes|
    requires nodes[i].state == NotBurnt && StepState(nodes, edges, draws).0[i].state != NotBurnt
    ensures ScheduledBySome(nodes, edges, draws, i + 1) || EmberLandsOn(nodes, edges, draws, i + 1)
  {
    var spread := SpreadState(nodes, edges, draws);
    assert spread.0[i] != nodes[i];
    SpreadIgnitesOnlyScheduledOrHit(nodes, edges, draws, i);
  }

  // ---------------------------------------------------------------------
  // The forest graph
  // ---------------------------------------------------------------------

  /** The networkx graph together with the parallel colour list. */
  class Forest {
    var nodes: seq<Node>
    var edges: seq<Edge>
    var colors: seq<Color>

    ghost predicate Valid()
      reads this
    {
      Consistent(nodes, colors, edges)
    }

    constructor (nodes0: seq<Node>, edges0: seq<Edge>, colors0: seq<Color>)
      ensures nodes == nodes0 && edges == edges0 && colors == colors0
    {
      nodes := nodes0;
      edges := edges0;
      colors := colors0;
    }

    /** The application loop of the neighbour pass: each listed node that is
        not burning ignites, with the edge from its igniter. */
    method ApplyIgnitions(toIgnite: seq<(nat, nat)>)
      requires Valid()
      requires forall j :: 0 <= j < |toIgnite| ==> IsNodeId(nodes, toIgnite[j].0)
      modifies this
      ensures Valid()
      ensures AppliedUpTo(old(nodes), old(edges), toIgnite, UnlessBurning, nodes, edges)
      ensures (forall j :: 0 <= j < |toIgnite| ==>
                 IsNodeId(old(nodes), toIgnite[j].0) && old(nodes)[toIgnite[j].0 - 1].state == NotBurnt) ==>
                (forall i :: 0 <= i < |nodes| ==> IgnitedOrSame(old(nodes)[i], nodes[i])) &&
                (forall k :: 0 <= k < |edges| ==> edges[k] == old(edges)[k] || edges[k] == old(edges)[k].(color := Orange))
    {
      ghost var nodes0, edges0 := nodes, edges;
      nodes, colors, edges := ApplyList(nodes, colors, edges, toIgnite);
      if forall j :: 0 <= j < |toIgnite| ==> IsNodeId(nodes0, toIgnite[j].0) && nodes0[toIgnite[j].0 - 1].state == NotBurnt {
        AppliedIgnitesOrKeeps(nodes0, edges0, toIgnite, UnlessBurning, nodes, edges);
      }
    }

    /** One burning node's ember. */
    method ThrowEmber(start: seq<Node>, pool: seq<nat>, bnode: nat, d: EmberDraw, cellScale: real,
                      ghost edges0: seq<Edge>, ghost hits: seq<(nat, nat)>)
      requires Valid() && IsNodeId(start, bnode) && IdsIn(start, pool) && cellScale > 0.0 && |pool| > 0
      requires AppliedUpTo(start, edges0, hits, OnlyNotBurnt, nodes, edges)
      modifies this
      ensures Valid()
      ensures AppliedUpTo(start, edges0, Landed(hits, EmberTarget(start, pool, bnode, d, cellScale), bnode),
                          OnlyNotBurnt, nodes, edges)
    {
      var t := DrawEmberTarget(start, pool, bnode, d, cellScale);
      if t.Some? {
        nodes, colors, edges := ApplyPair(nodes, colors, edges, start, edges0, hits, (t.value, bnode), OnlyNotBurnt);
      }
    }

    /** The ember pass: each node burning at the start of the step may throw
        an ember onto a not-burnt node, near it or, failing that, anywhere. */
    method EmberPass(burning: seq<nat>, draws: nat -> EmberDraw)
      requires Valid() && |nodes| > 0 && IdsIn(nodes, burning)
      modifies this
      ensures Valid()
      ensures AppliedUpTo(old(nodes), old(edges),
                          EmberHits(old(nodes), IdsWithState(old(nodes), NotBurnt), burning, draws, CellScale(|old(nodes)|)),
                          OnlyNotBurnt, nodes, edges)
      ensures forall i :: 0 <= i < |nodes| ==> IgnitedOrSame(old(nodes)[i], nodes[i])
      ensures forall k :: 0 <= k < |edges| ==> edges[k] == old(edges)[k] || edges[k] == old(edges)[k].(color := Orange)
    {
      var cellScale := CellScale(|nodes|);
      var pool := IdsWithState(nodes, NotBurnt);
      var start := nodes;
      ghost var edges0 := edges;
      AppliedNothing(start, edges0, OnlyNotBurnt);
      var j := 0;
      while j < |burning|
        invariant 0 <= j <= |burning| && Valid()
        invariant AppliedUpTo(start, edges0, EmberHits(start, pool, burning[..j], draws, cellScale), OnlyNotBurnt, nodes, edges)
      {
        if |pool| == 0 {
          break;
        }
        EmberHitsSnoc(start, pool, burning, j, draws, cellScale);
        ThrowEmber(start, pool, burning[j], draws(burning[j]), cellScale,
                   edges0, EmberHits(start, pool, burning[..j], draws, cellScale));
        j := j + 1;
      }
      if j < |burning| {
        EmberHitsEmptyPool(start, pool, burning, draws, cellScale);
        EmberHitsEmptyPool(start, pool, burning[..j], draws, cellScale);
      } else {
        assert burning[..j] == burning;
      }
      AppliedIgnitesOrKeeps(start, edges0, EmberHits(start, pool, burning, draws, cellScale), OnlyNotBurnt, nodes, edges);
    }

    /** lifeline_update: every node decays by one step. */
    method LifelineUpdate()
      requires Valid()
      modifies this
      ensures Valid()
      ensures |nodes| == |old(nodes)| && edges == old(edges)
      ensures forall i :: 0 <= i < |nodes| ==> nodes[i] == Decayed(old(nodes)[i])
    {
      var ns, cs := DecayNodes(nodes, colors);
      DecayedConsistent(nodes, colors, edges, ns, cs);
      nodes, colors := ns, cs;
    }

    /** life_edge_update: every edge decays by one step. */
    method LifeEdgeUpdate()
      requires Valid()
      modifies this
      ensures Valid()
      ensures nodes == old(nodes) && colors == old(colors) && |edges| == |old(edges)|
      ensures forall k :: 0 <= k < |edges| ==> edges[k] == EdgeDecayed(old(edges)[k])
    {
      var es := DecayEdges(edges);
      LitKeepsEdgesWellFormed(nodes, edges, es);
      edges := es;
    }

    /** update_active_neighbors: every node records its number of burning
        neighbours; nothing else changes. */
    method UpdateActiveNeighbors()
      requires Valid()
      modifies this
      ensures Valid()
      ensures |nodes| == |old(nodes)| && edges == old(edges) && colors == old(colors)
      ensures forall i :: 0 <= i < |nodes| ==> nodes[i] == old(nodes)[i].(activeNeighbors := nodes[i].activeNeighbors)
      ensures forall i :: 0 <= i < |nodes| ==> nodes[i].activeNeighbors == BurningNeighbourCount(nodes, edges, i + 1, |edges|)
    {
      var updated := RecountNodes(nodes, edges);
      RecountedConsistent(nodes, colors, edges, updated);
      nodes := updated;
    }

    /** The closing loop of incinerate: every edge at a burnt node turns brown. */
    method MarkBurntEdges()
      requires Valid()
      modifies this
      ensures Valid()
      ensures nodes == old(nodes) && colors == old(colors) && |edges| == |old(edges)|
      ensures forall k :: 0 <= k < |edges| ==>
                edges[k] == if TouchesBurnt(nodes, old(edges)[k]) then old(edges)[k].(color := Brown) else old(edges)[k]
    {
      var ns, es := BrownBurntEdges(nodes, edges);
      BrowningKeepsNodes(nodes, colors, edges, ns);
      LitKeepsEdgesWellFormed(nodes, edges, es);
      nodes, edges := ns, es;
    }

    /** The spreading half of incinerate: the neighbour pass and then the
        ember pass. The result is the spread state; nodes only ignite, and
        only when not burnt, and edges only turn orange. */
    method SpreadPass(draws: StepDraws)
      requires Valid() && |nodes| > 0
      modifies this
      ensures Valid()
      ensures (nodes, edges) == SpreadState(old(nodes), old(edges), draws)
      ensures forall i :: 0 <= i < |nodes| ==> IgnitedOrSame(old(nodes)[i], nodes[i])
      ensures forall k :: 0 <= k < |edges| ==> edges[k] == old(edges)[k] || edges[k] == old(edges)[k].(color := Orange)
    {
      ghost var nodes0, edges0 := nodes, edges;
      var burningNodes := IdsWithState(nodes, Burning);
      var toIgnite := IgnitionScan(nodes, edges, draws.edgeNoise, draws.thresholdNoise);
      ApplyIgnitions(toIgnite);
      ghost var nodes1, edges1 := nodes, edges;
      AppliedIsApplied(nodes0, edges0, toIgnite, UnlessBurning, nodes1, edges1);
      EmberPass(burningNodes, draws.ember);
      AppliedIsApplied(nodes1, edges1, EmberLandings(nodes0, edges0, draws), OnlyNotBurnt, nodes, edges);
      SpreadCompose(nodes0, nodes1, nodes, edges0, edges1, edges);
    }

    /** The closing half of incinerate: node and edge decay, the neighbour
        counts, and browning the edges at burnt nodes. */
    method DecayPass()
      requires Valid()
      modifies this
      ensures Valid()
      ensures |nodes| == |old(nodes)| && |edges| == |old(edges)|
      ensures forall k :: 0 <= k < |edges| ==>
                edges[k] == if TouchesBurnt(nodes, old(edges)[k]) then EdgeDecayed(old(edges)[k]).(color := Brown)
                            else EdgeDecayed(old(edges)[k])
      ensures forall i :: 0 <= i < |nodes| ==>
                nodes[i] == Decayed(old(nodes)[i]).(activeNeighbors := nodes[i].activeNeighbors)
      ensures forall i :: 0 <= i < |nodes| ==>
                nodes[i].activeNeighbors == BurningNeighbourCount(nodes, edges, i + 1, |edges|)
      ensures (nodes, edges) == DecayState(old(nodes), old(edges))
    {
      ghost var n0, e0 := nodes, edges;
      LifelineUpdate();
      ghost var n1 := nodes;
      LifeEdgeUpdate();
      ghost var e1 := edges;
      UpdateActiveNeighbors();
      ghost var e3 := edges;
      MarkBurntEdges();
      CountsSurviveBrowning(nodes, e3, edges);
      DecayNodesCompose(n0, n1, nodes);
      DecayEdgesCompose(nodes, e0, e1, edges);
      DecayPassIsDecayState(n0, e0, nodes, edges);
    }

    /** One step of the graph engine (incinerate). */
    method Incinerate(draws: StepDraws)
      requires Valid() && |nodes| > 0
      modifies this
      ensures Valid()
      ensures |nodes| == |old(nodes)| && |edges| == |old(edges)|
      ensures forall i :: 0 <= i < |nodes| ==> StepTransition(old(nodes)[i].state, nodes[i].state)
      ensures forall i :: 0 <= i < |nodes| && old(nodes)[i].state == Burning ==> nodes[i].life == old(nodes)[i].life - 1
      ensures forall i :: 0 <= i < |nodes| ==>
                nodes[i].pos == old(nodes)[i].pos && nodes[i].threshold == old(nodes)[i].threshold
      ensures forall i :: 0 <= i < |nodes| ==>
                nodes[i].activeNeighbors == BurningNeighbourCount(nodes, edges, i + 1, |edges|)
      ensures forall k :: 0 <= k < |edges| ==>
                edges[k].u == old(edges)[k].u && edges[k].v == old(edges)[k].v &&
                edges[k].w == old(edges)[k].w && edges[k].strength == old(edges)[k].strength
      ensures forall k :: 0 <= k < |edges| && TouchesBurnt(nodes, edges[k]) ==> edges[k].color == Brown
      ensures (nodes, edges) == StepState(old(nodes), old(edges), draws)
    {
      ghost var nodes0, edges0 := nodes, edges;
      SpreadPass(draws);
      ghost var nodes1, edges1 := nodes, edges;
      DecayPass();
      StepCompose(nodes0, nodes1, nodes);
      StepEdgesCompose(nodes, edges0, edges1, edges);
    }

    /** The nodes of the wind ellipse, in id order. */
    method CollectWindZone(centre: (real, real), sa: real, sb: real) returns (zone: seq<nat>)
      requires sa > 0.0 && sb > 0.0
      ensures forall id :: id in zone <==> InZone(nodes, id, centre, sa, sb)
    {
      zone := [];
      var id := 1;
      while id <= |nodes|
        invariant 1 <= id <= |nodes| + 1
        invariant forall x: nat :: x in zone <==> x < id && InZone(nodes, x, centre, sa, sb)
      {
        if nodes[id - 1].state != Empty && InEllipse(nodes[id - 1].pos, centre, sa, sb) {
          zone := zone + [id];
        }
        id := id + 1;
      }
    }

    /** The blowing loop of simulate_wind: each edge with both endpoints in
        the zone gets its wind weight, direction and strength. */
    method BlowEdges(num: Numerics, zone: seq<nat>, centre: (real, real), sa: real, sb: real,
                     horizontal: bool, pf: (real, real), maxSpeed: real, eps: real,
                     gamma: (nat, nat) -> real)
      requires Valid() && sa > 0.0 && sb > 0.0
      requires forall id :: id in zone <==> InZone(nodes, id, centre, sa, sb)
      modifies this
      ensures Valid()
      ensures nodes == old(nodes) && colors == old(colors)
      ensures Blown(num, nodes, old(edges), edges, centre, sa, sb, horizontal, pf, maxSpeed, eps, gamma)
    {
      var es := BlowAll(num, nodes, edges, zone, centre, sa, sb, horizontal, pf, maxSpeed, eps, gamma);
      LitKeepsEdgesWellFormed(nodes, edges, es);
      edges := es;
    }

    /** simulate_wind: a wind event over an ellipse around a random non-empty
        node. Returns the centre position and the semi-axes, or None and 0, 0
        on a forest with no non-empty node. The dist_scale argument of the
        source is ignored there, so it is not a parameter here. */
    method SimulateWind(num: Numerics, draws: WindDraws, maxSpeed: real, epsilon: real)
      returns (centrePos: Option<(real, real)>, a: int, b: int)
      requires Valid() && HasUnequalRound(draws.axes)
      modifies this
      ensures Valid()
      ensures nodes == old(nodes) && colors == old(colors) && |edges| == |old(edges)|
      ensures WindOutcome(num, nodes, old(edges), edges, draws, centrePos, a, b, maxSpeed, epsilon)
    {
      var nonEmpty := NonEmptyIds(nodes);
      if |nonEmpty| == 0 {
        WindWithoutCentre(num, nodes, edges, draws, maxSpeed, epsilon);
        return None, 0, 0;
      }
      var pos;
      pos, a, b := BlowAround(num, draws, maxSpeed, epsilon);
      centrePos := Some(pos);
    }

    /** simulate_wind once some node is not empty: the centre, the
        semi-axes, then the ellipse they span blown. */
    method BlowAround(num: Numerics, draws: WindDraws, maxSpeed: real, epsilon: real)
      returns (pos: (real, real), a: int, b: int)
      requires Valid() && HasUnequalRound(draws.axes) && |NonEmptyIds(nodes)| > 0
      modifies this
      ensures Valid()
      ensures nodes == old(nodes) && colors == old(colors) && |edges| == |old(edges)|
      ensures WindOutcome(num, nodes, old(edges), edges, draws, Some(pos), a, b, maxSpeed, epsilon)
    {
      var centre := Choice(NonEmptyIds(nodes), draws.centre);
      assert WindCentre(nodes, draws) == Some(centre);
      pos := nodes[centre - 1].pos;
      var round;
      a, b, round := DrawSemiAxes(draws.axes);
      ghost var edges0 := edges;
      BlowEllipse(num, draws, centre, a, b, maxSpeed, epsilon);
      BlownIsWindEdges(num, nodes, edges0, edges, draws, maxSpeed, epsilon, centre, a, b);
    }

    /** The zone of the ellipse with semi-axes a and b around the centre
        node, the focus, and the blowing loop over that zone. */
    method BlowEllipse(num: Numerics, draws: WindDraws, centre: nat, a: int, b: int, maxSpeed: real, epsilon: real)
      requires Valid() && IsNodeId(nodes, centre) && nodes[centre - 1].state != Empty && a >= 1 && b >= 1
      modifies this
      ensures Valid()
      ensures nodes == old(nodes) && colors == old(colors)
      ensures Blown(num, nodes, old(edges), edges, nodes[centre - 1].pos, WindScale(|nodes|, a), WindScale(|nodes|, b),
                    a > b, nodes[WindFocus(nodes, centre, a, b, draws) - 1].pos, maxSpeed, epsilon, draws.gamma)
    {
      var c := FocusShift(a, b, draws.magnitude, draws.sign);
      var gridSide := CeilSqrt(|nodes|);
      var sa := WindScale(|nodes|, a);
      var sb := WindScale(|nodes|, b);
      var pos := nodes[centre - 1].pos;
      var zone := CollectWindZone(pos, sa, sb);
      var focus := ChooseFocus(nodes, centre, FocusOffset(a, b, c, gridSide));
      assert focus == WindFocus(nodes, centre, a, b, draws);
      var pf := nodes[focus - 1].pos;
      BlowEdges(num, zone, pos, sa, sb, a > b, pf, maxSpeed, epsilon, draws.gamma);
      assert pos == nodes[centre - 1].pos && sa == WindScale(|nodes|, a) && sb == WindScale(|nodes|, b) &&
             pf == nodes[WindFocus(nodes, centre, a, b, draws) - 1].pos;
    }
  }
}
