/**
 * `build_graph` of map_utils.py, in its four passes: three centre-line nodes per
 * road, one node per overlapping pair of roads, stitching of nearby nodes, and
 * hub snapping. Each pass is a method over the graph built so far; `BuildGraph`
 * runs them in order.
 */
module GraphBuilder {
  import opened Wrappers
  import opened Geometry
  import opened NodeIds
  import opened RoadGraph

  /** Nodes closer than this are stitched together (map_utils.py, pass 3). */
  const ShortGap: real := 40.0

  /** Default `hub_snap_dist` of `build_graph`. */
  const HubSnapDist: real := 80.0

  // ---------------------------------------------------------------- node order

  /** `order` lists each key of `pos` exactly once. */
  ghost predicate Ordered(order: seq<NodeId>, pos: map<NodeId, Point>)
  {
    && (forall i, j :: 0 <= i < j < |order| ==> order[i] != order[j])
    && (forall n :: n in pos <==> n in order)
  }

  /** Every node of the order has a position. */
  ghost predicate InPos(order: seq<NodeId>, pos: map<NodeId, Point>)
  {
    forall n :: n in order ==> n in pos
  }

  /** The node order is faithful and every node has an adjacency list. */
  ghost predicate Indexed(g: Graph)
  {
    Ordered(g.order, g.pos) && g.adj.Keys == g.pos.Keys
  }

  /** `nodes[n] = p`: a new key goes to the end of the order, an old one keeps its place. */
  function AddNode(g: Graph, n: NodeId, p: Point): (g': Graph)
    ensures g'.pos == g.pos[n := p] && g'.adj == g.adj
    ensures g'.order == if n in g.pos then g.order else g.order + [n]
  {
    Graph(if n in g.pos then g.order else g.order + [n], g.pos[n := p], g.adj)
  }

  lemma AddNodeOrdered(g: Graph, n: NodeId, p: Point)
    requires Ordered(g.order, g.pos)
    ensures Ordered(AddNode(g, n, p).order, AddNode(g, n, p).pos)
  {
    var g' := AddNode(g, n, p);
    if n !in g.pos {
      forall i, j | 0 <= i < j < |g'.order| ensures g'.order[i] != g'.order[j] {
        if j == |g.order| { assert g.order[i] in g.pos; }
      }
    }
  }

  // ---------------------------------------------------------------- nearest node

  /**
   * The index the source's scan `if d < best: best = ...` settles on: the first
   * position of the least distance.
   */
  function FirstMin(ds: seq<real>): (k: nat)
    requires |ds| > 0
    ensures k < |ds|
  {
    if |ds| == 1 then 0
    else
      var k := FirstMin(ds[..|ds| - 1]);
      if ds[|ds| - 1] < ds[k] then |ds| - 1 else k
  }

  /** `FirstMin` picks a least element, and no earlier element is as small. */
  lemma {:induction false} FirstMinIsLeast(ds: seq<real>)
    requires |ds| > 0
    ensures forall j :: 0 <= j < |ds| ==> ds[FirstMin(ds)] <= ds[j]
    ensures forall j :: 0 <= j < FirstMin(ds) ==> ds[FirstMin(ds)] < ds[j]
  {
    if |ds| > 1 {
      var init := ds[..|ds| - 1];
      FirstMinIsLeast(init);
      assert forall j :: 0 <= j < |init| ==> init[j] == ds[j];
    }
  }

  /** Distances from the candidates to `c`, as `_dist(nodes[nid], c)`. */
  function DistsTo(hypot: (real, real) -> real, cands: seq<NodeId>, pos: map<NodeId, Point>, c: Point): (ds: seq<real>)
    requires forall n :: n in cands ==> n in pos
    ensures |ds| == |cands|
  {
    seq(|cands|, k requires 0 <= k < |cands| => Dist(hypot, pos[cands[k]], c))
  }

  /** Distances from `p` to the candidates, as `_dist((hx, hy), (nx, ny))`. */
  function DistsFrom(hypot: (real, real) -> real, p: Point, cands: seq<NodeId>, pos: map<NodeId, Point>): (ds: seq<real>)
    requires forall n :: n in cands ==> n in pos
    ensures |ds| == |cands|
  {
    seq(|cands|, k requires 0 <= k < |cands| => Dist(hypot, p, pos[cands[k]]))
  }

  /**
   * The scan for the closest candidate (`best = None; bd = inf; for ...: if d < bd`),
   * given the candidates' distances: no candidate gives None, otherwise the first
   * candidate at the least distance.
   */
  method Nearest(cands: seq<NodeId>, ds: seq<real>) returns (best: Option<NodeId>, bd: real)
    requires |ds| == |cands|
    ensures best.None? <==> cands == []
    ensures best.Some? ==> best.value == cands[FirstMin(ds)] && bd == ds[FirstMin(ds)]
  {
    best, bd := None, 0.0;
    ghost var k: nat := 0;
    for i := 0 to |cands|
      invariant best.None? <==> i == 0
      invariant i > 0 ==> k == FirstMin(ds[..i]) && best == Some(cands[k]) && bd == ds[k]
    {
      assert ds[..i + 1][..i] == ds[..i];
      if best.None? || ds[i] < bd {
        best, bd, k := Some(cands[i]), ds[i], i;
      }
    }
    assert ds[..|cands|] == ds;
  }

  // ---------------------------------------------------------------- pass 1: road nodes

  predicate Horizontal(r: Road) { r.rect.w >= r.rect.h }

  function FirstNode(r: Road): NodeId { RoadPt(r.id, if Horizontal(r) then L else T) }
  function MidNode(r: Road): NodeId { RoadPt(r.id, M) }
  function LastNode(r: Road): NodeId { RoadPt(r.id, if Horizontal(r) then R else B) }

  /** Left end `(x, cy)` of a horizontal road, top end `(cx, y)` of a vertical one. */
  function FirstPoint(r: Road): Point
  {
    var c := Centre(r.rect);
    if Horizontal(r) then Point(r.rect.x, c.y) else Point(c.x, r.rect.y)
  }

  /** Right end `(x + w, cy)` of a horizontal road, bottom end `(cx, y + h)` of a vertical one. */
  function LastPoint(r: Road): Point
  {
    var c := Centre(r.rect);
    if Horizontal(r) then Point(r.rect.x + r.rect.w, c.y) else Point(c.x, r.rect.y + r.rect.h)
  }

  /** `n` is one of the three centre-line nodes of road `r`. */
  predicate OnRoad(r: Road, n: NodeId)
  {
    n == FirstNode(r) || n == MidNode(r) || n == LastNode(r)
  }

  predicate DistinctRoadIds(roads: seq<Road>)
  {
    forall i, j :: 0 <= i < j < |roads| ==> roads[i].id != roads[j].id
  }

  /**
   * The chain extremity–middle–extremity of road `r`, at the centre-line points,
   * with weights the distances between them.
   */
  ghost predicate Chain(g: Graph, r: Road, hypot: (real, real) -> real)
  {
    var f, m, l := FirstNode(r), MidNode(r), LastNode(r);
    var d1 := Dist(hypot, FirstPoint(r), Centre(r.rect));
    var d2 := Dist(hypot, Centre(r.rect), LastPoint(r));
    && f in g.pos && m in g.pos && l in g.pos
    && g.pos[f] == FirstPoint(r) && g.pos[m] == Centre(r.rect) && g.pos[l] == LastPoint(r)
    && f in g.adj && m in g.adj && l in g.adj
    && g.adj[f] == [Link(m, d1)]
    && g.adj[m] == [Link(f, d1), Link(l, d2)]
    && g.adj[l] == [Link(m, d2)]
  }

  /** One iteration of pass 1: the three nodes of `r` and the two links of its chain. */
  function WithRoad(g: Graph, r: Road, hypot: (real, real) -> real): Graph
  {
    var f, m, l := FirstNode(r), MidNode(r), LastNode(r);
    var pf, pm, pl := FirstPoint(r), Centre(r.rect), LastPoint(r);
    var g1 := AddNode(AddNode(AddNode(g, f, pf), m, pm), l, pl);
    g1.(adj := Connect(Connect(g1.adj, f, m, Dist(hypot, pf, pm)), m, l, Dist(hypot, pm, pl)))
  }

  /** No node of `g` belongs to a road with id `rid`. */
  ghost predicate FreeRoadId(g: Graph, rid: int)
  {
    forall n :: n in g.pos ==> !(n.RoadPt? && n.rid == rid)
  }

  /** The three nodes of road `r`, added in the order of pass 1. */
  function WithRoadNodes(g: Graph, r: Road): Graph
  {
    AddNode(AddNode(AddNode(g, FirstNode(r), FirstPoint(r)), MidNode(r), Centre(r.rect)), LastNode(r), LastPoint(r))
  }

  lemma WithRoadNodesOrdered(g: Graph, r: Road)
    requires Ordered(g.order, g.pos)
    ensures Ordered(WithRoadNodes(g, r).order, WithRoadNodes(g, r).pos)
    ensures WithRoadNodes(g, r).pos.Keys == g.pos.Keys + {FirstNode(r), MidNode(r), LastNode(r)}
    ensures WithRoadNodes(g, r).adj == g.adj
  {
    var g1 := AddNode(g, FirstNode(r), FirstPoint(r));
    var g2 := AddNode(g1, MidNode(r), Centre(r.rect));
    AddNodeOrdered(g, FirstNode(r), FirstPoint(r));
    AddNodeOrdered(g1, MidNode(r), Centre(r.rect));
    AddNodeOrdered(g2, LastNode(r), LastPoint(r));
  }

  /** Adding a road keeps the graph indexed and adds exactly the road's three nodes. */
  lemma WithRoadIndexed(g: Graph, r: Road, hypot: (real, real) -> real)
    requires Indexed(g)
    ensures Indexed(WithRoad(g, r, hypot))
    ensures WithRoad(g, r, hypot).pos.Keys == g.pos.Keys + {FirstNode(r), MidNode(r), LastNode(r)}
  {
    var f, m, l := FirstNode(r), MidNode(r), LastNode(r);
    var pf, pm, pl := FirstPoint(r), Centre(r.rect), LastPoint(r);
    var g3 := WithRoadNodes(g, r);
    WithRoadNodesOrdered(g, r);
    var adj1 := Connect(g3.adj, f, m, Dist(hypot, pf, pm));
    ConnectKeys(g3.adj, f, m, Dist(hypot, pf, pm));
    ConnectKeys(adj1, m, l, Dist(hypot, pm, pl));
    assert WithRoad(g, r, hypot) == g3.(adj := Connect(adj1, m, l, Dist(hypot, pm, pl)));
  }

  /** Adding a road keeps every link mirrored, and weights non-negative. */
  lemma WithRoadSymmetric(g: Graph, r: Road, hypot: (real, real) -> real)
    requires Symmetric(g.adj)
    ensures Symmetric(WithRoad(g, r, hypot).adj)
    ensures NonNegative(hypot) && NonNegWeights(g.adj) ==> NonNegWeights(WithRoad(g, r, hypot).adj)
  {
    var f, m, l := FirstNode(r), MidNode(r), LastNode(r);
    var pf, pm, pl := FirstPoint(r), Centre(r.rect), LastPoint(r);
    var d1, d2 := Dist(hypot, pf, pm), Dist(hypot, pm, pl);
    var adj1 := Connect(g.adj, f, m, d1);
    ConnectSymmetric(g.adj, f, m, d1);
    ConnectSymmetric(adj1, m, l, d2);
    if NonNegative(hypot) && NonNegWeights(g.adj) {
      ConnectNonNeg(g.adj, f, m, d1);
      ConnectNonNeg(adj1, m, l, d2);
    }
  }

  /**
   * A road whose id is new to the graph gets exactly its chain, and every older node
   * keeps its position and its list.
   */
  lemma WithRoadFresh(g: Graph, r: Road, hypot: (real, real) -> real)
    requires g.adj.Keys == g.pos.Keys && FreeRoadId(g, r.id)
    ensures Chain(WithRoad(g, r, hypot), r, hypot)
    ensures forall n :: n in g.pos ==> var g' := WithRoad(g, r, hypot);
      n in g'.pos && n in g'.adj && g'.pos[n] == g.pos[n] && g'.adj[n] == g.adj[n]
  {
    var f, m, l := FirstNode(r), MidNode(r), LastNode(r);
    var pf, pm, pl := FirstPoint(r), Centre(r.rect), LastPoint(r);
    var d1, d2 := Dist(hypot, pf, pm), Dist(hypot, pm, pl);
    assert f !in g.adj && m !in g.adj && l !in g.adj;
    var a1 := Append(g.adj, f, Link(m, d1));
    var a2 := Append(a1, m, Link(f, d1));
    var a3 := Append(a2, m, Link(l, d2));
    var a4 := Append(a3, l, Link(m, d2));
    assert a4[f] == [Link(m, d1)];
    assert a4[m] == [Link(f, d1), Link(l, d2)];
    assert a4[l] == [Link(m, d2)];
    assert WithRoad(g, r, hypot).adj == a4;
  }

  /** A road whose id is new to the graph adds no repeated neighbour and no self-loop. */
  lemma WithRoadSimple(g: Graph, r: Road, hypot: (real, real) -> real)
    requires Symmetric(g.adj) && Simple(g.adj) && g.adj.Keys == g.pos.Keys && FreeRoadId(g, r.id)
    ensures Simple(WithRoad(g, r, hypot).adj)
  {
    var f, m, l := FirstNode(r), MidNode(r), LastNode(r);
    var pf, pm, pl := FirstPoint(r), Centre(r.rect), LastPoint(r);
    var d1, d2 := Dist(hypot, pf, pm), Dist(hypot, pm, pl);
    assert f !in g.adj && m !in g.adj && l !in g.adj;
    var adj1 := Connect(g.adj, f, m, d1);
    ConnectSymmetric(g.adj, f, m, d1);
    ConnectSimple(g.adj, f, m, d1);
    assert Links(adj1, m) == [Link(f, d1)];
    ConnectSimple(adj1, m, l, d2);
  }

  /** A road's chain survives a step that leaves its three nodes untouched. */
  lemma ChainFrame(g: Graph, g': Graph, r: Road, hypot: (real, real) -> real)
    requires Chain(g, r, hypot) && g.adj.Keys == g.pos.Keys
    requires forall n :: n in g.pos ==> n in g'.pos && n in g'.adj && g'.pos[n] == g.pos[n] && g'.adj[n] == g.adj[n]
    ensures Chain(g', r, hypot)
  {
  }

  /**
   * One iteration of pass 1: the nodes of road `roads[i]` and its chain, which
   * extends the fold of the roads before it by that road. The graph stays
   * indexed and mirrored and gains exactly the road's three nodes; when the road's
   * id is new, the road gets exactly its chain, older nodes keep their positions
   * and lists, and no list gains a repeated neighbour.
   */
  method AddRoad(g: Graph, roads: seq<Road>, i: nat, hypot: (real, real) -> real) returns (g': Graph)
    requires i < |roads| && g == RoadsFrom(roads[..i], hypot) && Symmetric(g.adj)
    ensures Indexed(g') && Symmetric(g'.adj)
    ensures g'.pos.Keys == g.pos.Keys + {FirstNode(roads[i]), MidNode(roads[i]), LastNode(roads[i])}
    ensures NonNegative(hypot) && NonNegWeights(g.adj) ==> NonNegWeights(g'.adj)
    ensures FreeRoadId(g, roads[i].id) ==> Chain(g', roads[i], hypot)
    ensures FreeRoadId(g, roads[i].id) ==> forall n :: n in g.pos ==>
      n in g'.pos && n in g'.adj && g'.pos[n] == g.pos[n] && g'.adj[n] == g.adj[n]
    ensures FreeRoadId(g, roads[i].id) && Simple(g.adj) ==> Simple(g'.adj)
    ensures g' == RoadsFrom(roads[..i + 1], hypot)
  {
    assert roads[..i + 1][..i] == roads[..i];
    var r := roads[i];
    WithRoadIndexed(g, r, hypot);
    WithRoadSymmetric(g, r, hypot);
    if FreeRoadId(g, r.id) {
      WithRoadFresh(g, r, hypot);
      if Simple(g.adj) {
        WithRoadSimple(g, r, hypot);
      }
    }
    g' := WithRoad(g, r, hypot);
  }

  /** Pass 1 as a fold: the roads of `rs`, in order, added to the empty graph. */
  ghost function RoadsFrom(rs: seq<Road>, hypot: (real, real) -> real): (g: Graph)
    ensures Indexed(g)
  {
    if rs == [] then Graph([], map[], map[])
    else
      var g0 := RoadsFrom(rs[..|rs| - 1], hypot);
      WithRoadIndexed(g0, rs[|rs| - 1], hypot);
      WithRoad(g0, rs[|rs| - 1], hypot)
  }

  /** The three nodes of every road in `rs`. */
  function RoadNodeSet(rs: seq<Road>): set<NodeId>
  {
    if rs == [] then {}
    else
      var r := rs[|rs| - 1];
      RoadNodeSet(rs[..|rs| - 1]) + {FirstNode(r), MidNode(r), LastNode(r)}
  }

  /** A node is in `RoadNodeSet(rs)` exactly when it is one of the nodes of some road of `rs`. */
  lemma {:induction false} RoadNodeSetMembers(rs: seq<Road>)
    ensures forall n :: n in RoadNodeSet(rs) <==> exists k :: 0 <= k < |rs| && OnRoad(rs[k], n)
  {
    if rs != [] {
      var init := rs[..|rs| - 1];
      RoadNodeSetMembers(init);
      assert forall k :: 0 <= k < |init| ==> init[k] == rs[k];
    }
  }

  /**
   * Pass 1: each road gets its three nodes, joined as a chain. The nodes are exactly
   * the three nodes of each road; with distinct road ids each road's chain is
   * exactly as built and no list repeats a neighbour.
   */
  method AddRoadNodes(roads: seq<Road>, hypot: (real, real) -> real) returns (g: Graph)
    ensures Indexed(g) && Symmetric(g.adj)
    ensures NonNegative(hypot) ==> NonNegWeights(g.adj)
    ensures g.pos.Keys == RoadNodeSet(roads)
    ensures DistinctRoadIds(roads) ==> Simple(g.adj)
    ensures DistinctRoadIds(roads) ==> forall k :: 0 <= k < |roads| ==> Chain(g, roads[k], hypot)
    ensures g == RoadsFrom(roads, hypot)
  {
    assert roads[..|roads|] == roads;
    g := Graph([], map[], map[]);
    for i := 0 to |roads|
      invariant g == RoadsFrom(roads[..i], hypot)
      invariant Indexed(g) && Symmetric(g.adj)
      invariant NonNegative(hypot) ==> NonNegWeights(g.adj)
      invariant g.pos.Keys == RoadNodeSet(roads[..i])
      invariant DistinctRoadIds(roads) ==> Simple(g.adj)
      invariant DistinctRoadIds(roads) ==> forall k :: 0 <= k < i ==> Chain(g, roads[k], hypot)
    {
      ghost var g0 := g;
      g := AddRoad(g, roads, i, hypot);
      Pass1Step(g0, g, roads, i, hypot);
    }
  }

  /** The invariant of pass 1 after road `i`, from that before it and what `AddRoad` promises. */
  lemma Pass1Step(g: Graph, g': Graph, roads: seq<Road>, i: nat, hypot: (real, real) -> real)
    requires i < |roads|
    requires g.adj.Keys == g.pos.Keys && g.pos.Keys == RoadNodeSet(roads[..i])
    requires DistinctRoadIds(roads) ==> forall k :: 0 <= k < i ==> Chain(g, roads[k], hypot)
    requires g'.pos.Keys == g.pos.Keys + {FirstNode(roads[i]), MidNode(roads[i]), LastNode(roads[i])}
    requires FreeRoadId(g, roads[i].id) ==> Chain(g', roads[i], hypot)
    requires FreeRoadId(g, roads[i].id) ==> forall n :: n in g.pos ==>
      n in g'.pos && n in g'.adj && g'.pos[n] == g.pos[n] && g'.adj[n] == g.adj[n]
    ensures g'.pos.Keys == RoadNodeSet(roads[..i + 1])
    ensures DistinctRoadIds(roads) ==> FreeRoadId(g, roads[i].id)
    ensures DistinctRoadIds(roads) ==> forall k :: 0 <= k < i + 1 ==> Chain(g', roads[k], hypot)
  {
    assert roads[..i + 1][..i] == roads[..i];
    if DistinctRoadIds(roads) {
      FreshRoad(g, roads, i);
      ChainsStep(g, g', roads, i, hypot);
    }
  }

  /** With distinct road ids, no node of the first `i` roads belongs to road `i`. */
  lemma FreshRoad(g: Graph, roads: seq<Road>, i: nat)
    requires i < |roads| && DistinctRoadIds(roads)
    requires g.pos.Keys == RoadNodeSet(roads[..i])
    ensures FreeRoadId(g, roads[i].id)
  {
    RoadNodeSetMembers(roads[..i]);
    forall n | n in g.pos ensures !(n.RoadPt? && n.rid == roads[i].id) {
      var k :| 0 <= k < i && OnRoad(roads[..i][k], n);
      assert n.rid == roads[k].id;
    }
  }

  lemma ChainsStep(g: Graph, g': Graph, roads: seq<Road>, i: nat, hypot: (real, real) -> real)
    requires i < |roads| && g.adj.Keys == g.pos.Keys
    requires forall k :: 0 <= k < i ==> Chain(g, roads[k], hypot)
    requires forall n :: n in g.pos ==> n in g'.pos && n in g'.adj && g'.pos[n] == g.pos[n] && g'.adj[n] == g.adj[n]
    requires Chain(g', roads[i], hypot)
    ensures forall k :: 0 <= k < i + 1 ==> Chain(g', roads[k], hypot)
  {
    forall k | 0 <= k < i ensures Chain(g', roads[k], hypot) {
      ChainFrame(g, g', roads[k], hypot);
    }
  }

  // ---------------------------------------------------------------- later passes keep earlier work

  /**
   * `g'` grows `g`: the order is extended by nodes that are not road nodes, every
   * position stays, and every list is kept as a prefix.
   */
  ghost predicate Extends(g: Graph, g': Graph)
  {
    && g.order <= g'.order
    && (forall k :: |g.order| <= k < |g'.order| ==> !g'.order[k].RoadPt?)
    && (forall n :: n in g.pos ==> n in g'.pos && g'.pos[n] == g.pos[n])
    && Keeps(g.adj, g'.adj)
  }

  lemma ExtendsTrans(g1: Graph, g2: Graph, g3: Graph)
    requires Extends(g1, g2) && Extends(g2, g3)
    ensures Extends(g1, g3)
  {
    forall k | |g1.order| <= k < |g3.order| ensures !g3.order[k].RoadPt? {
      if k < |g2.order| {
        assert g3.order[k] == g2.order[k];
      }
    }
  }

  /** `[nid for nid in nodes.keys() if nid.startswith(f"r{rid}_")]`. */
  function RoadNodesOf(order: seq<NodeId>, rid: int): (cands: seq<NodeId>)
    ensures forall n :: n in cands ==> n in order
  {
    if order == [] then []
    else
      var n := order[|order| - 1];
      RoadNodesOf(order[..|order| - 1], rid) + (if n.RoadPt? && n.rid == rid then [n] else [])
  }

  /** The candidates of road `rid` are exactly its nodes. */
  lemma {:induction false} RoadNodesOfMembers(order: seq<NodeId>, rid: int)
    ensures forall n :: n in RoadNodesOf(order, rid) <==> n in order && n.RoadPt? && n.rid == rid
  {
    if order != [] {
      var init := order[..|order| - 1];
      RoadNodesOfMembers(init, rid);
      assert order == init + [order[|order| - 1]];
    }
  }

  /** Appending nodes that are not road nodes leaves every road's candidate list alone. */
  lemma {:induction false} RoadNodesOfSuffix(o: seq<NodeId>, e: seq<NodeId>, rid: int)
    requires forall k :: 0 <= k < |e| ==> !e[k].RoadPt?
    ensures RoadNodesOf(o + e, rid) == RoadNodesOf(o, rid)
  {
    if e != [] {
      var e0 := e[..|e| - 1];
      assert forall k :: 0 <= k < |e0| ==> e0[k] == e[k];
      RoadNodesOfSuffix(o, e0, rid);
      assert (o + e)[..|o + e| - 1] == o + e0;
      assert (o + e)[|o + e| - 1] == e[|e| - 1];
      assert RoadNodesOf(o + e, rid) == RoadNodesOf(o + e0, rid);
    } else {
      assert o + e == o;
    }
  }

  lemma RoadNodesOfExtends(g: Graph, g': Graph, rid: int)
    requires Extends(g, g')
    ensures RoadNodesOf(g'.order, rid) == RoadNodesOf(g.order, rid)
  {
    var e := g'.order[|g.order|..];
    assert g'.order == g.order + e;
    RoadNodesOfSuffix(g.order, e, rid);
  }

  // ---------------------------------------------------------------- pass 2: intersections

  /**
   * The candidates of road `rid` and their distances to `c`, and the one the scan
   * picks: `Some((node, distance))` of the first closest, None without candidates.
   */
  ghost function NearestRoadNode(order: seq<NodeId>, pos: map<NodeId, Point>, rid: int, c: Point, hypot: (real, real) -> real): Option<Link>
    requires InPos(order, pos)
  {
    var cands := RoadNodesOf(order, rid);
    if cands == [] then None
    else
      var ds := DistsTo(hypot, cands, pos, c);
      Some(Link(cands[FirstMin(ds)], ds[FirstMin(ds)]))
  }

  /** The node of the overlap of roads `a` and `b`, linked to the nearest node of each road. */
  ghost predicate InterLinked(g: Graph, a: Road, b: Road, hypot: (real, real) -> real)
    requires InPos(g.order, g.pos)
  {
    var ov := RectOverlap(a.rect, b.rect);
    var n := Inter(a.id, b.id);
    ov.Some? ==>
      var c := Centre(ov.value);
      var la, lb := NearestRoadNode(g.order, g.pos, a.id, c, hypot), NearestRoadNode(g.order, g.pos, b.id, c, hypot);
      && n in g.pos && g.pos[n] == c && n in g.adj
      && la.Some? && lb.Some?
      && [la.value, lb.value] <= g.adj[n]
  }

  /** `InterLinked`, and the node has no other link: exactly the two of pass 2. */
  ghost predicate InterExact(g: Graph, a: Road, b: Road, hypot: (real, real) -> real)
    requires InPos(g.order, g.pos)
  {
    && InterLinked(g, a, b, hypot)
    && (RectOverlap(a.rect, b.rect).Some? ==> |g.adj[Inter(a.id, b.id)]| == 2)
  }

  /** The intersection nodes of the overlapping pairs from `(i, j)` on. */
  function InterNodesFrom(roads: seq<Road>, i: nat, j: nat): set<NodeId>
  {
    set p, q | 0 <= p < q < |roads| && AtOrAfter(i, j, p, q) && RectOverlap(roads[p].rect, roads[q].rect).Some?
      :: Inter(roads[p].id, roads[q].id)
  }

  /** Adding a node that is not a road node changes no road's nearest node. */
  lemma NearestRoadNodeAddNode(g: Graph, n: NodeId, p: Point, rid: int, c: Point, hypot: (real, real) -> real)
    requires Ordered(g.order, g.pos) && !n.RoadPt?
    ensures Ordered(AddNode(g, n, p).order, AddNode(g, n, p).pos)
    ensures NearestRoadNode(AddNode(g, n, p).order, AddNode(g, n, p).pos, rid, c, hypot) == NearestRoadNode(g.order, g.pos, rid, c, hypot)
  {
    var g' := AddNode(g, n, p);
    AddNodeOrdered(g, n, p);
    assert g'.order == g.order + g'.order[|g.order|..];
    RoadNodesOfSuffix(g.order, g'.order[|g.order|..], rid);
    var cands := RoadNodesOf(g.order, rid);
    RoadNodesOfMembers(g.order, rid);
    assert n !in cands;
    assert DistsTo(hypot, cands, g'.pos, c) == DistsTo(hypot, cands, g.pos, c);
  }

  /** `if best: edges[n].append((best, bd)); edges[best].append((n, bd))`. */
  function LinkNearest(adj: Adjacency, n: NodeId, near: Option<Link>): Adjacency
  {
    if near.Some? then Connect(adj, n, near.value.to, near.value.w) else adj
  }

  /** The links of node `n` to the nearest node of road `a`, then of road `b`. */
  function LinkBoth(adj: Adjacency, n: NodeId, la: Option<Link>, lb: Option<Link>): Adjacency
  {
    LinkNearest(LinkNearest(adj, n, la), n, lb)
  }

  lemma LinkBothSymmetric(adj: Adjacency, n: NodeId, la: Option<Link>, lb: Option<Link>)
    requires Symmetric(adj)
    ensures Symmetric(LinkBoth(adj, n, la, lb))
    ensures Keeps(adj, LinkBoth(adj, n, la, lb))
  {
    var adj1 := LinkNearest(adj, n, la);
    if la.Some? {
      ConnectSymmetric(adj, n, la.value.to, la.value.w);
    }
    if lb.Some? {
      ConnectSymmetric(adj1, n, lb.value.to, lb.value.w);
    }
  }

  lemma LinkBothKeeps(adj: Adjacency, n: NodeId, la: Option<Link>, lb: Option<Link>)
    ensures Keeps(adj, LinkBoth(adj, n, la, lb))
  {
    var adj1 := LinkNearest(adj, n, la);
    if la.Some? {
      ConnectKeeps(adj, n, la.value.to, la.value.w);
    }
    if lb.Some? {
      ConnectKeeps(adj1, n, lb.value.to, lb.value.w);
    }
    KeepsTrans(adj, adj1, LinkBoth(adj, n, la, lb));
  }

  lemma LinkBothNonNeg(adj: Adjacency, n: NodeId, la: Option<Link>, lb: Option<Link>)
    requires NonNegWeights(adj)
    requires la.Some? ==> la.value.w >= 0.0
    requires lb.Some? ==> lb.value.w >= 0.0
    ensures NonNegWeights(LinkBoth(adj, n, la, lb))
  {
    var adj1 := LinkNearest(adj, n, la);
    if la.Some? {
      ConnectNonNeg(adj, n, la.value.to, la.value.w);
    }
    if lb.Some? {
      ConnectNonNeg(adj1, n, lb.value.to, lb.value.w);
    }
  }

  /** With both nodes found, `n` gains exactly the two links, and only the three nodes change. */
  lemma LinkBothShape(adj: Adjacency, n: NodeId, la: Link, lb: Link)
    requires la.to != n && lb.to != n
    ensures var adj' := LinkBoth(adj, n, Some(la), Some(lb));
      && adj'.Keys == adj.Keys + {n, la.to, lb.to}
      && adj'[n] == Links(adj, n) + [la, lb]
      && forall x :: x in adj && x != n && x != la.to && x != lb.to ==> adj'[x] == adj[x]
  {
    var adj1 := LinkNearest(adj, n, Some(la));
    ConnectShape(adj, n, la.to, la.w);
    ConnectShape(adj1, n, lb.to, lb.w);
  }

  /**
   * One pair `(a, b)` of pass 2: when the rectangles overlap, node `i{a}_{b}` at
   * the centre of the overlap, linked both ways to the first nearest node of road
   * `a` and then to that of road `b`; otherwise the graph as it was.
   */
  ghost function Overlap(g: Graph, a: Road, b: Road, hypot: (real, real) -> real): (g': Graph)
    requires InPos(g.order, g.pos)
    ensures InPos(g'.order, g'.pos)
  {
    var ov := RectOverlap(a.rect, b.rect);
    if ov.None? then g
    else
      var c := Centre(ov.value);
      var n := Inter(a.id, b.id);
      var g1 := AddNode(g, n, c);
      var la := NearestRoadNode(g1.order, g1.pos, a.id, c, hypot);
      var lb := NearestRoadNode(g1.order, g1.pos, b.id, c, hypot);
      g1.(adj := LinkBoth(g1.adj, n, la, lb))
  }

  /** Pair `(p, q)` comes at or after pair `(i, j)` in the order `for i: for j in range(i + 1, n)`. */
  predicate AtOrAfter(i: nat, j: nat, p: nat, q: nat)
  {
    p > i || (p == i && q >= j)
  }

  /** Pass 2 from pair `(i, j)` on. */
  ghost function PairsFrom(g: Graph, roads: seq<Road>, i: nat, j: nat, hypot: (real, real) -> real): (g': Graph)
    requires InPos(g.order, g.pos) && i < j
    ensures InPos(g'.order, g'.pos)
    decreases |roads| - i, |roads| - j
  {
    if i >= |roads| then g
    else if j >= |roads| then PairsFrom(g, roads, i + 1, i + 2, hypot)
    else PairsFrom(Overlap(g, roads[i], roads[j], hypot), roads, i, j + 1, hypot)
  }

  /** The distance of the nearest node is a distance: never negative. */
  lemma NearestNonNeg(order: seq<NodeId>, pos: map<NodeId, Point>, rid: int, c: Point, hypot: (real, real) -> real)
    requires InPos(order, pos)
    requires NonNegative(hypot)
    ensures var near := NearestRoadNode(order, pos, rid, c, hypot); near.Some? ==> near.value.w >= 0.0
  {
  }

  /** Every list stays mirrored through one pair of pass 2. */
  lemma OverlapSymmetric(g: Graph, a: Road, b: Road, hypot: (real, real) -> real)
    requires InPos(g.order, g.pos) && Symmetric(g.adj)
    ensures Symmetric(Overlap(g, a, b, hypot).adj)
  {
    var ov := RectOverlap(a.rect, b.rect);
    if ov.Some? {
      var c := Centre(ov.value);
      var g1 := AddNode(g, Inter(a.id, b.id), c);
      LinkBothSymmetric(g1.adj, Inter(a.id, b.id), NearestRoadNode(g1.order, g1.pos, a.id, c, hypot),
        NearestRoadNode(g1.order, g1.pos, b.id, c, hypot));
    }
  }

  /** Weights stay non-negative through one pair of pass 2. */
  lemma OverlapNonNeg(g: Graph, a: Road, b: Road, hypot: (real, real) -> real)
    requires InPos(g.order, g.pos) && NonNegWeights(g.adj) && NonNegative(hypot)
    ensures NonNegWeights(Overlap(g, a, b, hypot).adj)
  {
    var ov := RectOverlap(a.rect, b.rect);
    if ov.Some? {
      var c := Centre(ov.value);
      var g1 := AddNode(g, Inter(a.id, b.id), c);
      NearestNonNeg(g1.order, g1.pos, a.id, c, hypot);
      NearestNonNeg(g1.order, g1.pos, b.id, c, hypot);
      LinkBothNonNeg(g1.adj, Inter(a.id, b.id), NearestRoadNode(g1.order, g1.pos, a.id, c, hypot),
        NearestRoadNode(g1.order, g1.pos, b.id, c, hypot));
    }
  }

  /** A pair of pass 2 only extends adjacency lists. */
  lemma OverlapKeeps(g: Graph, a: Road, b: Road, hypot: (real, real) -> real)
    requires InPos(g.order, g.pos)
    ensures Keeps(g.adj, Overlap(g, a, b, hypot).adj)
  {
    var ov := RectOverlap(a.rect, b.rect);
    if ov.Some? {
      var c := Centre(ov.value);
      var g1 := AddNode(g, Inter(a.id, b.id), c);
      LinkBothKeeps(g1.adj, Inter(a.id, b.id), NearestRoadNode(g1.order, g1.pos, a.id, c, hypot),
        NearestRoadNode(g1.order, g1.pos, b.id, c, hypot));
    }
  }

  /** A pair of pass 2 adds at most its own node, at the centre of the overlap. */
  lemma OverlapNodes(g: Graph, a: Road, b: Road, hypot: (real, real) -> real)
    requires InPos(g.order, g.pos)
    ensures var ov := RectOverlap(a.rect, b.rect);
      && (ov.None? ==> Overlap(g, a, b, hypot).order == g.order && Overlap(g, a, b, hypot).pos == g.pos)
      && (ov.Some? ==> Overlap(g, a, b, hypot).order == AddNode(g, Inter(a.id, b.id), Centre(ov.value)).order)
      && (ov.Some? ==> Overlap(g, a, b, hypot).pos == g.pos[Inter(a.id, b.id) := Centre(ov.value)])
  {
  }


  /** The state pass 2 starts from and keeps: every road has its middle node. */
  ghost predicate Pass2Ready(g: Graph, roads: seq<Road>)
  {
    && InPos(g.order, g.pos)
    && g.adj.Keys == g.pos.Keys
    && forall k :: 0 <= k < |roads| ==> MidNode(roads[k]) in g.order
  }

  /** A road with a node in the order has a nearest node, one of its own. */
  lemma NearestFound(order: seq<NodeId>, pos: map<NodeId, Point>, r: Road, c: Point, hypot: (real, real) -> real)
    requires InPos(order, pos) && MidNode(r) in order
    ensures var near := NearestRoadNode(order, pos, r.id, c, hypot);
      near.Some? && near.value.to.RoadPt? && near.value.to in order
  {
    RoadNodesOfMembers(order, r.id);
    assert MidNode(r) in RoadNodesOf(order, r.id);
  }

  /**
   * A pair of pass 2 whose node is new: the node gets exactly its two links to the
   * nearest node of each road, and no list of a node other than a road node changes.
   */
  lemma OverlapLinked(g: Graph, a: Road, b: Road, hypot: (real, real) -> real)
    requires InPos(g.order, g.pos) && g.adj.Keys == g.pos.Keys
    requires MidNode(a) in g.order && MidNode(b) in g.order && Inter(a.id, b.id) !in g.pos
    ensures var g' := Overlap(g, a, b, hypot);
      && g'.adj.Keys == g'.pos.Keys
      && InterExact(g', a, b, hypot)
      && forall x :: x in g.adj && !x.RoadPt? ==> x in g'.adj && g'.adj[x] == g.adj[x]
  {
    var ov := RectOverlap(a.rect, b.rect);
    if ov.Some? {
      var c := Centre(ov.value);
      var n := Inter(a.id, b.id);
      var g1 := AddNode(g, n, c);
      var la := NearestRoadNode(g1.order, g1.pos, a.id, c, hypot);
      var lb := NearestRoadNode(g1.order, g1.pos, b.id, c, hypot);
      NearestFound(g1.order, g1.pos, a, c, hypot);
      NearestFound(g1.order, g1.pos, b, c, hypot);
      LinkBothShape(g1.adj, n, la.value, lb.value);
      assert Links(g.adj, n) == [];
    }
  }

  /** A pair of pass 2 whose node is new extends the graph. */
  lemma OverlapExtends(g: Graph, a: Road, b: Road, hypot: (real, real) -> real)
    requires InPos(g.order, g.pos) && Inter(a.id, b.id) !in g.pos
    ensures Extends(g, Overlap(g, a, b, hypot))
  {
    OverlapNodes(g, a, b, hypot);
    OverlapKeeps(g, a, b, hypot);
  }

  /** The nearest node of a road is the same in a graph that extends this one. */
  lemma NearestExtends(g: Graph, g': Graph, rid: int, c: Point, hypot: (real, real) -> real)
    requires InPos(g.order, g.pos) && InPos(g'.order, g'.pos) && Extends(g, g')
    ensures NearestRoadNode(g'.order, g'.pos, rid, c, hypot) == NearestRoadNode(g.order, g.pos, rid, c, hypot)
  {
    RoadNodesOfExtends(g, g', rid);
    var cands := RoadNodesOf(g.order, rid);
    assert DistsTo(hypot, cands, g'.pos, c) == DistsTo(hypot, cands, g.pos, c);
  }

  /** An intersection node keeps its links in a graph that extends this one. */
  lemma InterLinkedExtends(g: Graph, g': Graph, a: Road, b: Road, hypot: (real, real) -> real)
    requires InPos(g.order, g.pos) && InPos(g'.order, g'.pos) && Extends(g, g')
    requires InterLinked(g, a, b, hypot)
    ensures InterLinked(g', a, b, hypot)
  {
    var ov := RectOverlap(a.rect, b.rect);
    if ov.Some? {
      var c := Centre(ov.value);
      NearestExtends(g, g', a.id, c, hypot);
      NearestExtends(g, g', b.id, c, hypot);
    }
  }

  /** Any pair of pass 2 keeps every node with a list and every middle node. */
  lemma OverlapReady(g: Graph, roads: seq<Road>, a: Road, b: Road, hypot: (real, real) -> real)
    requires Pass2Ready(g, roads) && MidNode(a) in g.order && MidNode(b) in g.order
    ensures Pass2Ready(Overlap(g, a, b, hypot), roads)
  {
    var ov := RectOverlap(a.rect, b.rect);
    if ov.Some? {
      var c := Centre(ov.value);
      var n := Inter(a.id, b.id);
      var g1 := AddNode(g, n, c);
      var la := NearestRoadNode(g1.order, g1.pos, a.id, c, hypot);
      var lb := NearestRoadNode(g1.order, g1.pos, b.id, c, hypot);
      NearestFound(g1.order, g1.pos, a, c, hypot);
      NearestFound(g1.order, g1.pos, b, c, hypot);
      LinkReady(g, roads, n, c, la.value, lb.value);
      assert Overlap(g, a, b, hypot) == g1.(adj := LinkBoth(g1.adj, n, la, lb));
    }
  }

  /** A new intersection node linked to two road nodes of the graph keeps it ready for pass 2. */
  lemma LinkReady(g: Graph, roads: seq<Road>, n: NodeId, c: Point, la: Link, lb: Link)
    requires Pass2Ready(g, roads) && !n.RoadPt? && la.to.RoadPt? && lb.to.RoadPt?
    requires la.to in AddNode(g, n, c).order && lb.to in AddNode(g, n, c).order
    ensures var g1 := AddNode(g, n, c); Pass2Ready(g1.(adj := LinkBoth(g1.adj, n, Some(la), Some(lb))), roads)
  {
    var g1 := AddNode(g, n, c);
    LinkBothShape(g1.adj, n, la, lb);
    assert la.to in g1.pos && lb.to in g1.pos;
    assert forall k :: 0 <= k < |roads| ==> MidNode(roads[k]) in g1.order;
  }

  /** No intersection node of a pair from `(i, j)` on is in the graph yet. */
  ghost predicate InterFree(g: Graph, roads: seq<Road>, i: nat, j: nat)
  {
    forall p, q :: 0 <= p < q < |roads| && AtOrAfter(i, j, p, q) ==> Inter(roads[p].id, roads[q].id) !in g.pos
  }

  /** With distinct road ids, each pair has its own intersection node. */
  lemma InterFreeStep(g: Graph, roads: seq<Road>, i: nat, j: nat, hypot: (real, real) -> real)
    requires InPos(g.order, g.pos) && DistinctRoadIds(roads)
    requires i < j < |roads| && InterFree(g, roads, i, j)
    ensures InterFree(Overlap(g, roads[i], roads[j], hypot), roads, i, j + 1)
  {
    OverlapNodes(g, roads[i], roads[j], hypot);
    forall p, q | 0 <= p < q < |roads| && AtOrAfter(i, j + 1, p, q)
      ensures Inter(roads[p].id, roads[q].id) != Inter(roads[i].id, roads[j].id)
    {
      if p == i {
        assert roads[j].id != roads[q].id;
      } else {
        assert roads[i].id != roads[p].id;
      }
    }
  }

  lemma InterFreeNext(g: Graph, roads: seq<Road>, i: nat, j: nat)
    requires i < j && |roads| <= j && InterFree(g, roads, i, j)
    ensures InterFree(g, roads, i + 1, i + 2)
  {
    forall p, q | 0 <= p < q < |roads| && AtOrAfter(i + 1, i + 2, p, q)
      ensures Inter(roads[p].id, roads[q].id) !in g.pos
    {
      assert AtOrAfter(i, j, p, q);
    }
  }

  /** Pass 2 from any pair keeps every list mirrored. */
  lemma {:induction false} PairsSymmetric(g: Graph, roads: seq<Road>, i: nat, j: nat, hypot: (real, real) -> real)
    requires InPos(g.order, g.pos) && i < j && Symmetric(g.adj)
    ensures Symmetric(PairsFrom(g, roads, i, j, hypot).adj)
    decreases |roads| - i, |roads| - j
  {
    if i >= |roads| {
    } else if j >= |roads| {
      PairsSymmetric(g, roads, i + 1, i + 2, hypot);
    } else {
      OverlapSymmetric(g, roads[i], roads[j], hypot);
      PairsSymmetric(Overlap(g, roads[i], roads[j], hypot), roads, i, j + 1, hypot);
    }
  }

  /** Pass 2 from any pair keeps weights non-negative. */
  lemma {:induction false} PairsNonNeg(g: Graph, roads: seq<Road>, i: nat, j: nat, hypot: (real, real) -> real)
    requires InPos(g.order, g.pos) && i < j && NonNegWeights(g.adj) && NonNegative(hypot)
    ensures NonNegWeights(PairsFrom(g, roads, i, j, hypot).adj)
    decreases |roads| - i, |roads| - j
  {
    if i >= |roads| {
    } else if j >= |roads| {
      PairsNonNeg(g, roads, i + 1, i + 2, hypot);
    } else {
      OverlapNonNeg(g, roads[i], roads[j], hypot);
      PairsNonNeg(Overlap(g, roads[i], roads[j], hypot), roads, i, j + 1, hypot);
    }
  }

  /** Pass 2 from any pair keeps every node with a list and no list without a node. */
  lemma {:induction false} PairsReady(g: Graph, roads: seq<Road>, i: nat, j: nat, hypot: (real, real) -> real)
    requires Pass2Ready(g, roads) && i < j
    ensures Pass2Ready(PairsFrom(g, roads, i, j, hypot), roads)
    decreases |roads| - i, |roads| - j
  {
    if i >= |roads| {
    } else if j >= |roads| {
      PairsReady(g, roads, i + 1, i + 2, hypot);
    } else {
      OverlapReady(g, roads, roads[i], roads[j], hypot);
      PairsReady(Overlap(g, roads[i], roads[j], hypot), roads, i, j + 1, hypot);
    }
  }

  /** How the pairs from `(i, j)` on split: none past the end, the next row, or the head pair and the rest. */
  lemma InterNodesSplit(roads: seq<Road>, i: nat, j: nat)
    requires i < j
    ensures i >= |roads| ==> InterNodesFrom(roads, i, j) == {}
    ensures i < |roads| <= j ==> InterNodesFrom(roads, i, j) == InterNodesFrom(roads, i + 1, i + 2)
    ensures j < |roads| ==> (InterNodesFrom(roads, i, j) == InterNodesFrom(roads, i, j + 1) +
      (if RectOverlap(roads[i].rect, roads[j].rect).Some? then {Inter(roads[i].id, roads[j].id)} else {}))
  {
    if j < |roads| {
      var head := if RectOverlap(roads[i].rect, roads[j].rect).Some? then {Inter(roads[i].id, roads[j].id)} else {};
      forall n | n in InterNodesFrom(roads, i, j) ensures n in InterNodesFrom(roads, i, j + 1) + head {
        var p, q :| 0 <= p < q < |roads| && AtOrAfter(i, j, p, q) && RectOverlap(roads[p].rect, roads[q].rect).Some?
          && n == Inter(roads[p].id, roads[q].id);
        if p != i || q != j {
          assert AtOrAfter(i, j + 1, p, q);
        }
      }
    }
  }

  /** Pass 2 adds exactly the intersection nodes of the overlapping pairs. */
  lemma {:induction false} PairsNodes(g: Graph, roads: seq<Road>, i: nat, j: nat, hypot: (real, real) -> real)
    requires InPos(g.order, g.pos) && i < j
    ensures PairsFrom(g, roads, i, j, hypot).pos.Keys == g.pos.Keys + InterNodesFrom(roads, i, j)
    decreases |roads| - i, |roads| - j
  {
    InterNodesSplit(roads, i, j);
    if i >= |roads| {
    } else if j >= |roads| {
      PairsNodes(g, roads, i + 1, i + 2, hypot);
    } else {
      OverlapNodes(g, roads[i], roads[j], hypot);
      PairsNodes(Overlap(g, roads[i], roads[j], hypot), roads, i, j + 1, hypot);
    }
  }

  /** With distinct road ids and no intersection node yet, pass 2 extends the graph. */
  lemma {:induction false} PairsExtends(g: Graph, roads: seq<Road>, i: nat, j: nat, hypot: (real, real) -> real)
    requires InPos(g.order, g.pos) && i < j && DistinctRoadIds(roads) && InterFree(g, roads, i, j)
    ensures Extends(g, PairsFrom(g, roads, i, j, hypot))
    decreases |roads| - i, |roads| - j
  {
    if i >= |roads| {
    } else if j >= |roads| {
      InterFreeNext(g, roads, i, j);
      PairsExtends(g, roads, i + 1, i + 2, hypot);
    } else {
      var g1 := Overlap(g, roads[i], roads[j], hypot);
      OverlapExtends(g, roads[i], roads[j], hypot);
      InterFreeStep(g, roads, i, j, hypot);
      PairsExtends(g1, roads, i, j + 1, hypot);
      ExtendsTrans(g, g1, PairsFrom(g1, roads, i, j + 1, hypot));
    }
  }

  /** Pass 2 changes no list of a node other than a road node, once it is in the graph. */
  lemma {:induction false} PairsUntouched(g: Graph, roads: seq<Road>, i: nat, j: nat, x: NodeId, hypot: (real, real) -> real)
    requires Pass2Ready(g, roads) && i < j && DistinctRoadIds(roads) && InterFree(g, roads, i, j)
    requires x in g.adj && !x.RoadPt?
    ensures x in PairsFrom(g, roads, i, j, hypot).adj && PairsFrom(g, roads, i, j, hypot).adj[x] == g.adj[x]
    decreases |roads| - i, |roads| - j
  {
    if i >= |roads| {
    } else if j >= |roads| {
      InterFreeNext(g, roads, i, j);
      PairsUntouched(g, roads, i + 1, i + 2, x, hypot);
    } else {
      var g1 := Overlap(g, roads[i], roads[j], hypot);
      OverlapLinked(g, roads[i], roads[j], hypot);
      OverlapReady(g, roads, roads[i], roads[j], hypot);
      InterFreeStep(g, roads, i, j, hypot);
      PairsUntouched(g1, roads, i, j + 1, x, hypot);
    }
  }

  /**
   * With distinct road ids and no intersection node yet, every overlapping pair from
   * `(i, j)` on ends with its node, linked exactly to the nearest node of each road.
   */
  lemma {:induction false} PairsLinked(g: Graph, roads: seq<Road>, i: nat, j: nat, hypot: (real, real) -> real)
    requires Pass2Ready(g, roads) && i < j && DistinctRoadIds(roads) && InterFree(g, roads, i, j)
    ensures var g' := PairsFrom(g, roads, i, j, hypot);
      forall p, q :: 0 <= p < q < |roads| && AtOrAfter(i, j, p, q) ==> InterExact(g', roads[p], roads[q], hypot)
    decreases |roads| - i, |roads| - j
  {
    var g' := PairsFrom(g, roads, i, j, hypot);
    if i >= |roads| {
    } else if j >= |roads| {
      InterFreeNext(g, roads, i, j);
      PairsLinked(g, roads, i + 1, i + 2, hypot);
      forall p, q | 0 <= p < q < |roads| && AtOrAfter(i, j, p, q) ensures InterExact(g', roads[p], roads[q], hypot) {
        assert AtOrAfter(i + 1, i + 2, p, q);
      }
    } else {
      var g1 := Overlap(g, roads[i], roads[j], hypot);
      OverlapReady(g, roads, roads[i], roads[j], hypot);
      InterFreeStep(g, roads, i, j, hypot);
      PairsLinked(g1, roads, i, j + 1, hypot);
      PairsLinkedHead(g, roads, i, j, hypot);
      forall p, q | 0 <= p < q < |roads| && AtOrAfter(i, j, p, q) ensures InterExact(g', roads[p], roads[q], hypot) {
        if p != i || q != j {
          assert AtOrAfter(i, j + 1, p, q);
        }
      }
    }
  }

  /** The pair `(i, j)` itself: its node keeps exactly its two links to the end of pass 2. */
  lemma PairsLinkedHead(g: Graph, roads: seq<Road>, i: nat, j: nat, hypot: (real, real) -> real)
    requires Pass2Ready(g, roads) && i < j < |roads| && DistinctRoadIds(roads) && InterFree(g, roads, i, j)
    ensures InterExact(PairsFrom(g, roads, i, j, hypot), roads[i], roads[j], hypot)
  {
    var g1 := Overlap(g, roads[i], roads[j], hypot);
    OverlapLinked(g, roads[i], roads[j], hypot);
    OverlapReady(g, roads, roads[i], roads[j], hypot);
    InterFreeStep(g, roads, i, j, hypot);
    PairsKeepExact(g1, roads, i, j + 1, roads[i], roads[j], hypot);
  }

  /** An intersection node with exactly its two links keeps them through the rest of pass 2. */
  lemma PairsKeepExact(g: Graph, roads: seq<Road>, i: nat, j: nat, a: Road, b: Road, hypot: (real, real) -> real)
    requires Pass2Ready(g, roads) && i < j && DistinctRoadIds(roads) && InterFree(g, roads, i, j)
    requires InterExact(g, a, b, hypot)
    ensures InterExact(PairsFrom(g, roads, i, j, hypot), a, b, hypot)
  {
    var g' := PairsFrom(g, roads, i, j, hypot);
    PairsExtends(g, roads, i, j, hypot);
    InterLinkedExtends(g, g', a, b, hypot);
    if RectOverlap(a.rect, b.rect).Some? {
      PairsUntouched(g, roads, i, j, Inter(a.id, b.id), hypot);
    }
    InterExactKept(g, g', a, b, hypot);
  }

  /** `InterExact` carries over to a graph that keeps the node's links and its list. */
  lemma InterExactKept(g: Graph, g': Graph, a: Road, b: Road, hypot: (real, real) -> real)
    requires InPos(g.order, g.pos) && InPos(g'.order, g'.pos)
    requires InterExact(g, a, b, hypot) && InterLinked(g', a, b, hypot)
    requires RectOverlap(a.rect, b.rect).Some? ==> g'.adj[Inter(a.id, b.id)] == g.adj[Inter(a.id, b.id)]
    ensures InterExact(g', a, b, hypot)
  {
  }

  /**
   * One pair of pass 2, as the source runs it: the candidates of each road (the
   * nodes whose key starts with `r{id}_`, see `NodeIds.StartsWithRoadPrefix`), the
   * scan for the closest, and the paired appends.
   */
  method OverlapPair(g: Graph, a: Road, b: Road, hypot: (real, real) -> real) returns (g': Graph)
    requires InPos(g.order, g.pos)
    ensures g' == Overlap(g, a, b, hypot)
  {
    var ov := RectOverlap(a.rect, b.rect);
    if ov.None? {
      return g;
    }
    var c := Centre(ov.value);
    var n := Inter(a.id, b.id);
    var g1 := AddNode(g, n, c);
    var candsA := RoadNodesOf(g1.order, a.id);
    var candsB := RoadNodesOf(g1.order, b.id);
    var bestA, da := Nearest(candsA, DistsTo(hypot, candsA, g1.pos, c));
    var bestB, db := Nearest(candsB, DistsTo(hypot, candsB, g1.pos, c));
    var adj := g1.adj;
    if bestA.Some? {
      adj := Connect(adj, n, bestA.value, da);
    }
    if bestB.Some? {
      adj := Connect(adj, n, bestB.value, db);
    }
    g' := g1.(adj := adj);
  }

  /** Pass 2: every pair `i < j` of roads in the source's loop order. */
  method AddIntersections(g0: Graph, roads: seq<Road>, hypot: (real, real) -> real) returns (g: Graph)
    requires InPos(g0.order, g0.pos)
    ensures g == PairsFrom(g0, roads, 0, 1, hypot)
  {
    g := g0;
    for i := 0 to |roads|
      invariant InPos(g.order, g.pos)
      invariant PairsFrom(g, roads, i, i + 1, hypot) == PairsFrom(g0, roads, 0, 1, hypot)
    {
      for j := i + 1 to |roads|
        invariant InPos(g.order, g.pos)
        invariant PairsFrom(g, roads, i, j, hypot) == PairsFrom(g0, roads, 0, 1, hypot)
      {
        g := OverlapPair(g, roads[i], roads[j], hypot);
      }
    }
  }

  // ---------------------------------------------------------------- pass 3: stitching

  /**
   * One pair `(i, j)` of pass 3 over the snapshot `ids` of the node keys: nothing if
   * `ids[j]` is already a neighbour of `ids[i]`, otherwise the two are joined when
   * closer than `ShortGap`.
   */
  function StitchPair(g: Graph, ids: seq<NodeId>, i: nat, j: nat, hypot: (real, real) -> real): (g': Graph)
    requires i < j < |ids| && InPos(ids, g.pos)
    ensures g'.order == g.order && g'.pos == g.pos
  {
    var n1, n2 := ids[i], ids[j];
    if Adjacent(g.adj, n1, n2) then g
    else
      var d := Dist(hypot, g.pos[n1], g.pos[n2]);
      if d < ShortGap then g.(adj := Connect(g.adj, n1, n2, d)) else g
  }

  /** Pass 3 from pair `(i, j)` of the snapshot on. */
  function StitchFrom(g: Graph, ids: seq<NodeId>, i: nat, j: nat, hypot: (real, real) -> real): (g': Graph)
    requires i < j && InPos(ids, g.pos)
    ensures g'.order == g.order && g'.pos == g.pos
    decreases |ids| - i, |ids| - j
  {
    if i >= |ids| then g
    else if j >= |ids| then StitchFrom(g, ids, i + 1, i + 2, hypot)
    else StitchFrom(StitchPair(g, ids, i, j, hypot), ids, i, j + 1, hypot)
  }

  /** Link `l` of node `x` joins two nodes closer than `ShortGap`, weighted by their distance. */
  ghost predicate CloseLink(pos: map<NodeId, Point>, x: NodeId, l: Link, hypot: (real, real) -> real)
  {
    && x in pos && l.to in pos && l.w < ShortGap
    && (l.w == Dist(hypot, pos[x], pos[l.to]) || l.w == Dist(hypot, pos[l.to], pos[x]))
  }

  /** Every link `g'` has beyond the lists of `g` is a close link. */
  ghost predicate AddsClose(g: Graph, g': Graph, hypot: (real, real) -> real)
  {
    forall x, k :: x in g'.adj && |Links(g.adj, x)| <= k < |g'.adj[x]| ==> CloseLink(g'.pos, x, g'.adj[x][k], hypot)
  }

  lemma AddsCloseTrans(g1: Graph, g2: Graph, g3: Graph, hypot: (real, real) -> real)
    requires AddsClose(g1, g2, hypot) && AddsClose(g2, g3, hypot)
    requires Keeps(g1.adj, g2.adj) && Keeps(g2.adj, g3.adj) && g2.pos == g3.pos
    requires g2.adj.Keys <= g3.adj.Keys
    ensures AddsClose(g1, g3, hypot)
  {
    forall x, k | x in g3.adj && |Links(g1.adj, x)| <= k < |g3.adj[x]| ensures CloseLink(g3.pos, x, g3.adj[x][k], hypot) {
      if x in g2.adj && k < |g2.adj[x]| {
        assert g3.adj[x][k] == g2.adj[x][k];
        assert CloseLink(g2.pos, x, g2.adj[x][k], hypot);
      } else if x in g2.adj {
        assert Links(g2.adj, x) == g2.adj[x];
      } else {
        assert Links(g2.adj, x) == [];
      }
    }
  }

  lemma StitchPairSymmetric(g: Graph, ids: seq<NodeId>, i: nat, j: nat, hypot: (real, real) -> real)
    requires i < j < |ids| && InPos(ids, g.pos) && Symmetric(g.adj)
    ensures Symmetric(StitchPair(g, ids, i, j, hypot).adj)
    ensures Keeps(g.adj, StitchPair(g, ids, i, j, hypot).adj)
  {
    ConnectSymmetric(g.adj, ids[i], ids[j], Dist(hypot, g.pos[ids[i]], g.pos[ids[j]]));
  }

  lemma StitchPairKeeps(g: Graph, ids: seq<NodeId>, i: nat, j: nat, hypot: (real, real) -> real)
    requires i < j < |ids| && InPos(ids, g.pos)
    ensures Keeps(g.adj, StitchPair(g, ids, i, j, hypot).adj)
    ensures g.adj.Keys <= StitchPair(g, ids, i, j, hypot).adj.Keys <= g.adj.Keys + {ids[i], ids[j]}
  {
    ConnectKeeps(g.adj, ids[i], ids[j], Dist(hypot, g.pos[ids[i]], g.pos[ids[j]]));
  }

  lemma StitchPairNonNeg(g: Graph, ids: seq<NodeId>, i: nat, j: nat, hypot: (real, real) -> real)
    requires i < j < |ids| && InPos(ids, g.pos) && NonNegWeights(g.adj) && NonNegative(hypot)
    ensures NonNegWeights(StitchPair(g, ids, i, j, hypot).adj)
  {
    ConnectNonNeg(g.adj, ids[i], ids[j], Dist(hypot, g.pos[ids[i]], g.pos[ids[j]]));
  }

  /** Stitching never repeats a neighbour: it joins only distinct nodes not yet adjacent. */
  lemma StitchPairSimple(g: Graph, ids: seq<NodeId>, i: nat, j: nat, hypot: (real, real) -> real)
    requires i < j < |ids| && InPos(ids, g.pos) && ids[i] != ids[j]
    requires Symmetric(g.adj) && Simple(g.adj)
    ensures Symmetric(StitchPair(g, ids, i, j, hypot).adj) && Simple(StitchPair(g, ids, i, j, hypot).adj)
  {
    StitchPairSymmetric(g, ids, i, j, hypot);
    if !Adjacent(g.adj, ids[i], ids[j]) {
      ConnectSimple(g.adj, ids[i], ids[j], Dist(hypot, g.pos[ids[i]], g.pos[ids[j]]));
    }
  }

  /** After its pair, two nodes closer than `ShortGap` are neighbours. */
  lemma StitchPairJoins(g: Graph, ids: seq<NodeId>, i: nat, j: nat, hypot: (real, real) -> real)
    requires i < j < |ids| && InPos(ids, g.pos) && ids[i] != ids[j]
    requires Dist(hypot, g.pos[ids[i]], g.pos[ids[j]]) < ShortGap
    ensures Adjacent(StitchPair(g, ids, i, j, hypot).adj, ids[i], ids[j])
  {
    var n1, n2 := ids[i], ids[j];
    if !Adjacent(g.adj, n1, n2) {
      var d := Dist(hypot, g.pos[n1], g.pos[n2]);
      ConnectShape(g.adj, n1, n2, d);
      var a': Adjacency := Connect(g.adj, n1, n2, d);
      assert a'[n1][|a'[n1]| - 1].to == n2;
    }
  }

  /** Every link a pair of pass 3 adds is a close link. */
  lemma StitchPairClose(g: Graph, ids: seq<NodeId>, i: nat, j: nat, hypot: (real, real) -> real)
    requires i < j < |ids| && InPos(ids, g.pos) && ids[i] != ids[j]
    ensures AddsClose(g, StitchPair(g, ids, i, j, hypot), hypot)
  {
    var n1, n2 := ids[i], ids[j];
    if !Adjacent(g.adj, n1, n2) {
      var d := Dist(hypot, g.pos[n1], g.pos[n2]);
      ConnectShape(g.adj, n1, n2, d);
    }
  }

  /** Positions `p` and `q` of the snapshot, if both valid, hold different keys. */
  predicate Apart(ids: seq<NodeId>, p: int, q: int)
  {
    0 <= p < q < |ids| ==> ids[p] != ids[q]
  }

  /** No key occurs twice in the snapshot. */
  ghost predicate Distinct(ids: seq<NodeId>)
  {
    forall p, q :: Apart(ids, p, q)
  }

  lemma {:induction false} StitchSymmetric(g: Graph, ids: seq<NodeId>, i: nat, j: nat, hypot: (real, real) -> real)
    requires i < j && InPos(ids, g.pos) && Symmetric(g.adj)
    ensures Symmetric(StitchFrom(g, ids, i, j, hypot).adj)
    decreases |ids| - i, |ids| - j
  {
    if i >= |ids| {
    } else if j >= |ids| {
      StitchSymmetric(g, ids, i + 1, i + 2, hypot);
    } else {
      StitchPairSymmetric(g, ids, i, j, hypot);
      StitchSymmetric(StitchPair(g, ids, i, j, hypot), ids, i, j + 1, hypot);
    }
  }

  lemma {:induction false} StitchNonNeg(g: Graph, ids: seq<NodeId>, i: nat, j: nat, hypot: (real, real) -> real)
    requires i < j && InPos(ids, g.pos) && NonNegWeights(g.adj) && NonNegative(hypot)
    ensures NonNegWeights(StitchFrom(g, ids, i, j, hypot).adj)
    decreases |ids| - i, |ids| - j
  {
    if i >= |ids| {
    } else if j >= |ids| {
      StitchNonNeg(g, ids, i + 1, i + 2, hypot);
    } else {
      StitchPairNonNeg(g, ids, i, j, hypot);
      StitchNonNeg(StitchPair(g, ids, i, j, hypot), ids, i, j + 1, hypot);
    }
  }

  lemma StitchPairKeys(g: Graph, ids: seq<NodeId>, i: nat, j: nat, hypot: (real, real) -> real)
    requires i < j < |ids| && InPos(ids, g.pos) && g.adj.Keys == g.pos.Keys
    ensures StitchPair(g, ids, i, j, hypot).adj.Keys == g.pos.Keys
  {
    StitchPairKeeps(g, ids, i, j, hypot);
  }

  /** Every node keeps exactly one list through pass 3. */
  lemma {:induction false} StitchKeys(g: Graph, ids: seq<NodeId>, i: nat, j: nat, hypot: (real, real) -> real)
    requires i < j && InPos(ids, g.pos) && g.adj.Keys == g.pos.Keys
    ensures StitchFrom(g, ids, i, j, hypot).adj.Keys == g.pos.Keys
    decreases |ids| - i, |ids| - j
  {
    if i >= |ids| {
    } else if j >= |ids| {
      StitchKeys(g, ids, i + 1, i + 2, hypot);
    } else {
      var g1 := StitchPair(g, ids, i, j, hypot);
      StitchPairKeys(g, ids, i, j, hypot);
      StitchFromStep(g, g1, ids, i, j, hypot);
      StitchKeys(g1, ids, i, j + 1, hypot);
    }
  }

  /** Over a snapshot without repeated keys, pass 3 never repeats a neighbour. */
  lemma {:induction false} StitchSimple(g: Graph, ids: seq<NodeId>, i: nat, j: nat, hypot: (real, real) -> real)
    requires i < j && InPos(ids, g.pos) && Distinct(ids) && Symmetric(g.adj) && Simple(g.adj)
    ensures Simple(StitchFrom(g, ids, i, j, hypot).adj)
    decreases |ids| - i, |ids| - j, 1
  {
    if i >= |ids| {
    } else if j >= |ids| {
      StitchSimple(g, ids, i + 1, i + 2, hypot);
    } else {
      StitchSimpleStep(g, ids, i, j, hypot);
    }
  }

  lemma {:induction false} StitchSimpleStep(g: Graph, ids: seq<NodeId>, i: nat, j: nat, hypot: (real, real) -> real)
    requires i < j < |ids| && InPos(ids, g.pos) && Distinct(ids) && Symmetric(g.adj) && Simple(g.adj)
    ensures Simple(StitchFrom(g, ids, i, j, hypot).adj)
    decreases |ids| - i, |ids| - j, 0
  {
    assert Apart(ids, i, j);
    StitchPairSimple(g, ids, i, j, hypot);
    StitchSimple(StitchPair(g, ids, i, j, hypot), ids, i, j + 1, hypot);
  }

  /** Every pair from `(i, j)` on that is closer than `ShortGap` ends up adjacent. */
  lemma {:induction false} StitchJoins(g: Graph, ids: seq<NodeId>, i: nat, j: nat, hypot: (real, real) -> real)
    requires i < j && InPos(ids, g.pos) && Distinct(ids)
    ensures var g' := StitchFrom(g, ids, i, j, hypot);
      forall p, q :: 0 <= p < q < |ids| && AtOrAfter(i, j, p, q) && Dist(hypot, g.pos[ids[p]], g.pos[ids[q]]) < ShortGap ==>
        Adjacent(g'.adj, ids[p], ids[q])
    decreases |ids| - i, |ids| - j, 1
  {
    var g' := StitchFrom(g, ids, i, j, hypot);
    if i >= |ids| {
    } else if j >= |ids| {
      StitchJoins(g, ids, i + 1, i + 2, hypot);
      forall p, q | 0 <= p < q < |ids| && AtOrAfter(i, j, p, q) && Dist(hypot, g.pos[ids[p]], g.pos[ids[q]]) < ShortGap
        ensures Adjacent(g'.adj, ids[p], ids[q])
      {
        assert AtOrAfter(i + 1, i + 2, p, q);
      }
    } else {
      StitchJoinsStep(g, ids, i, j, hypot);
    }
  }

  lemma {:induction false} StitchJoinsStep(g: Graph, ids: seq<NodeId>, i: nat, j: nat, hypot: (real, real) -> real)
    requires i < j < |ids| && InPos(ids, g.pos) && Distinct(ids)
    ensures var g' := StitchFrom(g, ids, i, j, hypot);
      forall p, q :: 0 <= p < q < |ids| && AtOrAfter(i, j, p, q) && Dist(hypot, g.pos[ids[p]], g.pos[ids[q]]) < ShortGap ==>
        Adjacent(g'.adj, ids[p], ids[q])
    decreases |ids| - i, |ids| - j, 0
  {
    var g1 := StitchPair(g, ids, i, j, hypot);
    var g' := StitchFrom(g1, ids, i, j + 1, hypot);
    StitchJoins(g1, ids, i, j + 1, hypot);
    if Dist(hypot, g.pos[ids[i]], g.pos[ids[j]]) < ShortGap {
      StitchJoinsHead(g, ids, i, j, hypot);
    }
    forall p, q | 0 <= p < q < |ids| && AtOrAfter(i, j, p, q) && Dist(hypot, g.pos[ids[p]], g.pos[ids[q]]) < ShortGap
      ensures Adjacent(g'.adj, ids[p], ids[q])
    {
      if p != i || q != j {
        assert AtOrAfter(i, j + 1, p, q);
      }
    }
  }

  /** The pair `(i, j)` itself: if close, adjacent from its step to the end of pass 3. */
  lemma StitchJoinsHead(g: Graph, ids: seq<NodeId>, i: nat, j: nat, hypot: (real, real) -> real)
    requires i < j < |ids| && InPos(ids, g.pos) && Distinct(ids)
    requires Dist(hypot, g.pos[ids[i]], g.pos[ids[j]]) < ShortGap
    ensures Adjacent(StitchFrom(g, ids, i, j, hypot).adj, ids[i], ids[j])
  {
    var g1 := StitchPair(g, ids, i, j, hypot);
    assert Apart(ids, i, j);
    StitchPairJoins(g, ids, i, j, hypot);
    StitchKeepsAny(g1, ids, i, j + 1, hypot);
    AdjacentKept(g1.adj, StitchFrom(g1, ids, i, j + 1, hypot).adj, ids[i], ids[j]);
  }

  /** Pass 3 only extends lists. */
  lemma {:induction false} StitchKeepsAny(g: Graph, ids: seq<NodeId>, i: nat, j: nat, hypot: (real, real) -> real)
    requires i < j && InPos(ids, g.pos)
    ensures Keeps(g.adj, StitchFrom(g, ids, i, j, hypot).adj)
    ensures g.adj.Keys <= StitchFrom(g, ids, i, j, hypot).adj.Keys
    decreases |ids| - i, |ids| - j
  {
    if i >= |ids| {
    } else if j >= |ids| {
      StitchKeepsAny(g, ids, i + 1, i + 2, hypot);
    } else {
      var g1 := StitchPair(g, ids, i, j, hypot);
      StitchPairKeeps(g, ids, i, j, hypot);
      StitchKeepsAny(g1, ids, i, j + 1, hypot);
      KeepsTrans(g.adj, g1.adj, StitchFrom(g1, ids, i, j + 1, hypot).adj);
      assert StitchFrom(g, ids, i, j, hypot) == StitchFrom(g1, ids, i, j + 1, hypot);
    }
  }

  /** Every link pass 3 adds joins two nodes closer than `ShortGap`. */
  lemma {:induction false} StitchClose(g: Graph, ids: seq<NodeId>, i: nat, j: nat, hypot: (real, real) -> real)
    requires i < j && InPos(ids, g.pos) && Distinct(ids)
    ensures AddsClose(g, StitchFrom(g, ids, i, j, hypot), hypot)
    decreases |ids| - i, |ids| - j, 1
  {
    if i >= |ids| {
    } else if j >= |ids| {
      StitchClose(g, ids, i + 1, i + 2, hypot);
    } else {
      StitchCloseStep(g, ids, i, j, hypot);
    }
  }

  lemma {:induction false} StitchCloseStep(g: Graph, ids: seq<NodeId>, i: nat, j: nat, hypot: (real, real) -> real)
    requires i < j < |ids| && InPos(ids, g.pos) && Distinct(ids)
    ensures AddsClose(g, StitchFrom(g, ids, i, j, hypot), hypot)
    decreases |ids| - i, |ids| - j, 0
  {
    var g1 := StitchPair(g, ids, i, j, hypot);
    assert Apart(ids, i, j);
    StitchPairClose(g, ids, i, j, hypot);
    StitchPairKeeps(g, ids, i, j, hypot);
    StitchClose(g1, ids, i, j + 1, hypot);
    StitchKeepsAny(g1, ids, i, j + 1, hypot);
    AddsCloseTrans(g, g1, StitchFrom(g1, ids, i, j + 1, hypot), hypot);
  }

  /**
   * Pass 3: every pair `i < j` of the node keys as they stand after pass 2
   * (`all_node_ids = list(nodes.keys())`).
   */
  method Stitch(g0: Graph, hypot: (real, real) -> real) returns (g: Graph)
    requires InPos(g0.order, g0.pos)
    ensures g == StitchFrom(g0, g0.order, 0, 1, hypot)
  {
    var ids := g0.order;
    g := g0;
    for i := 0 to |ids|
      invariant g.pos == g0.pos
      invariant StitchFrom(g, ids, i, i + 1, hypot) == StitchFrom(g0, ids, 0, 1, hypot)
    {
      g := StitchRow(g, ids, i, hypot);
    }
  }

  /** The pairs `(i, j)` of pass 3 for one `i`: the inner loop over `j > i`. */
  method StitchRow(g0: Graph, ids: seq<NodeId>, i: nat, hypot: (real, real) -> real) returns (g: Graph)
    requires i < |ids| && InPos(ids, g0.pos)
    ensures g.pos == g0.pos
    ensures StitchFrom(g, ids, i + 1, i + 2, hypot) == StitchFrom(g0, ids, i, i + 1, hypot)
  {
    g := g0;
    for j := i + 1 to |ids|
      invariant g.pos == g0.pos
      invariant StitchFrom(g, ids, i, j, hypot) == StitchFrom(g0, ids, i, i + 1, hypot)
    {
      var g' := StitchOne(g, ids, i, j, hypot);
      StitchFromStep(g, g', ids, i, j, hypot);
      g := g';
    }
    StitchFromRowEnd(g, ids, i, hypot);
  }

  /** Past the last pair of row `i`, pass 3 goes on with row `i + 1`. */
  lemma StitchFromRowEnd(g: Graph, ids: seq<NodeId>, i: nat, hypot: (real, real) -> real)
    requires i < |ids| && InPos(ids, g.pos)
    ensures StitchFrom(g, ids, i, |ids|, hypot) == StitchFrom(g, ids, i + 1, i + 2, hypot)
  {
  }

  /**
   * One pair of pass 3: nodes `ids[i]` and `ids[j]` not yet linked are joined both
   * ways when closer than `ShortGap`.
   */
  method StitchOne(g: Graph, ids: seq<NodeId>, i: nat, j: nat, hypot: (real, real) -> real) returns (g': Graph)
    requires i < j < |ids| && InPos(ids, g.pos)
    ensures g' == StitchPair(g, ids, i, j, hypot)
  {
    g' := g;
    var n1, n2 := ids[i], ids[j];
    if !Adjacent(g.adj, n1, n2) {
      var d := Dist(hypot, g.pos[n1], g.pos[n2]);
      if d < ShortGap {
        g' := g.(adj := Connect(g.adj, n1, n2, d));
      }
    }
  }

  /** Unrolling pass 3 by one pair. */
  lemma StitchFromStep(g: Graph, g': Graph, ids: seq<NodeId>, i: nat, j: nat, hypot: (real, real) -> real)
    requires i < j < |ids| && InPos(ids, g.pos) && g' == StitchPair(g, ids, i, j, hypot)
    ensures StitchFrom(g, ids, i, j, hypot) == StitchFrom(g', ids, i, j + 1, hypot)
  {
  }

  // ---------------------------------------------------------------- pass 4: hubs

  /** The node keys other than `n`, in order (`for nid in nodes: if nid == hid: continue`). */
  function Others(order: seq<NodeId>, n: NodeId): (r: seq<NodeId>)
    ensures forall m :: m in r ==> m in order && m != n
  {
    if order == [] then []
    else
      var m := order[|order| - 1];
      Others(order[..|order| - 1], n) + (if m == n then [] else [m])
  }

  /** Without `n` among them, the other keys are all the keys. */
  lemma {:induction false} OthersAbsent(order: seq<NodeId>, n: NodeId)
    requires n !in order
    ensures Others(order, n) == order
  {
    if order != [] {
      var init := order[..|order| - 1];
      OthersAbsent(init, n);
      assert order == init + [order[|order| - 1]];
    }
  }

  /**
   * The snap link of a hub at `p` over the candidate nodes `cands`: the first
   * closest candidate, when there is one and it lies within `snap`.
   */
  ghost function SnapLink(cands: seq<NodeId>, pos: map<NodeId, Point>, p: Point, snap: real, hypot: (real, real) -> real): Option<Link>
    requires forall m :: m in cands ==> m in pos
  {
    if cands == [] then None
    else
      var ds := DistsFrom(hypot, p, cands, pos);
      var k := FirstMin(ds);
      if ds[k] <= snap then Some(Link(cands[k], ds[k])) else None
  }

  /**
   * One hub of pass 4: its node at the hub's position, its list reset to empty, and
   * the link to the closest other node when that is within `snap`.
   */
  ghost function HubStep(g: Graph, h: Hub, snap: real, hypot: (real, real) -> real): (g': Graph)
    requires InPos(g.order, g.pos)
    ensures InPos(g'.order, g'.pos)
  {
    var n, p := HubNode(h.id), Point(h.x, h.y);
    var g1 := AddNode(g, n, p);
    g1.(adj := LinkNearest(g1.adj[n := []], n, SnapLink(Others(g1.order, n), g1.pos, p, snap, hypot)))
  }

  /** Pass 4 from hub `k` on. */
  ghost function HubsFrom(g: Graph, hubs: seq<Hub>, k: nat, snap: real, hypot: (real, real) -> real): (g': Graph)
    requires InPos(g.order, g.pos)
    ensures InPos(g'.order, g'.pos)
    decreases |hubs| - k
  {
    if k >= |hubs| then g else HubsFrom(HubStep(g, hubs[k], snap, hypot), hubs, k + 1, snap, hypot)
  }

  predicate DistinctHubIds(hubs: seq<Hub>)
  {
    forall i, j :: 0 <= i < j < |hubs| ==> hubs[i].id != hubs[j].id
  }

  /** No hub from `k` on has its node in the graph yet. */
  ghost predicate HubsFree(g: Graph, hubs: seq<Hub>, k: nat)
  {
    forall m :: k <= m < |hubs| ==> HubNode(hubs[m].id) !in g.pos
  }

  /** The snap link, if any, points at one of the candidates, at a non-negative distance. */
  lemma SnapLinkTarget(cands: seq<NodeId>, pos: map<NodeId, Point>, p: Point, snap: real, hypot: (real, real) -> real)
    requires forall m :: m in cands ==> m in pos
    ensures var near := SnapLink(cands, pos, p, snap, hypot);
      near.Some? ==> near.value.to in cands && near.value.w <= snap
    ensures NonNegative(hypot) ==> var near := SnapLink(cands, pos, p, snap, hypot);
      near.Some? ==> near.value.w >= 0.0
  {
  }

  /** A new hub keeps every list mirrored: nobody links to it before its own snap. */
  lemma HubStepSymmetric(g: Graph, h: Hub, snap: real, hypot: (real, real) -> real)
    requires InPos(g.order, g.pos) && g.adj.Keys == g.pos.Keys && HubNode(h.id) !in g.pos && Symmetric(g.adj)
    ensures Symmetric(HubStep(g, h, snap, hypot).adj)
  {
    var n, p := HubNode(h.id), Point(h.x, h.y);
    var g1 := AddNode(g, n, p);
    var adj0 := g1.adj[n := []];
    assert Symmetric(adj0);
    var near := SnapLink(Others(g1.order, n), g1.pos, p, snap, hypot);
    if near.Some? {
      ConnectSymmetric(adj0, n, near.value.to, near.value.w);
    }
  }

  lemma HubStepNonNeg(g: Graph, h: Hub, snap: real, hypot: (real, real) -> real)
    requires InPos(g.order, g.pos) && NonNegWeights(g.adj) && NonNegative(hypot)
    ensures NonNegWeights(HubStep(g, h, snap, hypot).adj)
  {
    var n, p := HubNode(h.id), Point(h.x, h.y);
    var g1 := AddNode(g, n, p);
    var adj0 := g1.adj[n := []];
    var near := SnapLink(Others(g1.order, n), g1.pos, p, snap, hypot);
    SnapLinkTarget(Others(g1.order, n), g1.pos, p, snap, hypot);
    if near.Some? {
      ConnectNonNeg(adj0, n, near.value.to, near.value.w);
    }
  }

  /** Every node keeps exactly one list through a hub. */
  lemma HubStepKeys(g: Graph, h: Hub, snap: real, hypot: (real, real) -> real)
    requires InPos(g.order, g.pos) && g.adj.Keys == g.pos.Keys
    ensures HubStep(g, h, snap, hypot).adj.Keys == HubStep(g, h, snap, hypot).pos.Keys
  {
    var n, p := HubNode(h.id), Point(h.x, h.y);
    var g1 := AddNode(g, n, p);
    var adj0 := g1.adj[n := []];
    var near := SnapLink(Others(g1.order, n), g1.pos, p, snap, hypot);
    SnapLinkTarget(Others(g1.order, n), g1.pos, p, snap, hypot);
    if near.Some? {
      ConnectShape(adj0, n, near.value.to, near.value.w);
    }
  }

  /** A new hub extends the graph. */
  lemma HubStepExtends(g: Graph, h: Hub, snap: real, hypot: (real, real) -> real)
    requires InPos(g.order, g.pos) && g.adj.Keys == g.pos.Keys && HubNode(h.id) !in g.pos
    ensures Extends(g, HubStep(g, h, snap, hypot))
  {
    var n, p := HubNode(h.id), Point(h.x, h.y);
    var g1 := AddNode(g, n, p);
    var adj0 := g1.adj[n := []];
    assert Keeps(g.adj, adj0);
    var near := SnapLink(Others(g1.order, n), g1.pos, p, snap, hypot);
    if near.Some? {
      ConnectKeeps(adj0, n, near.value.to, near.value.w);
    }
  }

  /**
   * Hub `h` is the node at position `i` of the order, at the hub's position; its list
   * starts with its own snap link over the nodes before it, if any, and every later
   * entry is a link from a hub added after it.
   */
  ghost predicate HubSnappedAt(g: Graph, h: Hub, i: nat, snap: real, hypot: (real, real) -> real)
    requires InPos(g.order, g.pos)
  {
    var n, p := HubNode(h.id), Point(h.x, h.y);
    && i < |g.order| && g.order[i] == n && g.pos[n] == p && n in g.adj
    && var own := SnapLink(g.order[..i], g.pos, p, snap, hypot);
       var first := if own.Some? then [own.value] else [];
       && first <= g.adj[n]
       && forall k :: |first| <= k < |g.adj[n]| ==> g.adj[n][k].to.HubNode?
  }

  /** A new hub ends its own step with exactly its snap link, or with no link. */
  lemma HubStepSnapped(g: Graph, h: Hub, i: nat, snap: real, hypot: (real, real) -> real)
    requires InPos(g.order, g.pos) && HubNode(h.id) !in g.pos && i == |g.order|
    ensures HubSnappedAt(HubStep(g, h, snap, hypot), h, i, snap, hypot)
  {
    var n, p := HubNode(h.id), Point(h.x, h.y);
    var g1 := AddNode(g, n, p);
    assert g1.order[..|g.order|] == g.order;
    assert Others(g1.order, n) == Others(g.order, n) by {
      assert g1.order[..|g1.order| - 1] == g.order;
    }
    OthersAbsent(g.order, n);
    var near := SnapLink(g.order, g1.pos, p, snap, hypot);
    SnapLinkTarget(g.order, g1.pos, p, snap, hypot);
    if near.Some? {
      ConnectShape(g1.adj[n := []], n, near.value.to, near.value.w);
    }
  }

  /** The snap link depends only on the positions of the candidates. */
  lemma SnapLinkFrame(cands: seq<NodeId>, pos: map<NodeId, Point>, pos': map<NodeId, Point>, p: Point, snap: real, hypot: (real, real) -> real)
    requires forall m :: m in cands ==> m in pos && m in pos' && pos'[m] == pos[m]
    ensures SnapLink(cands, pos', p, snap, hypot) == SnapLink(cands, pos, p, snap, hypot)
  {
    assert DistsFrom(hypot, p, cands, pos') == DistsFrom(hypot, p, cands, pos);
  }

  /** A later hub leaves an earlier hub's snap as it was. */
  lemma HubStepKeepsSnapped(g: Graph, h: Hub, i: nat, h': Hub, snap: real, hypot: (real, real) -> real)
    requires InPos(g.order, g.pos) && g.adj.Keys == g.pos.Keys
    requires HubSnappedAt(g, h, i, snap, hypot) && HubNode(h'.id) !in g.pos
    ensures HubSnappedAt(HubStep(g, h', snap, hypot), h, i, snap, hypot)
  {
    var n, n', p' := HubNode(h.id), HubNode(h'.id), Point(h'.x, h'.y);
    var g1 := AddNode(g, n', p');
    var g' := HubStep(g, h', snap, hypot);
    assert g'.order[..i] == g.order[..i];
    SnapLinkFrame(g.order[..i], g.pos, g'.pos, Point(h.x, h.y), snap, hypot);
    var near := SnapLink(Others(g1.order, n'), g1.pos, p', snap, hypot);
    SnapLinkTarget(Others(g1.order, n'), g1.pos, p', snap, hypot);
    if near.Some? {
      ConnectShape(g1.adj[n' := []], n', near.value.to, near.value.w);
    }
  }

  /** The precondition every hub fold lemma shares: new, distinct hubs over an indexed graph. */
  ghost predicate HubsReady(g: Graph, hubs: seq<Hub>, k: nat)
  {
    InPos(g.order, g.pos) && g.adj.Keys == g.pos.Keys && DistinctHubIds(hubs) && HubsFree(g, hubs, k)
  }

  /** One hub keeps the fold's precondition for the hubs after it. */
  lemma HubStepReady(g: Graph, hubs: seq<Hub>, k: nat, snap: real, hypot: (real, real) -> real)
    requires k < |hubs| && HubsReady(g, hubs, k)
    ensures HubsReady(HubStep(g, hubs[k], snap, hypot), hubs, k + 1)
    ensures |HubStep(g, hubs[k], snap, hypot).order| == |g.order| + 1
  {
    HubStepKeys(g, hubs[k], snap, hypot);
    forall m | k + 1 <= m < |hubs| ensures HubNode(hubs[m].id) != HubNode(hubs[k].id) {
      assert hubs[k].id != hubs[m].id;
    }
  }

  lemma {:induction false} HubsSymmetric(g: Graph, hubs: seq<Hub>, k: nat, snap: real, hypot: (real, real) -> real)
    requires HubsReady(g, hubs, k) && Symmetric(g.adj)
    ensures Symmetric(HubsFrom(g, hubs, k, snap, hypot).adj)
    decreases |hubs| - k
  {
    if k < |hubs| {
      HubStepSymmetric(g, hubs[k], snap, hypot);
      HubStepReady(g, hubs, k, snap, hypot);
      HubsSymmetric(HubStep(g, hubs[k], snap, hypot), hubs, k + 1, snap, hypot);
    }
  }

  lemma {:induction false} HubsNonNeg(g: Graph, hubs: seq<Hub>, k: nat, snap: real, hypot: (real, real) -> real)
    requires InPos(g.order, g.pos) && NonNegWeights(g.adj) && NonNegative(hypot)
    ensures NonNegWeights(HubsFrom(g, hubs, k, snap, hypot).adj)
    decreases |hubs| - k
  {
    if k < |hubs| {
      HubStepNonNeg(g, hubs[k], snap, hypot);
      HubsNonNeg(HubStep(g, hubs[k], snap, hypot), hubs, k + 1, snap, hypot);
    }
  }

  /** Every node keeps exactly one list through pass 4. */
  lemma {:induction false} HubsKeys(g: Graph, hubs: seq<Hub>, k: nat, snap: real, hypot: (real, real) -> real)
    requires InPos(g.order, g.pos) && g.adj.Keys == g.pos.Keys
    ensures HubsFrom(g, hubs, k, snap, hypot).adj.Keys == HubsFrom(g, hubs, k, snap, hypot).pos.Keys
    decreases |hubs| - k
  {
    if k < |hubs| {
      HubStepKeys(g, hubs[k], snap, hypot);
      HubsKeys(HubStep(g, hubs[k], snap, hypot), hubs, k + 1, snap, hypot);
    }
  }

  /** With new, distinct hubs, pass 4 extends the graph. */
  lemma {:induction false} HubsExtends(g: Graph, hubs: seq<Hub>, k: nat, snap: real, hypot: (real, real) -> real)
    requires HubsReady(g, hubs, k)
    ensures Extends(g, HubsFrom(g, hubs, k, snap, hypot))
    decreases |hubs| - k
  {
    if k < |hubs| {
      var g1 := HubStep(g, hubs[k], snap, hypot);
      HubStepExtends(g, hubs[k], snap, hypot);
      HubStepReady(g, hubs, k, snap, hypot);
      HubsExtends(g1, hubs, k + 1, snap, hypot);
      ExtendsTrans(g, g1, HubsFrom(g1, hubs, k + 1, snap, hypot));
    }
  }

  /** Later hubs leave an earlier hub's snap as it was. */
  lemma {:induction false} HubsKeepSnapped(g: Graph, hubs: seq<Hub>, k: nat, h: Hub, i: nat, snap: real, hypot: (real, real) -> real)
    requires HubsReady(g, hubs, k) && HubSnappedAt(g, h, i, snap, hypot)
    ensures HubSnappedAt(HubsFrom(g, hubs, k, snap, hypot), h, i, snap, hypot)
    decreases |hubs| - k
  {
    if k < |hubs| {
      HubStepKeepsSnapped(g, h, i, hubs[k], snap, hypot);
      HubStepReady(g, hubs, k, snap, hypot);
      HubsKeepSnapped(HubStep(g, hubs[k], snap, hypot), hubs, k + 1, h, i, snap, hypot);
    }
  }

  /** Every hub `m` is node `base + m` and snapped as `HubSnappedAt` says. */
  ghost predicate AllHubsSnapped(g: Graph, hubs: seq<Hub>, base: nat, snap: real, hypot: (real, real) -> real)
    requires InPos(g.order, g.pos)
  {
    forall m :: 0 <= m < |hubs| ==> HubSnappedAt(g, hubs[m], base + m, snap, hypot)
  }

  /**
   * With new, distinct hubs, hub `m` (from `k` on) is node `base + m` of the order, where
   * `base + k` is the number of nodes before hub `k`, and ends pass 4 with its own snap
   * link first, if any, followed only by links from later hubs.
   */
  lemma {:induction false} HubsSnapped(g: Graph, hubs: seq<Hub>, k: nat, base: nat, final: Graph, snap: real, hypot: (real, real) -> real)
    requires HubsReady(g, hubs, k) && base + k == |g.order| && final == HubsFrom(g, hubs, k, snap, hypot)
    ensures forall m :: k <= m < |hubs| ==> HubSnappedAt(final, hubs[m], base + m, snap, hypot)
    decreases |hubs| - k
  {
    if k < |hubs| {
      var g1 := HubStep(g, hubs[k], snap, hypot);
      HubStepSnapped(g, hubs[k], base + k, snap, hypot);
      HubStepReady(g, hubs, k, snap, hypot);
      assert final == HubsFrom(g1, hubs, k + 1, snap, hypot);
      HubsSnapped(g1, hubs, k + 1, base, final, snap, hypot);
      HubsKeepSnapped(g1, hubs, k + 1, hubs[k], base + k, snap, hypot);
    }
  }

  /**
   * Pass 4: each hub in turn (`nodes[hid] = (hx, hy)`, `edges[hid] = []`), the scan
   * for the closest other node, and the snap when it is within `snap`.
   */
  method SnapHubs(g0: Graph, hubs: seq<Hub>, snap: real, hypot: (real, real) -> real) returns (g: Graph)
    requires InPos(g0.order, g0.pos)
    ensures g == HubsFrom(g0, hubs, 0, snap, hypot)
  {
    g := g0;
    for k := 0 to |hubs|
      invariant InPos(g.order, g.pos)
      invariant HubsFrom(g, hubs, k, snap, hypot) == HubsFrom(g0, hubs, 0, snap, hypot)
    {
      var h := hubs[k];
      var n, p := HubNode(h.id), Point(h.x, h.y);
      var g1 := AddNode(g, n, p);
      var adj := g1.adj[n := []];
      var cands := Others(g1.order, n);
      var best, bd := Nearest(cands, DistsFrom(hypot, p, cands, g1.pos));
      if best.Some? && bd <= snap {
        adj := Connect(adj, n, best.value, bd);
      }
      g := g1.(adj := adj);
    }
  }

  // ---------------------------------------------------------------- no repeated neighbours

  /** Linking a new node to two distinct other nodes repeats no neighbour. */
  lemma LinkBothSimple(adj: Adjacency, n: NodeId, la: Link, lb: Link)
    requires Symmetric(adj) && Simple(adj) && n !in adj
    requires la.to != n && lb.to != n && la.to != lb.to
    ensures Simple(LinkBoth(adj, n, Some(la), Some(lb)))
  {
    var adj1 := Connect(adj, n, la.to, la.w);
    ConnectSimple(adj, n, la.to, la.w);
    ConnectSymmetric(adj, n, la.to, la.w);
    ConnectShape(adj, n, la.to, la.w);
    assert Links(adj1, n) == [la];
    ConnectSimple(adj1, n, lb.to, lb.w);
  }

  /** A pair of distinct roads whose node is new repeats no neighbour. */
  lemma OverlapSimple(g: Graph, a: Road, b: Road, hypot: (real, real) -> real)
    requires InPos(g.order, g.pos) && g.adj.Keys == g.pos.Keys && Symmetric(g.adj) && Simple(g.adj)
    requires MidNode(a) in g.order && MidNode(b) in g.order && Inter(a.id, b.id) !in g.pos && a.id != b.id
    ensures Simple(Overlap(g, a, b, hypot).adj)
  {
    var ov := RectOverlap(a.rect, b.rect);
    if ov.Some? {
      var c := Centre(ov.value);
      var n := Inter(a.id, b.id);
      var g1 := AddNode(g, n, c);
      var la := NearestRoadNode(g1.order, g1.pos, a.id, c, hypot);
      var lb := NearestRoadNode(g1.order, g1.pos, b.id, c, hypot);
      NearestFound(g1.order, g1.pos, a, c, hypot);
      NearestFound(g1.order, g1.pos, b, c, hypot);
      RoadNodesOfMembers(g1.order, a.id);
      RoadNodesOfMembers(g1.order, b.id);
      LinkBothSimple(g1.adj, n, la.value, lb.value);
    }
  }

  /** With distinct road ids and no intersection node yet, pass 2 repeats no neighbour. */
  lemma {:induction false} PairsSimple(g: Graph, roads: seq<Road>, i: nat, j: nat, hypot: (real, real) -> real)
    requires Pass2Ready(g, roads) && i < j && DistinctRoadIds(roads) && InterFree(g, roads, i, j)
    requires Symmetric(g.adj) && Simple(g.adj)
    ensures Simple(PairsFrom(g, roads, i, j, hypot).adj)
    decreases |roads| - i, |roads| - j, 1
  {
    if i >= |roads| {
    } else if j >= |roads| {
      InterFreeNext(g, roads, i, j);
      PairsSimple(g, roads, i + 1, i + 2, hypot);
    } else {
      PairsSimpleStep(g, roads, i, j, hypot);
    }
  }

  lemma {:induction false} PairsSimpleStep(g: Graph, roads: seq<Road>, i: nat, j: nat, hypot: (real, real) -> real)
    requires Pass2Ready(g, roads) && i < j < |roads| && DistinctRoadIds(roads) && InterFree(g, roads, i, j)
    requires Symmetric(g.adj) && Simple(g.adj)
    ensures Simple(PairsFrom(g, roads, i, j, hypot).adj)
    decreases |roads| - i, |roads| - j, 0
  {
    var a, b := roads[i], roads[j];
    OverlapSimple(g, a, b, hypot);
    OverlapSymmetric(g, a, b, hypot);
    OverlapReady(g, roads, a, b, hypot);
    InterFreeStep(g, roads, i, j, hypot);
    PairsSimple(Overlap(g, a, b, hypot), roads, i, j + 1, hypot);
  }

  /** A new hub repeats no neighbour: its list starts empty and it snaps to another node. */
  lemma HubStepSimple(g: Graph, h: Hub, snap: real, hypot: (real, real) -> real)
    requires InPos(g.order, g.pos) && g.adj.Keys == g.pos.Keys && HubNode(h.id) !in g.pos
    requires Symmetric(g.adj) && Simple(g.adj)
    ensures Simple(HubStep(g, h, snap, hypot).adj)
  {
    var n, p := HubNode(h.id), Point(h.x, h.y);
    var g1 := AddNode(g, n, p);
    var adj0 := g1.adj[n := []];
    assert Symmetric(adj0);
    assert Simple(adj0);
    var near := SnapLink(Others(g1.order, n), g1.pos, p, snap, hypot);
    if near.Some? {
      assert Links(adj0, n) == [];
      ConnectSimple(adj0, n, near.value.to, near.value.w);
    }
  }

  /** With new, distinct hubs, pass 4 repeats no neighbour. */
  lemma {:induction false} HubsSimple(g: Graph, hubs: seq<Hub>, k: nat, snap: real, hypot: (real, real) -> real)
    requires HubsReady(g, hubs, k) && Symmetric(g.adj) && Simple(g.adj)
    ensures Simple(HubsFrom(g, hubs, k, snap, hypot).adj)
    decreases |hubs| - k
  {
    if k < |hubs| {
      HubStepSimple(g, hubs[k], snap, hypot);
      HubStepSymmetric(g, hubs[k], snap, hypot);
      HubStepReady(g, hubs, k, snap, hypot);
      HubsSimple(HubStep(g, hubs[k], snap, hypot), hubs, k + 1, snap, hypot);
    }
  }

  // ---------------------------------------------------------------- node order and node set of passes 2 and 4

  lemma OverlapOrdered(g: Graph, a: Road, b: Road, hypot: (real, real) -> real)
    requires InPos(g.order, g.pos) && Ordered(g.order, g.pos)
    ensures Ordered(Overlap(g, a, b, hypot).order, Overlap(g, a, b, hypot).pos)
  {
    OverlapNodes(g, a, b, hypot);
    var ov := RectOverlap(a.rect, b.rect);
    if ov.Some? {
      AddNodeOrdered(g, Inter(a.id, b.id), Centre(ov.value));
    }
  }

  /** Pass 2 keeps the order a faithful list of the node keys. */
  lemma {:induction false} PairsOrdered(g: Graph, roads: seq<Road>, i: nat, j: nat, hypot: (real, real) -> real)
    requires InPos(g.order, g.pos) && Ordered(g.order, g.pos) && i < j
    ensures Ordered(PairsFrom(g, roads, i, j, hypot).order, PairsFrom(g, roads, i, j, hypot).pos)
    decreases |roads| - i, |roads| - j
  {
    if i >= |roads| {
    } else if j >= |roads| {
      PairsOrdered(g, roads, i + 1, i + 2, hypot);
    } else {
      OverlapOrdered(g, roads[i], roads[j], hypot);
      PairsOrdered(Overlap(g, roads[i], roads[j], hypot), roads, i, j + 1, hypot);
    }
  }

  /** The hub nodes of the hubs from `k` on. */
  function HubNodesFrom(hubs: seq<Hub>, k: nat): set<NodeId>
  {
    set m | k <= m < |hubs| :: HubNode(hubs[m].id)
  }

  /** Pass 4 keeps the order a faithful list of the node keys. */
  lemma {:induction false} HubsOrdered(g: Graph, hubs: seq<Hub>, k: nat, snap: real, hypot: (real, real) -> real)
    requires InPos(g.order, g.pos) && Ordered(g.order, g.pos)
    ensures Ordered(HubsFrom(g, hubs, k, snap, hypot).order, HubsFrom(g, hubs, k, snap, hypot).pos)
    decreases |hubs| - k
  {
    if k < |hubs| {
      AddNodeOrdered(g, HubNode(hubs[k].id), Point(hubs[k].x, hubs[k].y));
      HubsOrdered(HubStep(g, hubs[k], snap, hypot), hubs, k + 1, snap, hypot);
    }
  }

  lemma HubNodesSplit(hubs: seq<Hub>, k: nat)
    ensures k >= |hubs| ==> HubNodesFrom(hubs, k) == {}
    ensures k < |hubs| ==> HubNodesFrom(hubs, k) == {HubNode(hubs[k].id)} + HubNodesFrom(hubs, k + 1)
  {
  }

  /** Pass 4 adds exactly the hub nodes. */
  lemma {:induction false} HubsNodes(g: Graph, hubs: seq<Hub>, k: nat, snap: real, hypot: (real, real) -> real)
    requires InPos(g.order, g.pos)
    ensures HubsFrom(g, hubs, k, snap, hypot).pos.Keys == g.pos.Keys + HubNodesFrom(hubs, k)
    decreases |hubs| - k
  {
    HubNodesSplit(hubs, k);
    if k < |hubs| {
      var g1 := HubStep(g, hubs[k], snap, hypot);
      assert g1.pos.Keys == g.pos.Keys + {HubNode(hubs[k].id)};
      HubsNodes(g1, hubs, k + 1, snap, hypot);
      assert HubsFrom(g, hubs, k, snap, hypot) == HubsFrom(g1, hubs, k + 1, snap, hypot);
    }
  }

  /** With new, distinct hubs, pass 4 adds one node to the order per hub. */
  lemma {:induction false} HubsLength(g: Graph, hubs: seq<Hub>, k: nat, snap: real, hypot: (real, real) -> real)
    requires HubsReady(g, hubs, k) && k <= |hubs|
    ensures |HubsFrom(g, hubs, k, snap, hypot).order| == |g.order| + (|hubs| - k)
    decreases |hubs| - k
  {
    if k < |hubs| {
      var g1 := HubStep(g, hubs[k], snap, hypot);
      HubStepReady(g, hubs, k, snap, hypot);
      HubsLength(g1, hubs, k + 1, snap, hypot);
      assert HubsFrom(g, hubs, k, snap, hypot) == HubsFrom(g1, hubs, k + 1, snap, hypot);
    }
  }

  // ---------------------------------------------------------------- what survives the later passes

  /**
   * Road `r`'s three nodes stand at its centre-line points, and each list begins with
   * the road's own chain links.
   */
  ghost predicate RoadLinked(g: Graph, r: Road, hypot: (real, real) -> real)
  {
    var f, m, l := FirstNode(r), MidNode(r), LastNode(r);
    var d1 := Dist(hypot, FirstPoint(r), Centre(r.rect));
    var d2 := Dist(hypot, Centre(r.rect), LastPoint(r));
    && f in g.pos && m in g.pos && l in g.pos
    && g.pos[f] == FirstPoint(r) && g.pos[m] == Centre(r.rect) && g.pos[l] == LastPoint(r)
    && f in g.adj && m in g.adj && l in g.adj
    && [Link(m, d1)] <= g.adj[f]
    && [Link(f, d1), Link(l, d2)] <= g.adj[m]
    && [Link(m, d2)] <= g.adj[l]
  }

  lemma RoadLinkedExtends(g: Graph, g': Graph, r: Road, hypot: (real, real) -> real)
    requires (Chain(g, r, hypot) || RoadLinked(g, r, hypot)) && Extends(g, g')
    ensures RoadLinked(g', r, hypot)
  {
  }

  /** Any two of the first `n` nodes of the order closer than `ShortGap` are neighbours. */
  ghost predicate CloseJoined(g: Graph, n: nat, hypot: (real, real) -> real)
    requires InPos(g.order, g.pos) && n <= |g.order|
  {
    forall p, q :: 0 <= p < q < n && Dist(hypot, g.pos[g.order[p]], g.pos[g.order[q]]) < ShortGap ==>
      Adjacent(g.adj, g.order[p], g.order[q])
  }

  lemma CloseJoinedExtends(g: Graph, g': Graph, n: nat, hypot: (real, real) -> real)
    requires InPos(g.order, g.pos) && InPos(g'.order, g'.pos) && n <= |g.order|
    requires CloseJoined(g, n, hypot) && Extends(g, g')
    ensures CloseJoined(g', n, hypot)
  {
    forall p, q | 0 <= p < q < n && Dist(hypot, g'.pos[g'.order[p]], g'.pos[g'.order[q]]) < ShortGap
      ensures Adjacent(g'.adj, g'.order[p], g'.order[q])
    {
      assert g'.order[p] == g.order[p] && g'.order[q] == g.order[q];
      AdjacentKept(g.adj, g'.adj, g.order[p], g.order[q]);
    }
  }

  lemma OrderedDistinct(order: seq<NodeId>, pos: map<NodeId, Point>)
    requires Ordered(order, pos)
    ensures Distinct(order)
  {
  }

  // ---------------------------------------------------------------- the passes in sequence

  /** Only road nodes are in the node set of pass 1. */
  lemma {:induction false} RoadNodeSetRoadPts(rs: seq<Road>)
    ensures forall n :: n in RoadNodeSet(rs) ==> n.RoadPt?
  {
    if rs != [] {
      RoadNodeSetRoadPts(rs[..|rs| - 1]);
    }
  }

  /** Every road of `rs` has its middle node in the node set of pass 1. */
  lemma {:induction false} RoadNodeSetMids(rs: seq<Road>)
    ensures forall k :: 0 <= k < |rs| ==> MidNode(rs[k]) in RoadNodeSet(rs)
  {
    if rs != [] {
      var init := rs[..|rs| - 1];
      RoadNodeSetMids(init);
      forall k | 0 <= k < |init| ensures MidNode(rs[k]) in RoadNodeSet(rs) {
        assert MidNode(init[k]) in RoadNodeSet(init);
      }
    }
  }

  /** Pass 1 leaves every middle node in place and no intersection node yet. */
  lemma Pass1Ready(g: Graph, roads: seq<Road>)
    requires Indexed(g) && g.pos.Keys == RoadNodeSet(roads)
    ensures Pass2Ready(g, roads) && InterFree(g, roads, 0, 1)
  {
    RoadNodeSetRoadPts(roads);
    RoadNodeSetMids(roads);
  }

  /** What pass 2 keeps of pass 1 in every case. */
  lemma Pass2Facts(g: Graph, roads: seq<Road>, hypot: (real, real) -> real)
    requires Indexed(g) && Symmetric(g.adj) && g.pos.Keys == RoadNodeSet(roads)
    ensures var g' := PairsFrom(g, roads, 0, 1, hypot);
      && Indexed(g') && Symmetric(g'.adj)
      && g'.pos.Keys == RoadNodeSet(roads) + InterNodesFrom(roads, 0, 1)
      && (NonNegative(hypot) && NonNegWeights(g.adj) ==> NonNegWeights(g'.adj))
  {
    Pass1Ready(g, roads);
    PairsOrdered(g, roads, 0, 1, hypot);
    PairsReady(g, roads, 0, 1, hypot);
    PairsSymmetric(g, roads, 0, 1, hypot);
    PairsNodes(g, roads, 0, 1, hypot);
    if NonNegative(hypot) && NonNegWeights(g.adj) {
      PairsNonNeg(g, roads, 0, 1, hypot);
    }
  }

  /** What pass 2 keeps of pass 1 with distinct road ids. */
  lemma Pass2Distinct(g: Graph, roads: seq<Road>, hypot: (real, real) -> real)
    requires Indexed(g) && Symmetric(g.adj) && Simple(g.adj) && g.pos.Keys == RoadNodeSet(roads)
    requires DistinctRoadIds(roads)
    ensures var g' := PairsFrom(g, roads, 0, 1, hypot);
      && Extends(g, g') && Simple(g'.adj)
      && forall p, q :: 0 <= p < q < |roads| ==> InterExact(g', roads[p], roads[q], hypot)
  {
    var g' := PairsFrom(g, roads, 0, 1, hypot);
    Pass1Ready(g, roads);
    PairsExtends(g, roads, 0, 1, hypot);
    PairsSimple(g, roads, 0, 1, hypot);
    PairsLinked(g, roads, 0, 1, hypot);
    forall p, q | 0 <= p < q < |roads| ensures InterExact(g', roads[p], roads[q], hypot) {
      assert AtOrAfter(0, 1, p, q);
    }
  }

  /** What pass 3 keeps of pass 2, and the pairs it joins. */
  lemma Pass3Facts(g: Graph, hypot: (real, real) -> real)
    requires Indexed(g) && Symmetric(g.adj)
    ensures var g' := StitchFrom(g, g.order, 0, 1, hypot);
      && Indexed(g') && Symmetric(g'.adj) && Extends(g, g')
      && (NonNegative(hypot) && NonNegWeights(g.adj) ==> NonNegWeights(g'.adj))
      && (Simple(g.adj) ==> Simple(g'.adj))
      && CloseJoined(g', |g'.order|, hypot)
  {
    var g' := StitchFrom(g, g.order, 0, 1, hypot);
    OrderedDistinct(g.order, g.pos);
    StitchKeys(g, g.order, 0, 1, hypot);
    StitchSymmetric(g, g.order, 0, 1, hypot);
    StitchKeepsAny(g, g.order, 0, 1, hypot);
    StitchJoins(g, g.order, 0, 1, hypot);
    if NonNegative(hypot) && NonNegWeights(g.adj) {
      StitchNonNeg(g, g.order, 0, 1, hypot);
    }
    if Simple(g.adj) {
      StitchSimple(g, g.order, 0, 1, hypot);
    }
    forall p, q | 0 <= p < q < |g'.order| && Dist(hypot, g'.pos[g'.order[p]], g'.pos[g'.order[q]]) < ShortGap
      ensures Adjacent(g'.adj, g'.order[p], g'.order[q])
    {
      assert AtOrAfter(0, 1, p, q);
    }
  }

  /** What pass 4 keeps of pass 3 in every case. */
  lemma Pass4Facts(g: Graph, hubs: seq<Hub>, snap: real, hypot: (real, real) -> real)
    requires Indexed(g)
    ensures var g' := HubsFrom(g, hubs, 0, snap, hypot);
      && Indexed(g')
      && g'.pos.Keys == g.pos.Keys + HubNodesFrom(hubs, 0)
      && (NonNegative(hypot) && NonNegWeights(g.adj) ==> NonNegWeights(g'.adj))
  {
    HubsOrdered(g, hubs, 0, snap, hypot);
    HubsKeys(g, hubs, 0, snap, hypot);
    HubsNodes(g, hubs, 0, snap, hypot);
    if NonNegative(hypot) && NonNegWeights(g.adj) {
      HubsNonNeg(g, hubs, 0, snap, hypot);
    }
  }

  /** What pass 4 keeps of pass 3 with distinct hub ids that are new to the graph. */
  lemma Pass4Distinct(g: Graph, hubs: seq<Hub>, snap: real, hypot: (real, real) -> real)
    requires Indexed(g) && Symmetric(g.adj) && DistinctHubIds(hubs) && HubsFree(g, hubs, 0)
    ensures var g' := HubsFrom(g, hubs, 0, snap, hypot);
      && Symmetric(g'.adj) && Extends(g, g')
      && (Simple(g.adj) ==> Simple(g'.adj))
      && |g'.order| == |g.order| + |hubs|
  {
    HubsSymmetric(g, hubs, 0, snap, hypot);
    HubsExtends(g, hubs, 0, snap, hypot);
    HubsLength(g, hubs, 0, snap, hypot);
    if Simple(g.adj) {
      HubsSimple(g, hubs, 0, snap, hypot);
    }
  }

  /** Passes 2 and 3 add no hub node. */
  lemma NoHubsYet(g: Graph, roads: seq<Road>, hubs: seq<Hub>)
    requires g.pos.Keys == RoadNodeSet(roads) + InterNodesFrom(roads, 0, 1)
    ensures HubsFree(g, hubs, 0)
  {
    RoadNodeSetRoadPts(roads);
  }

  // ---------------------------------------------------------------- build_graph

  /** Every link of `g` leads to a node of `g`. */
  ghost predicate LinksInside(g: Graph)
  {
    forall u, l :: u in g.adj && l in g.adj[u] ==> l.to in g.pos
  }

  /** Connecting two nodes of the graph keeps every link inside it. */
  lemma ConnectInside(g: Graph, u: NodeId, v: NodeId, w: real)
    requires LinksInside(g) && u in g.pos && v in g.pos
    ensures LinksInside(g.(adj := Connect(g.adj, u, v, w)))
  {
    var a1 := Append(g.adj, u, Link(v, w));
    assert LinksInside(g.(adj := a1));
  }

  /** A hub's node, its emptied list and its snap link keep every link inside the graph. */
  lemma HubStepInside(g: Graph, h: Hub, snap: real, hypot: (real, real) -> real)
    requires InPos(g.order, g.pos) && LinksInside(g)
    ensures LinksInside(HubStep(g, h, snap, hypot))
  {
    var n, p := HubNode(h.id), Point(h.x, h.y);
    var g1 := AddNode(g, n, p);
    var cands := Others(g1.order, n);
    SnapLinkTarget(cands, g1.pos, p, snap, hypot);
    var g2 := g1.(adj := g1.adj[n := []]);
    assert LinksInside(g2);
    var near := SnapLink(cands, g1.pos, p, snap, hypot);
    if near.Some? {
      ConnectInside(g2, n, near.value.to, near.value.w);
    }
  }

  /** Pass 4 from hub `k` on keeps every link inside the graph. */
  lemma {:induction false} HubsInside(g: Graph, hubs: seq<Hub>, k: nat, snap: real, hypot: (real, real) -> real)
    requires InPos(g.order, g.pos) && LinksInside(g)
    ensures LinksInside(HubsFrom(g, hubs, k, snap, hypot))
    decreases |hubs| - k
  {
    if k < |hubs| {
      HubStepInside(g, hubs[k], snap, hypot);
      HubsInside(HubStep(g, hubs[k], snap, hypot), hubs, k + 1, snap, hypot);
    }
  }

  /**
   * `build_graph` as its four passes composed: the roads, then every overlapping
   * pair, then every close pair of the nodes so far, then the hubs.
   */
  ghost function Built(roads: seq<Road>, hubs: seq<Hub>, snap: real, hypot: (real, real) -> real): Graph
  {
    var g2 := PairsFrom(RoadsFrom(roads, hypot), roads, 0, 1, hypot);
    HubsFrom(StitchFrom(g2, g2.order, 0, 1, hypot), hubs, 0, snap, hypot)
  }

  /**
   * `build_graph(mapdata, hub_snap_dist)`: the four passes in order, with `snap` for
   * `hub_snap_dist` (`HubSnapDist` by default).
   *
   * In every case the nodes are exactly the three nodes of each road, the node of
   * each overlapping pair of roads and the hubs, each with one adjacency list, and
   * the order lists each of them once. With distinct hub ids every link is mirrored,
   * any two road or intersection nodes closer than `ShortGap` are neighbours, and
   * each hub's list begins with its snap link. With distinct road ids as well, no
   * list repeats a neighbour, each road's list begins with its chain, and each
   * overlapping pair's node is linked to the nearest node of both roads.
   */
  method BuildGraph(roads: seq<Road>, hubs: seq<Hub>, snap: real, hypot: (real, real) -> real) returns (g: Graph)
    ensures g == Built(roads, hubs, snap, hypot)
    ensures Indexed(g) && LinksInside(g)
    ensures g.pos.Keys == RoadNodeSet(roads) + InterNodesFrom(roads, 0, 1) + HubNodesFrom(hubs, 0)
    ensures NonNegative(hypot) ==> NonNegWeights(g.adj)
    ensures DistinctHubIds(hubs) ==> Symmetric(g.adj)
    ensures DistinctHubIds(hubs) ==> |hubs| <= |g.order| && CloseJoined(g, |g.order| - |hubs|, hypot)
    ensures DistinctHubIds(hubs) ==> |hubs| <= |g.order| && AllHubsSnapped(g, hubs, |g.order| - |hubs|, snap, hypot)
    ensures DistinctRoadIds(roads) && DistinctHubIds(hubs) ==> Simple(g.adj)
    ensures DistinctRoadIds(roads) && DistinctHubIds(hubs) ==>
      forall k :: 0 <= k < |roads| ==> RoadLinked(g, roads[k], hypot)
    ensures DistinctRoadIds(roads) && DistinctHubIds(hubs) ==>
      forall p, q :: 0 <= p < q < |roads| ==> InterLinked(g, roads[p], roads[q], hypot)
  {
    var g1 := AddRoadNodes(roads, hypot);
    var g2 := AddIntersections(g1, roads, hypot);
    Pass2Facts(g1, roads, hypot);
    var g3 := Stitch(g2, hypot);
    Pass3Facts(g2, hypot);
    g := SnapHubs(g3, hubs, snap, hypot);
    Pass4Facts(g3, hubs, snap, hypot);
    assert LinksInside(g3);
    HubsInside(g3, hubs, 0, snap, hypot);
    if DistinctHubIds(hubs) {
      NoHubsYet(g3, roads, hubs);
      HubsAfterStitch(g3, hubs, snap, hypot);
      HubsAllSnapped(g3, hubs, g, snap, hypot);
      if DistinctRoadIds(roads) {
        Pass2Distinct(g1, roads, hypot);
        RoadsAfterHubs(g1, g2, g3, roads, hubs, snap, hypot);
      }
    }
  }

  /** Pass 4 over the graph of pass 3, with distinct hub ids new to it. */
  lemma HubsAfterStitch(g: Graph, hubs: seq<Hub>, snap: real, hypot: (real, real) -> real)
    requires Indexed(g) && Symmetric(g.adj) && DistinctHubIds(hubs) && HubsFree(g, hubs, 0)
    requires CloseJoined(g, |g.order|, hypot)
    ensures var g' := HubsFrom(g, hubs, 0, snap, hypot);
      && Symmetric(g'.adj) && (Simple(g.adj) ==> Simple(g'.adj))
      && |g'.order| == |g.order| + |hubs| && CloseJoined(g', |g'.order| - |hubs|, hypot)
  {
    var g' := HubsFrom(g, hubs, 0, snap, hypot);
    Pass4Distinct(g, hubs, snap, hypot);
    CloseJoinedExtends(g, g', |g.order|, hypot);
    assert |g.order| == |g'.order| - |hubs|;
  }

  /** After pass 4 with distinct hub ids new to the graph, the hubs are the last nodes, snapped. */
  lemma HubsAllSnapped(g: Graph, hubs: seq<Hub>, g': Graph, snap: real, hypot: (real, real) -> real)
    requires Indexed(g) && DistinctHubIds(hubs) && HubsFree(g, hubs, 0)
    requires g' == HubsFrom(g, hubs, 0, snap, hypot) && InPos(g'.order, g'.pos)
    ensures |hubs| <= |g'.order| && AllHubsSnapped(g', hubs, |g'.order| - |hubs|, snap, hypot)
  {
    HubsLength(g, hubs, 0, snap, hypot);
    HubsSnapped(g, hubs, 0, |g'.order| - |hubs|, g', snap, hypot);
  }

  /** The roads' chains and the intersection links of pass 2 survive passes 3 and 4. */
  lemma RoadsAfterHubs(g1: Graph, g2: Graph, g3: Graph, roads: seq<Road>, hubs: seq<Hub>, snap: real, hypot: (real, real) -> real)
    requires Indexed(g1) && Indexed(g2) && Indexed(g3) && Symmetric(g3.adj)
    requires forall k :: 0 <= k < |roads| ==> Chain(g1, roads[k], hypot)
    requires forall p, q :: 0 <= p < q < |roads| ==> InterExact(g2, roads[p], roads[q], hypot)
    requires Extends(g1, g2) && Extends(g2, g3)
    requires DistinctHubIds(hubs) && HubsFree(g3, hubs, 0)
    ensures var g := HubsFrom(g3, hubs, 0, snap, hypot);
      && (forall k :: 0 <= k < |roads| ==> RoadLinked(g, roads[k], hypot))
      && (forall p, q :: 0 <= p < q < |roads| ==> InterLinked(g, roads[p], roads[q], hypot))
  {
    var g := HubsFrom(g3, hubs, 0, snap, hypot);
    Pass4Distinct(g3, hubs, snap, hypot);
    ExtendsTrans(g2, g3, g);
    ExtendsTrans(g1, g2, g);
    forall k | 0 <= k < |roads| ensures RoadLinked(g, roads[k], hypot) {
      RoadLinkedExtends(g1, g, roads[k], hypot);
    }
    forall p, q | 0 <= p < q < |roads| ensures InterLinked(g, roads[p], roads[q], hypot) {
      InterLinkedExtends(g2, g, roads[p], roads[q], hypot);
    }
  }
}
