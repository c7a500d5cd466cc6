/**
 * The road graph produced by `build_graph` in map_utils.py: node positions, the
 * insertion order of the node dictionary, and the adjacency lists
 * (`edges: {node_id: [(neighbor_id, distance), ...]}`).
 */
module RoadGraph {
  import opened Geometry
  import opened NodeIds

  datatype RoadKind = Big | Small

  /** A road of the map document: its rectangle and its category. */
  datatype Road = Road(id: int, rect: Rect, kind: RoadKind)

  /** A hub of the map document (its name and spawn rate play no part here). */
  datatype Hub = Hub(id: int, x: real, y: real)

  /** One entry `(neighbor_id, distance)` of an adjacency list. */
  datatype Link = Link(to: NodeId, w: real)

  type Adjacency = map<NodeId, seq<Link>>

  /**
   * `nodes` of the source is an insertion-ordered dictionary: `order` lists its keys
   * in insertion order and `pos` maps them to their positions.
   */
  datatype Graph = Graph(order: seq<NodeId>, pos: map<NodeId, Point>, adj: Adjacency)

  /** `edges.get(u, [])`. */
  function Links(adj: Adjacency, u: NodeId): seq<Link>
  {
    if u in adj then adj[u] else []
  }

  /** `edges[u].append(l)` on the defaultdict: creates the list when missing. */
  function Append(adj: Adjacency, u: NodeId, l: Link): (adj': Adjacency)
    ensures adj'.Keys == adj.Keys + {u}
    ensures adj'[u] == Links(adj, u) + [l]
    ensures forall x :: x in adj && x != u ==> adj'[x] == adj[x]
  {
    adj[u := Links(adj, u) + [l]]
  }

  /** The two paired appends `edges[u].append((v, w)); edges[v].append((u, w))`. */
  function Connect(adj: Adjacency, u: NodeId, v: NodeId, w: real): Adjacency
  {
    Append(Append(adj, u, Link(v, w)), v, Link(u, w))
  }

  /** `any(nb == v for nb, _ in links)`. */
  predicate HasTarget(links: seq<Link>, v: NodeId)
  {
    exists k | 0 <= k < |links| :: links[k].to == v
  }

  /** `v` is among the neighbours listed for `u`. */
  predicate Adjacent(adj: Adjacency, u: NodeId, v: NodeId)
  {
    HasTarget(Links(adj, u), v)
  }

  /**
   * Every link has its mirror image with the same weight, and points at a node that
   * has an adjacency list of its own.
   */
  ghost predicate Symmetric(adj: Adjacency)
  {
    forall u, l :: u in adj && l in adj[u] ==> l.to in adj && Link(u, l.w) in adj[l.to]
  }

  /** All weights are non-negative. */
  ghost predicate NonNegWeights(adj: Adjacency)
  {
    forall u, l :: u in adj && l in adj[u] ==> l.w >= 0.0
  }

  /** `links` names no neighbour twice, and never `self`. */
  predicate SimpleLinks(links: seq<Link>, self: NodeId)
  {
    && (forall i, j :: 0 <= i < j < |links| ==> links[i].to != links[j].to)
    && (forall l :: l in links ==> l.to != self)
  }

  /** No list names the same neighbour twice, and no node is its own neighbour. */
  ghost predicate Simple(adj: Adjacency)
  {
    forall u :: u in adj ==> SimpleLinks(adj[u], u)
  }

  /** Every list of `adj` is still there in `adj'`, possibly extended. */
  ghost predicate Keeps(adj: Adjacency, adj': Adjacency)
  {
    forall u :: u in adj ==> u in adj' && adj[u] <= adj'[u]
  }

  /** The distance oracle never returns a negative length. */
  ghost predicate NonNegative(hypot: (real, real) -> real)
  {
    forall x, y :: hypot(x, y) >= 0.0
  }

  /** Connecting two nodes keeps every link its mirror image. */
  lemma ConnectSymmetric(adj: Adjacency, u: NodeId, v: NodeId, w: real)
    requires Symmetric(adj)
    ensures Symmetric(Connect(adj, u, v, w))
    ensures Keeps(adj, Connect(adj, u, v, w))
  {
    var a1: Adjacency := Append(adj, u, Link(v, w));
    var a2: Adjacency := Append(a1, v, Link(u, w));
    forall x: NodeId, l: Link | x in a2 && l in a2[x] ensures l.to in a2 && Link(x, l.w) in a2[l.to] {
      if x == v && l == Link(u, w) {
        assert Link(v, w) in a1[u];
      } else if x == u && l == Link(v, w) {
      } else {
        assert l in Links(adj, x);
      }
    }
  }

  lemma ConnectNonNeg(adj: Adjacency, u: NodeId, v: NodeId, w: real)
    requires NonNegWeights(adj) && w >= 0.0
    ensures NonNegWeights(Connect(adj, u, v, w))
  {
    var a1: Adjacency := Append(adj, u, Link(v, w));
    assert NonNegWeights(a1) by {
      forall x: NodeId, l: Link | x in a1 && l in a1[x] ensures l.w >= 0.0 {
        if l != Link(v, w) { assert l in Links(adj, x); }
      }
    }
    var a2: Adjacency := Append(a1, v, Link(u, w));
    forall x: NodeId, l: Link | x in a2 && l in a2[x] ensures l.w >= 0.0 {
      if l != Link(u, w) { assert l in Links(a1, x); }
    }
  }

  /** In a symmetric adjacency, being a neighbour is a symmetric relation. */
  lemma AdjacentSymmetric(adj: Adjacency, x: NodeId, y: NodeId)
    requires Symmetric(adj)
    ensures Adjacent(adj, x, y) ==> Adjacent(adj, y, x)
  {
    if Adjacent(adj, x, y) {
      var k :| 0 <= k < |Links(adj, x)| && Links(adj, x)[k].to == y;
      var l := Links(adj, x)[k];
      assert l in adj[x];
      var back := Link(x, l.w);
      assert back in adj[y];
      var k' :| 0 <= k' < |adj[y]| && adj[y][k'] == back;
      assert Links(adj, y)[k'].to == x;
    }
  }

  /**
   * Connecting two distinct nodes that were not adjacent keeps every list free of
   * repeated neighbours and of self-loops.
   */
  lemma ConnectSimple(adj: Adjacency, u: NodeId, v: NodeId, w: real)
    requires Symmetric(adj) && Simple(adj)
    requires u != v && !Adjacent(adj, u, v)
    ensures Simple(Connect(adj, u, v, w))
  {
    var a1: Adjacency := Append(adj, u, Link(v, w));
    var a2: Adjacency := Append(a1, v, Link(u, w));
    AdjacentSymmetric(adj, v, u);
    forall x: NodeId, i: int, j: int | x in a2 && 0 <= i < j < |a2[x]| ensures a2[x][i].to != a2[x][j].to {
      if x == u {
        assert a2[x] == Links(adj, u) + [Link(v, w)];
      } else if x == v {
        assert a2[x] == Links(adj, v) + [Link(u, w)];
      } else {
        assert a2[x] == adj[x];
      }
    }
    forall x: NodeId, l: Link | x in a2 && l in a2[x] ensures l.to != x {
      if x == u {
        assert l in Links(adj, u) + [Link(v, w)];
      } else if x == v {
        assert l in Links(adj, v) + [Link(u, w)];
      } else {
        assert l in adj[x];
      }
    }
  }

  /** Connecting two nodes gives both of them an adjacency list. */
  lemma ConnectKeys(adj: Adjacency, u: NodeId, v: NodeId, w: real)
    ensures Connect(adj, u, v, w).Keys == adj.Keys + {u, v}
  {
  }

  /** What `Connect` does to the keys and the lists. */
  lemma ConnectShape(adj: Adjacency, u: NodeId, v: NodeId, w: real)
    requires u != v
    ensures Connect(adj, u, v, w).Keys == adj.Keys + {u, v}
    ensures Connect(adj, u, v, w)[u] == Links(adj, u) + [Link(v, w)]
    ensures Connect(adj, u, v, w)[v] == Links(adj, v) + [Link(u, w)]
    ensures forall x :: x in adj && x != u && x != v ==> Connect(adj, u, v, w)[x] == adj[x]
  {
  }

  lemma ConnectKeeps(adj: Adjacency, u: NodeId, v: NodeId, w: real)
    ensures Keeps(adj, Connect(adj, u, v, w))
  {
    var a1: Adjacency := Append(adj, u, Link(v, w));
    assert Keeps(adj, a1);
  }

  lemma KeepsTrans(a1: Adjacency, a2: Adjacency, a3: Adjacency)
    requires Keeps(a1, a2) && Keeps(a2, a3)
    ensures Keeps(a1, a3)
  {
  }

  /** A neighbour stays a neighbour while lists are only extended. */
  lemma AdjacentKept(adj: Adjacency, adj': Adjacency, u: NodeId, v: NodeId)
    requires Keeps(adj, adj') && Adjacent(adj, u, v)
    ensures Adjacent(adj', u, v)
  {
    var k :| 0 <= k < |Links(adj, u)| && Links(adj, u)[k].to == v;
    assert Links(adj', u)[k] == Links(adj, u)[k];
  }
}
