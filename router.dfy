/**
 * `find_path` of map_utils.py: Dijkstra's algorithm with lazy deletion over the
 * adjacency lists built by `build_graph`, where a step along link `(v, w)` out of
 * `u` costs `w + 10 * traffic_counts[sorted((str(u), str(v)))]`.
 */
module Router {
  import opened Wrappers
  import opened NodeIds
  import opened RoadGraph

  // ---------------------------------------------------------------- traffic keys

  /** Python's `a <= b` on strings: lexicographic comparison of code points. */
  predicate StrLe(a: string, b: string)
    decreases |a|
  {
    |a| == 0 || (|b| > 0 && (a[0] < b[0] || (a[0] == b[0] && StrLe(a[1..], b[1..]))))
  }

  lemma {:induction false} StrLeTotal(a: string, b: string)
    ensures StrLe(a, b) || StrLe(b, a)
    decreases |a|
  {
    if |a| > 0 && |b| > 0 && a[0] == b[0] {
      StrLeTotal(a[1..], b[1..]);
    }
  }

  lemma {:induction false} StrLeAntisymmetric(a: string, b: string)
    requires StrLe(a, b) && StrLe(b, a)
    ensures a == b
    decreases |a|
  {
    if |a| > 0 {
      StrLeAntisymmetric(a[1..], b[1..]);
      assert a == [a[0]] + a[1..] && b == [b[0]] + b[1..];
    }
  }

  /** A key of `traffic_counts`: a pair of printed node ids. */
  type TrafficKey = (string, string)

  /** Car counts per road segment; `traffic_counts=None` is the empty map. */
  type Traffic = map<TrafficKey, nat>

  /** `tuple(sorted((str(u), str(v))))`: the two printed ids in ascending order. */
  function KeyOf(u: NodeId, v: NodeId): (k: TrafficKey)
    ensures StrLe(k.0, k.1)
    ensures multiset{k.0, k.1} == multiset{Name(u), Name(v)}
  {
    var a, b := Name(u), Name(v);
    StrLeTotal(a, b);
    if StrLe(a, b) then (a, b) else (b, a)
  }

  /** A segment has one key, whichever end the car comes from. */
  lemma KeyOfSymmetric(u: NodeId, v: NodeId)
    ensures KeyOf(u, v) == KeyOf(v, u)
  {
    var a, b := Name(u), Name(v);
    if StrLe(a, b) && StrLe(b, a) {
      StrLeAntisymmetric(a, b);
    }
  }

  /** `traffic_counts.get(key, 0)`. */
  function TrafficOn(traffic: Traffic, u: NodeId, v: NodeId): nat
  {
    var k := KeyOf(u, v);
    if k in traffic then traffic[k] else 0
  }

  /** The cost of following link `l` out of `u`: `w + t * 10.0`. */
  function StepCost(traffic: Traffic, u: NodeId, l: Link): (c: real)
    ensures c >= l.w
    ensures traffic == map[] ==> c == l.w
    ensures KeyOf(u, l.to) in traffic ==> c == l.w + 10.0 * traffic[KeyOf(u, l.to)] as real
  {
    l.w + (TrafficOn(traffic, u, l.to) as real) * 10.0
  }

  /** A segment costs the same in both directions when both links carry the same weight. */
  lemma StepCostSymmetric(traffic: Traffic, u: NodeId, v: NodeId, w: real)
    ensures StepCost(traffic, u, Link(v, w)) == StepCost(traffic, v, Link(u, w))
  {
    KeyOfSymmetric(u, v);
  }

  // ---------------------------------------------------------------- walks

  /** Every consecutive pair of `p` is an entry of the adjacency lists. */
  predicate IsWalk(edges: Adjacency, p: seq<NodeId>)
  {
    forall k :: 0 <= k < |p| - 1 ==> Adjacent(edges, p[k], p[k + 1])
  }

  /** `p` is a walk from `s` to `t`. */
  predicate WalkBetween(edges: Adjacency, p: seq<NodeId>, s: NodeId, t: NodeId)
  {
    |p| >= 1 && p[0] == s && p[|p| - 1] == t && IsWalk(edges, p)
  }

  /** Extending a walk by one listed neighbour of its last node. */
  lemma WalkExtend(edges: Adjacency, p: seq<NodeId>, s: NodeId, t: NodeId, k: nat)
    requires WalkBetween(edges, p, s, t) && k < |Links(edges, t)|
    ensures WalkBetween(edges, p + [Links(edges, t)[k].to], s, Links(edges, t)[k].to)
  {
    var q := p + [Links(edges, t)[k].to];
    forall i | 0 <= i < |q| - 1 ensures Adjacent(edges, q[i], q[i + 1]) {
      if i == |p| - 1 {
        assert Links(edges, q[i])[k].to == q[i + 1];
      } else {
        assert q[i] == p[i] && q[i + 1] == p[i + 1];
      }
    }
  }

  /** Every node some list points at. */
  ghost function Targets(edges: Adjacency): set<NodeId>
  {
    set u, l | u in edges && l in edges[u] :: l.to
  }

  /** `s` has every neighbour of its members. */
  ghost predicate Closed(edges: Adjacency, s: set<NodeId>)
  {
    forall n, l :: n in s && l in Links(edges, n) ==> l.to in s
  }

  /** A walk that starts inside a closed set never leaves it. */
  lemma {:induction false} ClosedWalk(edges: Adjacency, s: set<NodeId>, p: seq<NodeId>)
    requires Closed(edges, s) && IsWalk(edges, p) && |p| >= 1 && p[0] in s
    ensures forall k :: 0 <= k < |p| ==> p[k] in s
    decreases |p|
  {
    if |p| > 1 {
      var q := p[..|p| - 1];
      assert IsWalk(edges, q) by {
        forall k | 0 <= k < |q| - 1 ensures Adjacent(edges, q[k], q[k + 1]) {
          assert q[k] == p[k] && q[k + 1] == p[k + 1];
        }
      }
      ClosedWalk(edges, s, q);
      assert Adjacent(edges, p[|p| - 2], p[|p| - 1]);
      var links := Links(edges, p[|p| - 2]);
      var j :| 0 <= j < |links| && links[j].to == p[|p| - 1];
      assert q[|p| - 2] in s;
      assert links[j] in links;
    }
  }

  // ---------------------------------------------------------------- the queue

  /** A queue entry `(cost, node, path)`. */
  datatype Entry = Entry(cost: real, node: NodeId, path: seq<NodeId>)

  /**
   * The entry `heapq.heappop` takes: one of least cost. Among entries of equal cost
   * the model takes the first (Python compares the node ids next).
   */
  function FirstMin(pq: seq<Entry>): (i: nat)
    requires |pq| > 0
    ensures i < |pq|
    ensures forall j :: 0 <= j < |pq| ==> pq[i].cost <= pq[j].cost
    ensures forall j :: 0 <= j < i ==> pq[j].cost > pq[i].cost
  {
    if |pq| == 1 then 0
    else
      var k := FirstMin(pq[1..]) + 1;
      if pq[k].cost < pq[0].cost then k else 0
  }

  /** Some entry of the queue is for node `y`. */
  ghost predicate Pending(pq: seq<Entry>, y: NodeId)
  {
    exists e :: e in pq && e.node == y
  }

  /** Every neighbour of a settled node is settled or waiting in the queue. */
  ghost predicate Covered(edges: Adjacency, s: set<NodeId>, pq: seq<Entry>)
  {
    forall n, l :: n in s && l in Links(edges, n) ==> l.to in s || Pending(pq, l.to)
  }

  /** Taking out entry `i` keeps every other node pending. */
  lemma PopPending(pq: seq<Entry>, i: nat, y: NodeId)
    requires i < |pq| && Pending(pq, y) && y != pq[i].node
    ensures Pending(pq[..i] + pq[i + 1..], y)
  {
    var e :| e in pq && e.node == y;
    var k :| 0 <= k < |pq| && pq[k] == e;
    if k < i {
      assert (pq[..i] + pq[i + 1..])[k] == e;
    } else {
      assert (pq[..i] + pq[i + 1..])[k - 1] == e;
    }
  }

  /** Pushing an entry keeps every pending node pending and makes its own node pending. */
  lemma PushPending(pq: seq<Entry>, f: Entry)
    ensures forall y :: Pending(pq, y) ==> Pending(pq + [f], y)
    ensures Pending(pq + [f], f.node)
  {
    assert f in pq + [f];
    forall y | Pending(pq, y) ensures Pending(pq + [f], y) {
      var e :| e in pq && e.node == y;
      assert e in pq + [f];
    }
  }

  /**
   * Popping an entry for `x` and then settling `x` (if it was not settled yet) with
   * all its neighbours settled or pending keeps every settled node's neighbours
   * settled or pending.
   */
  lemma CoveredAfterPop(edges: Adjacency, s: set<NodeId>, pq0: seq<Entry>, x: NodeId, pq1: seq<Entry>, pq2: seq<Entry>)
    requires Covered(edges, s, pq0)
    requires forall y :: Pending(pq0, y) && y != x ==> Pending(pq1, y)
    requires forall y :: Pending(pq1, y) ==> Pending(pq2, y)
    requires x !in s ==> forall l :: l in Links(edges, x) ==> l.to in s + {x} || Pending(pq2, l.to)
    ensures Covered(edges, s + {x}, pq2)
  {
    forall n, l | n in s + {x} && l in Links(edges, n) ensures l.to in s + {x} || Pending(pq2, l.to) {
      if n in s && l.to !in s + {x} {
        assert Pending(pq0, l.to);
      }
    }
  }

  /** `heapq.heappop(pq)`: takes out an entry of least cost. */
  method PopMin(pq: seq<Entry>) returns (e: Entry, rest: seq<Entry>)
    requires |pq| > 0
    ensures e in pq && |rest| == |pq| - 1
    ensures forall f :: f in pq ==> e.cost <= f.cost
    ensures forall f :: f in rest ==> f in pq
    ensures forall y :: Pending(pq, y) && y != e.node ==> Pending(rest, y)
  {
    var i := FirstMin(pq);
    e := pq[i];
    rest := pq[..i] + pq[i + 1..];
    forall y | Pending(pq, y) && y != e.node ensures Pending(rest, y) {
      PopPending(pq, i, y);
    }
  }

  lemma AddMember(s: set<NodeId>, x: NodeId)
    requires x in s
    ensures s + {x} == s
  {
  }

  /** `seen[x] = c`: one more key, every other entry as it was. */
  lemma UpdateKeys(m: map<NodeId, real>, x: NodeId, c: real)
    ensures m[x := c].Keys == m.Keys + {x}
    ensures forall n :: n in m && n != x ==> m[x := c][n] == m[n]
  {
  }

  /** Settling a node of the universe shrinks the set of unsettled ones. */
  lemma SettleShrinks(u: set<NodeId>, s: set<NodeId>, x: NodeId)
    requires x in u && x !in s
    ensures |u - (s + {x})| < |u - s|
  {
    assert u - s == (u - (s + {x})) + {x};
  }

  /**
   * The inner loop of `find_path`: for each link `(nbr, w)` of the node just settled,
   * push `(cost + w + 10 * t, nbr, path + [nbr])` unless `nbr` is settled at a cost no
   * higher. Afterwards every neighbour is settled or pending, and every entry is
   * still a walk from `start` costing at least `floor`.
   */
  method Relax(edges: Adjacency, traffic: Traffic, e: Entry, seen: map<NodeId, real>, pq: seq<Entry>,
               ghost start: NodeId, ghost universe: set<NodeId>, ghost floor: real)
    returns (pq': seq<Entry>)
    requires NonNegWeights(edges) && Targets(edges) <= universe
    requires e.cost >= floor && WalkBetween(edges, e.path, start, e.node)
    requires forall f :: f in pq ==> f.node in universe && f.cost >= floor
    requires forall f :: f in pq ==> WalkBetween(edges, f.path, start, f.node)
    ensures forall f :: f in pq' ==> f.node in universe && f.cost >= floor
    ensures forall f :: f in pq' ==> WalkBetween(edges, f.path, start, f.node)
    ensures forall y :: Pending(pq, y) ==> Pending(pq', y)
    ensures forall l :: l in Links(edges, e.node) ==> l.to in seen || Pending(pq', l.to)
  {
    var links := Links(edges, e.node);
    pq' := pq;
    for j := 0 to |links|
      invariant forall f :: f in pq' ==> f.node in universe && f.cost >= floor
      invariant forall f :: f in pq' ==> WalkBetween(edges, f.path, start, f.node)
      invariant forall y :: Pending(pq, y) ==> Pending(pq', y)
      invariant forall k :: 0 <= k < j ==> links[k].to in seen || Pending(pq', links[k].to)
    {
      pq' := Offer(edges, traffic, e, seen, pq, pq', j, start, universe, floor);
    }
    forall l | l in links ensures l.to in seen || Pending(pq', l.to) {
      var k :| 0 <= k < |links| && links[k] == l;
    }
  }

  /**
   * One link `(nbr, w)` of the inner loop of `find_path`: push the walk to `nbr` at
   * `cost + w + 10 * t` unless `nbr` is settled at a cost no higher.
   */
  method Offer(edges: Adjacency, traffic: Traffic, e: Entry, seen: map<NodeId, real>, pq0: seq<Entry>, pq: seq<Entry>,
               j: nat, ghost start: NodeId, ghost universe: set<NodeId>, ghost floor: real)
    returns (pq': seq<Entry>)
    requires NonNegWeights(edges) && Targets(edges) <= universe && j < |Links(edges, e.node)|
    requires e.cost >= floor && WalkBetween(edges, e.path, start, e.node)
    requires forall f :: f in pq ==> f.node in universe && f.cost >= floor
    requires forall f :: f in pq ==> WalkBetween(edges, f.path, start, f.node)
    requires forall y :: Pending(pq0, y) ==> Pending(pq, y)
    requires forall k :: 0 <= k < j ==> Links(edges, e.node)[k].to in seen || Pending(pq, Links(edges, e.node)[k].to)
    ensures forall f :: f in pq' ==> f.node in universe && f.cost >= floor
    ensures forall f :: f in pq' ==> WalkBetween(edges, f.path, start, f.node)
    ensures forall y :: Pending(pq0, y) ==> Pending(pq', y)
    ensures forall k :: 0 <= k < j + 1 ==> Links(edges, e.node)[k].to in seen || Pending(pq', Links(edges, e.node)[k].to)
  {
    var links := Links(edges, e.node);
    var nbr := links[j].to;
    var nc := e.cost + StepCost(traffic, e.node, links[j]);
    if e.node in edges {
      assert links[j] in edges[e.node];
    }
    pq' := pq;
    if nbr !in seen || nc < seen[nbr] {
      var f := Entry(nc, nbr, e.path + [nbr]);
      WalkExtend(edges, e.path, start, e.node, j);
      PushStep(edges, pq0, pq, f, links, j, seen, start, universe, floor);
      pq' := pq + [f];
    }
  }

  /** Pushing a walk from `start` to the `j`-th neighbour keeps the invariant of `Relax`'s loop. */
  lemma PushStep(edges: Adjacency, pq0: seq<Entry>, pq: seq<Entry>, f: Entry, links: seq<Link>, j: nat, seen: map<NodeId, real>,
                 start: NodeId, universe: set<NodeId>, floor: real)
    requires j < |links| && f.node == links[j].to && f.node in universe && f.cost >= floor
    requires WalkBetween(edges, f.path, start, f.node)
    requires forall g :: g in pq ==> g.node in universe && g.cost >= floor
    requires forall g :: g in pq ==> WalkBetween(edges, g.path, start, g.node)
    requires forall y :: Pending(pq0, y) ==> Pending(pq, y)
    requires forall k :: 0 <= k < j ==> links[k].to in seen || Pending(pq, links[k].to)
    ensures forall g :: g in pq + [f] ==> g.node in universe && g.cost >= floor
    ensures forall g :: g in pq + [f] ==> WalkBetween(edges, g.path, start, g.node)
    ensures forall y :: Pending(pq0, y) ==> Pending(pq + [f], y)
    ensures forall k :: 0 <= k < j + 1 ==> links[k].to in seen || Pending(pq + [f], links[k].to)
  {
    PushPending(pq, f);
  }

  /**
   * When the queue runs dry, the settled nodes are closed under the adjacency lists;
   * they hold `start` and not `goal`, so no walk leads from one to the other.
   */
  lemma Unreachable(edges: Adjacency, s: set<NodeId>, start: NodeId, goal: NodeId)
    requires Covered(edges, s, []) && start in s && goal !in s
    ensures forall p :: !WalkBetween(edges, p, start, goal)
  {
    assert Closed(edges, s) by {
      forall n, l | n in s && l in Links(edges, n) ensures l.to in s {
        assert !Pending([], l.to);
      }
    }
    forall p | WalkBetween(edges, p, start, goal) ensures false {
      ClosedWalk(edges, s, p);
    }
  }

  /**
   * The state of the search between two pops: every queued entry is a walk from
   * `start` to its node, costs at least `floor` and names a node of `universe`; every
   * settled node was settled at a cost no higher than `floor`; `goal` is not settled;
   * `start` is settled or queued; and every neighbour of a settled node is settled or
   * queued.
   */
  ghost predicate Searching(edges: Adjacency, start: NodeId, goal: NodeId, universe: set<NodeId>,
                            floor: real, pq: seq<Entry>, seen: map<NodeId, real>)
  {
    && (forall e :: e in pq ==> e.node in universe && e.cost >= floor)
    && (forall e :: e in pq ==> WalkBetween(edges, e.path, start, e.node))
    && (start == goal ==> pq == [Entry(0.0, start, [start])])
    && seen.Keys <= universe && goal !in seen
    && (forall n :: n in seen ==> seen[n] <= floor)
    && (start in seen || Pending(pq, start))
    && Covered(edges, seen.Keys, pq)
  }

  /** What the popped entry and the rest of the queue inherit from the search state. */
  lemma PopFacts(edges: Adjacency, start: NodeId, goal: NodeId, universe: set<NodeId>, floor: real,
                 pq: seq<Entry>, seen: map<NodeId, real>, e: Entry, rest: seq<Entry>)
    requires Searching(edges, start, goal, universe, floor, pq, seen)
    requires e in pq && (forall f :: f in pq ==> e.cost <= f.cost) && (forall f :: f in rest ==> f in pq)
    ensures e.cost >= floor && e.node in universe && WalkBetween(edges, e.path, start, e.node)
    ensures forall f :: f in rest ==> f.node in universe && f.cost >= e.cost
    ensures forall f :: f in rest ==> WalkBetween(edges, f.path, start, f.node)
    ensures start == goal ==> e.node == goal
    ensures e.node in seen ==> seen[e.node] <= e.cost
  {
  }

  /** Popping an entry for a settled node (not the goal) and dropping it keeps the search state. */
  lemma SkipKeeps(edges: Adjacency, start: NodeId, goal: NodeId, universe: set<NodeId>, floor: real,
                  pq: seq<Entry>, seen: map<NodeId, real>, e: Entry, rest: seq<Entry>)
    requires Searching(edges, start, goal, universe, floor, pq, seen)
    requires e in pq && (forall f :: f in pq ==> e.cost <= f.cost) && (forall f :: f in rest ==> f in pq)
    requires forall y :: Pending(pq, y) && y != e.node ==> Pending(rest, y)
    requires e.node != goal && e.node in seen
    ensures Searching(edges, start, goal, universe, e.cost, rest, seen)
  {
    PopFacts(edges, start, goal, universe, floor, pq, seen, e, rest);
    CoveredAfterPop(edges, seen.Keys, pq, e.node, rest, rest);
    AddMember(seen.Keys, e.node);
  }

  /**
   * Popping an entry for an unsettled node (not the goal), settling it at the
   * entry's cost and relaxing its links keeps the search state, with one more node
   * settled.
   */
  lemma SettleKeeps(edges: Adjacency, start: NodeId, goal: NodeId, universe: set<NodeId>, floor: real,
                    pq: seq<Entry>, seen: map<NodeId, real>, e: Entry, rest: seq<Entry>, pq': seq<Entry>)
    requires Searching(edges, start, goal, universe, floor, pq, seen)
    requires e in pq && (forall f :: f in pq ==> e.cost <= f.cost) && (forall f :: f in rest ==> f in pq)
    requires forall y :: Pending(pq, y) && y != e.node ==> Pending(rest, y)
    requires e.node != goal && e.node !in seen
    requires forall f :: f in pq' ==> f.node in universe && f.cost >= e.cost
    requires forall f :: f in pq' ==> WalkBetween(edges, f.path, start, f.node)
    requires forall y :: Pending(rest, y) ==> Pending(pq', y)
    requires forall l :: l in Links(edges, e.node) ==> l.to in seen[e.node := e.cost] || Pending(pq', l.to)
    ensures Searching(edges, start, goal, universe, e.cost, pq', seen[e.node := e.cost])
    ensures |universe - seen[e.node := e.cost].Keys| < |universe - seen.Keys|
  {
    PopFacts(edges, start, goal, universe, floor, pq, seen, e, rest);
    UpdateKeys(seen, e.node, e.cost);
    CoveredAfterPop(edges, seen.Keys, pq, e.node, rest, pq');
    SettleShrinks(universe, seen.Keys, e.node);
  }

  /**
   * `find_path(edges, start_id, goal_id, traffic_counts)`.
   *
   * None when either end has no adjacency list; `[start]` when both ends are the same
   * node; otherwise a walk from `start` to `goal` along the lists, and None exactly
   * when there is no such walk. With non-negative weights every node is expanded at
   * most once, which is what makes the loop end.
   */
  method FindPath(edges: Adjacency, start: NodeId, goal: NodeId, traffic: Traffic) returns (r: Option<seq<NodeId>>)
    requires NonNegWeights(edges)
    ensures start !in edges || goal !in edges ==> r == None
    ensures start in edges && start == goal ==> r == Some([start])
    ensures r.Some? ==> WalkBetween(edges, r.value, start, goal)
    ensures r.None? && start in edges && goal in edges ==> forall p :: !WalkBetween(edges, p, start, goal)
  {
    if start !in edges || goal !in edges {
      return None;
    }
    ghost var universe := edges.Keys + Targets(edges);
    var pq := [Entry(0.0, start, [start])];
    var seen: map<NodeId, real> := map[];
    ghost var floor := 0.0;
    assert pq[0] in pq;
    while |pq| > 0
      invariant Searching(edges, start, goal, universe, floor, pq, seen)
      decreases |universe - seen.Keys|, |pq|
    {
      var e, rest := PopMin(pq);
      PopFacts(edges, start, goal, universe, floor, pq, seen, e, rest);
      if e.node == goal {
        return Some(e.path);
      }
      if e.node in seen && seen[e.node] <= e.cost {
        SkipKeeps(edges, start, goal, universe, floor, pq, seen, e, rest);
        pq, floor := rest, e.cost;
        continue;
      }
      assert e.node !in seen;
      var pq' := Relax(edges, traffic, e, seen[e.node := e.cost], rest, start, universe, e.cost);
      SettleKeeps(edges, start, goal, universe, floor, pq, seen, e, rest, pq');
      pq, seen, floor := pq', seen[e.node := e.cost], e.cost;
    }
    assert pq == [] && !Pending(pq, start);
    Unreachable(edges, seen.Keys, start, goal);
    return None;
  }
}
