/**
 * The simulation engine of simulator.py without its drawing: cars that follow a
 * path of graph nodes one edge at a time, slowed by the car ahead, red lights,
 * intersections reserved by other cars and road symbols; and the simulator that
 * owns the cars, the lights and the reservation map `occupied` (light -> car).
 *
 * Lengths come from the oracle `hypot` (see Geometry). The speed jitter of a new
 * car is a parameter instead of a random draw.
 */
module Simulation {
  import opened Wrappers
  import opened Geometry
  import opened NodeIds
  import opened RoadGraph
  import opened Router
  import opened TrafficLights

  // ---------------------------------------------------------------- constants

  const BaseSpeed: real := 80.0         // `80 + random.uniform(-15, 15)`
  const MaxJitter: real := 15.0
  const FollowRadius: real := 25.0      // cars closer than this and ahead are candidates for leader
  const NoGap: real := 1000000000.0     // `min_gap = 1e9`
  const StopGap: real := 18.0           // stop behind a leader closer than this
  const SlowGap: real := 40.0           // half speed behind a leader closer than this
  const LightRange: real := 80.0        // lights closer than this and ahead are considered
  const StopOffset: real := 25.0        // the stop point lies this far before the light
  const StopRadius: real := 35.0        // stop at red within this distance of the stop point
  const HeldRadius: real := 60.0        // stop for another car's reservation within this distance
  const ReserveRadius: real := 40.0     // reserve a green light within this distance
  const ReleaseRadius: real := 60.0     // release the reservation once farther than this
  const SymbolRadius: real := 50.0      // symbols act within this distance
  const SlowSpeed: real := 40.0         // speed cap near a `slow` symbol
  const LaneShift: real := 5.0          // lane offset on a `big` road

  /** A road symbol of the map document: `slow`, `no_entry`, or any other type. */
  datatype SymbolKind = Slow | NoEntry | OtherSymbol
  datatype Symbol = Symbol(x: real, y: real, kind: SymbolKind)

  /** `edge_vec.length() if edge_vec.length() != 0 else 1`. */
  function EdgeLength(hypot: (real, real) -> real, v: Point): (l: real)
    ensures l != 0.0
    ensures NonNegative(hypot) ==> l > 0.0
  {
    var n := Length(hypot, v);
    if n != 0.0 then n else 1.0
  }

  /** `edge_vec.normalize()`; a zero vector, which pygame refuses, gives the zero direction. */
  function Normalize(hypot: (real, real) -> real, v: Point): Point
  {
    var n := Length(hypot, v);
    if n != 0.0 then Scale(v, 1.0 / n) else Point(0.0, 0.0)
  }

  /** The lane offset of a car on a `big` road: five units to one side of the centre line. */
  function LaneOffset(kind: RoadKind, dir: Point): Point
  {
    if kind == Big then
      var perp := Point(-dir.y, dir.x);
      if Abs(dir.x) >= Abs(dir.y) then Scale(perp, if dir.x > 0.0 then LaneShift else -LaneShift)
      else Scale(perp, if dir.y > 0.0 then LaneShift else -LaneShift)
    else Point(0.0, 0.0)
  }

  // ---------------------------------------------------------------- speed rules

  /** The speed allowed by the spacing rule, given the nearest car ahead (if any). */
  function SpacingLimit(speed: real, found: bool, gap: real): (m: real)
    requires speed >= 0.0
    ensures 0.0 <= m <= speed
    ensures found && gap < StopGap ==> m == 0.0
    ensures found && gap < SlowGap ==> m <= speed * 0.5
    ensures !found ==> m == speed
  {
    if found && gap < StopGap then 0.0
    else if found && gap < SlowGap then Min(speed, speed * 0.5)
    else speed
  }

  /** The light is closer than 80 and ahead of a car at `pos` heading `dir`. */
  predicate Approaching(lt: TrafficLight, pos: Point, dir: Point, hypot: (real, real) -> real)
  {
    var toLight := Sub(lt.Position(), pos);
    Length(hypot, toLight) < LightRange && Dot(toLight, dir) > 0.0
  }

  /** The light is red for `dir` and the car is within 35 of the stop point. */
  predicate RedStop(lt: TrafficLight, pos: Point, dir: Point, hypot: (real, real) -> real)
    reads lt
    requires lt.green + lt.red != 0.0
  {
    && Approaching(lt, pos, dir, hypot)
    && !lt.IsGreenFor(dir)
    && Length(hypot, Sub(Sub(lt.Position(), Scale(dir, StopOffset)), pos)) < StopRadius
  }

  /** Another car holds the light and this car is within 60 of it. */
  predicate HeldByOther(lt: TrafficLight, occ: map<TrafficLight, Car>, me: Car, pos: Point, dir: Point,
                        hypot: (real, real) -> real)
  {
    && Approaching(lt, pos, dir, hypot)
    && lt in occ && occ[lt] != me
    && Length(hypot, Sub(lt.Position(), pos)) < HeldRadius
  }

  /** The light is green for `dir` and the car is within 40 of it: the car takes it. */
  predicate Acquires(lt: TrafficLight, pos: Point, dir: Point, hypot: (real, real) -> real)
    reads lt
    requires lt.green + lt.red != 0.0
  {
    && Approaching(lt, pos, dir, hypot)
    && lt.IsGreenFor(dir)
    && Length(hypot, Sub(lt.Position(), pos)) < ReserveRadius
  }

  /** Every light has a cycle the source can take a remainder by. */
  predicate Cycles(lights: seq<TrafficLight>)
  {
    forall lt :: lt in lights ==> lt.green + lt.red != 0.0
  }

  /** Some light makes the car stop: red ahead, or held by another car. */
  predicate MustStop(lights: seq<TrafficLight>, occ: map<TrafficLight, Car>, me: Car, pos: Point, dir: Point,
                     hypot: (real, real) -> real)
    reads set lt | lt in lights
    requires Cycles(lights)
  {
    exists k :: 0 <= k < |lights| && (RedStop(lights[k], pos, dir, hypot) || HeldByOther(lights[k], occ, me, pos, dir, hypot))
  }

  /**
   * The reservation map after the car takes every light it acquires, in order:
   * `occupied[lt] = self`, whoever held the light before.
   */
  function Reserve(occ: map<TrafficLight, Car>, lights: seq<TrafficLight>, me: Car, pos: Point, dir: Point,
                   hypot: (real, real) -> real): map<TrafficLight, Car>
    reads set lt | lt in lights
    requires Cycles(lights)
  {
    if lights == [] then occ
    else
      var lt := lights[|lights| - 1];
      var r0 := Reserve(occ, lights[..|lights| - 1], me, pos, dir, hypot);
      if Acquires(lt, pos, dir, hypot) then r0[lt := me] else r0
  }

  /**
   * After `Reserve` the car holds every light it acquires, no reservation is
   * dropped, and every entry that changed is one the car acquired.
   */
  lemma {:induction false} ReserveSpec(occ: map<TrafficLight, Car>, lights: seq<TrafficLight>, me: Car, pos: Point, dir: Point,
                                       hypot: (real, real) -> real)
    requires Cycles(lights)
    ensures var r := Reserve(occ, lights, me, pos, dir, hypot);
      && (forall k :: 0 <= k < |lights| && Acquires(lights[k], pos, dir, hypot) ==> lights[k] in r && r[lights[k]] == me)
      && occ.Keys <= r.Keys
      && (forall lt :: lt in r && !(lt in occ && r[lt] == occ[lt]) ==> r[lt] == me && lt in lights && Acquires(lt, pos, dir, hypot))
    decreases |lights|
  {
    if lights != [] {
      var pre, lt := lights[..|lights| - 1], lights[|lights| - 1];
      ReserveSpec(occ, pre, me, pos, dir, hypot);
      forall k | 0 <= k < |lights| - 1
        ensures lights[k] == pre[k]
      {
      }
    }
  }

  /**
   * Taking over a light another car holds: the light lies within 40, so the car is
   * also within 60 of a light held by another car and stops for this tick, and yet
   * the light is reserved for it afterwards.
   */
  lemma TakeoverStops(me: Car, pos: Point, dir: Point, cars: seq<Car>, lights: seq<TrafficLight>,
                      occ: map<TrafficLight, Car>, symbols: seq<Symbol>, hypot: (real, real) -> real, k: nat)
    requires me.speed >= 0.0 && Cycles(lights) && k < |lights|
    requires lights[k] in occ && occ[lights[k]] != me && Acquires(lights[k], pos, dir, hypot)
    ensures MustStop(lights, occ, me, pos, dir, hypot)
    ensures AllowedSpeed(me, pos, dir, cars, lights, occ, symbols, hypot) == 0.0
    ensures var r := Reserve(occ, lights, me, pos, dir, hypot); lights[k] in r && r[lights[k]] == me
  {
    assert HeldByOther(lights[k], occ, me, pos, dir, hypot);
    ReserveSpec(occ, lights, me, pos, dir, hypot);
  }

  /** The last light the car acquires, which becomes its `intersection_target`. */
  function LastAcquired(lights: seq<TrafficLight>, pos: Point, dir: Point, hypot: (real, real) -> real): Option<TrafficLight>
    reads set lt | lt in lights
    requires Cycles(lights)
  {
    if lights == [] then None
    else
      var lt := lights[|lights| - 1];
      if Acquires(lt, pos, dir, hypot) then Some(lt) else LastAcquired(lights[..|lights| - 1], pos, dir, hypot)
  }

  /** The target is set exactly when some light is acquired, and it is the last one acquired. */
  lemma {:induction false} LastAcquiredSpec(lights: seq<TrafficLight>, pos: Point, dir: Point, hypot: (real, real) -> real)
    requires Cycles(lights)
    ensures var r := LastAcquired(lights, pos, dir, hypot);
      && (r.Some? <==> exists k :: 0 <= k < |lights| && Acquires(lights[k], pos, dir, hypot))
      && (r.Some? ==> exists k :: (0 <= k < |lights| && lights[k] == r.value && Acquires(lights[k], pos, dir, hypot) &&
                                   forall j :: k < j < |lights| ==> !Acquires(lights[j], pos, dir, hypot)))
    decreases |lights|
  {
    if lights != [] {
      var pre, lt := lights[..|lights| - 1], lights[|lights| - 1];
      LastAcquiredSpec(pre, pos, dir, hypot);
      forall k | 0 <= k < |lights| - 1
        ensures lights[k] == pre[k]
      {
      }
      if !Acquires(lt, pos, dir, hypot) && LastAcquired(pre, pos, dir, hypot).Some? {
        var k :| 0 <= k < |pre| && pre[k] == LastAcquired(pre, pos, dir, hypot).value && Acquires(pre[k], pos, dir, hypot) &&
                 forall j :: k < j < |pre| ==> !Acquires(pre[j], pos, dir, hypot);
        assert lights[k] == pre[k];
      }
    }
  }

  /** A light outside the list keeps its reservation through `Reserve`. */
  lemma {:induction false} ReserveOutside(occ: map<TrafficLight, Car>, lights: seq<TrafficLight>, me: Car, pos: Point, dir: Point,
                                          hypot: (real, real) -> real, lt: TrafficLight)
    requires Cycles(lights) && lt !in lights
    ensures var r := Reserve(occ, lights, me, pos, dir, hypot);
      (lt in r <==> lt in occ) && (lt in r ==> r[lt] == occ[lt])
    decreases |lights|
  {
    if lights != [] {
      assert lt !in lights[..|lights| - 1];
      ReserveOutside(occ, lights[..|lights| - 1], me, pos, dir, hypot, lt);
    }
  }

  /**
   * Releasing: `occupied.pop(lt)` only when the releasing car holds `lt`; the
   * reservations of other cars are never deleted.
   */
  function ReleaseMap(occ: map<TrafficLight, Car>, lt: TrafficLight, me: Car): (r: map<TrafficLight, Car>)
    ensures r.Keys <= occ.Keys
    ensures forall l :: l in occ && occ[l] != me ==> l in r && r[l] == occ[l]
    ensures forall l :: l in occ && l != lt ==> l in r && r[l] == occ[l]
    ensures !(lt in r && r[lt] == me)
  {
    if lt in occ && occ[lt] == me then occ - {lt} else occ
  }

  /**
   * The reservation map and the target light after the loop over the lights and
   * the release: the car takes every light it acquires and targets the last one;
   * then, farther than 60 from its target, it gives the target up and deletes the
   * target's reservation if it is its own.
   */
  function Reservations(occ: map<TrafficLight, Car>, target: Option<TrafficLight>, lights: seq<TrafficLight>,
                        me: Car, pos: Point, dir: Point, hypot: (real, real) -> real): (map<TrafficLight, Car>, Option<TrafficLight>)
    reads set lt | lt in lights
    requires Cycles(lights)
  {
    var occ1 := Reserve(occ, lights, me, pos, dir, hypot);
    var last := LastAcquired(lights, pos, dir, hypot);
    var tgt1 := if last.Some? then last else target;
    if tgt1.Some? && Length(hypot, Sub(pos, tgt1.value.Position())) > ReleaseRadius
    then (ReleaseMap(occ1, tgt1.value, me), None)
    else (occ1, tgt1)
  }

  /** A `slow` symbol within 50 of the car. */
  predicate SlowNear(s: Symbol, pos: Point, hypot: (real, real) -> real)
  {
    s.kind == Slow && Length(hypot, Sub(Point(s.x, s.y), pos)) < SymbolRadius
  }

  /** A `no_entry` symbol ahead of the car and within 50. */
  predicate NoEntryAhead(s: Symbol, pos: Point, dir: Point, hypot: (real, real) -> real)
  {
    var v := Sub(Point(s.x, s.y), pos);
    s.kind == NoEntry && Dot(v, dir) > 0.0 && Length(hypot, v) < SymbolRadius
  }

  predicate Blocked(symbols: seq<Symbol>, pos: Point, dir: Point, hypot: (real, real) -> real)
  {
    exists k :: 0 <= k < |symbols| && NoEntryAhead(symbols[k], pos, dir, hypot)
  }

  predicate NearSlow(symbols: seq<Symbol>, pos: Point, hypot: (real, real) -> real)
  {
    exists k :: 0 <= k < |symbols| && SlowNear(symbols[k], pos, hypot)
  }

  /** Another unfinished car ahead of a car at `pos` heading `dir`, closer than 25. */
  predicate Ahead(me: Car, pos: Point, other: Car, dir: Point, hypot: (real, real) -> real)
    reads other
  {
    var rel := Sub(other.pos, pos);
    other != me && !other.finished && Length(hypot, rel) < FollowRadius && Dot(rel, dir) > 0.0
  }

  function Gap(pos: Point, other: Car, hypot: (real, real) -> real): real
    reads other
  {
    Length(hypot, Sub(other.pos, pos))
  }

  /** Some car is ahead of a car at `pos` heading `dir`, at a gap below `d`. */
  predicate LeaderWithin(me: Car, pos: Point, cars: seq<Car>, dir: Point, d: real, hypot: (real, real) -> real)
    reads cars
  {
    exists k :: 0 <= k < |cars| && Ahead(me, pos, cars[k], dir, hypot) && Gap(pos, cars[k], hypot) < d
  }

  /**
   * The nearest car ahead, as the leader scan finds it, decides the spacing rule
   * just as the cars ahead do: the gap to it is below 18 exactly when some car ahead
   * is closer than 18, and there is one exactly when some car ahead is closer than 40.
   */
  lemma LeaderRule(me: Car, pos: Point, cars: seq<Car>, dir: Point, hypot: (real, real) -> real, found: bool, gap: real)
    requires found <==> exists k :: 0 <= k < |cars| && Ahead(me, pos, cars[k], dir, hypot)
    requires found ==> exists k :: 0 <= k < |cars| && Ahead(me, pos, cars[k], dir, hypot) && gap == Gap(pos, cars[k], hypot)
    requires forall k :: 0 <= k < |cars| && Ahead(me, pos, cars[k], dir, hypot) ==> gap <= Gap(pos, cars[k], hypot)
    ensures found && gap < StopGap <==> LeaderWithin(me, pos, cars, dir, StopGap, hypot)
    ensures found <==> LeaderWithin(me, pos, cars, dir, SlowGap, hypot)
  {
  }

  /** Some light ahead is red for `dir`, and the car is near its stop point. */
  predicate RedAhead(lights: seq<TrafficLight>, pos: Point, dir: Point, hypot: (real, real) -> real)
    reads set lt | lt in lights
    requires Cycles(lights)
  {
    exists k :: 0 <= k < |lights| && RedStop(lights[k], pos, dir, hypot)
  }

  /**
   * The speed of a tick that no `no_entry` symbol ends, decided in the state before
   * it: the spacing rule, then the lights, then the `slow` symbols.
   */
  function AllowedSpeed(me: Car, pos: Point, dir: Point, cars: seq<Car>, lights: seq<TrafficLight>,
                        occ: map<TrafficLight, Car>, symbols: seq<Symbol>, hypot: (real, real) -> real): (m: real)
    reads cars, set lt | lt in lights
    requires me.speed >= 0.0 && Cycles(lights)
    ensures 0.0 <= m <= me.speed
    // zero behind a car closer than 18, at most half speed behind one closer than 40
    ensures LeaderWithin(me, pos, cars, dir, StopGap, hypot) ==> m == 0.0
    ensures LeaderWithin(me, pos, cars, dir, SlowGap, hypot) ==> m <= me.speed * 0.5
    // zero at a red light or at a light another car holds
    ensures MustStop(lights, occ, me, pos, dir, hypot) ==> m == 0.0
    ensures NearSlow(symbols, pos, hypot) ==> m <= SlowSpeed
    // the car's own speed when no rule applies
    ensures (!LeaderWithin(me, pos, cars, dir, SlowGap, hypot) && !MustStop(lights, occ, me, pos, dir, hypot) &&
             !NearSlow(symbols, pos, hypot)) ==> m == me.speed
  {
    var spaced :=
      if LeaderWithin(me, pos, cars, dir, StopGap, hypot) then 0.0
      else if LeaderWithin(me, pos, cars, dir, SlowGap, hypot) then Min(me.speed, me.speed * 0.5)
      else me.speed;
    var lit := if MustStop(lights, occ, me, pos, dir, hypot) then 0.0 else spaced;
    if NearSlow(symbols, pos, hypot) then Min(lit, SlowSpeed) else lit
  }

  // ---------------------------------------------------------------- edge types

  /** The node belongs to road `rid`. */
  predicate OnRoad(n: NodeId, rid: int)
  {
    n.RoadPt? && n.rid == rid
  }

  /** The type of the first road that either end of the edge belongs to; `small` otherwise. */
  function EdgeKind(roads: seq<Road>, u: NodeId, v: NodeId): RoadKind
  {
    if roads == [] then Small
    else if OnRoad(u, roads[0].id) || OnRoad(v, roads[0].id) then roads[0].kind
    else EdgeKind(roads[1..], u, v)
  }

  /** The type of an edge does not depend on its direction. */
  lemma {:induction false} EdgeKindSymmetric(roads: seq<Road>, u: NodeId, v: NodeId)
    ensures EdgeKind(roads, u, v) == EdgeKind(roads, v, u)
    decreases |roads|
  {
    if roads != [] {
      EdgeKindSymmetric(roads[1..], u, v);
    }
  }

  /** An edge with no road node at either end (hub to hub, or between intersections) is `small`. */
  lemma {:induction false} EdgeKindOffRoad(roads: seq<Road>, u: NodeId, v: NodeId)
    requires !u.RoadPt? && !v.RoadPt?
    ensures EdgeKind(roads, u, v) == Small
    decreases |roads|
  {
    if roads != [] {
      EdgeKindOffRoad(roads[1..], u, v);
    }
  }

  // ---------------------------------------------------------------- cars

  /** No object occurs twice. */
  predicate Distinct<T(==)>(s: seq<T>)
  {
    forall i, j :: 0 <= i < j < |s| ==> s[i] != s[j]
  }

  /** The cars whose `finished` flag is clear, in their order. */
  function Kept(cars: seq<Car>): seq<Car>
    reads cars
  {
    if cars == [] then []
    else
      var last := cars[|cars| - 1];
      Kept(cars[..|cars| - 1]) + (if last.finished then [] else [last])
  }

  /** `Kept` holds exactly the unfinished cars, and keeps them distinct. */
  lemma {:induction false} KeptSpec(cars: seq<Car>)
    ensures forall c :: c in Kept(cars) <==> c in cars && !c.finished
    ensures Distinct(cars) ==> Distinct(Kept(cars))
    decreases |cars|
  {
    if cars != [] {
      var pre, last := cars[..|cars| - 1], cars[|cars| - 1];
      KeptSpec(pre);
      assert cars == pre + [last];
      if Distinct(cars) {
        assert Distinct(pre) by {
          forall i, j | 0 <= i < j < |pre| ensures pre[i] != pre[j] {
            assert pre[i] == cars[i] && pre[j] == cars[j];
          }
        }
        assert last !in pre by {
          forall i | 0 <= i < |pre| ensures pre[i] != last {
            assert pre[i] == cars[i];
          }
        }
      }
    }
  }

  /** The cars whose flag in `fin` is clear: `Kept` with the flags read beforehand. */
  function KeptBy(cars: seq<Car>, fin: seq<bool>): seq<Car>
    requires |fin| == |cars|
  {
    if cars == [] then []
    else
      var n := |cars| - 1;
      KeptBy(cars[..n], fin[..n]) + (if fin[n] then [] else [cars[n]])
  }

  /** With the flags read from the cars, `KeptBy` is `Kept`. */
  lemma {:induction false} KeptByFlags(cars: seq<Car>, fin: seq<bool>)
    requires |fin| == |cars| && forall k :: 0 <= k < |cars| ==> fin[k] == cars[k].finished
    ensures KeptBy(cars, fin) == Kept(cars)
    decreases |cars|
  {
    if cars != [] {
      KeptByFlags(cars[..|cars| - 1], fin[..|cars| - 1]);
    }
  }

  /**
   * One step of the simulator's loop over the cars on sequences alone: the list
   * is the cars kept so far followed by the cars still to update, and the car
   * just updated is either dropped from it or kept.
   */
  lemma RemovalStep(snapshot: seq<Car>, i: nat, fin: seq<bool>, done: seq<Car>, list: seq<Car>, f: bool)
    requires i < |snapshot| && |fin| == i
    requires done == KeptBy(snapshot[..i], fin) && list == done + snapshot[i..]
    ensures KeptBy(snapshot[..i + 1], fin + [f]) == done + (if f then [] else [snapshot[i]])
    ensures list[..|done|] + list[|done| + 1..] == done + snapshot[i + 1..]
    ensures list == (done + [snapshot[i]]) + snapshot[i + 1..]
  {
    assert snapshot[..i + 1][..i] == snapshot[..i];
    assert (fin + [f])[..i] == fin;
    assert snapshot[i..] == [snapshot[i]] + snapshot[i + 1..];
    DropAt(done, snapshot[i], snapshot[i + 1..]);
  }

  /** The list left after the loop over the cars is `Kept`, and keeps what `Valid` asks of the cars. */
  lemma KeptList(snapshot: seq<Car>, fin: seq<bool>, list: seq<Car>)
    requires |fin| == |snapshot| && forall k :: 0 <= k < |snapshot| ==> fin[k] == snapshot[k].finished
    requires list == KeptBy(snapshot, fin)
    ensures list == Kept(snapshot)
    ensures forall c :: c in list ==> c in snapshot
    ensures Distinct(snapshot) ==> Distinct(list)
  {
    KeptByFlags(snapshot, fin);
    KeptSpec(snapshot);
  }

  /** Taking out the element at position `|a|` of `a + ([x] + b)`. */
  lemma DropAt<T>(a: seq<T>, x: T, b: seq<T>)
    ensures var s := a + ([x] + b); s[..|a|] + s[|a| + 1..] == a + b
    ensures a + ([x] + b) == (a + [x]) + b
  {
    var s := a + ([x] + b);
    assert s[..|a|] == a;
    assert s[|a| + 1..] == b;
  }

  /** The `i`-th step of a walk over a distinct sequence: its prefix and suffix around `s[i]`. */
  lemma Split<T>(s: seq<T>, i: nat)
    requires i < |s| && Distinct(s)
    ensures s[..i + 1] == s[..i] + [s[i]]
    ensures s[i..] == [s[i]] + s[i + 1..]
    ensures s[i] !in s[..i]
  {
    assert s[..i + 1] == s[..i] + [s[i]];
    assert s[i..] == [s[i]] + s[i + 1..];
  }

  /** What one tick may change of a car. */
  datatype CarState = CarState(edgeIdx: nat, progress: real, pos: Point, finished: bool, target: Option<TrafficLight>)

  class Car {
    const path: seq<NodeId>
    const nodes: map<NodeId, Point>
    const id: int
    const speed: real
    var edgeIdx: nat
    var progress: real
    var pos: Point
    var finished: bool
    var target: Option<TrafficLight>

    /** The fields one tick may change. */
    function State(): CarState
      reads this
    {
      CarState(edgeIdx, progress, pos, finished, target)
    }

    /**
     * The part of one tick of `update(dt)` that depends on the car alone and on the
     * lights and symbols, from the state `s` before the tick: a finished car is left
     * as it was; a car at the end of its path only becomes finished; otherwise the
     * car moves at most one edge on, finishing only at the last node, stays put at a
     * `no_entry` symbol ahead, does not advance while a light it is close to is red
     * for it, and with non-negative lengths and time advances by at most its own
     * speed's worth.
     */
    ghost predicate Stepped(s: CarState, lights: seq<TrafficLight>, symbols: seq<Symbol>, dt: real, hypot: (real, real) -> real)
      reads this, set lt | lt in lights
      requires Known() && Cycles(lights)
    {
      && (s.finished ==> State() == s)
      && (!s.finished && s.edgeIdx + 1 >= |path| ==> State() == s.(finished := true))
      && s.edgeIdx <= edgeIdx <= s.edgeIdx + 1
      && (!finished ==> edgeIdx + 1 < |path|)
      && (!s.finished && s.edgeIdx + 1 < |path| ==>
            var dir := Normalize(hypot, Segment(s.edgeIdx));
            && (finished ==> pos == nodes[path[|path| - 1]])
            && (!finished && edgeIdx == s.edgeIdx + 1 ==> progress == 0.0 && pos == nodes[path[edgeIdx]])
            && (Blocked(symbols, s.pos, dir, hypot) ==>
                  edgeIdx == s.edgeIdx && progress == s.progress && pos == s.pos && !finished)
            && (s.progress < 1.0 && RedAhead(lights, s.pos, dir, hypot) ==>
                  edgeIdx == s.edgeIdx && progress == s.progress && !finished)
            && (NonNegative(hypot) && dt >= 0.0 && edgeIdx == s.edgeIdx ==>
                  s.progress <= progress <= s.progress + speed * dt / EdgeLength(hypot, Segment(s.edgeIdx))))
    }

    /** Every node of the path has a position. */
    predicate Known()
    {
      forall k :: 0 <= k < |path| ==> path[k] in nodes
    }

    /** `Car(path_nodes, nodes, sim, cid)` with speed `80 + jitter`. */
    constructor(path: seq<NodeId>, nodes: map<NodeId, Point>, cid: int, jitter: real)
      requires -MaxJitter <= jitter <= MaxJitter
      requires forall k :: 0 <= k < |path| ==> path[k] in nodes
      ensures this.path == path && this.nodes == nodes && id == cid && speed == BaseSpeed + jitter
      ensures Known() && speed >= 0.0
      ensures edgeIdx == 0 && progress == 0.0 && !finished && target == None
      ensures pos == if |path| > 0 then nodes[path[0]] else Point(0.0, 0.0)
    {
      this.path, this.nodes, id, speed := path, nodes, cid, BaseSpeed + jitter;
      edgeIdx, progress, finished, target := 0, 0.0, false, None;
      pos := if |path| > 0 then nodes[path[0]] else Point(0.0, 0.0);
    }

    /** `current_edge()`: the pair of nodes the car travels between, while there is one. */
    function CurrentEdge(): (e: Option<(NodeId, NodeId)>)
      reads this
      ensures e.Some? <==> edgeIdx + 1 < |path|
      ensures e.Some? ==> e.value.0 == path[edgeIdx] && e.value.1 == path[edgeIdx + 1]
    {
      if edgeIdx + 1 < |path| then Some((path[edgeIdx], path[edgeIdx + 1])) else None
    }

    /** The vector from node `i` of the path to node `i + 1`. */
    function Segment(i: nat): Point
      requires Known() && i + 1 < |path|
    {
      Sub(nodes[path[i + 1]], nodes[path[i]])
    }

    /** Spacing: the gap to the nearest car ahead, if any is closer than 25. */
    method FindLeader(cars: seq<Car>, dir: Point, hypot: (real, real) -> real) returns (found: bool, gap: real)
      ensures found <==> exists k :: 0 <= k < |cars| && Ahead(this, pos, cars[k], dir, hypot)
      ensures found ==> gap < FollowRadius
      ensures found ==> exists k :: 0 <= k < |cars| && Ahead(this, pos, cars[k], dir, hypot) && gap == Gap(pos, cars[k], hypot)
      ensures forall k :: 0 <= k < |cars| && Ahead(this, pos, cars[k], dir, hypot) ==> gap <= Gap(pos, cars[k], hypot)
    {
      found, gap := false, NoGap;
      for k := 0 to |cars|
        invariant found <==> exists j :: 0 <= j < k && Ahead(this, pos, cars[j], dir, hypot)
        invariant !found ==> gap == NoGap
        invariant found ==> gap < FollowRadius
        invariant found ==> exists j :: 0 <= j < k && Ahead(this, pos, cars[j], dir, hypot) && gap == Gap(pos, cars[j], hypot)
        invariant forall j :: 0 <= j < k && Ahead(this, pos, cars[j], dir, hypot) ==> gap <= Gap(pos, cars[j], hypot)
      {
        var other := cars[k];
        if other == this || other.finished {
          continue;
        }
        var rel := Sub(other.pos, pos);
        var dist := Length(hypot, rel);
        if dist < FollowRadius && Dot(rel, dir) > 0.0 {
          if dist < gap {
            gap, found := dist, true;
          }
        }
      }
    }

    /**
     * The loop over the lights: stop at a red light near its stop point or at a
     * light another car holds; take every green light within 40.
     */
    method ApproachLights(sim: Simulator, dir: Point, limit: real, hypot: (real, real) -> real) returns (limit': real)
      requires sim.LightsOk()
      modifies sim`occupied, this`target
      ensures limit' == old(if MustStop(sim.lights, sim.occupied, this, pos, dir, hypot) then 0.0 else limit)
      ensures sim.occupied == old(Reserve(sim.occupied, sim.lights, this, pos, dir, hypot))
      ensures target == old(if LastAcquired(sim.lights, pos, dir, hypot).Some? then LastAcquired(sim.lights, pos, dir, hypot) else target)
    {
      var lights, p := sim.lights, pos;
      var occ, tgt := sim.occupied, target;
      ghost var occ0, target0 := occ, tgt;
      assert Cycles(lights) && forall i, j :: 0 <= i < j < |lights| ==> lights[i] != lights[j];
      limit' := limit;
      for k := 0 to |lights|
        invariant occ == Reserve(occ0, lights[..k], this, p, dir, hypot)
        invariant limit' == if MustStop(lights[..k], occ0, this, p, dir, hypot) then 0.0 else limit
        invariant tgt == if LastAcquired(lights[..k], p, dir, hypot).Some? then LastAcquired(lights[..k], p, dir, hypot) else target0
      {
        var lt := lights[k];
        LightStep(lights, k, occ0, this, p, dir, hypot);
        var stop, take := ConsiderLight(lt, occ, p, dir, hypot);
        if stop {
          limit' := 0.0;
        }
        if take {
          occ := occ[lt := this];
          tgt := Some(lt);
        }
      }
      assert lights[..|lights|] == lights;
      sim.occupied, target := occ, tgt;
    }

    /**
     * The body of the loop over the lights for one light ahead and within 80: stop
     * at red near the stop point or near a light another car holds; take a green
     * light within 40.
     */
    method ConsiderLight(lt: TrafficLight, occ: map<TrafficLight, Car>, p: Point, dir: Point, hypot: (real, real) -> real)
      returns (stop: bool, take: bool)
      requires lt.green + lt.red != 0.0
      ensures stop <==> RedStop(lt, p, dir, hypot) || HeldByOther(lt, occ, this, p, dir, hypot)
      ensures take <==> Acquires(lt, p, dir, hypot)
    {
      stop, take := false, false;
      var toLight := Sub(lt.Position(), p);
      if Length(hypot, toLight) < LightRange && Dot(toLight, dir) > 0.0 {
        var stopPoint := Sub(lt.Position(), Scale(dir, StopOffset));
        if !lt.IsGreenFor(dir) {
          if Length(hypot, Sub(stopPoint, p)) < StopRadius {
            stop := true;
          }
        }
        if lt in occ && occ[lt] != this {
          if Length(hypot, Sub(lt.Position(), p)) < HeldRadius {
            stop := true;
          }
        }
        if lt.IsGreenFor(dir) && Length(hypot, Sub(lt.Position(), p)) < ReserveRadius {
          take := true;
        }
      }
    }

    /** Release the target light once farther than 60 from it. */
    method ReleaseTarget(sim: Simulator, hypot: (real, real) -> real)
      modifies sim`occupied, this`target
      ensures old(target).Some? && Length(hypot, Sub(pos, old(target).value.Position())) > ReleaseRadius ==>
        target == None && sim.occupied == ReleaseMap(old(sim.occupied), old(target).value, this)
      ensures !(old(target).Some? && Length(hypot, Sub(pos, old(target).value.Position())) > ReleaseRadius) ==>
        target == old(target) && sim.occupied == old(sim.occupied)
    {
      if target.Some? {
        var lt := target.value;
        if Length(hypot, Sub(pos, lt.Position())) > ReleaseRadius {
          if lt in sim.occupied && sim.occupied[lt] == this {
            sim.occupied := sim.occupied - {lt};
          }
          target := None;
        }
      }
    }

    /** The loop over the symbols: cap at 40 near a `slow` one; give up the tick at a `no_entry` one ahead. */
    method CheckSymbols(symbols: seq<Symbol>, dir: Point, limit: real, hypot: (real, real) -> real) returns (limit': real, blocked: bool)
      ensures blocked <==> Blocked(symbols, pos, dir, hypot)
      ensures !blocked ==> limit' == if NearSlow(symbols, pos, hypot) then Min(limit, SlowSpeed) else limit
    {
      limit' := limit;
      for k := 0 to |symbols|
        invariant !Blocked(symbols[..k], pos, dir, hypot)
        invariant limit' == if NearSlow(symbols[..k], pos, hypot) then Min(limit, SlowSpeed) else limit
      {
        var s := symbols[k];
        assert symbols[..k + 1] == symbols[..k] + [s];
        var v := Sub(Point(s.x, s.y), pos);
        var dist := Length(hypot, v);
        if s.kind == Slow && dist < SymbolRadius {
          limit' := Min(limit', SlowSpeed);
        } else if s.kind == NoEntry && Dot(v, dir) > 0.0 && dist < SymbolRadius {
          assert NoEntryAhead(symbols[k], pos, dir, hypot);
          return limit', true;
        }
        assert NearSlow(symbols[..k + 1], pos, hypot) <==> NearSlow(symbols[..k], pos, hypot) || SlowNear(s, pos, hypot);
        assert Blocked(symbols[..k + 1], pos, dir, hypot) <==> Blocked(symbols[..k], pos, dir, hypot) || NoEntryAhead(s, pos, dir, hypot);
      }
      assert symbols[..|symbols|] == symbols;
      blocked := false;
    }

    /**
     * The speed rules of `update`, in their order: spacing behind the nearest car
     * ahead, the lights (which also reserve intersections), the release of the
     * target light, and the symbols. `blocked` is the early return at a `no_entry`
     * symbol.
     */
    method Limit(sim: Simulator, dir: Point, hypot: (real, real) -> real) returns (maxSpeed: real, blocked: bool)
      requires sim.LightsOk() && speed >= 0.0
      modifies sim`occupied, this`target
      ensures blocked <==> Blocked(sim.symbols, pos, dir, hypot)
      ensures !blocked ==> maxSpeed == old(AllowedSpeed(this, pos, dir, sim.cars, sim.lights, sim.occupied, sim.symbols, hypot))
      ensures (sim.occupied, target) == old(Reservations(sim.occupied, target, sim.lights, this, pos, dir, hypot))
    {
      var found, gap := FindLeader(sim.cars, dir, hypot);
      LeaderRule(this, pos, sim.cars, dir, hypot, found, gap);
      maxSpeed := SpacingLimit(speed, found, gap);
      maxSpeed := ApproachLights(sim, dir, maxSpeed, hypot);
      ReleaseTarget(sim, hypot);
      maxSpeed, blocked := CheckSymbols(sim.symbols, dir, maxSpeed, hypot);
    }

    /**
     * The move of one tick at speed `m` from edge `e` at progress `p`, on a road of kind `kind`:
     * progress grows by `m * dt / edge_len`; once it reaches 1 the car enters the
     * next edge at its first node, or finishes at the last node of the path;
     * otherwise it stands on its lane along the edge.
     */
    predicate MovedAt(e: nat, p: real, m: real, dt: real, kind: RoadKind, hypot: (real, real) -> real)
      reads this
      requires Known() && e + 1 < |path|
    {
      var len := EdgeLength(hypot, Segment(e));
      var dir := Normalize(hypot, Segment(e));
      && (edgeIdx == e || edgeIdx == e + 1)
      && (edgeIdx == e + 1 <==> p + m * dt / len >= 1.0)
      && (edgeIdx == e ==>
            && !finished
            && progress == p + m * dt / len
            && pos == Add(Add(nodes[path[edgeIdx]], Scale(dir, progress * len)), LaneOffset(kind, dir)))
      && (finished ==> edgeIdx + 1 == |path| && pos == nodes[path[|path| - 1]])
      && (!finished ==> edgeIdx + 1 < |path|)
      && (edgeIdx == e + 1 && !finished ==> progress == 0.0 && pos == nodes[path[edgeIdx]])
    }

    /**
     * The move of `update`: progress grows by `maxSpeed * dt / edge_len`; once it
     * reaches 1 the car enters the next edge at its first node, or finishes at the
     * last node of the path; otherwise it stands on its lane along the edge.
     */
    method Move(maxSpeed: real, dt: real, roadType: RoadKind, hypot: (real, real) -> real)
      requires Known() && !finished && edgeIdx + 1 < |path|
      modifies this`progress, this`edgeIdx, this`pos, this`finished
      ensures MovedAt(old(edgeIdx), old(progress), maxSpeed, dt, roadType, hypot)
    {
      var a := nodes[path[edgeIdx]];
      var edgeVec := Segment(edgeIdx);
      var edgeLen := EdgeLength(hypot, edgeVec);
      var dir := Normalize(hypot, edgeVec);
      var delta := maxSpeed * dt / edgeLen;
      progress := progress + delta;
      if progress >= 1.0 {
        edgeIdx := edgeIdx + 1;
        if edgeIdx + 1 >= |path| {
          pos := nodes[path[|path| - 1]];
          finished := true;
          return;
        }
        progress := 0.0;
        pos := nodes[path[edgeIdx]];
      } else {
        pos := Add(Add(a, Scale(dir, progress * edgeLen)), LaneOffset(roadType, dir));
      }
    }

    /**
     * `update(dt)`: one tick. A finished car does nothing; a car at the end of its
     * path only becomes finished; otherwise it drives.
     */
    method Update(sim: Simulator, dt: real, hypot: (real, real) -> real)
      requires sim.LightsOk() && Known() && speed >= 0.0
      modifies this, sim`occupied
      ensures old(finished) ==> unchanged(this) && sim.occupied == old(sim.occupied)
      ensures !old(finished) && old(edgeIdx) + 1 >= |path| ==>
        finished && edgeIdx == old(edgeIdx) && progress == old(progress) && pos == old(pos) &&
        target == old(target) && sim.occupied == old(sim.occupied)
      ensures old(edgeIdx) <= edgeIdx <= old(edgeIdx) + 1
      ensures !finished ==> edgeIdx + 1 < |path| && CurrentEdge().Some?
      ensures EvenLength(hypot) ==> OwnChanges(old(sim.occupied), sim.occupied, this)
      ensures !old(finished) && old(edgeIdx) + 1 < |path| ==> Driven(sim, dt, hypot)
      ensures Stepped(old(State()), sim.lights, sim.symbols, dt, hypot)
    {
      if finished {
        return;
      }
      if edgeIdx + 1 >= |path| {
        finished := true;
        return;
      }
      ghost var s0 := State();
      ghost var dir := Normalize(hypot, Segment(edgeIdx));
      ghost var m := AllowedSpeed(this, pos, dir, sim.cars, sim.lights, sim.occupied, sim.symbols, hypot);
      assert RedAhead(sim.lights, pos, dir, hypot) ==> m == 0.0;
      Drive(sim, dt, hypot);
      DrivenStepped(s0, m, dt, EdgeKind(sim.roads, path[s0.edgeIdx], path[s0.edgeIdx + 1]), sim.lights, sim.symbols, hypot);
    }

    /**
     * What one tick of driving does to a car that had an edge to travel, against the
     * state before the tick. The lights and the release leave the reservations and
     * the target as `Reservations` says. At a `no_entry` symbol ahead the car stays
     * put. Otherwise it moves at `AllowedSpeed`: its progress grows by that speed's
     * share of the edge; once that reaches 1 it enters the next edge at its first
     * node or finishes at the last node, and before that it stands on its lane.
     */
    twostate predicate Driven(sim: Simulator, dt: real, hypot: (real, real) -> real)
      reads this, sim
      requires Known() && old(edgeIdx) + 1 < |path| && sim.LightsOk() && speed >= 0.0
    {
      var dir := Normalize(hypot, Segment(old(edgeIdx)));
      && (sim.occupied, target) == old(Reservations(sim.occupied, target, sim.lights, this, pos, dir, hypot))
      && (Blocked(sim.symbols, old(pos), dir, hypot) ==>
            edgeIdx == old(edgeIdx) && progress == old(progress) && pos == old(pos) && !finished)
      && (!Blocked(sim.symbols, old(pos), dir, hypot) ==>
            MovedAt(old(edgeIdx), old(progress), old(AllowedSpeed(this, pos, dir, sim.cars, sim.lights, sim.occupied, sim.symbols, hypot)),
                    dt, EdgeKind(sim.roads, path[old(edgeIdx)], path[old(edgeIdx) + 1]), hypot))
    }

    /**
     * A tick of driving from state `s` at speed `m` (zero at a red light near its stop
     * point) is a step as `Stepped` describes it.
     */
    lemma DrivenStepped(s: CarState, m: real, dt: real, kind: RoadKind, lights: seq<TrafficLight>, symbols: seq<Symbol>,
                        hypot: (real, real) -> real)
      requires Known() && Cycles(lights) && !s.finished && s.edgeIdx + 1 < |path| && 0.0 <= m <= speed
      requires var dir := Normalize(hypot, Segment(s.edgeIdx));
        && (RedAhead(lights, s.pos, dir, hypot) ==> m == 0.0)
        && (Blocked(symbols, s.pos, dir, hypot) ==>
              edgeIdx == s.edgeIdx && progress == s.progress && pos == s.pos && !finished)
        && (!Blocked(symbols, s.pos, dir, hypot) ==> MovedAt(s.edgeIdx, s.progress, m, dt, kind, hypot))
      requires s.edgeIdx <= edgeIdx <= s.edgeIdx + 1 && (!finished ==> edgeIdx + 1 < |path|)
      ensures Stepped(s, lights, symbols, dt, hypot)
    {
      if !Blocked(symbols, s.pos, Normalize(hypot, Segment(s.edgeIdx)), hypot) {
        MovedAtBounds(s.edgeIdx, s.progress, m, dt, kind, hypot);
      }
    }

    /**
     * A move at a speed between 0 and the car's own: at speed 0 from progress below 1
     * the car stays where it is on its edge, and with non-negative lengths and time
     * its progress grows by at most its own speed's worth.
     */
    lemma MovedAtBounds(e: nat, p: real, m: real, dt: real, kind: RoadKind, hypot: (real, real) -> real)
      requires Known() && e + 1 < |path| && 0.0 <= m <= speed && MovedAt(e, p, m, dt, kind, hypot)
      ensures m == 0.0 && p < 1.0 ==> edgeIdx == e && progress == p && !finished
      ensures NonNegative(hypot) && dt >= 0.0 && edgeIdx == e ==>
        p <= progress <= p + speed * dt / EdgeLength(hypot, Segment(e))
    {
      Advance(m, speed, dt, EdgeLength(hypot, Segment(e)), p);
    }

    /** The part of `update(dt)` after the two early returns: the speed rules, then the move. */
    method Drive(sim: Simulator, dt: real, hypot: (real, real) -> real)
      requires sim.LightsOk() && Known() && speed >= 0.0 && !finished && edgeIdx + 1 < |path|
      modifies this, sim`occupied
      ensures old(edgeIdx) <= edgeIdx <= old(edgeIdx) + 1
      ensures !finished ==> edgeIdx + 1 < |path|
      ensures EvenLength(hypot) ==> OwnChanges(old(sim.occupied), sim.occupied, this)
      ensures Driven(sim, dt, hypot)
    {
      var edgeVec := Segment(edgeIdx);
      var dir := Normalize(hypot, edgeVec);
      if EvenLength(hypot) {
        ReservationsOwn(sim.occupied, target, sim.lights, this, pos, dir, hypot);
      }
      var maxSpeed, blocked := Limit(sim, dir, hypot);
      if blocked {
        return;
      }
      // `road_type` is read before the speed rules in the source; it depends on the path alone
      var roadType := sim.GetEdgeType(path[edgeIdx], path[edgeIdx + 1]);
      Move(maxSpeed, dt, roadType, hypot);
    }
  }

  /**
   * Between two reservation maps, every entry that is new or changed names the
   * car, every entry that is gone named the car, and at most one entry is gone.
   */
  predicate OwnChanges(occ: map<TrafficLight, Car>, occ': map<TrafficLight, Car>, me: Car)
  {
    && (forall lt :: lt in occ' && !(lt in occ && occ'[lt] == occ[lt]) ==> occ'[lt] == me)
    && (forall lt :: lt in occ && lt !in occ' ==> occ[lt] == me)
    && (forall a, b :: a in occ && a !in occ' && b in occ && b !in occ' ==> a == b)
  }

  /**
   * With a length that ignores the sign of the vector, one tick's reservations
   * touch only the car's own entries. A light the car takes over from another car
   * lies within 40 of it, so the car is not also farther than 60 from it and does
   * not release it in the same tick.
   */
  lemma ReservationsOwn(occ: map<TrafficLight, Car>, target: Option<TrafficLight>, lights: seq<TrafficLight>,
                        me: Car, pos: Point, dir: Point, hypot: (real, real) -> real)
    requires Cycles(lights) && EvenLength(hypot)
    ensures OwnChanges(occ, Reservations(occ, target, lights, me, pos, dir, hypot).0, me)
  {
    var occ1 := Reserve(occ, lights, me, pos, dir, hypot);
    ReserveSpec(occ, lights, me, pos, dir, hypot);
    var last := LastAcquired(lights, pos, dir, hypot);
    var tgt1 := if last.Some? then last else target;
    if tgt1.Some? && Length(hypot, Sub(pos, tgt1.value.Position())) > ReleaseRadius {
      LengthSubSymmetric(hypot, pos, tgt1.value.Position());
    }
  }

  /**
   * One more light of the loop: how `MustStop`, `Reserve` and `LastAcquired` grow,
   * and that the reservations made so far never concern the next light.
   */
  lemma LightStep(lights: seq<TrafficLight>, k: nat, occ: map<TrafficLight, Car>, me: Car, pos: Point, dir: Point,
                  hypot: (real, real) -> real)
    requires k < |lights| && Cycles(lights)
    requires forall i, j :: 0 <= i < j < |lights| ==> lights[i] != lights[j]
    ensures MustStop(lights[..k + 1], occ, me, pos, dir, hypot) <==>
      MustStop(lights[..k], occ, me, pos, dir, hypot) ||
      RedStop(lights[k], pos, dir, hypot) || HeldByOther(lights[k], occ, me, pos, dir, hypot)
    ensures Reserve(occ, lights[..k + 1], me, pos, dir, hypot) ==
      var r := Reserve(occ, lights[..k], me, pos, dir, hypot);
      if Acquires(lights[k], pos, dir, hypot) then r[lights[k] := me] else r
    ensures LastAcquired(lights[..k + 1], pos, dir, hypot) ==
      if Acquires(lights[k], pos, dir, hypot) then Some(lights[k]) else LastAcquired(lights[..k], pos, dir, hypot)
    ensures var r := Reserve(occ, lights[..k], me, pos, dir, hypot);
      (lights[k] in r <==> lights[k] in occ) && (lights[k] in r ==> r[lights[k]] == occ[lights[k]])
  {
    var pre, lt := lights[..k], lights[k];
    assert lights[..k + 1][..k] == pre;
    assert lights[..k + 1][k] == lt;
    assert forall j :: 0 <= j < k ==> lights[..k + 1][j] == pre[j];
    assert lt !in pre by {
      forall j | 0 <= j < k ensures pre[j] != lt { }
    }
    ReserveOutside(occ, pre, me, pos, dir, hypot, lt);
  }

  /** A speed between 0 and the car's own moves the car forward, by at most the full-speed step. */
  lemma Advance(m: real, speed: real, dt: real, len: real, p: real)
    requires 0.0 <= m <= speed && len != 0.0
    ensures len > 0.0 && dt >= 0.0 ==> p <= p + m * dt / len <= p + speed * dt / len
    ensures m == 0.0 ==> p + m * dt / len == p
  {
    if len > 0.0 && dt >= 0.0 {
      assert m * dt <= speed * dt;
      assert m * dt >= 0.0;
    }
  }

  /** The states of the cars, in order. */
  ghost function States(cars: seq<Car>): (r: seq<CarState>)
    reads cars
    ensures |r| == |cars| && forall k :: 0 <= k < |cars| ==> r[k] == cars[k].State()
  {
    if cars == [] then [] else States(cars[..|cars| - 1]) + [cars[|cars| - 1].State()]
  }

  // ---------------------------------------------------------------- the simulator

  class Simulator {
    const roads: seq<Road>
    const nodes: map<NodeId, Point>
    const edges: Adjacency
    const lights: seq<TrafficLight>
    const symbols: seq<Symbol>
    var cars: seq<Car>
    var nextCarId: int
    var occupied: map<TrafficLight, Car>

    /** The lights are distinct objects, each with a non-zero cycle. */
    predicate LightsOk()
    {
      (forall i, j :: 0 <= i < j < |lights| ==> lights[i] != lights[j]) && Cycles(lights)
    }

    /** Every node the adjacency lists mention has a position, and weights are non-negative. */
    ghost predicate GraphOk()
    {
      && (forall u :: u in edges ==> u in nodes)
      && (forall u, l :: u in edges && l in edges[u] ==> l.to in nodes)
      && NonNegWeights(edges)
    }

    ghost predicate Valid()
      reads this
    {
      && LightsOk() && GraphOk()
      && (forall c :: c in cars ==> c.Known() && c.speed >= 0.0)
      && Distinct(cars)
    }

    /** The simulator over a built map: no cars yet, ids from 1, no reservations. */
    constructor(roads: seq<Road>, nodes: map<NodeId, Point>, edges: Adjacency, lights: seq<TrafficLight>, symbols: seq<Symbol>)
      requires (forall i, j :: 0 <= i < j < |lights| ==> lights[i] != lights[j]) && Cycles(lights)
      requires forall u :: u in edges ==> u in nodes
      requires forall u, l :: u in edges && l in edges[u] ==> l.to in nodes
      requires NonNegWeights(edges)
      ensures Valid()
      ensures this.roads == roads && this.nodes == nodes && this.edges == edges
      ensures this.lights == lights && this.symbols == symbols
      ensures cars == [] && nextCarId == 1 && occupied == map[]
    {
      this.roads, this.nodes, this.edges := roads, nodes, edges;
      this.lights, this.symbols := lights, symbols;
      cars, nextCarId, occupied := [], 1, map[];
    }

    /**
     * `get_edge_type(edge)`: the first road whose prefix `r{id}_` occurs in the printed
     * id of either end decides the type.
     */
    method GetEdgeType(u: NodeId, v: NodeId) returns (kind: RoadKind)
      ensures kind == EdgeKind(roads, u, v)
    {
      for k := 0 to |roads|
        invariant EdgeKind(roads, u, v) == EdgeKind(roads[k..], u, v)
      {
        var p := RoadPrefix(roads[k].id);
        ContainsRoadPrefix(u, roads[k].id);
        ContainsRoadPrefix(v, roads[k].id);
        assert roads[k..][1..] == roads[k + 1..];
        if Contains(Name(u), p) || Contains(Name(v), p) {
          return roads[k].kind;
        }
      }
      return Small;
    }

    /**
     * `spawn_car(start_id, end_id)`: route with no traffic counts; add a car only when
     * the route has at least two nodes.
     */
    method SpawnCar(start: NodeId, end: NodeId, jitter: real) returns (ok: bool)
      requires Valid() && -MaxJitter <= jitter <= MaxJitter
      modifies this`cars, this`nextCarId
      ensures Valid()
      ensures ok <==> start in edges && end in edges && start != end && exists p :: WalkBetween(edges, p, start, end)
      ensures !ok ==> cars == old(cars) && nextCarId == old(nextCarId)
      ensures ok ==> |cars| == |old(cars)| + 1 && cars[..|old(cars)|] == old(cars) && nextCarId == old(nextCarId) + 1
      ensures ok ==> var car := cars[|old(cars)|];
        fresh(car) && car.id == old(nextCarId) && |car.path| >= 2 && WalkBetween(edges, car.path, start, end) &&
        car.nodes == nodes && car.speed == BaseSpeed + jitter &&
        car.edgeIdx == 0 && car.progress == 0.0 && car.pos == nodes[start] && !car.finished && car.target == None
    {
      var path := FindPath(edges, start, end, map[]);
      if path.None? || |path.value| < 2 {
        if path.Some? {
          assert start == end;
        }
        return false;
      }
      WalkKnown(path.value, start, end);
      var car := new Car(path.value, nodes, nextCarId, jitter);
      nextCarId := nextCarId + 1;
      cars := cars + [car];
      return true;
    }

    /** The nodes of a walk from a node with a list all have positions. */
    lemma WalkKnown(p: seq<NodeId>, s: NodeId, t: NodeId)
      requires GraphOk() && WalkBetween(edges, p, s, t) && s in edges
      ensures forall k :: 0 <= k < |p| ==> p[k] in nodes
    {
      forall k | 0 <= k < |p| ensures p[k] in nodes {
        if k > 0 {
          assert Adjacent(edges, p[k - 1], p[k]);
          var links := Links(edges, p[k - 1]);
          var j :| 0 <= j < |links| && links[j].to == p[k];
          assert links[j] in edges[p[k - 1]];
        }
      }
    }

    /**
     * `car.update(dt)` inside the simulator's loop: the car takes its step against
     * the simulator's lights, symbols and reservations as they are at that moment.
     */
    method TickCar(car: Car, dt: real, hypot: (real, real) -> real)
      requires LightsOk() && car.Known() && car.speed >= 0.0
      modifies car, this`occupied
      ensures car.Stepped(old(car.State()), lights, symbols, dt, hypot)
      ensures old(car.finished) || old(car.edgeIdx) + 1 >= |car.path| ==> occupied == old(occupied)
      ensures !old(car.finished) && old(car.edgeIdx) + 1 < |car.path| ==> car.Driven(this, dt, hypot)
      ensures EvenLength(hypot) ==> OwnChanges(old(occupied), occupied, car)
    {
      car.Update(this, dt, hypot);
    }

    /**
     * `update(dt)`: every light first, then every car in turn; a car that is finished
     * after its own update leaves the list. Cars are distinct, so `cars.remove(car)`
     * takes out the car at the position it has reached in the list.
     */
    method Update(dt: real, hypot: (real, real) -> real)
      requires Valid()
      modifies this`cars, this`occupied, set lt | lt in lights, set c | c in cars
      ensures Valid()
      ensures forall lt :: lt in lights ==> lt.t == old(lt.t) + dt
      ensures cars == Kept(old(cars))
      // each car steps against the lights as they are after the tick: lights first, then cars
      ensures forall c :: c in old(cars) ==> c.Stepped(old(c.State()), lights, symbols, dt, hypot)
    {
      TickLights(dt);
      TickCars(dt, hypot);
    }

    /** The loop over the lights: every clock advances by `dt`. */
    method TickLights(dt: real)
      requires LightsOk()
      modifies set lt | lt in lights
      ensures forall lt :: lt in lights ==> lt.t == old(lt.t) + dt
    {
      for i := 0 to |lights|
        invariant forall j :: 0 <= j < i ==> lights[j].t == old(lights[j].t) + dt
        invariant forall j :: i <= j < |lights| ==> lights[j].t == old(lights[j].t)
      {
        lights[i].Update(dt);
      }
    }

    /**
     * The update of `snapshot[i]` in the loop over the cars: the cars before it have
     * taken their steps from the states `before`, and the cars after it are still in them.
     */
    method StepAt(snapshot: seq<Car>, i: nat, ghost before: seq<CarState>, dt: real, hypot: (real, real) -> real)
      requires LightsOk() && i < |snapshot| && Distinct(snapshot) && |before| == |snapshot|
      requires forall k :: 0 <= k < |snapshot| ==> snapshot[k].Known() && snapshot[k].speed >= 0.0
      requires forall k :: 0 <= k < i ==> snapshot[k].Stepped(before[k], lights, symbols, dt, hypot)
      requires forall k :: i <= k < |snapshot| ==> snapshot[k].State() == before[k]
      modifies snapshot[i], this`occupied
      ensures forall k :: 0 <= k < i + 1 ==> snapshot[k].Stepped(before[k], lights, symbols, dt, hypot)
      ensures forall k :: i + 1 <= k < |snapshot| ==> snapshot[k].State() == before[k]
    {
      TickCar(snapshot[i], dt, hypot);
    }

    /**
     * The loop over the cars after `i` turns, from the states `before`: `fin` records
     * the flags read so far, `done` the cars kept so far, and `list` is those followed
     * by the cars still to come; the first `i` cars have taken their steps and the
     * others are as they were.
     */
    ghost predicate TickedUpTo(snapshot: seq<Car>, i: nat, list: seq<Car>, kept: nat, done: seq<Car>, fin: seq<bool>,
                               before: seq<CarState>, dt: real, hypot: (real, real) -> real)
      reads snapshot, set lt | lt in lights
      requires LightsOk() && i <= |snapshot| == |before| && forall k :: 0 <= k < |snapshot| ==> snapshot[k].Known()
    {
      && |fin| == i && (forall k :: 0 <= k < i ==> fin[k] == snapshot[k].finished)
      && done == KeptBy(snapshot[..i], fin) && list == done + snapshot[i..] && kept == |done|
      && (forall k :: 0 <= k < i ==> snapshot[k].Stepped(before[k], lights, symbols, dt, hypot))
      && (forall k :: i <= k < |snapshot| ==> snapshot[k].State() == before[k])
    }

    /**
     * One turn of the loop over the cars: update `snapshot[i]`, then drop it from
     * the list if it is finished.
     */
    method TickAt(snapshot: seq<Car>, i: nat, list: seq<Car>, kept: nat, ghost done: seq<Car>, ghost fin: seq<bool>,
                  ghost before: seq<CarState>, dt: real, hypot: (real, real) -> real)
      returns (list': seq<Car>, kept': nat, ghost done': seq<Car>, ghost fin': seq<bool>)
      requires LightsOk() && i < |snapshot| && Distinct(snapshot) && |before| == |snapshot|
      requires forall k :: 0 <= k < |snapshot| ==> snapshot[k].Known() && snapshot[k].speed >= 0.0
      requires TickedUpTo(snapshot, i, list, kept, done, fin, before, dt, hypot)
      modifies snapshot[i], this`occupied
      ensures TickedUpTo(snapshot, i + 1, list', kept', done', fin', before, dt, hypot)
    {
      var car := snapshot[i];
      StepAt(snapshot, i, before, dt, hypot);
      assert forall k :: 0 <= k < i ==> fin[k] == snapshot[k].finished by {
        Split(snapshot, i);
      }
      RemovalStep(snapshot, i, fin, done, list, car.finished);
      fin' := fin + [car.finished];
      if car.finished {
        list', kept', done' := list[..kept] + list[kept + 1..], kept, done;
      } else {
        list', kept', done' := list, kept + 1, done + [car];
      }
    }

    /**
     * The loop over a copy of the car list: each car updates, and a car that is then
     * finished is taken out of the list, which keeps the others in their order.
     * The list is written back once, after the loop: during the loop the cars read
     * the list only to find a leader, which skips finished cars, so a finished car
     * left in the list until then makes no difference.
     */
    method TickCars(dt: real, hypot: (real, real) -> real)
      requires Valid()
      modifies this`cars, this`occupied, set c | c in cars
      ensures Valid()
      ensures cars == Kept(old(cars))
      ensures forall c :: c in old(cars) ==> c.Stepped(old(c.State()), lights, symbols, dt, hypot)
    {
      var list := TickAll(cars, States(cars), dt, hypot);
      cars := list;
    }

    /** The loop of `TickCars` over the copy `snapshot`; the result is the list without the finished cars. */
    method TickAll(snapshot: seq<Car>, ghost before: seq<CarState>, dt: real, hypot: (real, real) -> real) returns (list: seq<Car>)
      requires LightsOk() && Distinct(snapshot) && forall k :: 0 <= k < |snapshot| ==> snapshot[k].Known() && snapshot[k].speed >= 0.0
      requires before == States(snapshot)
      modifies this`occupied, set c | c in snapshot
      ensures list == Kept(snapshot)
      ensures Distinct(list) && forall c :: c in list ==> c in snapshot
      ensures forall k :: 0 <= k < |snapshot| ==> snapshot[k].Stepped(before[k], lights, symbols, dt, hypot)
    {
      list := snapshot;
      var kept := 0;
      ghost var done: seq<Car> := [];
      ghost var fin: seq<bool> := [];
      for i := 0 to |snapshot|
        invariant TickedUpTo(snapshot, i, list, kept, done, fin, before, dt, hypot)
      {
        list, kept, done, fin := TickAt(snapshot, i, list, kept, done, fin, before, dt, hypot);
      }
      assert snapshot[..|snapshot|] == snapshot && snapshot[|snapshot|..] == [];
      KeptList(snapshot, fin, list);
    }
  }
}
