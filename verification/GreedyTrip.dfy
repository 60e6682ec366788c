/** Greedy nearest-neighbour ordering of a multi-stop trip, for any distance function. */
module GreedyTrip {

  datatype Point = Point(lat: real, lng: real)

  /** A waypoint object: `ref` is its identity, which `indexOf` compares. */
  datatype Waypoint = Waypoint(ref: nat, at: Point)

  datatype Stop = Stop(waypoint: Waypoint, originalIndex: nat, optimizedOrder: nat)

  type Metric = (Point, Point) -> real

  predicate Indices(wps: seq<Waypoint>, ids: seq<nat>) { forall k :: 0 <= k < |ids| ==> ids[k] < |wps| }

  predicate Increasing(ids: seq<nat>) { forall j, k :: 0 <= j < k < |ids| ==> ids[j] < ids[k] }

  function Without(ids: seq<nat>, p: nat): seq<nat>
    requires p < |ids|
  {
    ids[..p] + ids[p + 1..]
  }

  /** Position of the nearest of the first k unvisited waypoints, the earliest one on ties. */
  function Best(dist: Metric, wps: seq<Waypoint>, from: Point, ids: seq<nat>, k: nat): (b: nat)
    requires 1 <= k <= |ids| && Indices(wps, ids)
    ensures b < k
    ensures forall j :: 0 <= j < k ==> dist(from, wps[ids[b]].at) <= dist(from, wps[ids[j]].at)
    ensures forall j :: 0 <= j < b ==> dist(from, wps[ids[b]].at) < dist(from, wps[ids[j]].at)
  {
    if k == 1 then 0
    else
      var b := Best(dist, wps, from, ids, k - 1);
      if dist(from, wps[ids[k - 1]].at) < dist(from, wps[ids[b]].at) then k - 1 else b
  }

  /** The order in which the unvisited waypoints are taken. */
  function GreedyOrder(dist: Metric, wps: seq<Waypoint>, from: Point, ids: seq<nat>): seq<nat>
    requires Indices(wps, ids)
    decreases |ids|
  {
    if ids == [] then []
    else
      var p := Best(dist, wps, from, ids, |ids|);
      [ids[p]] + GreedyOrder(dist, wps, wps[ids[p]].at, Without(ids, p))
  }

  function PathLength(dist: Metric, wps: seq<Waypoint>, from: Point, order: seq<nat>): real
    requires Indices(wps, order)
    decreases |order|
  {
    if order == [] then 0.0
    else dist(from, wps[order[0]].at) + PathLength(dist, wps, wps[order[0]].at, order[1..])
  }

  function FirstIndex(wps: seq<Waypoint>, w: Waypoint): (i: nat)
    requires w in wps
    ensures i < |wps| && wps[i] == w && w !in wps[..i]
  {
    if wps[0] == w then 0
    else
      var i := FirstIndex(wps[1..], w);
      assert wps[..i + 1] == [wps[0]] + wps[1..][..i];
      1 + i
  }

  // ---------- What a greedy order is ----------

  function PositionBefore(wps: seq<Waypoint>, from: Point, order: seq<nat>, k: nat): Point
    requires Indices(wps, order) && k < |order|
  {
    if k == 0 then from else wps[order[k - 1]].at
  }

  /** Going from `from`, a comes strictly before b: nearer, or as near and earlier in the input. */
  predicate Nearer(dist: Metric, wps: seq<Waypoint>, from: Point, a: nat, b: nat)
    requires a < |wps| && b < |wps|
  {
    dist(from, wps[a].at) < dist(from, wps[b].at) || (dist(from, wps[a].at) == dist(from, wps[b].at) && a < b)
  }

  /** Every stop beats all later ones, seen from where it is chosen. */
  ghost predicate Legs(dist: Metric, wps: seq<Waypoint>, from: Point, order: seq<nat>)
    requires Indices(wps, order)
  {
    forall k, m :: 0 <= k < m < |order| ==>
      Nearer(dist, wps, PositionBefore(wps, from, order, k), order[k], order[m])
  }

  /** A reordering of the given waypoints in which every stop beats all later ones. */
  ghost predicate IsGreedy(dist: Metric, wps: seq<Waypoint>, from: Point, ids: seq<nat>, order: seq<nat>) {
    && Indices(wps, order)
    && multiset(order) == multiset(ids)
    && Legs(dist, wps, from, order)
  }

  lemma LegsCons(dist: Metric, wps: seq<Waypoint>, from: Point, first: nat, tail: seq<nat>)
    requires first < |wps| && Indices(wps, tail)
    ensures Indices(wps, [first] + tail)
    ensures Legs(dist, wps, from, [first] + tail)
       <==> (forall m :: 0 <= m < |tail| ==> Nearer(dist, wps, from, first, tail[m]))
            && Legs(dist, wps, wps[first].at, tail)
  {
    var order := [first] + tail;
    if Legs(dist, wps, from, order) {
      forall m | 0 <= m < |tail| ensures Nearer(dist, wps, from, first, tail[m]) {
        assert Nearer(dist, wps, PositionBefore(wps, from, order, 0), order[0], order[m + 1]);
      }
      forall k, m | 0 <= k < m < |tail|
        ensures Nearer(dist, wps, PositionBefore(wps, wps[first].at, tail, k), tail[k], tail[m])
      {
        assert Nearer(dist, wps, PositionBefore(wps, from, order, k + 1), order[k + 1], order[m + 1]);
      }
    }
    if (forall m :: 0 <= m < |tail| ==> Nearer(dist, wps, from, first, tail[m]))
       && Legs(dist, wps, wps[first].at, tail) {
      forall k, m | 0 <= k < m < |order|
        ensures Nearer(dist, wps, PositionBefore(wps, from, order, k), order[k], order[m])
      {
        if k > 0 {
          assert Nearer(dist, wps, PositionBefore(wps, wps[first].at, tail, k - 1), tail[k - 1], tail[m - 1]);
        }
      }
    }
  }

  lemma WithoutKeeps(wps: seq<Waypoint>, ids: seq<nat>, p: nat)
    requires p < |ids| && Indices(wps, ids) && Increasing(ids)
    ensures Indices(wps, Without(ids, p)) && Increasing(Without(ids, p))
    ensures multiset(ids) == multiset([ids[p]]) + multiset(Without(ids, p))
    ensures ids[p] !in Without(ids, p)
  {
    assert ids == ids[..p] + [ids[p]] + ids[p + 1..];
  }

  lemma BestBeatsOthers(dist: Metric, wps: seq<Waypoint>, from: Point, ids: seq<nat>, other: nat)
    requires ids != [] && Indices(wps, ids) && Increasing(ids)
    requires other in ids && other != ids[Best(dist, wps, from, ids, |ids|)]
    ensures other < |wps|
    ensures Nearer(dist, wps, from, ids[Best(dist, wps, from, ids, |ids|)], other)
  {
    var j :| 0 <= j < |ids| && ids[j] == other;
  }

  /** The computed order is greedy: a permutation in which each stop is nearest, earliest on ties. */
  lemma {:induction false} GreedyOrderIsGreedy(dist: Metric, wps: seq<Waypoint>, from: Point, ids: seq<nat>)
    requires Indices(wps, ids) && Increasing(ids)
    ensures IsGreedy(dist, wps, from, ids, GreedyOrder(dist, wps, from, ids))
    decreases |ids|
  {
    if ids != [] {
      var p := Best(dist, wps, from, ids, |ids|);
      WithoutKeeps(wps, ids, p);
      var tail := GreedyOrder(dist, wps, wps[ids[p]].at, Without(ids, p));
      GreedyOrderIsGreedy(dist, wps, wps[ids[p]].at, Without(ids, p));
      forall m | 0 <= m < |tail|
        ensures Nearer(dist, wps, from, ids[p], tail[m])
      {
        assert tail[m] in multiset(tail);
        assert tail[m] in multiset(Without(ids, p));
        assert tail[m] in Without(ids, p);
        BestBeatsOthers(dist, wps, from, ids, tail[m]);
      }
      LegsCons(dist, wps, from, ids[p], tail);
    }
  }

  /** There is only one greedy order, so being greedy says everything about the result. */
  lemma {:induction false} GreedyIsUnique(dist: Metric, wps: seq<Waypoint>, from: Point, ids: seq<nat>, order: seq<nat>)
    requires Indices(wps, ids) && Increasing(ids)
    requires IsGreedy(dist, wps, from, ids, order)
    ensures order == GreedyOrder(dist, wps, from, ids)
    decreases |ids|
  {
    assert |multiset(order)| == |order| && |multiset(ids)| == |ids|;
    if ids != [] {
      var p := Best(dist, wps, from, ids, |ids|);
      FirstIsBest(dist, wps, from, ids, order);
      WithoutKeeps(wps, ids, p);
      var tail := order[1..];
      assert order == [ids[p]] + tail;
      assert multiset(order) == multiset([ids[p]]) + multiset(tail);
      Cancel(multiset([ids[p]]), multiset(tail), multiset(Without(ids, p)));
      LegsCons(dist, wps, from, ids[p], tail);
      GreedyIsUnique(dist, wps, wps[ids[p]].at, Without(ids, p), tail);
    }
  }

  lemma Cancel(a: multiset<nat>, b: multiset<nat>, c: multiset<nat>)
    requires a + b == a + c
    ensures b == c
  {
    assert b == (a + b) - a && c == (a + c) - a;
  }

  lemma FirstIsBest(dist: Metric, wps: seq<Waypoint>, from: Point, ids: seq<nat>, order: seq<nat>)
    requires ids != [] && Indices(wps, ids) && Increasing(ids)
    requires IsGreedy(dist, wps, from, ids, order)
    ensures order != [] && order[0] == ids[Best(dist, wps, from, ids, |ids|)]
  {
    var best := ids[Best(dist, wps, from, ids, |ids|)];
    assert best in multiset(ids) && best in multiset(order);
    var m :| 0 <= m < |order| && order[m] == best;
    if order[0] != best {
      assert Nearer(dist, wps, PositionBefore(wps, from, order, 0), order[0], best);
      OrderedIsGiven(ids, order, 0);
      BestBeatsOthers(dist, wps, from, ids, order[0]);
      assert false;
    }
  }

  lemma OrderedIsGiven(ids: seq<nat>, order: seq<nat>, k: nat)
    requires multiset(order) == multiset(ids) && k < |order|
    ensures order[k] in ids
  {
    assert order[k] in multiset(order);
  }

  // ---------- The loop ----------

  function All(n: nat): (ids: seq<nat>)
    ensures Increasing(ids) && |ids| == n && forall k :: 0 <= k < n ==> ids[k] == k
  {
    seq(n, i requires 0 <= i => i)
  }

  function Third(a: real, b: real, f: int): real { a + (b - a) * f as real / 3.0 }

  /** Length of a path grows by its last leg. */
  lemma {:induction false} PathLengthAppend(dist: Metric, wps: seq<Waypoint>, from: Point, order: seq<nat>, next: nat)
    requires Indices(wps, order) && next < |wps|
    ensures PathLength(dist, wps, from, order + [next])
         == PathLength(dist, wps, from, order)
            + dist(EndOf(wps, from, order), wps[next].at)
    decreases |order|
  {
    if order == [] {
      assert [next][1..] == [];
    } else {
      assert (order + [next])[1..] == order[1..] + [next];
      PathLengthAppend(dist, wps, wps[order[0]].at, order[1..], next);
    }
  }

  /** The waypoints at the given indices, in that order. */
  ghost predicate Picks(wps: seq<Waypoint>, ids: seq<nat>, unvisited: seq<Waypoint>) {
    && Indices(wps, ids)
    && |ids| == |unvisited|
    && forall k :: 0 <= k < |ids| ==> unvisited[k] == wps[ids[k]]
  }

  /** Index of the nearest unvisited waypoint, scanning left to right. */
  method FindNearest(dist: Metric, from: Point, unvisited: seq<Waypoint>, ghost wps: seq<Waypoint>, ghost ids: seq<nat>)
    returns (nearest: nat, distance: real)
    requires unvisited != [] && Picks(wps, ids, unvisited)
    ensures nearest < |unvisited| && distance == dist(from, unvisited[nearest].at)
    ensures nearest == Best(dist, wps, from, ids, |ids|)
  {
    nearest := 0;
    var found := false;  // until the first comparison the minimum is infinite
    distance := 0.0;
    for i := 0 to |unvisited|
      invariant found <==> i > 0
      invariant found ==> nearest == Best(dist, wps, from, ids, i) && distance == dist(from, unvisited[nearest].at)
    {
      var d := dist(from, unvisited[i].at);
      if !found || d < distance {
        found, distance, nearest := true, d, i;
      }
    }
  }

  /** The stops report the waypoints of an order, numbered from 1, with their first index in the input. */
  ghost predicate Reports(wps: seq<Waypoint>, stops: seq<Stop>, order: seq<nat>) {
    && Indices(wps, order)
    && |stops| == |order|
    && forall k :: 0 <= k < |order| ==>
         stops[k] == Stop(wps[order[k]], FirstIndex(wps, wps[order[k]]), k + 1)
  }

  /** One start point and three points a leg, the third of each leg at its stop. */
  ghost predicate Draws(start: Point, stops: seq<Stop>, coords: seq<Point>) {
    && |coords| == 1 + 3 * |stops| && coords[0] == start
    && forall k :: 0 <= k < |stops| ==> coords[3 * k + 3] == stops[k].waypoint.at
  }

  /** Reports the next stop and draws the leg to it. */
  method AppendStop(waypoints: seq<Waypoint>, ghost start: Point, current: Point, ordered: seq<Stop>,
                    coords: seq<Point>,
                    stepOrder: nat, next: Waypoint, ghost order: seq<nat>, ghost id: nat)
    returns (longer: seq<Stop>, line: seq<Point>)
    requires Reports(waypoints, ordered, order) && Draws(start, ordered, coords)
    requires id < |waypoints| && next == waypoints[id] && stepOrder == |ordered| + 1
    ensures Reports(waypoints, longer, order + [id]) && Draws(start, longer, line) && |longer| == |ordered| + 1
  {
    longer := ordered + [Stop(next, FirstIndex(waypoints, next), stepOrder)];
    line := Interpolate(coords, current, next.at);
    ReportsAppend(waypoints, ordered, order, id);
    DrawsAppend(start, ordered, coords, longer[|ordered|], line);
  }

  method GreedyTripFallback(dist: Metric, start: Point, waypoints: seq<Waypoint>)
    returns (ordered: seq<Stop>, totalKm: real, coords: seq<Point>)
    ensures var order := GreedyOrder(dist, waypoints, start, All(|waypoints|));
      && IsGreedy(dist, waypoints, start, All(|waypoints|), order)
      && Reports(waypoints, ordered, order)
      && totalKm == PathLength(dist, waypoints, start, order)
    ensures |ordered| == |waypoints| && Draws(start, ordered, coords)
  {
    var unvisited := waypoints;
    ordered, totalKm := [], 0.0;
    var current := start;
    coords := [start];
    var stepOrder := 1;
    ghost var ids := All(|waypoints|);
    ghost var order: seq<nat> := [];
    while |unvisited| > 0
      invariant Picks(waypoints, ids, unvisited)
      invariant |ordered| == stepOrder - 1 && |order| + |ids| == |waypoints|
      invariant Reports(waypoints, ordered, order) && Draws(start, ordered, coords)
      invariant order + GreedyOrder(dist, waypoints, current, ids)
             == GreedyOrder(dist, waypoints, start, All(|waypoints|))
      invariant current == EndOf(waypoints, start, order)
      invariant totalKm == PathLength(dist, waypoints, start, order)
      decreases |unvisited|
    {
      var nearest, minDistance := FindNearest(dist, current, unvisited, waypoints, ids);
      var next := unvisited[nearest];
      PathLengthAppend(dist, waypoints, start, order, ids[nearest]);
      TakeNearest(dist, waypoints, current, ids, order);
      Splice(waypoints, ids, unvisited, nearest);
      unvisited := unvisited[..nearest] + unvisited[nearest + 1..];
      totalKm := totalKm + minDistance;
      ordered, coords := AppendStop(waypoints, start, current, ordered, coords, stepOrder, next, order, ids[nearest]);
      stepOrder := stepOrder + 1;
      order := order + [ids[nearest]];
      ids := Without(ids, nearest);
      current := next.at;
    }
    assert order == GreedyOrder(dist, waypoints, start, All(|waypoints|));
    GreedyOrderIsGreedy(dist, waypoints, start, All(|waypoints|));
  }

  function EndOf(wps: seq<Waypoint>, start: Point, order: seq<nat>): Point
    requires Indices(wps, order)
  {
    if order == [] then start else wps[order[|order| - 1]].at
  }

  lemma Splice(wps: seq<Waypoint>, ids: seq<nat>, unvisited: seq<Waypoint>, p: nat)
    requires Picks(wps, ids, unvisited) && p < |ids|
    ensures Picks(wps, Without(ids, p), unvisited[..p] + unvisited[p + 1..])
  {
  }

  lemma ReportsAppend(wps: seq<Waypoint>, stops: seq<Stop>, order: seq<nat>, i: nat)
    requires Reports(wps, stops, order) && i < |wps|
    ensures Reports(wps, stops + [Stop(wps[i], FirstIndex(wps, wps[i]), |stops| + 1)], order + [i])
  {
  }

  lemma DrawsAppend(start: Point, stops: seq<Stop>, coords: seq<Point>, stop: Stop, longer: seq<Point>)
    requires Draws(start, stops, coords)
    requires |longer| == |coords| + 3 && longer[..|coords|] == coords && longer[|coords| + 2] == stop.waypoint.at
    ensures Draws(start, stops + [stop], longer)
  {
    forall k | 0 <= k < |stops| + 1
      ensures longer[3 * k + 3] == (stops + [stop])[k].waypoint.at
    {
      if k < |stops| {
        assert longer[3 * k + 3] == longer[..|coords|][3 * k + 3];
      }
    }
    assert longer[0] == longer[..|coords|][0];
  }

  lemma TakeNearest(dist: Metric, wps: seq<Waypoint>, from: Point, ids: seq<nat>, order: seq<nat>)
    requires ids != [] && Indices(wps, ids)
    ensures var p := Best(dist, wps, from, ids, |ids|);
      order + GreedyOrder(dist, wps, from, ids)
      == (order + [ids[p]]) + GreedyOrder(dist, wps, wps[ids[p]].at, Without(ids, p))
  {
  }

  /** Three evenly spaced points on the leg, the last of them at its end. */
  method Interpolate(coords: seq<Point>, a: Point, b: Point) returns (longer: seq<Point>)
    ensures |longer| == |coords| + 3 && longer[..|coords|] == coords
    ensures longer[|coords| + 2] == b
    ensures forall f :: 1 <= f <= 3 ==>
      longer[|coords| + f - 1] == Point(Third(a.lat, b.lat, f), Third(a.lng, b.lng, f))
  {
    longer := coords;
    for f := 1 to 4
      invariant |longer| == |coords| + f - 1 && longer[..|coords|] == coords
      invariant forall g :: 1 <= g < f ==>
        longer[|coords| + g - 1] == Point(Third(a.lat, b.lat, g), Third(a.lng, b.lng, g))
    {
      longer := longer + [Point(Third(a.lat, b.lat, f), Third(a.lng, b.lng, f))];
    }
    assert Third(a.lat, b.lat, 3) == b.lat && Third(a.lng, b.lng, 3) == b.lng;
  }

  /** The three points of a leg cut it into equal thirds. */
  lemma ThirdsAreEqual(a: real, b: real)
    ensures Third(a, b, 1) - a == Third(a, b, 2) - Third(a, b, 1) == b - Third(a, b, 2)
    ensures Third(a, b, 3) == b
  {
  }

  /** When no waypoint object is listed twice, the reported original indices are the visiting order. */
  lemma OriginalIndexIsOrder(wps: seq<Waypoint>, i: nat)
    requires i < |wps|
    requires forall j, k :: 0 <= j < k < |wps| ==> wps[j] != wps[k]
    ensures FirstIndex(wps, wps[i]) == i
  {
  }
}
