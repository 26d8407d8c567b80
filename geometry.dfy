/**
 * The path network: waypoints, distances, the nearest waypoint of one route and the
 * nearest route to leave by.
 *
 * `distance` takes a square root. The square root is strictly increasing on
 * non-negative numbers, so `distance(p, a) < distance(p, b)` holds exactly when
 * `SqDist(p, a) < SqDist(p, b)`: every comparison the program makes, and so every
 * choice it makes, is the same when squared distances are compared instead.
 */
module Geometry {
  import opened Wrappers
  import opened Lists

  /** A `pygame.Vector2`; coordinates are reals because agents move by fractional steps. */
  datatype Point = Point(x: real, y: real)

  /** The square of `distance(a, b)`. */
  function SqDist(a: Point, b: Point): (d: real)
    ensures d >= 0.0
  {
    var dx, dy := a.x - b.x, a.y - b.y;
    assert dx * dx >= 0.0 && dy * dy >= 0.0;
    dx * dx + dy * dy
  }

  /** Every route has at least one waypoint (the program indexes `path[0]`). */
  predicate ValidPaths(paths: seq<seq<Point>>) {
    forall q :: 0 <= q < |paths| ==> |paths[q]| > 0
  }

  /**
   * The index at which the scan of `find_closest_point` over the first `n` waypoints
   * stands: it starts on `path[0]` and moves only to a strictly closer waypoint. So it
   * stands on the earliest waypoint of least distance: none of the first `n` waypoints
   * is strictly closer, and every earlier one is strictly farther.
   */
  function ClosestIn(point: Point, path: seq<Point>, n: nat): (k: nat)
    requires 0 < n <= |path|
    ensures k < n
    ensures forall j :: 0 <= j < n ==> SqDist(point, path[k]) <= SqDist(point, path[j])
    ensures forall j :: 0 <= j < k ==> SqDist(point, path[j]) > SqDist(point, path[k])
  {
    if n == 1 then 0
    else
      var k := ClosestIn(point, path, n - 1);
      if SqDist(point, path[n - 1]) < SqDist(point, path[k]) then n - 1 else k
  }

  /** The index of the waypoint `find_closest_point(point, path)` returns. */
  function ClosestIndex(point: Point, path: seq<Point>): (k: nat)
    requires |path| > 0
    ensures k < |path|
    ensures forall j :: 0 <= j < |path| ==> SqDist(point, path[k]) <= SqDist(point, path[j])
    ensures forall j :: 0 <= j < k ==> SqDist(point, path[j]) > SqDist(point, path[k])
  {
    ClosestIn(point, path, |path|)
  }

  /**
   * `path.index(closest)` gives back the index the scan stopped at: an earlier equal
   * waypoint would be at the same distance, and every earlier waypoint is farther.
   */
  lemma IndexOfClosest(point: Point, path: seq<Point>)
    requires |path| > 0
    ensures IndexOf(path, path[ClosestIndex(point, path)]) == ClosestIndex(point, path)
  {
    var k := ClosestIndex(point, path);
    assert forall j :: 0 <= j < k ==> path[j] != path[k];
  }

  /**
   * `find_closest_point(point, path)`: the first waypoint of `path` that no waypoint
   * is strictly closer to `point` than.
   */
  method FindClosestPoint(point: Point, path: seq<Point>) returns (closest: Point)
    requires |path| > 0
    ensures closest == path[ClosestIndex(point, path)]
    ensures closest in path
    ensures forall j :: 0 <= j < |path| ==> SqDist(point, closest) <= SqDist(point, path[j])
    ensures forall j :: 0 <= j < IndexOf(path, closest) ==> SqDist(point, path[j]) > SqDist(point, closest)
  {
    closest := path[0];
    var minDist := SqDist(point, closest);
    ghost var k := 0;
    for i := 0 to |path|
      invariant k < |path| && closest == path[k] && minDist == SqDist(point, closest)
      invariant i > 0 ==> k == ClosestIn(point, path, i)
      invariant i == 0 ==> k == 0
    {
      var d := SqDist(point, path[i]);
      if d < minDist {
        closest := path[i];
        minDist := d;
        k := i;
      }
    }
    IndexOfClosest(point, path);
  }

  /** Which route to leave by and the waypoint index to join it at. */
  datatype Route = Route(pathNo: nat, start: nat)

  /** The waypoint a route joins its path at. */
  function Entry(paths: seq<seq<Point>>, r: Route): (p: Point)
    requires r.pathNo < |paths| && r.start < |paths[r.pathNo]|
  {
    paths[r.pathNo][r.start]
  }

  /**
   * Where the loop of `shortest_path_to_exit` stands after the first `n` routes.
   * `None` is the starting state (`best_path = None`, `best_dist = inf`); a route
   * replaces the best one only when its closest waypoint is strictly nearer.
   */
  function ExitRouteIn(point: Point, paths: seq<seq<Point>>, n: nat): (r: Option<Route>)
    requires ValidPaths(paths) && n <= |paths|
    ensures r.Some? <==> n > 0
    ensures r.Some? ==> r.value.pathNo < n && r.value.start < |paths[r.value.pathNo]|
  {
    if n == 0 then None
    else
      var best := ExitRouteIn(point, paths, n - 1);
      var path := paths[n - 1];
      var closest := path[ClosestIndex(point, path)];
      if best.None? || SqDist(point, closest) < SqDist(point, Entry(paths, best.value)) then
        Some(Route(n - 1, IndexOf(path, closest)))
      else best
  }

  /** The `(path, index)` pair `shortest_path_to_exit(point)` returns. */
  function ExitRoute(point: Point, paths: seq<seq<Point>>): (r: Option<Route>)
    requires ValidPaths(paths)
    ensures r.Some? <==> |paths| > 0
    ensures r.Some? ==> r.value.pathNo < |paths| && r.value.start < |paths[r.value.pathNo]|
  {
    ExitRouteIn(point, paths, |paths|)
  }

  /**
   * After `n` routes the chosen one joins its path at that path's closest waypoint,
   * no waypoint of any of the `n` routes is strictly nearer, and every earlier route's
   * closest waypoint is strictly farther, so ties go to the earliest route.
   */
  lemma {:induction false} ExitRouteInIsNearest(point: Point, paths: seq<seq<Point>>, n: nat)
    requires ValidPaths(paths) && 0 < n <= |paths|
    ensures var r := ExitRouteIn(point, paths, n).value;
      && r.start == ClosestIndex(point, paths[r.pathNo])
      && (forall q, j :: 0 <= q < n && 0 <= j < |paths[q]| ==>
            SqDist(point, Entry(paths, r)) <= SqDist(point, paths[q][j]))
      && (forall q :: 0 <= q < r.pathNo ==>
            SqDist(point, paths[q][ClosestIndex(point, paths[q])]) > SqDist(point, Entry(paths, r)))
  {
    IndexOfClosest(point, paths[n - 1]);
    if n > 1 {
      ExitRouteInIsNearest(point, paths, n - 1);
    }
  }

  /** The same for all routes: the property `shortest_path_to_exit` exists for. */
  lemma ExitRouteIsNearest(point: Point, paths: seq<seq<Point>>)
    requires ValidPaths(paths) && |paths| > 0
    ensures var r := ExitRoute(point, paths).value;
      && r.start == ClosestIndex(point, paths[r.pathNo])
      && (forall q, j :: 0 <= q < |paths| && 0 <= j < |paths[q]| ==>
            SqDist(point, Entry(paths, r)) <= SqDist(point, paths[q][j]))
      && (forall q :: 0 <= q < r.pathNo ==>
            SqDist(point, paths[q][ClosestIndex(point, paths[q])]) > SqDist(point, Entry(paths, r)))
  {
    ExitRouteInIsNearest(point, paths, |paths|);
  }

  /**
   * `shortest_path_to_exit(npc_pos)` over the routes `paths`: `None` stands for the
   * `(None, 0)` it returns when there is no route at all.
   */
  method ShortestPathToExit(point: Point, paths: seq<seq<Point>>) returns (best: Option<Route>)
    requires ValidPaths(paths)
    ensures best == ExitRoute(point, paths)
    ensures best.Some? <==> |paths| > 0
    ensures best.Some? ==>
      && best.value.pathNo < |paths|
      && best.value.start == ClosestIndex(point, paths[best.value.pathNo])
      && forall q, j :: 0 <= q < |paths| && 0 <= j < |paths[q]| ==>
           SqDist(point, Entry(paths, best.value)) <= SqDist(point, paths[q][j])
  {
    best := None;
    var bestDist := 0.0;  // meaningful only once `best` is set; `None` plays `inf`
    for i := 0 to |paths|
      invariant best == ExitRouteIn(point, paths, i)
      invariant best.Some? ==> bestDist == SqDist(point, Entry(paths, best.value))
    {
      var closest := FindClosestPoint(point, paths[i]);
      var dist := SqDist(point, closest);
      if best.None? || dist < bestDist {
        bestDist := dist;
        best := Some(Route(i, IndexOf(paths[i], closest)));
      }
    }
    if |paths| > 0 {
      ExitRouteIsNearest(point, paths);
    }
  }
}
