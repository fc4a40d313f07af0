/**
 * The top level of projects/adventure/adv.py: discover the world, plan a
 * walk that visits every room by repeatedly moving along the shortest path
 * to the nearest unvisited room, then replay the walk from the start and
 * count the rooms it visits.
 *
 * The player is modelled by the room it stands in; moving in a direction
 * without an exit leaves it where it is (`Travel`).
 */
module Traversal {
  import opened Wrappers
  import opened Graphs
  import opened Paths
  import opened Discovery
  import opened Frontier
  import Sets

  /** The moves of the segments one after the other. */
  function Concat(segs: seq<seq<Dir>>): seq<Dir>
    decreases |segs|
  {
    if segs == [] then [] else Concat(segs[..|segs| - 1]) + segs[|segs| - 1]
  }

  /**
   * Each segment is what `find_next_path` answers from where the previous
   * segments left the player, given the rooms they visited.
   */
  ghost predicate GreedyPlan(w: Adjacency, m: Adjacency, start: RoomId, segs: seq<seq<Dir>>) {
    forall i :: 0 <= i < |segs| ==>
      && Position(w, start, Concat(segs[..i])) in m
      && IsNextPath(m, Position(w, start, Concat(segs[..i])), Visits(w, start, Concat(segs[..i])), Some(segs[i]))
  }

  /** The planner is stuck: rooms remain unvisited but none is reachable through visited rooms. */
  ghost predicate Stuck(w: Adjacency, m: Adjacency, start: RoomId, segs: seq<seq<Dir>>) {
    var here := Position(w, start, Concat(segs));
    var seen := Visits(w, start, Concat(segs));
    seen != m.Keys && forall f :: !IsFrontierPath(m, here, seen, f)
  }

  /** A plan extended by one more answer of `find_next_path` is still greedy. */
  lemma GreedyPlanExtend(w: Adjacency, m: Adjacency, start: RoomId, segs: seq<seq<Dir>>, f: seq<Dir>)
    requires GreedyPlan(w, m, start, segs)
    requires Position(w, start, Concat(segs)) in m
    requires IsNextPath(m, Position(w, start, Concat(segs)), Visits(w, start, Concat(segs)), Some(f))
    ensures GreedyPlan(w, m, start, segs + [f])
    ensures Concat(segs + [f]) == Concat(segs) + f
  {
    var segs' := segs + [f];
    assert segs'[..|segs|] == segs;
    forall i | 0 <= i < |segs|
      ensures segs'[..i] == segs[..i] && segs'[i] == segs[i]
    {
    }
  }

  lemma PrefixSnoc<T>(s: seq<T>, n: nat)
    requires 0 < n <= |s|
    ensures s[..n] == s[..n - 1] + [s[n - 1]]
  {
  }

  /** Two greedy plans from the same start agree on the segments they share. */
  lemma {:induction false} GreedyPlanPrefix(w: Adjacency, m: Adjacency, start: RoomId, a: seq<seq<Dir>>, b: seq<seq<Dir>>, n: nat)
    requires GreedyPlan(w, m, start, a) && GreedyPlan(w, m, start, b)
    requires n <= |a| && n <= |b|
    ensures a[..n] == b[..n]
    decreases n
  {
    if n > 0 {
      var i := n - 1;
      GreedyPlanPrefix(w, m, start, a, b, i);
      var moves := Concat(a[..i]);
      assert moves == Concat(b[..i]);
      var x, seen := Position(w, start, moves), Visits(w, start, moves);
      assert x in m && IsNextPath(m, x, seen, Some(a[i])) && IsNextPath(m, x, seen, Some(b[i]));
      NextPathDetermined(m, x, seen, Some(a[i]), Some(b[i]));
      PrefixSnoc(a, n);
      PrefixSnoc(b, n);
    }
  }

  /** The plan is determined by the world and the start: a shorter greedy plan is the start of a longer one. */
  lemma GreedyPlanDetermined(w: Adjacency, m: Adjacency, start: RoomId, a: seq<seq<Dir>>, b: seq<seq<Dir>>)
    requires GreedyPlan(w, m, start, a) && GreedyPlan(w, m, start, b) && |a| <= |b|
    ensures a == b[..|a|]
  {
    GreedyPlanPrefix(w, m, start, a, b, |a|);
    assert a[..|a|] == a;
  }

  /**
   * Following a walk from `x` that ends outside `visited`, the first move
   * that enters an unvisited room ends a frontier path.
   */
  lemma {:induction false} LeaveVisited(m: Adjacency, x: RoomId, visited: set<RoomId>, p: seq<Dir>, i: nat)
    requires i < |p| && Inside(m, x, visited, p[..i])
    requires Walk(m, x, p).Some? && Walk(m, x, p).value !in visited
    ensures exists f :: IsFrontierPath(m, x, visited, f)
    decreases |p| - i
  {
    WalkPrefixSome(m, x, p, i + 1);
    var f := p[..i + 1];
    assert f[..|f| - 1] == p[..i];
    if Walk(m, x, f).value !in visited {
      assert IsFrontierPath(m, x, visited, f);
    } else {
      assert p[..|p|] == p;
      InsideStep(m, x, visited, p, i);
      LeaveVisited(m, x, visited, p, i + 1);
    }
  }

  /** A walk that is defined is defined on every prefix. */
  lemma {:induction false} WalkPrefixSome(m: Adjacency, x: RoomId, p: seq<Dir>, j: nat)
    requires j <= |p| && Walk(m, x, p).Some?
    ensures Walk(m, x, p[..j]).Some?
    decreases |p|
  {
    if j < |p| {
      var p' := p[..|p| - 1];
      assert p[..j] == p'[..j];
      WalkPrefixSome(m, x, p', j);
    } else {
      assert p[..j] == p;
    }
  }

  /** A prefix through passable rooms stays so when one more move enters a visited room. */
  lemma InsideStep(m: Adjacency, x: RoomId, visited: set<RoomId>, p: seq<Dir>, i: nat)
    requires i < |p| && Inside(m, x, visited, p[..i]) && Walk(m, x, p[..i + 1]).Some?
    requires Walk(m, x, p[..i + 1]).value in visited
    ensures Inside(m, x, visited, p[..i + 1])
  {
    var f := p[..i + 1];
    forall j | 0 <= j <= |f|
      ensures Walk(m, x, f[..j]).Some? && Passable(visited, x, Walk(m, x, f[..j]).value)
    {
      if j <= i {
        assert f[..j] == p[..i][..j];
      } else {
        assert f[..j] == f;
      }
    }
  }

  /** In a strongly connected graph a frontier path exists until every room is visited. */
  lemma FrontierExists(m: Adjacency, x: RoomId, visited: set<RoomId>)
    requires x in visited && visited <= m.Keys && visited != m.Keys
    ensures StronglyConnected(m) ==> exists f :: IsFrontierPath(m, x, visited, f)
  {
    if StronglyConnected(m) {
      var u := Sets.ProperSubsetHas(visited, m.Keys);
      assert Reachable(m, x, u);
      var p :| Walk(m, x, p) == Some(u);
      assert p[..0] == [];
      LeaveVisited(m, x, visited, p, 0);
    }
  }

  /**
   * Replaying a frontier path of the discovered graph from a room of it
   * ends in the path's unvisited room.
   */
  lemma FrontierArrives(w: Adjacency, m: Adjacency, start: RoomId, path: seq<Dir>, f: seq<Dir>, visited: set<RoomId>)
    requires Agrees(m, w) && Closed(m) && start in m
    requires IsFrontierPath(m, Position(w, start, path), visited, f)
    ensures Position(w, start, path + f) == Walk(m, Position(w, start, path), f).value
  {
    var x := Position(w, start, path);
    AgreeReplay(w, m, start, path);
    VisitsInside(m, start, path);
    PositionAppend(w, start, path, f);
    AgreeReplay(w, m, x, f);
    WalkIsPosition(m, x, f);
  }

  /**
   * Lines 186-189 and 199-201: moves the player along `moves` one move at a
   * time, noting every room it stands in.
   */
  method Follow(w: Adjacency, from: RoomId, moves: seq<Dir>) returns (here: RoomId, seen: set<RoomId>)
    ensures here == Position(w, from, moves) && seen == Visits(w, from, moves)
  {
    here, seen := from, {from};
    for i := 0 to |moves|
      invariant here == Position(w, from, moves[..i]) && seen == Visits(w, from, moves[..i])
    {
      assert moves[..i + 1][..i] == moves[..i];
      here := Travel(w, here, moves[i]);
      seen := seen + {here};
    }
    assert moves[..|moves|] == moves;
  }

  /**
   * Lines 175-191: starting from `start` with only it visited, while fewer
   * rooms are visited than the graph has, ask `find_next_path` for moves and
   * replay them, marking every room stood in. `None` stands for the failure
   * of the source when `find_next_path` returns nothing.
   */
  method PlanTraversal(w: Adjacency, start: RoomId, g: Graph) returns (r: Option<seq<Dir>>, ghost segments: seq<seq<Dir>>)
    requires WellFormed(w) && Discovered(w, start, g.vertices)
    ensures GreedyPlan(w, g.vertices, start, segments)
    ensures |segments| < |g.vertices|
    ensures r.Some? ==> r.value == Concat(segments) && Visits(w, start, r.value) == g.vertices.Keys
    ensures r.None? ==> Stuck(w, g.vertices, start, segments)
    ensures StronglyConnected(g.vertices) ==> r.Some?
  {
    ghost var m := g.vertices;
    DiscoveredWellFormed(w, start, m);
    var traversalPath: seq<Dir> := [];
    var visited: set<RoomId> := {start};
    var currentRoomId := start;
    var totalRooms := |g.vertices|;
    segments := [];

    while |visited| < totalRooms
      invariant g.vertices == m && totalRooms == |m|
      invariant traversalPath == Concat(segments) && GreedyPlan(w, m, start, segments)
      invariant currentRoomId == Position(w, start, traversalPath)
      invariant visited == Visits(w, start, traversalPath)
      invariant visited <= m.Keys && currentRoomId in m
      invariant |segments| < |visited|
      decreases |m.Keys - visited|
    {
      var moves := FindNextPath(g, currentRoomId, visited);
      if moves.None? {
        Sets.SubsetCard(visited, m.Keys);
        PositionVisited(w, start, traversalPath);
        FrontierExists(m, currentRoomId, visited);
        return None, segments;
      }
      var f := moves.value;
      ghost var path0, visited0 := traversalPath, visited;
      var here, seen := Follow(w, currentRoomId, f);
      traversalPath := traversalPath + f;
      visited := visited + seen;
      PositionAppend(w, start, path0, f);
      VisitsAppend(w, start, path0, f);
      currentRoomId := here;
      GreedyPlanExtend(w, m, start, segments, f);
      segments := segments + [f];
      FrontierArrives(w, m, start, path0, f, visited0);
      AgreeReplay(w, m, start, traversalPath);
      VisitsInside(m, start, traversalPath);
      Sets.SubsetCard(visited0 + {here}, visited);
      Sets.RemoveShrinks(m.Keys, visited0, here);
      Sets.SubsetCard(m.Keys - visited, m.Keys - (visited0 + {here}));
    }
    Sets.SubsetCard(visited, m.Keys);
    r := Some(traversalPath);
  }

  /**
   * Lines 194-205: replays `path` from the start room, collecting the rooms
   * stood in, and passes when every room of the world was among them;
   * `missing` is the number of rooms never entered.
   */
  method ReplayCheck(w: Adjacency, start: RoomId, path: seq<Dir>) returns (rooms: set<RoomId>, passed: bool, missing: int)
    requires WellFormed(w) && start in w
    ensures rooms == Visits(w, start, path) && rooms <= w.Keys
    ensures passed <==> rooms == w.Keys
    ensures missing == |w.Keys - rooms|
  {
    var here;
    here, rooms := Follow(w, start, path);
    VisitsInside(w, start, path);
    Sets.SubsetCard(rooms, w.Keys);
    passed := |rooms| == |w|;
    assert w.Keys == rooms + (w.Keys - rooms);
    missing := |w| - |rooms|;
  }

  /** A strongly connected world is discovered whole. */
  lemma ConnectedDiscovered(w: Adjacency, start: RoomId, m: Adjacency)
    requires Discovered(w, start, m)
    ensures StronglyConnected(w) ==> m == w && StronglyConnected(m)
  {
    if StronglyConnected(w) {
      DiscoveredAll(w, start, m);
    }
  }

  /**
   * A walk that visits every discovered room visits exactly the rooms
   * reachable from the start, and all rooms of the world exactly when
   * every room is reachable.
   */
  lemma PlanCovers(w: Adjacency, start: RoomId, m: Adjacency, p: seq<Dir>)
    requires Discovered(w, start, m) && Visits(w, start, p) == m.Keys
    ensures forall y :: y in Visits(w, start, p) <==> Reachable(w, start, y)
    ensures Visits(w, start, p) == w.Keys <==> forall y :: y in w ==> Reachable(w, start, y)
  {
    forall y ensures y in m <==> Reachable(w, start, y) {
      DiscoveredReachable(w, start, m, y);
    }
    if forall y :: y in w ==> Reachable(w, start, y) {
      assert forall y :: y in w <==> y in m;
    }
  }

  /**
   * The whole program on a world with a start room: discover the graph,
   * plan the walk, replay it. The planned walk visits exactly the rooms
   * reachable from the start, the replay passes exactly when that is every
   * room, and a strongly connected world is always traversed completely.
   */
  method Run(w: Adjacency, start: RoomId) returns (r: Option<seq<Dir>>, passed: bool)
    requires WellFormed(w) && start in w
    ensures r.Some? ==> forall y :: y in Visits(w, start, r.value) <==> Reachable(w, start, y)
    ensures r.Some? ==> (passed <==> forall y :: y in w ==> Reachable(w, start, y))
    ensures r.None? ==> !passed && !StronglyConnected(w)
    ensures StronglyConnected(w) ==> r.Some? && passed
  {
    var g := new Graph();
    PopulateGraph(w, start, g);
    ghost var m := g.vertices;
    ghost var segments;
    r, segments := PlanTraversal(w, start, g);
    ConnectedDiscovered(w, start, m);
    if r.None? {
      return None, false;
    }
    var rooms, missing;
    rooms, passed, missing := ReplayCheck(w, start, r.value);
    PlanCovers(w, start, m, r.value);
  }
}
