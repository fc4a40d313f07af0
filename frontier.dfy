/**
 * `find_next_path` of projects/adventure/adv.py: a breadth-first search from
 * the player's room, through rooms already visited, for the nearest room
 * not visited yet.
 */
module Frontier {
  import opened Wrappers
  import opened Graphs
  import opened Containers
  import opened Paths
  import opened BreadthFirst
  import opened SearchOrder
  import Sets

  /**
   * Lines 160-169: the exits of the front room `x`, reached with `moves`, in
   * order. Returns the answer at the first exit to an unvisited room;
   * otherwise every exit was to a visited room, and those not enqueued
   * before have been enqueued one move deeper.
   */
  method ScanExits(ghost m: Adjacency, room: RoomId, visited: set<RoomId>, q: Queue<Item>, v0: set<RoomId>,
                   x: RoomId, moves: seq<Dir>, neighbors: Edges,
                   ghost items0: seq<Item>, ghost depth0: map<RoomId, nat>, ghost P: set<RoomId>)
    returns (found: Option<seq<Dir>>, v: set<RoomId>, ghost items: seq<Item>, ghost depth: map<RoomId, nat>)
    requires Search(m, room, visited, items0, v0, depth0, P)
    requires items0 != [] && items0[0] == (x, moves) && x in m && neighbors == m[x]
    requires q.items == items0[1..]
    requires Ordered(m, room, visited, items0) && Deeper(m, room, items0, 0)
    modifies q
    ensures found.Some? ==> IsNextPath(m, room, visited, found)
    ensures found.None? ==>
              && items != [] && items[0] == (x, moves) && q.items == items[1..]
              && Search(m, room, visited, items, v, depth, P)
              && Scanned(m[x], |m[x]|, visited, depth, |moves| + 1)
              && Ordered(m, room, visited, items) && Deeper(m, room, items, |m[x]|)
  {
    v, items, depth := v0, items0, depth0;
    for k := 0 to |neighbors|
      invariant items != [] && items[0] == (x, moves) && q.items == items[1..]
      invariant Search(m, room, visited, items, v, depth, P)
      invariant Scanned(neighbors, k, visited, depth, |moves| + 1)
      invariant Ordered(m, room, visited, items) && Deeper(m, room, items, k)
    {
      var (direction, nextRoom) := neighbors[k];
      var newMoves := moves + [direction];
      if nextRoom !in visited {
        found := Some(newMoves);
        OrderedAnswer(m, room, visited, items, v, depth, P, k, direction, nextRoom, found);
        return;
      }
      if nextRoom !in v {
        TailAppend(items, (nextRoom, newMoves));
        ScanKeep(neighbors, k, visited, depth, |moves| + 1, nextRoom, |newMoves|);
        ghost var items1, v1, depth1 := items, v, depth;
        q.Enqueue((nextRoom, newMoves));
        v := v + {nextRoom};
        depth := depth[nextRoom := |newMoves|];
        items := items + [(nextRoom, newMoves)];
        SearchEnqueue(m, room, visited, items1, v1, depth1, P, k, direction, nextRoom, newMoves, items, v, depth);
        EnqueueOrdered(m, room, visited, items1, v1, depth1, P, k, nextRoom);
      } else {
        KnownDepth(m, room, visited, items, v, depth, P, nextRoom);
        DeeperNext(m, room, items, k);
      }
      ScanNext(neighbors, k, visited, depth, |moves| + 1);
    }
    found := None;
  }

  /**
   * Lines 133-170. Returns `None` where the source falls off the end of the
   * loop. The answer is a shortest frontier path, the first of its length
   * in the order moves are tried; there is none when the answer is `None`;
   * and when the start room itself has an exit to an unvisited room the
   * answer is the first such exit alone.
   */
  method FindNextPath(g: Graph, room: RoomId, visited: set<RoomId>) returns (r: Option<seq<Dir>>)
    requires WellFormed(g.vertices) && room in g.vertices
    ensures IsNextPath(g.vertices, room, visited, r)
  {
    ghost var m := g.vertices;
    var v: set<RoomId> := {room};
    var q := new Queue<Item>();
    q.Enqueue((room, []));
    ghost var depth: map<RoomId, nat> := map[room := 0];
    ghost var P: set<RoomId> := {};
    ghost var items := q.items;
    SearchInit(m, room, visited);
    OrderInit(m, room, visited);

    while q.Size() > 0
      invariant fresh(q) && g.vertices == m
      invariant q.items == items
      invariant Search(m, room, visited, items, v, depth, P)
      invariant Ordered(m, room, visited, items) && (items != [] ==> Deeper(m, room, items, 0))
      decreases |m.Keys - P|
    {
      var roomInfo := q.Dequeue();
      var (x, moves) := roomInfo.value;
      FrontInGraph(m, room, visited, items, depth);
      var neighbors := g.Neighbors(x);

      if |neighbors| == 1 && neighbors[0].1 !in visited {
        r := Some(moves + [neighbors[0].0]);
        OrderedAnswer(m, room, visited, items, v, depth, P, 0, neighbors[0].0, neighbors[0].1, r);
        return;
      }

      var found;
      found, v, items, depth := ScanExits(m, room, visited, q, v, x, moves, neighbors, items, depth, P);
      if found.Some? {
        return found;
      }
      Sets.RemoveShrinks(m.Keys, P, x);
      ghost var items0, P0 := items, P;
      P := P + {x};
      items := items[1..];
      OrderedFinish(m, room, visited, items0, v, depth, P0, items, P);
    }
    r := None;
    NoAnswer(m, room, visited, v, depth, P);
  }
}
