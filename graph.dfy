/**
 * The graph model of projects/adventure/adv.py: a dictionary from room id to
 * that room's exits, and walks along those exits.
 *
 * A room's exits are a Python dictionary from direction to room id, whose
 * iteration order is insertion order; it is modelled as a sequence of
 * (direction, room) pairs with pairwise distinct directions.
 */
module Graphs {
  import opened Wrappers

  type RoomId = int
  type Dir = string
  type Edges = seq<(Dir, RoomId)>
  type Adjacency = map<RoomId, Edges>

  /** No direction occurs twice among a room's exits (they are dictionary keys). */
  predicate DistinctDirs(e: Edges) {
    forall i, j :: 0 <= i < j < |e| ==> e[i].0 != e[j].0
  }

  /** Every exit leads to a room that is itself a key. */
  predicate Closed(m: Adjacency) {
    forall x, k :: x in m && 0 <= k < |m[x]| ==> m[x][k].1 in m
  }

  predicate WellFormed(m: Adjacency) {
    Closed(m) && forall x :: x in m ==> DistinctDirs(m[x])
  }

  /** The dictionary lookup `edges[d]`, or `None` when `d` is not a key. */
  function Lookup(e: Edges, d: Dir): (r: Option<RoomId>)
    ensures r.Some? ==> (d, r.value) in e
    ensures r.None? <==> forall k :: 0 <= k < |e| ==> e[k].0 != d
  {
    if e == [] then None
    else if e[0].0 == d then Some(e[0].1)
    else Lookup(e[1..], d)
  }

  lemma {:induction false} LookupAt(e: Edges, k: nat)
    requires DistinctDirs(e) && k < |e|
    ensures Lookup(e, e[k].0) == Some(e[k].1)
  {
    if k > 0 {
      assert e[0].0 != e[k].0;
      LookupAt(e[1..], k - 1);
    }
  }

  /** The dictionary assignment `edges[d] := t`: an existing key keeps its place, a new key goes last. */
  function SetEdge(e: Edges, d: Dir, t: RoomId): (r: Edges)
    ensures |r| == |e| || |r| == |e| + 1
  {
    if e == [] then [(d, t)]
    else if e[0].0 == d then [(d, t)] + e[1..]
    else [e[0]] + SetEdge(e[1..], d, t)
  }

  /** After `edges[d] := t`, `d` leads to `t` and every other direction is as before. */
  lemma {:induction false} SetEdgeLookup(e: Edges, d: Dir, t: RoomId)
    ensures Lookup(SetEdge(e, d, t), d) == Some(t)
    ensures forall d' :: d' != d ==> Lookup(SetEdge(e, d, t), d') == Lookup(e, d')
  {
    if e != [] && e[0].0 != d {
      SetEdgeLookup(e[1..], d, t);
    }
  }

  /** The exits after `edges[d] := t` are the new one and old ones, without repeated directions. */
  lemma {:induction false} SetEdgeShape(e: Edges, d: Dir, t: RoomId)
    ensures forall k :: 0 <= k < |SetEdge(e, d, t)| ==> SetEdge(e, d, t)[k] == (d, t) || SetEdge(e, d, t)[k] in e
    ensures DistinctDirs(e) ==> DistinctDirs(SetEdge(e, d, t))
  {
    if e != [] && e[0].0 != d {
      SetEdgeShape(e[1..], d, t);
      SetEdgeLookup(e[1..], d, t);
      var r := SetEdge(e, d, t);
      if DistinctDirs(e) {
        forall i, j | 0 <= i < j < |r| ensures r[i].0 != r[j].0 {
          if i == 0 {
            var q := r[j];
            if q != (d, t) {
              assert q in e[1..];
            }
          }
        }
      }
    }
  }

  /** Setting a direction that is not yet a key appends the new exit. */
  lemma {:induction false} SetEdgeAppend(e: Edges, d: Dir, t: RoomId)
    requires forall k :: 0 <= k < |e| ==> e[k].0 != d
    ensures SetEdge(e, d, t) == e + [(d, t)]
  {
    if e != [] {
      SetEdgeAppend(e[1..], d, t);
      assert [e[0]] + (e[1..] + [(d, t)]) == e + [(d, t)];
    }
  }

  /** Setting an exit to the value it already has changes nothing. */
  lemma {:induction false} SetEdgeExisting(e: Edges, k: nat)
    requires DistinctDirs(e) && k < |e|
    ensures SetEdge(e, e[k].0, e[k].1) == e
  {
    if k > 0 {
      assert e[0].0 != e[k].0;
      SetEdgeExisting(e[1..], k - 1);
      assert [e[0]] + e[1..] == e;
    } else {
      assert [e[0]] + e[1..] == e;
    }
  }

  /** The room one step away in direction `d`, if `x` is a room with that exit. */
  function Step(m: Adjacency, x: RoomId, d: Dir): Option<RoomId> {
    if x in m then Lookup(m[x], d) else None
  }

  /** Follows `p` from `r` through real exits; `None` as soon as a move has no exit. */
  function Walk(m: Adjacency, r: RoomId, p: seq<Dir>): Option<RoomId>
    decreases |p|
  {
    if p == [] then Some(r)
    else match Walk(m, r, p[..|p| - 1])
      case None => None
      case Some(y) => Step(m, y, p[|p| - 1])
  }

  /** The player's move: along the exit if there is one, otherwise it stays. */
  function Travel(m: Adjacency, x: RoomId, d: Dir): (y: RoomId)
    ensures y != x ==> x in m && (d, y) in m[x]
    ensures (x in m && exists k :: 0 <= k < |m[x]| && m[x][k].0 == d) ==> (d, y) in m[x]
  {
    match Step(m, x, d)
    case Some(y) => y
    case None => x
  }

  /** Where the player stands after replaying `p` from `r`. */
  function Position(m: Adjacency, r: RoomId, p: seq<Dir>): RoomId
    decreases |p|
  {
    if p == [] then r else Travel(m, Position(m, r, p[..|p| - 1]), p[|p| - 1])
  }

  /** Every room the player stands in while replaying `p` from `r`, `r` included. */
  function Visits(m: Adjacency, r: RoomId, p: seq<Dir>): set<RoomId>
    decreases |p|
  {
    if p == [] then {r} else Visits(m, r, p[..|p| - 1]) + {Position(m, r, p)}
  }

  ghost predicate Reachable(m: Adjacency, r: RoomId, y: RoomId) {
    exists p :: Walk(m, r, p) == Some(y)
  }

  /** Every room can be reached from every room by following exits. */
  ghost predicate StronglyConnected(m: Adjacency) {
    forall a, b :: a in m && b in m ==> Reachable(m, a, b)
  }

  /** Unfolds a walk one move before the end of a prefix. */
  lemma WalkPrefixStep(m: Adjacency, r: RoomId, s: seq<Dir>, j: nat)
    requires 0 < j <= |s|
    ensures Walk(m, r, s[..j]) == match Walk(m, r, s[..j - 1])
                                  case None => None
                                  case Some(y) => Step(m, y, s[j - 1])
  {
    assert s[..j][..j - 1] == s[..j - 1];
  }

  /** In a closed graph a walk from a room never leaves the graph. */
  lemma {:induction false} WalkStaysInside(m: Adjacency, r: RoomId, p: seq<Dir>)
    requires Closed(m) && r in m
    ensures Walk(m, r, p).Some? ==> Walk(m, r, p).value in m
  {
    if p != [] {
      WalkStaysInside(m, r, p[..|p| - 1]);
    }
  }

  /** A valid walk ends where the player ends when replaying it. */
  lemma {:induction false} WalkIsPosition(m: Adjacency, r: RoomId, p: seq<Dir>)
    requires Walk(m, r, p).Some?
    ensures Position(m, r, p) == Walk(m, r, p).value
  {
    if p != [] {
      WalkIsPosition(m, r, p[..|p| - 1]);
    }
  }

  /** Replaying from a room of a closed graph stays among its rooms. */
  lemma {:induction false} VisitsInside(m: Adjacency, r: RoomId, p: seq<Dir>)
    requires Closed(m) && r in m
    ensures Position(m, r, p) in m && Visits(m, r, p) <= m.Keys
  {
    if p != [] {
      VisitsInside(m, r, p[..|p| - 1]);
      var x := Position(m, r, p[..|p| - 1]);
      var d := p[|p| - 1];
      if Step(m, x, d).Some? {
        var k :| 0 <= k < |m[x]| && m[x][k] == (d, Step(m, x, d).value);
      }
    }
  }

  /** A set of rooms that holds `r` and is closed under steps holds every walk's end. */
  lemma {:induction false} WalksStayIn(m: Adjacency, s: set<RoomId>, r: RoomId, p: seq<Dir>)
    requires r in s
    requires forall x, d :: x in s && Step(m, x, d).Some? ==> Step(m, x, d).value in s
    ensures Walk(m, r, p).Some? ==> Walk(m, r, p).value in s
  {
    if p != [] {
      WalksStayIn(m, s, r, p[..|p| - 1]);
    }
  }

  /** Every room of `m` is a room of `w` with the same exits. */
  ghost predicate Agrees(m: Adjacency, w: Adjacency) {
    forall x :: x in m ==> x in w && m[x] == w[x]
  }

  /** Replaying `p` and then `f` ends where replaying `f` from the end of `p` ends. */
  lemma {:induction false} PositionAppend(m: Adjacency, r: RoomId, p: seq<Dir>, f: seq<Dir>)
    ensures Position(m, r, p + f) == Position(m, Position(m, r, p), f)
    decreases |f|
  {
    if f == [] {
      assert p + f == p;
    } else {
      var n := |f| - 1;
      PositionAppend(m, r, p, f[..n]);
      assert (p + f)[..|p + f| - 1] == p + f[..n];
    }
  }

  /** Replaying `p` and then `f` visits the rooms of `p` and those of `f` from where `p` ends. */
  lemma {:induction false} VisitsAppend(m: Adjacency, r: RoomId, p: seq<Dir>, f: seq<Dir>)
    ensures Visits(m, r, p + f) == Visits(m, r, p) + Visits(m, Position(m, r, p), f)
    decreases |f|
  {
    if f == [] {
      assert p + f == p;
    } else {
      var n := |f| - 1;
      VisitsAppend(m, r, p, f[..n]);
      PositionAppend(m, r, p, f);
      assert (p + f)[..|p + f| - 1] == p + f[..n];
    }
  }

  /**
   * Replaying inside a closed graph that agrees with `w` visits the same
   * rooms as replaying in `w`.
   */
  lemma {:induction false} AgreeReplay(w: Adjacency, m: Adjacency, r: RoomId, p: seq<Dir>)
    requires Agrees(m, w) && Closed(m) && r in m
    ensures Position(w, r, p) == Position(m, r, p) && Visits(w, r, p) == Visits(m, r, p)
    decreases |p|
  {
    if p != [] {
      AgreeReplay(w, m, r, p[..|p| - 1]);
      VisitsInside(m, r, p[..|p| - 1]);
    }
  }

  /** The room the replay ends in is one of the rooms it visits. */
  lemma PositionVisited(m: Adjacency, r: RoomId, p: seq<Dir>)
    ensures Position(m, r, p) in Visits(m, r, p)
  {
  }

  /**
   * The graph being built: `vertices` maps each room id to its exits.
   */
  class Graph {
    var vertices: Adjacency

    constructor ()
      ensures vertices == map[]
    {
      vertices := map[];
    }

    /** Makes `id` a vertex without exits, overwriting whatever it had. */
    method AddVertex(id: RoomId)
      modifies this
      ensures vertices == old(vertices)[id := []]
      ensures WellFormed(old(vertices)) ==> WellFormed(vertices)
    {
      vertices := vertices[id := []];
    }

    /** Records the exit `d` from `v1` to `v2`, only when both are vertices. */
    method AddEdge(v1: RoomId, v2: RoomId, d: Dir)
      modifies this
      ensures v1 in old(vertices) && v2 in old(vertices) ==>
                vertices == old(vertices)[v1 := SetEdge(old(vertices)[v1], d, v2)]
      ensures !(v1 in old(vertices) && v2 in old(vertices)) ==> vertices == old(vertices)
      ensures WellFormed(old(vertices)) ==> WellFormed(vertices)
    {
      if v1 in vertices && v2 in vertices {
        SetEdgeShape(vertices[v1], d, v2);
        vertices := vertices[v1 := SetEdge(vertices[v1], d, v2)];
        if WellFormed(old(vertices)) {
          forall x, k | x in vertices && 0 <= k < |vertices[x]|
            ensures vertices[x][k].1 in vertices
          {
            if x == v1 && vertices[x][k] != (d, v2) {
              var i :| 0 <= i < |old(vertices)[v1]| && old(vertices)[v1][i] == vertices[x][k];
            }
          }
        }
      }
    }

    /** The exits of a vertex; in a closed graph they lead to vertices. */
    function Neighbors(id: RoomId): (e: Edges)
      reads this
      requires id in vertices
      ensures Closed(vertices) ==> forall k :: 0 <= k < |e| ==> e[k].1 in vertices
      ensures WellFormed(vertices) ==> DistinctDirs(e)
    {
      vertices[id]
    }
  }
}
