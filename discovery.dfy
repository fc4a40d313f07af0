/**
 * `populate_graph` of projects/adventure/adv.py: an explicit-stack depth-first
 * walk of the world that records every room it meets and every exit of the
 * rooms it pops.
 *
 * The world is given as an adjacency: each room id with the exits that room
 * reports, in the room's own order.
 */
module Discovery {
  import opened Wrappers
  import opened Graphs
  import opened Containers
  import Sets

  /**
   * What a finished discovery from `start` knows: rooms reachable from
   * `start`, each with exactly the exits the world gives it, and no exit
   * leading outside them.
   */
  ghost predicate Discovered(w: Adjacency, start: RoomId, m: Adjacency) {
    && start in m
    && Agrees(m, w)
    && (forall x :: x in m ==> Reachable(w, start, x))
    && Closed(m)
  }

  /** Every walk through the world from `start` stays among the discovered rooms. */
  lemma DiscoveredWalks(w: Adjacency, start: RoomId, m: Adjacency, p: seq<Dir>)
    requires Discovered(w, start, m)
    ensures Walk(w, start, p).Some? ==> Walk(w, start, p).value in m
  {
    forall x, d | x in m && Step(w, x, d).Some?
      ensures Step(w, x, d).value in m
    {
      var k :| 0 <= k < |m[x]| && m[x][k] == (d, Step(w, x, d).value);
    }
    WalksStayIn(w, m.Keys, start, p);
  }

  /** The discovered rooms are exactly the rooms reachable from `start`. */
  lemma DiscoveredReachable(w: Adjacency, start: RoomId, m: Adjacency, x: RoomId)
    requires Discovered(w, start, m)
    ensures x in m <==> Reachable(w, start, x)
  {
    if Reachable(w, start, x) {
      var p :| Walk(w, start, p) == Some(x);
      DiscoveredWalks(w, start, m, p);
    }
  }

  /** Discovery is deterministic in what it finds: re-running it gives the same graph. */
  lemma DiscoveredUnique(w: Adjacency, start: RoomId, m1: Adjacency, m2: Adjacency)
    requires Discovered(w, start, m1) && Discovered(w, start, m2)
    ensures m1 == m2
  {
    forall x ensures x in m1 <==> x in m2 {
      DiscoveredReachable(w, start, m1, x);
      DiscoveredReachable(w, start, m2, x);
    }
    assert m1.Keys == m2.Keys;
    assert forall x :: x in m1 ==> m1[x] == w[x] == m2[x];
  }

  /** A discovered graph of a well-formed world is itself well formed. */
  lemma DiscoveredWellFormed(w: Adjacency, start: RoomId, m: Adjacency)
    requires WellFormed(w) && Discovered(w, start, m)
    ensures WellFormed(m)
  {
  }

  /** In a strongly connected world discovery finds the whole world. */
  lemma DiscoveredAll(w: Adjacency, start: RoomId, m: Adjacency)
    requires StronglyConnected(w) && Discovered(w, start, m)
    ensures m == w
  {
    forall x | x in w ensures x in m {
      DiscoveredReachable(w, start, m, x);
    }
    assert forall x :: x in m ==> x in w;
    assert m.Keys == w.Keys;
    assert forall x :: x in m ==> m[x] == w[x];
  }

  /** The exits of visited rooms are complete; other vertices have none yet. */
  ghost predicate EdgesAgree(w: Adjacency, m: Adjacency, visited: set<RoomId>, except: RoomId) {
    forall x :: x in m && x != except ==> x in w && m[x] == if x in visited then w[x] else []
  }

  /** Line 110-111: `room_id` becomes a vertex only when it is not one yet. */
  function AddIfAbsent(m: Adjacency, x: RoomId): (m': Adjacency)
    ensures x in m' && m.Keys <= m'.Keys
    ensures forall y :: y in m ==> m'[y] == m[y]
  {
    if x in m then m else m[x := []]
  }

  /** Lines 117-124 for one exit `d` of `r` leading to `t`: `t` made a vertex if absent, then the edge recorded. */
  function AfterExit(m: Adjacency, r: RoomId, d: Dir, t: RoomId): (m': Adjacency)
    requires r in m
    ensures r in m' && m'.Keys == m.Keys + {t}
  {
    var m1 := AddIfAbsent(m, t);
    m1[r := SetEdge(m1[r], d, t)]
  }

  /** The graph after the exits `es` of `r` have been recorded in order. */
  function RecordExits(m: Adjacency, r: RoomId, es: Edges): (m': Adjacency)
    requires r in m
    ensures r in m' && m.Keys <= m'.Keys
    decreases |es|
  {
    if es == [] then m
    else AfterExit(RecordExits(m, r, es[..|es| - 1]), r, es[|es| - 1].0, es[|es| - 1].1)
  }

  /** Lines 127-128: the targets of `es` pushed because they are not visited, in push order. */
  function Pushes(es: Edges, visited: set<RoomId>): seq<RoomId>
    decreases |es|
  {
    if es == [] then []
    else Pushes(es[..|es| - 1], visited) + (if es[|es| - 1].1 !in visited then [es[|es| - 1].1] else [])
  }

  /** Recording exits adds exactly their targets as vertices. */
  lemma {:induction false} RecordExitsKeys(m: Adjacency, r: RoomId, es: Edges, x: RoomId)
    requires r in m
    ensures x in RecordExits(m, r, es) <==> x in m || exists i :: 0 <= i < |es| && es[i].1 == x
    decreases |es|
  {
    if es != [] {
      var n := |es| - 1;
      RecordExitsKeys(m, r, es[..n], x);
      if x in RecordExits(m, r, es[..n]) && x !in m {
        var i :| 0 <= i < n && es[..n][i].1 == x;
        assert es[i].1 == x;
      }
      if !(x in m) && (exists i :: 0 <= i < |es| && es[i].1 == x) {
        var i :| 0 <= i < |es| && es[i].1 == x;
        if i < n {
          assert es[..n][i].1 == x;
        }
      }
    }
  }

  /** Only unvisited targets of the exits are pushed. */
  lemma {:induction false} PushesSound(es: Edges, visited: set<RoomId>, x: RoomId)
    ensures x in Pushes(es, visited) ==> x !in visited && exists i :: 0 <= i < |es| && es[i].1 == x
    decreases |es|
  {
    if es != [] {
      var n := |es| - 1;
      var front := es[..n];
      assert Pushes(es, visited) == Pushes(front, visited) + (if es[n].1 !in visited then [es[n].1] else []);
      PushesSound(front, visited, x);
      if x in Pushes(front, visited) {
        var i :| 0 <= i < n && front[i].1 == x;
        assert es[i].1 == x;
      }
    }
  }

  /** Every unvisited target of the exits is pushed. */
  lemma {:induction false} PushesComplete(es: Edges, visited: set<RoomId>, i: nat)
    requires i < |es| && es[i].1 !in visited
    ensures es[i].1 in Pushes(es, visited)
    decreases |es|
  {
    var n := |es| - 1;
    var front := es[..n];
    assert Pushes(es, visited) == Pushes(front, visited) + (if es[n].1 !in visited then [es[n].1] else []);
    if i < n {
      assert front[i] == es[i];
      PushesComplete(front, visited, i);
    }
  }

  /** A room is pushed exactly when it is an unvisited target of the exits. */
  lemma PushesMembers(es: Edges, visited: set<RoomId>, x: RoomId)
    ensures x in Pushes(es, visited) <==> x !in visited && exists i :: 0 <= i < |es| && es[i].1 == x
  {
    PushesSound(es, visited, x);
    if x !in visited && exists i :: 0 <= i < |es| && es[i].1 == x {
      var i :| 0 <= i < |es| && es[i].1 == x;
      PushesComplete(es, visited, i);
    }
  }

  /**
   * What holds of the graph while the exits of `r` are being recorded,
   * the first `j` of them done.
   */
  ghost predicate ExitsInv(w: Adjacency, start: RoomId, m: Adjacency, visited: set<RoomId>,
                           r: RoomId, j: nat)
  {
    && WellFormed(w) && r in w && j <= |w[r]|
    && r in m && visited <= m.Keys <= w.Keys
    && WellFormed(m)
    && m[r] == (if r in visited then w[r] else w[r][..j])
    && EdgesAgree(w, m, visited, r)
    && (forall x :: x in m ==> Reachable(w, start, x))
  }

  /** Recording an exit of a reachable room adds only a reachable room. */
  lemma ExitReachable(w: Adjacency, start: RoomId, m: Adjacency, r: RoomId, d: Dir, t: RoomId)
    requires r in m && Reachable(w, start, r) && Step(w, r, d) == Some(t)
    requires forall x :: x in m ==> Reachable(w, start, x)
    ensures forall x :: x in AfterExit(m, r, d, t) ==> Reachable(w, start, x)
  {
    var p :| Walk(w, start, p) == Some(r);
    assert Walk(w, start, p + [d]) == Some(t) by {
      assert (p + [d])[..|p|] == p;
    }
    assert AfterExit(m, r, d, t).Keys == m.Keys + {t};
  }

  /** Recording an exit keeps the graph well formed. */
  lemma ExitWellFormed(m: Adjacency, r: RoomId, d: Dir, t: RoomId)
    requires WellFormed(m) && r in m
    ensures WellFormed(AfterExit(m, r, d, t))
  {
    var m1: Adjacency := AddIfAbsent(m, t);
    var m2: Adjacency := AfterExit(m, r, d, t);
    assert WellFormed(m1);
    SetEdgeShape(m1[r], d, t);
    forall x: RoomId, k: int | x in m2 && 0 <= k < |m2[x]| ensures m2[x][k].1 in m2 {
      if x == r && m2[x][k] != (d, t) {
        var i :| 0 <= i < |m1[r]| && m1[r][i] == m2[x][k];
      }
    }
  }

  /** Recording exit `j` of `r` extends its recorded exits by that one and leaves the other rooms' exits alone. */
  lemma ExitEdges(w: Adjacency, m: Adjacency, visited: set<RoomId>, r: RoomId, j: nat)
    requires WellFormed(w) && r in w && j < |w[r]| && w[r][j].1 in w
    requires r in m && visited <= m.Keys
    requires m[r] == (if r in visited then w[r] else w[r][..j])
    requires EdgesAgree(w, m, visited, r)
    ensures var m2 := AfterExit(m, r, w[r][j].0, w[r][j].1);
            && m2[r] == (if r in visited then w[r] else w[r][..j + 1])
            && EdgesAgree(w, m2, visited, r)
  {
    var exits := w[r];
    var (d, t) := exits[j];
    var m1 := AddIfAbsent(m, t);
    assert m1[r] == m[r];
    if r in visited {
      SetEdgeExisting(exits, j);
    } else {
      assert forall k :: 0 <= k < j ==> exits[..j][k].0 != d by {
        forall k | 0 <= k < j ensures exits[..j][k].0 != d {
          assert exits[..j][k] == exits[k];
        }
      }
      SetEdgeAppend(exits[..j], d, t);
      assert exits[..j] + [(d, t)] == exits[..j + 1];
    }
  }

  /** Recording the next exit keeps the invariant. */
  lemma ExitStep(w: Adjacency, start: RoomId, m: Adjacency, visited: set<RoomId>, r: RoomId, j: nat)
    requires ExitsInv(w, start, m, visited, r, j) && j < |w[r]|
    ensures ExitsInv(w, start, AfterExit(m, r, w[r][j].0, w[r][j].1), visited, r, j + 1)
  {
    var (d, t) := w[r][j];
    LookupAt(w[r], j);
    ExitReachable(w, start, m, r, d, t);
    ExitWellFormed(m, r, d, t);
    ExitEdges(w, m, visited, r, j);
  }

  /** Recording the first `j` exits of `r` keeps the invariant. */
  lemma {:induction false} ExitsLoop(w: Adjacency, start: RoomId, m: Adjacency, visited: set<RoomId>,
                                     r: RoomId, j: nat)
    requires ExitsInv(w, start, m, visited, r, 0) && j <= |w[r]|
    ensures ExitsInv(w, start, RecordExits(m, r, w[r][..j]), visited, r, j)
  {
    if j > 0 {
      ExitsLoop(w, start, m, visited, r, j - 1);
      assert w[r][..j][..j - 1] == w[r][..j - 1];
      ExitStep(w, start, RecordExits(m, r, w[r][..j - 1]), visited, r, j - 1);
    }
  }

  /** Every room on the stack is a room of the world reachable from `start`. */
  ghost predicate StackOk(w: Adjacency, start: RoomId, items: seq<RoomId>) {
    forall k :: 0 <= k < |items| ==> items[k] in w && Reachable(w, start, items[k])
  }

  /** Every vertex is visited or still waits on the stack. */
  ghost predicate Pending(m: Adjacency, visited: set<RoomId>, items: seq<RoomId>) {
    forall x :: x in m ==> x in visited || x in items
  }

  /** The graph so far: visited rooms have all their exits, the others none. */
  ghost predicate GraphOk(w: Adjacency, start: RoomId, m: Adjacency, visited: set<RoomId>) {
    && visited <= m.Keys <= w.Keys
    && WellFormed(m)
    && (forall x :: x in m ==> x in w && m[x] == if x in visited then w[x] else [])
    && (forall x :: x in m ==> Reachable(w, start, x))
  }

  /**
   * What holds of the graph, the stack and the visited set at the head of the
   * loop of lines 106-130.
   */
  ghost predicate PopInv(w: Adjacency, start: RoomId, m: Adjacency, items: seq<RoomId>, visited: set<RoomId>)
  {
    && WellFormed(w) && start in w
    && (start in m || start in items)
    && StackOk(w, start, items)
    && GraphOk(w, start, m, visited)
    && Pending(m, visited, items)
  }

  lemma StackStep(w: Adjacency, start: RoomId, rest: seq<RoomId>, t: RoomId, visited: set<RoomId>)
    requires WellFormed(w) && t in w && Reachable(w, start, t) && StackOk(w, start, rest)
    ensures StackOk(w, start, rest + Pushes(w[t], visited))
  {
    var items' := rest + Pushes(w[t], visited);
    forall k | |rest| <= k < |items'| ensures items'[k] in w && Reachable(w, start, items'[k]) {
      var x := items'[k];
      assert x in Pushes(w[t], visited);
      PushesMembers(w[t], visited, x);
      var i :| 0 <= i < |w[t]| && w[t][i].1 == x;
      var p :| Walk(w, start, p) == Some(t);
      LookupAt(w[t], i);
      assert Walk(w, start, p + [w[t][i].0]) == Some(x) by {
        assert (p + [w[t][i].0])[..|p|] == p;
      }
    }
  }

  lemma PendingStep(w: Adjacency, m: Adjacency, rest: seq<RoomId>, t: RoomId, visited: set<RoomId>)
    requires visited <= m.Keys && t in w
    requires Pending(m, visited, rest + [t])
    ensures Pending(RecordExits(AddIfAbsent(m, t), t, w[t]), visited + {t}, rest + Pushes(w[t], visited))
  {
    var m0 := AddIfAbsent(m, t);
    var m1 := RecordExits(m0, t, w[t]);
    var items' := rest + Pushes(w[t], visited);
    forall x | x in m1 ensures x in visited + {t} || x in items' {
      RecordExitsKeys(m0, t, w[t], x);
      if x != t && x in m {
        assert x in visited || x in rest + [t];
      } else if x !in m0 {
        PushesMembers(w[t], visited, x);
        assert x in Pushes(w[t], visited);
      }
    }
  }

  lemma GraphStep(w: Adjacency, start: RoomId, m: Adjacency, t: RoomId, visited: set<RoomId>)
    requires WellFormed(w) && t in w && Reachable(w, start, t) && GraphOk(w, start, m, visited)
    ensures GraphOk(w, start, RecordExits(AddIfAbsent(m, t), t, w[t]), visited + {t})
  {
    var m0 := AddIfAbsent(m, t);
    assert ExitsInv(w, start, m0, visited, t, 0);
    ExitsLoop(w, start, m0, visited, t, |w[t]|);
    assert w[t][..|w[t]|] == w[t];
  }

  /** One pass of the loop body keeps the invariant. */
  lemma PopStep(w: Adjacency, start: RoomId, m: Adjacency, items: seq<RoomId>, visited: set<RoomId>)
    requires PopInv(w, start, m, items, visited) && items != []
    ensures items[|items| - 1] in w
    ensures PopInv(w, start, RecordExits(AddIfAbsent(m, items[|items| - 1]), items[|items| - 1], w[items[|items| - 1]]),
                   items[..|items| - 1] + Pushes(w[items[|items| - 1]], visited), visited + {items[|items| - 1]})
  {
    var n := |items| - 1;
    var t := items[n];
    var rest := items[..n];
    assert items == rest + [t];
    assert StackOk(w, start, rest);
    StackStep(w, start, rest, t, visited);
    PendingStep(w, m, rest, t, visited);
    GraphStep(w, start, m, t, visited);
  }

  /** With the stack empty, the graph is the discovered part of the world. */
  lemma PopDone(w: Adjacency, start: RoomId, m: Adjacency, visited: set<RoomId>)
    requires PopInv(w, start, m, [], visited)
    ensures WellFormed(m) && Discovered(w, start, m)
  {
  }

  /**
   * Lines 113-128: the exits of the popped room `roomId`, each target made a
   * vertex if absent, the exit recorded, and the target pushed unless visited.
   */
  method ExploreExits(w: Adjacency, g: Graph, s: Stack<RoomId>, roomId: RoomId, visited: set<RoomId>)
    requires roomId in w && roomId in g.vertices
    modifies g, s
    ensures g.vertices == RecordExits(old(g.vertices), roomId, w[roomId])
    ensures s.items == old(s.items) + Pushes(w[roomId], visited)
  {
    var exits := w[roomId];
    for j := 0 to |exits|
      invariant g.vertices == RecordExits(old(g.vertices), roomId, exits[..j])
      invariant s.items == old(s.items) + Pushes(exits[..j], visited)
    {
      assert exits[..j + 1][..j] == exits[..j];
      var (direction, nextId) := exits[j];
      ghost var m, items := g.vertices, s.items;
      assert RecordExits(old(g.vertices), roomId, exits[..j + 1]) == AfterExit(m, roomId, direction, nextId);
      assert Pushes(exits[..j + 1], visited) == Pushes(exits[..j], visited) + (if nextId !in visited then [nextId] else []);
      if nextId !in g.vertices {
        g.AddVertex(nextId);
      }
      g.AddEdge(roomId, nextId, direction);
      assert g.vertices == AfterExit(m, roomId, direction, nextId);
      if nextId !in visited {
        s.Push(nextId);
      }
      assert s.items == items + (if nextId !in visited then [nextId] else []);
      assert s.items == old(s.items) + Pushes(exits[..j + 1], visited) by {
        if nextId !in visited {
          assert (old(s.items) + Pushes(exits[..j], visited)) + [nextId] == old(s.items) + (Pushes(exits[..j], visited) + [nextId]);
        }
      }
    }
    assert exits[..|exits|] == exits;
  }

  /** 0 when the room on top of the stack is still unvisited, 1 otherwise: part of the termination measure. */
  function TopSettled(items: seq<RoomId>, visited: set<RoomId>): nat {
    if |items| > 0 && items[|items| - 1] !in visited then 0 else 1
  }

  /**
   * One pass of the loop of lines 106-130 decreases (unvisited rooms, whether
   * the top is visited, stack height) lexicographically: popping an unvisited
   * room visits it; popping a visited room either pushes nothing, so the stack
   * shrinks, or pushes an unvisited room, which is then on top.
   */
  lemma PopDecreases(w: Adjacency, items: seq<RoomId>, visited: set<RoomId>)
    requires items != [] && items[|items| - 1] in w
    ensures var t := items[|items| - 1];
            var items' := items[..|items| - 1] + Pushes(w[t], visited);
            var visited' := visited + {t};
            |w.Keys - visited'| < |w.Keys - visited| ||
            (|w.Keys - visited'| == |w.Keys - visited| &&
             (TopSettled(items', visited') < TopSettled(items, visited) ||
              (TopSettled(items', visited') == TopSettled(items, visited) && |items'| < |items|)))
  {
    var t := items[|items| - 1];
    var pushed := Pushes(w[t], visited);
    var items' := items[..|items| - 1] + pushed;
    if t !in visited {
      Sets.RemoveShrinks(w.Keys, visited, t);
    } else {
      assert visited + {t} == visited;
      if pushed != [] {
        assert items'[|items'| - 1] == pushed[|pushed| - 1];
        PushesMembers(w[t], visited, pushed[|pushed| - 1]);
      }
    }
  }

  /**
   * Lines 107-128: pops a room, makes it a vertex if it is not one, and
   * records its exits.
   */
  method ProcessTop(w: Adjacency, g: Graph, s: Stack<RoomId>, visited: set<RoomId>) returns (roomId: RoomId)
    requires s.items != [] && s.items[|s.items| - 1] in w
    modifies g, s
    ensures roomId == old(s.items)[|old(s.items)| - 1]
    ensures g.vertices == RecordExits(AddIfAbsent(old(g.vertices), roomId), roomId, w[roomId])
    ensures s.items == old(s.items)[..|old(s.items)| - 1] + Pushes(w[roomId], visited)
  {
    var top := s.Pop();
    roomId := top.value;
    if roomId !in g.vertices {
      g.AddVertex(roomId);
    }
    ExploreExits(w, g, s, roomId, visited);
  }

  /** At the start of the loop only `start` is on the stack and nothing is known. */
  lemma PopInit(w: Adjacency, start: RoomId)
    requires WellFormed(w) && start in w
    ensures PopInv(w, start, map[], [start], {})
  {
    assert Walk(w, start, []) == Some(start);
  }

  /**
   * Lines 100-130: depth-first discovery from `start` into the empty graph
   * `g`, with an explicit stack and a set of visited rooms. `g` ends up
   * holding exactly the rooms reachable from `start`, each with exactly the
   * exits the world gives it.
   */
  method PopulateGraph(w: Adjacency, start: RoomId, g: Graph)
    requires WellFormed(w) && start in w
    requires g.vertices == map[]
    modifies g
    ensures WellFormed(g.vertices)
    ensures Discovered(w, start, g.vertices)
  {
    var s := new Stack<RoomId>();
    s.Push(start);
    var visited: set<RoomId> := {};
    PopInit(w, start);
    // `m` and `items` mirror the graph and the stack, so that the loop's
    // reasoning is about values
    ghost var m, items := g.vertices, s.items;
    while s.Size() > 0
      invariant fresh(s)
      invariant g.vertices == m && s.items == items
      invariant PopInv(w, start, m, items, visited)
      decreases |w.Keys - visited|, TopSettled(items, visited), |items|
    {
      PopStep(w, start, m, items, visited);
      PopDecreases(w, items, visited);
      var roomId := ProcessTop(w, g, s, visited);
      m, items := g.vertices, s.items;
      visited := visited + {roomId};
    }
    assert items == [];
    PopDone(w, start, m, visited);
  }
}
