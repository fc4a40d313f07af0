/**
 * The invariant of the breadth-first search in `find_next_path` of
 * projects/adventure/adv.py, and the lemmas that carry it from step to step.
 *
 * A queue item is the dictionary `{room: moves}` of the source, modelled as
 * the pair (room, moves).
 */
module BreadthFirst {
  import opened Wrappers
  import opened Graphs
  import opened Paths

  type Item = (RoomId, seq<Dir>)

  // ---------------------------------------------------------------------
  // The search invariant, in parts. `q` is the queue (its front possibly
  // being expanded), `v` the rooms ever enqueued, `depth` the number of moves
  // with which each of them was enqueued, `P` the rooms whose exits have all
  // been examined.

  /** Each queued path is a walk through passable rooms to its room, enqueued at its length. */
  ghost predicate QueueOk(m: Adjacency, room: RoomId, visited: set<RoomId>, q: seq<Item>, depth: map<RoomId, nat>) {
    forall k :: 0 <= k < |q| ==>
      && Inside(m, room, visited, q[k].1)
      && Walk(m, room, q[k].1) == Some(q[k].0)
      && q[k].0 in depth && depth[q[k].0] == |q[k].1|
  }

  /** Queue lengths never decrease from front to back and span at most one move. */
  ghost predicate Layered(q: seq<Item>) {
    forall i, j :: 0 <= i < j < |q| ==> |q[i].1| <= |q[j].1| <= |q[i].1| + 1
  }

  /** The bookkeeping sets: each room is queued once, and the rooms not yet expanded are exactly the queued ones. */
  ghost predicate Bookkeeping(m: Adjacency, q: seq<Item>, v: set<RoomId>, depth: map<RoomId, nat>, P: set<RoomId>) {
    && v == depth.Keys && P <= v && v <= m.Keys
    && (forall i, j :: 0 <= i < j < |q| ==> q[i].0 != q[j].0)
    && (forall k :: 0 <= k < |q| ==> q[k].0 in v && q[k].0 !in P)
    && (forall x :: x in v && x !in P ==> exists k :: 0 <= k < |q| && q[k].0 == x)
    && (forall x, k :: x in P && 0 <= k < |q| ==> depth[x] <= |q[k].1|)
  }

  /** An expanded room leads only to visited rooms, each enqueued at most one move deeper. */
  ghost predicate Processed(m: Adjacency, visited: set<RoomId>, depth: map<RoomId, nat>, P: set<RoomId>) {
    forall x, k :: x in P && x in m && x in depth && 0 <= k < |m[x]| ==>
      m[x][k].1 in visited && m[x][k].1 in depth && depth[m[x][k].1] <= depth[x] + 1
  }

  /** The walk ends in a room that has not been expanded. */
  predicate EndsOutside(m: Adjacency, room: RoomId, s: seq<Dir>, P: set<RoomId>) {
    match Walk(m, room, s)
    case None => false
    case Some(y) => y !in P
  }

  /** `o` is a room enqueued at depth at most `i` and not expanded yet. */
  predicate Waits(depth: map<RoomId, nat>, P: set<RoomId>, o: Option<RoomId>, i: nat) {
    o.Some? && o.value in depth && o.value !in P && depth[o.value] <= i
  }

  /**
   * Breadth-first coverage: every passable walk that ends outside the
   * expanded rooms passes, after `i` moves, a queued room enqueued within
   * `i` moves.
   */
  ghost predicate Covered(m: Adjacency, room: RoomId, visited: set<RoomId>, depth: map<RoomId, nat>, P: set<RoomId>) {
    forall s :: Inside(m, room, visited, s) && EndsOutside(m, room, s, P) ==>
      exists i :: 0 <= i <= |s| && Waits(depth, P, Walk(m, room, s[..i]), i)
  }

  /** The whole invariant of the loop of lines 140-170. */
  ghost predicate Search(m: Adjacency, room: RoomId, visited: set<RoomId>, q: seq<Item>,
                         v: set<RoomId>, depth: map<RoomId, nat>, P: set<RoomId>) {
    && WellFormed(m) && room in m
    && QueueOk(m, room, visited, q, depth)
    && Layered(q)
    && Bookkeeping(m, q, v, depth, P)
    && Processed(m, visited, depth, P)
    && Covered(m, room, visited, depth, P)
    && (P == {} ==> q != [] && q[0] == (room, []))
    && (P != {} ==> room in P)
  }

  // ---------------------------------------------------------------------
  // Lemmas about single search steps.

  /** Lines 134-138: only `room` is queued, with no moves. */
  lemma SearchInit(m: Adjacency, room: RoomId, visited: set<RoomId>)
    requires WellFormed(m) && room in m
    ensures Search(m, room, visited, [(room, [])], {room}, map[room := 0], {})
  {
    assert Walk(m, room, []) == Some(room);
    var depth: map<RoomId, nat> := map[room := 0];
    forall s | Inside(m, room, visited, s) && EndsOutside(m, room, s, {})
      ensures exists i :: 0 <= i <= |s| && Waits(depth, {}, Walk(m, room, s[..i]), i)
    {
      assert s[..0] == [];
      assert Waits(depth, {}, Walk(m, room, s[..0]), 0);
    }
  }

  /** Moving one exit further from a passable, queued room. */
  lemma InsideExtend(m: Adjacency, room: RoomId, visited: set<RoomId>, p: seq<Dir>, x: RoomId, k: nat)
    requires WellFormed(m) && x in m && k < |m[x]|
    requires Inside(m, room, visited, p) && Walk(m, room, p) == Some(x)
    ensures Walk(m, room, p + [m[x][k].0]) == Some(m[x][k].1)
    ensures m[x][k].1 in visited ==> Inside(m, room, visited, p + [m[x][k].0])
  {
    var p' := p + [m[x][k].0];
    assert p'[..|p|] == p;
    LookupAt(m[x], k);
    if m[x][k].1 in visited {
      forall i | 0 <= i <= |p'|
        ensures Walk(m, room, p'[..i]).Some? && Passable(visited, room, Walk(m, room, p'[..i]).value)
      {
        if i <= |p| {
          assert p'[..i] == p[..i];
        } else {
          assert p'[..i] == p';
        }
      }
    }
  }

  /** The front room of a nonempty queue is a room of the graph. */
  lemma FrontInGraph(m: Adjacency, room: RoomId, visited: set<RoomId>, q: seq<Item>, depth: map<RoomId, nat>)
    requires WellFormed(m) && room in m && QueueOk(m, room, visited, q, depth) && q != []
    ensures q[0].0 in m
  {
    WalkStaysInside(m, room, q[0].1);
  }

  lemma QueueOkEnqueue(m: Adjacency, room: RoomId, visited: set<RoomId>, q: seq<Item>,
                       depth: map<RoomId, nat>, k: nat)
    requires WellFormed(m) && room in m && QueueOk(m, room, visited, q, depth) && q != []
    requires forall i, j :: 0 <= i < j < |q| ==> q[i].0 != q[j].0
    requires q[0].0 in m && k < |m[q[0].0]|
    requires m[q[0].0][k].1 in visited && m[q[0].0][k].1 !in depth
    ensures var y := m[q[0].0][k].1;
            QueueOk(m, room, visited, q + [(y, q[0].1 + [m[q[0].0][k].0])], depth[y := |q[0].1| + 1])
  {
    var (x, p) := q[0];
    var (d, y) := m[x][k];
    var q' := q + [(y, p + [d])];
    var depth' := depth[y := |p| + 1];
    InsideExtend(m, room, visited, p, x, k);
    forall j | 0 <= j < |q'|
      ensures Inside(m, room, visited, q'[j].1) && Walk(m, room, q'[j].1) == Some(q'[j].0)
      ensures q'[j].0 in depth' && depth'[q'[j].0] == |q'[j].1|
    {
      if j < |q| {
        assert q'[j] == q[j];
      }
    }
  }

  lemma LayeredEnqueue(q: seq<Item>, y: RoomId, p: seq<Dir>)
    requires Layered(q) && q != [] && |p| == |q[0].1| + 1
    ensures Layered(q + [(y, p)])
  {
    var q' := q + [(y, p)];
    forall i, j | 0 <= i < j < |q'| ensures |q'[i].1| <= |q'[j].1| <= |q'[i].1| + 1 {
      if j == |q| && i > 0 {
        assert |q[0].1| <= |q[i].1|;
      }
    }
  }

  lemma BookkeepingEnqueue(m: Adjacency, q: seq<Item>, v: set<RoomId>, depth: map<RoomId, nat>,
                           P: set<RoomId>, y: RoomId, p: seq<Dir>)
    requires Bookkeeping(m, q, v, depth, P) && q != [] && y in m && y !in v && |p| == |q[0].1| + 1
    ensures Bookkeeping(m, q + [(y, p)], v + {y}, depth[y := |p|], P)
  {
    var q' := q + [(y, p)];
    var depth' := depth[y := |p|];
    forall z | z in v + {y} && z !in P
      ensures exists j :: 0 <= j < |q'| && q'[j].0 == z
    {
      if z == y {
        assert q'[|q|].0 == y;
      } else {
        var j :| 0 <= j < |q| && q[j].0 == z;
        assert q'[j].0 == z;
      }
    }
    forall z, j | z in P && 0 <= j < |q'| ensures depth'[z] <= |q'[j].1| {
      if j == |q| {
        assert depth[z] <= |q[0].1|;
      } else {
        assert q'[j] == q[j];
      }
    }
    forall i, j | 0 <= i < j < |q'| ensures q'[i].0 != q'[j].0 {
      if j == |q| {
        assert q[i].0 in v;
      }
    }
  }

  /** Enqueuing a room not enqueued before keeps every earlier depth, so coverage is kept. */
  lemma CoveredEnqueue(m: Adjacency, room: RoomId, visited: set<RoomId>, depth: map<RoomId, nat>,
                       P: set<RoomId>, y: RoomId, n: nat)
    requires Covered(m, room, visited, depth, P) && y !in depth
    ensures Covered(m, room, visited, depth[y := n], P)
  {
    forall s | Inside(m, room, visited, s) && EndsOutside(m, room, s, P)
      ensures exists i :: 0 <= i <= |s| && Waits(depth[y := n], P, Walk(m, room, s[..i]), i)
    {
      var i :| 0 <= i <= |s| && Waits(depth, P, Walk(m, room, s[..i]), i);
      assert Waits(depth[y := n], P, Walk(m, room, s[..i]), i);
    }
  }

  lemma ProcessedEnqueue(m: Adjacency, visited: set<RoomId>, depth: map<RoomId, nat>,
                         P: set<RoomId>, y: RoomId, n: nat)
    requires Processed(m, visited, depth, P) && P <= depth.Keys && y !in depth
    ensures Processed(m, visited, depth[y := n], P)
  {
  }

  /** Lines 167-169: enqueuing a visited neighbour `y` of the front room, one move deeper. */
  lemma SearchEnqueue(m: Adjacency, room: RoomId, visited: set<RoomId>, q: seq<Item>,
                      v: set<RoomId>, depth: map<RoomId, nat>, P: set<RoomId>, k: nat,
                      d: Dir, y: RoomId, p': seq<Dir>, q': seq<Item>, v': set<RoomId>, depth': map<RoomId, nat>)
    requires Search(m, room, visited, q, v, depth, P) && q != []
    requires q[0].0 in m && k < |m[q[0].0]| && m[q[0].0][k] == (d, y)
    requires y in visited && y !in v
    requires p' == q[0].1 + [d] && q' == q + [(y, p')] && v' == v + {y} && depth' == depth[y := |p'|]
    ensures Search(m, room, visited, q', v', depth', P)
  {
    QueueOkEnqueue(m, room, visited, q, depth, k);
    LayeredEnqueue(q, y, p');
    BookkeepingEnqueue(m, q, v, depth, P, y, p');
    ProcessedEnqueue(m, visited, depth, P, y, |p'|);
    CoveredEnqueue(m, room, visited, depth, P, y, |p'|);
  }

  /**
   * Following a walk on from a prefix that ends in an expanded room, the walk
   * leaves the expanded rooms at a queued room whose depth is within its
   * number of moves.
   */
  lemma {:induction false} LeaveExpanded(m: Adjacency, room: RoomId, visited: set<RoomId>,
                                        depth: map<RoomId, nat>, P: set<RoomId>, s: seq<Dir>, i: nat)
    requires WellFormed(m) && Processed(m, visited, depth, P)
    requires Inside(m, room, visited, s) && EndsOutside(m, room, s, P)
    requires i <= |s|
    requires Walk(m, room, s[..i]).Some? && Walk(m, room, s[..i]).value in P
    requires Walk(m, room, s[..i]).value in m && Walk(m, room, s[..i]).value in depth
    requires depth[Walk(m, room, s[..i]).value] <= i
    ensures exists j :: i < j <= |s| && Waits(depth, P, Walk(m, room, s[..j]), j)
    decreases |s| - i
  {
    assert s[..|s|] == s;
    assert i < |s|;
    var u := Walk(m, room, s[..i]).value;
    WalkPrefixStep(m, room, s, i + 1);
    assert Walk(m, room, s[..i + 1]) == Lookup(m[u], s[i]);
    var y := Walk(m, room, s[..i + 1]).value;
    assert (s[i], y) in m[u];
    var k :| 0 <= k < |m[u]| && m[u][k] == (s[i], y);
    assert y in depth && depth[y] <= i + 1;
    if y !in P {
      assert Waits(depth, P, Walk(m, room, s[..i + 1]), i + 1);
    } else {
      assert y in m;
      LeaveExpanded(m, room, visited, depth, P, s, i + 1);
    }
  }

  lemma BookkeepingFinish(m: Adjacency, q: seq<Item>, v: set<RoomId>, depth: map<RoomId, nat>, P: set<RoomId>)
    requires Bookkeeping(m, q, v, depth, P) && Layered(q) && q != []
    requires q[0].0 in depth && depth[q[0].0] == |q[0].1|
    ensures Bookkeeping(m, q[1..], v, depth, P + {q[0].0})
  {
    var x := q[0].0;
    var P' := P + {x};
    var q' := q[1..];
    forall j | 0 <= j < |q'| ensures q'[j].0 in v && q'[j].0 !in P' {
      assert q'[j] == q[j + 1];
    }
    forall z | z in v && z !in P'
      ensures exists j :: 0 <= j < |q'| && q'[j].0 == z
    {
      var j :| 0 <= j < |q| && q[j].0 == z;
      assert j != 0;
      assert q'[j - 1].0 == z;
    }
    forall z, j | z in P' && 0 <= j < |q'| ensures depth[z] <= |q'[j].1| {
      assert q'[j] == q[j + 1];
    }
  }

  /** Expanding one more room keeps coverage: a walk that met it is followed on to the next queued room. */
  lemma CoveredFinish(m: Adjacency, room: RoomId, visited: set<RoomId>, depth: map<RoomId, nat>,
                      P: set<RoomId>, x: RoomId)
    requires WellFormed(m) && x in m && Covered(m, room, visited, depth, P)
    requires Processed(m, visited, depth, P + {x})
    ensures Covered(m, room, visited, depth, P + {x})
  {
    var P' := P + {x};
    forall s | Inside(m, room, visited, s) && EndsOutside(m, room, s, P')
      ensures exists i :: 0 <= i <= |s| && Waits(depth, P', Walk(m, room, s[..i]), i)
    {
      assert EndsOutside(m, room, s, P);
      var i :| 0 <= i <= |s| && Waits(depth, P, Walk(m, room, s[..i]), i);
      if Walk(m, room, s[..i]).value == x {
        LeaveExpanded(m, room, visited, depth, P', s, i);
      } else {
        assert Waits(depth, P', Walk(m, room, s[..i]), i);
      }
    }
  }

  lemma QueueOkTail(m: Adjacency, room: RoomId, visited: set<RoomId>, q: seq<Item>, depth: map<RoomId, nat>)
    requires QueueOk(m, room, visited, q, depth) && q != []
    ensures QueueOk(m, room, visited, q[1..], depth)
  {
    forall j | 0 <= j < |q| - 1
      ensures Inside(m, room, visited, q[1..][j].1) && Walk(m, room, q[1..][j].1) == Some(q[1..][j].0)
      ensures q[1..][j].0 in depth && depth[q[1..][j].0] == |q[1..][j].1|
    {
      assert q[1..][j] == q[j + 1];
    }
  }

  lemma LayeredTail(q: seq<Item>)
    requires Layered(q) && q != []
    ensures Layered(q[1..])
  {
    forall i, j | 0 <= i < j < |q| - 1 ensures |q[1..][i].1| <= |q[1..][j].1| <= |q[1..][i].1| + 1 {
      assert q[1..][i] == q[i + 1] && q[1..][j] == q[j + 1];
    }
  }

  lemma ProcessedFinish(m: Adjacency, visited: set<RoomId>, depth: map<RoomId, nat>, P: set<RoomId>, x: RoomId)
    requires Processed(m, visited, depth, P) && x in m && x in depth
    requires forall k :: 0 <= k < |m[x]| ==>
               m[x][k].1 in visited && m[x][k].1 in depth && depth[m[x][k].1] <= depth[x] + 1
    ensures Processed(m, visited, depth, P + {x})
  {
  }

  /** Lines 162-169 done: the front room has all its exits examined and leaves the queue. */
  lemma SearchFinish(m: Adjacency, room: RoomId, visited: set<RoomId>, q: seq<Item>,
                     v: set<RoomId>, depth: map<RoomId, nat>, P: set<RoomId>, q': seq<Item>, P': set<RoomId>)
    requires Search(m, room, visited, q, v, depth, P) && q != []
    requires q[0].0 in m
    requires Scanned(m[q[0].0], |m[q[0].0]|, visited, depth, |q[0].1| + 1)
    requires q' == q[1..] && P' == P + {q[0].0}
    ensures Search(m, room, visited, q', v, depth, P')
  {
    var x := q[0].0;
    assert x in depth && depth[x] == |q[0].1|;
    LayeredTail(q);
    QueueOkTail(m, room, visited, q, depth);
    BookkeepingFinish(m, q, v, depth, P);
    ProcessedFinish(m, visited, depth, P, x);
    CoveredFinish(m, room, visited, depth, P, x);
  }

  // ---------------------------------------------------------------------
  // What the invariant says about the search's answer.

  /** Every frontier path is at least one move longer than the path of the front room. */
  lemma FrontierBound(m: Adjacency, room: RoomId, visited: set<RoomId>, q: seq<Item>,
                      v: set<RoomId>, depth: map<RoomId, nat>, P: set<RoomId>, f: seq<Dir>)
    requires Search(m, room, visited, q, v, depth, P)
    requires IsFrontierPath(m, room, visited, f)
    ensures q != [] && |q[0].1| + 1 <= |f|
  {
    var s := f[..|f| - 1];
    assert s[..|s|] == s;
    var z := Walk(m, room, s).value;
    WalkPrefixStep(m, room, f, |f|);
    assert f[..|f|] == f;
    var u := Walk(m, room, f).value;
    assert z in m;
    assert (f[|f| - 1], u) in m[z];
    var k :| 0 <= k < |m[z]| && m[z][k] == (f[|f| - 1], u);
    assert EndsOutside(m, room, s, P);
    var i :| 0 <= i <= |s| && Waits(depth, P, Walk(m, room, s[..i]), i);
    var y := Walk(m, room, s[..i]).value;
    var j :| 0 <= j < |q| && q[j].0 == y;
    if j > 0 {
      assert |q[0].1| <= |q[j].1|;
    }
  }

  /** With the queue empty no frontier path exists. */
  lemma NoFrontier(m: Adjacency, room: RoomId, visited: set<RoomId>,
                   v: set<RoomId>, depth: map<RoomId, nat>, P: set<RoomId>, f: seq<Dir>)
    requires Search(m, room, visited, [], v, depth, P)
    ensures !IsFrontierPath(m, room, visited, f)
  {
    if IsFrontierPath(m, room, visited, f) {
      FrontierBound(m, room, visited, [], v, depth, P, f);
    }
  }

  /** The front room's path, one exit to an unvisited room further, is a frontier path. */
  lemma FrontierAt(m: Adjacency, room: RoomId, visited: set<RoomId>, q: seq<Item>,
                   v: set<RoomId>, depth: map<RoomId, nat>, P: set<RoomId>, k: nat)
    requires Search(m, room, visited, q, v, depth, P) && q != []
    requires k < |m[q[0].0]| && m[q[0].0][k].1 !in visited
    ensures IsFrontierPath(m, room, visited, q[0].1 + [m[q[0].0][k].0])
  {
    var (x, p) := q[0];
    assert x in m by { WalkStaysInside(m, room, p); }
    InsideExtend(m, room, visited, p, x, k);
    assert (p + [m[x][k].0])[..|p|] == p;
  }

  /** Once the start room is expanded, none of its exits leads to an unvisited room. */
  lemma StartExpanded(m: Adjacency, room: RoomId, visited: set<RoomId>, q: seq<Item>,
                      v: set<RoomId>, depth: map<RoomId, nat>, P: set<RoomId>)
    requires Search(m, room, visited, q, v, depth, P)
    requires FirstUnvisited(m[room], visited).Some?
    ensures P == {} && q != [] && q[0] == (room, [])
  {
  }

  /** The first `k` exits lead to visited rooms that are enqueued within `bound` moves. */
  ghost predicate Scanned(e: Edges, k: nat, visited: set<RoomId>, depth: map<RoomId, nat>, bound: nat) {
    k <= |e| &&
    forall j :: 0 <= j < k ==> e[j].1 in visited && e[j].1 in depth && depth[e[j].1] <= bound
  }

  lemma ScanNext(e: Edges, k: nat, visited: set<RoomId>, depth: map<RoomId, nat>, bound: nat)
    requires Scanned(e, k, visited, depth, bound) && k < |e|
    requires e[k].1 in visited && e[k].1 in depth && depth[e[k].1] <= bound
    ensures Scanned(e, k + 1, visited, depth, bound)
  {
  }

  lemma ScanKeep(e: Edges, k: nat, visited: set<RoomId>, depth: map<RoomId, nat>, bound: nat, y: RoomId, n: nat)
    requires Scanned(e, k, visited, depth, bound) && y !in depth
    ensures Scanned(e, k, visited, depth[y := n], bound)
  {
  }

  /** A room already enqueued was enqueued at most one move deeper than the front room. */
  lemma KnownDepth(m: Adjacency, room: RoomId, visited: set<RoomId>, q: seq<Item>,
                   v: set<RoomId>, depth: map<RoomId, nat>, P: set<RoomId>, y: RoomId)
    requires Search(m, room, visited, q, v, depth, P) && q != [] && y in v
    ensures y in depth && depth[y] <= |q[0].1| + 1
  {
    if y !in P {
      var j :| 0 <= j < |q| && q[j].0 == y;
      if j > 0 {
        assert |q[j].1| <= |q[0].1| + 1;
      }
    }
  }

  lemma TailAppend<T>(s: seq<T>, x: T)
    requires s != []
    ensures (s + [x])[1..] == s[1..] + [x]
  {
  }

  /**
   * Lines 156-158 and 164-165: returning the front room's path extended by
   * its first exit to an unvisited room gives a shortest frontier path, and
   * the first exit of the start room when it has one. The order among paths
   * of that length is added in the search-order module.
   */
  lemma Answer(m: Adjacency, room: RoomId, visited: set<RoomId>, q: seq<Item>,
               v: set<RoomId>, depth: map<RoomId, nat>, P: set<RoomId>, k: nat,
               d: Dir, y: RoomId, r: Option<seq<Dir>>)
    requires Search(m, room, visited, q, v, depth, P) && q != []
    requires q[0].0 in m && k < |m[q[0].0]| && m[q[0].0][k] == (d, y) && y !in visited
    requires Scanned(m[q[0].0], k, visited, depth, |q[0].1| + 1)
    requires r == Some(q[0].1 + [d])
    ensures IsNearest(m, room, visited, r)
  {
    var f := q[0].1 + [m[q[0].0][k].0];
    FrontierAt(m, room, visited, q, v, depth, P, k);
    forall f' | IsFrontierPath(m, room, visited, f') ensures |f| <= |f'| {
      FrontierBound(m, room, visited, q, v, depth, P, f');
    }
    FirstUnvisitedAt(m[q[0].0], visited, k);
    if FirstUnvisited(m[room], visited).Some? {
      StartExpanded(m, room, visited, q, v, depth, P);
    }
  }

  /** Lines 140-170 with the queue exhausted: there is no frontier path, not even one move from the start. */
  lemma NoAnswer(m: Adjacency, room: RoomId, visited: set<RoomId>,
                 v: set<RoomId>, depth: map<RoomId, nat>, P: set<RoomId>)
    requires Search(m, room, visited, [], v, depth, P)
    ensures IsNextPath(m, room, visited, None)
  {
    forall f ensures !IsFrontierPath(m, room, visited, f) {
      NoFrontier(m, room, visited, v, depth, P, f);
    }
    if FirstUnvisited(m[room], visited).Some? {
      StartExpanded(m, room, visited, [], v, depth, P);
    }
  }

}
