/**
 * The order in which `find_next_path` of projects/adventure/adv.py meets
 * the paths of one length: the queue is first-in first-out and each room's
 * exits are tried in their listed order, so within a layer the queued paths
 * are sorted by that order, and each room is queued with the least path of
 * its length that reaches it.
 */
module SearchOrder {
  import opened Wrappers
  import opened Graphs
  import opened Paths
  import opened BreadthFirst

  /** Each queued path comes first among the passable walks of its length to its room. */
  ghost predicate LeastPaths(m: Adjacency, room: RoomId, visited: set<RoomId>, q: seq<Item>) {
    forall k, s :: 0 <= k < |q| && Inside(m, room, visited, s) && Walk(m, room, s) == Some(q[k].0) && |s| == |q[k].1| ==>
      !Before(m, room, s, q[k].1)
  }

  /** Queued paths of the same length are in the order moves are tried. */
  ghost predicate SortedLayers(m: Adjacency, room: RoomId, q: seq<Item>) {
    forall i, j :: 0 <= i < j < |q| && |q[i].1| == |q[j].1| ==> Before(m, room, q[i].1, q[j].1)
  }

  ghost predicate Ordered(m: Adjacency, room: RoomId, visited: set<RoomId>, q: seq<Item>) {
    LeastPaths(m, room, visited, q) && SortedLayers(m, room, q)
  }

  /**
   * `p`, one move longer than the front room's path, was found before the
   * `k`-th exit of the front room: from an earlier front room, or from this
   * one through an earlier exit.
   */
  ghost predicate FoundBefore(m: Adjacency, room: RoomId, front: Item, p: seq<Dir>, k: nat) {
    var n := |front.1|;
    && |p| == n + 1
    && (|| Before(m, room, p[..n], front.1)
        || (p[..n] == front.1 && front.0 in m && ExitIndex(m[front.0], p[n]) < k))
  }

  /** Every queued path one move longer than the front's was found before its `k`-th exit. */
  ghost predicate Deeper(m: Adjacency, room: RoomId, q: seq<Item>, k: nat)
    requires q != []
  {
    forall i :: 0 < i < |q| && |q[i].1| == |q[0].1| + 1 ==> FoundBefore(m, room, q[0], q[i].1, k)
  }

  /** Lines 134-138: the queue holding only the start room is ordered. */
  lemma OrderInit(m: Adjacency, room: RoomId, visited: set<RoomId>)
    ensures Ordered(m, room, visited, [(room, [])]) && Deeper(m, room, [(room, [])], 0)
  {
  }

  /** An expanded room leads only to rooms that are visited and enqueued. */
  lemma ProcessedLeads(m: Adjacency, visited: set<RoomId>, depth: map<RoomId, nat>, P: set<RoomId>,
                       z: RoomId, a: Dir, y: RoomId)
    requires Processed(m, visited, depth, P) && P <= depth.Keys
    requires z in m && (a, y) in m[z]
    ensures z in P ==> y in visited && y in depth
  {
    var j :| 0 <= j < |m[z]| && m[z][j] == (a, y);
  }

  /** Breadth-first coverage at one walk: the queued room it passes and the number of moves to it. */
  lemma CoveredAt(m: Adjacency, room: RoomId, visited: set<RoomId>, depth: map<RoomId, nat>, P: set<RoomId>, s: seq<Dir>)
    returns (i: nat)
    requires Covered(m, room, visited, depth, P)
    requires Inside(m, room, visited, s) && EndsOutside(m, room, s, P)
    ensures i <= |s| && Waits(depth, P, Walk(m, room, s[..i]), i)
  {
    i :| 0 <= i <= |s| && Waits(depth, P, Walk(m, room, s[..i]), i);
  }

  /**
   * A walk as long as the front room's path that passes, after `i` moves, a
   * room enqueued within `i` moves ends in a queued room of that depth.
   */
  lemma QueuedEnd(m: Adjacency, room: RoomId, q: seq<Item>, v: set<RoomId>, depth: map<RoomId, nat>,
                  P: set<RoomId>, s: seq<Dir>, i: nat) returns (j: nat)
    requires Layered(q) && Bookkeeping(m, q, v, depth, P) && q != []
    requires forall k :: 0 <= k < |q| ==> depth[q[k].0] == |q[k].1|
    requires |s| == |q[0].1| && i <= |s| && Waits(depth, P, Walk(m, room, s[..i]), i)
    ensures j < |q| && Walk(m, room, s) == Some(q[j].0) && |q[j].1| == |s|
  {
    var y := Walk(m, room, s[..i]).value;
    assert y in v && y !in P;
    j :| 0 <= j < |q| && q[j].0 == y;
    assert depth[y] == |q[j].1|;
    if j > 0 {
      assert |q[0].1| <= |q[j].1|;
    }
    assert i == |s|;
    assert s[..i] == s;
  }

  /**
   * A passable walk as long as the front room's path, to the room queued
   * at `j`, is the front's path or comes after it.
   */
  lemma FrontLeast(m: Adjacency, room: RoomId, visited: set<RoomId>, q: seq<Item>, s: seq<Dir>, j: nat)
    requires Ordered(m, room, visited, q) && j < |q| && Walk(m, room, q[j].1).Some?
    requires Inside(m, room, visited, s) && Walk(m, room, s) == Some(q[j].0) && |s| == |q[j].1| == |q[0].1|
    ensures s == q[0].1 || Before(m, room, q[0].1, s)
  {
    BeforeTotal(m, room, s, q[j].1);
    if j > 0 && s != q[j].1 {
      BeforeTrans(m, room, q[0].1, q[j].1, s);
    }
  }

  /**
   * A walk that extends the front room's path or a later one of its length
   * by one move, to a room that no exit before the `k`-th of the front room
   * reaches, does not come before the front's path extended by the `k`-th
   * exit.
   */
  lemma ExtensionLeast(m: Adjacency, room: RoomId, q: seq<Item>, k: nat, s: seq<Dir>)
    requires WellFormed(m) && q != [] && Walk(m, room, q[0].1) == Some(q[0].0)
    requires q[0].0 in m && k < |m[q[0].0]|
    requires |s| == |q[0].1| + 1 && Walk(m, room, s).Some?
    requires s[..|s| - 1] == q[0].1 || Before(m, room, q[0].1, s[..|s| - 1])
    requires forall j :: 0 <= j < k ==> m[q[0].0][j].1 != Walk(m, room, s).value
    ensures !Before(m, room, s, q[0].1 + [m[q[0].0][k].0])
  {
    var (x, p) := q[0];
    var d := m[x][k].0;
    var n := |p|;
    var s', a := s[..n], s[n];
    assert s == s' + [a];
    var y := Walk(m, room, s).value;
    if s' == p {
      assert (a, y) in m[x];
      var j :| 0 <= j < |m[x]| && m[x][j] == (a, y);
      ExitIndexAt(m[x], j);
      ExitIndexAt(m[x], k);
      if j != k {
        BeforeStep(m, room, p, d, a);
        BeforeAsym(m, room, p + [d], s);
      }
    } else {
      BeforeExtend(m, room, p, s', d, a);
      BeforeAsym(m, room, p + [d], s);
    }
  }

  /** The last room of `s` is reached from the room after all but its last move. */
  lemma LastMove(m: Adjacency, room: RoomId, s: seq<Dir>)
    requires s != [] && Walk(m, room, s).Some?
    ensures Walk(m, room, s[..|s| - 1]).Some?
    ensures Walk(m, room, s[..|s| - 1]).value in m
    ensures (s[|s| - 1], Walk(m, room, s).value) in m[Walk(m, room, s[..|s| - 1]).value]
  {
  }

  /** All but the last move of a passable walk is a passable walk. */
  lemma InsideDrop(m: Adjacency, room: RoomId, visited: set<RoomId>, s: seq<Dir>)
    requires s != [] && Inside(m, room, visited, s)
    ensures Inside(m, room, visited, s[..|s| - 1])
  {
    var s' := s[..|s| - 1];
    forall i | 0 <= i <= |s'|
      ensures Walk(m, room, s'[..i]).Some? && Passable(visited, room, Walk(m, room, s'[..i]).value)
    {
      assert s'[..i] == s[..i];
    }
  }

  /**
   * The room newly enqueued at the `k`-th exit of the front room is queued
   * with the least passable walk of its length.
   */
  lemma NewLeast(m: Adjacency, room: RoomId, visited: set<RoomId>, q: seq<Item>,
                 v: set<RoomId>, depth: map<RoomId, nat>, P: set<RoomId>, k: nat, y: RoomId)
    requires Search(m, room, visited, q, v, depth, P) && q != [] && Ordered(m, room, visited, q)
    requires q[0].0 in m && k < |m[q[0].0]| && m[q[0].0][k].1 == y && y !in v
    requires Scanned(m[q[0].0], k, visited, depth, |q[0].1| + 1)
    ensures forall s :: Inside(m, room, visited, s) && Walk(m, room, s) == Some(y) && |s| == |q[0].1| + 1 ==>
              !Before(m, room, s, q[0].1 + [m[q[0].0][k].0])
  {
    forall s | Inside(m, room, visited, s) && Walk(m, room, s) == Some(y) && |s| == |q[0].1| + 1
      ensures !Before(m, room, s, q[0].1 + [m[q[0].0][k].0])
    {
      var s' := s[..|s| - 1];
      LastMove(m, room, s);
      InsideDrop(m, room, visited, s);
      ProcessedLeads(m, visited, depth, P, Walk(m, room, s').value, s[|s| - 1], y);
      var i := CoveredAt(m, room, visited, depth, P, s');
      var j := QueuedEnd(m, room, q, v, depth, P, s', i);
      FrontLeast(m, room, visited, q, s', j);
      ExtensionLeast(m, room, q, k, s);
    }
  }

  /** Enqueuing the `k`-th exit's room keeps the layer of one move more sorted. */
  lemma SortedEnqueue(m: Adjacency, room: RoomId, q: seq<Item>, k: nat, y: RoomId)
    requires WellFormed(m) && q != [] && Walk(m, room, q[0].1) == Some(q[0].0)
    requires SortedLayers(m, room, q) && Deeper(m, room, q, k)
    requires q[0].0 in m && k < |m[q[0].0]| && m[q[0].0][k].1 == y
    ensures SortedLayers(m, room, q + [(y, q[0].1 + [m[q[0].0][k].0])])
  {
    var (x, p) := q[0];
    var d := m[x][k].0;
    var q' := q + [(y, p + [d])];
    var n := |p|;
    ExitIndexAt(m[x], k);
    forall i | 0 < i < |q| && |q[i].1| == n + 1
      ensures Before(m, room, q[i].1, p + [d])
    {
      var t := q[i].1;
      assert t == t[..n] + [t[n]];
      if t[..n] == p {
        BeforeStep(m, room, p, t[n], d);
      } else {
        BeforeExtend(m, room, t[..n], p, t[n], d);
      }
    }
    forall i, j | 0 <= i < j < |q'| && |q'[i].1| == |q'[j].1|
      ensures Before(m, room, q'[i].1, q'[j].1)
    {
      if j < |q| {
        assert q'[i] == q[i] && q'[j] == q[j];
      } else {
        assert q'[i] == q[i];
      }
    }
  }

  /** Enqueuing the `k`-th exit's room: the new queued path is found before the next exit. */
  lemma DeeperEnqueue(m: Adjacency, room: RoomId, q: seq<Item>, k: nat, y: RoomId)
    requires WellFormed(m) && q != [] && Deeper(m, room, q, k)
    requires q[0].0 in m && k < |m[q[0].0]| && m[q[0].0][k].1 == y
    ensures Deeper(m, room, q + [(y, q[0].1 + [m[q[0].0][k].0])], k + 1)
  {
    var (x, p) := q[0];
    var d := m[x][k].0;
    ExitIndexAt(m[x], k);
    assert (p + [d])[..|p|] == p;
    DeeperNext(m, room, q, k);
  }

  /** Skipping the `k`-th exit keeps every queued path found before the next one. */
  lemma DeeperNext(m: Adjacency, room: RoomId, q: seq<Item>, k: nat)
    requires q != [] && Deeper(m, room, q, k)
    ensures Deeper(m, room, q, k + 1)
  {
  }

  /** Enqueuing a room with the least walk of its length keeps every queued path least. */
  lemma LeastEnqueue(m: Adjacency, room: RoomId, visited: set<RoomId>, q: seq<Item>, y: RoomId, p: seq<Dir>)
    requires LeastPaths(m, room, visited, q)
    requires forall s :: Inside(m, room, visited, s) && Walk(m, room, s) == Some(y) && |s| == |p| ==> !Before(m, room, s, p)
    ensures LeastPaths(m, room, visited, q + [(y, p)])
  {
    var q' := q + [(y, p)];
    forall i, s | 0 <= i < |q'| && Inside(m, room, visited, s) && Walk(m, room, s) == Some(q'[i].0) && |s| == |q'[i].1|
      ensures !Before(m, room, s, q'[i].1)
    {
      if i < |q| {
        assert q'[i] == q[i];
      }
    }
  }

  /** Lines 166-168: enqueuing the `k`-th exit's room keeps the queue ordered. */
  lemma EnqueueOrdered(m: Adjacency, room: RoomId, visited: set<RoomId>, q: seq<Item>,
                       v: set<RoomId>, depth: map<RoomId, nat>, P: set<RoomId>, k: nat, y: RoomId)
    requires Search(m, room, visited, q, v, depth, P) && q != []
    requires Ordered(m, room, visited, q) && Deeper(m, room, q, k)
    requires q[0].0 in m && k < |m[q[0].0]| && m[q[0].0][k].1 == y && y !in v
    requires Scanned(m[q[0].0], k, visited, depth, |q[0].1| + 1)
    ensures Ordered(m, room, visited, q + [(y, q[0].1 + [m[q[0].0][k].0])])
    ensures Deeper(m, room, q + [(y, q[0].1 + [m[q[0].0][k].0])], k + 1)
  {
    NewLeast(m, room, visited, q, v, depth, P, k, y);
    LeastEnqueue(m, room, visited, q, y, q[0].1 + [m[q[0].0][k].0]);
    SortedEnqueue(m, room, q, k, y);
    DeeperEnqueue(m, room, q, k, y);
  }

  /** Line 140-141: taking the front off an ordered queue leaves an ordered queue for the next front. */
  lemma FinishOrdered(m: Adjacency, room: RoomId, visited: set<RoomId>, q: seq<Item>, k: nat)
    requires q != [] && Layered(q) && Ordered(m, room, visited, q) && Deeper(m, room, q, k)
    ensures Ordered(m, room, visited, q[1..])
    ensures q[1..] != [] ==> Deeper(m, room, q[1..], 0)
  {
    var q' := q[1..];
    var n := |q[0].1|;
    forall i | 0 < i < |q'| && |q'[i].1| == |q'[0].1| + 1
      ensures FoundBefore(m, room, q'[0], q'[i].1, 0)
    {
      assert q'[i] == q[i + 1] && q'[0] == q[1];
      assert |q[1].1| == n;
      var t := q[i + 1].1;
      if t[..n] != q[0].1 {
        BeforeTrans(m, room, t[..n], q[0].1, q[1].1);
      }
    }
  }

  /** Lines 162-169 done: the search invariant and the order both hold for the next front. */
  lemma OrderedFinish(m: Adjacency, room: RoomId, visited: set<RoomId>, q: seq<Item>,
                      v: set<RoomId>, depth: map<RoomId, nat>, P: set<RoomId>, q': seq<Item>, P': set<RoomId>)
    requires Search(m, room, visited, q, v, depth, P) && q != [] && q[0].0 in m
    requires Scanned(m[q[0].0], |m[q[0].0]|, visited, depth, |q[0].1| + 1)
    requires Ordered(m, room, visited, q) && Deeper(m, room, q, |m[q[0].0]|)
    requires q' == q[1..] && P' == P + {q[0].0}
    ensures Search(m, room, visited, q', v, depth, P')
    ensures Ordered(m, room, visited, q') && (q' != [] ==> Deeper(m, room, q', 0))
  {
    SearchFinish(m, room, visited, q, v, depth, P, q', P');
    FinishOrdered(m, room, visited, q, |m[q[0].0]|);
  }

  /**
   * Lines 156-158 and 164-165, with the order: the answer at the `k`-th exit
   * of the front room is also the first, in the order moves are tried, of
   * the frontier paths of its length.
   */
  lemma OrderedAnswer(m: Adjacency, room: RoomId, visited: set<RoomId>, q: seq<Item>,
                      v: set<RoomId>, depth: map<RoomId, nat>, P: set<RoomId>, k: nat,
                      d: Dir, y: RoomId, r: Option<seq<Dir>>)
    requires Search(m, room, visited, q, v, depth, P) && q != [] && Ordered(m, room, visited, q)
    requires q[0].0 in m && k < |m[q[0].0]| && m[q[0].0][k] == (d, y) && y !in visited
    requires Scanned(m[q[0].0], k, visited, depth, |q[0].1| + 1)
    requires r == Some(q[0].1 + [d])
    ensures IsNextPath(m, room, visited, r)
  {
    Answer(m, room, visited, q, v, depth, P, k, d, y, r);
    forall f | IsFrontierPath(m, room, visited, f) && |f| == |r.value|
      ensures !Before(m, room, f, r.value)
    {
      var f' := f[..|f| - 1];
      LastMove(m, room, f);
      ProcessedLeads(m, visited, depth, P, Walk(m, room, f').value, f[|f| - 1], Walk(m, room, f).value);
      var i := CoveredAt(m, room, visited, depth, P, f');
      var j := QueuedEnd(m, room, q, v, depth, P, f', i);
      FrontLeast(m, room, visited, q, f', j);
      ExtensionLeast(m, room, q, k, f);
    }
  }
}
