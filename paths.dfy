/**
 * What `find_next_path` of projects/adventure/adv.py looks for: paths from
 * the player's room, through rooms already visited, to a room not visited
 * yet.
 */
module Paths {
  import opened Wrappers
  import opened Graphs

  /** The search may pass through `x`: a visited room, or the room it starts from. */
  predicate Passable(visited: set<RoomId>, room: RoomId, x: RoomId) {
    x in visited || x == room
  }

  /** Every prefix of `p`, `p` included, is a walk from `room` that ends in a passable room. */
  ghost predicate Inside(m: Adjacency, room: RoomId, visited: set<RoomId>, p: seq<Dir>) {
    forall i :: 0 <= i <= |p| ==>
      Walk(m, room, p[..i]).Some? && Passable(visited, room, Walk(m, room, p[..i]).value)
  }

  /**
   * A path to the frontier: moves from `room` through passable rooms whose
   * last move enters a room not yet visited.
   */
  ghost predicate IsFrontierPath(m: Adjacency, room: RoomId, visited: set<RoomId>, f: seq<Dir>) {
    && f != []
    && Inside(m, room, visited, f[..|f| - 1])
    && Walk(m, room, f).Some? && Walk(m, room, f).value !in visited
  }

  /** The first exit, in the room's own order, that leads to a room not visited yet. */
  function FirstUnvisited(e: Edges, visited: set<RoomId>): (r: Option<Dir>)
    ensures r.None? <==> forall k :: 0 <= k < |e| ==> e[k].1 in visited
  {
    if e == [] then None
    else if e[0].1 !in visited then Some(e[0].0)
    else FirstUnvisited(e[1..], visited)
  }

  /** The exit at `k` is the first one to an unvisited room exactly when all earlier ones lead to visited rooms. */
  lemma {:induction false} FirstUnvisitedAt(e: Edges, visited: set<RoomId>, k: nat)
    requires k < |e| && e[k].1 !in visited
    requires forall j :: 0 <= j < k ==> e[j].1 in visited
    ensures FirstUnvisited(e, visited) == Some(e[k].0)
  {
    if k > 0 {
      assert e[0].1 in visited;
      FirstUnvisitedAt(e[1..], visited, k - 1);
    }
  }


  /** The position of the first exit in direction `d`, or `|e|` when there is none. */
  function ExitIndex(e: Edges, d: Dir): (r: nat)
    ensures r <= |e|
    ensures r < |e| ==> e[r].0 == d
    ensures forall j :: 0 <= j < r ==> e[j].0 != d
  {
    if e == [] then 0
    else if e[0].0 == d then 0
    else 1 + ExitIndex(e[1..], d)
  }

  /** With distinct directions, the k-th exit's direction is found at `k`. */
  lemma ExitIndexAt(e: Edges, k: nat)
    requires DistinctDirs(e) && k < |e|
    ensures ExitIndex(e, e[k].0) == k
  {
    var r := ExitIndex(e, e[k].0);
    assert r <= k;
  }

  /** A direction that leads somewhere is the direction of an exit. */
  lemma ExitIndexFound(e: Edges, d: Dir)
    requires Lookup(e, d).Some?
    ensures ExitIndex(e, d) < |e|
  {
    var k :| 0 <= k < |e| && e[k] == (d, Lookup(e, d).value);
  }

  /** After the moves `s`, the player stands in a room where exit `a` is listed before exit `b`. */
  predicate EarlierAt(m: Adjacency, room: RoomId, s: seq<Dir>, a: Dir, b: Dir) {
    match Walk(m, room, s)
    case None => false
    case Some(x) => x in m && ExitIndex(m[x], a) < ExitIndex(m[x], b)
  }

  /**
   * `p` comes before `q` in the order the search tries moves: at the first
   * move where they differ, `p` takes an exit listed earlier.
   */
  ghost predicate Before(m: Adjacency, room: RoomId, p: seq<Dir>, q: seq<Dir>) {
    && |p| == |q|
    && exists i :: 0 <= i < |p| && p[..i] == q[..i] && EarlierAt(m, room, p[..i], p[i], q[i])
  }

  /** Extending two ordered move lists by one move each keeps their order. */
  lemma BeforeExtend(m: Adjacency, room: RoomId, p: seq<Dir>, q: seq<Dir>, a: Dir, b: Dir)
    requires Before(m, room, p, q)
    ensures Before(m, room, p + [a], q + [b])
  {
    var i :| 0 <= i < |p| && p[..i] == q[..i] && EarlierAt(m, room, p[..i], p[i], q[i]);
    assert (p + [a])[..i] == p[..i] && (q + [b])[..i] == q[..i];
    assert (p + [a])[i] == p[i] && (q + [b])[i] == q[i];
  }

  /** From the same room, an exit listed earlier comes first. */
  lemma BeforeStep(m: Adjacency, room: RoomId, p: seq<Dir>, a: Dir, b: Dir)
    requires EarlierAt(m, room, p, a, b)
    ensures Before(m, room, p + [a], p + [b])
  {
    var n := |p|;
    assert (p + [a])[..n] == p && (p + [b])[..n] == p;
    assert EarlierAt(m, room, (p + [a])[..n], (p + [a])[n], (p + [b])[n]);
  }

  /** Two move lists that agree but for the last move are ordered by that move alone. */
  lemma BeforeLast(m: Adjacency, room: RoomId, p: seq<Dir>, a: Dir, b: Dir)
    ensures Before(m, room, p + [a], p + [b]) ==> EarlierAt(m, room, p, a, b)
  {
    var n := |p|;
    var pa, pb := p + [a], p + [b];
    forall i | 0 <= i < n && pa[..i] == pb[..i]
      ensures !EarlierAt(m, room, pa[..i], pa[i], pb[i])
    {
      assert pa[i] == p[i] == pb[i];
    }
    assert pa[..n] == p;
  }

  /** The order is asymmetric. */
  lemma BeforeAsym(m: Adjacency, room: RoomId, p: seq<Dir>, q: seq<Dir>)
    requires Before(m, room, p, q)
    ensures !Before(m, room, q, p)
  {
    var i :| 0 <= i < |p| && p[..i] == q[..i] && EarlierAt(m, room, p[..i], p[i], q[i]);
    forall j | 0 <= j < |q| && q[..j] == p[..j]
      ensures !EarlierAt(m, room, q[..j], q[j], p[j])
    {
      if j < i {
        assert p[..i][j] == q[..i][j];
      }
    }
  }

  /** Agreeing on a prefix means agreeing on every shorter prefix and on its moves. */
  lemma PrefixAgree(a: seq<Dir>, b: seq<Dir>, i: nat, j: nat)
    requires i < j <= |a| && j <= |b| && a[..j] == b[..j]
    ensures a[..i] == b[..i] && a[i] == b[i]
  {
    assert a[..j][..i] == a[..i] && b[..j][..i] == b[..i];
    assert a[..j][i] == a[i] && b[..j][i] == b[i];
  }

  /** The order is transitive. */
  lemma BeforeTrans(m: Adjacency, room: RoomId, p: seq<Dir>, q: seq<Dir>, s: seq<Dir>)
    requires Before(m, room, p, q) && Before(m, room, q, s)
    ensures Before(m, room, p, s)
  {
    var i :| 0 <= i < |p| && p[..i] == q[..i] && EarlierAt(m, room, p[..i], p[i], q[i]);
    var j :| 0 <= j < |q| && q[..j] == s[..j] && EarlierAt(m, room, q[..j], q[j], s[j]);
    var k := if i < j then i else j;
    if i < j {
      PrefixAgree(q, s, i, j);
    } else if j < i {
      PrefixAgree(p, q, j, i);
    }
    assert p[..k] == s[..k] && EarlierAt(m, room, p[..k], p[k], s[k]);
  }

  /** Any two walks of the same length are equal or ordered one way or the other. */
  lemma {:induction false} BeforeTotal(m: Adjacency, room: RoomId, p: seq<Dir>, q: seq<Dir>)
    requires |p| == |q| && Walk(m, room, p).Some? && Walk(m, room, q).Some?
    ensures p == q || Before(m, room, p, q) || Before(m, room, q, p)
    decreases |p|
  {
    if p != [] {
      var n := |p| - 1;
      var p', q' := p[..n], q[..n];
      assert p == p' + [p[n]] && q == q' + [q[n]];
      BeforeTotal(m, room, p', q');
      if p' == q' {
        if p[n] != q[n] {
          var x := Walk(m, room, p').value;
          ExitIndexFound(m[x], p[n]);
          ExitIndexFound(m[x], q[n]);
          if ExitIndex(m[x], p[n]) < ExitIndex(m[x], q[n]) {
            BeforeStep(m, room, p', p[n], q[n]);
          } else {
            BeforeStep(m, room, p', q[n], p[n]);
          }
        }
      } else if Before(m, room, p', q') {
        BeforeExtend(m, room, p', q', p[n], q[n]);
      } else {
        BeforeExtend(m, room, q', p', q[n], p[n]);
      }
    }
  }

  /**
   * A nearest answer of `find_next_path`: a shortest frontier path, or
   * `None` when there is no frontier path at all; and when the start room
   * itself has an exit to an unvisited room, the first such exit alone.
   */
  ghost predicate IsNearest(m: Adjacency, room: RoomId, visited: set<RoomId>, r: Option<seq<Dir>>)
    requires room in m
  {
    && (r.Some? ==> IsFrontierPath(m, room, visited, r.value))
    && (r.Some? ==> forall f :: IsFrontierPath(m, room, visited, f) ==> |r.value| <= |f|)
    && (r.None? ==> forall f :: !IsFrontierPath(m, room, visited, f))
    && (FirstUnvisited(m[room], visited).Some? ==> r == Some([FirstUnvisited(m[room], visited).value]))
  }

  /**
   * What `find_next_path` answers: a nearest answer that, among the
   * frontier paths of its length, comes first in the order moves are tried.
   */
  ghost predicate IsNextPath(m: Adjacency, room: RoomId, visited: set<RoomId>, r: Option<seq<Dir>>)
    requires room in m
  {
    && IsNearest(m, room, visited, r)
    && (r.Some? ==> forall f :: IsFrontierPath(m, room, visited, f) && |f| == |r.value| ==> !Before(m, room, f, r.value))
  }

  /** The answer of `find_next_path` is determined by the graph, the room and the visited rooms. */
  lemma NextPathDetermined(m: Adjacency, room: RoomId, visited: set<RoomId>, r1: Option<seq<Dir>>, r2: Option<seq<Dir>>)
    requires room in m
    requires IsNextPath(m, room, visited, r1) && IsNextPath(m, room, visited, r2)
    ensures r1 == r2
  {
    if r1.Some? && r2.Some? {
      BeforeTotal(m, room, r1.value, r2.value);
    }
  }
}
