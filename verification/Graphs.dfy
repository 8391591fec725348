/** Networks of named nodes, hop distance, and the breadth-first frontier.

    Three programs walk the network level by level: the name server's queue, the
    Python list Dijkstra, and the announcement generator. All three are proved through
    the predicate `Level` and the lemmas about it. */
module Graphs {
  /** The name of a node: a dotted address, or a router name. */
  datatype Ip = Ip(text: string)

  type Adjacency = map<Ip, seq<Ip>>

  predicate Edge(g: Adjacency, u: Ip, v: Ip) {
    u in g && v in g[u]
  }

  ghost predicate Closed(g: Adjacency) {
    forall u, v | Edge(g, u, v) :: v in g
  }

  ghost predicate Symmetric(g: Adjacency) {
    forall u, v | Edge(g, u, v) :: Edge(g, v, u)
  }

  // ---- Walks and hop distance ----

  /** There is a walk of exactly k edges from u to v. */
  ghost predicate Walk(g: Adjacency, u: Ip, v: Ip, k: nat)
    decreases k
  {
    if k == 0 then u == v else exists w :: Walk(g, u, w, k - 1) && Edge(g, w, v)
  }

  /** The hop distance from u to v is k. */
  ghost predicate AtDistance(g: Adjacency, u: Ip, v: Ip, k: nat) {
    Walk(g, u, v, k) && forall j: nat | j < k :: !Walk(g, u, v, j)
  }

  ghost predicate Reachable(g: Adjacency, u: Ip, v: Ip) {
    exists k: nat :: Walk(g, u, v, k)
  }

  ghost predicate SameEdges(g: Adjacency, h: Adjacency) {
    forall u, v :: Edge(g, u, v) <==> Edge(h, u, v)
  }

  lemma {:induction false} WalkSameEdges(g: Adjacency, h: Adjacency, u: Ip, v: Ip, k: nat)
    requires SameEdges(g, h)
    ensures Walk(g, u, v, k) <==> Walk(h, u, v, k)
    decreases k
  {
    if k > 0 {
      forall w
        ensures Walk(g, u, w, k - 1) && Edge(g, w, v) <==> Walk(h, u, w, k - 1) && Edge(h, w, v)
      {
        WalkSameEdges(g, h, u, w, k - 1);
      }
    }
  }

  lemma AtDistanceSameEdges(g: Adjacency, h: Adjacency, u: Ip, v: Ip, k: nat)
    requires SameEdges(g, h)
    ensures AtDistance(g, u, v, k) <==> AtDistance(h, u, v, k)
  {
    forall j: nat ensures Walk(g, u, v, j) <==> Walk(h, u, v, j) {
      WalkSameEdges(g, h, u, v, j);
    }
  }

  lemma {:induction false} ShortestBelow(g: Adjacency, u: Ip, v: Ip, k: nat) returns (d: nat)
    requires Walk(g, u, v, k)
    ensures d <= k && AtDistance(g, u, v, d)
    decreases k
  {
    if j: nat :| j < k && Walk(g, u, v, j) {
      d := ShortestBelow(g, u, v, j);
    } else {
      d := k;
    }
  }

  lemma DistanceIsUnique(g: Adjacency, u: Ip, v: Ip, j: nat, k: nat)
    requires AtDistance(g, u, v, j) && AtDistance(g, u, v, k)
    ensures j == k
  {
  }

  // ---- The breadth-first frontier ----

  /** `seen` holds every node within d hops of src and nothing farther than d + 1 hops;
      every node outside the work list has had its neighbours added to `seen`. */
  ghost predicate Level(g: Adjacency, src: Ip, seen: set<Ip>, work: seq<Ip>, d: nat) {
    && src in seen
    && (forall v | v in work :: v in seen && (AtDistance(g, src, v, d) || AtDistance(g, src, v, d + 1)))
    && (forall v | v in seen :: exists j: nat :: j <= d + 1 && AtDistance(g, src, v, j))
    && (forall v, j: nat | j <= d && Walk(g, src, v, j) :: v in seen)
    && (forall u, v | u in seen && u !in work && Edge(g, u, v) :: v in seen)
  }

  lemma LevelStart(g: Adjacency, src: Ip)
    ensures Level(g, src, {src}, [src], 0)
  {
    assert AtDistance(g, src, src, 0);
  }

  /** A node met from distance d for the first time is at distance d + 1. */
  lemma LevelDiscover(g: Adjacency, src: Ip, seen: set<Ip>, work: seq<Ip>, d: nat, u: Ip, v: Ip)
    requires Level(g, src, seen, work, d)
    requires AtDistance(g, src, u, d) && Edge(g, u, v) && v !in seen
    ensures AtDistance(g, src, v, d + 1)
    ensures Level(g, src, seen + {v}, work + [v], d)
  {
    assert Walk(g, src, v, d + 1);
    var seen', work' := seen + {v}, work + [v];
    forall x | x in seen' ensures exists j: nat :: j <= d + 1 && AtDistance(g, src, x, j) {
      if x == v { assert d + 1 <= d + 1 && AtDistance(g, src, v, d + 1); }
    }
    forall x, y | x in seen' && x !in work' && Edge(g, x, y) ensures y in seen' {
      assert work'[|work|] == v;
      assert forall z | z in work :: z in work';
    }
  }

  /** A node whose neighbours have all been met can leave the work list. */
  lemma LevelFinish(g: Adjacency, src: Ip, seen: set<Ip>, work: seq<Ip>, work': seq<Ip>, d: nat, u: Ip)
    requires Level(g, src, seen, work, d)
    requires forall x :: x in work ==> x in work' || x == u
    requires forall x :: x in work' ==> x in work
    requires forall v | Edge(g, u, v) :: v in seen
    ensures Level(g, src, seen, work', d)
  {
  }

  /** When only distance d + 1 is left in the work list, the level moves up. */
  lemma LevelAdvance(g: Adjacency, src: Ip, seen: set<Ip>, work: seq<Ip>, d: nat)
    requires Level(g, src, seen, work, d)
    requires forall v | v in work :: AtDistance(g, src, v, d + 1)
    ensures Level(g, src, seen, work, d + 1)
  {
    forall v, j: nat | j <= d + 1 && Walk(g, src, v, j) ensures v in seen {
      if j == d + 1 {
        var w :| Walk(g, src, w, d) && Edge(g, w, v);
        assert w in seen && w !in work;
      }
    }
  }

  /** With no work left, `seen` is exactly what can be reached. */
  lemma {:induction false} LevelDone(g: Adjacency, src: Ip, seen: set<Ip>, d: nat, v: Ip, k: nat)
    requires Level(g, src, seen, [], d)
    requires Walk(g, src, v, k)
    ensures v in seen
    decreases k
  {
    if k > 0 {
      var w :| Walk(g, src, w, k - 1) && Edge(g, w, v);
      LevelDone(g, src, seen, d, w, k - 1);
    }
  }

  lemma SeenIsReachable(g: Adjacency, src: Ip, seen: set<Ip>, d: nat)
    requires Level(g, src, seen, [], d)
    ensures forall v :: v in seen <==> Reachable(g, src, v)
  {
    forall v ensures v in seen <==> Reachable(g, src, v) {
      if v in seen {
        var j: nat :| j <= d + 1 && AtDistance(g, src, v, j);
        assert Walk(g, src, v, j);
      } else if k: nat :| Walk(g, src, v, k) {
        LevelDone(g, src, seen, d, v, k);
      }
    }
  }
}
