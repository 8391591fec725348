/** The nearest-server search of the name server as a function of the stored graph,
    and the proof that its answer is a nearest server. The pointer program is in
    LoadBalance.dfy. */
module Nearest {
  import opened Options
  import opened Graphs

  datatype Scan = Scan(found: Option<Ip>, seen: set<Ip>, work: seq<Ip>)

  /** Looks at the neighbours from the last to the first: stops at an unseen server,
      queues every other unseen node. */
  function ScanNeighbours(ns: seq<Ip>, servers: set<Ip>, seen: set<Ip>, work: seq<Ip>): Scan
    decreases |ns|
  {
    if ns == [] then Scan(None, seen, work) else
    var v, rest := ns[|ns| - 1], ns[..|ns| - 1];
    if v in seen then ScanNeighbours(rest, servers, seen, work)
    else if v in servers then Scan(Some(v), seen, work)
    else ScanNeighbours(rest, servers, seen + {v}, work + [v])
  }

  ghost predicate Searchable(g: Adjacency, seen: set<Ip>, work: seq<Ip>) {
    Closed(g) && seen <= g.Keys && forall v | v in work :: v in g
  }

  function Budget(g: Adjacency, seen: set<Ip>, work: seq<Ip>): nat {
    |g.Keys - seen| + |work|
  }

  /** Every queued node was unseen before, so scanning keeps the budget. */
  lemma {:induction false} ScanKeepsBudget(
    g: Adjacency, ns: seq<Ip>, servers: set<Ip>, seen: set<Ip>, work: seq<Ip>)
    requires Searchable(g, seen, work) && forall v | v in ns :: v in g
    ensures var r := ScanNeighbours(ns, servers, seen, work);
            Searchable(g, r.seen, r.work) && Budget(g, r.seen, r.work) == Budget(g, seen, work)
    decreases |ns|
  {
    if ns != [] {
      var v, rest := ns[|ns| - 1], ns[..|ns| - 1];
      if v in seen {
        ScanKeepsBudget(g, rest, servers, seen, work);
      } else if v !in servers {
        assert g.Keys - (seen + {v}) == g.Keys - seen - {v};
        ScanKeepsBudget(g, rest, servers, seen + {v}, work + [v]);
      }
    }
  }

  /** The queue loop of `bfs`. */
  ghost function Search(g: Adjacency, servers: set<Ip>, seen: set<Ip>, work: seq<Ip>): Option<Ip>
    requires Searchable(g, seen, work)
    decreases Budget(g, seen, work)
  {
    if work == [] then None else
    var u := work[0];
    var r := ScanNeighbours(g[u], servers, seen, work[1..]);
    assert forall v | v in g[u] :: Edge(g, u, v);
    ScanKeepsBudget(g, g[u], servers, seen, work[1..]);
    if r.found.Some? then r.found else Search(g, servers, r.seen, r.work)
  }

  /** What `bfs` answers for the node src: None stands for NULL. */
  ghost function Bfs(g: Adjacency, servers: set<Ip>, src: Ip): Option<Ip>
    requires Closed(g) && src in g
  {
    Search(g, servers, {src}, [src])
  }

  // ---- In which order the neighbours are looked at ----

  /** The server that stands last in ns among those not seen stands at i. */
  ghost predicate LastServerAt(ns: seq<Ip>, servers: set<Ip>, seen: set<Ip>, i: int) {
    && 0 <= i < |ns| && ns[i] in servers && ns[i] !in seen
    && forall j | i < j < |ns| :: ns[j] !in servers || ns[j] in seen
  }

  /** Behind its last place a does not come before b. */
  ghost predicate LaterThan(ns: seq<Ip>, a: Ip, b: Ip) {
    exists p :: 0 <= p < |ns| && ns[p] == a && b !in ns[p..]
  }

  lemma LaterStill(ns: seq<Ip>, v: Ip, a: Ip, b: Ip)
    requires LaterThan(ns, a, b) && b != v
    ensures LaterThan(ns + [v], a, b)
  {
    var p :| 0 <= p < |ns| && ns[p] == a && b !in ns[p..];
    assert (ns + [v])[p..] == ns[p..] + [v];
  }

  /** A scan stops exactly at the last unseen server of the list. */
  lemma {:induction false} ScanStops(ns: seq<Ip>, servers: set<Ip>, seen: set<Ip>, work: seq<Ip>)
    ensures var r := ScanNeighbours(ns, servers, seen, work);
            && (r.found.Some? ==> exists i :: LastServerAt(ns, servers, seen, i) && r.found.value == ns[i])
            && (r.found.None? ==> forall v | v in ns && v in servers :: v in seen)
    decreases |ns|
  {
    if ns != [] {
      var v, rest := ns[|ns| - 1], ns[..|ns| - 1];
      assert ns == rest + [v];
      if v in seen || v !in servers {
        var seen', work' := if v in seen then seen else seen + {v}, if v in seen then work else work + [v];
        ScanStops(rest, servers, seen', work');
        var r := ScanNeighbours(rest, servers, seen', work');
        if r.found.Some? {
          var i :| LastServerAt(rest, servers, seen', i) && r.found.value == rest[i];
          assert LastServerAt(ns, servers, seen, i) && ns[i] == rest[i];
        }
      } else {
        assert LastServerAt(ns, servers, seen, |rest|);
      }
    }
  }

  /** The unseen nodes that it passes are queued, those that stand later in the list first. */
  ghost predicate QueuedBackwards(ns: seq<Ip>, seen: set<Ip>, added: seq<Ip>) {
    && (forall v | v in added :: v in ns && v !in seen)
    && (forall a, b | 0 <= a < b < |added| :: LaterThan(ns, added[a], added[b]))
  }

  lemma {:induction false} ScanQueues(ns: seq<Ip>, servers: set<Ip>, seen: set<Ip>, work: seq<Ip>)
    returns (added: seq<Ip>)
    ensures var r := ScanNeighbours(ns, servers, seen, work);
            && r.work == work + added && QueuedBackwards(ns, seen, added)
            && (r.found.None? ==> forall v | v in ns && v !in seen :: v in added)
    decreases |ns|
  {
    added := [];
    if ns != [] {
      var v, rest := ns[|ns| - 1], ns[..|ns| - 1];
      assert ns == rest + [v];
      if v in seen {
        added := ScanQueues(rest, servers, seen, work);
        QueuedPast(rest, v, seen, added);
      } else if v !in servers {
        var more := ScanQueues(rest, servers, seen + {v}, work + [v]);
        QueuedFirst(rest, v, seen, more);
        added := [v] + more;
        assert work + [v] + more == work + added;
      }
    }
  }

  lemma QueuedPast(rest: seq<Ip>, v: Ip, seen: set<Ip>, added: seq<Ip>)
    requires QueuedBackwards(rest, seen, added) && v in seen
    ensures QueuedBackwards(rest + [v], seen, added)
  {
    forall a, b | 0 <= a < b < |added| ensures LaterThan(rest + [v], added[a], added[b]) {
      LaterStill(rest, v, added[a], added[b]);
    }
  }

  lemma QueuedFirst(rest: seq<Ip>, v: Ip, seen: set<Ip>, more: seq<Ip>)
    requires QueuedBackwards(rest, seen + {v}, more) && v !in seen
    ensures QueuedBackwards(rest + [v], seen, [v] + more)
  {
    var ns, added := rest + [v], [v] + more;
    forall a, b | 0 <= a < b < |added| ensures LaterThan(ns, added[a], added[b]) {
      assert added[b] == more[b - 1];
      if a == 0 {
        assert ns[|rest|] == v && ns[|rest|..] == [v] && more[b - 1] in more;
      } else {
        assert added[a] == more[a - 1];
        LaterStill(rest, v, more[a - 1], more[b - 1]);
      }
    }
  }

  /** A node linked to servers is sent to the one that stands last in its list. */
  lemma AdjacentServer(g: Adjacency, servers: set<Ip>, src: Ip)
    requires Closed(g) && src in g && exists v :: v in g[src] && v in servers && v != src
    ensures exists i :: LastServerAt(g[src], servers, {src}, i) && Bfs(g, servers, src) == Some(g[src][i])
  {
    ScanStops(g[src], servers, {src}, []);
    assert [src][1..] == [];
  }

  // ---- What the answer means ----

  /** s is a server other than src, and no other server is fewer hops away. */
  ghost predicate Closest(g: Adjacency, servers: set<Ip>, src: Ip, s: Ip) {
    && s in servers && s != src
    && exists k: nat ::
         && AtDistance(g, src, s, k)
         && forall t, j: nat | t in servers && t != src && Walk(g, src, t, j) :: k <= j
  }

  ghost predicate SomeServerReachable(g: Adjacency, servers: set<Ip>, src: Ip) {
    exists t :: t in servers && t != src && Reachable(g, src, t)
  }

  /** The first p queued nodes are at distance d, the others at distance d + 1. */
  ghost predicate Layered(g: Adjacency, src: Ip, work: seq<Ip>, p: nat, d: nat) {
    && p <= |work|
    && (forall i | 0 <= i < p :: AtDistance(g, src, work[i], d))
    && (forall i | p <= i < |work| :: AtDistance(g, src, work[i], d + 1))
  }

  ghost predicate NoServerSeen(servers: set<Ip>, src: Ip, seen: set<Ip>) {
    forall t | t in servers && t != src :: t !in seen
  }

  /** Scanning the neighbours of u, a node at distance d, extends the layered queue;
      a server it stops at is closest. The finished work list is `extra + work`, where
      `extra` holds u. */
  lemma {:induction false} ScanIsLayered(
    g: Adjacency, servers: set<Ip>, src: Ip, u: Ip, ns: seq<Ip>, seen: set<Ip>, work: seq<Ip>, p: nat, d: nat)
    requires Level(g, src, seen, [u] + work, d) && Layered(g, src, work, p, d)
    requires NoServerSeen(servers, src, seen)
    requires AtDistance(g, src, u, d) && forall v | v in ns :: Edge(g, u, v)
    ensures var r := ScanNeighbours(ns, servers, seen, work);
            && (r.found.Some? ==> Closest(g, servers, src, r.found.value))
            && (r.found.None? ==>
                  && Level(g, src, r.seen, [u] + r.work, d)
                  && Layered(g, src, r.work, p, d)
                  && NoServerSeen(servers, src, r.seen)
                  && (forall v | v in ns || v in seen :: v in r.seen))
    decreases |ns|
  {
    if ns != [] {
      var v, rest := ns[|ns| - 1], ns[..|ns| - 1];
      assert Edge(g, u, v);
      assert forall x | x in ns :: x == v || x in rest;
      if v in seen {
        ScanIsLayered(g, servers, src, u, rest, seen, work, p, d);
      } else {
        LevelDiscover(g, src, seen, [u] + work, d, u, v);
        if v in servers {
          assert forall t, j: nat | t in servers && t != src && Walk(g, src, t, j) :: d + 1 <= j;
        } else {
          assert [u] + (work + [v]) == [u] + work + [v];
          ScanIsLayered(g, servers, src, u, rest, seen + {v}, work + [v], p, d);
        }
      }
    }
  }

  lemma {:induction false} SearchIsClosest(
    g: Adjacency, servers: set<Ip>, src: Ip, seen: set<Ip>, work: seq<Ip>, p: nat, d: nat)
    requires Searchable(g, seen, work)
    requires Level(g, src, seen, work, d) && Layered(g, src, work, p, d)
    requires NoServerSeen(servers, src, seen)
    ensures var r := Search(g, servers, seen, work);
            && (r.Some? ==> Closest(g, servers, src, r.value))
            && (r.None? <==> !SomeServerReachable(g, servers, src))
    decreases Budget(g, seen, work), p == 0
  {
    if work == [] {
      SeenIsReachable(g, src, seen, d);
    } else if p == 0 {
      LevelAdvance(g, src, seen, work, d);
      SearchIsClosest(g, servers, src, seen, work, |work|, d + 1);
    } else {
      var u, rest := work[0], work[1..];
      assert work == [u] + rest;
      assert forall v | v in g[u] :: Edge(g, u, v);
      ScanIsLayered(g, servers, src, u, g[u], seen, rest, p - 1, d);
      var r := ScanNeighbours(g[u], servers, seen, rest);
      ScanKeepsBudget(g, g[u], servers, seen, rest);
      if r.found.None? {
        LevelFinish(g, src, r.seen, [u] + r.work, r.work, d, u);
        SearchIsClosest(g, servers, src, r.seen, r.work, p - 1, d);
      } else {
        ClosestIsReachable(g, servers, src, r.found.value);
      }
    }
  }

  lemma ClosestIsReachable(g: Adjacency, servers: set<Ip>, src: Ip, s: Ip)
    requires Closest(g, servers, src, s)
    ensures SomeServerReachable(g, servers, src)
  {
    var k: nat :| AtDistance(g, src, s, k);
    assert Walk(g, src, s, k);
    assert Reachable(g, src, s);
  }

  /** `bfs` answers NULL exactly when no other server can be reached, and otherwise a
      server at the least hop distance. */
  lemma BfsIsClosest(g: Adjacency, servers: set<Ip>, src: Ip)
    requires Closed(g) && src in g
    ensures var r := Bfs(g, servers, src);
            && (r.Some? ==> Closest(g, servers, src, r.value))
            && (r.None? <==> !SomeServerReachable(g, servers, src))
  {
    LevelStart(g, src);
    SearchIsClosest(g, servers, src, {src}, [src], 1, 0);
  }

  lemma ClosestSameEdges(g: Adjacency, h: Adjacency, servers: set<Ip>, src: Ip, s: Ip)
    requires SameEdges(g, h)
    ensures Closest(g, servers, src, s) <==> Closest(h, servers, src, s)
    ensures SomeServerReachable(g, servers, src) <==> SomeServerReachable(h, servers, src)
  {
    forall t, j: nat ensures Walk(g, src, t, j) <==> Walk(h, src, t, j) {
      WalkSameEdges(g, h, src, t, j);
    }
    forall j: nat ensures AtDistance(g, src, s, j) <==> AtDistance(h, src, s, j) {
      AtDistanceSameEdges(g, h, src, s, j);
    }
  }

  /** Two closest servers are equally far away. */
  lemma ClosestAreEquallyFar(g: Adjacency, servers: set<Ip>, src: Ip, s: Ip, t: Ip, j: nat, k: nat)
    requires Closest(g, servers, src, s) && Closest(g, servers, src, t)
    requires AtDistance(g, src, s, j) && AtDistance(g, src, t, k)
    ensures j == k
  {
  }
}
