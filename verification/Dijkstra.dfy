/** The list-based Dijkstra of the Python name server. Every edge costs one hop, so its
    work list is a breadth-first frontier. */
module Dijkstra {
  import opened Sequences
  import opened Options
  import opened Graphs

  /** A dictionary lookup that defaults to the empty list. */
  function NbrsOf(g: Adjacency, u: Ip): seq<Ip> {
    if u in g then g[u] else []
  }

  /** Everything a search from src could list. */
  ghost function Universe(g: Adjacency, src: Ip): set<Ip> {
    {src} + set u, v | u in g && v in g[u] :: v
  }

  function Without(q: seq<Ip>, u: Ip): seq<Ip> {
    if q == [] then [] else if q[0] == u then q[1..] else [q[0]] + Without(q[1..], u)
  }

  lemma {:induction false} WithoutOne(q: seq<Ip>, u: Ip)
    requires NoDuplicates(q) && u in q
    ensures var r := Without(q, u);
            |r| == |q| - 1 && NoDuplicates(r) && forall v :: v in r <==> v in q && v != u
  {
    assert forall i | 0 < i < |q| :: q[i] == q[1..][i - 1] && q[i] != q[0];
    if q[0] != u {
      WithoutOne(q[1..], u);
      var rest, r := Without(q[1..], u), Without(q, u);
      assert q[0] !in rest;
      forall i, j | 0 <= i < j < |r| ensures r[i] != r[j] {
        assert r[j] == rest[j - 1];
      }
    }
  }

  /** Every dictionary entry is the hop distance from src, and the work list is the
      frontier at level d, without repetitions. */
  ghost predicate Exploring(g: Adjacency, src: Ip, dist: map<Ip, nat>, work: seq<Ip>, d: nat) {
    && Level(g, src, dist.Keys, work, d) && NoDuplicates(work)
    && dist.Keys <= Universe(g, src)
    && (forall v | v in dist :: AtDistance(g, src, v, dist[v]))
    && (forall v | v in work :: v in dist && d <= dist[v] <= d + 1)
  }

  /** The first vertex of the work list with the least distance. */
  method Select(q: seq<Ip>, visited: set<Ip>, dist: map<Ip, nat>) returns (u: Option<Ip>)
    requires forall v | v in q :: v in dist && v !in visited
    ensures u.None? <==> q == []
    ensures u.Some? ==> u.value in q && forall v | v in q :: dist[u.value] <= dist[v]
  {
    u := None;
    for i := 0 to |q|
      invariant u.None? <==> i == 0
      invariant u.Some? ==> u.value in q && forall j | 0 <= j < i :: dist[u.value] <= dist[q[j]]
    {
      var v := q[i];
      if v !in visited && (u.None? || dist[v] < dist[u.value]) {
        u := Some(v);
      }
    }
  }

  lemma Raise(g: Adjacency, src: Ip, dist: map<Ip, nat>, work: seq<Ip>, d: nat)
    requires Exploring(g, src, dist, work, d)
    requires forall v | v in work :: dist[v] == d + 1
    ensures Exploring(g, src, dist, work, d + 1)
  {
    forall v | v in work ensures AtDistance(g, src, v, d + 1) {
      assert AtDistance(g, src, v, dist[v]);
    }
    LevelAdvance(g, src, dist.Keys, work, d);
  }

  /** u is being relaxed: it has left the work list q but its neighbours are not all met. */
  ghost predicate Relaxing(
    g: Adjacency, src: Ip, u: Ip, visited: set<Ip>, dist: map<Ip, nat>, q: seq<Ip>, d: nat)
  {
    && Exploring(g, src, dist, [u] + q, d) && u in dist && dist[u] == d
    && visited == dist.Keys - Elements(q)
  }

  /** A neighbour that is not visited is either new, or on the list within distance d + 1. */
  lemma NothingToImprove(
    g: Adjacency, src: Ip, u: Ip, visited: set<Ip>, dist: map<Ip, nat>, q: seq<Ip>, d: nat, v: Ip)
    requires Relaxing(g, src, u, visited, dist, q, d)
    ensures dist[u] == d && (v !in visited && v in dist ==> dist[v] <= d + 1)
    ensures v in visited ==> v in dist
  {
    if v !in visited && v in dist {
      assert v in q && v in [u] + q;
    }
  }

  lemma Discover(
    g: Adjacency, src: Ip, u: Ip, visited: set<Ip>, dist: map<Ip, nat>, q: seq<Ip>, d: nat, v: Ip)
    requires Relaxing(g, src, u, visited, dist, q, d) && Edge(g, u, v) && v !in dist
    ensures Relaxing(g, src, u, visited, dist[v := d + 1], q + [v], d)
    ensures Left(g, src, dist[v := d + 1], q + [v]) == Left(g, src, dist, q)
  {
    hide Level, AtDistance, Universe, Edge, Left, NoDuplicates;
    var work, dist' := [u] + q, dist[v := d + 1];
    assert dist'.Keys == dist.Keys + {v};
    DiscoverLevel(g, src, u, dist, q, d, v);
    InUniverse(g, src, u, v);
    assert [u] + (q + [v]) == work + [v] && v !in work;
    AppendDistinct(work, v);
    assert Elements(q + [v]) == Elements(q) + {v};
    DiscoverBudget(g, src, dist, q, d, v);
  }

  lemma DiscoverBudget(g: Adjacency, src: Ip, dist: map<Ip, nat>, q: seq<Ip>, d: nat, v: Ip)
    requires v in Universe(g, src) && v !in dist
    ensures Left(g, src, dist[v := d + 1], q + [v]) == Left(g, src, dist, q)
  {
    hide Universe;
    assert dist[v := d + 1].Keys == dist.Keys + {v};
    OneLess(Universe(g, src), dist.Keys, v);
  }

  lemma OneLess(all: set<Ip>, seen: set<Ip>, v: Ip)
    requires v in all && v !in seen
    ensures |all - (seen + {v})| == |all - seen| - 1
  {
    assert all - (seen + {v}) == all - seen - {v};
  }

  lemma DiscoverLevel(g: Adjacency, src: Ip, u: Ip, dist: map<Ip, nat>, q: seq<Ip>, d: nat, v: Ip)
    requires Level(g, src, dist.Keys, [u] + q, d) && AtDistance(g, src, u, d) && Edge(g, u, v) && v !in dist
    ensures Level(g, src, dist.Keys + {v}, [u] + (q + [v]), d) && AtDistance(g, src, v, d + 1)
  {
    LevelDiscover(g, src, dist.Keys, [u] + q, d, u, v);
    assert [u] + q + [v] == [u] + (q + [v]);
  }

  lemma InFront(u: Ip, s: seq<Ip>)
    requires NoDuplicates(s) && u !in s
    ensures NoDuplicates([u] + s) && forall v :: v in [u] + s <==> v == u || v in s
  {
  }

  lemma AppendDistinct(s: seq<Ip>, v: Ip)
    requires NoDuplicates(s) && v !in s
    ensures NoDuplicates(s + [v])
  {
  }

  lemma InUniverse(g: Adjacency, src: Ip, u: Ip, v: Ip)
    requires Edge(g, u, v)
    ensures v in Universe(g, src)
  {
  }

  lemma Finish(g: Adjacency, src: Ip, u: Ip, visited: set<Ip>, dist: map<Ip, nat>, q: seq<Ip>, d: nat)
    requires Relaxing(g, src, u, visited, dist, q, d)
    requires forall v | Edge(g, u, v) :: v in dist
    ensures Exploring(g, src, dist, q, d) && visited == dist.Keys - Elements(q)
  {
    LevelFinish(g, src, dist.Keys, [u] + q, q, d, u);
    assert forall i | 0 <= i < |q| :: ([u] + q)[i + 1] == q[i];
  }

  ghost function Left(g: Adjacency, src: Ip, dist: map<Ip, nat>, q: seq<Ip>): nat {
    |Universe(g, src) - dist.Keys| + |q|
  }

  /** Adds the unlisted neighbours of u to the work list. */
  method Relax(g: Adjacency, src: Ip, u: Ip, visited: set<Ip>, dist: map<Ip, nat>, q: seq<Ip>, ghost d: nat)
    returns (dist': map<Ip, nat>, q': seq<Ip>)
    requires Relaxing(g, src, u, visited, dist, q, d) && u in dist
    ensures Exploring(g, src, dist', q', d) && visited == dist'.Keys - Elements(q')
    ensures Left(g, src, dist', q') == Left(g, src, dist, q)
  {
    hide Relaxing, Exploring, Left;
    dist', q' := dist, q;
    var ns := NbrsOf(g, u);
    for i := 0 to |ns|
      invariant Relaxing(g, src, u, visited, dist', q', d) && u in dist'
      invariant forall j | 0 <= j < i :: ns[j] in dist'
      invariant Left(g, src, dist', q') == Left(g, src, dist, q)
    {
      var v, alt := ns[i], dist'[u] + 1;
      NothingToImprove(g, src, u, visited, dist', q', d, v);
      if v !in visited && (v !in dist' || alt < dist'[v]) {
        Discover(g, src, u, visited, dist', q', d, v);
        dist', q' := dist'[v := alt], q' + [v];
      }
    }
    Finish(g, src, u, visited, dist', q', d);
  }

  lemma Begin(g: Adjacency, src: Ip)
    ensures Exploring(g, src, map[src := 0], [src], 0)
  {
    LevelStart(g, src);
    assert map[src := 0].Keys == {src};
  }

  /** Taking the selected vertex off the work list, after moving up a level if needed. */
  lemma Take(g: Adjacency, src: Ip, dist: map<Ip, nat>, q: seq<Ip>, visited: set<Ip>, u: Ip, d: nat) returns (d': nat)
    requires Exploring(g, src, dist, q, d) && visited == dist.Keys - Elements(q)
    requires u in q && forall v | v in q :: v in dist && dist[u] <= dist[v]
    ensures Relaxing(g, src, u, visited + {u}, dist, Without(q, u), d')
    ensures |Without(q, u)| < |q|
  {
    hide Level, AtDistance, Universe, NoDuplicates;
    d' := d;
    if dist[u] == d + 1 {
      Raise(g, src, dist, q, d);
      d' := d + 1;
    }
    WithoutOne(q, u);
    InFront(u, Without(q, u));
    Reorder(g, src, dist, q, [u] + Without(q, u), d');
  }

  /** The dictionary of hop distances from src, defined on exactly the reachable nodes. */
  method Dijkstra(g: Adjacency, src: Ip) returns (dist: map<Ip, nat>)
    ensures forall v :: v in dist <==> Reachable(g, src, v)
    ensures forall v | v in dist :: AtDistance(g, src, v, dist[v])
  {
    hide Relaxing, Universe, Level;
    dist := map[src := 0];
    var visited: set<Ip>, q := {}, [src];
    ghost var d := 0;
    Begin(g, src);
    while q != []
      invariant Exploring(g, src, dist, q, d) && visited == dist.Keys - Elements(q)
      decreases Left(g, src, dist, q)
    {
      var u := Select(q, visited, dist);
      d := Take(g, src, dist, q, visited, u.value, d);
      q, visited := Without(q, u.value), visited + {u.value};
      dist, q := Relax(g, src, u.value, visited, dist, q, d);
    }
    SeenIsReachable(g, src, dist.Keys, d);
  }

  lemma Reorder(g: Adjacency, src: Ip, dist: map<Ip, nat>, q: seq<Ip>, q': seq<Ip>, d: nat)
    requires Exploring(g, src, dist, q, d)
    requires NoDuplicates(q') && forall v :: v in q' <==> v in q
    ensures Exploring(g, src, dist, q', d)
  {
  }
}
