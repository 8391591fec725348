/** The Python name server's choice: newest announcements by text order, the graph they
    describe, and the server at the least hop distance. */
module BestServer {
  import opened Sequences
  import opened Options
  import opened Graphs
  import opened Dijkstra
  import opened Numerals

  /** An announcement as Python splits it: the sequence number stays text. */
  datatype PyLsa = PyLsa(sender: Ip, seqNo: string, nbrs: seq<Ip>)

  // ---- Newest announcement of every sender ----

  /** The announcement at i exceeds all earlier ones of its sender as text, and none of the first n exceeds
      it. */
  ghost predicate NewestAt(lsas: seq<PyLsa>, n: nat, i: nat)
    requires n <= |lsas|
  {
    && i < n
    && (forall j | 0 <= j < i && lsas[j].sender == lsas[i].sender :: TextLess(lsas[j].seqNo, lsas[i].seqNo))
    && (forall j | i <= j < n && lsas[j].sender == lsas[i].sender :: !TextLess(lsas[i].seqNo, lsas[j].seqNo))
  }

  /** l is the first announcement of its sender that no other one exceeds as text. */
  ghost predicate NewestByText(lsas: seq<PyLsa>, l: PyLsa) {
    exists i: nat :: NewestAt(lsas, |lsas|, i) && lsas[i] == l
  }

  lemma NewestIsGreatest(lsas: seq<PyLsa>, l: PyLsa)
    requires NewestByText(lsas, l)
    ensures l in lsas && forall m | m in lsas && m.sender == l.sender :: !TextLess(l.seqNo, m.seqNo)
  {
    var i: nat :| NewestAt(lsas, |lsas|, i) && lsas[i] == l;
    forall m | m in lsas && m.sender == l.sender ensures !TextLess(l.seqNo, m.seqNo) {
      TextLessTotal(l.seqNo, m.seqNo);
    }
  }

  lemma Replaces(lsas: seq<PyLsa>, n: nat, i: nat)
    requires n < |lsas| && NewestAt(lsas, n, i) && lsas[i].sender == lsas[n].sender
    requires TextLess(lsas[i].seqNo, lsas[n].seqNo)
    ensures NewestAt(lsas, n + 1, n)
  {
    var held, heard := lsas[i].seqNo, lsas[n].seqNo;
    forall j | 0 <= j < n && lsas[j].sender == lsas[n].sender ensures TextLess(lsas[j].seqNo, heard) {
      TextLessTotal(held, lsas[j].seqNo);
      if lsas[j].seqNo != held {
        TextLessTransitive(lsas[j].seqNo, held, heard);
      }
    }
    TextLessIrreflexive(heard);
  }

  lemma FirstHeard(lsas: seq<PyLsa>, n: nat)
    requires n < |lsas| && forall j | 0 <= j < n :: lsas[j].sender != lsas[n].sender
    ensures NewestAt(lsas, n + 1, n)
  {
    TextLessIrreflexive(lsas[n].seqNo);
  }

  lemma Stays(lsas: seq<PyLsa>, n: nat, i: nat)
    requires n < |lsas| && NewestAt(lsas, n, i)
    requires lsas[n].sender == lsas[i].sender ==> !TextLess(lsas[i].seqNo, lsas[n].seqNo)
    ensures NewestAt(lsas, n + 1, i)
  {
  }

  method CurrentStatus(lsas: seq<PyLsa>) returns (status: map<Ip, PyLsa>)
    ensures StatusOf(status, lsas)
  {
    hide TextLess, NewestAt;
    status := map[];
    ghost var place: map<Ip, nat> := map[];
    for n := 0 to |lsas|
      invariant forall x :: x in status <==> exists j :: 0 <= j < n && lsas[j].sender == x
      invariant place.Keys == status.Keys
      invariant forall x | x in status ::
                  place[x] < n && NewestAt(lsas, n, place[x]) && lsas[place[x]] == status[x] && status[x].sender == x
    {
      var l := lsas[n];
      forall x | x in status && (x != l.sender || !TextLess(status[x].seqNo, l.seqNo))
        ensures NewestAt(lsas, n + 1, place[x])
      {
        Stays(lsas, n, place[x]);
      }
      if l.sender !in status || TextLess(status[l.sender].seqNo, l.seqNo) {
        if l.sender in status {
          Replaces(lsas, n, place[l.sender]);
        } else {
          FirstHeard(lsas, n);
        }
        status, place := status[l.sender := l], place[l.sender := n];
      }
    }
    forall x | x in status ensures NewestByText(lsas, status[x]) {
      assert NewestAt(lsas, |lsas|, place[x]) && lsas[place[x]] == status[x];
    }
    forall x ensures x in status <==> exists l :: l in lsas && l.sender == x {
      if l :| l in lsas && l.sender == x {
        var j :| 0 <= j < |lsas| && lsas[j] == l;
      }
    }
  }

  /** status is the dictionary that the program keeps for the announcements p. */
  ghost predicate StatusOf(status: map<Ip, PyLsa>, p: seq<PyLsa>) {
    && (forall n :: n in status <==> exists l :: l in p && l.sender == n)
    && (forall n | n in status :: status[n].sender == n && NewestByText(p, status[n]))
  }

  // ---- Numbered rounds ----

  /** Announcements from rounds 0 to n - 1, each sender's in the order of the rounds; which of them
      were lost is open. */
  ghost predicate FromRounds(p: seq<PyLsa>, n: nat) {
    && (forall i | 0 <= i < |p| :: FromRound(p[i], n))
    && (forall i, j | 0 <= i < j < |p| && p[i].sender == p[j].sender :: RoundOf(p[i]) < RoundOf(p[j]))
  }

  ghost predicate FromRound(l: PyLsa, n: nat) {
    exists r: nat :: r < n && l.seqNo == Decimal(r)
  }

  function RoundOf(l: PyLsa): nat {
    if Digits(l.seqNo) then Value(l.seqNo) else 0
  }

  ghost predicate NewestByRound(p: seq<PyLsa>, l: PyLsa) {
    forall m | m in p && m.sender == l.sender :: RoundOf(m) <= RoundOf(l)
  }

  /** Whatever was lost, the dictionary keeps every sender's announcement from the latest round. */
  ghost predicate KeepsNewest(n: nat) {
    forall p, status, x | FromRounds(p, n) && StatusOf(status, p) && x in status :: NewestByRound(p, status[x])
  }

  /** Text order keeps the newest announcements for up to ten rounds, and not for more. */
  lemma KeepsNewestExactlyWhen(n: nat)
    ensures KeepsNewest(n) <==> n <= 10
  {
    if n <= 10 {
      forall p: seq<PyLsa>, status: map<Ip, PyLsa>, x | FromRounds(p, n) && StatusOf(status, p) && x in status
        ensures NewestByRound(p, status[x])
      {
        NewestIsGreatest(p, status[x]);
        forall m: PyLsa | m in p && m.sender == status[x].sender
          ensures RoundOf(m) <= RoundOf(status[x])
        {
          OneDigit(m, n);
          OneDigit(status[x], n);
          OrderAtEqualLength(status[x].seqNo, m.seqNo);
        }
      }
    } else {
      NineStays(Ip("x"), n);
    }
  }

  lemma OneDigit(l: PyLsa, n: nat)
    requires FromRound(l, n) && n <= 10
    ensures |l.seqNo| == 1 && Digits(l.seqNo)
  {
    var r: nat :| r < n && l.seqNo == Decimal(r);
    DecimalIsNumeral(r);
  }

  /** Announcement 10 does not replace announcement 9. */
  lemma NineStays(x: Ip, n: nat)
    requires n > 10
    ensures !KeepsNewest(n)
  {
    var nine, ten := PyLsa(x, Decimal(9), [Ip("y")]), PyLsa(x, Decimal(10), [Ip("y")]);
    DecimalIsNumeral(9);
    DecimalIsNumeral(10);
    assert Decimal(1) == "1" && Decimal(9) == "9" && Decimal(10) == "10";
    var p, status := [nine, ten], map[x := nine];
    assert FromRound(nine, n) && FromRound(ten, n);
    assert FromRounds(p, n);
    assert StatusOf(status, p) by {
      assert p[0] in p && p[0].sender == x;
      assert !TextLess("9", "9") && !TextLess("9", "10");
      assert NewestAt(p, |p|, 0) && p[0] == nine;
    }
    assert ten in p && !NewestByRound(p, status[x]);
  }

  // ---- The graph ----

  /** The keys of a dictionary in some order. */
  method Items(m: set<Ip>) returns (order: seq<Ip>)
    ensures NoDuplicates(order) && Elements(order) == m
  {
    order := [];
    var rest := m;
    while rest != {}
      invariant rest <= m && Elements(order) == m - rest && NoDuplicates(order)
    {
      var k :| k in rest;
      assert Elements(order + [k]) == Elements(order) + {k};
      rest, order := rest - {k}, order + [k];
    }
  }

  /** What the dictionary says: a sender's own list, and for a node that sent nothing the
      senders that list it. */
  ghost predicate Described(status: map<Ip, PyLsa>, u: Ip, v: Ip) {
    if u in status then v in status[u].nbrs else v in status && u in status[v].nbrs
  }

  ghost predicate Represents(g: Adjacency, status: map<Ip, PyLsa>) {
    forall u, v :: Edge(g, u, v) <==> Described(status, u, v)
  }

  /** Every node named by a kept announcement. */
  ghost function Named(status: map<Ip, PyLsa>): set<Ip> {
    set u, v | u in status && v in status[u].nbrs :: v
  }

  method CollectNodes(status: map<Ip, PyLsa>) returns (nodes: seq<Ip>)
    ensures Elements(nodes) == status.Keys + Named(status)
  {
    var keys := Items(status.Keys);
    nodes := keys;
    for i := 0 to |keys|
      invariant status.Keys <= Elements(nodes) <= status.Keys + Named(status)
      invariant forall j, b | 0 <= j < i && b in status[keys[j]].nbrs :: b in nodes
    {
      var n := keys[i];
      assert n in Elements(keys);
      var nbrs := status[n].nbrs;
      for k := 0 to |nbrs|
        invariant status.Keys <= Elements(nodes) <= status.Keys + Named(status)
        invariant forall j, b | 0 <= j < i && b in status[keys[j]].nbrs :: b in nodes
        invariant forall j | 0 <= j < k :: nbrs[j] in nodes
      {
        if nbrs[k] !in nodes {
          assert n in status && nbrs[k] in status[n].nbrs;
          assert forall x :: x in nodes + [nbrs[k]] <==> x in nodes || x == nbrs[k];
          nodes := nodes + [nbrs[k]];
        }
      }
    }
    forall b | b in Named(status) ensures b in nodes {
      var u :| u in status && b in status[u].nbrs;
      assert u in Elements(keys);
      var j :| 0 <= j < |keys| && keys[j] == u;
    }
  }

  /** The entries made so far: one for every sender, and for some silent nodes the senders
      that list them. */
  ghost predicate Partial(g: Adjacency, status: map<Ip, PyLsa>) {
    && status.Keys <= g.Keys
    && (forall u | u in status :: g[u] == status[u].nbrs)
    && (forall u, v | u in g && u !in status :: v in g[u] <==> v in status && u in status[v].nbrs)
  }

  /** The senders that list the silent node n. An entry of another silent node never lists
      n, because it holds senders only. */
  method ListenersOf(g: Adjacency, ghost status: map<Ip, PyLsa>, n: Ip) returns (found: seq<Ip>)
    requires Partial(g, status) && n !in g
    ensures forall v :: v in found <==> v in status && n in status[v].nbrs
  {
    var keys := Items(g.Keys);
    found := [];
    for i := 0 to |keys|
      invariant forall v :: v in found <==> exists j :: 0 <= j < i && keys[j] == v && n in g[v]
    {
      assert keys[i] in Elements(keys);
      assert forall v :: v in found + [keys[i]] <==> v in found || v == keys[i];
      if n in g[keys[i]] {
        found := found + [keys[i]];
      }
    }
    forall v ensures v in found <==> v in status && n in status[v].nbrs {
      if v in status && n in status[v].nbrs {
        assert v in Elements(keys);
        var j :| 0 <= j < |keys| && keys[j] == v;
      }
    }
  }

  /** The neighbour dictionary that the search walks. */
  method BuildGraph(status: map<Ip, PyLsa>) returns (neighbors: Adjacency)
    ensures Represents(neighbors, status)
  {
    neighbors := map k | k in status :: status[k].nbrs;
    var nodes := CollectNodes(status);
    for i := 0 to |nodes|
      invariant Partial(neighbors, status)
      invariant forall j | 0 <= j < i ::
                  nodes[j] in neighbors || forall v | v in status :: nodes[j] !in status[v].nbrs
    {
      var n := nodes[i];
      if n !in neighbors {
        var found := ListenersOf(neighbors, status, n);
        if found != [] {
          neighbors := neighbors[n := found];
        } else {
          assert forall v :: v !in found;
        }
      }
    }
    forall u, v ensures Edge(neighbors, u, v) <==> Described(status, u, v) {
      assert v in status && u in status[v].nbrs ==> u in Elements(nodes);
    }
  }

  // ---- The choice ----

  /** dist is what the search finds in g from client. */
  ghost predicate DistancesFrom(g: Adjacency, client: Ip, dist: map<Ip, nat>) {
    && (forall v :: v in dist <==> Reachable(g, client, v))
    && (forall v | v in dist :: AtDistance(g, client, v, dist[v]))
  }

  /** A dictionary lookup that defaults to -1. */
  function DistOf(dist: map<Ip, nat>, s: Ip): int {
    if s in dist then dist[s] else -1
  }

  /** The first named server that no later one undercuts. An empty name counts as no
      choice yet, as in Python. */
  function Best(servers: seq<Ip>, dist: map<Ip, nat>): Option<Ip>
    decreases |servers|
  {
    if servers == [] then None else
    var best, s := Best(servers[..|servers| - 1], dist), servers[|servers| - 1];
    if best.None? || best.value.text == "" || DistOf(dist, s) < DistOf(dist, best.value) then Some(s) else best
  }

  /** The whole run. The dictionaries it builds on the way are returned beside the choice. */
  method GetBestServer(client: Ip, servers: seq<Ip>, lsas: seq<PyLsa>)
    returns (best: Option<Ip>, g: Adjacency, dist: map<Ip, nat>, status: map<Ip, PyLsa>)
    ensures StatusOf(status, lsas) && Represents(g, status) && DistancesFrom(g, client, dist)
    ensures best == Best(servers, dist)
    ensures servers != [] && AllNamed(servers) ==>
              exists i :: 0 <= i < |servers| && best == Some(servers[i]) && FirstLeast(servers, dist, i)
    ensures servers != [] && AllNamed(servers) ==>
              best.Some? &&
              (ClosestListed(g, servers, client, best.value) <==> forall t | t in servers :: Reachable(g, client, t))
  {
    var current := CurrentStatus(lsas);
    var neighbors := BuildGraph(current);
    var dists := Dijkstra.Dijkstra(neighbors, client);
    var bestDist := 0;
    best := None;
    for i := 0 to |servers|
      invariant best == Best(servers[..i], dists)
      invariant best.Some? ==> bestDist == DistOf(dists, best.value)
    {
      assert servers[..i + 1][..i] == servers[..i];
      var s := servers[i];
      if best.None? || best.value.text == "" || DistOf(dists, s) < bestDist {
        best, bestDist := Some(s), DistOf(dists, s);
      }
    }
    assert servers[..|servers|] == servers;
    g, dist, status := neighbors, dists, current;
    if servers != [] && AllNamed(servers) {
      BestIsClosest(g, client, servers, dist);
      var i := BestIsFirstLeast(servers, dist);
    }
  }

  /** The server at i is nearer than all before it, by the dictionary, and none after it is nearer; a
      server that cannot be reached counts -1. */
  ghost predicate FirstLeast(servers: seq<Ip>, dist: map<Ip, nat>, i: nat)
    requires i < |servers|
  {
    var d: int := if servers[i] in dist then dist[servers[i]] else -1;
    && (forall j | 0 <= j < i :: d < if servers[j] in dist then dist[servers[j]] else -1)
    && (forall j | i < j < |servers| :: d <= if servers[j] in dist then dist[servers[j]] else -1)
  }

  /** Of several equally near servers the first one is chosen. */
  lemma {:induction false} BestIsFirstLeast(servers: seq<Ip>, dist: map<Ip, nat>) returns (i: nat)
    requires servers != [] && AllNamed(servers)
    ensures i < |servers| && Best(servers, dist) == Some(servers[i]) && FirstLeast(servers, dist, i)
    decreases |servers|
  {
    var p, s := servers[..|servers| - 1], servers[|servers| - 1];
    assert forall j | 0 <= j < |p| :: servers[j] == p[j];
    if p == [] {
      i := 0;
    } else {
      i := BestIsFirstLeast(p, dist);
      if DistOf(dist, s) < DistOf(dist, p[i]) {
        i := |p|;
      }
    }
  }

  ghost predicate AllNamed(servers: seq<Ip>) {
    forall s | s in servers :: s.text != ""
  }

  /** The choice has the least dictionary value. */
  lemma {:induction false} BestIsLeast(servers: seq<Ip>, dist: map<Ip, nat>)
    requires servers != [] && AllNamed(servers)
    ensures var b := Best(servers, dist);
            b.Some? && b.value in servers && forall t | t in servers :: DistOf(dist, b.value) <= DistOf(dist, t)
    decreases |servers|
  {
    var p, s := servers[..|servers| - 1], servers[|servers| - 1];
    assert forall t :: t in servers <==> t in p || t == s;
    if p != [] {
      BestIsLeast(p, dist);
    }
  }

  /** s can be reached and no listed server is fewer hops away. */
  ghost predicate ClosestListed(g: Adjacency, servers: seq<Ip>, client: Ip, s: Ip) {
    && s in servers
    && exists k: nat ::
         && AtDistance(g, client, s, k)
         && forall t, j: nat | t in servers && Walk(g, client, t, j) :: k <= j
  }

  /** Because an unreachable server counts as -1, the choice is a closest server exactly
      when every server can be reached. */
  lemma BestIsClosest(g: Adjacency, client: Ip, servers: seq<Ip>, dist: map<Ip, nat>)
    requires servers != [] && AllNamed(servers)
    requires DistancesFrom(g, client, dist)
    ensures var b := Best(servers, dist);
            b.Some? &&
            (ClosestListed(g, servers, client, b.value) <==> forall t | t in servers :: Reachable(g, client, t))
  {
    BestIsLeast(servers, dist);
    var b := Best(servers, dist).value;
    if forall t | t in servers :: Reachable(g, client, t) {
      assert Reachable(g, client, b);
      assert AtDistance(g, client, b, dist[b]);
      forall t, j: nat | t in servers && Walk(g, client, t, j) ensures dist[b] <= j {
        assert Reachable(g, client, t);
        var k := ShortestBelow(g, client, t, j);
        DistanceIsUnique(g, client, t, k, dist[t]);
      }
    } else {
      var t :| t in servers && !Reachable(g, client, t);
      assert DistOf(dist, b) <= DistOf(dist, t) == -1;
    }
  }

  /** As soon as some server cannot be reached, the choice is one of those. */
  lemma UnreachableIsChosen(g: Adjacency, client: Ip, servers: seq<Ip>, dist: map<Ip, nat>)
    requires servers != [] && AllNamed(servers) && DistancesFrom(g, client, dist)
    ensures var b := Best(servers, dist);
            b.Some? && (!Reachable(g, client, b.value) <==> exists t :: t in servers && !Reachable(g, client, t))
  {
    BestIsLeast(servers, dist);
    var b := Best(servers, dist).value;
    if t :| t in servers && !Reachable(g, client, t) {
      assert DistOf(dist, b) <= DistOf(dist, t) == -1;
    }
  }

  /** What a client, a router and a server announce that form a line. */
  function InLine(client: Ip, router: Ip, near: Ip): seq<PyLsa> {
    [PyLsa(client, "0", [router]), PyLsa(router, "0", [client, near]), PyLsa(near, "0", [router])]
  }

  lemma LineStatus(client: Ip, router: Ip, near: Ip, status: map<Ip, PyLsa>)
    requires client != router && router != near && client != near
    requires StatusOf(status, InLine(client, router, near))
    ensures status.Keys == {client, router, near}
    ensures status[client].nbrs == [router] && status[router].nbrs == [client, near] && status[near].nbrs == [router]
  {
    hide TextLess, NewestByText;
    var p := InLine(client, router, near);
    assert p[0] in p && p[1] in p && p[2] in p;
    forall n | n in status ensures status[n] in p {
      NewestIsGreatest(p, status[n]);
    }
    forall n | n in status ensures n == client || n == router || n == near {
      var l :| l in p && l.sender == n;
    }
  }

  lemma LineEdges(client: Ip, router: Ip, near: Ip, status: map<Ip, PyLsa>, g: Adjacency, u: Ip, v: Ip)
    requires client != router && router != near && client != near
    requires StatusOf(status, InLine(client, router, near)) && Represents(g, status)
    ensures Edge(g, u, v) <==>
            (u == client && v == router) || (u == router && (v == client || v == near)) || (u == near && v == router)
  {
    hide StatusOf;
    LineStatus(client, router, near, status);
    assert Edge(g, u, v) <==> Described(status, u, v);
  }

  lemma {:induction false} StaysOnLine(
    client: Ip, router: Ip, near: Ip, status: map<Ip, PyLsa>, g: Adjacency, v: Ip, k: nat)
    requires client != router && router != near && client != near
    requires StatusOf(status, InLine(client, router, near)) && Represents(g, status) && Walk(g, client, v, k)
    ensures v == client || v == router || v == near
    decreases k
  {
    if k > 0 {
      var w :| Walk(g, client, w, k - 1) && Edge(g, w, v);
      LineEdges(client, router, near, status, g, w, v);
    }
  }

  /** On these announcements a server that nobody has heard of beats the one two hops away. */
  lemma UnreachableServerWins(
    client: Ip, router: Ip, near: Ip, lost: Ip, status: map<Ip, PyLsa>, g: Adjacency, dist: map<Ip, nat>)
    requires client != router && router != near && client != near && lost != client && lost != router && lost != near
    requires StatusOf(status, InLine(client, router, near)) && Represents(g, status) && DistancesFrom(g, client, dist)
    ensures AtDistance(g, client, near, 2) && Best([near, lost], dist) == Some(lost)
  {
    hide StatusOf, Represents, InLine;
    LineEdges(client, router, near, status, g, client, router);
    LineEdges(client, router, near, status, g, router, near);
    LineEdges(client, router, near, status, g, client, near);
    assert Walk(g, client, client, 0);
    assert Walk(g, client, router, 1);
    assert Walk(g, client, near, 2);
    assert forall w :: Walk(g, client, w, 0) ==> w == client;
    assert !Walk(g, client, near, 1);
    assert Reachable(g, client, near);
    if Reachable(g, client, lost) {
      var k: nat :| Walk(g, client, lost, k);
      StaysOnLine(client, router, near, status, g, lost, k);
    }
    assert [near, lost][..1] == [near] && [near][..0] == [];
    assert Best([near], dist) == Some(near);
    assert near in [near, lost];
  }
}
