/** The whole path from a links file to an answered request, and the agreement of the two
    name servers. */
module EndToEnd {
  import opened Sequences
  import opened Options
  import opened Graphs
  import opened NameLists
  import opened LinkState
  import opened Nearest
  import opened Routing
  import opened GenLsa
  import opened Topology
  import opened NameServer
  import opened BestServer
  import opened Numerals

  // ---- All rounds of announcements ----

  /** In round i the k-th processed node is heard when hearing[i](k), and lost otherwise. */
  function Rounds(links: Adjacency, order: seq<Ip>, hearing: seq<nat -> bool>): seq<Lsa>
    requires forall n | n in order :: n in links
    decreases |hearing|
  {
    if hearing == [] then [] else
    var i := |hearing| - 1;
    Rounds(links, order, hearing[..i]) + Announce(links, order, i, hearing[i])
  }

  /** What the sink hears. */
  ghost function HeardBySink(lines: seq<Line>, sink: Ip, hearing: seq<nat -> bool>): seq<Lsa>
    requires sink in LinksOf(lines)
  {
    var links := LinksOf(lines);
    LinksAreSymmetric(lines);
    StartsCrawlable(links, sink);
    CrawlIsListed(links, {sink}, links[sink]);
    Rounds(links, Order(links, sink), hearing)
  }

  /** One part of the output. */
  ghost predicate RoundIs(part: seq<Lsa>, links: Adjacency, sink: Ip, round: int, heard: nat -> bool)
    requires Closed(links) && sink in links
  {
    exists places :: Announced(part, links, Order(links, sink), round, heard, places)
  }

  lemma RoundIsAnnounced(links: Adjacency, sink: Ip, round: int, heard: nat -> bool)
    requires Closed(links) && sink in links && forall n | n in Order(links, sink) :: n in links
    ensures RoundIs(Announce(links, Order(links, sink), round, heard), links, sink, round, heard)
  {
    var places := AnnounceIsAnnounced(links, Order(links, sink), round, heard);
  }

  lemma NoRounds()
    ensures forall links, order | forall n | n in order :: n in links :: Rounds(links, order, []) == []
    ensures Flatten<Lsa>([]) == []
  {
  }

  lemma OneMoreRound(links: Adjacency, order: seq<Ip>, hearing: seq<nat -> bool>, heard: nat -> bool)
    requires forall n | n in order :: n in links
    ensures Rounds(links, order, hearing + [heard]) ==
            Rounds(links, order, hearing) + Announce(links, order, |hearing|, heard)
  {
    assert (hearing + [heard])[..|hearing|] == hearing;
  }

  /** The generator program; None stands for the KeyError on an unknown sink. What it prints is one part
      a round; part i carries the number i, and holds the announcements of the processed nodes that are
      heard in that round, in their order. */
  method Generate(lines: seq<Line>, sink: Ip, hearing: seq<nat -> bool>)
    returns (lsas: Option<seq<Lsa>>, ghost parts: seq<seq<Lsa>>)
    ensures lsas.None? <==> sink !in LinksOf(lines) && hearing != []
    ensures sink in LinksOf(lines) ==> lsas == Some(HeardBySink(lines, sink, hearing))
    ensures lsas.Some? ==> Flatten(parts) == lsas.value && |parts| == |hearing|
    ensures lsas.Some? && sink in LinksOf(lines) ==>
              Closed(LinksOf(lines)) &&
              forall i | 0 <= i < |parts| :: RoundIs(parts[i], LinksOf(lines), sink, i, hearing[i])
  {
    hide RoundIs, Rounds, Announce;
    NoRounds();
    parts := [];
    var links := ReadLinks(lines);
    LinksAreSymmetric(lines);
    if sink in links {
      StartsCrawlable(links, sink);
      CrawlIsListed(links, {sink}, links[sink]);
    }
    var all := [];
    for i := 0 to |hearing|
      invariant i > 0 ==> sink in links
      invariant sink in links ==> all == Rounds(links, Order(links, sink), hearing[..i])
      invariant all == Flatten(parts) && |parts| == i
      invariant forall j | 0 <= j < i :: sink in links && RoundIs(parts[j], links, sink, j, hearing[j])
    {
      assert hearing[..i + 1][..i] == hearing[..i];
      var round := GenerateLsas(links, sink, i, hearing[i]);
      if round.None? {
        return None, parts;
      }
      OneMoreRound(links, Order(links, sink), hearing[..i], hearing[i]);
      assert hearing[..i + 1] == hearing[..i] + [hearing[i]];
      RoundIsAnnounced(links, sink, i, hearing[i]);
      FlattenOneMore(parts, round.value);
      parts := parts + [round.value];
      all := all + round.value;
    }
    assert hearing[..|hearing|] == hearing;
    return Some(all), parts;
  }

  lemma {:induction false} RoundsAreTruthful(links: Adjacency, order: seq<Ip>, hearing: seq<nat -> bool>)
    requires forall n | n in order :: n in links
    ensures var h := Rounds(links, order, hearing);
            Truthful(links, h) && forall i | 0 <= i < |h| :: h[i].seqNo >= 0
    decreases |hearing|
  {
    if hearing != [] {
      var i := |hearing| - 1;
      RoundsAreTruthful(links, order, hearing[..i]);
      AnnouncedIsTruthful(links, order, i, hearing[i]);
    }
  }

  lemma HeardInBoth(a: seq<Lsa>, b: seq<Lsa>, n: Ip)
    ensures Heard(a + b, n) <==> Heard(a, n) || Heard(b, n)
  {
    var h := a + b;
    if i: nat :| i < |a| && a[i].sender == n && a[i].seqNo >= 0 {
      assert h[i].sender == n;
    }
    if i: nat :| i < |b| && b[i].sender == n && b[i].seqNo >= 0 {
      assert h[|a| + i].sender == n;
    }
    if i: nat :| i < |h| && h[i].sender == n && h[i].seqNo >= 0 {
      assert if i < |a| then h[i] == a[i] else h[i] == b[i - |a|];
    }
  }

  /** Some round processes n where it is not lost. */
  ghost predicate InSomeRound(order: seq<Ip>, hearing: seq<nat -> bool>, n: Ip) {
    exists i :: 0 <= i < |hearing| && HeardInOrder(order, hearing[i], n)
  }

  /** The senders heard over all rounds. */
  lemma {:induction false} HeardInRounds(links: Adjacency, order: seq<Ip>, hearing: seq<nat -> bool>, n: Ip)
    requires forall x | x in order :: x in links
    ensures Heard(Rounds(links, order, hearing), n) <==> InSomeRound(order, hearing, n)
    decreases |hearing|
  {
    hide Heard, HeardInOrder, Announce;
    if hearing != [] {
      var i := |hearing| - 1;
      HeardInRounds(links, order, hearing[..i], n);
      HeardInRound(links, order, i, hearing[i], n);
      HeardInBoth(Rounds(links, order, hearing[..i]), Announce(links, order, i, hearing[i]), n);
      if j :| 0 <= j < |hearing| && HeardInOrder(order, hearing[j], n) && j < i {
        assert hearing[..i][j] == hearing[j];
      }
      if j :| 0 <= j < i && HeardInOrder(order, hearing[..i][j], n) {
        assert hearing[..i][j] == hearing[j];
      }
    } else {
      NothingHeard(n);
    }
  }

  lemma NothingHeard(n: Ip)
    ensures !Heard([], n)
  {
  }

  /** An announcement of n reaches the sink. */
  ghost predicate GetsThrough(lines: seq<Line>, sink: Ip, hearing: seq<nat -> bool>, n: Ip)
    requires sink in LinksOf(lines)
  {
    LinksAreSymmetric(lines);
    InSomeRound(Order(LinksOf(lines), sink), hearing, n)
  }

  lemma HeardIsGettingThrough(lines: seq<Line>, sink: Ip, hearing: seq<nat -> bool>, n: Ip)
    requires sink in LinksOf(lines)
    ensures Heard(HeardBySink(lines, sink, hearing), n) <==> GetsThrough(lines, sink, hearing, n)
  {
    var links := LinksOf(lines);
    LinksAreSymmetric(lines);
    StartsCrawlable(links, sink);
    CrawlIsListed(links, {sink}, links[sink]);
    HeardInRounds(links, Order(links, sink), hearing, n);
  }

  /** Every link has an end that some round announced. */
  ghost predicate EveryLinkHeard(links: Adjacency, h: seq<Lsa>) {
    forall u, v | Edge(links, u, v) :: Heard(h, u) || Heard(h, v)
  }

  // ---- What the stored graph is worth ----

  /** The stored graph has exactly the links of the file when, and only when, every link has been
      heard at one end, however many announcements were lost. */
  lemma StoredGraphIsReal(lines: seq<Line>, base: Adjacency, h: seq<Lsa>)
    requires SimpleFile(lines) && NoLinks(base) && Truthful(LinksOf(lines), h)
    ensures SameEdges(ReplayLinks(base, h), LinksOf(lines)) <==> EveryLinkHeard(LinksOf(lines), h)
  {
    var links := LinksOf(lines);
    LinksAreSymmetric(lines);
    SimpleFileSimpleLinks(lines);
    FixedTopology(base, h, links);
    var adj := ReplayLinks(base, h);
    assert forall u, v :: Edge(adj, u, v) <==> Edge(links, u, v) && (Heard(h, u) || Heard(h, v));
  }

  /** The nodes that deserve an entry, seen in the links file. */
  ghost predicate IsClient(links: Adjacency, servers: seq<Ip>, ip: Ip) {
    ip !in servers && !IsRouter(ip) && ip in links && links[ip] != []
  }

  lemma SameEdgesSameClients(adj: Adjacency, links: Adjacency, servers: seq<Ip>, ip: Ip)
    requires SameEdges(adj, links)
    ensures Eligible(adj, servers, ip) <==> IsClient(links, servers, ip)
  {
    if ip in adj && adj[ip] != [] {
      assert Edge(adj, ip, adj[ip][0]) && Edge(links, ip, adj[ip][0]);
    }
    if ip in links && links[ip] != [] {
      assert Edge(links, ip, links[ip][0]) && Edge(adj, ip, links[ip][0]);
    }
  }

  /** The promise of the name server: a client is sent to a server at the least hop distance
      in the real network, or to the first listed server when it can reach none. */
  ghost predicate WellServed(links: Adjacency, servers: seq<Ip>, client: Ip, s: Ip) {
    if SomeServerReachable(links, Elements(servers), client) then Closest(links, Elements(servers), client, s)
    else servers != [] && s == servers[0]
  }

  lemma RouteServesWell(adj: Adjacency, links: Adjacency, servers: seq<Ip>, client: Ip)
    requires Closed(adj) && SameEdges(adj, links) && servers != [] && IsClient(links, servers, client)
    ensures Eligible(adj, servers, client) && WellServed(links, servers, client, Route(adj, servers, client))
  {
    SameEdgesSameClients(adj, links, servers, client);
    RouteIsClosest(adj, servers, client);
    ClosestSameEdges(adj, links, Elements(servers), client, Route(adj, servers, client));
  }

  // ---- The program from end to end ----

  lemma {:induction false} AllWellFormed(h: seq<Lsa>, lines: seq<Option<Lsa>>)
    requires |lines| == |h| && forall i | 0 <= i < |h| :: lines[i] == Some(h[i])
    ensures WellFormed(lines) == h
  {
    if h != [] {
      AllWellFormed(h[1..], lines[1..]);
      assert h == [h[0]] + h[1..];
    }
  }

  /** Somebody that is neither a server nor a router has sent something. */
  ghost predicate ClientHeard(servers: seq<Ip>, h: seq<Lsa>) {
    exists i :: 0 <= i < |h| && h[i].sender !in servers && !IsRouter(h[i].sender)
  }

  /** Only then is there a client list, and so a table. */
  lemma {:induction false} ClientsFromHistory(servers: seq<Ip>, h: seq<Lsa>)
    ensures ReplayClients([], servers, h) != [] <==> ClientHeard(servers, h)
    decreases |h|
  {
    if h != [] {
      var p := h[..|h| - 1];
      ClientsFromHistory(servers, p);
      if i :| 0 <= i < |p| && p[i].sender !in servers && !IsRouter(p[i].sender) {
        assert h[i] == p[i];
      }
      if i :| 0 <= i < |p| && h[i].sender !in servers && !IsRouter(h[i].sender) {
        assert p[i] == h[i];
      }
    }
  }

  /** Every stored neighbour is a listed node. */
  lemma LoadedIsClosed(links: Adjacency, file: seq<Ip>, h: seq<Lsa>)
    requires NoSelfLoops(links) && Truthful(links, h)
    ensures Closed(ReplayLinks(ListAll(map[], file), h))
  {
    ListAllHasNoLinks(map[], file);
    ReplayKeepsClosed(ListAll(map[], file), h);
  }

  /** The graph and the clients of a name server that reads these announcements. */
  lemma LoadedGraphServesWell(lines: seq<Line>, h: seq<Lsa>, file: seq<Ip>, client: Ip)
    requires SimpleFile(lines) && Truthful(LinksOf(lines), h) && EveryLinkHeard(LinksOf(lines), h)
    requires file != [] && IsClient(LinksOf(lines), ServerNames(Some(file)), client)
    ensures var adj, servers := ReplayLinks(ListAll(map[], file), h), ServerNames(Some(file));
            && servers != [] && Closed(adj) && Eligible(adj, servers, client)
            && WellServed(LinksOf(lines), servers, client, Route(adj, servers, client))
  {
    SimpleFileSimpleLinks(lines);
    LoadedIsClosed(LinksOf(lines), file, h);
    ListAllHasNoLinks(map[], file);
    StoredGraphIsReal(lines, ListAll(map[], file), h);
    var adj, servers := ReplayLinks(ListAll(map[], file), h), ServerNames(Some(file));
    ServersInFileOrder(file);
    assert file[0] in Elements(file);
    RouteServesWell(adj, LinksOf(lines), servers, client);
  }

  lemma HeardBySinkIsTruthful(lines: seq<Line>, sink: Ip, hearing: seq<nat -> bool>)
    requires SimpleFile(lines) && sink in LinksOf(lines)
    ensures var h := HeardBySink(lines, sink, hearing);
            && Truthful(LinksOf(lines), h) && NoSelfLinks(h)
            && forall i | 0 <= i < |h| :: h[i].seqNo >= 0
  {
    var links := LinksOf(lines);
    LinksAreSymmetric(lines);
    StartsCrawlable(links, sink);
    CrawlIsListed(links, {sink}, links[sink]);
    RoundsAreTruthful(links, Order(links, sink), hearing);
    SimpleFileSimpleLinks(lines);
  }

  lemma NoFileNoServers(file: seq<Ip>)
    ensures file == [] ==> ServerNames(Some(file)) == []
  {
  }

  /** Every link of the file has an end whose announcement reaches the sink in some round. */
  ghost predicate EveryLinkGetsThrough(lines: seq<Line>, sink: Ip, hearing: seq<nat -> bool>)
    requires sink in LinksOf(lines)
  {
    forall u, v | Edge(LinksOf(lines), u, v) ::
      GetsThrough(lines, sink, hearing, u) || GetsThrough(lines, sink, hearing, v)
  }

  /** So does some node that is neither a server nor a router. */
  ghost predicate ClientGetsThrough(lines: seq<Line>, sink: Ip, hearing: seq<nat -> bool>, servers: seq<Ip>)
    requires sink in LinksOf(lines)
  {
    exists n :: GetsThrough(lines, sink, hearing, n) && n !in servers && !IsRouter(n)
  }

  lemma LossesInTheHistory(lines: seq<Line>, sink: Ip, hearing: seq<nat -> bool>, servers: seq<Ip>)
    requires SimpleFile(lines) && sink in LinksOf(lines)
    ensures var h := HeardBySink(lines, sink, hearing);
            && (EveryLinkHeard(LinksOf(lines), h) <==> EveryLinkGetsThrough(lines, sink, hearing))
            && (ClientHeard(servers, h) <==> ClientGetsThrough(lines, sink, hearing, servers))
  {
    var links, h := LinksOf(lines), HeardBySink(lines, sink, hearing);
    HeardBySinkIsTruthful(lines, sink, hearing);
    hide LinksOf, HeardBySink, GetsThrough;
    forall n ensures Heard(h, n) <==> GetsThrough(lines, sink, hearing, n) {
      HeardIsGettingThrough(lines, sink, hearing, n);
    }
    if i :| 0 <= i < |h| && h[i].sender !in servers && !IsRouter(h[i].sender) {
      assert Heard(h, h[i].sender);
    }
    if n :| GetsThrough(lines, sink, hearing, n) && n !in servers && !IsRouter(n) {
      var i: nat :| i < |h| && h[i].sender == n && h[i].seqNo >= 0;
    }
  }

  /** Generate the announcements of a simple links file, load them with the server file, and
      answer one client. */
  method AnswerFromFiles(lines: seq<Line>, sink: Ip, hearing: seq<nat -> bool>, file: seq<Ip>, client: Ip)
    returns (server: Option<Ip>)
    requires SimpleFile(lines) && sink in LinksOf(lines)
    ensures var links, servers := LinksOf(lines), ServerNames(Some(file));
            file != [] && EveryLinkGetsThrough(lines, sink, hearing)
            && ClientGetsThrough(lines, sink, hearing, servers) && IsClient(links, servers, client) ==>
              server.Some? && WellServed(links, servers, client, server.value)
    ensures file == [] || !ClientGetsThrough(lines, sink, hearing, ServerNames(Some(file))) ==> server.None?
  {
    ghost var links, servers, h := LinksOf(lines), ServerNames(Some(file)), HeardBySink(lines, sink, hearing);
    HeardBySinkIsTruthful(lines, sink, hearing);
    LossesInTheHistory(lines, sink, hearing, servers);
    hide LinksOf, HeardBySink, SimpleFile, IsClient, WellServed, EveryLinkHeard, ClientHeard, Truthful, Order;
    hide EveryLinkGetsThrough, ClientGetsThrough;
    hide ServerNames, Network.Valid, ReplayLinks, ListAll, Table, Route, IpsOf, Eligible;
    var lsas;
    ghost var parts;
    lsas, parts := Generate(lines, sink, hearing);
    var text := seq(|lsas.value|, i requires 0 <= i < |lsas.value| => Some(lsas.value[i]));
    AllWellFormed(h, text);
    var serves, net, table;
    ghost var cnt;
    serves, net, table, cnt := Start(Some(file), Some(text));
    if EveryLinkHeard(links, h) && file != [] && IsClient(links, servers, client) {
      LoadedGraphServesWell(lines, h, file, client);
    }
    ClientsFromHistory(servers, h);
    NoFileNoServers(file);
    if table == null {
      return None;
    }
    server := AnswerByTable(net, table, client, cnt);
  }

  // ---- The two name servers agree ----

  ghost predicate PyTruthful(links: Adjacency, p: seq<PyLsa>) {
    forall l | l in p :: l.sender in links && l.nbrs == links[l.sender]
  }

  /** The two programs have heard the same senders, possibly in other announcements and in
      another order. */
  ghost predicate SameSenders(h: seq<Lsa>, p: seq<PyLsa>) {
    forall n :: Heard(h, n) <==> exists l :: l in p && l.sender == n
  }

  /** Under a fixed symmetric topology both programs build the same relation, although they
      compare sequence numbers differently. */
  lemma SameGraph(links: Adjacency, base: Adjacency, h: seq<Lsa>, p: seq<PyLsa>, status: map<Ip, PyLsa>, g: Adjacency)
    requires Symmetric(links) && NoSelfLoops(links) && NoLinks(base)
    requires Truthful(links, h) && PyTruthful(links, p) && SameSenders(h, p)
    requires StatusOf(status, p) && Represents(g, status)
    ensures SameEdges(ReplayLinks(base, h), g)
  {
    FixedTopology(base, h, links);
    forall u, v ensures Edge(ReplayLinks(base, h), u, v) <==> Edge(g, u, v) {
      assert Edge(g, u, v) <==> Described(status, u, v);
      assert u in status <==> Heard(h, u);
      assert v in status <==> Heard(h, v);
      assert u in status ==> status[u].nbrs == links[u];
      assert v in status ==> status[v].nbrs == links[v];
      assert Edge(links, u, v) <==> Edge(links, v, u);
    }
  }

  lemma ServerNamesAreTheFile(file: seq<Ip>)
    ensures forall s :: s in ServerNames(Some(file)) <==> s in file
    ensures file != [] ==> ServerNames(Some(file)) != []
  {
    ServersInFileOrder(file);
    forall s ensures s in ServerNames(Some(file)) <==> s in file {
      assert s in Elements(ServerNames(Some(file))) <==> s in Elements(file);
    }
    assert file != [] ==> file[0] in ServerNames(Some(file));
  }

  /** Two choices that are each closest, in graphs with the same edges, are equally far. */
  lemma SameDistance(adj: Adjacency, g: Adjacency, servers: seq<Ip>, file: seq<Ip>, client: Ip, c: Ip, py: Ip)
    returns (k: nat)
    requires SameEdges(adj, g) && client !in file && forall s :: s in servers <==> s in file
    requires Closest(adj, Elements(servers), client, c) && ClosestListed(g, file, client, py)
    ensures AtDistance(adj, client, c, k) && AtDistance(g, client, py, k)
  {
    var j: nat :| AtDistance(adj, client, c, j) &&
      forall t, i: nat | t in Elements(servers) && t != client && Walk(adj, client, t, i) :: j <= i;
    k :| AtDistance(g, client, py, k) && forall t, i: nat | t in file && Walk(g, client, t, i) :: k <= i;
    WalkSameEdges(adj, g, client, c, j);
    WalkSameEdges(adj, g, client, py, k);
    assert k <= j by { assert c in file && Walk(g, client, c, j); }
    assert j <= k by { assert py in Elements(servers) && py != client && Walk(adj, client, py, k); }
  }

  /** A client that can reach another node has a neighbour. */
  lemma ReachingNeedsLink(g: Adjacency, u: Ip, v: Ip, k: nat) returns (w: Ip)
    requires Walk(g, u, v, k) && u != v
    ensures Edge(g, u, w)
    decreases k
  {
    var x :| Walk(g, u, x, k - 1) && Edge(g, x, v);
    if x == u {
      w := v;
    } else {
      w := ReachingNeedsLink(g, u, x, k - 1);
    }
  }

  /** Announcements of the same fixed network, heard from the same senders: a client that is neither
      a server nor a router, and that can reach every server, is sent by both programs to servers at
      the same distance. */
  lemma NameServersAgree(
    links: Adjacency, h: seq<Lsa>, p: seq<PyLsa>, file: seq<Ip>, client: Ip,
    status: map<Ip, PyLsa>, g: Adjacency, dist: map<Ip, nat>)
    returns (k: nat)
    requires Symmetric(links) && NoSelfLoops(links)
    requires Truthful(links, h) && PyTruthful(links, p) && SameSenders(h, p)
    requires StatusOf(status, p) && Represents(g, status) && DistancesFrom(g, client, dist)
    requires file != [] && AllNamed(file) && client !in file && !IsRouter(client)
    requires forall t | t in file :: Reachable(g, client, t)
    ensures var adj, servers := ReplayLinks(ListAll(map[], file), h), ServerNames(Some(file));
            && Closed(adj) && servers != [] && Eligible(adj, servers, client)
            && AtDistance(adj, client, Route(adj, servers, client), k)
    ensures Best(file, dist).Some? && AtDistance(g, client, Best(file, dist).value, k)
  {
    var adj, servers := ReplayLinks(ListAll(map[], file), h), ServerNames(Some(file));
    ListAllHasNoLinks(map[], file);
    LoadedIsClosed(links, file, h);
    SameGraph(links, ListAll(map[], file), h, p, status, g);
    ServerNamesAreTheFile(file);
    hide Closed, Closest, ClosestListed, Reachable, Best, Route, SameEdges, Eligible, IsRouter, SomeServerReachable;
    BestIsClosest(g, client, file, dist);
    ReachesServer(adj, g, servers, file, client);
    RouteIsClosest(adj, servers, client);
    k := SameDistance(adj, g, servers, file, client, Route(adj, servers, client), Best(file, dist).value);
  }

  lemma ReachesServer(adj: Adjacency, g: Adjacency, servers: seq<Ip>, file: seq<Ip>, client: Ip)
    requires SameEdges(adj, g) && file != [] && client !in file && !IsRouter(client)
    requires Reachable(g, client, file[0]) && forall s :: s in servers <==> s in file
    ensures Eligible(adj, servers, client) && SomeServerReachable(adj, Elements(servers), client)
  {
    var j: nat :| Walk(g, client, file[0], j);
    var w := ReachingNeedsLink(g, client, file[0], j);
    assert Edge(adj, client, w);
    WalkSameEdges(adj, g, client, file[0], j);
    assert Reachable(adj, client, file[0]) && file[0] in Elements(servers);
  }

  // ---- The rounds that the generator prints ----

  /** An announcement as it is printed, and as Python splits it. */
  function Printed(l: Lsa): PyLsa
    requires l.seqNo >= 0
  {
    PyLsa(l.sender, Decimal(l.seqNo), l.nbrs)
  }

  function Print(h: seq<Lsa>): (p: seq<PyLsa>)
    requires forall i | 0 <= i < |h| :: h[i].seqNo >= 0
    ensures |p| == |h| && forall i | 0 <= i < |h| :: p[i] == Printed(h[i])
  {
    seq(|h|, i requires 0 <= i < |h| => Printed(h[i]))
  }

  /** Numbers stay below the number of rounds, and each sender's grow from announcement to announcement. */
  ghost predicate Ascends(h: seq<Lsa>, n: nat) {
    && (forall i | 0 <= i < |h| :: 0 <= h[i].seqNo < n)
    && (forall i, j | 0 <= i < j < |h| && h[i].sender == h[j].sender :: h[i].seqNo < h[j].seqNo)
  }

  lemma {:induction false} RoundsAscend(links: Adjacency, order: seq<Ip>, hearing: seq<nat -> bool>)
    requires NoDuplicates(order) && forall n | n in order :: n in links
    ensures Ascends(Rounds(links, order, hearing), |hearing|)
    decreases |hearing|
  {
    if hearing != [] {
      var k := |hearing| - 1;
      RoundsAscend(links, order, hearing[..k]);
      var a, b := Rounds(links, order, hearing[..k]), Announce(links, order, k, hearing[k]);
      var places := AnnounceIsAnnounced(links, order, k, hearing[k]);
      AscendsWithRound(a, b, links, order, hearing[k], k, places);
    }
  }

  lemma AscendsWithRound(
    a: seq<Lsa>, b: seq<Lsa>, links: Adjacency, order: seq<Ip>, heard: nat -> bool, n: nat, places: seq<nat>)
    requires Ascends(a, n) && NoDuplicates(order) && Announced(b, links, order, n, heard, places)
    ensures Ascends(a + b, n + 1)
  {
    var h := a + b;
    assert forall j | 0 <= j < |b| :: b[j].seqNo == n;
    forall i, j | 0 <= i < j < |b| ensures b[i].sender != b[j].sender {
      AnnouncedOnce(b, links, order, n, heard, places, i, j);
    }
    assert forall i | 0 <= i < |h| :: h[i] == if i < |a| then a[i] else b[i - |a|];
  }

  /** On a simple file, what the generator prints is announcements from rounds 0 to n - 1 in order. */
  lemma GeneratedIsFromRounds(lines: seq<Line>, sink: Ip, hearing: seq<nat -> bool>)
    requires SimpleFile(lines) && sink in LinksOf(lines)
    ensures var h := HeardBySink(lines, sink, hearing);
            (forall i | 0 <= i < |h| :: h[i].seqNo >= 0) && FromRounds(Print(h), |hearing|)
  {
    var links := LinksOf(lines);
    LinksAreSymmetric(lines);
    SimpleFileSimpleLinks(lines);
    StartsCrawlable(links, sink);
    CrawlIsListed(links, {sink}, links[sink]);
    EachReachableNodeOnce(links, sink);
    RoundsAscend(links, Order(links, sink), hearing);
    AscendingIsFromRounds(HeardBySink(lines, sink, hearing), |hearing|);
  }

  lemma AscendingIsFromRounds(h: seq<Lsa>, n: nat)
    requires Ascends(h, n)
    ensures FromRounds(Print(h), n)
  {
    var p := Print(h);
    forall i | 0 <= i < |p| ensures FromRound(p[i], n) && RoundOf(p[i]) == h[i].seqNo {
      DecimalIsNumeral(h[i].seqNo);
    }
  }

  /** So up to ten rounds of the generator, Python keeps every sender's latest announcement. */
  lemma GeneratedKeepsNewest(lines: seq<Line>, sink: Ip, hearing: seq<nat -> bool>, status: map<Ip, PyLsa>, x: Ip)
    requires SimpleFile(lines) && sink in LinksOf(lines) && |hearing| <= 10
    requires forall i | 0 <= i < |HeardBySink(lines, sink, hearing)| :: HeardBySink(lines, sink, hearing)[i].seqNo >= 0
    requires StatusOf(status, Print(HeardBySink(lines, sink, hearing))) && x in status
    ensures NewestByRound(Print(HeardBySink(lines, sink, hearing)), status[x])
  {
    hide HeardBySink, Print, FromRounds, StatusOf, NewestByRound, SimpleFile;
    GeneratedIsFromRounds(lines, sink, hearing);
    KeepsNewestExactlyWhen(|hearing|);
  }

  // ---- Both programs on one announcement file ----

  /** What the C program reads in a line: the number that Python keeps as text. */
  function ReadNumber(l: PyLsa): Lsa
    requires Digits(l.seqNo)
  {
    Lsa(l.sender, Value(l.seqNo), l.nbrs)
  }

  function ReadNumbers(p: seq<PyLsa>): (h: seq<Lsa>)
    requires forall l | l in p :: Digits(l.seqNo)
    ensures |h| == |p| && forall i | 0 <= i < |p| :: h[i] == ReadNumber(p[i])
  {
    seq(|p|, i requires 0 <= i < |p| => ReadNumber(p[i]))
  }

  lemma SameFileSameSenders(links: Adjacency, p: seq<PyLsa>)
    requires PyTruthful(links, p) && forall l | l in p :: Digits(l.seqNo)
    ensures Truthful(links, ReadNumbers(p)) && SameSenders(ReadNumbers(p), p)
  {
    var h := ReadNumbers(p);
    forall n ensures Heard(h, n) <==> exists l :: l in p && l.sender == n {
      if i: nat :| i < |h| && h[i].sender == n && h[i].seqNo >= 0 {
        assert p[i] in p;
      }
      if l :| l in p && l.sender == n {
        var i :| 0 <= i < |p| && p[i] == l;
        assert h[i].sender == n && h[i].seqNo >= 0;
      }
    }
  }

  /** Some line comes from a node that is neither a server nor a router. */
  ghost predicate ClientWrote(p: seq<PyLsa>, file: seq<Ip>) {
    exists l :: l in p && l.sender !in file && !IsRouter(l.sender)
  }

  lemma ClientWroteIsHeard(p: seq<PyLsa>, file: seq<Ip>)
    requires forall l | l in p :: Digits(l.seqNo)
    ensures ClientWrote(p, file) <==> ClientHeard(ServerNames(Some(file)), ReadNumbers(p))
  {
    ServerNamesAreTheFile(file);
    var h := ReadNumbers(p);
    if l :| l in p && l.sender !in file && !IsRouter(l.sender) {
      var i :| 0 <= i < |p| && p[i] == l;
      assert h[i].sender == l.sender;
    }
    if i :| 0 <= i < |h| && h[i].sender !in ServerNames(Some(file)) && !IsRouter(h[i].sender) {
      assert p[i] in p;
    }
  }

  ghost predicate EquallyFar(g: Adjacency, client: Ip, s: Ip, t: Ip) {
    exists k: nat :: AtDistance(g, client, s, k) && AtDistance(g, client, t, k)
  }

  /** What the generator prints, the C program reads as it was. */
  lemma PrintedIsRead(l: Lsa)
    requires l.seqNo >= 0
    ensures Digits(Printed(l).seqNo) && ReadNumber(Printed(l)) == l
  {
    DecimalIsNumeral(l.seqNo);
  }

  /** Both name servers read the same two files, announcements of a fixed symmetric network in any order
      and with any losses, and are asked by the same client. The C program has no table, and no answer,
      without a line from some client. If the one that asks is neither server nor router and reaches every
      server in what was announced, Python always answers, C exactly when there is such a line, and then
      the two answers are equally far away. */
  method AskBoth(p: seq<PyLsa>, file: seq<Ip>, client: Ip, ghost links: Adjacency)
    returns (c: Option<Ip>, py: Option<Ip>)
    requires Symmetric(links) && NoSelfLoops(links) && PyTruthful(links, p)
    requires forall l | l in p :: Digits(l.seqNo) && l.seqNo != ""
    ensures var adj := ReplayLinks(ListAll(map[], file), ReadNumbers(p));
            && file != [] && AllNamed(file) && client !in file && !IsRouter(client)
            && (forall t | t in file :: Reachable(adj, client, t)) ==>
              && py.Some? && (c.Some? <==> ClientWrote(p, file))
              && (c.Some? ==> EquallyFar(adj, client, c.value, py.value))
    ensures file == [] || !ClientWrote(p, file) ==> c.None?
  {
    ghost var h, adj := ReadNumbers(p), ReplayLinks(ListAll(map[], file), ReadNumbers(p));
    SameFileSameSenders(links, p);
    var lines := seq(|p|, i requires 0 <= i < |p| => Some(ReadNumber(p[i])));
    AllWellFormed(h, lines);
    NoSelfLinksIn(links, h);
    hide ServerNames, Network.Valid, ReplayLinks, ListAll, Table, Route, IpsOf, Eligible, Truthful, PyTruthful;
    hide Symmetric, NoSelfLoops, Best, AtDistance, Reachable, AllNamed, ClientWrote, ClientHeard, Closed, SameSenders;
    hide StatusOf, Represents, DistancesFrom, ReadNumbers;
    var serves, net, table;
    ghost var cnt;
    serves, net, table, cnt := Start(Some(file), Some(lines));
    var g, dist, status;
    py, g, dist, status := GetBestServer(client, file, p);
    c := None;
    ClientsFromHistory(ServerNames(Some(file)), h);
    NoFileNoServers(file);
    if table != null {
      c := AnswerByTable(net, table, client, cnt);
    }
    ClientWroteIsHeard(p, file);
    if file != [] && AllNamed(file) && client !in file && !IsRouter(client)
       && forall t | t in file :: Reachable(adj, client, t) {
      ReachableInBoth(links, file, h, p, status, g, client);
      var k := NameServersAgree(links, h, p, file, client, status, g, dist);
      SameGraphFromFile(links, file, h, p, status, g);
      AtDistanceSameEdges(adj, g, client, py.value, k);
      assert c.Some? ==> EquallyFar(adj, client, c.value, py.value);
    }
  }

  lemma NoSelfLinksIn(links: Adjacency, h: seq<Lsa>)
    requires Truthful(links, h) && NoSelfLoops(links)
    ensures forall i | 0 <= i < |h| :: NoSelfLink(h[i])
  {
  }

  lemma SameGraphFromFile(
    links: Adjacency, file: seq<Ip>, h: seq<Lsa>, p: seq<PyLsa>, status: map<Ip, PyLsa>, g: Adjacency)
    requires Symmetric(links) && NoSelfLoops(links) && Truthful(links, h) && PyTruthful(links, p)
    requires SameSenders(h, p) && StatusOf(status, p) && Represents(g, status)
    ensures SameEdges(ReplayLinks(ListAll(map[], file), h), g)
  {
    ListAllHasNoLinks(map[], file);
    SameGraph(links, ListAll(map[], file), h, p, status, g);
  }

  lemma ReachableInBoth(
    links: Adjacency, file: seq<Ip>, h: seq<Lsa>, p: seq<PyLsa>, status: map<Ip, PyLsa>, g: Adjacency, client: Ip)
    requires Symmetric(links) && NoSelfLoops(links) && Truthful(links, h) && PyTruthful(links, p)
    requires SameSenders(h, p) && StatusOf(status, p) && Represents(g, status)
    requires forall t | t in file :: Reachable(ReplayLinks(ListAll(map[], file), h), client, t)
    ensures forall t | t in file :: Reachable(g, client, t)
  {
    SameGraphFromFile(links, file, h, p, status, g);
    var adj := ReplayLinks(ListAll(map[], file), h);
    forall t | t in file ensures Reachable(g, client, t) {
      var j: nat :| Walk(adj, client, t, j);
      WalkSameEdges(adj, g, client, t, j);
    }
  }
}
