/** The routing table: which server each client is sent to, and the search in it. */
module Routing {
  import opened Sequences
  import opened Options
  import opened Graphs
  import opened LinkState
  import opened Nearest

  datatype RoutingEntry = RoutingEntry(clientIp: Ip, serverIp: Ip)

  /** The nodes that get an entry: neither servers nor routers, and linked to something. */
  predicate Eligible(adj: Adjacency, servers: seq<Ip>, ip: Ip) {
    ip in adj && ip !in servers && !IsRouter(ip) && adj[ip] != []
  }

  /** The nearest server, or the first listed server when none can be reached. */
  ghost function Route(adj: Adjacency, servers: seq<Ip>, ip: Ip): Ip
    requires Closed(adj) && ip in adj && servers != []
  {
    match Nearest.Bfs(adj, Elements(servers), ip)
    case Some(s) => s
    case None => servers[0]
  }

  /** The entries for the listed nodes, in list order. */
  ghost function Table(order: seq<Ip>, adj: Adjacency, servers: seq<Ip>): (r: seq<RoutingEntry>)
    requires Closed(adj) && servers != [] && forall ip | ip in order :: ip in adj
    ensures |r| <= |order|
    decreases |order|
  {
    if order == [] then [] else
    Table(order[..|order| - 1], adj, servers) + Entries(adj, servers, order[|order| - 1])
  }

  ghost function Entries(adj: Adjacency, servers: seq<Ip>, ip: Ip): seq<RoutingEntry>
    requires Closed(adj) && servers != []
  {
    if Eligible(adj, servers, ip) then [RoutingEntry(ip, Route(adj, servers, ip))] else []
  }

  /** The server of the first entry for ip. */
  function FirstMatch(table: seq<RoutingEntry>, ip: Ip): Option<Ip> {
    if table == [] then None
    else if table[0].clientIp == ip then Some(table[0].serverIp)
    else FirstMatch(table[1..], ip)
  }

  lemma {:induction false} FirstMatchAt(table: seq<RoutingEntry>, ip: Ip, i: nat)
    requires i < |table| && table[i].clientIp == ip
    requires forall j | 0 <= j < i :: table[j].clientIp != ip
    ensures FirstMatch(table, ip) == Some(table[i].serverIp)
  {
    if i > 0 {
      FirstMatchAt(table[1..], ip, i - 1);
    }
  }

  lemma {:induction false} NoMatch(table: seq<RoutingEntry>, ip: Ip)
    ensures FirstMatch(table, ip) == None <==> forall e | e in table :: e.clientIp != ip
  {
    if table != [] {
      NoMatch(table[1..], ip);
    }
  }

  /** Every entry belongs to an eligible listed node and carries its route. */
  lemma {:induction false} EntryIsRoute(order: seq<Ip>, adj: Adjacency, servers: seq<Ip>, i: nat)
    requires Closed(adj) && servers != [] && forall ip | ip in order :: ip in adj
    requires i < |Table(order, adj, servers)|
    ensures var e := Table(order, adj, servers)[i];
            && e.clientIp in order && Eligible(adj, servers, e.clientIp)
            && e.serverIp == Route(adj, servers, e.clientIp)
    decreases |order|
  {
    var p := order[..|order| - 1];
    var n := |Table(p, adj, servers)|;
    if i < n {
      assert Table(order, adj, servers)[i] == Table(p, adj, servers)[i];
      EntryIsRoute(p, adj, servers, i);
    } else {
      assert Table(order, adj, servers)[n] == RoutingEntry(order[|p|], Route(adj, servers, order[|p|]));
    }
  }

  /** Every eligible listed node has an entry. */
  lemma {:induction false} HasEntry(order: seq<Ip>, adj: Adjacency, servers: seq<Ip>, ip: Ip) returns (i: nat)
    requires Closed(adj) && servers != [] && forall x | x in order :: x in adj
    requires ip in order && Eligible(adj, servers, ip)
    ensures i < |Table(order, adj, servers)| && Table(order, adj, servers)[i].clientIp == ip
    decreases |order|
  {
    var p := order[..|order| - 1];
    if order[|p|] == ip {
      i := |Table(p, adj, servers)|;
    } else {
      i := HasEntry(p, adj, servers, ip);
    }
  }

  lemma {:induction false} FirstEntry(t: seq<RoutingEntry>, ip: Ip, i: nat) returns (k: nat)
    requires i < |t| && t[i].clientIp == ip
    ensures k <= i && t[k].clientIp == ip && forall j | 0 <= j < k :: t[j].clientIp != ip
  {
    if j :| 0 <= j < i && t[j].clientIp == ip {
      k := FirstEntry(t, ip, j);
    } else {
      k := i;
    }
  }

  /** Whatever the unused slots after the entries hold, an eligible listed node is sent to
      its route. */
  lemma LookupFindsRoute(slots: seq<RoutingEntry>, order: seq<Ip>, adj: Adjacency, servers: seq<Ip>, ip: Ip)
    requires Closed(adj) && servers != [] && forall x | x in order :: x in adj
    requires Table(order, adj, servers) <= slots
    requires ip in order && Eligible(adj, servers, ip)
    ensures FirstMatch(slots, ip) == Some(Route(adj, servers, ip))
  {
    var t := Table(order, adj, servers);
    var i := HasEntry(order, adj, servers, ip);
    var k := FirstEntry(t, ip, i);
    EntryIsRoute(order, adj, servers, k);
    assert forall j | 0 <= j < |t| :: slots[j] == t[j];
    FirstMatchAt(slots, ip, k);
  }

  /** The route of an eligible node: a closest server, or the first server exactly when no
      server can be reached. */
  lemma RouteIsClosest(adj: Adjacency, servers: seq<Ip>, ip: Ip)
    requires Closed(adj) && servers != [] && Eligible(adj, servers, ip)
    ensures var s := Route(adj, servers, ip);
            if SomeServerReachable(adj, Elements(servers), ip) then Closest(adj, Elements(servers), ip, s)
            else s == servers[0]
  {
    BfsIsClosest(adj, Elements(servers), ip);
  }
}
