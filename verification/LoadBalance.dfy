/** The breadth-first search and the routing table of the name server, over the pointer
    graph. The search is proved against Nearest.Bfs. */
module LoadBalance {
  import opened Sequences
  import opened Options
  import opened Graphs
  import opened LinkState
  import opened Topology
  import opened Queue
  import opened Nearest
  import opened Routing

  ghost predicate VisitedIs(s: seq<Node>, seen: set<Ip>)
    reads s`visited
  {
    forall n | n in s :: n.visited <==> n.ip in seen
  }

  ghost function ServerSet(net: Network): set<Ip>
    reads net, net.servers
  {
    Elements(IpsOf(net.servers.s))
  }

  ghost predicate Queued(work: seq<Node>, s: seq<Node>) {
    forall n | n in work :: n in s
  }

  /** The `visited` flags and the queue stand for the search state (seen, work). */
  ghost predicate Searching(net: Network, q: SentinelQueue, seen: set<Ip>)
    reads net, net.nodes, net.servers, net.clients
    reads net.nodes.s`next, net.servers.s`next, net.clients.s`next, net.nodes.s`neighbors, net.nodes.s`seqNum
    reads net.nodes.s`visited
    reads q, q.chain`next, q.chain`prev, q.chain`n
  {
    && net.Valid() && q.Valid()
    && VisitedIs(net.nodes.s, seen)
    && Queued(q.work, net.nodes.s)
    && Searchable(net.adj, seen, IpsOf(q.work))
  }

  method ResetVisited(nodes: NodeList)
    requires nodes.Valid()
    modifies nodes.Members()`visited
    ensures VisitedIs(nodes.s, {})
  {
    nodes.IsChain();
    hide NodeList.Valid;
    ghost var i, s := 0, nodes.s;
    var pt := nodes.head;
    while pt != null
      invariant 0 <= i <= |s| && pt == (if i < |s| then s[i] else null)
      invariant Chain(nodes.head, s)
      invariant forall j | 0 <= j < i :: !s[j].visited
      decreases |s| - i
    {
      assert pt in nodes.Members();
      pt.visited := false;
      pt, i := pt.next, i + 1;
    }
  }

  lemma NodesAreValid(net: Network)
    requires net.Valid()
    ensures net.nodes.Valid()
  {
  }

  /** What the search state says of the node u and its neighbours. */
  lemma Facts(net: Network, q: SentinelQueue, seen: set<Ip>, u: Node)
    requires Searching(net, q, seen) && u in net.nodes.s
    ensures net.Valid() && q.Valid() && Closed(net.adj) && Searchable(net.adj, seen, IpsOf(q.work))
    ensures u.ip in net.adj && IpsOf(u.neighbors) == net.adj[u.ip] && (u.visited <==> u.ip in seen)
    ensures forall m | m in u.neighbors :: m in net.nodes.s
    ensures Queued(q.work, net.nodes.s)
    ensures VisitedIs(net.nodes.s, seen)
  {
    net.Reads(u);
  }

  lemma Establish(net: Network, q: SentinelQueue, seen: set<Ip>)
    requires net.Valid() && q.Valid() && VisitedIs(net.nodes.s, seen)
    requires Queued(q.work, net.nodes.s)
    requires Searchable(net.adj, seen, IpsOf(q.work))
    ensures Searching(net, q, seen)
  {
  }

  lemma IpsOfAppend(s: seq<Node>, n: Node)
    ensures IpsOf(s + [n]) == IpsOf(s) + [n.ip]
  {
  }

  lemma SearchableAppend(g: Adjacency, seen: set<Ip>, work: seq<Ip>, v: Ip)
    requires Searchable(g, seen, work) && v in g
    ensures Searchable(g, seen + {v}, work + [v])
  {
  }

  method Mark(v: Node, ghost s: seq<Node>, ghost seen: set<Ip>)
    requires VisitedIs(s, seen) && forall m | m in s :: m.ip == v.ip <==> m == v
    modifies v`visited
    ensures VisitedIs(s, seen + {v.ip})
  {
    v.visited := true;
  }

  lemma QueuedAppend(work: seq<Node>, v: Node, s: seq<Node>)
    requires Queued(work, s) && v in s
    ensures Queued(work + [v], s)
  {
  }

  /** Marks v and puts it at the back of the queue. */
  method Enqueue(net: Network, q: SentinelQueue, v: Node, ghost seen: set<Ip>)
    requires Searching(net, q, seen) && v in net.nodes.s
    modifies v`visited, q, q.Members()`next, q.Members()`prev
    ensures Searching(net, q, seen + {v.ip}) && fresh(q.Members() - old(q.Members()))
    ensures q.work == old(q.work) + [v]
  {
    hide Searching, Searchable, VisitedIs, IpsOf, Closed, Queued;
    hide Network.Valid, NodeList.Valid, SentinelQueue.Valid;
    Facts(net, q, seen, v);
    net.SameIpSameNode(v);
    IpsOfAppend(q.work, v);
    SearchableAppend(net.adj, seen, IpsOf(q.work), v.ip);
    QueuedAppend(q.work, v, net.nodes.s);
    var temp := new QueueNode(v);
    Mark(v, net.nodes.s, seen);
    q.PushBack(temp);
    Establish(net, q, seen + {v.ip});
  }

  /** Looks at the neighbours of u from the last to the first. */
  method ScanNode(net: Network, q: SentinelQueue, u: Node, ghost seen: set<Ip>)
    returns (found: Option<Ip>, ghost seen': set<Ip>)
    requires Searching(net, q, seen) && u in net.nodes.s && u.ip in net.adj
    modifies net.nodes.Members()`visited, q, q.Members()`next, q.Members()`prev
    ensures Searching(net, q, seen') && fresh(q.Members() - old(q.Members()))
    ensures Scan(found, seen', IpsOf(q.work)) ==
            ScanNeighbours(net.adj[u.ip], ServerSet(net), seen, old(IpsOf(q.work)))
  {
    hide Searching, Searchable, VisitedIs, ScanNeighbours, ServerSet, IpsOf, Closed;
    hide Network.Valid, NodeList.Valid, SentinelQueue.Valid;
    found, seen' := None, seen;
    ghost var ns, servers, work := net.adj[u.ip], ServerSet(net), IpsOf(q.work);
    Facts(net, q, seen, u);
    var i := |u.neighbors| - 1;
    assert ns[..|ns|] == ns;
    while i >= 0
      invariant -1 <= i < |ns|
      invariant Searching(net, q, seen') && fresh(q.Members() - old(q.Members()))
      invariant ScanNeighbours(ns[..i + 1], servers, seen', IpsOf(q.work)) == ScanNeighbours(ns, servers, seen, work)
    {
      var v := u.neighbors[i];
      assert v in u.neighbors;
      Facts(net, q, seen', v);
      ScanStep(ns, i, servers, seen', IpsOf(q.work));
      if !v.visited {
        var server := net.servers.Exists(v.ip);
        ServerIsListed(net, v.ip);
        if server != null {
          return Some(v.ip), seen';
        }
        IpsOfAppend(q.work, v);
        Enqueue(net, q, v, seen');
        seen' := seen' + {v.ip};
      }
      i := i - 1;
    }
    NothingToScan(ns[..0], servers, seen', IpsOf(q.work));
  }

  lemma ServerIsListed(net: Network, ip: Ip)
    ensures ip in ServerSet(net) <==> Holds(net.servers.s, ip)
  {
    HoldsIsListed(net.servers.s, ip);
  }

  /** The scan of the first i + 1 neighbours looks at the i-th one first. */
  lemma ScanStep(ns: seq<Ip>, i: nat, servers: set<Ip>, seen: set<Ip>, work: seq<Ip>)
    requires i < |ns|
    ensures ScanNeighbours(ns[..i + 1], servers, seen, work) ==
            if ns[i] in seen then ScanNeighbours(ns[..i], servers, seen, work)
            else if ns[i] in servers then Scan(Some(ns[i]), seen, work)
            else ScanNeighbours(ns[..i], servers, seen + {ns[i]}, work + [ns[i]])
  {
    assert ns[..i + 1][..i] == ns[..i];
  }

  lemma NothingToScan(ns: seq<Ip>, servers: set<Ip>, seen: set<Ip>, work: seq<Ip>)
    requires ns == []
    ensures ScanNeighbours(ns, servers, seen, work) == Scan(None, seen, work)
  {
  }

  /** The search from this state answers `answer`. */
  ghost predicate Answers(net: Network, q: SentinelQueue, seen: set<Ip>, answer: Option<Ip>)
    reads net, net.nodes, net.servers, net.clients
    reads net.nodes.s`next, net.servers.s`next, net.clients.s`next, net.nodes.s`neighbors, net.nodes.s`seqNum
    reads net.nodes.s`visited
    reads q, q.chain`next, q.chain`prev, q.chain`n
  {
    && Searching(net, q, seen) && Searchable(net.adj, seen, IpsOf(q.work))
    && Search(net.adj, ServerSet(net), seen, IpsOf(q.work)) == answer
  }

  lemma AnswersIsValid(net: Network, q: SentinelQueue, seen: set<Ip>, answer: Option<Ip>)
    requires Answers(net, q, seen, answer)
    ensures net.Valid() && q.Valid() && (q.work == [] ==> answer == None)
  {
  }

  /** One turn of the queue loop: pops the front node and scans its neighbours. */
  method Visit(net: Network, q: SentinelQueue, ghost seen: set<Ip>, ghost answer: Option<Ip>)
    returns (found: Option<Ip>, ghost seen': set<Ip>)
    requires Answers(net, q, seen, answer) && q.Valid() && q.work != []
    modifies net.nodes.Members()`visited, q, q.Members()`next, q.Members()`prev
    ensures net.Valid() && q.Valid() && fresh(q.Members() - old(q.Members()))
    ensures if found.Some? then found == answer else Answers(net, q, seen', answer)
    ensures Budget(net.adj, seen', IpsOf(q.work)) < Budget(net.adj, seen, old(IpsOf(q.work)))
  {
    hide Searching, Searchable, Search, Budget, ScanNeighbours, VisitedIs, ServerSet, IpsOf, Closed;
    hide Network.Valid, NodeList.Valid, SentinelQueue.Valid;
    ghost var work := IpsOf(q.work);
    AnswersIsValid(net, q, seen, answer);
    FrontIsListed(net, q, seen);
    Facts(net, q, seen, q.work[0]);
    SearchTurn(net.adj, ServerSet(net), seen, work);
    var front := q.PopFront();
    var u := front.n;
    assert IpsOf(q.work) == work[1..];
    Establish(net, q, seen);
    found, seen' := ScanNode(net, q, u, seen);
    Facts(net, q, seen', u);
  }

  /** One turn of the search on values. */
  lemma SearchTurn(g: Adjacency, servers: set<Ip>, seen: set<Ip>, work: seq<Ip>)
    requires Searchable(g, seen, work) && work != []
    ensures work[0] in g && Searchable(g, seen, work[1..])
    ensures var r := ScanNeighbours(g[work[0]], servers, seen, work[1..]);
            && Searchable(g, r.seen, r.work) && Budget(g, r.seen, r.work) < Budget(g, seen, work)
            && Search(g, servers, seen, work) == if r.found.Some? then r.found else Search(g, servers, r.seen, r.work)
  {
    assert forall v | v in g[work[0]] :: Edge(g, work[0], v);
    ScanKeepsBudget(g, g[work[0]], servers, seen, work[1..]);
  }

  lemma FrontIsListed(net: Network, q: SentinelQueue, seen: set<Ip>)
    requires Searching(net, q, seen) && q.work != []
    ensures q.work[0] in net.nodes.s
    ensures IpsOf(q.work) != [] && IpsOf(q.work)[0] == q.work[0].ip && IpsOf(q.work[1..]) == IpsOf(q.work)[1..]
  {
  }

  /** The nearest server other than the node itself, or None for NULL. */
  method Bfs(net: Network, now: Node, q: SentinelQueue) returns (ip: Option<Ip>)
    requires net.Valid() && now in net.nodes.s && q.Valid() && q.work == []
    modifies net.nodes.Members()`visited, q, q.Members()`next, q.Members()`prev
    ensures net.Valid() && Closed(net.adj) && now.ip in net.adj
    ensures ip == Nearest.Bfs(net.adj, ServerSet(net), now.ip)
  {
    hide Searching, Answers, Searchable, VisitedIs, ServerSet, Closed, IpsOf;
    hide Network.Valid, NodeList.Valid, SentinelQueue.Valid, Nearest.Bfs;
    net.Reads(now);
    NodesAreValid(net);
    ResetVisited(net.nodes);
    ghost var seen := StartSearch(net, now, q);
    ip := DrainQueue(net, q, seen, Nearest.Bfs(net.adj, ServerSet(net), now.ip));
  }

  /** The queue loop. */
  method DrainQueue(net: Network, q: SentinelQueue, ghost start: set<Ip>, ghost answer: Option<Ip>)
    returns (ip: Option<Ip>)
    requires Answers(net, q, start, answer) && net.Valid() && q.Valid()
    modifies net.nodes.Members()`visited, q, q.Members()`next, q.Members()`prev
    ensures net.Valid() && ip == answer
  {
    hide Searching, Answers, Searchable, VisitedIs, ServerSet, Budget, IpsOf;
    hide Network.Valid, NodeList.Valid, SentinelQueue.Valid;
    ghost var seen := start;
    var empty := q.IsEmpty();
    while !empty
      invariant Answers(net, q, seen, answer) && fresh(q.Members() - old(q.Members()))
      invariant net.Valid() && q.Valid() && (empty <==> q.work == [])
      decreases Budget(net.adj, seen, IpsOf(q.work))
    {
      var found;
      found, seen := Visit(net, q, seen, answer);
      if found.Some? {
        return found;
      }
      empty := q.IsEmpty();
    }
    AnswersIsValid(net, q, seen, answer);
    return None;
  }

  method StartSearch(net: Network, now: Node, q: SentinelQueue) returns (ghost seen: set<Ip>)
    requires net.Valid() && now in net.nodes.s && q.Valid() && q.work == [] && VisitedIs(net.nodes.s, {})
    modifies now`visited, q, q.Members()`next, q.Members()`prev
    ensures net.Valid() && q.Valid() && Closed(net.adj) && now.ip in net.adj
    ensures Answers(net, q, seen, Nearest.Bfs(net.adj, ServerSet(net), now.ip))
    ensures fresh(q.Members() - old(q.Members()))
  {
    hide Searching, Network.Valid, NodeList.Valid, SentinelQueue.Valid;
    net.Reads(now);
    IpsOfAppend(q.work, now);
    Establish(net, q, {});
    Enqueue(net, q, now, {});
    seen := {} + {now.ip};
    assert seen == {now.ip};
    assert IpsOf(q.work) == [now.ip];
    Facts(net, q, seen, now);
  }

  /** The server for one listed node; None when the node gets no entry. */
  method RouteNode(net: Network, client: Node) returns (server: Option<Ip>)
    requires net.Valid() && client in net.nodes.s && net.servers.s != []
    modifies net.nodes.Members()`visited
    ensures net.Valid() && Closed(net.adj) && client.ip in net.adj && IpsOf(net.servers.s) != []
    ensures server == if Eligible(net.adj, IpsOf(net.servers.s), client.ip)
                      then Some(Route(net.adj, IpsOf(net.servers.s), client.ip)) else None
  {
    hide Network.Valid, NodeList.Valid, SentinelQueue.Valid, Closed, IpsOf;
    net.Reads(client);
    net.ListsAreChains();
    IpsOfIsEmpty(client.neighbors);
    IpsOfIsEmpty(net.servers.s);
    HoldsIsListed(net.servers.s, client.ip);
    var found := net.servers.Exists(client.ip);
    if found != null || IsRouter(client.ip) || |client.neighbors| == 0 {
      return None;
    }
    var q := new SentinelQueue();
    var nearest := Bfs(net, client, q);
    net.ListsAreChains();
    match nearest {
      case Some(ip) => server := Some(ip);
      case None => server := Some(net.servers.head.ip);
    }
  }

  lemma IpsOfIsEmpty(s: seq<Node>)
    ensures IpsOf(s) == [] <==> s == []
    ensures s != [] ==> IpsOf(s)[0] == s[0].ip
  {
  }

  /** One turn of the table loop. Stepping past a node that got an entry never leaves the
      list, because the last node is a server. */
  method AddEntry(net: Network, client: Node, table: array<RoutingEntry>, last: nat, ghost i: nat)
    returns (client': Node?, last': nat)
    requires net.Valid() && net.servers.s != [] && net.EndsInServer()
    requires last <= i < |net.nodes.s| && client == net.nodes.s[i] && table.Length == |net.nodes.s|
    requires Chain(net.nodes.head, net.nodes.s)
    modifies net.nodes.Members()`visited, table
    ensures net.Valid() && Closed(net.adj) && client.ip in net.adj && IpsOf(net.servers.s) != []
    ensures client' == if i + 1 < |net.nodes.s| then net.nodes.s[i + 1] else null
    ensures last <= last' <= last + 1
    ensures table[..last'] == old(table[..last]) +
            Entries(net.adj, IpsOf(net.servers.s), client.ip)
  {
    hide Network.Valid, NodeList.Valid, SentinelQueue.Valid, Closed;
    assert client.next == if i + 1 < |net.nodes.s| then net.nodes.s[i + 1] else null;
    table[last] := table[last].(clientIp := client.ip);
    assert table[..last] == old(table[..last]);
    var server := RouteNode(net, client);
    last' := last;
    if server.Some? {
      table[last] := table[last].(serverIp := server.value);
      last' := last + 1;
      client' := client.next;
      var logged := client'.ip;
    } else {
      client' := client.next;
    }
  }

  lemma TableStep(order: seq<Ip>, i: nat, adj: Adjacency, servers: seq<Ip>)
    requires Closed(adj) && servers != [] && (forall ip | ip in order :: ip in adj) && i < |order|
    ensures Table(order[..i + 1], adj, servers) == Table(order[..i], adj, servers) + Entries(adj, servers, order[i])
  {
    assert order[..i + 1][..i] == order[..i];
  }

  lemma EmptyTable(adj: Adjacency, servers: seq<Ip>)
    requires Closed(adj) && servers != []
    ensures Table([], adj, servers) == []
  {
  }

  /** Fills the routing table. The slots are uninitialised memory; the first cnt of them
      end up as the entries of the eligible nodes. Returns 1 and no table when a list is
      empty. */
  method BuildRoutingTable(net: Network) returns (rc: int, table: array?<RoutingEntry>, ghost cnt: nat)
    requires net.Valid() && (net.servers.s != [] ==> net.EndsInServer())
    modifies net.nodes.Members()`visited
    ensures net.Valid() && Closed(net.adj) && forall ip | ip in IpsOf(net.nodes.s) :: ip in net.adj
    ensures rc == if net.clients.s == [] || net.servers.s == [] || net.nodes.s == [] then 1 else 0
    ensures rc == 1 ==> table == null
    ensures rc == 0 ==>
              && table != null && fresh(table) && table.Length == net.nodes.num && cnt <= table.Length
              && IpsOf(net.servers.s) != []
              && table[..cnt] == Table(IpsOf(net.nodes.s), net.adj, IpsOf(net.servers.s))
  {
    hide Network.Valid, NodeList.Valid, Closed, Network.EndsInServer, Chain, IpsOf, Entries, Table;
    net.ListsAreChains();
    rc, table, cnt := 1, null, 0;
    if net.clients.num <= 0 || net.servers.num <= 0 || net.nodes.num <= 0
       || net.nodes.head == null || net.servers.head == null || net.clients.head == null {
      return;
    }
    ghost var order, servers := IpsOf(net.nodes.s), IpsOf(net.servers.s);
    table := new RoutingEntry[net.nodes.num];
    var client := net.nodes.head;
    var last := 0;
    ghost var i := 0;
    EmptyTable(net.adj, servers);
    assert order[..0] == [];
    while client != null
      invariant 0 <= i <= |order| && 0 <= last <= i
      invariant net.Valid() && client == (if i < |order| then net.nodes.s[i] else null)
      invariant Chain(net.nodes.head, net.nodes.s)
      invariant fresh(table) && table[..last] == Table(order[..i], net.adj, servers)
      decreases |order| - i
    {
      TableStep(order, i, net.adj, servers);
      client, last := AddEntry(net, client, table, last, i);
      i := i + 1;
    }
    assert order[..|order|] == order;
    rc, cnt := 0, last;
  }
}
