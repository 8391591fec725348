/** The name server program: start-up from its two files, and the choice of a server for
    each request by table or in turn. */
module NameServer {
  import opened Sequences
  import opened Options
  import opened Graphs
  import opened LinkState
  import opened NameLists
  import opened Topology
  import opened Routing
  import opened LoadBalance

  // ---- Start-up ----

  /** The server names of the server file; a file that cannot be opened has none. */
  function ServerNames(serverFile: Option<seq<Ip>>): seq<Ip> {
    if serverFile.Some? then Reversed(PushAll([], serverFile.value)) else []
  }

  function Announcements(lsaFile: Option<seq<Option<Lsa>>>): seq<Lsa> {
    if lsaFile.Some? then WellFormed(lsaFile.value) else []
  }

  function ListedServers(serverFile: Option<seq<Ip>>): Adjacency {
    if serverFile.Some? then ListAll(map[], serverFile.value) else map[]
  }

  /** The graph that the two files describe. */
  function FileGraph(serverFile: Option<seq<Ip>>, lsaFile: Option<seq<Option<Lsa>>>): Adjacency {
    ReplayLinks(ListedServers(serverFile), Announcements(lsaFile))
  }

  lemma NothingReplayed(adj: Adjacency)
    ensures ReplayLinks(adj, []) == adj && ReplaySeq([]) == map[]
  {
  }

  lemma NoServers()
    ensures Reversed(PushAll([], [])) == [] && IpsOf([]) == []
  {
  }

  /** Reads the server file, then the announcements, then fills the table. A file that
      cannot be opened counts -1, a table that cannot be built +1, and only a positive sum
      stops the program. */
  method Start(serverFile: Option<seq<Ip>>, lsaFile: Option<seq<Option<Lsa>>>)
    returns (serves: bool, net: Network, table: array?<RoutingEntry>, ghost cnt: nat)
    requires lsaFile.Some? ==>
               forall i | 0 <= i < |lsaFile.value| && lsaFile.value[i].Some? :: NoSelfLink(lsaFile.value[i].value)
    ensures fresh(net) && net.Valid()
    ensures net.adj == FileGraph(serverFile, lsaFile) && IpsOf(net.servers.s) == ServerNames(serverFile)
    ensures IpsOf(net.clients.s) == ReplayClients([], ServerNames(serverFile), Announcements(lsaFile))
    ensures Closed(net.adj) && forall ip | ip in IpsOf(net.nodes.s) :: ip in net.adj
    ensures table != null ==>
              && cnt <= table.Length == net.nodes.num && IpsOf(net.servers.s) != []
              && table[..cnt] == Table(IpsOf(net.nodes.s), net.adj, IpsOf(net.servers.s))
    ensures table == null <==> net.servers.s == [] || net.clients.s == []
    ensures serves <==>
              table != null || serverFile.None? || lsaFile.None? || None in lsaFile.value
  {
    hide Network.Valid, Closed, Table, IpsOf, Reversed, PushAll, ReplayLinks, ReplaySeq, WellFormed;
    net := new Network();
    var ret := 0;
    if serverFile.Some? {
      net.ParseServerFile(serverFile.value);
    } else {
      ret := ret - 1;
    }
    NothingReplayed(net.adj);
    NoServers();
    assert net.servers.s != [] ==> net.EndsInServer();
    if lsaFile.Some? {
      assert [] + WellFormed(lsaFile.value) == WellFormed(lsaFile.value);
      var rc := net.ParseLsaFile(lsaFile.value, net.adj, []);
      ret := ret + rc;
    } else {
      ret := ret - 1;
    }
    var built;
    built, table, cnt := BuildRoutingTable(net);
    ret := ret + built;
    serves := ret <= 0;
  }

  // ---- Answering requests ----

  /** Scans the table for the client; None stands for the uninitialised answer. */
  method Lookup(table: array<RoutingEntry>, totalNum: int, clientIp: Ip) returns (server: Option<Ip>)
    requires totalNum == table.Length
    ensures server == FirstMatch(table[..], clientIp)
  {
    var i := 0;
    assert table[0..] == table[..];
    while i < totalNum
      invariant 0 <= i <= totalNum
      invariant FirstMatch(table[..], clientIp) == FirstMatch(table[i..], clientIp)
    {
      assert table[i..][1..] == table[i + 1..];
      if table[i].clientIp == clientIp {
        return Some(table[i].serverIp);
      }
      i := i + 1;
    }
    return None;
  }

  /** An eligible listed client gets its route, whatever the unused slots hold. */
  method AnswerByTable(net: Network, table: array<RoutingEntry>, clientIp: Ip, ghost cnt: nat)
    returns (server: Option<Ip>)
    requires net.Valid() && Closed(net.adj) && forall ip | ip in IpsOf(net.nodes.s) :: ip in net.adj
    requires cnt <= table.Length == net.nodes.num && IpsOf(net.servers.s) != []
    requires table[..cnt] == Table(IpsOf(net.nodes.s), net.adj, IpsOf(net.servers.s))
    ensures Eligible(net.adj, IpsOf(net.servers.s), clientIp) ==>
              server == Some(Route(net.adj, IpsOf(net.servers.s), clientIp))
  {
    server := Lookup(table, net.nodes.num, clientIp);
    if Eligible(net.adj, IpsOf(net.servers.s), clientIp) {
      net.ListedIfKnown(clientIp);
      assert table[..cnt] <= table[..];
      LookupFindsRoute(table[..], IpsOf(net.nodes.s), net.adj, IpsOf(net.servers.s), clientIp);
    }
  }

  /** The first m replies of a round-robin server. */
  function Turns(servers: seq<Ip>, m: nat): seq<Ip>
    requires servers != []
  {
    seq(m, k requires 0 <= k < m => servers[k % |servers|])
  }

  /** Answers m requests in turn, following the server list round. */
  method RoundRobin(net: Network, m: nat) returns (replies: seq<Ip>)
    requires net.Valid() && net.servers.s != []
    ensures IpsOf(net.servers.s) != [] && replies == Turns(IpsOf(net.servers.s), m)
  {
    net.ListsAreChains();
    ghost var servers, n := IpsOf(net.servers.s), |net.servers.s|;
    var pt := net.servers.head;
    replies := [];
    while |replies| < m
      invariant |replies| <= m && pt == net.servers.s[|replies| % n]
      invariant replies == Turns(servers, |replies|)
    {
      ghost var k := |replies|;
      NextTurn(k, n);
      var server := pt.ip;
      pt := pt.next;
      if pt == null {
        pt := net.servers.head;
      }
      replies := replies + [server];
    }
  }

  lemma NextTurn(k: nat, n: nat)
    requires n > 0
    ensures (k + 1) % n == if k % n + 1 < n then k % n + 1 else 0
    ensures (k + 1) / n == if k % n + 1 < n then k / n else k / n + 1
  {
    var q, r := k / n, k % n;
    assert k + 1 == q * n + (r + 1);
    if r + 1 < n {
      DivModUnique(k + 1, n, q, r + 1);
    } else {
      DivModUnique(k + 1, n, q + 1, 0);
    }
  }

  lemma DivModUnique(a: nat, n: nat, q: nat, r: nat)
    requires r < n && a == q * n + r
    ensures a / n == q && a % n == r
  {
    var d := a / n - q;
    assert a == (a / n) * n + a % n;
    assert d * n == r - a % n;
  }

  function Count(replies: seq<Ip>, s: Ip): nat
    decreases |replies|
  {
    if replies == [] then 0
    else Count(replies[..|replies| - 1], s) + (if replies[|replies| - 1] == s then 1 else 0)
  }

  /** In any m replies each server is used m / n times, and once more when its place in the
      list is below m % n. */
  lemma {:induction false} RoundRobinIsFair(servers: seq<Ip>, m: nat, i: nat)
    requires NoDuplicates(servers) && i < |servers|
    ensures Count(Turns(servers, m), servers[i]) == m / |servers| + (if i < m % |servers| then 1 else 0)
    decreases m
  {
    if m == 0 {
      DivModUnique(0, |servers|, 0, 0);
    } else {
      var p := Turns(servers, m - 1);
      RoundRobinIsFair(servers, m - 1, i);
      NextTurn(m - 1, |servers|);
      assert Turns(servers, m)[..m - 1] == p;
      assert Turns(servers, m)[m - 1] == servers[i] <==> (m - 1) % |servers| == i;
    }
  }
}
