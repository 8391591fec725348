/** The pointer graph of the name server: three linked lists of nodes, filled from the
    server file and from the announcement file. Every method is proved against the
    functions of LinkState.dfy. */
module Topology {
  import opened Sequences
  import opened Options
  import opened Graphs
  import opened LinkState
  import opened NameLists

  class Node {
    const ip: Ip
    ghost const owner: NodeList
    var neighbors: seq<Node>
    var seqNum: int
    var visited: bool
    var next: Node?

    constructor (ip: Ip, next: Node?, ghost owner: NodeList)
      ensures this.ip == ip && this.next == next && this.owner == owner
      ensures neighbors == [] && seqNum == -1 && !visited
    {
      this.ip, this.next, this.owner := ip, next, owner;
      neighbors, seqNum, visited := [], -1, false;
    }
  }

  // ---- One linked list ----

  /** Following `next` from head visits exactly s. */
  ghost predicate Chain(head: Node?, s: seq<Node>)
    reads s`next
  {
    if s == [] then head == null else
      && head == s[0] && s[|s| - 1].next == null
      && forall i | 0 < i < |s| :: s[i - 1].next == s[i]
  }

  ghost function IpsOf(s: seq<Node>): (r: seq<Ip>)
    ensures |r| == |s| && forall i | 0 <= i < |s| :: r[i] == s[i].ip
  {
    seq(|s|, i requires 0 <= i < |s| => s[i].ip)
  }

  ghost predicate Holds(s: seq<Node>, ip: Ip) {
    exists n | n in s :: n.ip == ip
  }

  ghost predicate UniqueIps(s: seq<Node>) {
    forall i, j | 0 <= i < j < |s| :: s[i].ip != s[j].ip
  }

  /** s' still holds the nodes of s and ends in the same node. */
  ghost predicate Extends(s: seq<Node>, s': seq<Node>) {
    && (forall n | n in s :: n in s')
    && (s != [] ==> s' != [] && s'[|s'| - 1] == s[|s| - 1])
  }

  lemma HoldsIsListed(s: seq<Node>, ip: Ip)
    ensures Holds(s, ip) <==> ip in IpsOf(s)
  {
    if ip in IpsOf(s) {
      var i :| 0 <= i < |s| && IpsOf(s)[i] == ip;
      assert s[i] in s;
    }
    if n :| n in s && n.ip == ip {
      var i :| 0 <= i < |s| && s[i] == n;
      assert IpsOf(s)[i] == ip;
    }
  }

  /** head and num describe the list s, which belongs to l and holds no name twice. */
  ghost predicate ListOf(l: NodeList, head: Node?, num: int, s: seq<Node>)
    reads s`next
  {
    Chain(head, s) && num == |s| && UniqueIps(s) && forall n | n in s :: n.owner == l
  }

  lemma ChainCons(n: Node, head: Node?, s: seq<Node>)
    requires Chain(head, s) && n.next == head
    ensures Chain(n, [n] + s)
  {
    var s' := [n] + s;
    assert forall i | 0 < i < |s'| :: s'[i] == s[i - 1];
  }

  lemma UniqueCons(n: Node, s: seq<Node>)
    requires UniqueIps(s) && !Holds(s, n.ip)
    ensures UniqueIps([n] + s)
  {
    var s' := [n] + s;
    assert forall i | 0 < i < |s'| :: s'[i] == s[i - 1] && s'[i] in s;
  }

  lemma Pushed(l: NodeList, n: Node, head: Node?, num: int, s: seq<Node>)
    requires ListOf(l, head, num, s) && n.next == head && n.owner == l && !Holds(s, n.ip)
    ensures ListOf(l, n, num + 1, [n] + s)
    ensures Extends(s, [n] + s) && IpsOf([n] + s) == [n.ip] + IpsOf(s)
  {
    hide Chain, UniqueIps, Holds;
    ChainCons(n, head, s);
    UniqueCons(n, s);
  }

  lemma OneNodePerPlace(s: seq<Node>, i: nat)
    requires UniqueIps(s) && i < |s|
    ensures forall j | 0 <= j < |s| && j != i :: s[j] != s[i]
  {
  }

  /** The first i nodes point backwards, the others still forwards. */
  ghost predicate TurnedTo(s: seq<Node>, i: int)
    reads s`next
  {
    && 0 <= i <= |s|
    && (forall j | i < j < |s| :: s[j - 1].next == s[j])
    && (i < |s| ==> s[|s| - 1].next == null)
    && (forall j | 0 < j < i :: s[j].next == s[j - 1])
    && (0 < i ==> s[0].next == null)
  }

  lemma NotYetTurned(l: NodeList, head: Node?, num: int, s: seq<Node>)
    requires ListOf(l, head, num, s)
    ensures TurnedTo(s, 0) && UniqueIps(s) && num == |s| && head == (if s == [] then null else s[0])
    ensures forall n | n in s :: n.owner == l
  {
  }

  lemma Turned(l: NodeList, num: int, s: seq<Node>)
    requires TurnedTo(s, |s|) && num == |s| && UniqueIps(s) && forall n | n in s :: n.owner == l
    ensures ListOf(l, if s == [] then null else s[|s| - 1], num, Reversed(s))
  {
    var r := Reversed(s);
    forall i | 0 < i < |r| ensures r[i - 1].next == r[i] {
      assert r[i - 1] == s[|s| - i] && r[i] == s[|s| - i - 1];
    }
  }

  lemma ReversedIps(s: seq<Node>)
    ensures IpsOf(Reversed(s)) == Reversed(IpsOf(s))
  {
  }

  /** A list header and its counter, which the callers pass by address. */
  class NodeList {
    var head: Node?
    var num: int
    ghost var s: seq<Node>

    ghost predicate Valid()
      reads this, s`next
    {
      ListOf(this, head, num, s)
    }

    ghost function Members(): set<Node>
      reads this
    {
      Elements(s)
    }

    constructor ()
      ensures Valid() && s == []
    {
      head, num, s := null, 0, [];
    }

    lemma NamesAreUnique()
      requires Valid()
      ensures UniqueIps(s) && forall n | n in s :: n.owner == this
    {
    }

    lemma IsChain()
      requires Valid()
      ensures Chain(head, s) && num == |s|
    {
    }

    method Exists(ip: Ip) returns (r: Node?)
      requires Valid()
      ensures r == null <==> !Holds(s, ip)
      ensures r != null ==> r in s && r.ip == ip
    {
      r := head;
      ghost var i := 0;
      while r != null
        invariant 0 <= i <= |s| && r == (if i < |s| then s[i] else null)
        invariant forall j | 0 <= j < i :: s[j].ip != ip
        decreases |s| - i
      {
        if r.ip == ip {
          return;
        }
        r, i := r.next, i + 1;
      }
    }

    /** Finds the node named ip or pushes a new one in front. */
    method AddNodeByIp(ip: Ip) returns (n: Node)
      requires Valid()
      modifies this
      ensures Valid() && n in s && n.ip == ip && Extends(old(s), s)
      ensures IpsOf(s) == PushNew(IpsOf(old(s)), ip)
      ensures old(Holds(s, ip)) ==> s == old(s)
      ensures !old(Holds(s, ip)) ==>
                fresh(n) && s == [n] + old(s) && n.neighbors == [] && n.seqNum == -1 && !n.visited
    {
      var found := Exists(ip);
      HoldsIsListed(s, ip);
      hide ListOf, UniqueIps, IpsOf;
      if found != null {
        return found;
      }
      n := new Node(ip, head, this);
      Pushed(this, n, head, num, s);
      head, num, s := n, num + 1, [n] + s;
    }

    /** Turns every `next` pointer round. */
    method Reverse()
      requires Valid()
      modifies this, Members()`next
      ensures Valid() && s == Reversed(old(s))
    {
      hide Reversed, ListOf, UniqueIps, TurnedTo;
      NotYetTurned(this, head, num, s);
      var pt, pre: Node? := head, null;
      ghost var i := 0;
      while pt != null
        invariant s == old(s) && num == old(num) && TurnedTo(s, i)
        invariant 0 <= i <= |s|
        invariant pt == (if i < |s| then s[i] else null) && pre == (if i == 0 then null else s[i - 1])
        decreases |s| - i
      {
        var next := Turn(s, pt, pre, i);
        pre, pt, i := pt, next, i + 1;
      }
      Turned(this, num, s);
      head, s := pre, Reversed(s);
    }
  }

  /** Turns one pointer round. */
  method Turn(ghost s: seq<Node>, pt: Node, pre: Node?, ghost i: nat) returns (next: Node?)
    requires TurnedTo(s, i) && UniqueIps(s) && i < |s| && pt == s[i] && pre == if i == 0 then null else s[i - 1]
    modifies pt`next
    ensures TurnedTo(s, i + 1) && next == if i + 1 < |s| then s[i + 1] else null
  {
    OneNodePerPlace(s, i);
    next := pt.next;
    pt.next := pre;
  }

  method AddReverseNeighbor(n: Node, neighbor: Node)
    modifies n`neighbors
    ensures n.neighbors == if neighbor in old(n.neighbors) then old(n.neighbors)
                           else old(n.neighbors) + [neighbor]
  {
    var i := 0;
    while i < |n.neighbors|
      invariant 0 <= i <= |n.neighbors| && n.neighbors == old(n.neighbors)
      invariant forall j | 0 <= j < i :: n.neighbors[j] != neighbor
    {
      if neighbor == n.neighbors[i] {
        return;
      }
      i := i + 1;
    }
    var newNeighbors := new Node[|n.neighbors| + 1](_ => neighbor);
    i := 0;
    while i < |n.neighbors|
      invariant 0 <= i <= |n.neighbors| && n.neighbors == old(n.neighbors)
      invariant newNeighbors[..i] == n.neighbors[..i] && newNeighbors[|n.neighbors|] == neighbor
    {
      newNeighbors[i] := n.neighbors[i];
      i := i + 1;
    }
    assert newNeighbors[..] == newNeighbors[..i] + [neighbor];
    n.neighbors := newNeighbors[..];
  }

  // ---- The graph held by the nodes ----

  ghost predicate NodeMirrors(n: Node, s: seq<Node>, adj: Adjacency, seqs: SeqNumbers)
    reads n`neighbors, n`seqNum
  {
    && n.ip in adj && IpsOf(n.neighbors) == adj[n.ip]
    && n.seqNum == Newest(seqs, n.ip)
    && (forall m | m in n.neighbors :: m in s)
  }

  /** adj lists exactly the names in s, and everything adj names. */
  ghost predicate Listing(s: seq<Node>, adj: Adjacency, seqs: SeqNumbers) {
    && Closed(adj) && seqs.Keys <= adj.Keys
    && (forall ip | ip in adj :: Holds(s, ip))
    && (forall n | n in s :: n.ip in adj)
  }

  /** The nodes of s read as the neighbour lists adj and the sequence numbers seqs. */
  ghost predicate Mirrors(s: seq<Node>, adj: Adjacency, seqs: SeqNumbers)
    reads s`neighbors, s`seqNum
  {
    Listing(s, adj, seqs) && forall n | n in s :: NodeMirrors(n, s, adj, seqs)
  }

  /** Listing the node n keeps the reading, whether n was found or pushed in front. */
  lemma MirrorsAdd(n: Node, s: seq<Node>, s': seq<Node>, adj: Adjacency, seqs: SeqNumbers)
    requires Mirrors(s, adj, seqs)
    requires Holds(s, n.ip) ==> s' == s && n in s
    requires !Holds(s, n.ip) ==> s' == [n] + s && n.neighbors == [] && n.seqNum == -1
    ensures Mirrors(s', AddNode(adj, n.ip), seqs)
  {
    if Holds(s, n.ip) {
      assert NodeMirrors(n, s, adj, seqs);
      return;
    }
    var adj' := AddNode(adj, n.ip);
    assert n.ip !in adj;
    forall m | m in s' ensures NodeMirrors(m, s', adj', seqs) {
      if m != n {
        assert NodeMirrors(m, s, adj, seqs);
      }
    }
    forall u, v | Edge(adj', u, v) ensures v in adj' {
      assert Edge(adj, u, v);
    }
    forall ip | ip in adj' ensures Holds(s', ip) {
      if ip != n.ip {
        var m :| m in s && m.ip == ip;
        assert m in s';
      } else {
        assert n in s';
      }
    }
  }

  /** A node of s is in the sublist exactly when its name is. */
  lemma SameNodeSameIp(n: Node, sub: seq<Node>, s: seq<Node>)
    requires UniqueIps(s) && n in s && forall m | m in sub :: m in s
    ensures n in sub <==> n.ip in IpsOf(sub)
  {
    if n in sub {
      var i :| 0 <= i < |sub| && sub[i] == n;
      assert IpsOf(sub)[i] == n.ip;
    }
    if n.ip in IpsOf(sub) {
      var i :| 0 <= i < |sub| && IpsOf(sub)[i] == n.ip;
      assert sub[i] in s;
    }
  }

  /** What the reading says of the node n. */
  lemma ReadNode(n: Node, s: seq<Node>, adj: Adjacency, seqs: SeqNumbers)
    requires Mirrors(s, adj, seqs) && n in s
    ensures Listing(s, adj, seqs)
    ensures forall m | m in s :: NodeMirrors(m, s, adj, seqs)
    ensures n.ip in adj && IpsOf(n.neighbors) == adj[n.ip] && n.seqNum == Newest(seqs, n.ip)
    ensures forall m | m in n.neighbors :: m in s
  {
  }

  /** After n alone has gained the neighbour m, the reading gains m.ip at n.ip. */
  lemma MirrorsAppend(n: Node, nbrs: seq<Node>, m: Node, s: seq<Node>, adj: Adjacency, seqs: SeqNumbers)
    requires UniqueIps(s) && n in s && m in s && Listing(s, adj, seqs)
    requires n.neighbors == nbrs + [m] && IpsOf(nbrs) == adj[n.ip] && n.seqNum == Newest(seqs, n.ip)
    requires forall x | x in nbrs :: x in s
    requires forall x | x in s && x != n :: NodeMirrors(x, s, adj, seqs)
    ensures Mirrors(s, adj[n.ip := adj[n.ip] + [m.ip]], seqs)
  {
    var adj' := adj[n.ip := adj[n.ip] + [m.ip]];
    assert IpsOf(n.neighbors) == adj'[n.ip];
    forall x | x in s ensures NodeMirrors(x, s, adj', seqs) {
      if x != n {
        assert NodeMirrors(x, s, adj, seqs) && x.ip != n.ip;
      }
    }
    forall u, v | Edge(adj', u, v) ensures v in adj' {
      if !Edge(adj, u, v) {
        InAppended(adj[n.ip], m.ip);
      }
    }
  }

  /** After n alone has been renewed, the reading is renewed at n.ip. */
  lemma MirrorsRenew(n: Node, s: seq<Node>, adj: Adjacency, seqs: SeqNumbers)
    requires UniqueIps(s) && n in s && Listing(s, adj, seqs)
    requires n.neighbors == []
    requires forall x | x in s && x != n :: NodeMirrors(x, s, adj, seqs)
    ensures Mirrors(s, adj[n.ip := []], seqs[n.ip := n.seqNum])
  {
    var adj', seqs' := adj[n.ip := []], seqs[n.ip := n.seqNum];
    forall x | x in s ensures NodeMirrors(x, s, adj', seqs') {
      if x != n {
        assert NodeMirrors(x, s, adj, seqs) && x.ip != n.ip;
      }
    }
    forall u, v | Edge(adj', u, v) ensures v in adj' {
      assert Edge(adj, u, v);
    }
  }

  ghost predicate EndsIn(s: seq<Node>, names: seq<Ip>) {
    s != [] && s[|s| - 1].ip in names
  }

  lemma StillEndsIn(s: seq<Node>, s': seq<Node>, names: seq<Ip>)
    requires Extends(s, s')
    ensures EndsIn(s, names) ==> EndsIn(s', names)
  {
  }

  lemma ExtendsAgain(s: seq<Node>, s': seq<Node>, s'': seq<Node>)
    requires Extends(s, s') && Extends(s', s'')
    ensures Extends(s, s'')
  {
  }

  lemma NothingRead(s: seq<Node>, clients: seq<Ip>, servers: seq<Ip>)
    ensures Extends(s, s) && WellFormed([]) == [] && ReplayClients(clients, servers, []) == clients
  {
  }

  lemma NoServersRead(adj: Adjacency, names: seq<Ip>)
    ensures ListAll(adj, []) == adj && PushAll(names, []) == names
  {
  }

  /** Reading one more server keeps a server at the end, and puts one there at first. */
  lemma EndsInOneMore(s: seq<Node>, s': seq<Node>, n: Node, names: seq<Ip>, names': seq<Ip>)
    requires Extends(s, s') && names' == PushNew(names, n.ip)
    requires if s == [] then s' == [n] else EndsIn(s, names)
    ensures EndsIn(s', names')
  {
  }

  class Network {
    const nodes: NodeList
    const servers: NodeList
    const clients: NodeList
    ghost var adj: Adjacency
    ghost var seqs: SeqNumbers

    ghost predicate Valid()
      reads this, nodes, servers, clients
      reads nodes.s`next, servers.s`next, clients.s`next, nodes.s`neighbors, nodes.s`seqNum
    {
      && nodes != servers && nodes != clients && servers != clients
      && nodes.Valid() && servers.Valid() && clients.Valid()
      && Mirrors(nodes.s, adj, seqs)
    }

    constructor ()
      ensures Valid() && nodes.s == [] && servers.s == [] && clients.s == []
      ensures adj == map[] && seqs == map[]
      ensures fresh({nodes, servers, clients})
    {
      nodes := new NodeList();
      servers := new NodeList();
      clients := new NodeList();
      adj, seqs := map[], map[];
    }

    lemma Reads(n: Node)
      requires Valid() && n in nodes.s
      ensures Closed(adj) && n.ip in adj && IpsOf(n.neighbors) == adj[n.ip]
      ensures forall m | m in n.neighbors :: m in nodes.s
    {
    }

    lemma ListsAreChains()
      requires Valid()
      ensures Chain(nodes.head, nodes.s) && Chain(servers.head, servers.s) && Chain(clients.head, clients.s)
      ensures nodes.head == (if nodes.s == [] then null else nodes.s[0])
      ensures servers.head == (if servers.s == [] then null else servers.s[0])
      ensures clients.head == (if clients.s == [] then null else clients.s[0])
      ensures nodes.num == |nodes.s| && servers.num == |servers.s| && clients.num == |clients.s|
      ensures nodes.Valid() && servers.Valid() && clients.Valid()
      ensures Closed(adj) && forall ip | ip in IpsOf(nodes.s) :: ip in adj
    {
      forall ip | ip in IpsOf(nodes.s) ensures ip in adj {
        HoldsIsListed(nodes.s, ip);
      }
    }

    lemma ListedIfKnown(ip: Ip)
      requires Valid() && ip in adj
      ensures ip in IpsOf(nodes.s)
    {
      HoldsIsListed(nodes.s, ip);
    }

    lemma SameIpSameNode(n: Node)
      requires Valid() && n in nodes.s
      ensures forall m | m in nodes.s :: m.ip == n.ip <==> m == n
    {
      nodes.NamesAreUnique();
    }

    method AddNetworkNode(ip: Ip) returns (n: Node)
      requires Valid()
      modifies this`adj, nodes
      ensures Valid() && adj == AddNode(old(adj), ip) && seqs == old(seqs)
      ensures n in nodes.s && n.ip == ip && Extends(old(nodes.s), nodes.s)
      ensures old(nodes.s) == [] ==> nodes.s == [n]
      ensures forall m | m in nodes.s :: m in old(nodes.s) || fresh(m)
    {
      hide Mirrors, NodeList.Valid;
      ghost var listed := nodes.s;
      n := nodes.AddNodeByIp(ip);
      MirrorsAdd(n, listed, nodes.s, adj, seqs);
      adj := AddNode(adj, ip);
    }

    /** n gains the neighbour now unless it has it already. */
    method ReverseLink(n: Node, now: Node)
      requires Valid() && n in nodes.s && now in nodes.s
      modifies this`adj, n`neighbors
      ensures Valid() && n.ip in old(adj) && adj == AddReverse(old(adj), n.ip, now.ip)
    {
      hide Mirrors, NodeMirrors, NodeList.Valid, Listing, UniqueIps;
      ghost var nbrs := n.neighbors;
      ReadNode(n, nodes.s, adj, seqs);
      nodes.NamesAreUnique();
      SameNodeSameIp(now, nbrs, nodes.s);
      AddReverseNeighbor(n, now);
      if now !in nbrs {
        MirrorsAppend(n, nbrs, now, nodes.s, adj, seqs);
      }
      adj := AddReverse(adj, n.ip, now.ip);
    }

    /** One turn of the neighbour loop: the neighbour is found or listed, linked back, and
        stored in the next slot of the sender's array. */
    method LinkNeighbour(now: Node, ip: Ip)
      requires Valid() && now in nodes.s
      modifies this`adj, nodes, nodes.Members()`neighbors
      ensures Valid() && now in nodes.s && now.ip in old(adj)
      ensures adj == LinkOne(old(adj), now.ip, ip)
      ensures Extends(old(nodes.s), nodes.s)
      ensures forall m | m in nodes.s :: m in old(nodes.s) || fresh(m)
    {
      hide Mirrors, NodeMirrors, NodeList.Valid, Listing, UniqueIps, AddNode, AddReverse;
      ReadNode(now, nodes.s, adj, seqs);
      var n := AddNetworkNode(ip);
      ReverseLink(n, now);
      StoreNeighbour(now, n);
    }

    method StoreNeighbour(now: Node, n: Node)
      requires Valid() && now in nodes.s && n in nodes.s
      modifies this`adj, now`neighbors
      ensures Valid() && now.ip in old(adj) && adj == old(adj)[now.ip := old(adj)[now.ip] + [n.ip]]
    {
      hide Mirrors, NodeMirrors, NodeList.Valid, Listing, UniqueIps;
      ghost var nbrs := now.neighbors;
      ReadNode(now, nodes.s, adj, seqs);
      nodes.NamesAreUnique();
      now.neighbors := now.neighbors + [n];
      MirrorsAppend(now, nbrs, n, nodes.s, adj, seqs);
      adj := adj[now.ip := adj[now.ip] + [n.ip]];
    }

    /** A sender that is neither a server nor a router joins the client list. */
    method AddClient(ip: Ip)
      requires Valid()
      modifies clients
      ensures Valid()
      ensures IpsOf(clients.s) == ApplyClients(old(IpsOf(clients.s)), IpsOf(servers.s), ip)
    {
      hide Mirrors, NodeMirrors, NodeList.Valid, Listing, UniqueIps, IpsOf;
      var server := servers.Exists(ip);
      HoldsIsListed(servers.s, ip);
      if server == null && !IsRouter(ip) {
        var client := clients.AddNodeByIp(ip);
      }
    }

    /** One line of the announcement file. */
    method ParseLsaLine(l: Lsa)
      requires Valid() && NoSelfLink(l)
      modifies this, nodes, clients, nodes.Members()`neighbors, nodes.Members()`seqNum
      ensures Valid()
      ensures adj == ApplyLinks(old(adj), Newer(old(seqs), l), l) && seqs == ApplySeq(old(seqs), l)
      ensures IpsOf(clients.s) == ApplyClients(old(IpsOf(clients.s)), IpsOf(servers.s), l.sender)
      ensures Extends(old(nodes.s), nodes.s)
      ensures forall m | m in nodes.s :: m in old(nodes.s) || fresh(m)
    {
      hide Mirrors, NodeMirrors, NodeList.Valid, Listing, UniqueIps;
      var now := AddNetworkNode(l.sender);
      AddClient(l.sender);
      ReadNode(now, nodes.s, adj, seqs);
      if l.seqNo > now.seqNum {
        RenewNode(now, l);
        LinkNeighbours(now, l);
      }
    }

    method LinkNeighbours(now: Node, l: Lsa)
      requires Valid() && now in nodes.s && now.ip == l.sender && now.ip in adj
      modifies this`adj, nodes, nodes.Members()`neighbors
      ensures Valid() && adj == Link(old(adj), l, |l.nbrs|)
      ensures Extends(old(nodes.s), nodes.s)
      ensures forall m | m in nodes.s :: m in old(nodes.s) || fresh(m)
    {
      hide Mirrors, NodeMirrors, NodeList.Valid, Listing, UniqueIps, LinkOne;
      var i := 0;
      while i < |l.nbrs|
        invariant 0 <= i <= |l.nbrs|
        invariant Valid() && now in nodes.s && adj == Link(old(adj), l, i)
        invariant Extends(old(nodes.s), nodes.s)
        invariant forall m | m in nodes.s :: m in old(nodes.s) || fresh(m)
      {
        LinkNeighbour(now, l.nbrs[i]);
        i := i + 1;
      }
    }

    /** Stores the new sequence number and drops the old neighbour array. */
    method RenewNode(now: Node, l: Lsa)
      requires Valid() && now in nodes.s && now.ip == l.sender
      modifies this, now`seqNum, now`neighbors
      ensures Valid() && adj == old(adj)[l.sender := []] && seqs == old(seqs)[l.sender := l.seqNo]
    {
      hide Mirrors, NodeMirrors, NodeList.Valid, Listing, UniqueIps;
      ReadNode(now, nodes.s, adj, seqs);
      nodes.NamesAreUnique();
      now.seqNum := l.seqNo;
      now.neighbors := [];
      MirrorsRenew(now, nodes.s, adj, seqs);
      adj, seqs := adj[l.sender := []], seqs[l.sender := l.seqNo];
    }

    /** The last node of the list is a server: it is the first line of the server file. */
    ghost predicate EndsInServer()
      reads this, nodes, servers
    {
      EndsIn(nodes.s, IpsOf(servers.s))
    }

    /** The announcement file; None stands for a line with fewer than three fields, which
        ends the parse with -1. base and h say what has been heard before. */
    method ParseLsaFile(lines: seq<Option<Lsa>>, ghost base: Adjacency, ghost h: seq<Lsa>) returns (rc: int)
      requires Valid() && forall i | 0 <= i < |lines| && lines[i].Some? :: NoSelfLink(lines[i].value)
      requires adj == ReplayLinks(base, h) && seqs == ReplaySeq(h)
      modifies this, nodes, clients, nodes.Members()`neighbors, nodes.Members()`seqNum
      ensures Valid()
      ensures adj == ReplayLinks(base, h + WellFormed(lines)) && seqs == ReplaySeq(h + WellFormed(lines))
      ensures IpsOf(clients.s) == ReplayClients(old(IpsOf(clients.s)), IpsOf(servers.s), WellFormed(lines))
      ensures rc == if None in lines then -1 else 0
      ensures Extends(old(nodes.s), nodes.s)
      ensures forall m | m in nodes.s :: m in old(nodes.s) || fresh(m)
      ensures old(EndsInServer()) ==> EndsInServer()
    {
      hide Mirrors, NodeMirrors, NodeList.Valid, Listing, UniqueIps, IpsOf, ApplyLinks, ApplySeq;
      hide ReplayLinks, ReplaySeq, ReplayClients, ApplyClients, WellFormed, Extends, EndsIn;
      var i := 0;
      assert lines[..0] == [] && h + [] == h;
      NothingRead(nodes.s, IpsOf(clients.s), IpsOf(servers.s));
      while i < |lines|
        invariant 0 <= i <= |lines| && None !in lines[..i]
        invariant Valid()
        invariant adj == ReplayLinks(base, h + WellFormed(lines[..i]))
        invariant seqs == ReplaySeq(h + WellFormed(lines[..i]))
        invariant IpsOf(clients.s) == ReplayClients(old(IpsOf(clients.s)), IpsOf(servers.s), WellFormed(lines[..i]))
        invariant Extends(old(nodes.s), nodes.s)
        invariant forall m | m in nodes.s :: m in old(nodes.s) || fresh(m)
      {
        WellFormedStep(lines, i);
        ghost var listed := nodes.s;
        StillEndsIn(old(nodes.s), listed, IpsOf(servers.s));
        if lines[i].None? {
          return -1;
        }
        var l := lines[i].value;
        ghost var p := WellFormed(lines[..i]);
        assert h + (p + [l]) == h + p + [l];
        ReplayStep(base, h + p, l);
        ReplayClientsStep(old(IpsOf(clients.s)), IpsOf(servers.s), p, l);
        ParseLsaLine(l);
        ExtendsAgain(old(nodes.s), listed, nodes.s);
        i := i + 1;
      }
      StillEndsIn(old(nodes.s), nodes.s, IpsOf(servers.s));
      assert lines[..|lines|] == lines;
      return 0;
    }

    /** The server file: every name joins the node list and the server list, then the
        server list is turned round. */
    method ParseServerFile(names: seq<Ip>)
      requires Valid()
      modifies this, nodes, servers, servers.Members()`next
      ensures Valid() && adj == ListAll(old(adj), names) && seqs == old(seqs)
      ensures IpsOf(servers.s) == Reversed(PushAll(old(IpsOf(servers.s)), names))
      ensures clients.s == old(clients.s)
      ensures forall m | m in nodes.s :: m in old(nodes.s) || fresh(m)
      ensures old(nodes.s) == [] && names != [] ==> EndsInServer()
    {
      hide Mirrors, NodeMirrors, NodeList.Valid, Listing, UniqueIps, IpsOf, Reversed, PushAll, ListAll;
      ReadServers(names);
      nodes.NamesAreUnique();
      servers.NamesAreUnique();
      clients.NamesAreUnique();
      ReversedElements(IpsOf(servers.s));
      ReversedIps(servers.s);
      assert forall ip | ip in IpsOf(servers.s) :: ip in Elements(Reversed(IpsOf(servers.s)));
      servers.Reverse();
    }

    /** One line of the server file. */
    method ReadServer(name: Ip)
      requires Valid()
      modifies this`adj, nodes, servers
      ensures Valid() && adj == AddNode(old(adj), name) && seqs == old(seqs)
      ensures IpsOf(servers.s) == PushNew(old(IpsOf(servers.s)), name)
      ensures forall m | m in servers.s :: m in old(servers.s) || fresh(m)
      ensures forall m | m in nodes.s :: m in old(nodes.s) || fresh(m)
      ensures old(nodes.s) == [] || old(EndsInServer()) ==> EndsInServer()
    {
      hide Mirrors, NodeMirrors, NodeList.Valid, Listing, UniqueIps, IpsOf, AddNode, Extends, EndsIn, PushNew;
      var n := AddNetworkNode(name);
      var server := servers.AddNodeByIp(name);
      if old(nodes.s) == [] || old(EndsInServer()) {
        EndsInOneMore(old(nodes.s), nodes.s, n, old(IpsOf(servers.s)), IpsOf(servers.s));
      }
    }

    method ReadServers(names: seq<Ip>)
      requires Valid()
      modifies this, nodes, servers
      ensures Valid() && adj == ListAll(old(adj), names) && seqs == old(seqs)
      ensures IpsOf(servers.s) == PushAll(old(IpsOf(servers.s)), names)
      ensures forall m | m in servers.s :: m in old(servers.s) || fresh(m)
      ensures forall m | m in nodes.s :: m in old(nodes.s) || fresh(m)
      ensures old(nodes.s) == [] && names != [] ==> EndsInServer()
    {
      hide Mirrors, NodeMirrors, NodeList.Valid, Listing, UniqueIps, IpsOf, AddNode, EndsIn, PushNew;
      hide ListAll, PushAll;
      NoServersRead(adj, IpsOf(servers.s));
      assert names[..0] == [];
      var i := 0;
      while i < |names|
        invariant 0 <= i <= |names|
        invariant Valid() && adj == ListAll(old(adj), names[..i]) && seqs == old(seqs)
        invariant IpsOf(servers.s) == PushAll(old(IpsOf(servers.s)), names[..i])
        invariant forall m | m in servers.s :: m in old(servers.s) || fresh(m)
        invariant forall m | m in nodes.s :: m in old(nodes.s) || fresh(m)
        invariant i == 0 ==> nodes.s == old(nodes.s)
        invariant old(nodes.s) == [] && i > 0 ==> EndsInServer()
      {
        assert names[..i + 1] == names[..i] + [names[i]];
        PushAllStep(old(IpsOf(servers.s)), names[..i], names[i]);
        ListAllStep(old(adj), names[..i], names[i]);
        ReadServer(names[i]);
        i := i + 1;
      }
      assert names[..|names|] == names;
    }
  }
}
