/** The link-state database of the name server on values: what one announcement does to
    it, and what it holds after any history of announcements. It has two parts, the
    neighbour list of every listed node and the sequence number last accepted from each
    sender. The pointer program that refines it is in Topology.dfy. */
module LinkState {
  import opened Sequences
  import opened Options
  import opened Graphs
  import opened NameLists

  /** One line of the announcement file. */
  datatype Lsa = Lsa(sender: Ip, seqNo: int, nbrs: seq<Ip>)

  type SeqNumbers = map<Ip, int>

  predicate NoSelfLink(l: Lsa) {
    l.sender !in l.nbrs
  }

  /** The sequence number held for n: -1 until something has been accepted from it. */
  function Newest(seqs: SeqNumbers, n: Ip): int {
    if n in seqs then seqs[n] else -1
  }

  predicate Newer(seqs: SeqNumbers, l: Lsa) {
    l.seqNo > Newest(seqs, l.sender)
  }

  function AddNode(adj: Adjacency, n: Ip): Adjacency {
    if n in adj then adj else adj[n := []]
  }

  function AddReverse(adj: Adjacency, n: Ip, m: Ip): Adjacency
    requires n in adj
  {
    if m in adj[n] then adj else adj[n := adj[n] + [m]]
  }

  /** One announced neighbour: listed if new, linked back, appended to the sender's list. */
  function LinkOne(adj: Adjacency, sender: Ip, n: Ip): Adjacency
    requires sender in adj
  {
    var linked := AddReverse(AddNode(adj, n), n, sender);
    linked[sender := linked[sender] + [n]]
  }

  /** Links the first i announced neighbours of l. */
  function Link(adj: Adjacency, l: Lsa, i: nat): (r: Adjacency)
    requires l.sender in adj && i <= |l.nbrs|
    ensures l.sender in r
    decreases i
  {
    if i == 0 then adj else LinkOne(Link(adj, l, i - 1), l.sender, l.nbrs[i - 1])
  }

  /** What a line of the announcement file does to the neighbour lists: a newer
      announcement replaces the sender's list and links every neighbour back. */
  function ApplyLinks(adj: Adjacency, newer: bool, l: Lsa): Adjacency {
    if newer then Link(AddNode(adj, l.sender)[l.sender := []], l, |l.nbrs|)
    else AddNode(adj, l.sender)
  }

  function ApplySeq(seqs: SeqNumbers, l: Lsa): SeqNumbers {
    if Newer(seqs, l) then seqs[l.sender := l.seqNo] else seqs
  }

  // ---- The effect of one announcement ----

  lemma InAppended<T>(s: seq<T>, x: T)
    ensures forall y :: y in s + [x] <==> y in s || y == x
  {
  }

  /** One announced neighbour, seen at one pair of nodes. */
  lemma LinkOneEffect(adj: Adjacency, sender: Ip, n: Ip, u: Ip, v: Ip)
    requires sender in adj
    ensures var r := LinkOne(adj, sender, n);
            && r.Keys == adj.Keys + {n}
            && (Edge(r, u, v) <==> Edge(adj, u, v) || (u == n && v == sender) || (u == sender && v == n))
  {
    InAppended(AddNode(adj, n)[n], sender);
    InAppended(AddReverse(AddNode(adj, n), n, sender)[sender], n);
  }

  predicate Between(l: Lsa, i: nat, u: Ip, v: Ip)
    requires i <= |l.nbrs|
  {
    (u == l.sender && v in l.nbrs[..i]) || (v == l.sender && u in l.nbrs[..i])
  }

  lemma BetweenStep(l: Lsa, i: nat, u: Ip, v: Ip)
    requires 0 < i <= |l.nbrs|
    ensures var n := l.nbrs[i - 1];
            && Elements(l.nbrs[..i]) == Elements(l.nbrs[..i - 1]) + {n}
            && (Between(l, i, u, v) <==>
                  Between(l, i - 1, u, v) || (u == n && v == l.sender) || (u == l.sender && v == n))
  {
    var p := l.nbrs[..i - 1];
    assert l.nbrs[..i] == p + [l.nbrs[i - 1]];
    InAppended(p, l.nbrs[i - 1]);
  }

  lemma {:induction false} LinkEffect(adj: Adjacency, l: Lsa, i: nat, u: Ip, v: Ip)
    requires l.sender in adj && i <= |l.nbrs|
    ensures var r := Link(adj, l, i);
            && r.Keys == adj.Keys + Elements(l.nbrs[..i])
            && (Edge(r, u, v) <==> Edge(adj, u, v) || Between(l, i, u, v))
    decreases i
  {
    if i > 0 {
      hide Edge, LinkOne, Between, Elements;
      BetweenStep(l, i, u, v);
      LinkEffect(adj, l, i - 1, u, v);
      LinkOneEffect(Link(adj, l, i - 1), l.sender, l.nbrs[i - 1], u, v);
    }
  }

  /** One announcement, seen at one pair of nodes: if it is newer than what is held, the
      sender's neighbours are replaced and the sender is added to theirs. */
  lemma ApplyEffect(adj: Adjacency, newer: bool, l: Lsa, u: Ip, v: Ip)
    ensures var r := ApplyLinks(adj, newer, l);
            && r.Keys == adj.Keys + {l.sender} + (if newer then Elements(l.nbrs) else {})
            && (NoSelfLink(l) ==>
                  (Edge(r, u, v) <==>
                     if !newer then Edge(adj, u, v)
                     else if u == l.sender then v in l.nbrs
                     else Edge(adj, u, v) || (v == l.sender && u in l.nbrs)))
  {
    if newer {
      LinkEffect(AddNode(adj, l.sender)[l.sender := []], l, |l.nbrs|, u, v);
      assert l.nbrs[..|l.nbrs|] == l.nbrs;
    }
  }

  /** Every stored neighbour stays a listed node. */
  lemma ApplyKeepsClosed(adj: Adjacency, newer: bool, l: Lsa)
    requires Closed(adj) && NoSelfLink(l)
    ensures Closed(ApplyLinks(adj, newer, l))
  {
    var r := ApplyLinks(adj, newer, l);
    forall u, v | Edge(r, u, v) ensures v in r {
      ApplyEffect(adj, newer, l, u, v);
    }
  }

  /** The sender's stored list is the announced one, in the announced order. */
  lemma {:induction false} LinkStoresList(adj: Adjacency, l: Lsa, i: nat)
    requires l.sender in adj && i <= |l.nbrs| && NoSelfLink(l) && adj[l.sender] == []
    ensures Link(adj, l, i)[l.sender] == l.nbrs[..i]
    decreases i
  {
    if i > 0 {
      LinkStoresList(adj, l, i - 1);
      assert l.nbrs[i - 1] != l.sender;
      assert l.nbrs[..i] == l.nbrs[..i - 1] + [l.nbrs[i - 1]];
    }
  }

  /** The others' lists keep their order; the sender comes last where it was missing. */
  lemma {:induction false} LinkAppendsSender(adj: Adjacency, l: Lsa, i: nat, n: Ip)
    requires l.sender in adj && i <= |l.nbrs| && NoSelfLink(l) && n != l.sender
    ensures var r := Link(adj, l, i);
            && (n in r <==> n in adj || n in l.nbrs[..i])
            && (n in r ==>
                  var was := if n in adj then adj[n] else [];
                  r[n] == if n in l.nbrs[..i] && l.sender !in was then was + [l.sender] else was)
    decreases i
  {
    if i > 0 {
      LinkAppendsSender(adj, l, i - 1, n);
      assert l.nbrs[..i] == l.nbrs[..i - 1] + [l.nbrs[i - 1]];
      assert l.nbrs[i - 1] != l.sender;
      InAppended(l.nbrs[..i - 1], l.nbrs[i - 1]);
    }
  }

  // ---- Histories ----

  function ReplaySeq(h: seq<Lsa>): SeqNumbers
    decreases |h|
  {
    if h == [] then map[] else ApplySeq(ReplaySeq(h[..|h| - 1]), h[|h| - 1])
  }

  /** The neighbour lists after the history h, starting from lists that hold no links. */
  function ReplayLinks(adj: Adjacency, h: seq<Lsa>): Adjacency
    decreases |h|
  {
    if h == [] then adj else
    var p, l := h[..|h| - 1], h[|h| - 1];
    ApplyLinks(ReplayLinks(adj, p), Newer(ReplaySeq(p), l), l)
  }

  ghost predicate NoLinks(adj: Adjacency) {
    forall n | n in adj :: adj[n] == []
  }

  ghost predicate NoSelfLinks(h: seq<Lsa>) {
    forall i | 0 <= i < |h| :: NoSelfLink(h[i])
  }

  /** Announcement i is newer than everything heard from its sender before it. */
  ghost predicate Accepted(h: seq<Lsa>, i: nat) {
    && i < |h| && h[i].seqNo >= 0
    && forall j | 0 <= j < i && h[j].sender == h[i].sender :: h[j].seqNo < h[i].seqNo
  }

  ghost predicate Names(l: Lsa, n: Ip, m: Ip) {
    (l.sender == n && m in l.nbrs) || (l.sender == m && n in l.nbrs)
  }

  /** Some accepted announcement i by n naming m, or by m naming n, has not been followed
      by an accepted announcement of n. */
  ghost predicate Remembered(h: seq<Lsa>, n: Ip, m: Ip) {
    exists i: nat :: RememberedFrom(h, n, m, i)
  }

  ghost predicate RememberedFrom(h: seq<Lsa>, n: Ip, m: Ip, i: nat) {
    && Accepted(h, i) && Names(h[i], n, m)
    && forall k | i < k < |h| && Accepted(h, k) :: h[k].sender != n
  }

  ghost predicate NewestHeard(h: seq<Lsa>, n: Ip, s: int) {
    && s >= -1
    && (forall j | 0 <= j < |h| && h[j].sender == n :: h[j].seqNo <= s)
    && (s == -1 || exists j :: 0 <= j < |h| && h[j].sender == n && h[j].seqNo == s)
  }

  lemma AcceptedPrefix(h: seq<Lsa>, i: nat)
    requires h != [] && i < |h| - 1
    ensures Accepted(h, i) <==> Accepted(h[..|h| - 1], i)
  {
    var p := h[..|h| - 1];
    assert forall j | 0 <= j < i :: h[j] == p[j];
  }

  lemma RememberedStep(h: seq<Lsa>, n: Ip, m: Ip)
    requires h != []
    ensures var l := h[|h| - 1];
            Remembered(h, n, m) <==>
              if Accepted(h, |h| - 1) then Names(l, n, m) || (l.sender != n && Remembered(h[..|h| - 1], n, m))
              else Remembered(h[..|h| - 1], n, m)
  {
    var p, last := h[..|h| - 1], |h| - 1;
    forall i: nat | i < last ensures Accepted(h, i) <==> Accepted(p, i) {
      AcceptedPrefix(h, i);
    }
    if i: nat :| RememberedFrom(h, n, m, i) && i < last {
      assert RememberedFrom(p, n, m, i);
    }
    if i: nat :| RememberedFrom(p, n, m, i) {
      if !Accepted(h, last) || h[last].sender != n {
        assert RememberedFrom(h, n, m, i);
      }
    }
    if Accepted(h, last) && Names(h[last], n, m) {
      assert RememberedFrom(h, n, m, last);
    }
  }

  lemma NewestHeardStep(h: seq<Lsa>, n: Ip, s: int)
    requires h != [] && NewestHeard(h[..|h| - 1], n, s)
    ensures var l := h[|h| - 1];
            NewestHeard(h, n, if l.sender == n && l.seqNo > s then l.seqNo else s)
  {
    var p, last := h[..|h| - 1], |h| - 1;
    assert forall j | 0 <= j < last :: h[j] == p[j];
    if s != -1 {
      var j :| 0 <= j < |p| && p[j].sender == n && p[j].seqNo == s;
      assert h[j].sender == n && h[j].seqNo == s;
    }
  }

  /** After any history the sequence number held is the newest heard. */
  lemma {:induction false} NewestIsStored(h: seq<Lsa>, n: Ip)
    ensures NewestHeard(h, n, Newest(ReplaySeq(h), n))
    decreases |h|
  {
    if h != [] {
      NewestIsStored(h[..|h| - 1], n);
      NewestHeardStep(h, n, Newest(ReplaySeq(h[..|h| - 1]), n));
    }
  }

  lemma AcceptedIsNewer(h: seq<Lsa>)
    requires h != []
    ensures Accepted(h, |h| - 1) <==> Newer(ReplaySeq(h[..|h| - 1]), h[|h| - 1])
  {
    var p := h[..|h| - 1];
    NewestIsStored(p, h[|h| - 1].sender);
    assert forall j | 0 <= j < |p| :: h[j] == p[j];
  }

  /** After any history the stored neighbours of n are exactly the remembered ones. */
  lemma {:induction false} HistoryRefinement(adj: Adjacency, h: seq<Lsa>, n: Ip, m: Ip)
    requires NoLinks(adj) && NoSelfLinks(h)
    ensures Edge(ReplayLinks(adj, h), n, m) <==> Remembered(h, n, m)
    decreases |h|
  {
    if h != [] {
      var p, l := h[..|h| - 1], h[|h| - 1];
      HistoryRefinement(adj, p, n, m);
      AcceptedIsNewer(h);
      RememberedStep(h, n, m);
      ApplyEffect(ReplayLinks(adj, p), Newer(ReplaySeq(p), l), l, n, m);
    }
  }

  /** n has sent something, or was named by an accepted announcement. */
  ghost predicate Mentioned(h: seq<Lsa>, n: Ip) {
    exists i: nat :: MentionedBy(h, n, i)
  }

  ghost predicate MentionedBy(h: seq<Lsa>, n: Ip, i: nat) {
    i < |h| && (h[i].sender == n || (Accepted(h, i) && n in h[i].nbrs))
  }

  lemma MentionedStep(h: seq<Lsa>, n: Ip)
    requires h != []
    ensures Mentioned(h, n) <==> Mentioned(h[..|h| - 1], n) || MentionedBy(h, n, |h| - 1)
  {
    var p, last := h[..|h| - 1], |h| - 1;
    if i: nat :| MentionedBy(h, n, i) && i < last {
      AcceptedPrefix(h, i);
      assert MentionedBy(p, n, i);
    }
    if i: nat :| MentionedBy(p, n, i) {
      AcceptedPrefix(h, i);
      assert MentionedBy(h, n, i);
    }
  }

  /** The listed nodes after any history: those listed before it and those mentioned. */
  lemma {:induction false} ListedNodes(adj: Adjacency, h: seq<Lsa>, n: Ip)
    ensures n in ReplayLinks(adj, h) <==> n in adj || Mentioned(h, n)
    decreases |h|
  {
    if h != [] {
      var p, l := h[..|h| - 1], h[|h| - 1];
      ListedNodes(adj, p, n);
      AcceptedIsNewer(h);
      MentionedStep(h, n);
      ApplyEffect(ReplayLinks(adj, p), Newer(ReplaySeq(p), l), l, n, n);
    }
  }

  lemma {:induction false} ReplayKeepsClosed(adj: Adjacency, h: seq<Lsa>)
    requires Closed(adj) && NoSelfLinks(h)
    ensures Closed(ReplayLinks(adj, h))
    decreases |h|
  {
    if h != [] {
      var p, l := h[..|h| - 1], h[|h| - 1];
      ReplayKeepsClosed(adj, p);
      ApplyKeepsClosed(ReplayLinks(adj, p), Newer(ReplaySeq(p), l), l);
    }
  }

  // ---- A fixed topology ----

  ghost predicate Heard(h: seq<Lsa>, n: Ip) {
    exists i: nat :: i < |h| && h[i].sender == n && h[i].seqNo >= 0
  }

  /** Every announcement lists the true neighbours of its sender. */
  ghost predicate Truthful(links: Adjacency, h: seq<Lsa>) {
    forall i | 0 <= i < |h| :: h[i].sender in links && h[i].nbrs == links[h[i].sender]
  }

  ghost predicate NoSelfLoops(links: Adjacency) {
    forall n | n in links :: n !in links[n]
  }

  lemma {:induction false} HeardIsAccepted(h: seq<Lsa>, n: Ip, i: nat) returns (k: nat)
    requires i < |h| && h[i].sender == n && h[i].seqNo >= 0
    ensures k <= i && Accepted(h, k) && h[k].sender == n
  {
    if j :| 0 <= j < i && h[j].sender == n && h[j].seqNo >= h[i].seqNo {
      k := HeardIsAccepted(h, n, j);
    } else {
      k := i;
    }
  }

  lemma {:induction false} LastAccepted(h: seq<Lsa>, n: Ip, i: nat) returns (k: nat)
    requires Accepted(h, i) && h[i].sender == n
    ensures i <= k && Accepted(h, k) && h[k].sender == n
    ensures forall j | k < j < |h| && Accepted(h, j) :: h[j].sender != n
    decreases |h| - i
  {
    if j: nat :| i < j < |h| && Accepted(h, j) && h[j].sender == n {
      k := LastAccepted(h, n, j);
    } else {
      k := i;
    }
  }

  /** Under a fixed symmetric topology the history keeps an edge exactly when it is real
      and one of its ends has been heard. */
  lemma RememberedIsReal(h: seq<Lsa>, links: Adjacency, n: Ip, m: Ip)
    requires Symmetric(links) && Truthful(links, h)
    ensures Remembered(h, n, m) <==> Edge(links, n, m) && (Heard(h, n) || Heard(h, m))
  {
    if i: nat :| RememberedFrom(h, n, m, i) {
      if h[i].sender == n && m in h[i].nbrs {
        assert Edge(links, n, m) && Heard(h, n);
      } else {
        assert Edge(links, m, n) && Heard(h, m);
      }
    }
    if Edge(links, n, m) && Heard(h, n) {
      var i: nat :| i < |h| && h[i].sender == n && h[i].seqNo >= 0;
      var j := HeardIsAccepted(h, n, i);
      var k := LastAccepted(h, n, j);
      assert RememberedFrom(h, n, m, k);
    } else if Edge(links, n, m) && Heard(h, m) {
      var i: nat :| i < |h| && h[i].sender == m && h[i].seqNo >= 0;
      var k := HeardIsAccepted(h, m, i);
      assert Edge(links, m, n);
      assert RememberedFrom(h, n, m, k);
    }
  }

  /** Whatever was lost, repeated or reordered, after every announcement: an edge is stored
      exactly when it is real and one of its ends has been heard; so the stored relation is
      symmetric. */
  lemma FixedTopology(adj: Adjacency, h: seq<Lsa>, links: Adjacency)
    requires NoLinks(adj) && Symmetric(links) && NoSelfLoops(links) && Truthful(links, h)
    ensures var r := ReplayLinks(adj, h);
            && Symmetric(r)
            && forall n, m :: Edge(r, n, m) <==> Edge(links, n, m) && (Heard(h, n) || Heard(h, m))
  {
    var r := ReplayLinks(adj, h);
    forall n, m
      ensures Edge(r, n, m) <==> Edge(links, n, m) && (Heard(h, n) || Heard(h, m))
    {
      HistoryRefinement(adj, h, n, m);
      RememberedIsReal(h, links, n, m);
    }
    forall n, m | Edge(r, n, m) ensures Edge(r, m, n) {
      assert Edge(links, n, m);
    }
  }

  // ---- The files ----

  predicate IsRouter(ip: Ip) {
    ip.text != "" && ip.text[0] == 'r'
  }

  /** Exactly the names that begin with an r are routers'. */
  lemma RouterNames(c: char, rest: string)
    ensures IsRouter(Ip("r" + rest)) && !IsRouter(Ip(""))
    ensures c != 'r' ==> !IsRouter(Ip([c] + rest))
  {
  }

  function ApplyClients(clients: seq<Ip>, servers: seq<Ip>, ip: Ip): seq<Ip> {
    if ip in servers || IsRouter(ip) then clients else PushNew(clients, ip)
  }

  /** The announcements before the first malformed line. */
  function WellFormed(lines: seq<Option<Lsa>>): seq<Lsa> {
    if lines == [] || lines[0].None? then [] else [lines[0].value] + WellFormed(lines[1..])
  }

  /** They are the values of the lines up to the first malformed one. */
  lemma {:induction false} WellFormedMeans(lines: seq<Option<Lsa>>)
    ensures var h := WellFormed(lines);
            && |h| <= |lines| && (forall i | 0 <= i < |h| :: lines[i] == Some(h[i]))
            && (|h| < |lines| ==> lines[|h|] == None)
  {
    if lines != [] && lines[0].Some? {
      WellFormedMeans(lines[1..]);
    }
  }

  lemma {:induction false} WellFormedStep(lines: seq<Option<Lsa>>, i: nat)
    requires i < |lines| && None !in lines[..i]
    ensures lines[i].Some? ==> WellFormed(lines[..i + 1]) == WellFormed(lines[..i]) + [lines[i].value]
    ensures lines[i].None? ==> WellFormed(lines) == WellFormed(lines[..i])
    decreases i
  {
    if i > 0 {
      assert lines[0] == lines[..i][0];
      assert lines[1..][..i - 1] == lines[..i][1..] && lines[1..][..i] == lines[..i + 1][1..];
      WellFormedStep(lines[1..], i - 1);
    }
  }

  function ReplayClients(clients: seq<Ip>, servers: seq<Ip>, h: seq<Lsa>): seq<Ip>
    decreases |h|
  {
    if h == [] then clients
    else ApplyClients(ReplayClients(clients, servers, h[..|h| - 1]), servers, h[|h| - 1].sender)
  }

  /** The clients are the senders that are neither servers nor routers. */
  lemma {:induction false} ClientsAre(servers: seq<Ip>, h: seq<Lsa>, ip: Ip)
    ensures ip in ReplayClients([], servers, h) <==>
            ip !in servers && !IsRouter(ip) && exists i :: 0 <= i < |h| && h[i].sender == ip
    decreases |h|
  {
    if h != [] {
      var p := h[..|h| - 1];
      ClientsAre(servers, p, ip);
      if i :| 0 <= i < |h| && h[i].sender == ip && i < |p| {
        assert p[i].sender == ip;
      }
      if i :| 0 <= i < |p| && p[i].sender == ip {
        assert h[i].sender == ip;
      }
    }
  }

  function ListAll(adj: Adjacency, file: seq<Ip>): Adjacency
    decreases |file|
  {
    if file == [] then adj else AddNode(ListAll(adj, file[..|file| - 1]), file[|file| - 1])
  }

  lemma {:induction false} ListAllHasNoLinks(adj: Adjacency, file: seq<Ip>)
    requires NoLinks(adj)
    ensures NoLinks(ListAll(adj, file)) && ListAll(adj, file).Keys == adj.Keys + Elements(file)
    decreases |file|
  {
    if file != [] {
      var p := file[..|file| - 1];
      ListAllHasNoLinks(adj, p);
      assert file == p + [file[|file| - 1]];
    }
  }

  lemma ListAllStep(adj: Adjacency, file: seq<Ip>, x: Ip)
    ensures ListAll(adj, file + [x]) == AddNode(ListAll(adj, file), x)
  {
    assert (file + [x])[..|file|] == file;
  }

  lemma ReplayStep(base: Adjacency, h: seq<Lsa>, l: Lsa)
    ensures ReplaySeq(h + [l]) == ApplySeq(ReplaySeq(h), l)
    ensures ReplayLinks(base, h + [l]) == ApplyLinks(ReplayLinks(base, h), Newer(ReplaySeq(h), l), l)
  {
    assert (h + [l])[..|h|] == h;
  }

  lemma ReplayClientsStep(clients: seq<Ip>, servers: seq<Ip>, h: seq<Lsa>, l: Lsa)
    ensures ReplayClients(clients, servers, h + [l]) ==
            ApplyClients(ReplayClients(clients, servers, h), servers, l.sender)
  {
    assert (h + [l])[..|h|] == h;
  }
}
