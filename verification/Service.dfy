/** The name server as its client sees it: from the files it reads to the address that the client
    decodes. */
module Service {
  import opened Options
  import opened Graphs
  import opened Topology
  import opened NameServer
  import opened GenLsa
  import opened EndToEnd
  import opened Wire
  import DnsRecord
  import DnsCommon
  import opened DnsExchange
  import opened Answering

  /** Dotted addresses as four bytes. */
  ghost predicate FourBytes(address: Ip -> Bytes) {
    forall ip :: |address(ip)| == 4
  }

  /** A client asks for a name, and is answered with this server. */
  method Resolve(name: Bytes, id: int, ip: Bytes, behind: Bytes) returns (r: Option<DnsCommon.Reply>)
    requires Hostname(name) && 0 <= id < 65536 && |ip| == 4
    ensures r == if ReplyFits(name) then Some(CReply(name, ip, id)) else None
  {
    DnsCommon.HostnamesPack(name);
    hide Hostname, Encode, Rest, FirstDot, Header, Question, Answer, DnsCommon.ReplyIn;
    var client := new DnsCommon.Codec(id);
    var query := client.GenQuery(name);
    DnsRecord.RequestRoundTrip(name, id, 4, behind);
    QueryId(name, id, behind);
    var packet := Serve(Datagram(query.value + behind, |query.value|), ip, 0);
    if packet.None? {
      return None;
    }
    r := ReadReply(packet.value);
    ReplyReadExactlyWhen(name, ip, id);
  }

  lemma QueryId(name: Bytes, id: int, behind: Bytes)
    requires 0 <= id < 65536
    ensures var buf := Header(id, 4, 0, 1, 0) + Question(name) + behind;
            |buf| >= 12 && FromU16(buf, 0) == id
  {
    hide Question;
    Associative(Header(id, 4, 0, 1, 0), Question(name), behind);
    DnsRecord.HeaderFields(id, 4, 0, 1, 0, Question(name) + behind);
  }

  /** The name server loads a links file's announcements, and a client of that file asks: when enough gets
      through, the address that it decodes is that of a server at the least hop distance in the real
      network, or of the first listed one if it can reach none. */
  method ResolveByTable(
    lines: seq<Line>, sink: Ip, hearing: seq<nat -> bool>, file: seq<Ip>, client: Ip, address: Ip -> Bytes,
    name: Bytes, id: int, behind: Bytes)
    returns (r: Option<DnsCommon.Reply>)
    requires SimpleFile(lines) && sink in LinksOf(lines) && FourBytes(address)
    requires Hostname(name) && 0 <= id < 65536
    ensures var links, servers := LinksOf(lines), ServerNames(Some(file));
            file != [] && EveryLinkGetsThrough(lines, sink, hearing)
            && ClientGetsThrough(lines, sink, hearing, servers) && IsClient(links, servers, client) ==>
              if ReplyFits(name)
              then exists s :: WellServed(links, servers, client, s) && r == Some(CReply(name, address(s), id))
              else r == None
  {
    hide LinksOf, WellServed, EveryLinkGetsThrough, ClientGetsThrough, IsClient, ServerNames, SimpleFile, Hostname;
    var server := AnswerFromFiles(lines, sink, hearing, file, client);
    if server.None? {
      return None;
    }
    r := Resolve(name, id, address(server.value), behind);
  }

  /** m clients ask a round-robin server one after the other: the k-th decodes the address of server k
      modulo their number. */
  method ResolveInTurn(net: Network, m: nat, address: Ip -> Bytes, name: Bytes, id: int, behind: Bytes)
    returns (rs: seq<Option<DnsCommon.Reply>>)
    requires net.Valid() && net.servers.s != [] && FourBytes(address)
    requires Hostname(name) && 0 <= id < 65536
    ensures IpsOf(net.servers.s) != [] && |rs| == m
    ensures forall k | 0 <= k < m ::
              rs[k] == if ReplyFits(name) then Some(CReply(name, address(Turns(IpsOf(net.servers.s), m)[k]), id))
                       else None
  {
    hide Network.Valid, Hostname, IpsOf;
    var servers := RoundRobin(net, m);
    rs := [];
    for k := 0 to m
      invariant |rs| == k
      invariant forall j | 0 <= j < k ::
                  rs[j] == if ReplyFits(name) then Some(CReply(name, address(servers[j]), id)) else None
    {
      var r := Resolve(name, id, address(servers[k]), behind);
      rs := rs + [r];
    }
  }
}
