/** The name server's loop over datagrams: what it sends back to good and to bad requests. */
module Answering {
  import opened Options
  import opened Wire
  import opened DnsRecord

  /** A zeroed receive buffer with size bytes of a request in front. */
  datatype Datagram = Datagram(buf: Bytes, size: int)

  /** The name that is left in the zeroed name buffer. None stands for a read or write outside a
      buffer. */
  function NameIn(d: Datagram): Option<Bytes> {
    match ParseRequest(d.buf, d.size)
    case Undefined => None
    case Rejected => Some([])
    case Accepted(_, name, _) => Some(name)
  }

  /** The packet is a reply without error code to the name in the buffer. */
  predicate Answers(d: Datagram, ip: Bytes, packet: Bytes)
    requires |ip| == 4
  {
    |d.buf| >= 12 && NameIn(d).Some? && packet == Wire.Reply(NameIn(d).value, ip, FromU16(d.buf, 0))
  }

  /** One turn of the loop, with the server's address for this client. retval is what the loop last
      stored there; the parser's result is not looked at. */
  method Serve(d: Datagram, ip: Bytes, retval: int) returns (packet: Option<Bytes>)
    requires |ip| == 4
    ensures packet.None? <==> NameIn(d) == None
    ensures packet.Some? && retval >= 0 ==> Answers(d, ip, packet.value)
    ensures packet.Some? && retval < 0 ==>
              |d.buf| >= 12 && packet.value == Header(FromU16(d.buf, 0), 132, 16, 0, 0)
  {
    var parsed := ParseRequest(d.buf, d.size);
    var qname: Bytes := [];
    match parsed {
      case Undefined => return None;
      case Rejected =>
      case Accepted(_, name, _) => qname := name;
    }
    var id := FromU16(d.buf, 0);
    var result := new Byte[65536];
    var size;
    if retval < 0 {
      size := GenResponse(qname, ip, id, 1, result);
    } else {
      size := GenResponse(qname, ip, id, 0, result);
    }
    return Some(result[..size]);
  }

  /** The loop, which leaves retval at 0: every datagram is answered as if its request were good. The
      addresses are the servers chosen for the clients. */
  method ServeAll(datagrams: seq<Datagram>, ips: seq<Bytes>) returns (packets: seq<Bytes>)
    requires |ips| == |datagrams| && forall ip | ip in ips :: |ip| == 4
    requires forall d | d in datagrams :: NameIn(d).Some?
    ensures |packets| == |datagrams|
    ensures forall i | 0 <= i < |packets| :: Answers(datagrams[i], ips[i], packets[i])
  {
    hide Answers;
    var retval := 0;
    packets := [];
    for k := 0 to |datagrams|
      invariant |packets| == k && retval == 0
      invariant forall i | 0 <= i < k :: Answers(datagrams[i], ips[i], packets[i])
    {
      assert datagrams[k] in datagrams && ips[k] in ips;
      var packet := Serve(datagrams[k], ips[k], retval);
      packets := packets + [packet.value];
    }
  }

  /** A rejected request is answered with the empty name, no error code and the server's address at the
      end; the C client writes a zero in front of its name buffer when it parses that answer. */
  lemma RejectedIsAnswered(d: Datagram, ip: Bytes, after: Bytes, size: int)
    requires |ip| == 4 && ParseRequest(d.buf, d.size) == Rejected
    ensures |d.buf| >= 12 && NameIn(d) == Some([])
    ensures var packet := Wire.Reply([], ip, FromU16(d.buf, 0));
            && !IsInvalid(packet, false) && ResponseCode(Flags(packet)) == 0
            && packet[|packet| - 4..] == ip && ParseResponse(packet + after, size) == OutOfBounds
  {
    var id := FromU16(d.buf, 0);
    var header, question, answer := Header(id, 132, 0, 1, 1), Question([]), Answer([], ip);
    ReplyIsValid(id, question + answer);
    Associative(header, question, answer);
    ReplyIsValid(id, question + (answer + after));
    Regroup(header, question, answer, after);
    EmptyName(question + (answer + after), size - 12);
    HeaderFields(id, 132, 0, 1, 1, question + (answer + after));
  }

  lemma EmptyName(mem: Bytes, size: int)
    requires mem != [] && mem[0] == 0
    ensures QuestionAt(mem, size) == None
  {
  }
}
