/** The Python client and the C server exchange messages: what one writes, the other
    reads. */
module DnsExchange {
  import opened Options
  import opened Wire
  import DnsRecord
  import opened DnsCommon

  lemma RestParts(name: Bytes)
    ensures var n := FirstDot(name);
            Rest(name) == name[..n] + (if n < |name| then Encode(name[n + 1..]) else [0])
  {
  }

  /** Python reads back an encoded name. */
  lemma {:induction false} PythonReadsName(name: Bytes, after: Bytes)
    requires Hostname(name)
    ensures TextAfter(Rest(name) + after, FirstDot(name)) == Some(Read(name + [DOT], after))
    decreases |name|
  {
    hide Encode, FirstDot, TextAfter, Hostname, NoDots, NoZeros, Rest;
    HostnameParts(name);
    RestParts(name);
    var n := FirstDot(name);
    var part := name[..n];
    if n < |name| {
      var rest := name[n + 1..];
      PythonReadsName(rest, after);
      EncodeHead(rest);
      HostnameParts(rest);
      LabelRead(part, FirstDot(rest), Rest(rest) + after);
      Regrouped(part, FirstDot(rest), Rest(rest), after);
      Associative(part + [DOT], rest, [DOT]);
    } else {
      LabelRead(part, 0, after);
      NothingMore(after);
      Associative(part, [0], after);
      assert part + [DOT] + [] == name + [DOT];
    }
  }

  lemma NothingMore(after: Bytes)
    ensures TextAfter(after, 0) == Some(Read([], after))
  {
  }

  lemma Regrouped(a: Bytes, x: Byte, b: Bytes, c: Bytes)
    ensures a + ([x] + b) + c == a + ([x] + (b + c))
  {
    Associative([x], b, c);
    Associative(a, [x] + b, c);
  }

  lemma PythonReadsAnswer(name: Bytes, ip: Bytes)
    requires Hostname(name) && |ip| == 4
    ensures ReadAnswerName(Answer(name, ip)) ==
            Some(AnswerName(Named(name), [0, 1, 0, 1, 0, 0, 0, 0, 0, 4] + ip))
  {
    hide Encode, Rest, FirstDot, TextAfter, Hostname, NoDots, NoZeros;
    var record: Bytes := [0, 1, 0, 1, 0, 0, 0, 0, 0, 4];
    var n := FirstDot(name);
    HostnameParts(name);
    EncodeHead(name);
    PythonReadsName(name, record + ip);
    Regroup([n], Rest(name), record, ip);
    DropFirst([n], Rest(name) + (record + ip));
    assert (name + [DOT])[..|name|] == name;
  }

  /** An authoritative answer of one question and one answer, both of type A and class IN, with lifetime 0
      and four bytes of address. */
  function CReply(name: Bytes, ip: Bytes, id: int): DnsCommon.Reply {
    DnsCommon.Reply(name, ip, id, DnsCommon.HeaderFields(1, 0, 1, 0, 0, 0, 0, 0, 1, 1, 0, 0), 1, 1,
                    RecordFields(Named(name), 1, 1, 0, 4))
  }

  /** Python decodes the C server's reply to the name, the identifier and the address. */
  lemma PythonReadsReply(name: Bytes, ip: Bytes, id: int)
    requires Hostname(name) && |ip| == 4 && 0 <= id < 65536
    ensures ReplyIn(Wire.Reply(name, ip, id)) == Some(CReply(name, ip, id))
  {
    hide Encode, Rest, FirstDot, TextAfter, Hostname, NoDots, NoZeros, Answer, ReadAnswerName, Header;
    var answer, n := Answer(name, ip), FirstDot(name);
    HostnameParts(name);
    EncodeHead(name);
    PythonReadsName(name, [0, 1, 0, 1] + answer);
    PythonReadsAnswer(name, ip);
    ReplyShape(id, n, Rest(name), answer);
    DropFirst([0, 1, 0, 1], answer);
    var record: Bytes := [0, 1, 0, 1, 0, 0, 0, 0, 0, 4];
    assert (record + ip)[10..14] == ip;
    assert (name + [DOT])[..|name|] == name;
  }

  lemma ReplyShape(id: int, n: Byte, rest: Bytes, answer: Bytes)
    requires 0 <= id < 65536
    ensures var data := Header(id, 132, 0, 1, 1) + ([n] + rest + [0, 1, 0, 1]) + answer;
            && |data| >= 13 && data[12] == n && data[13..] == rest + ([0, 1, 0, 1] + answer)
            && FromU16(data, 0) == id && data[2] == 132 && data[3] == 0
            && FromU16(data, 4) == 1 && FromU16(data, 6) == 1 && FromU16(data, 8) == 0 && FromU16(data, 10) == 0
  {
    var header, fixed := Header(id, 132, 0, 1, 1), [0, 1, 0, 1];
    var data := header + ([n] + rest + fixed) + answer;
    assert data[13..] == rest + (fixed + answer);
  }

  lemma PointerRead(ip: Bytes)
    requires |ip| == 4
    ensures var record: Bytes := [0, 1, 0, 1, 0, 0, 0, 0, 0, 4];
            && ReadAnswerName([192, 12] + (record + ip)) == Some(AnswerName(Pointer(49164), record + ip))
            && Record(Pointer(49164), record + ip) == RecordFields(Pointer(49164), 1, 1, 0, 4)
            && (record + ip)[10..14] == ip
  {
    var record: Bytes := [0, 1, 0, 1, 0, 0, 0, 0, 0, 4];
    DropFirst([192, 12], record + ip);
  }

  lemma PartsRead(data: Bytes, q: Read, n: AnswerName)
    requires |data| >= 13 && TextAfter(data[13..], data[12]) == Some(q) && |q.after| >= 4
    requires FromU16(data, 6) != 0 && ReadAnswerName(q.after[4..]) == Some(n) && |n.after| >= 14
    ensures ReplyIn(data) ==
            Some(DnsCommon.Reply(DropLast(q.text), n.after[10..14], FromU16(data, 0), Fields(data),
                                 FromU16(q.after, 0), FromU16(q.after, 2), Record(n.name, n.after)))
  {
  }

  /** Python also reads the form that its own server sends, with a pointer to the question for a name. */
  lemma PythonReadsPointer(name: Bytes, ip: Bytes, id: int)
    requires Hostname(name) && |ip| == 4 && 0 <= id < 65536
    ensures var answer: Bytes := [192, 12] + ([0, 1, 0, 1, 0, 0, 0, 0, 0, 4] + ip);
            ReplyIn(Header(id, 132, 0, 1, 1) + Question(name) + answer) ==
            Some(CReply(name, ip, id).(record := RecordFields(Pointer(49164), 1, 1, 0, 4)))
  {
    hide Encode, Rest, FirstDot, TextAfter, Hostname, NoDots, NoZeros, Header, ReplyIn, ReadAnswerName, Record;
    var record: Bytes := [0, 1, 0, 1, 0, 0, 0, 0, 0, 4];
    var answer, n := [192, 12] + (record + ip), FirstDot(name);
    HostnameParts(name);
    EncodeHead(name);
    PythonReadsName(name, [0, 1, 0, 1] + answer);
    ReplyShape(id, n, Rest(name), answer);
    DropFirst([0, 1, 0, 1], answer);
    PointerRead(ip);
    var data := Header(id, 132, 0, 1, 1) + Question(name) + answer;
    PartsRead(data, Read(name + [DOT], [0, 1, 0, 1] + answer), AnswerName(Pointer(49164), record + ip));
    assert (name + [DOT])[..|name|] == name;
  }

  // ---- Replies that are cut off ----

  lemma {:induction false} TextAfterPrefix(mem: Bytes, tail: Bytes, l: nat)
    requires TextAfter(mem, l).Some?
    ensures TextAfter(mem + tail, l) == Some(Read(TextAfter(mem, l).value.text, TextAfter(mem, l).value.after + tail))
    decreases |mem|
  {
    if l > 1 {
      assert (mem + tail)[1..] == mem[1..] + tail;
      TextAfterPrefix(mem[1..], tail, l - 1);
    } else if l == 1 {
      assert (mem + tail)[2..] == mem[2..] + tail;
      TextAfterPrefix(mem[2..], tail, mem[1]);
    }
  }

  lemma ReadAnswerNamePrefix(mem: Bytes, tail: Bytes)
    requires ReadAnswerName(mem).Some?
    ensures ReadAnswerName(mem + tail).Some?
    ensures ReadAnswerName(mem + tail).value.after == ReadAnswerName(mem).value.after + tail
  {
    if FromU16(mem, 0) == 49164 {
      assert (mem + tail)[2..] == mem[2..] + tail;
    } else {
      assert (mem + tail)[1..] == mem[1..] + tail;
      TextAfterPrefix(mem[1..], tail, mem[0]);
    }
  }

  lemma QuestionRead(name: Bytes, ip: Bytes, id: int)
    requires Hostname(name) && |ip| == 4 && 0 <= id < 65536
    ensures var data := Wire.Reply(name, ip, id);
            |data| >= 13 && TextAfter(data[13..], data[12]) == Some(Read(name + [DOT], [0, 1, 0, 1] + Answer(name, ip)))
  {
    hide Encode, Rest, FirstDot, TextAfter, Hostname, NoDots, NoZeros, Answer, Header;
    HostnameParts(name);
    EncodeHead(name);
    PythonReadsName(name, [0, 1, 0, 1] + Answer(name, ip));
    ReplyShape(id, FirstDot(name), Rest(name), Answer(name, ip));
  }

  /** A message that goes on behind a question and an answer that can be read has more than its answer
      needs. */
  lemma LongerReply(data: Bytes, tail: Bytes, q: Read, n: AnswerName)
    requires ReplyIn(data).Some? && |data + tail| >= 13
    requires TextAfter((data + tail)[13..], (data + tail)[12]) == Some(q) && |q.after| >= 4
    requires ReadAnswerName(q.after[4..]) == Some(n)
    ensures |n.after| >= 14 + |tail|
  {
    hide TextAfter, ReadAnswerName;
    assert (data + tail)[13..] == data[13..] + tail;
    TextAfterPrefix(data[13..], tail, data[12]);
    var short := TextAfter(data[13..], data[12]).value.after;
    assert (short + tail)[4..] == short[4..] + tail;
    ReadAnswerNamePrefix(short[4..], tail);
  }

  /** Wherever the C server's reply is cut off, Python cannot read it. */
  lemma CutReply(name: Bytes, ip: Bytes, id: int, n: nat)
    requires Hostname(name) && |ip| == 4 && 0 <= id < 65536 && n < |Wire.Reply(name, ip, id)|
    ensures ReplyIn(Wire.Reply(name, ip, id)[..n]) == None
  {
    hide TextAfter, ReadAnswerName, Hostname, Answer, Wire.Reply, ReplyIn;
    var all := Wire.Reply(name, ip, id);
    var data, tail := all[..n], all[n..];
    assert all == data + tail;
    QuestionRead(name, ip, id);
    PythonReadsAnswer(name, ip);
    DropFirst([0, 1, 0, 1], Answer(name, ip));
    if ReplyIn(data).Some? {
      var rr := AnswerName(Named(name), [0, 1, 0, 1, 0, 0, 0, 0, 0, 4] + ip);
      LongerReply(data, tail, Read(name + [DOT], [0, 1, 0, 1] + Answer(name, ip)), rr);
      assert false;
    }
  }

  // ---- The exchange ----

  /** The bytes that the client takes from a datagram. */
  const RECEIVE_SIZE := 1024

  /** The reply to this name fits the client's receive. */
  predicate ReplyFits(name: Bytes) {
    2 * |name| + 34 <= 1024
  }

  method ReadReply(packet: Bytes) returns (r: Option<DnsCommon.Reply>)
    ensures r == ReplyIn(if |packet| <= RECEIVE_SIZE then packet else packet[..RECEIVE_SIZE])
  {
    r := ParseMessage(if |packet| <= RECEIVE_SIZE then packet else packet[..RECEIVE_SIZE]);
  }

  lemma ReplyReadExactlyWhen(name: Bytes, ip: Bytes, id: int)
    requires Hostname(name) && |ip| == 4 && 0 <= id < 65536
    ensures var packet := Wire.Reply(name, ip, id);
            ReplyIn(if |packet| <= RECEIVE_SIZE then packet else packet[..RECEIVE_SIZE]) ==
            if ReplyFits(name) then Some(CReply(name, ip, id)) else None
  {
    hide Header, Question, Answer, ReplyIn, Hostname;
    if ReplyFits(name) {
      PythonReadsReply(name, ip, id);
    } else {
      CutReply(name, ip, id, RECEIVE_SIZE);
    }
  }

  /** A query from Python reaches the C server, and its reply comes back: for every hostname, identifier
      and address the client learns them all exactly when the reply fits its receive. A reply that is cut
      off makes the parse raise; a name still longer than that overruns the server's name buffer. The bytes
      behind the query are arbitrary. */
  method Exchange(name: Bytes, id: int, ip: Bytes, behind: Bytes) returns (r: Option<DnsCommon.Reply>)
    requires Hostname(name) && 0 <= id < 65536 && |ip| == 4
    ensures r == if ReplyFits(name) then Some(CReply(name, ip, id)) else None
  {
    HostnamesPack(name);
    hide Hostname, Encode, Rest, FirstDot, TextAfter, Header, Question, Answer, ReplyIn;
    var client := new Codec(id);
    var query := client.GenQuery(name);
    var request := DnsRecord.ParseRequest(query.value + behind, |query.value|);
    DnsRecord.RequestRoundTrip(name, id, 4, behind);
    if request.Undefined? {
      return None;
    }
    var packet := new Byte[65536];
    var size := DnsRecord.GenResponse(request.name, ip, request.id, 0, packet);
    r := ReadReply(packet[..size]);
    ReplyReadExactlyWhen(name, ip, id);
  }
}
