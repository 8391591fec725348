/** The handler that reads from the server's socket: it puts the responses together in the connection's
    buffers, proved against Reassembly.Drain, and gives each one to the handler of the connection's
    state, proved against ProxySession.Answered. */
module ServerHandler {
  import opened Options
  import opened Wire
  import opened Scanner
  import opened Reassembly
  import opened ProxySession

  class ServerSide {
    const buf: array<Byte>
    var offset: int
    var request: Option<Header>
    var toSendLength: nat
    var response: Bytes
    var responseBody: Bytes
    ghost var handled: seq<Message>

    ghost function Snapshot(): Conn
      reads this, buf
    {
      Conn(buf[..], offset, request, toSendLength, response, responseBody, handled)
    }

    ghost predicate Valid()
      reads this, buf
    {
      Snapshot().Valid()
    }

    constructor ()
      ensures Valid() && fresh(buf) && Snapshot() == Fresh(buf[..])
    {
      buf := new Byte[BUFFER_SIZE];
      offset, request, toSendLength := 0, None, 0;
      response, responseBody, handled := [], [], [];
    }

    /** memmove of the bytes from n to `offset` to the front of the buffer. */
    method MoveToFront(n: nat)
      requires n <= offset <= buf.Length
      modifies buf
      ensures buf[..] == Shift(old(buf[..]), n, offset)
    {
      forall i | 0 <= i < offset - n {
        buf[i] := buf[i + n];
      }
    }

    /** Copies what the body still wants out of the buffer. */
    method StoreBody()
      requires Valid() && offset > 0 && toSendLength > 0
      modifies this`offset, this`toSendLength, this`responseBody, buf
      ensures Snapshot() == Store(old(Snapshot()))
    {
      var toSend := if toSendLength > offset then offset else toSendLength;
      responseBody := responseBody + buf[..toSend];
      assert buf[..toSend] == buf[..][..toSend];
      MoveToFront(toSend);
      toSendLength := toSendLength - toSend;
      offset := offset - toSend;
    }

    /** Takes the next header out of the buffer; false when the program would leave its
        buffers. */
    method ParseHeader(recvlen: nat) returns (defined: bool)
      requires Valid() && offset > 0 && 0 < recvlen <= BUFFER_SIZE && toSendLength == 0
      modifies this`offset, this`request, this`toSendLength, this`response, this`responseBody, buf
      ensures ParseNext(old(Snapshot()), recvlen) == if defined then Some(Snapshot()) else None
    {
      hide Position, ContentLength;
      assert buf[..recvlen] == buf[..][..recvlen];
      var position := Scan(buf, recvlen);
      if position.None? {
        request := Some(NeedMore);
        return true;
      }
      var length := ContentLength(buf[..]);
      if length.None? || position.value >= BUFFER_SIZE {
        return false;
      }
      request, toSendLength, responseBody := Some(Parsed(length.value)), length.value, [];
      response := buf[..position.value];
      assert response == buf[..][..position.value];
      if position.value < offset {
        MoveToFront(position.value);
      }
      offset := offset - position.value;
      return true;
    }

    method Receive(chunk: Bytes)
      requires Valid() && 0 <= offset && offset + |chunk| <= BUFFER_SIZE
      modifies this`offset, buf
      ensures Snapshot() == Received(old(Snapshot()), chunk)
    {
      forall i | 0 <= i < |chunk| {
        buf[offset + i] := chunk[i];
      }
      offset := offset + |chunk|;
    }

    /** The response that has been received in full. */
    method TakeResponse() returns (m: Message)
      requires Valid() && request.Some? && toSendLength == 0
      modifies this`request, this`responseBody, this`handled
      ensures Valid() && Snapshot() == Deliver(old(Snapshot()))
      ensures handled == old(handled) + [m]
    {
      m := Message(UntilZero(response), responseBody);
      handled := handled + [m];
      request, responseBody := None, [];
    }
  }

  // ---- Responses given to the handlers ----

  datatype Dispatched = Dispatched(session: Session, ret: nat)

  function ReadResponse(m: Message, rates: Bytes -> seq<int>): Response {
    Response(m, rates(m.body))
  }

  /** One response after the other; estimates are the throughputs after each of them. */
  function DispatchAll(c: Session, ms: seq<Message>, rates: Bytes -> seq<int>, estimates: seq<nat>): Dispatched
    requires |estimates| == |ms|
  {
    if ms == [] then Dispatched(c, 0) else
    var k := |ms| - 1;
    var before := DispatchAll(c, ms[..k], rates, estimates[..k]).session;
    Dispatched(Answered(before, ReadResponse(ms[k], rates), estimates[k]), BytesSent(before, ms[k]))
  }

  lemma DispatchOne(c: Session, ms: seq<Message>, rates: Bytes -> seq<int>, estimates: seq<nat>, m: Message, e: nat)
    requires |estimates| == |ms|
    ensures var before := DispatchAll(c, ms, rates, estimates).session;
            DispatchAll(c, ms + [m], rates, estimates + [e]) ==
            Dispatched(Answered(before, ReadResponse(m, rates), e), BytesSent(before, m))
  {
    assert (ms + [m])[..|ms|] == ms && (estimates + [e])[..|ms|] == estimates;
  }

  /** From the list `was` on, the handlers have led from c to now, and the last one has returned ret. */
  ghost predicate Dispatches(was: seq<Message>, c: Session, handled: seq<Message>, now: Session, ret: int,
                             rates: Bytes -> seq<int>, estimates: seq<nat>) {
    && was <= handled && |estimates| == |handled| - |was| && ret >= 0
    && DispatchAll(c, handled[|was|..], rates, estimates) == Dispatched(now, ret)
  }

  lemma NothingDispatched(was: seq<Message>, c: Session, rates: Bytes -> seq<int>)
    ensures Dispatches(was, c, was, c, 0, rates, [])
  {
  }

  lemma DispatchesOne(was: seq<Message>, c: Session, handled: seq<Message>, now: Session, ret: int,
                      rates: Bytes -> seq<int>, estimates: seq<nat>, m: Message, e: nat)
    requires Dispatches(was, c, handled, now, ret, rates, estimates)
    ensures Dispatches(was, c, handled + [m], Answered(now, ReadResponse(m, rates), e), BytesSent(now, m), rates,
                       estimates + [e])
  {
    assert (handled + [m])[|was|..] == handled[|was|..] + [m];
    DispatchOne(c, handled[|was|..], rates, estimates, m, e);
  }

  function Messages(rs: seq<Response>): (r: seq<Message>)
    ensures |r| == |rs| && forall i | 0 <= i < |rs| :: r[i] == rs[i].message
  {
    seq(|rs|, i requires 0 <= i < |rs| => rs[i].message)
  }

  /** The browser is sent exactly the handled responses, as they are and in order, but for the first one in
      the state that waits for a manifest. */
  lemma {:induction false} DispatchForwards(c: Session, ms: seq<Message>, rates: Bytes -> seq<int>, estimates: seq<nat>)
    requires |estimates| == |ms|
    ensures var d := DispatchAll(c, ms, rates, estimates).session;
            && Messages(d.toBrowser) ==
               Messages(c.toBrowser) + (if c.state == F4mState && ms != [] then ms[1..] else ms)
            && (d.state == F4mState <==> c.state == F4mState && ms == [])
    ensures ms != [] && (c.state != F4mState || |ms| > 1) ==>
              DispatchAll(c, ms, rates, estimates).ret == |ms[|ms| - 1].header| + |ms[|ms| - 1].body|
    ensures ms == [] ==> DispatchAll(c, ms, rates, estimates).ret == 0
  {
    if ms != [] {
      var k := |ms| - 1;
      var before := DispatchAll(c, ms[..k], rates, estimates[..k]).session;
      DispatchForwards(c, ms[..k], rates, estimates[..k]);
      var d := DispatchAll(c, ms, rates, estimates).session;
      assert ms == ms[..k] + [ms[k]];
      if before.state == F4mState {
        assert ms[1..] == [] && d.toBrowser == before.toBrowser;
      } else {
        assert Messages(d.toBrowser) == Messages(before.toBrowser) + [ms[k]];
        assert k > 0 ==> ms[1..] == ms[..k][1..] + [ms[k]];
      }
    }
  }

  lemma DispatchedIsForwarded(was: seq<Message>, c: Session, handled: seq<Message>, now: Session, ret: int,
                              rates: Bytes -> seq<int>, estimates: seq<nat>)
    requires Dispatches(was, c, handled, now, ret, rates, estimates)
    ensures was <= handled
    ensures var handed := handled[|was|..];
            Messages(now.toBrowser) ==
            Messages(c.toBrowser) + (if c.state == F4mState && handed != [] then handed[1..] else handed)
    ensures var handed := handled[|was|..];
            && (handed == [] ==> ret == 0)
            && (handed != [] && (c.state != F4mState || |handed| > 1) ==>
                  ret == |handed[|handed| - 1].header| + |handed[|handed| - 1].body|)
  {
    DispatchForwards(c, handled[|was|..], rates, estimates);
  }

  lemma StateOf(session: Connection)
    ensures session.Contents().state == session.state && session.Contents().toBrowser == session.toBrowser
  {
  }

  class ProxyConn {
    const server: ServerSide
    const session: Connection

    ghost predicate Valid()
      reads server, server.buf
      reads session`bitrateList, session.config`defaultList, session.table`head, session.table`nodes
      reads session.bitrateList`head, session.bitrateList`nodes, session.bitrateList.nodes`next
      reads session.config.defaultList`head, session.config.defaultList`nodes, session.config.defaultList.nodes`next
    {
      server.Valid() && session.Valid()
    }

    constructor (session: Connection)
      requires session.Valid()
      ensures Valid() && this.session == session && fresh(server) && fresh(server.buf)
      ensures server.Snapshot() == Fresh(server.buf[..])
    {
      this.session := session;
      server := new ServerSide();
    }

    /** Gives the finished response to the handler of the session's state. rates reads the rates out of a
        body. */
    method Dispatch(rates: Bytes -> seq<int>, millis: nat, alpha: real)
      returns (ret: nat, ghost m: Message, ghost e: nat)
      requires Valid() && server.request.Some? && server.toSendLength == 0 && millis > 0 && 0.0 < alpha <= 1.0
      modifies server`request, server`responseBody, server`handled
      modifies session, session.config, session.table, session.table.Members()`tpt
      ensures Valid() && fresh(session.table.Members() - old(session.table.Members()))
      ensures server.Snapshot() == Deliver(old(server.Snapshot())) && server.handled == old(server.handled) + [m]
      ensures session.Contents() == Answered(old(session.Contents()), ReadResponse(m, rates), e)
      ensures ret == BytesSent(old(session.Contents()), m)
    {
      hide Answered, NoList, Deliver, Connection.Valid, Connection.Contents, ServerSide.Valid;
      ghost var c := session.Contents();
      var message := server.TakeResponse();
      assert session.Contents() == c;
      ghost var s := server.Snapshot();
      ret := session.HandleResponse(ReadResponse(message, rates), millis, alpha);
      assert server.Snapshot() == s;
      m, e := message, session.tCurr;
    }

    /** Stores body bytes, and hands on a finished response. The ghosts tell what the handlers have done
        since the receive. */
    method StoreAndHandle(last: nat, rates: Bytes -> seq<int>, millis: nat, alpha: real,
                          ghost was: seq<Message>, ghost c: Session, ghost estimates: seq<nat>)
      returns (ret: nat, ghost estimates': seq<nat>)
      requires Valid() && server.offset > 0 && server.request != Some(NeedMore) && millis > 0 && 0.0 < alpha <= 1.0
      requires Dispatches(was, c, server.handled, session.Contents(), last, rates, estimates)
      modifies server, server.buf, session, session.config, session.table, session.table.Members()`tpt
      ensures Valid() && fresh(session.table.Members() - old(session.table.Members()))
      ensures server.Snapshot() == StoreAndDeliver(old(server.Snapshot()))
      ensures Dispatches(was, c, server.handled, session.Contents(), ret, rates, estimates')
    {
      hide Store, Deliver, Answered, NoList, BytesSent, Connection.Valid, Connection.Contents, Dispatches;
      ghost var now, handled := session.Contents(), server.handled;
      if server.toSendLength > 0 {
        server.StoreBody();
        assert session.Contents() == now;
      }
      ret, estimates' := last, estimates;
      if server.request.Some? && server.toSendLength == 0 {
        ghost var m, e;
        ret, m, e := Dispatch(rates, millis, alpha);
        DispatchesOne(was, c, handled, now, last, rates, estimates, m, e);
        estimates' := estimates + [e];
      }
    }

    /** One readable event. An empty piece is the end of the connection; otherwise the result is what
        the last handler returned. */
    method HandlerServer(chunk: Bytes, rates: Bytes -> seq<int>, millis: nat, alpha: real)
      returns (ret: int, defined: bool, ghost estimates: seq<nat>)
      requires Valid() && 0 <= server.offset && server.offset + |chunk| <= BUFFER_SIZE
      requires millis > 0 && 0.0 < alpha <= 1.0
      modifies server, server.buf, session, session.config, session.table, session.table.Members()`tpt
      ensures chunk == [] ==> ret == -1 && defined && server.Snapshot() == old(server.Snapshot())
                              && session.Contents() == old(session.Contents())
      ensures chunk != [] ==>
                && Drain(Received(old(server.Snapshot()), chunk), |chunk|)
                   == (if defined then Some(server.Snapshot()) else None)
                && ret >= 0 && (defined ==> Valid())
                && Dispatches(old(server.handled), old(session.Contents()), server.handled, session.Contents(), ret,
                              rates, estimates)
                && old(server.handled) <= server.handled
                && var handed := server.handled[|old(server.handled)|..];
                   Messages(session.toBrowser) ==
                   old(Messages(session.toBrowser))
                   + (if old(session.state) == F4mState && handed != [] then handed[1..] else handed)
                   && (handed == [] ==> ret == 0)
                   && (handed != [] && (old(session.state) != F4mState || |handed| > 1) ==>
                         ret == |handed[|handed| - 1].header| + |handed[|handed| - 1].body|)
    {
      hide Received, Drain, NoList, Dispatches, Connection.Valid, Connection.Contents;
      estimates := [];
      if chunk == [] {
        return -1, true, [];
      }
      ghost var was, c := server.handled, session.Contents();
      StateOf(session);
      NothingDispatched(was, c, rates);
      server.Receive(chunk);
      assert session.Contents() == c;
      ret, defined, estimates := Handle(|chunk|, rates, millis, alpha, was, c);
      DispatchedIsForwarded(was, c, server.handled, session.Contents(), ret, rates, estimates);
      StateOf(session);
    }

    /** The loop over what has been received. */
    method Handle(recvlen: nat, rates: Bytes -> seq<int>, millis: nat, alpha: real,
                  ghost was: seq<Message>, ghost c: Session)
      returns (ret: nat, defined: bool, ghost estimates: seq<nat>)
      requires Valid() && 0 < recvlen <= BUFFER_SIZE && millis > 0 && 0.0 < alpha <= 1.0
      requires Dispatches(was, c, server.handled, session.Contents(), 0, rates, [])
      modifies server, server.buf, session, session.config, session.table, session.table.Members()`tpt
      ensures Drain(old(server.Snapshot()), recvlen) == if defined then Some(server.Snapshot()) else None
      ensures defined ==> Valid()
      ensures Dispatches(was, c, server.handled, session.Contents(), ret, rates, estimates)
    {
      hide Store, Deliver, StoreAndDeliver, ParseNext, Drain, NoList, Dispatches, Connection.Valid, Connection.Contents;
      ret, defined, estimates := 0, true, [];
      ghost var start := server.Snapshot();
      while server.offset > 0 && server.request != Some(NeedMore)
        invariant Valid() && Drain(server.Snapshot(), recvlen) == Drain(start, recvlen)
        invariant Dispatches(was, c, server.handled, session.Contents(), ret, rates, estimates)
        invariant defined && fresh(session.table.Members() - old(session.table.Members()))
        decreases server.offset
      {
        ghost var before := server.Snapshot();
        ret, estimates := StoreAndHandle(ret, rates, millis, alpha, was, c, estimates);
        DrainTurn(before, recvlen);
        if server.offset <= 0 {
          break;
        }
        ghost var now := session.Contents();
        defined := server.ParseHeader(recvlen);
        assert session.Contents() == now;
        if !defined || server.request == Some(NeedMore) {
          return;
        }
      }
      DrainEnds(server.Snapshot(), recvlen);
    }
  }

  lemma DrainEnds(s: Conn, recvlen: nat)
    requires s.Valid() && 0 < recvlen <= BUFFER_SIZE
    ensures s.offset <= 0 || s.request == Some(NeedMore) ==> Drain(s, recvlen) == Some(s)
  {
  }

  /** One turn of the loop, up to the parse and after it. */
  lemma DrainTurn(s: Conn, recvlen: nat)
    requires s.Valid() && 0 < recvlen <= BUFFER_SIZE && s.offset > 0 && s.request != Some(NeedMore)
    ensures var r := StoreAndDeliver(s);
            if r.offset <= 0 then Drain(s, recvlen) == Some(r) == Drain(r, recvlen)
            else match ParseNext(r, recvlen)
                 case None => Drain(s, recvlen) == None
                 case Some(t) =>
                   && Drain(s, recvlen) == Drain(t, recvlen)
                   && (t.request == Some(NeedMore) ==> Drain(t, recvlen) == Some(t))
  {
  }
}
