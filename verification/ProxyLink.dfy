/** The proxy between a browser and a server whose responses arrive in pieces: the session and the
    reassembly put together. */
module ProxyLink {
  import opened Options
  import opened Wire
  import opened Scanner
  import opened Reassembly
  import opened ProxySession
  import opened ServerHandler

  /** The session, the receiving side, the responses that the server has sent so far, and how many of
      their bytes have been received. */
  datatype Link = Link(world: World, receive: Conn, sent: seq<Message>, received: nat)

  /** The browser asks; the server answers the next request it has been sent; the next n bytes arrive;
      another connection takes the first manifest. */
  datatype Move =
    | Browser(request: Request)
    | Server(response: Message)
    | Network(n: nat, estimate: nat)
    | Elsewhere(rates: seq<int>)

  /** The responses handed over by a receive, each given to the handler of the session's state. */
  function Replies(w: World, ms: seq<Message>, rates: Bytes -> seq<int>, estimate: nat): Option<World> {
    if ms == [] then Some(w)
    else match Replies(w, ms[..|ms| - 1], rates, estimate)
         case None => None
         case Some(v) => Step(v, Answer(ReadResponse(ms[|ms| - 1], rates), estimate))
  }

  /** These are the handlers of the proxy. */
  lemma {:induction false} RepliesAreDispatched(w: World, ms: seq<Message>, rates: Bytes -> seq<int>, estimate: nat)
    requires Replies(w, ms, rates, estimate).Some?
    ensures Replies(w, ms, rates, estimate).value.conn ==
            DispatchAll(w.conn, ms, rates, seq(|ms|, _ => estimate)).session
  {
    if ms != [] {
      var k := |ms| - 1;
      assert seq(|ms|, _ => estimate)[..k] == seq(k, _ => estimate);
      RepliesAreDispatched(w, ms[..k], rates, estimate);
    }
  }

  /** The browser waits for each reply before it asks again; the server answers every request once, in
      order, with a sound response; pieces fit the buffer and end in no header. None stands for a move that
      cannot be made, or one that crashes the proxy. */
  ghost function Next(k: Link, e: Move, rates: Bytes -> seq<int>): Option<Link> {
    match e
    case Browser(r) =>
      (match Step(k.world, Ask(r))
       case None => None
       case Some(w) => Some(k.(world := w)))
    case Server(m) =>
      if |k.sent| < |k.world.conn.toServer| && Sound(m) then Some(k.(sent := k.sent + [m])) else None
    case Network(n, estimate) =>
      if 0 < n <= BUFFER_SIZE && k.received + n <= |Stream(k.sent)| && Whole(k.sent, k.received + n)
         && k.receive.Valid() && k.receive.offset == 0
      then
        var chunk := Stream(k.sent)[k.received..k.received + n];
        (match Drain(Received(k.receive, chunk), n)
         case None => None
         case Some(c) =>
           if |c.handled| < |k.receive.handled| then None
           else (match Replies(k.world, c.handled[|k.receive.handled|..], rates, estimate)
                 case None => None
                 case Some(w) => Some(Link(w, c, k.sent, k.received + n))))
      else None
    case Elsewhere(list) =>
      (match Step(k.world, Other(list))
       case None => None
       case Some(w) => Some(k.(world := w)))
  }

  ghost function Moves(start: Link, moves: seq<Move>, rates: Bytes -> seq<int>): Option<Link> {
    if moves == [] then Some(start)
    else match Moves(start, moves[..|moves| - 1], rates)
         case None => None
         case Some(k) => Next(k, moves[|moves| - 1], rates)
  }

  function StartLink(buf: Bytes, defaults: seq<int>, throughput: nat): Link
    requires |buf| == BUFFER_SIZE
  {
    Link(Start(defaults, throughput), Fresh(buf), [], 0)
  }

  // ---- What every move keeps ----

  /** The handlers have had exactly the first responses, each with a body; the receiving side stands in the
      middle of the rest; and no more has been sent than was asked for. */
  ghost predicate Joined(k: Link, rates: Bytes -> seq<int>) {
    && Invariant(k.world) && AllSound(k.sent) && k.received <= |Stream(k.sent)|
    && |k.sent| <= |k.world.conn.toServer| && |k.world.log| == |k.receive.handled|
    && k.receive.offset == 0 && k.receive.handled <= k.sent
    && Ready(k.receive, k.receive.handled, k.sent[|k.receive.handled|..], Stream(k.sent)[k.received..])
    && (forall i | 0 <= i < |k.world.log| ::
          k.receive.handled[i].body != [] && k.world.log[i].response == ReadResponse(k.receive.handled[i], rates))
  }

  lemma StartIsJoined(buf: Bytes, defaults: seq<int>, throughput: nat, rates: Bytes -> seq<int>)
    requires |buf| == BUFFER_SIZE
    ensures Joined(StartLink(buf, defaults, throughput), rates)
  {
  }

  lemma SendingKeeps(k: Link, m: Message, rates: Bytes -> seq<int>)
    requires Joined(k, rates) && Next(k, Server(m), rates).Some?
    ensures Joined(Next(k, Server(m), rates).value, rates)
  {
    hide Ready, Stream, Invariant, Sound;
    var done := k.receive.handled;
    var rest, todo := k.sent[|done|..], Stream(k.sent)[k.received..];
    StreamAppend(k.sent, m);
    StreamAppend(rest, m);
    MoreIsReady(k.receive, done, rest, todo, m);
    assert (k.sent + [m])[|done|..] == rest + [m];
    assert Stream(k.sent + [m])[k.received..] == todo + (m.header + m.body);
  }

  lemma {:induction false} StreamAppend(rs: seq<Message>, m: Message)
    ensures Stream(rs + [m]) == Stream(rs) + (m.header + m.body)
  {
    if rs == [] {
      assert rs + [m] == [m] && [m][1..] == [];
    } else {
      assert (rs + [m])[1..] == rs[1..] + [m];
      StreamAppend(rs[1..], m);
      Associative(rs[0].header + rs[0].body, Stream(rs[1..]), m.header + m.body);
    }
  }

  lemma MoreIsReady(s: Conn, done: seq<Message>, rest: seq<Message>, todo: Bytes, m: Message)
    requires Ready(s, done, rest, todo)
    ensures Ready(s, done, rest + [m], todo + (m.header + m.body))
  {
    StreamAppend(rest, m);
    var more := m.header + m.body;
    assert (todo + more)[..s.offset] == todo[..s.offset];
    if s.request.Some? {
      assert (rest + [m])[1..] == rest[1..] + [m];
      StreamAppend(rest[1..], m);
      Associative(s.body, todo, more);
      Associative(rest[0].body, Stream(rest[1..]), more);
    }
  }

  /** A receive hands over at most the one open response, and only one with a body. */
  lemma ReceiveHandsOver(k: Link, n: nat, rates: Bytes -> seq<int>)
    requires Joined(k, rates) && 0 < n <= BUFFER_SIZE
    requires k.received + n <= |Stream(k.sent)| && Whole(k.sent, k.received + n)
    ensures k.receive.Valid()
    ensures var chunk := Stream(k.sent)[k.received..k.received + n];
            var c := Drain(Received(k.receive, chunk), n);
            && c.Some? && c.value.offset == 0 && c.value.handled <= k.sent
            && Ready(c.value, c.value.handled, k.sent[|c.value.handled|..], Stream(k.sent)[k.received + n..])
            && (c.value.handled == k.receive.handled ||
                (|c.value.handled| == |k.receive.handled| + 1
                 && c.value.handled[..|k.receive.handled|] == k.receive.handled
                 && c.value.handled[|k.receive.handled|].body != []))
  {
    hide Ready, Stream, Whole, Drain, AllSound, Received, Invariant;
    OpenRequests(k.world);
    var done := k.receive.handled;
    var rest := k.sent[|done|..];
    var chunk, future := Stream(k.sent)[k.received..k.received + n], Stream(k.sent)[k.received + n..];
    assert k.sent == done + rest;
    assert Stream(k.sent)[k.received..] == chunk + future;
    RestIsSound(k.sent, |done|);
    ReadyIsValid(k.receive, done, rest, chunk + future);
    var c, done', rest' := RunStep(k.receive, done, rest, chunk, future);
    ReadyIsValid(c, done', rest', future);
    assert k.sent[..|done'|] == done' && k.sent[|done'|..] == rest';
    HandledGrows(Received(k.receive, chunk), n);
    assert Received(k.receive, chunk).handled == done by { ReceivedBytes(k.receive, chunk, future); }
    if |done'| > |done| {
      assert rest' == [];
      NothingOpen(c, done', future);
      assert Received(k.receive, chunk).offset > 0 by { ReceivedBytes(k.receive, chunk, future); }
      LastHandledHasBody(Received(k.receive, chunk), n);
    }
  }

  lemma RestIsSound(rs: seq<Message>, n: nat)
    requires AllSound(rs) && n <= |rs|
    ensures AllSound(rs[n..])
  {
  }

  lemma NothingOpen(s: Conn, done: seq<Message>, todo: Bytes)
    requires Ready(s, done, [], todo)
    ensures s.request.None?
  {
  }

  lemma {:induction false} HandledGrows(s: Conn, recvlen: nat)
    requires s.Valid() && 0 < recvlen <= BUFFER_SIZE
    ensures Drain(s, recvlen).Some? ==> s.handled <= Drain(s, recvlen).value.handled
    decreases if s.offset > 0 then s.offset else 0
  {
    hide Store, Shift, Position, ContentLength;
    if s.offset > 0 && s.request != Some(NeedMore) {
      var s1 := StoreAndDeliver(s);
      assert s.handled <= s1.handled by { StoreKeepsHandled(s); }
      if s1.offset > 0 {
        var s2 := ParseNext(s1, recvlen);
        if s2.Some? && s2.value.request != Some(NeedMore) {
          HandledGrows(s2.value, recvlen);
        }
      }
    }
  }

  lemma StoreKeepsHandled(s: Conn)
    requires s.Valid() && s.offset > 0 && s.request != Some(NeedMore)
    ensures s.handled <= StoreAndDeliver(s).handled
  {
  }

  lemma ReceivingKeeps(k: Link, n: nat, estimate: nat, rates: Bytes -> seq<int>)
    requires Joined(k, rates) && Next(k, Network(n, estimate), rates).Some?
    ensures Joined(Next(k, Network(n, estimate), rates).value, rates)
  {
    hide Ready, Stream, Whole, Drain, AllSound, Received, Invariant, Sound;
    ReceiveHandsOver(k, n, rates);
    var done := k.receive.handled;
    var c := Drain(Received(k.receive, Stream(k.sent)[k.received..k.received + n]), n).value;
    var handed := c.handled[|done|..];
    if c.handled == done {
      assert Replies(k.world, handed, rates, estimate) == Some(k.world);
    } else {
      var m := c.handled[|done|];
      assert handed == [m] && handed[..0] == [];
      assert Replies(k.world, handed[..0], rates, estimate) == Some(k.world);
      AnswerKeeps(k.world, ReadResponse(m, rates), estimate);
      assert forall i | 0 <= i < |done| :: c.handled[i] == done[i];
    }
  }

  lemma NextKeeps(k: Link, e: Move, rates: Bytes -> seq<int>)
    requires Joined(k, rates) && Next(k, e, rates).Some?
    ensures Joined(Next(k, e, rates).value, rates)
  {
    match e
    case Browser(r) =>
      hide Ready, Stream, AllSound;
      AskKeeps(k.world, r);
    case Server(m) => SendingKeeps(k, m, rates);
    case Network(n, estimate) => ReceivingKeeps(k, n, estimate, rates);
    case Elsewhere(list) =>
      hide Ready, Stream, AllSound;
      StepKeeps(k.world, Other(list));
  }

  lemma {:induction false} MovesKeep(start: Link, moves: seq<Move>, rates: Bytes -> seq<int>)
    requires Joined(start, rates) && Moves(start, moves, rates).Some?
    ensures Joined(Moves(start, moves, rates).value, rates)
  {
    hide Joined, Next;
    if moves != [] {
      MovesKeep(start, moves[..|moves| - 1], rates);
      NextKeeps(Moves(start, moves[..|moves| - 1], rates).value, moves[|moves| - 1], rates);
    }
  }

  // ---- What can crash ----

  /** The move can be made: the browser is not waiting, the server has a request to answer, the bytes have
      been sent, fit the buffer and end in no header, or there is no default list yet. */
  ghost predicate Enabled(k: Link, e: Move) {
    match e
    case Browser(r) => |k.world.conn.toBrowser| == |k.world.asked|
    case Server(m) => |k.sent| < |k.world.conn.toServer| && Sound(m)
    case Network(n, _) => 0 < n <= BUFFER_SIZE && k.received + n <= |Stream(k.sent)| && Whole(k.sent, k.received + n)
    case Elsewhere(_) => k.world.conn.defaults == []
  }

  /** After any moves, a move that can be made crashes the proxy exactly when it asks for a fragment before
      any rates are known; in particular no receive does. */
  lemma CrashesExactlyWhen(
    buf: Bytes, defaults: seq<int>, throughput: nat, moves: seq<Move>, e: Move, rates: Bytes -> seq<int>)
    requires |buf| == BUFFER_SIZE && Moves(StartLink(buf, defaults, throughput), moves, rates).Some?
    requires Enabled(Moves(StartLink(buf, defaults, throughput), moves, rates).value, e)
    ensures var k := Moves(StartLink(buf, defaults, throughput), moves, rates).value;
            Next(k, e, rates) == None <==>
            e.Browser? && e.request.kind == Chunk && k.world.conn.rates == [] && k.world.conn.defaults == []
  {
    hide Joined, Moves, Ready, Stream, Whole, Drain, Received, Sound;
    StartIsJoined(buf, defaults, throughput, rates);
    MovesKeep(StartLink(buf, defaults, throughput), moves, rates);
    var k := Moves(StartLink(buf, defaults, throughput), moves, rates).value;
    match e
    case Network(n, estimate) => ReceiveDoesNotCrash(k, n, estimate, rates);
    case _ =>
  }

  lemma ReceiveDoesNotCrash(k: Link, n: nat, estimate: nat, rates: Bytes -> seq<int>)
    requires Joined(k, rates) && Enabled(k, Network(n, estimate))
    ensures Next(k, Network(n, estimate), rates).Some?
  {
    hide Ready, Stream, Whole, Drain, AllSound, Received, Invariant, Sound;
    ReceiveHandsOver(k, n, rates);
    var done := k.receive.handled;
    var c := Drain(Received(k.receive, Stream(k.sent)[k.received..k.received + n]), n).value;
    var handed := c.handled[|done|..];
    if c.handled != done {
      var m := c.handled[|done|];
      assert handed == [m] && handed[..0] == [];
      assert Replies(k.world, handed[..0], rates, estimate) == Some(k.world);
    }
  }

  // ---- Replies to the browser ----

  /** The server has nothing more to send, and all that it has sent has arrived. */
  predicate Quiet(k: Link) {
    |k.sent| == |k.world.conn.toServer| && k.received == |Stream(k.sent)|
  }

  /** However the responses arrive, once nothing more is under way: every request has its reply exactly when
      no response to it, the full manifest's included, was without a body. Then the manifests are
      accounted for as in ProxySession.EveryRequestAnswered. */
  lemma RepliedExactlyWhen(
    buf: Bytes, defaults: seq<int>, throughput: nat, moves: seq<Move>, rates: Bytes -> seq<int>)
    requires |buf| == BUFFER_SIZE && Moves(StartLink(buf, defaults, throughput), moves, rates).Some?
    ensures var k := Moves(StartLink(buf, defaults, throughput), moves, rates).value;
            Quiet(k) ==> (|k.world.conn.toBrowser| == |k.world.asked| <==> forall m | m in k.sent :: m.body != [])
    ensures var k := Moves(StartLink(buf, defaults, throughput), moves, rates).value;
            && k.receive.handled <= k.sent && |k.world.log| == |k.receive.handled|
            && (forall i | 0 <= i < |k.world.log| ::
                  && k.world.log[i].response.message == k.sent[i]
                  && k.world.log[i].response.rates == rates(k.sent[i].body))
            && |k.world.conn.toBrowser| <= |k.world.asked|
            && (forall j | 0 <= j < |k.world.conn.toBrowser| ::
                  && LastAt(k.world.asked, j) < |k.world.log|
                  && k.world.conn.toBrowser[j].message == k.sent[LastAt(k.world.asked, j)])
            && (|k.world.conn.toBrowser| == |k.world.asked| ==>
                  && Accounts(k.world.asked, k.world.log, k.world.conn.toBrowser)
                  && k.world.conn.toServer == Requests(k.world.log)
                  && |k.world.log| == |k.world.asked| + |Manifests(k.world.asked)|
                  && ManifestsAccounted(k.world.asked, k.world.log, k.world.conn.toBrowser))
  {
    var start := StartLink(buf, defaults, throughput);
    StartIsJoined(buf, defaults, throughput, rates);
    MovesKeep(start, moves, rates);
    var k := Moves(start, moves, rates).value;
    OpenRequests(k.world);
    if |k.world.conn.toBrowser| == |k.world.asked| {
      AccountForManifests(k.world.asked, k.world.log, k.world.conn.toBrowser);
    }
    RepliesStand(k.world);
    if Quiet(k) {
      QuietLink(k, rates);
    }
  }

  lemma QuietLink(k: Link, rates: Bytes -> seq<int>)
    requires Joined(k, rates) && Quiet(k)
    ensures |k.receive.handled| == |k.sent| <==> forall m | m in k.sent :: m.body != []
  {
    hide Ready, Invariant, Stream;
    var done := k.receive.handled;
    var rest := k.sent[|done|..];
    RestIsSound(k.sent, |done|);
    assert Stream(k.sent)[k.received..] == [];
    NothingFollows(k.receive, done, rest);
    if rest == [] {
      forall m | m in k.sent ensures m.body != [] {
        var i :| 0 <= i < |k.sent| && k.sent[i] == m;
        assert k.receive.handled[i] == m;
      }
    } else {
      assert k.sent[|done|] == rest[0] && rest[0] in k.sent;
    }
  }

  /** After a response without a body nothing moves any more: the browser waits, the server has answered
      everything, and no byte is under way. */
  lemma Stuck(k: Link, e: Move, rates: Bytes -> seq<int>)
    requires Joined(k, rates) && Quiet(k) && exists m :: m in k.sent && m.body == []
    ensures Next(k, e, rates).Some? ==>
              e.Elsewhere? && Next(k, e, rates).value.world.conn.toBrowser == k.world.conn.toBrowser
  {
    hide Ready, Stream, Drain, Whole, Received, Invariant, AllSound, Asked, Bitrate.Ladder;
    OpenRequests(k.world);
    QuietLink(k, rates);
  }

  // ---- The failing case ----

  // "content-length: 0", and a blank line
  const BODYLESS_HEADER: Bytes := CONTENT_LENGTH + [48, CR, LF, CR, LF]

  const BODYLESS := Message(BODYLESS_HEADER, [])

  lemma BodylessIsSound()
    ensures Sound(BODYLESS) && |BODYLESS_HEADER| == 21
  {
    hide StopsAt, ContentLength, NoZeros;
    BodylessLength();
    BodylessStops();
    NoZeroInIt();
  }

  lemma NoZeroInIt()
    ensures NoZeros(BODYLESS_HEADER)
  {
    assert 0 !in CONTENT_LENGTH;
    forall i | 0 <= i < 21
      ensures BODYLESS_HEADER[i] != 0
    {
      assert i < 16 ==> BODYLESS_HEADER[i] == CONTENT_LENGTH[i] && CONTENT_LENGTH[i] in CONTENT_LENGTH;
    }
  }

  lemma BodylessStops()
    ensures StopsAt(BODYLESS_HEADER, 21)
  {
    var h := BODYLESS_HEADER;
    hide Scanner.State, StopsAt;
    NoEarlyReturn();
    EndOfIt(h);
    forall q | 0 <= q < 21 ensures !Stop(h, q) {
    }
    ScanExactly(h, 21);
  }

  lemma EndOfIt(h: Bytes)
    requires h == BODYLESS_HEADER
    ensures BlankLineAt(h, 17) && CrRun(h, 17) == 1
  {
    assert h[16] == 48 && h[17] == CR && h[18] == LF && h[19] == CR && h[20] == LF;
    assert CrRun(h, 16) == 0;
  }

  lemma NoEarlyReturn()
    ensures forall i | 0 <= i < 17 :: BODYLESS_HEADER[i] != CR
  {
    assert CR !in CONTENT_LENGTH;
    forall i | 0 <= i < 17
      ensures BODYLESS_HEADER[i] != CR
    {
      assert i < 16 ==> BODYLESS_HEADER[i] == CONTENT_LENGTH[i] && CONTENT_LENGTH[i] in CONTENT_LENGTH;
    }
  }

  lemma BodylessLength()
    ensures ContentLength(BODYLESS_HEADER) == Some(0)
  {
    var h := BODYLESS_HEADER;
    assert MatchesHere(h, CONTENT_LENGTH) by {
      assert forall i | 0 <= i < 16 :: Lower(h[i]) == CONTENT_LENGTH[i];
    }
    var value := h[16..];
    assert value == [48, CR, LF, CR, LF];
    assert Lower(value[0]) != [CR, LF][0];
    assert !MatchesHere(value, [CR, LF]);
    assert MatchesHere(value[1..], [CR, LF]);
    assert Find(value[1..], [CR, LF]) == Some(0);
    assert value[..1] == [48];
    assert Digits([48], 0) == Digits([], 0);
  }

  /** A browser asks for a page, the server answers with a response without a body, all of it arrives in one
      piece: nothing is replied, and nothing is left to happen. */
  lemma BodylessReplyIsLost(
    buf: Bytes, defaults: seq<int>, throughput: nat, r: Request, estimate: nat, rates: Bytes -> seq<int>)
    requires |buf| == BUFFER_SIZE && r.kind == Html
    ensures var moves := [Browser(r), Server(BODYLESS), Network(21, estimate)];
            var k := Moves(StartLink(buf, defaults, throughput), moves, rates);
            k.Some? && Quiet(k.value) && k.value.world.asked == [r] && k.value.world.conn.toBrowser == []
  {
    hide Joined, Next, Moves, Quiet, Sound;
    var start := StartLink(buf, defaults, throughput);
    var a, b, c := Browser(r), Server(BODYLESS), Network(21, estimate);
    StartIsJoined(buf, defaults, throughput, rates);
    BodylessIsSound();
    PageAsked(buf, defaults, throughput, r, rates);
    var k1 := Next(start, a, rates).value;
    NextKeeps(start, a, rates);
    BodylessSent(k1, rates);
    var k2 := Next(k1, b, rates).value;
    NextKeeps(k1, b, rates);
    BodylessArrives(k2, estimate, rates);
    assert [a, b, c] == [] + [a] + [b] + [c];
    OneMoreMove(start, [], a, rates);
    OneMoreMove(start, [] + [a], b, rates);
    OneMoreMove(start, [] + [a] + [b], c, rates);
  }

  lemma OneMoreMove(start: Link, moves: seq<Move>, e: Move, rates: Bytes -> seq<int>)
    ensures Moves(start, [], rates) == Some(start)
    ensures Moves(start, moves + [e], rates) ==
            match Moves(start, moves, rates) { case None => None case Some(k) => Next(k, e, rates) }
  {
    assert (moves + [e])[..|moves|] == moves;
  }

  lemma PageAsked(buf: Bytes, defaults: seq<int>, throughput: nat, r: Request, rates: Bytes -> seq<int>)
    requires |buf| == BUFFER_SIZE && r.kind == Html
    ensures var k := Next(StartLink(buf, defaults, throughput), Browser(r), rates);
            && k.Some? && k.value.sent == [] && k.value.received == 0 && k.value.receive.handled == []
            && k.value.world.asked == [r] && |k.value.world.conn.toServer| == 1 && k.value.world.conn.toBrowser == []
  {
  }

  lemma BodylessSent(k: Link, rates: Bytes -> seq<int>)
    requires k.sent == [] && |k.world.conn.toServer| == 1 && Sound(BODYLESS)
    ensures Next(k, Server(BODYLESS), rates) == Some(k.(sent := [BODYLESS]))
  {
    assert [] + [BODYLESS] == [BODYLESS];
  }

  lemma BodylessArrives(k: Link, estimate: nat, rates: Bytes -> seq<int>)
    requires Joined(k, rates) && k.sent == [BODYLESS] && k.received == 0
    requires k.receive.handled == [] && |BODYLESS_HEADER| == 21 && |k.world.conn.toServer| == 1
    ensures var k' := Next(k, Network(21, estimate), rates);
            k'.Some? && k'.value.world == k.world && Quiet(k'.value)
  {
    hide Joined, Ready, Drain, Received;
    assert Stream(k.sent) == BODYLESS_HEADER by {
      StreamAppend([], BODYLESS);
      assert [] + [BODYLESS] == k.sent;
    }
    assert Whole(k.sent, 21);
    BodylessReceived(k, rates);
  }

  lemma BodylessReceived(k: Link, rates: Bytes -> seq<int>)
    requires Joined(k, rates) && k.sent == [BODYLESS] && k.received == 0 && k.receive.handled == []
    requires |Stream(k.sent)| == 21 && Whole(k.sent, 21)
    ensures k.receive.Valid() && k.receive.offset == 0
    ensures var c := Drain(Received(k.receive, Stream(k.sent)[0..21]), 21);
            c.Some? && c.value.handled == []
  {
    hide Ready, Stream, Drain, Received, Whole;
    ReceiveHandsOver(k, 21, rates);
  }

  // ---- What is proved of sessions holds of links ----

  /** Every series of moves is a run of the session. */
  lemma {:induction false} LinkIsSessionRun(
    buf: Bytes, defaults: seq<int>, throughput: nat, moves: seq<Move>, rates: Bytes -> seq<int>)
    returns (events: seq<Event>)
    requires |buf| == BUFFER_SIZE && Moves(StartLink(buf, defaults, throughput), moves, rates).Some?
    ensures ProxySession.Run(Start(defaults, throughput), events) ==
            Some(Moves(StartLink(buf, defaults, throughput), moves, rates).value.world)
  {
    hide ProxySession.Run, Step, Ready, Joined, Drain, Received;
    var start := StartLink(buf, defaults, throughput);
    if moves == [] {
      events := [];
      NoEvents(Start(defaults, throughput));
      return;
    }
    var p, e := moves[..|moves| - 1], moves[|moves| - 1];
    events := LinkIsSessionRun(buf, defaults, throughput, p, rates);
    var k := Moves(start, p, rates).value;
    match e
    case Browser(r) =>
      events := OneMoreEvent(Start(defaults, throughput), events, k.world, Ask(r));
    case Server(m) =>
    case Network(n, estimate) =>
      var chunk := Stream(k.sent)[k.received..k.received + n];
      var c := Drain(Received(k.receive, chunk), n).value;
      events := RepliesAreEvents(Start(defaults, throughput), events, k.world, c.handled[|k.receive.handled|..],
                                 rates, estimate);
    case Elsewhere(list) =>
      events := OneMoreEvent(Start(defaults, throughput), events, k.world, Other(list));
  }

  lemma NoEvents(start: World)
    ensures ProxySession.Run(start, []) == Some(start)
  {
  }

  lemma OneMoreEvent(start: World, events: seq<Event>, w: World, e: Event) returns (more: seq<Event>)
    requires ProxySession.Run(start, events) == Some(w)
    ensures ProxySession.Run(start, more) == Step(w, e)
  {
    more := events + [e];
    assert more[..|events|] == events;
  }

  lemma {:induction false} RepliesAreEvents(
    start: World, events: seq<Event>, w: World, ms: seq<Message>, rates: Bytes -> seq<int>, estimate: nat)
    returns (more: seq<Event>)
    requires ProxySession.Run(start, events) == Some(w) && Replies(w, ms, rates, estimate).Some?
    ensures ProxySession.Run(start, more) == Replies(w, ms, rates, estimate)
  {
    hide Step;
    more := events;
    if ms != [] {
      var p := ms[..|ms| - 1];
      more := RepliesAreEvents(start, events, w, p, rates, estimate);
      more := OneMoreEvent(start, more, Replies(w, p, rates, estimate).value,
                           Answer(ReadResponse(ms[|ms| - 1], rates), estimate));
    }
  }
}
