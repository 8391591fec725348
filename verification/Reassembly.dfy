/** Reassembly of the server's responses from whatever pieces `recv` returns. */
module Reassembly {
  import opened Sequences
  import opened Options
  import opened Wire
  import opened Scanner
  import Numerals

  const BUFFER_SIZE := 8192

  // ---- The length of a body ----

  function Lower(b: Byte): Byte {
    if 65 <= b <= 90 then b + 32 else b
  }

  predicate MatchesHere(s: Bytes, pat: Bytes) {
    |pat| <= |s| && forall i | 0 <= i < |pat| :: Lower(s[i]) == pat[i]
  }

  /** strcasestr: the first match before the end of the string. */
  function Find(s: Bytes, pat: Bytes): (r: Option<nat>)
    ensures r.Some? ==> r.value + |pat| <= |s|
  {
    if MatchesHere(s, pat) then Some(0)
    else if s == [] || s[0] == 0 then None
    else match Find(s[1..], pat)
         case None => None
         case Some(k) => Some(k + 1)
  }

  function Digits(s: Bytes, value: nat): nat {
    if s == [] || s[0] < 48 || s[0] > 57 then value else Digits(s[1..], value * 10 + (s[0] as int - 48))
  }

  /** atoi; None stands for a negative number, which no buffer can be allocated for. */
  function Atoi(s: Bytes): Option<nat> {
    if s == [] then Some(0)
    else if s[0] == 32 || 9 <= s[0] <= 13 then Atoi(s[1..])
    else if s[0] == 45 then (if Digits(s[1..], 0) == 0 then Some(0) else None)
    else if s[0] == 43 then Some(Digits(s[1..], 0))
    else Some(Digits(s, 0))
  }

  // "content-length: "
  const CONTENT_LENGTH: Bytes := [99, 111, 110, 116, 101, 110, 116, 45, 108, 101, 110, 103, 116, 104, 58, 32]

  /** The announced length; None when the header line is missing, or too long for the copy
      that is made of it. */
  function ContentLength(buf: Bytes): Option<nat> {
    match Find(buf, CONTENT_LENGTH)
    case None => None
    case Some(k) =>
      var value := buf[k + |CONTENT_LENGTH|..];
      match Find(value, [CR, LF])
      case None => None
      case Some(e) => if e >= 50 then None else Atoi(value[..e])
  }

  // ---- What the length means ----

  /** Bytes read as text. */
  function Text(s: Bytes): (r: string)
    ensures |r| == |s| && forall i | 0 <= i < |s| :: r[i] == s[i] as char
  {
    seq(|s|, i requires 0 <= i < |s| => s[i] as char)
  }

  /** The name of the header field with its colon and space, in any case of letters. */
  predicate IsLengthName(s: Bytes) {
    var name := "content-length: ";
    |s| == |name| && forall i | 0 <= i < |s| ::
      s[i] as char == name[i] || ('a' <= name[i] <= 'z' && s[i] as int == name[i] as int - 32)
  }

  ghost predicate LengthNameAt(s: Bytes, k: nat) {
    k + 16 <= |s| && IsLengthName(s[k..k + 16])
  }

  lemma NameBytes()
    ensures |CONTENT_LENGTH| == 16 && Text(CONTENT_LENGTH) == "content-length: "
  {
  }

  lemma MatchesName(s: Bytes)
    ensures MatchesHere(s, CONTENT_LENGTH) <==> LengthNameAt(s, 0)
  {
    NameBytes();
    var name := "content-length: ";
    assert forall i | 0 <= i < 16 :: CONTENT_LENGTH[i] as char == name[i] && CONTENT_LENGTH[i] == name[i] as int;
    assert forall i | 0 <= i < 16 :: !('A' <= name[i] <= 'Z');
    if |s| >= 16 {
      forall i | 0 <= i < 16
        ensures Lower(s[i]) == CONTENT_LENGTH[i] <==>
                s[i] as char == name[i] || ('a' <= name[i] <= 'z' && s[i] as int == name[i] as int - 32)
      {
      }
      assert forall i | 0 <= i < 16 :: s[0..16][i] == s[i];
    }
  }
  lemma {:induction false} FindName(front: Bytes, tail: Bytes)
    requires NoZeros(front) && LengthNameAt(front + tail, |front|)
    requires forall k | 0 <= k < |front| :: !LengthNameAt(front + tail, k)
    ensures Find(front + tail, CONTENT_LENGTH) == Some(|front|)
  {
    var s := front + tail;
    MatchesName(s);
    if front != [] {
      assert s[1..] == front[1..] + tail;
      forall k | 0 <= k < |s|
        ensures LengthNameAt(s[1..], k) <==> LengthNameAt(s, k + 1)
      {
        assert k + 17 <= |s| ==> s[1..][k..k + 16] == s[k + 1..k + 17];
      }
      FindName(front[1..], tail);
    }
  }

  predicate DecimalDigits(d: Bytes) {
    forall i | 0 <= i < |d| :: '0' as int <= d[i] <= '9' as int
  }

  lemma {:induction false} FindLineEnd(d: Bytes, rest: Bytes)
    requires DecimalDigits(d)
    ensures Find(d + ([CR, LF] + rest), [CR, LF]) == Some(|d|)
  {
    var s := d + ([CR, LF] + rest);
    if d == [] {
      assert s[0] == CR && s[1] == LF;
      assert MatchesHere(s, [CR, LF]);
    } else {
      assert s[1..] == d[1..] + ([CR, LF] + rest);
      assert Lower(s[0]) != [CR, LF][0];
      FindLineEnd(d[1..], rest);
    }
  }

  lemma {:induction false} DigitsAreValue(d: Bytes, v: nat)
    requires DecimalDigits(d)
    ensures Numerals.Digits(Text(d))
    ensures Digits(d, v) == v * Numerals.Power10(|d|) + Numerals.Value(Text(d))
  {
    if d != [] {
      hide Numerals.Power10;
      var x: nat := d[0] as int - 48;
      assert Text(d)[1..] == Text(d[1..]) && Text(d)[0] == d[0] as char;
      DigitsAreValue(d[1..], v * 10 + x);
      assert Numerals.Value(Text(d)) == x * Numerals.Power10(|d| - 1) + Numerals.Value(Text(d[1..]));
      OnePlaceMore(v, x, |d|);
    }
  }

  lemma OnePlaceMore(v: nat, x: nat, n: nat)
    requires n > 0
    ensures (v * 10 + x) * Numerals.Power10(n - 1) == v * Numerals.Power10(n) + x * Numerals.Power10(n - 1)
  {
    var p := Numerals.Power10(n - 1);
    assert (v * 10 + x) * p == v * (10 * p) + x * p;
  }

  /** The announced length is the decimal number behind the first `Content-Length: `, in any case of
      letters, up to the end of its line. With 50 or more digits the copy of it overruns its buffer. */
  lemma LengthMeans(front: Bytes, name: Bytes, d: Bytes, rest: Bytes)
    requires IsLengthName(name) && d != [] && DecimalDigits(d) && NoZeros(front)
    requires forall k | 0 <= k < |front| :: !LengthNameAt(front + (name + (d + ([13, 10] + rest))), k)
    ensures Numerals.Digits(Text(d))
    ensures ContentLength(front + (name + (d + ([13, 10] + rest)))) ==
            if |d| < 50 then Some(Numerals.Value(Text(d))) else None
  {
    hide Find, Digits;
    var value := d + ([CR, LF] + rest);
    var buf := front + (name + value);
    NameBytes();
    assert buf[|front|..|front| + 16] == name;
    FindName(front, name + value);
    assert buf[|front| + 16..] == value;
    FindLineEnd(d, rest);
    assert value[..|d|] == d;
    DigitsAreValue(d, 0);
  }

  /** Spaces in front are skipped, a plus sign makes no difference, and a minus sign makes a length that
      no buffer can be allocated for, unless it is zero. */
  lemma SignedLengths(d: Bytes)
    requires d != [] && DecimalDigits(d)
    ensures Numerals.Digits(Text(d))
    ensures var value := Numerals.Value(Text(d));
            && Atoi(d) == Atoi([32] + d) == Atoi([43] + d) == Some(value)
            && Atoi([45] + d) == if value == 0 then Some(0) else None
  {
    DigitsAreValue(d, 0);
    assert ([32] + d)[1..] == d && ([43] + d)[1..] == d && ([45] + d)[1..] == d;
  }

  lemma {:induction false} FindPrefix(s: Bytes, t: Bytes, pat: Bytes)
    requires Find(s, pat).Some?
    ensures Find(s + t, pat) == Find(s, pat)
  {
    if !MatchesHere(s, pat) {
      assert forall i | 0 <= i < |pat| :: (s + t)[i] == s[i];
      assert (s + t)[1..] == s[1..] + t;
      FindPrefix(s[1..], t, pat);
    }
  }

  lemma ContentLengthPrefix(s: Bytes, t: Bytes)
    requires ContentLength(s).Some?
    ensures ContentLength(s + t) == ContentLength(s)
  {
    FindPrefix(s, t, CONTENT_LENGTH);
    var k := Find(s, CONTENT_LENGTH).value;
    var value := s[k + |CONTENT_LENGTH|..];
    assert (s + t)[k + |CONTENT_LENGTH|..] == value + t;
    FindPrefix(value, t, [CR, LF]);
    var e := Find(value, [CR, LF]).value;
    assert (value + t)[..e] == value[..e];
  }

  // ---- The receiving side of a connection ----

  datatype Header = NeedMore | Parsed(contentLength: nat)
  datatype Message = Message(header: Bytes, body: Bytes)

  /** The receive buffer with its fill, the current response, and what the handlers have
      been given. */
  datatype Conn = Conn(
    buf: Bytes, offset: int, request: Option<Header>, toSend: nat,
    response: Bytes, body: Bytes, handled: seq<Message>)
  {
    predicate Valid() {
      && |buf| == BUFFER_SIZE && offset <= BUFFER_SIZE
      && (request.None? ==> toSend == 0)
      && (request.Some? && request.value.Parsed? ==> |body| + toSend == request.value.contentLength)
      && (request.Some? && request.value.NeedMore? ==> toSend == 0)
    }
  }

  /** Moves the unread bytes to the front; what was there stays behind them. */
  function Shift(buf: Bytes, n: nat, offset: nat): (r: Bytes)
    requires n <= offset <= |buf|
    ensures |r| == |buf| && r[..offset - n] == buf[n..offset]
  {
    buf[n..offset] + buf[offset - n..]
  }

  function Received(s: Conn, chunk: Bytes): (r: Conn)
    requires s.Valid() && 0 <= s.offset && s.offset + |chunk| <= BUFFER_SIZE
    ensures r.Valid()
  {
    s.(buf := s.buf[..s.offset] + chunk + s.buf[s.offset + |chunk|..], offset := s.offset + |chunk|)
  }

  /** Stores as much of the buffer as the current body still wants. */
  function Store(s: Conn): (r: Conn)
    requires s.Valid() && s.offset > 0 && s.toSend > 0
    ensures r.Valid() && 0 <= r.offset < s.offset
  {
    var n := if s.toSend > s.offset then s.offset else s.toSend;
    s.(body := s.body + s.buf[..n], toSend := s.toSend - n, offset := s.offset - n, buf := Shift(s.buf, n, s.offset))
  }

  /** Gives the finished response to its handler. */
  function Deliver(s: Conn): (r: Conn)
    requires s.Valid() && s.toSend == 0
    ensures r.Valid() && r.offset == s.offset
  {
    s.(handled := s.handled + [Message(UntilZero(s.response), s.body)], request := None, body := [])
  }

  /** Parses the next header in the first recvlen bytes of the buffer, of which only the
      first `offset` are new. None stands for a missing length or an overrun copy. */
  function ParseNext(s: Conn, recvlen: nat): (r: Option<Conn>)
    requires s.Valid() && s.offset > 0 && 0 < recvlen <= BUFFER_SIZE && s.toSend == 0
    ensures r.Some? ==> r.value.Valid()
    ensures r.Some? && r.value.request != Some(NeedMore) ==> r.value.offset < s.offset
  {
    match Position(s.buf[..recvlen])
    case None => Some(s.(request := Some(NeedMore)))
    case Some(p) =>
      assert State(s.buf[..recvlen], 0) == 0;
      match ContentLength(s.buf)
      case None => None
      case Some(length) =>
        if p >= BUFFER_SIZE then None
        else Some(s.(request := Some(Parsed(length)), toSend := length, body := [], response := s.buf[..p],
                     offset := s.offset - p, buf := if p < s.offset then Shift(s.buf, p, s.offset) else s.buf))
  }

  /** One turn up to the parse: store, then deliver. */
  function StoreAndDeliver(s: Conn): (r: Conn)
    requires s.Valid() && s.offset > 0 && s.request != Some(NeedMore)
    ensures r.Valid() && 0 <= r.offset <= s.offset && (r.offset > 0 ==> r.toSend == 0)
  {
    var s1 := if s.toSend > 0 then Store(s) else s;
    if s1.request.Some? && s1.toSend == 0 then Deliver(s1) else s1
  }

  /** The loop of the server handler. */
  function Drain(s: Conn, recvlen: nat): (r: Option<Conn>)
    requires s.Valid() && 0 < recvlen <= BUFFER_SIZE
    ensures r.Some? ==> r.value.Valid()
    decreases if s.offset > 0 then s.offset else 0
  {
    if s.offset <= 0 || s.request == Some(NeedMore) then Some(s) else
    var s1 := StoreAndDeliver(s);
    if s1.offset <= 0 then Some(s1) else
    match ParseNext(s1, recvlen)
    case None => None
    case Some(s2) => if s2.request == Some(NeedMore) then Some(s2) else Drain(s2, recvlen)
  }

  /** What the connection makes of a series of receives. */
  function Run(s: Conn, chunks: seq<Bytes>): (r: Option<Conn>)
    requires s.Valid()
    ensures r.Some? ==> r.value.Valid()
    decreases |chunks|
  {
    if chunks == [] then Some(s)
    else match Run(s, chunks[..|chunks| - 1])
         case None => None
         case Some(t) =>
           var chunk := chunks[|chunks| - 1];
           if chunk == [] || t.offset < 0 || t.offset + |chunk| > BUFFER_SIZE then None
           else Drain(Received(t, chunk), |chunk|)
  }

  // ---- The server's stream ----

  /** A response whose header ends where the scanner stops and announces its body. */
  ghost predicate Sound(m: Message) {
    && StopsAt(m.header, |m.header|) && NoZeros(m.header) && |m.header| < BUFFER_SIZE
    && ContentLength(m.header) == Some(|m.body|)
  }

  ghost predicate AllSound(rs: seq<Message>) {
    forall m | m in rs :: Sound(m)
  }

  function Stream(rs: seq<Message>): Bytes {
    if rs == [] then [] else rs[0].header + rs[0].body + Stream(rs[1..])
  }

  /** Cutting the stream behind n bytes cuts no header in two. */
  predicate Whole(rs: seq<Message>, n: int)
    decreases |rs|
  {
    n <= 0 ||
    (rs != [] && n >= |rs[0].header| &&
     (n <= |rs[0].header| + |rs[0].body| || Whole(rs[1..], n - |rs[0].header| - |rs[0].body|)))
  }

  // ---- The state in the middle of a stream ----

  /** done has been handled, rest has not, and todo is the stream from the first byte in the
      buffer on. */
  ghost predicate Ready(s: Conn, done: seq<Message>, rest: seq<Message>, todo: Bytes) {
    && s.Valid() && s.handled == done && 0 <= s.offset <= |todo| && s.buf[..s.offset] == todo[..s.offset]
    && match s.request
       case None => todo == Stream(rest)
       case Some(NeedMore) => false
       case Some(Parsed(length)) =>
         && rest != [] && length == |rest[0].body| && UntilZero(s.response) == rest[0].header
         && s.body + todo == rest[0].body + Stream(rest[1..]) && (s.toSend > 0 || length == 0)
  }

  /** The buffer ends outside every header. */
  predicate Unbroken(s: Conn, rest: seq<Message>) {
    match s.request
    case Some(Parsed(_)) => rest != [] && Whole(rest[1..], s.offset - s.toSend)
    case _ => Whole(rest, s.offset)
  }

  lemma StoreReady(s: Conn, done: seq<Message>, rest: seq<Message>, todo: Bytes)
    requires Ready(s, done, rest, todo) && s.offset > 0 && s.toSend > 0
    ensures var r := Store(s);
            var todo' := todo[s.offset - r.offset..];
            && r.Valid() && r.handled == done && r.request == s.request && r.response == s.response
            && r.offset <= |todo'| && r.buf[..r.offset] == todo'[..r.offset]
            && r.body + todo' == s.body + todo
            && r.offset - r.toSend == s.offset - s.toSend && (r.offset > 0 ==> r.toSend == 0)
  {
    var n := if s.toSend > s.offset then s.offset else s.toSend;
    assert s.buf[..n] == todo[..n];
    assert todo == todo[..n] + todo[n..];
    Associative(s.body, todo[..n], todo[n..]);
    assert s.buf[n..s.offset] == todo[n..s.offset] == todo[n..][..s.offset - n];
  }

  lemma DeliverReady(s: Conn, done: seq<Message>, rest: seq<Message>, todo: Bytes)
    requires s.Valid() && s.handled == done && 0 <= s.offset <= |todo| && s.buf[..s.offset] == todo[..s.offset]
    requires s.request.Some? && s.request.value.Parsed? && s.toSend == 0
    requires rest != [] && s.request.value.contentLength == |rest[0].body|
    requires UntilZero(s.response) == rest[0].header && s.body + todo == rest[0].body + Stream(rest[1..])
    ensures Ready(Deliver(s), done + [rest[0]], rest[1..], todo)
  {
    assert s.body == (s.body + todo)[..|s.body|] == rest[0].body;
    DropFirst(s.body, todo);
    DropFirst(rest[0].body, Stream(rest[1..]));
  }

  /** After storing and delivering, what is left in the buffer belongs to the next response. */
  lemma StoreAndDeliverReady(s: Conn, done: seq<Message>, rest: seq<Message>, todo: Bytes)
    returns (done': seq<Message>, rest': seq<Message>, todo': Bytes)
    requires Ready(s, done, rest, todo) && s.offset > 0
    ensures var r := StoreAndDeliver(s);
            && todo' == todo[s.offset - r.offset..] && done' + rest' == done + rest
            && (rest' == rest || (rest != [] && rest' == rest[1..]))
            && Ready(r, done', rest', todo')
            && (r.offset > 0 ==> r.request.None?)
            && (Unbroken(s, rest) <==> r.offset == 0 || Whole(rest', r.offset))
  {
    hide Stream, UntilZero, Shift;
    done', rest', todo' := done, rest, todo;
    var s1 := s;
    if s.toSend > 0 {
      StoreReady(s, done, rest, todo);
      s1 := Store(s);
      todo' := todo[s.offset - s1.offset..];
    }
    if s1.request.Some? && s1.toSend == 0 {
      DeliverReady(s1, done, rest, todo');
      done', rest' := done + [rest[0]], rest[1..];
      assert rest == [rest[0]] + rest[1..];
    }
  }

  lemma StreamParts(rs: seq<Message>)
    requires rs != []
    ensures Stream(rs) == rs[0].header + (rs[0].body + Stream(rs[1..]))
  {
    var h, b, t := rs[0].header, rs[0].body, Stream(rs[1..]);
    assert h + b + t == h + (b + t);
  }

  /** A buffer that starts with a sound header is parsed by that header alone. */
  lemma HeaderInBuffer(buf: Bytes, recvlen: nat, m: Message)
    requires Sound(m) && |m.header| <= recvlen <= |buf| && buf[..|m.header|] == m.header
    ensures Position(buf[..recvlen]) == Some(|m.header|) && ContentLength(buf) == Some(|m.body|)
    ensures UntilZero(m.header) == m.header
  {
    var h := m.header;
    hide State, ContentLength, StopsAt, NoZeros, Position;
    assert buf[..recvlen] == h + buf[|h|..recvlen] && buf == h + buf[|h|..];
    PositionPrefix(h, buf[|h|..recvlen]);
    ContentLengthPrefix(h, buf[|h|..]);
    UntilZeroKeeps(h);
  }

  lemma SliceOfPrefix(buf: Bytes, todo: Bytes, p: nat, offset: nat)
    requires p <= offset <= |buf| && offset <= |todo| && buf[..offset] == todo[..offset]
    ensures buf[..p] == todo[..p] && buf[p..offset] == todo[p..][..offset - p]
  {
    assert buf[..p] == buf[..offset][..p] && todo[..p] == todo[..offset][..p];
    assert buf[p..offset] == buf[..offset][p..] && todo[p..][..offset - p] == todo[..offset][p..];
  }

  /** What the parse of a whole header leaves. */
  lemma ParseWhole(s: Conn, m: Message, recvlen: nat)
    requires s.Valid() && s.toSend == 0 && 0 < s.offset <= recvlen <= BUFFER_SIZE
    requires Sound(m) && |m.header| <= s.offset && s.buf[..|m.header|] == m.header
    ensures var r := ParseNext(s, recvlen);
            && r.Some? && r.value.handled == s.handled && r.value.request == Some(Parsed(|m.body|))
            && r.value.toSend == |m.body| && r.value.body == [] && UntilZero(r.value.response) == m.header
            && r.value.offset == s.offset - |m.header|
            && r.value.buf[..r.value.offset] == s.buf[|m.header|..s.offset]
  {
    SoundIsShort(m);
    HeaderInBuffer(s.buf, recvlen, m);
    hide Position, ContentLength, UntilZero, Sound;
    assert s.offset == |m.header| ==> s.buf[|m.header|..s.offset] == [];
  }

  /** A buffer that starts with a whole header parses to it. */
  lemma ParseReady(s: Conn, done: seq<Message>, rest: seq<Message>, todo: Bytes, recvlen: nat)
    requires Ready(s, done, rest, todo) && s.request.None? && s.offset > 0
    requires rest != [] && |rest[0].header| <= s.offset
    requires AllSound(rest) && s.offset <= recvlen <= BUFFER_SIZE
    ensures var r := ParseNext(s, recvlen);
            && r.Some? && r.value.request == Some(Parsed(|rest[0].body|))
            && r.value.offset == s.offset - |rest[0].header|
            && Ready(r.value, done, rest, todo[|rest[0].header|..])
            && (Unbroken(r.value, rest) <==> Whole(rest, s.offset))
  {
    hide ParseNext, UntilZero, Stream, Sound;
    var m := rest[0];
    StreamParts(rest);
    var after := m.body + Stream(rest[1..]);
    DropFirst(m.header, after);
    SliceOfPrefix(s.buf, todo, |m.header|, s.offset);
    assert todo[..|m.header|] == m.header;
    ParseWhole(s, m, recvlen);
    assert [] + after == after;
  }

  lemma SoundIsShort(m: Message)
    requires Sound(m)
    ensures 4 <= |m.header| < BUFFER_SIZE
  {
    ScanExactly(m.header, |m.header|);
  }

  lemma DropDrop(s: Bytes, a: nat, b: nat)
    requires a + b <= |s|
    ensures s[a..][b..] == s[a + b..]
  {
  }

  /** The handler loop consumes the whole buffer. */
  lemma {:induction false} DrainReady(s: Conn, done: seq<Message>, rest: seq<Message>, todo: Bytes, recvlen: nat)
    returns (done': seq<Message>, rest': seq<Message>)
    requires Ready(s, done, rest, todo) && Unbroken(s, rest) && AllSound(rest)
    requires 0 < recvlen <= BUFFER_SIZE && s.offset <= recvlen
    ensures var r := Drain(s, recvlen);
            && r.Some? && r.value.offset == 0 && done' + rest' == done + rest && AllSound(rest')
            && Ready(r.value, done', rest', todo[s.offset..])
    decreases s.offset
  {
    hide Ready, Unbroken, AllSound, Drain;
    ReadyIsValid(s, done, rest, todo);
    if s.offset == 0 {
      done', rest' := done, rest;
      DrainEmpty(s, recvlen);
      assert todo[0..] == todo;
    } else {
      var s2, todo2;
      done', rest', s2, todo2 := TurnReady(s, done, rest, todo, recvlen);
      DropDrop(todo, s.offset - s2.offset, s2.offset);
      done', rest' := DrainReady(s2, done', rest', todo2, recvlen);
    }
  }

  lemma DrainEmpty(s: Conn, recvlen: nat)
    requires s.Valid() && s.offset == 0 && 0 < recvlen <= BUFFER_SIZE
    ensures Drain(s, recvlen) == Some(s)
  {
  }

  /** One turn of the loop. */
  lemma TurnReady(s: Conn, done: seq<Message>, rest: seq<Message>, todo: Bytes, recvlen: nat)
    returns (done': seq<Message>, rest': seq<Message>, s2: Conn, todo2: Bytes)
    requires Ready(s, done, rest, todo) && Unbroken(s, rest) && AllSound(rest) && s.offset > 0
    requires 0 < recvlen <= BUFFER_SIZE && s.offset <= recvlen
    ensures s2.Valid() && 0 <= s2.offset < s.offset && s.offset <= |todo|
    ensures Drain(s, recvlen) == Drain(s2, recvlen)
    ensures done' + rest' == done + rest && AllSound(rest') && todo2 == todo[s.offset - s2.offset..]
    ensures Ready(s2, done', rest', todo2) && Unbroken(s2, rest')
  {
    hide Ready, Unbroken, Sound, ParseNext, StoreAndDeliver, Whole, AllSound, Stream;
    ReadyIsValid(s, done, rest, todo);
    var todo1;
    done', rest', todo1 := StoreAndDeliverReady(s, done, rest, todo);
    SoundSuffix(rest, rest');
    var s1 := StoreAndDeliver(s);
    ReadyIsValid(s1, done', rest', todo1);
    if s1.offset == 0 {
      s2, todo2 := s1, todo1;
      EmptyIsUnbroken(s2, done', rest', todo2);
    } else {
      WholeIsSome(rest', s1.offset);
      ParseReady(s1, done', rest', todo1, recvlen);
      s2 := ParseNext(s1, recvlen).value;
      todo2 := todo1[|rest'[0].header|..];
      DropDrop(todo, s.offset - s1.offset, |rest'[0].header|);
    }
  }

  lemma ReadyIsValid(s: Conn, done: seq<Message>, rest: seq<Message>, todo: Bytes)
    requires Ready(s, done, rest, todo)
    ensures s.Valid() && 0 <= s.offset <= |todo| && s.request != Some(NeedMore) && s.handled == done
    ensures s.request.None? ==> s.toSend == 0
  {
  }

  lemma SoundSuffix(rest: seq<Message>, rest': seq<Message>)
    requires AllSound(rest) && (rest' == rest || (rest != [] && rest' == rest[1..]))
    ensures AllSound(rest')
  {
  }

  lemma EmptyIsUnbroken(s: Conn, done: seq<Message>, rest: seq<Message>, todo: Bytes)
    requires Ready(s, done, rest, todo) && s.offset == 0
    ensures Unbroken(s, rest)
  {
  }

  lemma WholeIsSome(rest: seq<Message>, n: int)
    requires Whole(rest, n) && n > 0 && AllSound(rest)
    ensures rest != [] && 0 < |rest[0].header| <= n
  {
    SoundIsShort(rest[0]);
  }

  // ---- Whole runs ----

  lemma {:induction false} StreamLength(done: seq<Message>, rest: seq<Message>)
    ensures |Stream(done + rest)| == |Stream(done)| + |Stream(rest)|
  {
    if done == [] {
      assert done + rest == rest;
    } else {
      assert (done + rest)[1..] == done[1..] + rest;
      StreamLength(done[1..], rest);
    }
  }

  /** A cut is whole for the stream exactly when it is whole for what follows the handled responses. */
  lemma {:induction false} WholeSkips(done: seq<Message>, rest: seq<Message>, m: int)
    requires m > 0
    ensures Whole(done + rest, |Stream(done)| + m) <==> Whole(rest, m)
  {
    if done == [] {
      assert done + rest == rest;
    } else {
      assert (done + rest)[1..] == done[1..] + rest && (done + rest)[0] == done[0];
      WholeSkips(done[1..], rest, m);
    }
  }

  lemma ReceivedBytes(s: Conn, chunk: Bytes, future: Bytes)
    requires s.Valid() && s.offset == 0 && |chunk| <= BUFFER_SIZE
    ensures var r := Received(s, chunk);
            && r.offset == |chunk| && r.buf[..|chunk|] == (chunk + future)[..|chunk|]
            && r.request == s.request && r.toSend == s.toSend && r.response == s.response
            && r.body == s.body && r.handled == s.handled
  {
    assert (chunk + future)[..|chunk|] == chunk == Received(s, chunk).buf[..|chunk|];
  }

  /** When a cut behind n more bytes is whole, seen from the state. */
  lemma CutIsUnbroken(s: Conn, done: seq<Message>, rest: seq<Message>, todo: Bytes, n: nat)
    requires Ready(s, done, rest, todo) && 0 < n <= |todo|
    ensures Whole(done + rest, |Stream(done + rest)| - |todo| + n) <==>
            if s.request.None? then Whole(rest, n) else rest != [] && Whole(rest[1..], n - s.toSend)
  {
    StreamLength(done, rest);
    if s.request.None? {
      WholeSkips(done, rest, n);
    } else {
      var m := rest[0];
      assert |s.body + todo| == |m.body + Stream(rest[1..])|;
      WholeSkips(done, rest, |m.header| + |s.body| + n);
    }
  }

  /** Receiving the next bytes of the stream. */
  lemma ReceivedReady(s: Conn, done: seq<Message>, rest: seq<Message>, chunk: Bytes, future: Bytes)
    requires Ready(s, done, rest, chunk + future) && s.offset == 0 && 0 < |chunk| <= BUFFER_SIZE
    ensures var r := Received(s, chunk);
            && Ready(r, done, rest, chunk + future) && r.offset == |chunk|
            && (Unbroken(r, rest) <==> Whole(done + rest, |Stream(done + rest)| - |future|))
  {
    hide Ready, Stream, Whole, Received;
    ReadyIsValid(s, done, rest, chunk + future);
    CutIsUnbroken(s, done, rest, chunk + future, |chunk|);
    ReceivedBytes(s, chunk, future);
    StaysReady(s, Received(s, chunk), done, rest, chunk + future);
  }

  lemma StaysReady(s: Conn, r: Conn, done: seq<Message>, rest: seq<Message>, todo: Bytes)
    requires Ready(s, done, rest, todo) && r.Valid()
    requires 0 <= r.offset <= |todo| && r.buf[..r.offset] == todo[..r.offset]
    requires r.request == s.request && r.toSend == s.toSend && r.response == s.response
    requires r.body == s.body && r.handled == s.handled
    ensures Ready(r, done, rest, todo)
  {
  }

  /** A fresh connection; the buffer holds anything. */
  function Fresh(buf: Bytes): Conn
    requires |buf| == BUFFER_SIZE
  {
    Conn(buf, 0, None, 0, [], [], [])
  }

  /** No piece ends inside a header. */
  ghost predicate CutsNoHeader(rs: seq<Message>, chunks: seq<Bytes>) {
    forall j | 0 <= j <= |chunks| :: Whole(rs, |Flatten(chunks[..j])|)
  }

  /** Every piece fits the buffer, and no piece ends inside a header. */
  ghost predicate GoodPieces(rs: seq<Message>, chunks: seq<Bytes>) {
    (forall i | 0 <= i < |chunks| :: 0 < |chunks[i]| <= 8192) && CutsNoHeader(rs, chunks)
  }

  lemma {:induction false} RunReady(buf: Bytes, rs: seq<Message>, chunks: seq<Bytes>, future: Bytes)
    returns (s: Conn, done: seq<Message>, rest: seq<Message>)
    requires |buf| == BUFFER_SIZE && AllSound(rs)
    requires Flatten(chunks) + future == Stream(rs) && GoodPieces(rs, chunks)
    ensures Run(Fresh(buf), chunks) == Some(s) && s.offset == 0
    ensures done + rest == rs && AllSound(rest) && Ready(s, done, rest, future)
    decreases |chunks|
  {
    hide Ready, Whole, Stream, Drain, AllSound, Received, GoodPieces;
    if chunks == [] {
      s, done, rest := Fresh(buf), [], rs;
      FreshIsReady(buf, rs, future);
    } else {
      var p, c := chunks[..|chunks| - 1], chunks[|chunks| - 1];
      Associative(Flatten(p), c, future);
      PiecesPrefix(rs, chunks);
      s, done, rest := RunReady(buf, rs, p, c + future);
      assert |Flatten(chunks)| == |Stream(rs)| - |future|;
      ReadyIsValid(s, done, rest, c + future);
      s, done, rest := RunStep(s, done, rest, c, future);
    }
  }

  lemma FreshIsReady(buf: Bytes, rs: seq<Message>, future: Bytes)
    requires |buf| == BUFFER_SIZE && [] + future == Stream(rs)
    ensures Ready(Fresh(buf), [], rs, future)
  {
    assert [] + future == future;
  }

  lemma RunStep(s: Conn, done: seq<Message>, rest: seq<Message>, c: Bytes, future: Bytes)
    returns (s': Conn, done': seq<Message>, rest': seq<Message>)
    requires Ready(s, done, rest, c + future) && s.offset == 0 && 0 < |c| <= BUFFER_SIZE && AllSound(rest)
    requires Whole(done + rest, |Stream(done + rest)| - |future|)
    ensures s.Valid() && Drain(Received(s, c), |c|) == Some(s') && s'.offset == 0
    ensures done' + rest' == done + rest && AllSound(rest') && Ready(s', done', rest', future)
  {
    hide Ready, Unbroken, Whole, Stream, Drain, AllSound, Received;
    ReadyIsValid(s, done, rest, c + future);
    ReceivedReady(s, done, rest, c, future);
    var r := Received(s, c);
    done', rest' := DrainReady(r, done, rest, c + future, |c|);
    DropFirst(c, future);
    s' := Drain(r, |c|).value;
  }

  lemma PiecesPrefix(rs: seq<Message>, chunks: seq<Bytes>)
    requires GoodPieces(rs, chunks) && chunks != []
    ensures GoodPieces(rs, chunks[..|chunks| - 1]) && Whole(rs, |Flatten(chunks)|)
    ensures 0 < |chunks[|chunks| - 1]| <= BUFFER_SIZE
  {
    var p := chunks[..|chunks| - 1];
    assert chunks[..|chunks|] == chunks;
    forall j | 0 <= j <= |p| ensures Whole(rs, |Flatten(p[..j])|) {
      assert p[..j] == chunks[..j];
    }
  }

  /** A response that ends a run of the loop with nothing left and no request open had a body: one
      without a body is only handed over when further bytes follow it. */
  lemma {:induction false} LastHandledHasBody(s: Conn, recvlen: nat)
    requires s.Valid() && s.offset > 0 && 0 < recvlen <= BUFFER_SIZE
    ensures var r := Drain(s, recvlen);
            r.Some? && r.value.offset == 0 && r.value.request.None? ==>
              r.value.handled != [] && r.value.handled[|r.value.handled| - 1].body != []
    decreases s.offset
  {
    hide Store, Shift, Position, ContentLength;
    if s.request != Some(NeedMore) {
      var s1 := StoreAndDeliver(s);
      if s1.offset <= 0 {
        StoredSomething(s);
      } else {
        var s2 := ParseNext(s1, recvlen);
        if s2.Some? && s2.value.request != Some(NeedMore) && s2.value.offset > 0 {
          LastHandledHasBody(s2.value, recvlen);
        }
      }
    }
  }

  lemma StoredSomething(s: Conn)
    requires s.Valid() && s.offset > 0 && s.request != Some(NeedMore) && StoreAndDeliver(s).offset == 0
    ensures var r := StoreAndDeliver(s);
            r.request.None? ==> r.handled != [] && r.handled[|r.handled| - 1].body != []
  {
  }

  lemma {:induction false} RunLastHasBody(buf: Bytes, chunks: seq<Bytes>)
    requires |buf| == BUFFER_SIZE
    ensures var s := Run(Fresh(buf), chunks);
            s.Some? && s.value.offset == 0 && s.value.request.None? && s.value.handled != [] ==>
              s.value.handled[|s.value.handled| - 1].body != []
    decreases |chunks|
  {
    hide Drain;
    if chunks != [] {
      var t, chunk := Run(Fresh(buf), chunks[..|chunks| - 1]), chunks[|chunks| - 1];
      if t.Some? && chunk != [] && t.value.offset >= 0 && t.value.offset + |chunk| <= BUFFER_SIZE {
        LastHandledHasBody(Received(t.value, chunk), |chunk|);
      }
    }
  }

  /** At any point of a run the handlers have been given exactly the first responses of the stream, each
      once and in order: every byte received belongs to one of them, or to the header and the stored part
      of the one that is open, and what is stored and what is still wanted add up to its length. */
  lemma HandledInOrder(buf: Bytes, rs: seq<Message>, chunks: seq<Bytes>, future: Bytes)
    requires |buf| == BUFFER_SIZE && AllSound(rs)
    requires Flatten(chunks) + future == Stream(rs) && GoodPieces(rs, chunks)
    ensures var s := Run(Fresh(buf), chunks);
            && s.Some? && s.value.handled <= rs && s.value.offset == 0 && s.value.request != Some(NeedMore)
            && (s.value.request.None? ==> |Flatten(chunks)| == |Stream(s.value.handled)|)
            && (s.value.request.Some? ==>
                  && |s.value.handled| < |rs|
                  && var open := rs[|s.value.handled|];
                     && s.value.toSend + |s.value.body| == |open.body|
                     && s.value.body == open.body[..|s.value.body|]
                     && |Flatten(chunks)| == |Stream(s.value.handled)| + |open.header| + |s.value.body|)
  {
    var s, done, rest := RunReady(buf, rs, chunks, future);
    assert rs[..|done|] == done && rs[|done|..] == rest;
    assert rest != [] ==> rs[|done|] == rest[0];
    StreamLength(done, rest);
    assert |Flatten(chunks)| + |future| == |Stream(rs)|;
    if s.request.Some? {
      var all := rest[0].body + Stream(rest[1..]);
      assert s.body == (s.body + future)[..|s.body|] == all[..|s.body|];
      assert all[..|s.body|] == rest[0].body[..|s.body|];
    }
  }

  /** When the whole stream has arrived every response has been handled exactly when the last one has a
      body; without one it waits for further bytes. */
  lemma EverythingHandled(buf: Bytes, rs: seq<Message>, chunks: seq<Bytes>)
    requires |buf| == BUFFER_SIZE && AllSound(rs)
    requires Flatten(chunks) == Stream(rs) && GoodPieces(rs, chunks)
    ensures var s := Run(Fresh(buf), chunks);
            && s.Some?
            && (s.value.handled == rs <==> rs == [] || rs[|rs| - 1].body != [])
            && (s.value.handled == rs || (rs != [] && s.value.handled == rs[..|rs| - 1]))
  {
    assert Flatten(chunks) + [] == Flatten(chunks);
    var s, done, rest := RunReady(buf, rs, chunks, []);
    hide Ready, AllSound, Run, Fresh, Stream, GoodPieces, Flatten;
    RunLastHasBody(buf, chunks);
    ReadyIsValid(s, done, rest, []);
    NothingFollows(s, done, rest);
    AllButLast(done, rest);
  }

  lemma AllButLast(done: seq<Message>, rest: seq<Message>)
    requires rest == [] || (|rest| == 1 && rest[0].body == [])
    requires rest == [] && done != [] ==> done[|done| - 1].body != []
    ensures var rs := done + rest;
            && (done == rs <==> rs == [] || rs[|rs| - 1].body != [])
            && (done == rs || (rs != [] && done == rs[..|rs| - 1]))
  {
  }

  lemma NothingFollows(s: Conn, done: seq<Message>, rest: seq<Message>)
    requires Ready(s, done, rest, []) && AllSound(rest)
    ensures s.request.None? <==> rest == []
    ensures rest != [] ==> |rest| == 1 && rest[0].body == []
  {
    if rest != [] {
      StreamParts(rest);
      SoundIsShort(rest[0]);
      if s.request.Some? {
        assert s.body + [] == s.body;
        assert |rest[0].body| + |Stream(rest[1..])| == |s.body|;
        if rest[1..] != [] {
          StreamParts(rest[1..]);
          SoundIsShort(rest[1..][0]);
        }
      }
    }
  }

  // ---- Pieces that cut a header ----

  /** Undefined, waiting for more of a header, or about to write in front of the buffer. */
  predicate Broken(s: Option<Conn>) {
    s.None? || s.value.request == Some(NeedMore) || s.value.offset < 0
  }

  predicate BrokenWith(s: Option<Conn>, handled: seq<Message>) {
    Broken(s) && (s.Some? ==> s.value.handled == handled)
  }

  lemma {:induction false} StopFromStops(s: Bytes, i: nat)
    requires i <= |s|
    ensures StopFrom(s, i).Some? ==> State(s, StopFrom(s, i).value) == 4
    decreases |s| - i
  {
    if State(s, i) != 4 && i < |s| {
      StopFromStops(s, i + 1);
    }
  }

  /** In a buffer whose first n bytes are the beginning of a header, the scan can only stop in the stale
      bytes behind them. */
  lemma StopsBehind(buf: Bytes, h: Bytes, n: nat)
    requires n < |h| && n <= |buf| && buf[..n] == h[..n] && StopsAt(h, |h|)
    ensures Position(buf).Some? ==> Position(buf).value > n
  {
    StopFromStops(buf, 0);
    forall p | 0 <= p <= n ensures State(buf, p) != 4 {
      assert buf == buf[..n] + buf[n..] && h == h[..n] + h[n..];
      StatePrefix(buf[..n], buf[n..], p);
      StatePrefix(h[..n], h[n..], p);
    }
  }

  lemma ParseCut(s: Conn, m: Message, recvlen: nat)
    requires s.Valid() && s.toSend == 0 && 0 < s.offset <= recvlen <= BUFFER_SIZE
    requires Sound(m) && s.offset < |m.header| && s.buf[..s.offset] == m.header[..s.offset]
    ensures Broken(ParseNext(s, recvlen))
    ensures ParseNext(s, recvlen).Some? ==> ParseNext(s, recvlen).value.handled == s.handled
  {
    assert s.buf[..recvlen][..s.offset] == s.buf[..s.offset];
    StopsBehind(s.buf[..recvlen], m.header, s.offset);
    hide Position, ContentLength, StopsAt;
  }

  /** One turn of the loop over a buffer that ends inside a header: either this turn meets that header, or
      it leaves less of the same. */
  lemma TurnCut(s: Conn, done: seq<Message>, rest: seq<Message>, todo: Bytes, recvlen: nat)
    returns (done': seq<Message>, rest': seq<Message>, s2: Conn, todo2: Bytes)
    requires Ready(s, done, rest, todo) && !Unbroken(s, rest) && AllSound(rest) && s.offset > 0
    requires 0 < recvlen <= BUFFER_SIZE && s.offset <= recvlen
    ensures done' + rest' == done + rest && AllSound(rest')
    ensures BrokenWith(Drain(s, recvlen), done') ||
            (s2.Valid() && s2.offset < s.offset && Drain(s, recvlen) == Drain(s2, recvlen)
             && Ready(s2, done', rest', todo2) && !Unbroken(s2, rest'))
  {
    hide Ready, Unbroken, Sound, ParseNext, StoreAndDeliver, Whole, AllSound, Stream;
    ReadyIsValid(s, done, rest, todo);
    var todo1;
    done', rest', todo1 := StoreAndDeliverReady(s, done, rest, todo);
    SoundSuffix(rest, rest');
    var s1 := StoreAndDeliver(s);
    ReadyIsValid(s1, done', rest', todo1);
    MoreFollows(s1, done', rest', todo1);
    s2, todo2 := s1, todo1;
    if s1.offset < |rest'[0].header| {
      ParseCut(s1, rest'[0], recvlen);
    } else {
      ParseReady(s1, done', rest', todo1, recvlen);
      s2 := ParseNext(s1, recvlen).value;
      todo2 := todo1[|rest'[0].header|..];
    }
  }

  lemma MoreFollows(s: Conn, done: seq<Message>, rest: seq<Message>, todo: Bytes)
    requires Ready(s, done, rest, todo) && s.request.None? && s.offset > 0 && AllSound(rest)
    ensures rest != [] && Sound(rest[0]) && |rest[0].header| > 0
    ensures s.offset < |rest[0].header| ==> s.buf[..s.offset] == rest[0].header[..s.offset]
  {
    assert todo == Stream(rest);
    StreamParts(rest);
    SoundIsShort(rest[0]);
    if s.offset < |rest[0].header| {
      assert todo[..s.offset] == rest[0].header[..s.offset];
    }
  }

  /** The handler loop over a buffer that ends inside a header hands over what is complete before it, and
      breaks the connection. */
  lemma {:induction false} DrainCut(s: Conn, done: seq<Message>, rest: seq<Message>, todo: Bytes, recvlen: nat)
    requires Ready(s, done, rest, todo) && !Unbroken(s, rest) && AllSound(rest) && s.offset > 0
    requires 0 < recvlen <= BUFFER_SIZE && s.offset <= recvlen
    ensures var r := Drain(s, recvlen);
            Broken(r) && (r.Some? ==> r.value.handled <= done + rest)
    decreases s.offset
  {
    hide Ready, Unbroken, AllSound, Drain;
    ReadyIsValid(s, done, rest, todo);
    var done', rest', s2, todo2 := TurnCut(s, done, rest, todo, recvlen);
    if !BrokenWith(Drain(s, recvlen), done') {
      BrokenIsCut(s2, done', rest', todo2);
      DrainCut(s2, done', rest', todo2, recvlen);
    }
  }

  lemma BrokenIsCut(s: Conn, done: seq<Message>, rest: seq<Message>, todo: Bytes)
    requires Ready(s, done, rest, todo) && !Unbroken(s, rest)
    ensures s.offset > 0
  {
    ReadyIsValid(s, done, rest, todo);
    if s.offset == 0 {
      EmptyIsUnbroken(s, done, rest, todo);
    }
  }

  /** A broken connection stays broken and hands over nothing any more. */
  lemma {:induction false} BrokenStays(s: Conn, chunks: seq<Bytes>, k: nat)
    requires s.Valid() && k <= |chunks| && Broken(Run(s, chunks[..k]))
    ensures var r := Run(s, chunks);
            Broken(r) && (r.Some? ==> Run(s, chunks[..k]).Some? && r.value.handled == Run(s, chunks[..k]).value.handled)
    decreases |chunks|
  {
    if k < |chunks| {
      var p := chunks[..|chunks| - 1];
      assert p[..k] == chunks[..k];
      BrokenStays(s, p, k);
    } else {
      assert chunks[..k] == chunks;
    }
  }

  lemma CutsStep(rs: seq<Message>, chunks: seq<Bytes>)
    requires chunks != []
    ensures CutsNoHeader(rs, chunks) <==>
            CutsNoHeader(rs, chunks[..|chunks| - 1]) && Whole(rs, |Flatten(chunks)|)
  {
    var p := chunks[..|chunks| - 1];
    assert chunks[..|chunks|] == chunks;
    assert forall j | 0 <= j <= |p| :: p[..j] == chunks[..j];
  }

  /** However the stream of sound responses is cut into pieces: the connection stays in order, with an
      empty buffer and no half header, exactly when no piece ends inside a header. Otherwise it is broken
      for good, and what it has handed over is still the beginning of the stream. */
  lemma {:induction false} StaysInOrderExactlyWhen(buf: Bytes, rs: seq<Message>, chunks: seq<Bytes>, future: Bytes)
    requires |buf| == BUFFER_SIZE && AllSound(rs) && Flatten(chunks) + future == Stream(rs)
    requires forall i | 0 <= i < |chunks| :: 0 < |chunks[i]| <= BUFFER_SIZE
    ensures var r := Run(Fresh(buf), chunks);
            && (CutsNoHeader(rs, chunks) <==> r.Some? && r.value.offset == 0 && r.value.request != Some(NeedMore))
            && (!CutsNoHeader(rs, chunks) ==> Broken(r) && (r.Some? ==> r.value.handled <= rs))
    decreases |chunks|
  {
    hide Ready, Whole, Stream, Drain, AllSound, Received, CutsNoHeader, Broken;
    if chunks == [] {
      NothingCut(rs);
      var s, done, rest := RunReady(buf, rs, chunks, future);
      ReadyIsValid(s, done, rest, future);
      return;
    }
    var p, c := chunks[..|chunks| - 1], chunks[|chunks| - 1];
    Associative(Flatten(p), c, future);
    CutsStep(rs, chunks);
    StaysInOrderExactlyWhen(buf, rs, p, c + future);
    if !CutsNoHeader(rs, p) {
      BrokenStays(Fresh(buf), chunks, |p|);
      BrokenIsNotInOrder(Run(Fresh(buf), chunks));
    } else {
      assert GoodPieces(rs, p);
      var s, done, rest := RunReady(buf, rs, p, c + future);
      ReadyIsValid(s, done, rest, c + future);
      ReceivedReady(s, done, rest, c, future);
      assert |Flatten(chunks)| == |Stream(rs)| - |future|;
      if Whole(rs, |Flatten(chunks)|) {
        var s', done', rest' := RunStep(s, done, rest, c, future);
        ReadyIsValid(s', done', rest', future);
      } else {
        DrainCut(Received(s, c), done, rest, c + future, |c|);
        BrokenIsNotInOrder(Run(Fresh(buf), chunks));
      }
    }
  }

  lemma BrokenIsNotInOrder(r: Option<Conn>)
    requires Broken(r)
    ensures !(r.Some? && r.value.offset == 0 && r.value.request != Some(NeedMore))
  {
  }

  lemma NothingCut(rs: seq<Message>)
    ensures CutsNoHeader(rs, []) && GoodPieces(rs, [])
  {
  }
}
