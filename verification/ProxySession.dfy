/** One browser connection of the proxy: what it asks the server for, what it hands back, and how the
    manifest, its `_nolist` form and the fragments go through it. */
module ProxySession {
  import opened Options
  import opened Reassembly
  import Bitrate
  import Throughput

  datatype Kind = Html | F4m | Chunk | Unknown

  /** A parsed request: its bytes as received, and as the proxy writes them out again. */
  datatype Request = Request(kind: Kind, raw: string, rebuilt: string)

  datatype ServerRequest = Text(text: string) | Fragment(text: string, bitrate: int)

  /** A response, with the rates its body lists if it is a manifest. */
  datatype Response = Response(message: Message, rates: seq<int>)

  datatype State = HtmlState | F4mState | F4mNoListState | ChunkState

  // ---- The saved manifest request ----

  const EXTENSION := ".f4m "
  const REPLACEMENT := "_nolist.f4m "

  predicate Begins(s: string) {
    EXTENSION <= s
  }

  /** Where the extension first stands, or the length when it does not. */
  function Place(s: string): (k: nat)
    ensures k <= |s|
    ensures k < |s| ==> Begins(s[k..])
  {
    if s == [] || Begins(s) then 0 else 1 + Place(s[1..])
  }

  function NoList(s: string): string {
    var k := Place(s);
    if k == |s| then s else s[..k] + REPLACEMENT + s[k + |EXTENSION|..]
  }

  /** `.f4m `, with its space, stands at place k. */
  predicate Stands(s: string, k: nat) {
    k + 5 <= |s| && s[k..k + 5] == ".f4m "
  }

  ghost predicate FirstStands(s: string, front: string, rest: string) {
    s == front + ".f4m " + rest && forall k: nat | k < |front| :: !Stands(s, k)
  }

  /** t is s with the first `.f4m ` replaced by `_nolist.f4m `, or s itself where there is none. */
  ghost predicate NoListOf(t: string, s: string) {
    || (exists front, rest :: FirstStands(s, front, rest) && t == front + "_nolist.f4m " + rest)
    || ((forall k: nat :: !Stands(s, k)) && t == s)
  }

  lemma {:induction false} PlaceIsFirst(s: string)
    ensures forall k: nat | k < Place(s) :: !Stands(s, k)
    ensures if Place(s) < |s| then Stands(s, Place(s)) else forall k: nat :: !Stands(s, k)
  {
    if s != [] {
      assert Begins(s) <==> Stands(s, 0) by {
        assert |s| >= 5 ==> (s[..5] == EXTENSION <==> EXTENSION <= s) && s[0..5] == s[..5];
      }
      PlaceIsFirst(s[1..]);
      forall k: nat
        ensures Stands(s, k + 1) <==> Stands(s[1..], k)
      {
        assert k + 6 <= |s| ==> s[k + 1..k + 6] == s[1..][k..k + 5];
      }
      forall k: nat | k < Place(s)
        ensures !Stands(s, k)
      {
        if k > 0 {
          assert Stands(s, k - 1 + 1) <==> Stands(s[1..], k - 1);
        }
      }
      if Place(s) == |s| {
        forall k: nat
          ensures !Stands(s, k)
        {
          if k > 0 {
            assert Stands(s, k - 1 + 1) <==> Stands(s[1..], k - 1);
          }
        }
      } else if !Begins(s) {
        assert Stands(s, Place(s[1..]) + 1) <==> Stands(s[1..], Place(s[1..]));
      }
    }
  }

  /** There is only one such text. */
  lemma NoListIsUnique(s: string, front: string, rest: string)
    requires FirstStands(s, front, rest)
    ensures NoList(s) == front + "_nolist.f4m " + rest
  {
    PlaceIsFirst(s);
    assert s[|front|..|front| + 5] == ".f4m ";
    assert Stands(s, |front|);
    assert s[..|front|] == front && s[|front| + 5..] == rest;
  }

  lemma StandsFirstAt(s: string, k: nat)
    requires Stands(s, k) && forall j: nat | j < k :: !Stands(s, j)
    ensures FirstStands(s, s[..k], s[k + 5..])
  {
    hide Stands;
    assert s[k..k + 5] == ".f4m " by { IsExtension(s, k); }
    assert s == s[..k] + s[k..k + 5] + s[k + 5..];
  }

  lemma IsExtension(s: string, k: nat)
    requires Stands(s, k)
    ensures k + 5 <= |s| && s[k..k + 5] == ".f4m "
  {
  }

  /** What the rewriting makes of a request, spelled out. */
  lemma NoListMeans(s: string)
    ensures NoListOf(NoList(s), s)
    ensures Place(s) < |s| <==> exists k: nat :: Stands(s, k)
  {
    hide NoList, Place, Stands, FirstStands;
    PlaceIsFirst(s);
    var k := Place(s);
    if k < |s| {
      IsExtension(s, k);
      StandsFirstAt(s, k);
      NoListIsUnique(s, s[..k], s[k + 5..]);
    } else {
      Unchanged(s);
    }
  }

  lemma NoListIs(t: string, s: string)
    ensures NoListOf(t, s) <==> t == NoList(s)
  {
    hide Place;
    NoListMeans(s);
    PlaceIsFirst(s);
    if front, rest :| FirstStands(s, front, rest) && t == front + "_nolist.f4m " + rest {
      NoListIsUnique(s, front, rest);
    } else if (forall k: nat :: !Stands(s, k)) && t == s {
      Unchanged(s);
    }
  }

  lemma Unchanged(s: string)
    requires Place(s) == |s|
    ensures NoList(s) == s
  {
  }

  /** Copying a request over the saved one, which keeps its end when it was longer. */
  function Overwrite(saved: string, raw: string): string {
    if |raw| < |saved| then raw + saved[|raw|..] else raw
  }

  lemma {:induction false} PlacePrefix(s: string, tail: string)
    requires Place(s) < |s|
    ensures Place(s + tail) == Place(s)
  {
    hide Begins;
    BeginsStill(s, tail);
    if !Begins(s) {
      assert s[Place(s)..] == s[1..][Place(s[1..])..];
      PlacePrefix(s[1..], tail);
      assert (s + tail)[1..] == s[1..] + tail;
    }
  }

  /** With the extension somewhere in s, what follows s does not change whether it begins here. */
  lemma BeginsStill(s: string, tail: string)
    requires Place(s) < |s|
    ensures Begins(s + tail) <==> Begins(s)
  {
    var k := Place(s);
    assert |s[k..]| >= |EXTENSION|;
    assert (s + tail)[..|EXTENSION|] == s[..|EXTENSION|];
  }

  lemma NoListPrefix(s: string, tail: string)
    requires Place(s) < |s|
    ensures NoList(s + tail) == NoList(s) + tail && |NoList(s)| == |s| + 7
  {
    hide Place;
    var k := Place(s);
    PlacePrefix(s, tail);
    assert (s + tail)[..k] == s[..k];
    assert (s + tail)[k + |EXTENSION|..] == s[k + |EXTENSION|..] + tail;
    var front, back := s[..k] + REPLACEMENT, s[k + |EXTENSION|..];
    assert front + (back + tail) == front + back + tail;
  }

  /** The request sent for a manifest without list is the asked one rewritten exactly when the one
      saved before was not longer; otherwise its remaining end follows. */
  lemma NoListExact(saved: string, raw: string)
    requires Place(raw) < |raw|
    ensures NoList(Overwrite(saved, raw)) == NoList(raw) + (if |raw| < |saved| then saved[|raw|..] else [])
    ensures NoList(Overwrite(saved, raw)) == NoList(raw) <==> |saved| <= |raw|
    ensures |NoList(raw)| == |raw| + 7
  {
    hide NoList, Place;
    NoListPrefix(raw, if |raw| < |saved| then saved[|raw|..] else []);
    assert NoList(raw) + [] == NoList(raw) && raw + [] == raw;
  }

  /** Rewriting changes a request exactly when the extension stands in it. */
  lemma RewritesExactlyWhen(s: string)
    ensures NoList(s) == s <==> Place(s) == |s|
  {
    if Place(s) < |s| {
      NoListPrefix(s, []);
    }
  }

  // ---- The two handlers ----

  datatype Session = Session(
    state: State, saved: string, rates: seq<int>, defaults: seq<int>, throughput: nat,
    toServer: seq<ServerRequest>, toBrowser: seq<Response>)

  function Initial(defaults: seq<int>, throughput: nat): Session {
    Session(HtmlState, [], [], defaults, throughput, [], [])
  }

  /** None when a fragment is asked for before any list of rates is known. */
  function Asked(c: Session, r: Request): Option<Session> {
    match r.kind
    case Chunk =>
      var rates := if c.rates == [] then c.defaults else c.rates;
      (match Bitrate.Choice(rates, c.throughput)
       case None => None
       case Some(b) =>
         Some(c.(state := ChunkState, rates := rates, toServer := c.toServer + [Fragment(r.rebuilt, b)])))
    case F4m =>
      Some(c.(state := F4mState, saved := Overwrite(c.saved, r.raw), toServer := c.toServer + [Text(r.rebuilt)]))
    case _ =>
      Some(c.(state := HtmlState, toServer := c.toServer + [Text(r.rebuilt)]))
  }

  /** estimate is the throughput after the response. */
  function Answered(c: Session, resp: Response, estimate: nat): Session {
    match c.state
    case F4mState =>
      var rates := Bitrate.Ladder(resp.rates);
      c.(state := F4mNoListState, rates := rates, defaults := if c.defaults == [] then rates else c.defaults,
         saved := NoList(c.saved), toServer := c.toServer + [Text(NoList(c.saved))])
    case ChunkState =>
      c.(throughput := estimate, toBrowser := c.toBrowser + [resp])
    case _ =>
      c.(toBrowser := c.toBrowser + [resp])
  }

  /** What the handler of a complete response returns. */
  function BytesSent(c: Session, m: Message): nat {
    if c.state == F4mState then |NoList(c.saved)| else |m.header| + |m.body|
  }

  class Config {
    var defaultList: Bitrate.BitrateList

    constructor ()
      ensures fresh(defaultList) && defaultList.Valid() && Bitrate.Rates(defaultList.nodes) == []
    {
      defaultList := new Bitrate.BitrateList();
    }
  }

  class Connection {
    const config: Config
    const table: Throughput.IpTable
    const ip: string
    var state: State
    var f4mRequest: string
    var bitrateList: Bitrate.BitrateList
    var bitrate: int
    var tCurr: nat
    var toServer: seq<ServerRequest>
    var toBrowser: seq<Response>

    ghost predicate Valid()
      reads this`bitrateList, config`defaultList, table`head, table`nodes
      reads bitrateList`head, bitrateList`nodes, bitrateList.nodes`next
      reads config.defaultList`head, config.defaultList`nodes, config.defaultList.nodes`next
    {
      bitrateList.Valid() && config.defaultList.Valid() && table.Valid()
    }

    ghost function Rates(): seq<int>
      reads this`bitrateList, bitrateList`nodes, bitrateList.nodes`bitrate
    {
      Bitrate.Rates(bitrateList.nodes)
    }

    ghost function Defaults(): seq<int>
      reads config`defaultList, config.defaultList`nodes, config.defaultList.nodes`bitrate
    {
      Bitrate.Rates(config.defaultList.nodes)
    }

    /** The fields and what the two lists hold; an empty list stands for the null pointer. */
    ghost function Contents(): Session
      reads this`state, this`f4mRequest, this`tCurr, this`toServer, this`toBrowser
      reads this`bitrateList, bitrateList`nodes, bitrateList.nodes`bitrate
      reads config`defaultList, config.defaultList`nodes, config.defaultList.nodes`bitrate
    {
      Session(state, f4mRequest, Rates(), Defaults(), tCurr, toServer, toBrowser)
    }

    /** A new connection starts from the estimate its address already has. */
    constructor (config: Config, table: Throughput.IpTable, ip: string)
      requires config.defaultList.Valid() && table.Valid()
      ensures Valid() && this.config == config && this.table == table && this.ip == ip
      ensures var known := Throughput.Lookup(table.Contents(), ip);
              Contents() == Initial(Bitrate.Rates(config.defaultList.nodes), if known == None then 0 else known.value)
    {
      hide Bitrate.BitrateList.Valid, Throughput.IpTable.Valid, Throughput.IpTable.Contents, Throughput.Lookup;
      this.config, this.table, this.ip := config, table, ip;
      state, f4mRequest, bitrate := HtmlState, [], 0;
      toServer, toBrowser, tCurr := [], [], 0;
      bitrateList := new Bitrate.BitrateList();
      new;
      var e, i := table.Find(ip);
      if e != null {
        tCurr := e.tpt;
      }
    }

    /** A complete request. The first result is what the last send returns, the second is false when
        the program would read through a null list. */
    method HandlerBrowser(r: Request) returns (ret: nat, defined: bool)
      requires Valid()
      modifies this
      ensures Valid()
      ensures match Asked(old(Contents()), r)
              case Some(c) => defined && Contents() == c && ret == |r.rebuilt|
              case None => !defined
      ensures defined && r.kind == Chunk ==> toServer[|toServer| - 1] == Fragment(r.rebuilt, bitrate)
    {
      hide Bitrate.Choice, Bitrate.Rates, Overwrite, Connection.Valid, Throughput.IpTable.Valid;
      if r.kind == Chunk {
        var choice := ChooseRate();
        if choice.None? {
          return 0, false;
        }
        bitrate := choice.value;
        toServer := toServer + [Fragment(r.rebuilt, bitrate)];
        state := ChunkState;
      } else if r.kind == F4m {
        f4mRequest := Overwrite(f4mRequest, r.raw);
        toServer := toServer + [Text(r.rebuilt)];
        state := F4mState;
      } else {
        toServer := toServer + [Text(r.rebuilt)];
        state := HtmlState;
      }
      return |r.rebuilt|, true;
    }

    /** The rate for a fragment, from the connection's list or else a copy of the default one. */
    method ChooseRate() returns (choice: Option<int>)
      requires Valid()
      modifies this`bitrateList
      ensures Valid() && Rates() == (if old(Rates()) == [] then Defaults() else old(Rates()))
      ensures Defaults() == old(Defaults()) && choice == Bitrate.Choice(Rates(), tCurr)
    {
      hide Bitrate.Choice, Bitrate.Rates, Bitrate.BitrateList.Valid, Throughput.IpTable.Valid;
      EmptyListIsNull(bitrateList);
      if bitrateList.head == null {
        bitrateList := config.defaultList.Duplicate();
      }
      choice := bitrateList.Select(tCurr);
    }

    /** A complete response, millis after the fragment was asked for; the result is the number of bytes
        sent on. */
    method HandleResponse(resp: Response, millis: nat, alpha: real) returns (ret: nat)
      requires Valid() && millis > 0 && 0.0 < alpha <= 1.0
      modifies this, config, table, table.Members()`tpt
      ensures Valid() && Contents() == Answered(old(Contents()), resp, tCurr)
      ensures fresh(table.Members() - old(table.Members()))
      ensures table.Contents() == if old(state) != ChunkState then old(table.Contents())
                                  else Throughput.Estimated(old(table.Contents()), ip,
                                         Throughput.Sample(|resp.message.body|, millis), alpha)
      ensures old(state) == ChunkState ==> Throughput.Lookup(table.Contents(), ip) == Some(tCurr)
      ensures old(state) == F4mState ==>
                NoListOf(f4mRequest, old(f4mRequest)) && toServer == old(toServer) + [Text(f4mRequest)]
                && toBrowser == old(toBrowser)
      ensures old(state) != F4mState ==> toServer == old(toServer) && toBrowser == old(toBrowser) + [resp]
      ensures ret == BytesSent(old(Contents()), resp.message)
    {
      hide Bitrate.Ladder, Bitrate.Rates, Throughput.Estimated, Throughput.Sample, NoList, NoListOf, Throughput.Lookup;
      hide Connection.Valid, Connection.Rates, Connection.Defaults, Throughput.IpTable.Contents;
      match state {
        case F4mState => ret := HandleRespF4m(resp);
        case ChunkState => ret := HandleRespChunk(resp, millis, alpha);
        case _ => ret := Forward(resp);
      }
    }

    method HandleRespF4m(resp: Response) returns (ret: nat)
      requires Valid() && state == F4mState
      modifies this`state, this`f4mRequest, this`toServer, this`bitrateList, config
      ensures Valid() && Contents() == Answered(old(Contents()), resp, tCurr)
      ensures NoListOf(f4mRequest, old(f4mRequest)) && toServer == old(toServer) + [Text(f4mRequest)]
      ensures ret == BytesSent(old(Contents()), resp.message)
    {
      hide Bitrate.Ladder, Bitrate.Rates, NoList, NoListOf;
      hide Connection.Valid, Connection.Rates, Connection.Defaults;
      NoListMeans(f4mRequest);
      TakeManifest(resp.rates);
      f4mRequest := NoList(f4mRequest);
      toServer := toServer + [Text(f4mRequest)];
      state := F4mNoListState;
      ret := |f4mRequest|;
    }

    method HandleRespChunk(resp: Response, millis: nat, alpha: real) returns (ret: nat)
      requires Valid() && state == ChunkState && millis > 0 && 0.0 < alpha <= 1.0
      modifies this`tCurr, this`toBrowser, table, table.Members()`tpt
      ensures Valid() && Contents() == Answered(old(Contents()), resp, tCurr)
      ensures fresh(table.Members() - old(table.Members()))
      ensures table.Contents() ==
              Throughput.Estimated(old(table.Contents()), ip, Throughput.Sample(|resp.message.body|, millis), alpha)
      ensures Throughput.Lookup(table.Contents(), ip) == Some(tCurr)
      ensures toBrowser == old(toBrowser) + [resp]
      ensures ret == BytesSent(old(Contents()), resp.message)
    {
      hide Throughput.Estimated, Throughput.Sample, NoList, Throughput.Lookup;
      hide Connection.Valid, Connection.Rates, Connection.Defaults, Throughput.IpTable.Contents;
      tCurr := MeasureFragment(|resp.message.body|, millis, alpha);
      ret := Forward(resp);
    }

    /** Sends the header and the body on. */
    method Forward(resp: Response) returns (ret: nat)
      modifies this`toBrowser
      ensures toBrowser == old(toBrowser) + [resp] && ret == |resp.message.header| + |resp.message.body|
    {
      toBrowser := toBrowser + [resp];
      ret := |resp.message.header| + |resp.message.body|;
    }

    /** Keeps the manifest's list, and a copy of it as the default list if there is none yet. */
    method TakeManifest(rates: seq<int>)
      requires Valid()
      modifies this`bitrateList, config
      ensures Valid() && Rates() == Bitrate.Ladder(rates)
      ensures Defaults() == if old(Defaults()) == [] then Rates() else old(Defaults())
    {
      hide Bitrate.Ladder, Bitrate.Rates, Bitrate.BitrateList.Valid, Throughput.IpTable.Valid;
      bitrateList := Bitrate.ParseXml(rates);
      EmptyListIsNull(config.defaultList);
      if config.defaultList.head == null {
        config.defaultList := bitrateList.Duplicate();
      }
    }

    method MeasureFragment(bytes: nat, millis: nat, alpha: real) returns (current: nat)
      requires Valid() && millis > 0 && 0.0 < alpha <= 1.0
      modifies table, table.Members()`tpt
      ensures Valid() && fresh(table.Members() - old(table.Members()))
      ensures table.Contents() ==
              Throughput.Estimated(old(table.Contents()), ip, Throughput.Sample(bytes, millis), alpha)
      ensures Throughput.Lookup(table.Contents(), ip) == Some(current)
    {
      hide Bitrate.BitrateList.Valid, Throughput.IpTable.Valid, Throughput.Estimated, Throughput.Sample;
      current := table.Estimate(ip, bytes, millis, alpha);
    }
  }

  lemma EmptyListIsNull(list: Bitrate.BitrateList)
    requires list.Valid()
    ensures list.head == null <==> Bitrate.Rates(list.nodes) == []
  {
  }

  // ---- Whole runs ----

  datatype Exchange = Exchange(request: ServerRequest, response: Response)

  /** A browser's request, a server's response, or another connection's first manifest. */
  datatype Event = Ask(request: Request) | Answer(response: Response, estimate: nat) | Other(rates: seq<int>)

  /** The connection, what the browser has asked for, and what the server has answered. */
  datatype World = World(conn: Session, asked: seq<Request>, log: seq<Exchange>)

  /** The browser waits for each response before it asks again, and the server answers each request
      it is sent once and in order. None: a step that cannot be taken, or one that crashes. */
  function Step(w: World, e: Event): Option<World> {
    match e
    case Ask(r) =>
      if |w.conn.toBrowser| != |w.asked| then None
      else (match Asked(w.conn, r)
            case None => None
            case Some(c) => Some(w.(conn := c, asked := w.asked + [r])))
    case Answer(resp, estimate) =>
      if |w.log| >= |w.conn.toServer| then None
      else Some(World(Answered(w.conn, resp, estimate), w.asked,
                      w.log + [Exchange(w.conn.toServer[|w.log|], resp)]))
    case Other(rates) =>
      if w.conn.defaults != [] then None else Some(w.(conn := w.conn.(defaults := Bitrate.Ladder(rates))))
  }

  function Run(start: World, events: seq<Event>): Option<World> {
    if events == [] then Some(start)
    else match Run(start, events[..|events| - 1])
         case None => None
         case Some(w) => Step(w, events[|events| - 1])
  }

  /** The saved manifest request after these requests have been answered. */
  function SavedAfter(asked: seq<Request>): string {
    if asked == [] then [] else
    var init, r := asked[..|asked| - 1], asked[|asked| - 1];
    if r.kind == F4m then NoList(Overwrite(SavedAfter(init), r.raw)) else SavedAfter(init)
  }

  /** What the server must have been asked, and must have answered, for these requests to get these
      replies: one exchange a request, whose response is the reply; for a manifest two, the second with
      the saved request as rewritten, of which only the second is passed on. */
  predicate Accounts(asked: seq<Request>, log: seq<Exchange>, replies: seq<Response>)
    decreases |asked|
  {
    if asked == [] then log == [] && replies == [] else
    var init, r := asked[..|asked| - 1], asked[|asked| - 1];
    && log != [] && replies != []
    && var last := log[|log| - 1];
    && last.response == replies[|replies| - 1]
    && match r.kind
       case F4m =>
         && last.request == Text(SavedAfter(asked))
         && |log| > 1 && log[|log| - 2].request == Text(r.rebuilt)
         && Accounts(init, log[..|log| - 2], replies[..|replies| - 1])
       case Chunk =>
         && last.request.Fragment? && last.request.text == r.rebuilt
         && Accounts(init, log[..|log| - 1], replies[..|replies| - 1])
       case _ =>
         && last.request == Text(r.rebuilt)
         && Accounts(init, log[..|log| - 1], replies[..|replies| - 1])
  }

  function Requests(log: seq<Exchange>): seq<ServerRequest> {
    seq(|log|, i requires 0 <= i < |log| => log[i].request)
  }

  /** Everything asked has been replied to. */
  predicate Idle(w: World) {
    && Accounts(w.asked, w.log, w.conn.toBrowser)
    && w.conn.toServer == Requests(w.log)
    && w.conn.saved == SavedAfter(w.asked)
  }

  /** The last request has been sent on and not been answered. */
  predicate Sent(w: World) {
    w.asked != [] &&
    var init, r := w.asked[..|w.asked| - 1], w.asked[|w.asked| - 1];
    && Accounts(init, w.log, w.conn.toBrowser)
    && |w.conn.toServer| > 0
    && var last := w.conn.toServer[|w.conn.toServer| - 1];
    && w.conn.toServer == Requests(w.log) + [last]
    && match r.kind
       case F4m =>
         w.conn.state == F4mState && last == Text(r.rebuilt) && w.conn.saved == Overwrite(SavedAfter(init), r.raw)
       case Chunk =>
         w.conn.state == ChunkState && last.Fragment? && last.text == r.rebuilt && w.conn.saved == SavedAfter(init)
       case _ =>
         w.conn.state == HtmlState && last == Text(r.rebuilt) && w.conn.saved == SavedAfter(init)
  }

  /** The list has been taken from the manifest, and its other form asked for. */
  predicate SentNoList(w: World) {
    w.asked != [] && |w.log| > 0 &&
    var init, r := w.asked[..|w.asked| - 1], w.asked[|w.asked| - 1];
    && r.kind == F4m && w.conn.state == F4mNoListState
    && Accounts(init, w.log[..|w.log| - 1], w.conn.toBrowser)
    && w.log[|w.log| - 1].request == Text(r.rebuilt)
    && w.conn.saved == SavedAfter(w.asked)
    && w.conn.toServer == Requests(w.log) + [Text(w.conn.saved)]
  }

  predicate Invariant(w: World) {
    Idle(w) || Sent(w) || SentNoList(w)
  }

  function Start(defaults: seq<int>, throughput: nat): World {
    World(Initial(defaults, throughput), [], [])
  }

  lemma {:induction false} AccountsCounts(asked: seq<Request>, log: seq<Exchange>, replies: seq<Response>)
    requires Accounts(asked, log, replies)
    ensures |replies| == |asked| && |log| == |asked| + |Manifests(asked)|
    decreases |asked|
  {
    if asked != [] {
      var init, r := asked[..|asked| - 1], asked[|asked| - 1];
      AccountsCounts(init, if r.kind == F4m then log[..|log| - 2] else log[..|log| - 1], replies[..|replies| - 1]);
    }
  }

  function Manifests(asked: seq<Request>): seq<Request> {
    if asked == [] then [] else
    var r := asked[|asked| - 1];
    Manifests(asked[..|asked| - 1]) + (if r.kind == F4m then [r] else [])
  }

  lemma StepKeeps(w: World, e: Event)
    requires Invariant(w) && Step(w, e).Some?
    ensures Invariant(Step(w, e).value)
  {
    var w' := Step(w, e).value;
    match e
    case Ask(r) => AskKeeps(w, r);
    case Answer(resp, estimate) => AnswerKeeps(w, resp, estimate);
    case Other(_) =>
  }

  lemma AskKeeps(w: World, r: Request)
    requires Invariant(w) && Step(w, Ask(r)).Some?
    ensures Sent(Step(w, Ask(r)).value)
  {
    if Sent(w) {
      AccountsCounts(w.asked[..|w.asked| - 1], w.log, w.conn.toBrowser);
      assert false;
    } else if SentNoList(w) {
      AccountsCounts(w.asked[..|w.asked| - 1], w.log[..|w.log| - 1], w.conn.toBrowser);
      assert false;
    }
    var w' := Step(w, Ask(r)).value;
    assert w'.asked[..|w'.asked| - 1] == w.asked;
  }

  lemma AnswerKeeps(w: World, resp: Response, estimate: nat)
    requires Invariant(w) && Step(w, Answer(resp, estimate)).Some?
    ensures Invariant(Step(w, Answer(resp, estimate)).value)
    ensures !Idle(w)
  {
    hide Accounts;
    if SentNoList(w) {
      LastReply(w, resp, estimate);
    } else if w.conn.state == F4mState {
      OneMore(w.log, Exchange(w.conn.toServer[|w.log|], resp));
    } else {
      LastReply(w, resp, estimate);
    }
  }

  lemma OneMore(log: seq<Exchange>, e: Exchange)
    ensures (log + [e])[..|log|] == log && Requests(log + [e]) == Requests(log) + [e.request]
  {
  }

  /** The reply that completes a request. */
  lemma LastReply(w: World, resp: Response, estimate: nat)
    requires Step(w, Answer(resp, estimate)).Some?
    requires SentNoList(w) || (Sent(w) && w.conn.state != F4mState)
    ensures Idle(Step(w, Answer(resp, estimate)).value)
  {
    var w' := Step(w, Answer(resp, estimate)).value;
    OneMore(w.log, Exchange(w.conn.toServer[|w.log|], resp));
    assert w'.conn.toBrowser[..|w'.conn.toBrowser| - 1] == w.conn.toBrowser;
    if SentNoList(w) {
      assert w'.log[..|w'.log| - 2] == w.log[..|w.log| - 1];
    }
  }

  lemma {:induction false} RunKeeps(defaults: seq<int>, throughput: nat, events: seq<Event>)
    requires Run(Start(defaults, throughput), events).Some?
    ensures Invariant(Run(Start(defaults, throughput), events).value)
  {
    if events != [] {
      RunKeeps(defaults, throughput, events[..|events| - 1]);
      StepKeeps(Run(Start(defaults, throughput), events[..|events| - 1]).value, events[|events| - 1]);
    }
  }

  /** The second request for every manifest so far was the first one with the extension replaced. */
  ghost predicate AllRight(asked: seq<Request>) {
    forall k | 0 <= k < |asked| && asked[k].kind == F4m ::
      Place(asked[k].raw) < |asked[k].raw| && SavedAfter(asked[..k + 1]) == NoList(asked[k].raw)
  }

  /** Every request is at least seven bytes longer than the one before. */
  predicate Growing(manifests: seq<Request>) {
    forall i | 0 < i < |manifests| :: |manifests[i - 1].raw| + 7 <= |manifests[i].raw|
  }

  ghost predicate HaveExtension(asked: seq<Request>) {
    forall r | r in asked && r.kind == F4m :: HasExtension(r.raw)
  }

  /** `.f4m ` stands somewhere in the request. */
  ghost predicate HasExtension(s: string) {
    exists k: nat :: Stands(s, k)
  }

  lemma ExtensionIsPlaced(s: string)
    ensures HasExtension(s) <==> Place(s) < |s|
  {
    NoListMeans(s);
  }

  lemma AllRightStep(init: seq<Request>, r: Request)
    ensures var asked := init + [r];
            AllRight(asked) <==>
              AllRight(init) && (r.kind == F4m ==> Place(r.raw) < |r.raw| && SavedAfter(asked) == NoList(r.raw))
  {
    hide SavedAfter, NoList, Place;
    var asked := init + [r];
    assert asked[..|asked|] == asked && asked[|init|] == r;
    forall k | 0 <= k < |init|
      ensures asked[k] == init[k] && asked[..k + 1] == init[..k + 1]
    {
    }
    if AllRight(asked) {
      forall k | 0 <= k < |init| && init[k].kind == F4m
        ensures Place(init[k].raw) < |init[k].raw| && SavedAfter(init[..k + 1]) == NoList(init[k].raw)
      {
        assert asked[k].kind == F4m;
      }
    }
  }

  lemma GrowingStep(init: seq<Request>, r: Request)
    ensures Growing(init + [r]) <==> Growing(init) && (init != [] ==> |init[|init| - 1].raw| + 7 <= |r.raw|)
  {
    var all := init + [r];
    assert forall i | 0 <= i < |init| :: all[i] == init[i];
    if Growing(all) && init != [] {
      assert |all[|init| - 1].raw| + 7 <= |all[|init|].raw|;
    }
  }

  lemma {:induction false} SavedIsLast(asked: seq<Request>)
    requires AllRight(asked)
    ensures var ms := Manifests(asked);
            SavedAfter(asked) == if ms == [] then [] else NoList(ms[|ms| - 1].raw)
  {
    hide NoList, Overwrite, AllRight;
    if asked != [] {
      var init, r := asked[..|asked| - 1], asked[|asked| - 1];
      assert asked == init + [r];
      AllRightStep(init, r);
      SavedIsLast(init);
    }
  }

  lemma {:induction false} ManifestsAreAsked(asked: seq<Request>)
    requires HaveExtension(asked)
    ensures forall m | m in Manifests(asked) :: Place(m.raw) < |m.raw|
  {
    hide HasExtension, Place;
    if asked != [] {
      ManifestsAreAsked(asked[..|asked| - 1]);
      ExtensionIsPlaced(asked[|asked| - 1].raw);
    }
  }

  /** All manifests of a connection are asked for as they should be exactly when the extension stands in
      every manifest request, and each of them is at least seven bytes longer than the one before it. */
  lemma {:induction false} ManifestsRightExactlyWhen(asked: seq<Request>)
    ensures AllRight(asked) <==> HaveExtension(asked) && Growing(Manifests(asked))
  {
    hide AllRight, Growing, NoList, Place, HaveExtension, HasExtension;
    if asked == [] {
      NothingAsked();
    } else {
      var init, r := asked[..|asked| - 1], asked[|asked| - 1];
      assert asked == init + [r];
      ManifestsRightExactlyWhen(init);
      AllRightStep(init, r);
      ExtensionStep(init, r);
      ExtensionIsPlaced(r.raw);
      var ms := Manifests(init);
      assert Manifests(asked) == if r.kind == F4m then ms + [r] else ms;
      if r.kind == F4m {
        GrowingStep(ms, r);
        if AllRight(init) && Place(r.raw) < |r.raw| {
          NoListExact(SavedAfter(init), r.raw);
          SavedIsLast(init);
          ManifestsAreAsked(init);
          if ms != [] {
            NoListExact([], ms[|ms| - 1].raw);
          }
        }
      }
    }
  }

  lemma ExtensionStep(init: seq<Request>, r: Request)
    ensures HaveExtension(init + [r]) <==> HaveExtension(init) && (r.kind == F4m ==> HasExtension(r.raw))
  {
    hide HasExtension;
    assert forall x :: x in init + [r] <==> x in init || x == r;
  }

  // ---- Where the exchanges of a request stand ----

  /** The place of request k's first exchange. */
  function FirstAt(asked: seq<Request>, k: nat): nat
    requires k < |asked|
  {
    k + |Manifests(asked[..k])|
  }

  /** The saved copy of manifest request k, before it is rewritten. */
  function SavedFor(asked: seq<Request>, k: nat): string
    requires k < |asked|
  {
    Overwrite(SavedAfter(asked[..k]), asked[k].raw)
  }

  /** Manifest k was asked for twice, the second time with `_nolist.f4m ` for the first `.f4m ` of its saved
      copy, if there is one, and the response to that is the reply. */
  ghost predicate AskedTwice(asked: seq<Request>, log: seq<Exchange>, replies: seq<Response>, k: nat)
    requires k < |asked|
  {
    var p := FirstAt(asked, k);
    && p + 1 < |log| && k < |replies|
    && log[p].request == Text(asked[k].rebuilt)
    && log[p + 1].request.Text? && NoListOf(log[p + 1].request.text, SavedFor(asked, k))
    && replies[k] == log[p + 1].response
  }

  /** Where the exchange stands whose response is the reply to request k. */
  function LastAt(asked: seq<Request>, k: nat): nat
    requires k < |asked|
  {
    FirstAt(asked, k) + (if asked[k].kind == F4m then 1 else 0)
  }

  lemma {:induction false} ReplyAt(asked: seq<Request>, log: seq<Exchange>, replies: seq<Response>, k: nat)
    requires Accounts(asked, log, replies) && k < |asked|
    ensures LastAt(asked, k) < |log| && k < |replies| && replies[k] == log[LastAt(asked, k)].response
    ensures asked[k].kind == F4m ==>
              && log[LastAt(asked, k) - 1].request == Text(asked[k].rebuilt)
              && log[LastAt(asked, k)].request == Text(NoList(SavedFor(asked, k)))
    decreases |asked|
  {
    hide NoList, Overwrite;
    var init, r := asked[..|asked| - 1], asked[|asked| - 1];
    var log' := if r.kind == F4m then log[..|log| - 2] else log[..|log| - 1];
    AccountsCounts(init, log', replies[..|replies| - 1]);
    if k < |init| {
      ReplyAt(init, log', replies[..|replies| - 1], k);
      assert asked[..k] == init[..k];
    } else {
      assert asked[..k] == init;
    }
  }

  /** Every second request is the asked one with the extension replaced. */
  ghost predicate NoListForms(asked: seq<Request>, log: seq<Exchange>) {
    forall k | 0 <= k < |asked| && asked[k].kind == F4m :: NoListForm(asked, log, k)
  }

  ghost predicate NoListForm(asked: seq<Request>, log: seq<Exchange>, k: nat)
    requires k < |asked|
  {
    var p := FirstAt(asked, k);
    && HasExtension(asked[k].raw) && p + 1 < |log|
    && log[p + 1].request.Text? && NoListOf(log[p + 1].request.text, asked[k].raw)
  }

  /** The second request is the saved one unchanged, so that the full manifest is passed on. */
  predicate PassesFull(asked: seq<Request>, log: seq<Exchange>, k: nat)
    requires k < |asked|
  {
    FirstAt(asked, k) + 1 < |log| && log[FirstAt(asked, k) + 1].request == Text(SavedFor(asked, k))
  }

  /** What the manifests of an accounted exchange come to. */
  ghost predicate ManifestsAccounted(asked: seq<Request>, log: seq<Exchange>, replies: seq<Response>) {
    && (forall k | 0 <= k < |asked| && asked[k].kind == F4m ::
          && AskedTwice(asked, log, replies, k)
          && (PassesFull(asked, log, k) <==> !HasExtension(SavedFor(asked, k))))
    && (NoListForms(asked, log) <==> HaveExtension(asked) && Growing(Manifests(asked)))
  }

  lemma AccountForManifest(asked: seq<Request>, log: seq<Exchange>, replies: seq<Response>, k: nat)
    requires Accounts(asked, log, replies) && k < |asked| && asked[k].kind == F4m
    ensures AskedTwice(asked, log, replies, k)
    ensures PassesFull(asked, log, k) <==> !HasExtension(SavedFor(asked, k))
    ensures NoListForm(asked, log, k) <==>
            Place(asked[k].raw) < |asked[k].raw| && SavedAfter(asked[..k + 1]) == NoList(asked[k].raw)
  {
    hide Accounts, NoList, Place, Overwrite, HasExtension, NoListOf;
    ReplyAt(asked, log, replies, k);
    var saved := SavedFor(asked, k);
    NoListIs(NoList(saved), saved);
    NoListIs(NoList(saved), asked[k].raw);
    RewritesExactlyWhen(saved);
    ExtensionIsPlaced(saved);
    ExtensionIsPlaced(asked[k].raw);
    PlaceWithin(saved);
    assert asked[..k + 1][..k] == asked[..k];
  }

  lemma PlaceWithin(s: string)
    ensures Place(s) <= |s|
  {
  }

  lemma AccountForManifests(asked: seq<Request>, log: seq<Exchange>, replies: seq<Response>)
    requires Accounts(asked, log, replies)
    ensures ManifestsAccounted(asked, log, replies)
  {
    hide Accounts, NoList, Place, HaveExtension, HasExtension, Growing, AskedTwice, NoListForm, PassesFull, SavedFor;
    forall k | 0 <= k < |asked| && asked[k].kind == F4m
      ensures AskedTwice(asked, log, replies, k)
      ensures PassesFull(asked, log, k) <==> !HasExtension(SavedFor(asked, k))
      ensures NoListForm(asked, log, k) <==>
              Place(asked[k].raw) < |asked[k].raw| && SavedAfter(asked[..k + 1]) == NoList(asked[k].raw)
    {
      AccountForManifest(asked, log, replies, k);
    }
    ManifestsRightExactlyWhen(asked);
  }

  lemma NothingAsked()
    ensures AllRight([]) && Growing([]) && HaveExtension([])
  {
  }

  /** At any time all that has been asked is replied to exactly when no request to the server is open. */
  lemma OpenRequests(w: World)
    requires Invariant(w)
    ensures |w.log| <= |w.conn.toServer| <= |w.log| + 1
    ensures |w.log| == |w.conn.toServer| <==> |w.conn.toBrowser| == |w.asked|
    ensures |w.log| == |w.conn.toServer| ==> Idle(w) && |w.log| == |w.asked| + |Manifests(w.asked)|
  {
    if Idle(w) {
      AccountsCounts(w.asked, w.log, w.conn.toBrowser);
    } else if Sent(w) {
      AccountsCounts(w.asked[..|w.asked| - 1], w.log, w.conn.toBrowser);
    } else {
      AccountsCounts(w.asked[..|w.asked| - 1], w.log[..|w.log| - 1], w.conn.toBrowser);
    }
  }

  /** In every reachable state, the replies so far are the responses to the last requests sent for what
      was asked. */
  lemma RepliesStand(w: World)
    requires Invariant(w)
    ensures |w.conn.toBrowser| <= |w.asked|
    ensures forall j | 0 <= j < |w.conn.toBrowser| ::
              LastAt(w.asked, j) < |w.log| && w.conn.toBrowser[j] == w.log[LastAt(w.asked, j)].response
  {
    hide Accounts, Manifests;
    var n := if Idle(w) then |w.asked| else |w.asked| - 1;
    var init, log := w.asked[..n], if Idle(w) || Sent(w) then w.log else w.log[..|w.log| - 1];
    assert Idle(w) ==> w.asked[..n] == w.asked;
    assert Accounts(init, log, w.conn.toBrowser);
    AccountsCounts(init, log, w.conn.toBrowser);
    forall j | 0 <= j < |w.conn.toBrowser|
      ensures LastAt(w.asked, j) < |w.log| && w.conn.toBrowser[j] == w.log[LastAt(w.asked, j)].response
    {
      ReplyAt(init, log, w.conn.toBrowser, j);
      assert init[..j] == w.asked[..j] && init[j] == w.asked[j];
    }
  }

  /** After any run in which nothing is left unanswered, every request has exactly one reply, and each
      exchange with the server is accounted for. Every manifest request caused exactly one second
      request, whose response is the reply. That was its rewritten form for all of them exactly when the
      extension stands in every manifest request and their lengths grow; it was the saved request
      unchanged exactly when the extension does not stand in that. */
  lemma EveryRequestAnswered(defaults: seq<int>, throughput: nat, events: seq<Event>)
    requires Run(Start(defaults, throughput), events).Some?
    ensures var w := Run(Start(defaults, throughput), events).value;
            |w.log| == |w.conn.toServer| <==> |w.conn.toBrowser| == |w.asked|
    ensures var w := Run(Start(defaults, throughput), events).value;
            |w.log| == |w.conn.toServer| ==>
              && Accounts(w.asked, w.log, w.conn.toBrowser)
              && w.conn.toServer == Requests(w.log)
              && |w.log| == |w.asked| + |Manifests(w.asked)|
              && ManifestsAccounted(w.asked, w.log, w.conn.toBrowser)
  {
    RunKeeps(defaults, throughput, events);
    var w := Run(Start(defaults, throughput), events).value;
    OpenRequests(w);
    if |w.log| == |w.conn.toServer| {
      AccountForManifests(w.asked, w.log, w.conn.toBrowser);
    }
  }

  /** A manifest request in which the extension does not stand, such as one with a query behind it, goes
      out twice, and the full manifest of the second response is passed on. */
  lemma FullManifestPassedOn(
    defaults: seq<int>, throughput: nat, r: Request, a: Response, b: Response, e: nat, e': nat)
    requires r.kind == F4m && Place(r.raw) == |r.raw|
    ensures var w := Run(Start(defaults, throughput), [Ask(r), Answer(a, e), Answer(b, e')]);
            && w.Some? && w.value.asked == [r]
            && w.value.conn.toServer == [Text(r.rebuilt), Text(r.raw)] && w.value.conn.toBrowser == [b]
            && PassesFull(w.value.asked, w.value.log, 0)
  {
    hide Place, Bitrate.Ladder, Run;
    RewritesExactlyWhen(r.raw);
    var start := Start(defaults, throughput);
    RunOn(start, [], Ask(r));
    RunOn(start, [Ask(r)], Answer(a, e));
    RunOn(start, [Ask(r), Answer(a, e)], Answer(b, e'));
    assert [] + [Ask(r)] == [Ask(r)];
    assert [Ask(r)] + [Answer(a, e)] == [Ask(r), Answer(a, e)];
    assert [Ask(r), Answer(a, e)] + [Answer(b, e')] == [Ask(r), Answer(a, e), Answer(b, e')];
    var w := Run(start, [Ask(r), Answer(a, e), Answer(b, e')]).value;
    assert w.asked == [r] && w.asked[..0] == [];
  }

  lemma RunOn(start: World, events: seq<Event>, e: Event)
    ensures Run(start, []) == Some(start)
    ensures Run(start, events + [e]) ==
            match Run(start, events) { case None => None case Some(w) => Step(w, e) }
  {
    assert (events + [e])[..|events|] == events;
  }

  /** So is every request like `GET /a.f4m?x HTTP/1.1`: no dot before the extension, a query behind it, and
      no other extension in the rest. */
  lemma QueryHidesExtension(front: string, rest: string)
    requires '.' !in front && Place(rest) == |rest|
    ensures var s := front + (".f4m?" + rest); Place(s) == |s|
  {
    hide Place, Begins;
    PlaceSkips(front, ".f4m?" + rest);
    QueryInTail(rest);
  }

  lemma QueryInTail(rest: string)
    ensures Place(".f4m?" + rest) == 5 + Place(rest)
  {
    hide Begins;
    var tail := ".f4m?" + rest;
    NotTheExtension(tail);
    assert tail[1..] == "f4m?" + rest;
    assert '.' !in "f4m?";
    PlaceSkips("f4m?", rest);
  }

  lemma NotTheExtension(s: string)
    requires |s| > 4 && s[4] == '?'
    ensures !Begins(s)
  {
    assert EXTENSION[4] == ' ';
  }

  /** Characters that are no dot do not begin the extension. */
  lemma {:induction false} PlaceSkips(s: string, rest: string)
    requires '.' !in s
    ensures Place(s + rest) == |s| + Place(rest)
  {
    if s == "" {
      assert s + rest == rest;
    } else {
      assert (s + rest)[1..] == s[1..] + rest;
      PlaceSkips(s[1..], rest);
      assert (s + rest)[0] != EXTENSION[0];
    }
  }

  /** The rates of the last manifest that the run has received. */
  function ManifestRates(start: World, events: seq<Event>): Option<seq<int>> {
    if events == [] then None else
    var init, e := events[..|events| - 1], events[|events| - 1];
    match Run(start, init)
    case None => None
    case Some(w) =>
      if e.Answer? && w.conn.state == F4mState then Some(e.response.rates) else ManifestRates(start, init)
  }

  lemma {:induction false} RatesAreLastManifest(start: World, events: seq<Event>)
    requires Run(start, events).Some? && ManifestRates(start, events).Some?
    requires ManifestRates(start, events).value != []
    ensures Run(start, events).value.conn.rates == Bitrate.Ladder(ManifestRates(start, events).value)
  {
    hide Bitrate.Ladder, Bitrate.Choice, NoList, Overwrite;
    var init, e := events[..|events| - 1], events[|events| - 1];
    var w := Run(start, init).value;
    LadderChoice(ManifestRates(start, events).value, 0);
    if !(e.Answer? && w.conn.state == F4mState) {
      RatesAreLastManifest(start, init);
    }
  }

  /** After any run whose last manifest listed some rates, a fragment is asked for at the best of them. */
  lemma FragmentRateIsBest(start: World, events: seq<Event>, r: Request)
    requires Run(start, events).Some? && ManifestRates(start, events).Some?
    requires ManifestRates(start, events).value != [] && r.kind == Chunk
    ensures var w, rates := Run(start, events).value, ManifestRates(start, events).value;
            |w.conn.toBrowser| == |w.asked| ==>
              var w' := Step(w, Ask(r));
              && w'.Some? && |w'.value.conn.toServer| > 0
              && var sent := w'.value.conn.toServer[|w'.value.conn.toServer| - 1];
              && sent.Fragment? && sent.text == r.rebuilt
              && Bitrate.IsBest(sent.bitrate, rates, w.conn.throughput)
  {
    var w, rates := Run(start, events).value, ManifestRates(start, events).value;
    RatesAreLastManifest(start, events);
    LadderChoice(rates, w.conn.throughput);
  }

  lemma LadderChoice(rates: seq<int>, throughput: nat)
    requires rates != []
    ensures var choice := Bitrate.Choice(Bitrate.Ladder(rates), throughput);
            && Bitrate.Ladder(rates) != []
            && choice.Some? && Bitrate.IsBest(choice.value, rates, throughput)
  {
    var ladder := Bitrate.Ladder(rates);
    Bitrate.LadderIsSorted(rates);
    forall x
      ensures x in ladder <==> x in rates
    {
      assert x in multiset(ladder) <==> x in multiset(rates);
    }
    assert rates[0] in ladder;
    Bitrate.ChoiceIsBest(ladder, throughput);
  }

  /** The estimate after the last fragment that the run has received. */
  function LastEstimate(start: World, events: seq<Event>): Option<nat> {
    if events == [] then None else
    var init, e := events[..|events| - 1], events[|events| - 1];
    match Run(start, init)
    case None => None
    case Some(w) => if e.Answer? && w.conn.state == ChunkState then Some(e.estimate) else LastEstimate(start, init)
  }

  /** The rate is chosen for that estimate, or for the one that the connection started with. */
  lemma {:induction false} ThroughputIsLastEstimate(start: World, events: seq<Event>)
    requires Run(start, events).Some?
    ensures Run(start, events).value.conn.throughput ==
            match LastEstimate(start, events) { case None => start.conn.throughput case Some(e) => e }
  {
    hide Bitrate.Ladder, Bitrate.Choice, NoList, Overwrite;
    if events != [] {
      ThroughputIsLastEstimate(start, events[..|events| - 1]);
    }
  }

  /** The first manifest of any connection that lists some rates gives the default list, and no later one
      changes it. */
  lemma DefaultsAreFirst(w: World, e: Event)
    requires Step(w, e).Some?
    ensures var d := Step(w, e).value.conn.defaults;
            if w.conn.defaults != [] then d == w.conn.defaults
            else if e.Other? then d == Bitrate.Ladder(e.rates)
            else if e.Answer? && w.conn.state == F4mState then d == Bitrate.Ladder(e.response.rates)
            else d == []
  {
    hide Bitrate.Ladder, Bitrate.Choice, NoList, Overwrite;
  }

  /** A connection without rates of its own asks for a fragment at the best of the default ones. */
  lemma DefaultRateIsBest(w: World, r: Request, rates: seq<int>)
    requires w.conn.rates == [] && w.conn.defaults == Bitrate.Ladder(rates) && rates != [] && r.kind == Chunk
    requires |w.conn.toBrowser| == |w.asked|
    ensures var w' := Step(w, Ask(r));
            && w'.Some? && |w'.value.conn.toServer| == |w.conn.toServer| + 1
            && var sent := w'.value.conn.toServer[|w.conn.toServer|];
            && sent.Fragment? && sent.text == r.rebuilt
            && Bitrate.IsBest(sent.bitrate, rates, w.conn.throughput)
  {
    LadderChoice(rates, w.conn.throughput);
  }
}
