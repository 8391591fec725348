/** The proxy's doubly linked list of connections, and the sweep that serves the ready ones
    while failing connections unlink themselves. */
module ConnList {
  import opened Sequences

  class Conn {
    var browserFd: int
    var serverFd: int
    var prev: Conn?
    var next: Conn?

    constructor (browserFd: int, serverFd: int)
      ensures this.browserFd == browserFd && this.serverFd == serverFd && prev == null && next == null
    {
      this.browserFd, this.serverFd, prev, next := browserFd, serverFd, null, null;
    }
  }

  /** s is linked both ways between two null ends, and holds no connection twice. */
  ghost predicate Linked(head: Conn?, s: seq<Conn>)
    reads s`prev, s`next
  {
    && NoDuplicates(s)
    && head == At(s, 0, null)
    && (forall i | 0 <= i < |s| :: s[i].next == At(s, i + 1, null) && s[i].prev == At(s, i - 1, null))
  }

  /** Which of a connection's two descriptors are ready. */
  datatype Flags = Flags(browser: bool, server: bool) {
    function Count(): nat {
      (if browser then 1 else 0) + (if server then 1 else 0)
    }
  }

  datatype Visit = Visit(conn: Conn, flags: Flags)

  function FlagsOf(c: Conn, ready: set<int>): Flags
    reads c`browserFd, c`serverFd
  {
    Flags(c.browserFd in ready, c.serverFd in ready)
  }

  ghost function AllFlags(s: seq<Conn>, ready: set<int>): (w: seq<Flags>)
    reads s
    ensures |w| == |s| && forall i | 0 <= i < |s| :: w[i] == FlagsOf(s[i], ready)
  {
    seq(|s|, i requires 0 <= i < |s| reads s => FlagsOf(s[i], ready))
  }

  function Sum(w: seq<Flags>): nat {
    if w == [] then 0 else w[0].Count() + Sum(w[1..])
  }

  /** The connections with a ready descriptor, each once, in list order. */
  ghost function Served(s: seq<Conn>, w: seq<Flags>): seq<Visit>
    requires |s| == |w|
  {
    if s == [] then [] else
    (if w[0].Count() > 0 then [Visit(s[0], w[0])] else []) + Served(s[1..], w[1..])
  }

  /** Each visit tells which of its connection's descriptors are ready. */
  lemma {:induction false} ServedFlags(s: seq<Conn>, ready: set<int>)
    ensures forall v | v in Served(s, AllFlags(s, ready)) ::
              v.conn in s
              && (v.flags.browser <==> v.conn.browserFd in ready) && (v.flags.server <==> v.conn.serverFd in ready)
  {
    if s != [] {
      assert AllFlags(s, ready)[1..] == AllFlags(s[1..], ready);
      ServedFlags(s[1..], ready);
    }
  }

  /** Served with a handler that reports failure. */
  predicate Failed(c: Conn, f: Flags, fails: (Conn, Flags) -> bool) {
    f.Count() > 0 && fails(c, f)
  }

  /** The connections that were not served, or whose handler succeeded. */
  ghost function Kept(s: seq<Conn>, w: seq<Flags>, fails: (Conn, Flags) -> bool): seq<Conn>
    requires |s| == |w|
  {
    if s == [] then [] else
    (if Failed(s[0], w[0], fails) then [] else [s[0]]) + Kept(s[1..], w[1..], fails)
  }

  /** Connections without a ready descriptor are neither served nor dropped. */
  lemma {:induction false} IdleTail(s: seq<Conn>, w: seq<Flags>, fails: (Conn, Flags) -> bool)
    requires |s| == |w| && (s == [] || Sum(w) <= 0)
    ensures Served(s, w) == [] && Kept(s, w, fails) == s
  {
    if s != [] {
      IdleTail(s[1..], w[1..], fails);
    }
  }

  /** How often c is handled. */
  ghost function Times(visits: seq<Visit>, c: Conn): nat {
    if visits == [] then 0 else (if visits[0].conn == c then 1 else 0) + Times(visits[1..], c)
  }

  /** In a list without repetitions the i-th connection is handled once if one of its descriptors is
      ready, otherwise never, and it stays unless its handler failed. */
  lemma {:induction false} HandledOnce(s: seq<Conn>, w: seq<Flags>, i: nat, fails: (Conn, Flags) -> bool)
    requires NoDuplicates(s) && |s| == |w| && i < |s|
    ensures Times(Served(s, w), s[i]) == if w[i].Count() > 0 then 1 else 0
    ensures s[i] in Kept(s, w, fails) <==> !Failed(s[i], w[i], fails)
  {
    var c := s[i];
    assert Served(s, w) == (if w[0].Count() > 0 then [Visit(s[0], w[0])] else []) + Served(s[1..], w[1..]);
    if w[0].Count() > 0 {
      assert Served(s, w)[1..] == Served(s[1..], w[1..]);
    } else {
      assert Served(s, w) == Served(s[1..], w[1..]);
    }
    if i > 0 {
      HandledOnce(s[1..], w[1..], i - 1, fails);
    } else {
      NeverHandled(s[1..], w[1..], c, fails);
    }
  }

  lemma {:induction false} NeverHandled(s: seq<Conn>, w: seq<Flags>, c: Conn, fails: (Conn, Flags) -> bool)
    requires |s| == |w| && c !in s
    ensures Times(Served(s, w), c) == 0 && c !in Kept(s, w, fails)
  {
    if s != [] {
      NeverHandled(s[1..], w[1..], c, fails);
      if w[0].Count() > 0 {
        assert Served(s, w)[1..] == Served(s[1..], w[1..]);
      } else {
        assert Served(s, w) == Served(s[1..], w[1..]);
      }
    }
  }

  /** sub is s with some elements left out. */
  ghost predicate InOrder(sub: seq<Conn>, s: seq<Conn>) {
    exists places: seq<nat> :: PlacedAt(sub, s, places)
  }

  ghost predicate PlacedAt(sub: seq<Conn>, s: seq<Conn>, places: seq<nat>) {
    && |places| == |sub| && (forall i | 0 <= i < |sub| :: places[i] < |s| && s[places[i]] == sub[i])
    && (forall i, j | 0 <= i < j < |sub| :: places[i] < places[j])
  }

  lemma InOrderTail(sub: seq<Conn>, s: seq<Conn>)
    requires s != [] && InOrder(sub, s[1..])
    ensures InOrder(sub, s) && InOrder([s[0]] + sub, s)
  {
    hide PlacedAt;
    var places: seq<nat> :| PlacedAt(sub, s[1..], places);
    var later: seq<nat> := seq(|places|, i requires 0 <= i < |places| => places[i] + 1);
    PlacedLater(sub, s, places, later);
    PlacedFirst(sub, s, later);
  }

  lemma PlacedLater(sub: seq<Conn>, s: seq<Conn>, places: seq<nat>, later: seq<nat>)
    requires s != [] && PlacedAt(sub, s[1..], places)
    requires |later| == |places| && forall i | 0 <= i < |later| :: later[i] == places[i] + 1
    ensures PlacedAt(sub, s, later) && forall i | 0 <= i < |later| :: later[i] > 0
  {
    forall i | 0 <= i < |sub|
      ensures later[i] < |s| && s[later[i]] == sub[i]
    {
      assert s[1..][places[i]] == sub[i];
    }
  }

  lemma PlacedFirst(sub: seq<Conn>, s: seq<Conn>, later: seq<nat>)
    requires s != [] && PlacedAt(sub, s, later) && forall i | 0 <= i < |later| :: later[i] > 0
    ensures PlacedAt([s[0]] + sub, s, [0] + later)
  {
    var first, places := [s[0]] + sub, [0] + later;
    forall i | 0 <= i < |first|
      ensures places[i] < |s| && s[places[i]] == first[i]
    {
      assert i > 0 ==> first[i] == sub[i - 1] && places[i] == later[i - 1];
    }
  }

  function Handled(visits: seq<Visit>): (r: seq<Conn>)
    ensures |r| == |visits| && forall i | 0 <= i < |visits| :: r[i] == visits[i].conn
  {
    seq(|visits|, i requires 0 <= i < |visits| => visits[i].conn)
  }

  /** Connections are handled in the order of the list, and those kept stay in it. */
  lemma {:induction false} ServedInOrder(s: seq<Conn>, w: seq<Flags>, fails: (Conn, Flags) -> bool)
    requires |s| == |w|
    ensures InOrder(Handled(Served(s, w)), s) && InOrder(Kept(s, w, fails), s)
  {
    if s == [] {
      assert PlacedAt([], s, []);
    } else {
      ServedInOrder(s[1..], w[1..], fails);
      var served, kept := Served(s[1..], w[1..]), Kept(s[1..], w[1..], fails);
      InOrderTail(Handled(served), s);
      InOrderTail(kept, s);
      assert Handled([Visit(s[0], w[0])] + served) == [s[0]] + Handled(served);
      assert [] + served == served && [] + kept == kept;
    }
  }

  /** No two open descriptors of the list are the same; a closed one is 0. */
  ghost predicate Apart(s: seq<Conn>)
    reads s`browserFd, s`serverFd
  {
    && (forall i | 0 <= i < |s| :: s[i].browserFd == s[i].serverFd ==> s[i].browserFd == 0)
    && (forall i, j | 0 <= i < j < |s| ::
          && (s[i].browserFd == s[j].browserFd || s[i].browserFd == s[j].serverFd ==> s[i].browserFd == 0)
          && (s[i].serverFd == s[j].browserFd || s[i].serverFd == s[j].serverFd ==> s[i].serverFd == 0))
  }

  /** The first connection's descriptors are nobody else's. */
  lemma FlagsOfRest(s: seq<Conn>, ready: set<int>)
    requires Apart(s) && 0 !in ready && s != []
    ensures Apart(s[1..])
    ensures s[0].browserFd == s[0].serverFd ==> s[0].browserFd !in ready
    ensures AllFlags(s, ready)[1..] == AllFlags(s[1..], ready - {s[0].browserFd, s[0].serverFd})
  {
    var rest := ready - {s[0].browserFd, s[0].serverFd};
    forall i | 0 <= i < |s| - 1
      ensures FlagsOf(s[1..][i], rest) == FlagsOf(s[i + 1], ready)
    {
      assert s[1..][i] == s[i + 1];
    }
  }

  /** NoDuplicates descriptors need no more than what select counted. */
  lemma {:induction false} ReadyCovers(s: seq<Conn>, ready: set<int>)
    requires Apart(s) && 0 !in ready
    ensures Sum(AllFlags(s, ready)) <= |ready|
  {
    hide Apart;
    if s != [] {
      var c := s[0];
      var rest := ready - {c.browserFd, c.serverFd};
      FlagsOfRest(s, ready);
      ReadyCovers(s[1..], rest);
      TakingOut(ready, c.browserFd, c.serverFd);
    }
  }

  lemma TakingOut(ready: set<int>, a: int, b: int)
    requires a == b ==> a !in ready
    ensures |ready| == |ready - {a, b}| + Flags(a in ready, b in ready).Count()
  {
    TakingOne(ready, a);
    TakingOne(ready - {a}, b);
    assert ready - {a} - {b} == ready - {a, b};
  }

  lemma TakingOne(ready: set<int>, a: int)
    ensures |ready| == |ready - {a}| + (if a in ready then 1 else 0)
  {
    if a in ready {
      assert ready == ready - {a} + {a};
    } else {
      assert ready == ready - {a};
    }
  }

  class List {
    var head: Conn?
    var watched: set<int>
    ghost var s: seq<Conn>

    ghost predicate Valid()
      reads this, s`prev, s`next
    {
      Linked(head, s)
    }

    ghost function Members(): set<Conn>
      reads this
    {
      Elements(s)
    }

    constructor ()
      ensures Valid() && s == [] && watched == {}
    {
      head, watched, s := null, {}, [];
    }

    /** Pushes an initialised connection in front; its own prev pointer is not written. */
    method Insert(c: Conn)
      requires Valid() && c !in s && c.prev == null
      modifies this`head, this`s, c`next, Members()`prev
      ensures Valid() && s == [c] + old(s)
    {
      ghost var t := s;
      var temp := head;
      head := c;
      c.next := temp;
      if temp != null {
        temp.prev := c;
      }
      s := [c] + t;
      forall j | 0 <= j < |t|
        ensures t[j] != c && t[j].next == At(t, j + 1, null) && t[j].prev == (if j == 0 then c else At(t, j - 1, null))
      {
      }
      LinkedInFront(c, t);
    }

    /** Unlinks the i-th connection, whose own pointers stay as they are. */
    method Remove(c: Conn, ghost i: nat)
      requires Valid() && i < |s| && c == s[i]
      modifies this`head, this`s, Members()`prev, Members()`next
      ensures Valid() && s == old(s)[..i] + old(s)[i + 1..]
      ensures c.next == old(c.next) && c.prev == old(c.prev)
    {
      ghost var t := s;
      var prev, next := c.prev, c.next;
      assert prev == At(t, i - 1, null) && next == At(t, i + 1, null);
      if prev != null {
        prev.next := next;
      }
      if next != null {
        next.prev := prev;
      }
      if prev == null {
        head := next;
      }
      s := t[..i] + t[i + 1..];
      forall j | 0 <= j < |t| && j != i
        ensures t[j].next == (if j == i - 1 then At(t, i + 1, null) else At(t, j + 1, null))
        ensures t[j].prev == (if j == i + 1 then At(t, i - 1, null) else At(t, j - 1, null))
      {
      }
      RelinkedWithout(head, t, i);
    }

    /** Closes both descriptors of the i-th connection and unlinks it. */
    method Close(c: Conn, ghost i: nat)
      requires Valid() && i < |s| && c == s[i]
      modifies this, Members()`prev, Members()`next, c`browserFd, c`serverFd
      ensures Valid() && s == old(s)[..i] + old(s)[i + 1..]
      ensures c.next == old(c.next) && c.browserFd == 0 && c.serverFd == 0
      ensures watched == old(watched) - ({old(c.browserFd), old(c.serverFd)} - {0})
    {
      hide Linked;
      if c.browserFd != 0 {
        watched := watched - {c.browserFd};
        c.browserFd := 0;
      }
      if c.serverFd != 0 {
        watched := watched - {c.serverFd};
        c.serverFd := 0;
      }
      Remove(c, i);
    }

    /** Handles the i-th connection if a descriptor is ready, and moves on to the next one through
        its pointer, which is read after a failed connection has unlinked itself. */
    method Serve(c: Conn, ghost i: nat, ghost ready: set<int>, flags: Flags, fails: (Conn, Flags) -> bool)
      returns (next: Conn?)
      requires Valid() && i < |s| && c == s[i]
      modifies this, Members()`prev, Members()`next, c`browserFd, c`serverFd
      ensures Valid() && next == old(At(s, i + 1, null)) && Members() <= old(Members())
      ensures s == if Failed(c, flags, fails) then old(s)[..i] + old(s)[i + 1..] else old(s)
      ensures AllFlags(old(s)[i + 1..], ready) == old(AllFlags(s[i + 1..], ready))
    {
      ghost var tail := s[i + 1..];
      assert c !in tail;
      if flags.Count() > 0 && fails(c, flags) {
        Close(c, i);
      }
      next := c.next;
      forall j | 0 <= j < |tail|
        ensures FlagsOf(tail[j], ready) == old(FlagsOf(tail[j], ready))
      {
        assert tail[j] in old(Members());
      }
    }

    /** One pass of the main loop over the descriptors select reported: every connection with a
        ready descriptor is handled exactly once, in list order, and those whose handler failed
        are gone, although they unlink themselves while the pass stands on them. */
    method Sweep(ready: set<int>, fails: (Conn, Flags) -> bool) returns (visits: seq<Visit>)
      requires Valid() && Apart(s) && 0 !in ready
      modifies this, Members()
      ensures Valid()
      ensures visits == old(Served(s, AllFlags(s, ready)))
      ensures s == old(Kept(s, AllFlags(s, ready), fails))
      ensures forall v | v in visits :: v.conn in old(s)
      ensures forall i, v | 0 <= i < |old(s)| && v in visits && v.conn == old(s)[i] ::
                && (v.flags.browser <==> old(s[i].browserFd) in ready)
                && (v.flags.server <==> old(s[i].serverFd) in ready)
    {
      hide Linked, Apart, Served, Kept, Sum, AllFlags;
      ghost var kept: seq<Conn> := [];
      ghost var ahead, left, all := s, AllFlags(s, ready), Members();
      var readyNum := |ready|;
      ReadyCovers(s, ready);
      ServedFlags(s, ready);
      HeadOf(head, s);
      visits := [];
      var curr := head;
      while curr != null && readyNum > 0
        invariant Valid() && s == kept + ahead && Members() <= all
        invariant curr == if ahead == [] then null else ahead[0]
        invariant left == AllFlags(ahead, ready) && |left| == |ahead| && readyNum >= Sum(left)
        invariant visits + Served(ahead, left) == old(Served(s, AllFlags(s, ready)))
        invariant kept + Kept(ahead, left, fails) == old(Kept(s, AllFlags(s, ready), fails))
        decreases |ahead|
      {
        var c, flags := curr, FlagsOf(curr, ready);
        Here(s, kept, ahead);
        Peel(kept, ahead, ready, visits, fails);
        readyNum := readyNum - flags.Count();
        if flags.Count() > 0 {
          visits := visits + [Visit(c, flags)];
        }
        curr := Serve(c, |kept|, ready, flags, fails);
        kept := if Failed(c, flags, fails) then kept else kept + [c];
        ahead, left := ahead[1..], left[1..];
      }
      IdleTail(ahead, left, fails);
    }
  }

  lemma HeadOf(head: Conn?, s: seq<Conn>)
    requires Linked(head, s)
    ensures head == (if s == [] then null else s[0])
  {
  }

  /** Where the pass stands: at the first connection ahead, right after those kept. */
  lemma Here(s: seq<Conn>, kept: seq<Conn>, ahead: seq<Conn>)
    requires s == kept + ahead && ahead != []
    ensures s[|kept|] == ahead[0] && s[|kept| + 1..] == ahead[1..]
    ensures At(s, |kept| + 1, null) == if ahead[1..] == [] then null else ahead[1..][0]
    ensures s[..|kept|] + s[|kept| + 1..] == kept + ahead[1..] && s == kept + [ahead[0]] + ahead[1..]
  {
  }

  /** Moving the first connection ahead behind the pass. */
  lemma Peel(kept: seq<Conn>, ahead: seq<Conn>, ready: set<int>, visits: seq<Visit>,
             fails: (Conn, Flags) -> bool)
    requires ahead != []
    ensures var left := AllFlags(ahead, ready);
            && left[0] == FlagsOf(ahead[0], ready) && left[1..] == AllFlags(ahead[1..], ready)
            && Sum(left) == left[0].Count() + Sum(left[1..])
            && visits + Served(ahead, left)
               == (if left[0].Count() > 0 then visits + [Visit(ahead[0], left[0])] else visits)
                  + Served(ahead[1..], left[1..])
            && kept + Kept(ahead, left, fails)
               == (if Failed(ahead[0], left[0], fails) then kept else kept + [ahead[0]])
                  + Kept(ahead[1..], left[1..], fails)
  {
    hide Failed;
    var left := AllFlags(ahead, ready);
    assert left[1..] == AllFlags(ahead[1..], ready);
    var served, stays := Served(ahead[1..], left[1..]), Kept(ahead[1..], left[1..], fails);
    assert visits + ([Visit(ahead[0], left[0])] + served) == visits + [Visit(ahead[0], left[0])] + served;
    assert kept + ([ahead[0]] + stays) == kept + [ahead[0]] + stays;
    assert [] + served == served && [] + stays == stays;
  }

  /** A connection put before the first one. */
  lemma LinkedInFront(c: Conn, t: seq<Conn>)
    requires NoDuplicates(t) && c.next == At(t, 0, null) && c.prev == null
    requires forall j | 0 <= j < |t| ::
               t[j] != c && t[j].next == At(t, j + 1, null) && t[j].prev == if j == 0 then c else At(t, j - 1, null)
    ensures Linked(c, [c] + t)
  {
    var s := [c] + t;
    forall j | 0 <= j < |s|
      ensures s[j].next == At(s, j + 1, null) && s[j].prev == At(s, j - 1, null)
    {
      assert j > 0 ==> s[j] == t[j - 1];
    }
  }

  /** Passing over position i on both sides leaves the rest linked. */
  lemma RelinkedWithout(head: Conn?, t: seq<Conn>, i: nat)
    requires NoDuplicates(t)
    requires i < |t| && head == if i == 0 then At(t, 1, null) else At(t, 0, null)
    requires forall j | 0 <= j < |t| && j != i ::
               && t[j].next == (if j == i - 1 then At(t, i + 1, null) else At(t, j + 1, null))
               && t[j].prev == (if j == i + 1 then At(t, i - 1, null) else At(t, j - 1, null))
    ensures Linked(head, t[..i] + t[i + 1..])
  {
    var s := t[..i] + t[i + 1..];
    forall j | 0 <= j < |s|
      ensures s[j].next == At(s, j + 1, null) && s[j].prev == At(s, j - 1, null)
    {
      assert s[j] == if j < i then t[j] else t[j + 1];
    }
  }
}
