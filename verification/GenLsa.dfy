/** The announcement generator: it reads a links file and, round by round, walks the
    network from the sink and prints the announcements that are not lost. */
module GenLsa {
  import opened Sequences
  import opened Options
  import opened Graphs
  import opened NameLists
  import opened LinkState
  import opened Nearest

  // ---- The links file ----

  datatype Line = Line(a: Ip, b: Ip)

  function Ensure(links: Adjacency, n: Ip): Adjacency {
    if n in links then links else links[n := []]
  }

  function AddLine(links: Adjacency, l: Line): Adjacency {
    var l1 := Ensure(Ensure(links, l.a), l.b);
    var l2 := l1[l.a := l1[l.a] + [l.b]];
    l2[l.b := l2[l.b] + [l.a]]
  }

  function LinksOf(lines: seq<Line>): Adjacency
    decreases |lines|
  {
    if lines == [] then map[] else AddLine(LinksOf(lines[..|lines| - 1]), lines[|lines| - 1])
  }

  method ReadLinks(lines: seq<Line>) returns (links: Adjacency)
    ensures links == LinksOf(lines)
  {
    links := map[];
    for i := 0 to |lines|
      invariant links == LinksOf(lines[..i])
    {
      assert lines[..i + 1][..i] == lines[..i];
      var l := lines[i];
      if l.a !in links {
        links := links[l.a := []];
      }
      if l.b !in links {
        links := links[l.b := []];
      }
      links := links[l.a := links[l.a] + [l.b]];
      links := links[l.b := links[l.b] + [l.a]];
    }
    assert lines[..|lines|] == lines;
  }

  /** What a line adds to the list of n. */
  function Partners(l: Line, n: Ip): seq<Ip> {
    (if l.a == n then [l.b] else []) + (if l.b == n then [l.a] else [])
  }

  function AllPartners(lines: seq<Line>, n: Ip): seq<Ip> {
    if lines == [] then [] else Partners(lines[0], n) + AllPartners(lines[1..], n)
  }

  lemma {:induction false} AllPartnersAppend(lines: seq<Line>, l: Line, n: Ip)
    ensures AllPartners(lines + [l], n) == AllPartners(lines, n) + Partners(l, n)
  {
    if lines == [] {
      assert [] + [l] == [l] && [l][1..] == [];
    } else {
      assert (lines + [l])[1..] == lines[1..] + [l];
      AllPartnersAppend(lines[1..], l, n);
    }
  }

  /** A node's links stand in the order of the file's lines. */
  lemma {:induction false} LinksInFileOrder(lines: seq<Line>, n: Ip)
    ensures n in LinksOf(lines) ==> LinksOf(lines)[n] == AllPartners(lines, n)
    ensures n !in LinksOf(lines) ==> AllPartners(lines, n) == []
    decreases |lines|
  {
    if lines != [] {
      var p, x := lines[..|lines| - 1], lines[|lines| - 1];
      assert lines == p + [x];
      LinksInFileOrder(p, n);
      AllPartnersAppend(p, x, n);
    }
  }

  predicate Joins(l: Line, u: Ip, v: Ip) {
    (l.a == u && l.b == v) || (l.a == v && l.b == u)
  }

  ghost predicate Joined(lines: seq<Line>, u: Ip, v: Ip) {
    exists l | l in lines :: Joins(l, u, v)
  }

  lemma AddLineEdge(links: Adjacency, l: Line, u: Ip, v: Ip)
    ensures var r := AddLine(links, l);
            && r.Keys == links.Keys + {l.a, l.b}
            && (Edge(r, u, v) <==> Edge(links, u, v) || Joins(l, u, v))
  {
    var l1 := Ensure(Ensure(links, l.a), l.b);
    InAppended(l1[l.a], l.b);
    InAppended(l1[l.a := l1[l.a] + [l.b]][l.b], l.a);
  }

  /** The dictionary holds exactly the links of the file. */
  lemma {:induction false} LinksAreJoined(lines: seq<Line>, u: Ip, v: Ip)
    ensures Edge(LinksOf(lines), u, v) <==> Joined(lines, u, v)
    ensures u in LinksOf(lines) <==> exists l | l in lines :: l.a == u || l.b == u
    decreases |lines|
  {
    if lines != [] {
      var p, x := lines[..|lines| - 1], lines[|lines| - 1];
      assert forall l :: l in lines <==> l in p || l == x;
      LinksAreJoined(p, u, v);
      AddLineEdge(LinksOf(p), x, u, v);
    }
  }

  /** Links are symmetric, and every linked node has an entry. */
  lemma LinksAreSymmetric(lines: seq<Line>)
    ensures Symmetric(LinksOf(lines)) && Closed(LinksOf(lines))
  {
    forall u, v | Edge(LinksOf(lines), u, v) ensures Edge(LinksOf(lines), v, u) {
      LinksAreJoined(lines, u, v);
      LinksAreJoined(lines, v, u);
      var l :| l in lines && Joins(l, u, v);
      assert Joins(l, v, u);
    }
  }

  /** No line links a node to itself, and no two lines link the same pair. */
  ghost predicate SimpleFile(lines: seq<Line>) {
    && (forall i | 0 <= i < |lines| :: lines[i].a != lines[i].b)
    && (forall i, j | 0 <= i < j < |lines| :: !Joins(lines[i], lines[j].a, lines[j].b))
  }

  ghost predicate SimpleLinks(links: Adjacency) {
    NoSelfLoops(links) && forall n | n in links :: NoDuplicates(links[n])
  }

  lemma AppendKeepsDistinct<T>(s: seq<T>, x: T)
    ensures NoDuplicates(s + [x]) <==> NoDuplicates(s) && x !in s
  {
    var r := s + [x];
    assert forall i | 0 <= i < |s| :: r[i] == s[i];
    if NoDuplicates(r) {
      forall i, j | 0 <= i < j < |s| ensures s[i] != s[j] { assert r[i] != r[j]; }
      forall i | 0 <= i < |s| ensures s[i] != x { assert r[i] != r[|s|]; }
    }
  }

  lemma AddLineSimple(links: Adjacency, l: Line)
    requires Symmetric(links)
    ensures SimpleLinks(AddLine(links, l)) <==> SimpleLinks(links) && l.a != l.b && !Edge(links, l.a, l.b)
  {
    var l1 := Ensure(Ensure(links, l.a), l.b);
    var r := AddLine(links, l);
    AppendKeepsDistinct(l1[l.a], l.b);
    AppendKeepsDistinct(l1[l.b], l.a);
    InAppended(l1[l.a], l.b);
    if l.a == l.b {
      assert Edge(r, l.a, l.a) by { AddLineEdge(links, l, l.a, l.a); }
    } else {
      assert r[l.a] == l1[l.a] + [l.b] && r[l.b] == l1[l.b] + [l.a];
      InAppended(l1[l.b], l.a);
      assert Edge(links, l.b, l.a) ==> Edge(links, l.a, l.b);
      assert forall n | n in links && n != l.a && n != l.b :: r[n] == links[n];
      assert forall n | n in links :: n in r && l1[n] == links[n];
      if SimpleLinks(r) {
        assert forall n | n in links :: NoDuplicates(r[n]) && n !in r[n];
      }
    }
  }

  /** The links are free of loops and repetitions exactly when the file is. */
  lemma {:induction false} SimpleFileSimpleLinks(lines: seq<Line>)
    ensures SimpleLinks(LinksOf(lines)) <==> SimpleFile(lines)
    decreases |lines|
  {
    hide SimpleLinks, SimpleFile, AddLine, Joined;
    if lines != [] {
      var p, x := lines[..|lines| - 1], lines[|lines| - 1];
      SimpleFileSimpleLinks(p);
      LinksAreSymmetric(p);
      AddLineSimple(LinksOf(p), x);
      LinksAreJoined(p, x.a, x.b);
      OneMoreLine(p, x);
      assert lines == p + [x];
    } else {
      NoLines();
    }
  }

  lemma NoLines()
    ensures SimpleFile([]) && SimpleLinks(LinksOf([]))
  {
  }

  lemma OneMoreLine(p: seq<Line>, x: Line)
    ensures SimpleFile(p + [x]) <==> SimpleFile(p) && x.a != x.b && !Joined(p, x.a, x.b)
  {
    var lines := p + [x];
    assert forall i | 0 <= i < |p| :: lines[i] == p[i] && p[i] in p;
    if SimpleFile(lines) {
      assert lines[|p|] == x;
      forall i, j | 0 <= i < j < |p| ensures !Joins(p[i], p[j].a, p[j].b) {
        assert lines[i] == p[i] && lines[j] == p[j];
      }
      forall l | l in p ensures !Joins(l, x.a, x.b) {
        var i :| 0 <= i < |p| && p[i] == l;
        assert !Joins(lines[i], lines[|p|].a, lines[|p|].b);
      }
      assert forall i | 0 <= i < |p| :: p[i].a != p[i].b;
    } else if SimpleFile(p) && x.a != x.b && !Joined(p, x.a, x.b) {
      forall i, j | 0 <= i < j < |lines| ensures !Joins(lines[i], lines[j].a, lines[j].b) {
        if j < |p| {
          assert !Joins(p[i], p[j].a, p[j].b);
        } else {
          assert p[i] in p && lines[j] == x;
        }
      }
    }
  }

  // ---- One round of announcements ----

  /** Appends the neighbours that are neither visited nor waiting. */
  function AppendNew(ns: seq<Ip>, visited: set<Ip>, toVisit: seq<Ip>): seq<Ip>
    decreases |ns|
  {
    if ns == [] then toVisit else
    var t, v := AppendNew(ns[..|ns| - 1], visited, toVisit), ns[|ns| - 1];
    if v in visited || v in t then t else t + [v]
  }

  /** The new nodes come behind those waiting, in the order in which the list first names them. */
  lemma {:induction false} AppendNewInOrder(ns: seq<Ip>, visited: set<Ip>, toVisit: seq<Ip>)
    ensures var t := AppendNew(ns, visited, toVisit);
            && toVisit <= t
            && (forall v | v in t[|toVisit|..] :: v in ns && v !in visited && v !in toVisit)
            && (forall v | v in ns :: v in visited || v in t)
            && (forall a, b | |toVisit| <= a < b < |t| :: AppearsBefore(ns, t[a], t[b]))
    decreases |ns|
  {
    if ns != [] {
      var rest, v := ns[..|ns| - 1], ns[|ns| - 1];
      assert ns == rest + [v];
      AppendNewInOrder(rest, visited, toVisit);
      var before, t := AppendNew(rest, visited, toVisit), AppendNew(ns, visited, toVisit);
      assert forall a | |toVisit| <= a < |before| :: before[a] == before[|toVisit|..][a - |toVisit|];
      forall a, b | |toVisit| <= a < b < |t| ensures AppearsBefore(ns, t[a], t[b]) {
        if b < |before| {
          var k :| 0 <= k < |rest| && rest[k] == t[a] && t[b] !in rest[..k + 1];
          assert ns[k] == rest[k] && ns[..k + 1] == rest[..k + 1];
        } else {
          assert t[a] in before[|toVisit|..];
          var k :| 0 <= k < |rest| && rest[k] == t[a];
          assert ns[k] == rest[k] && ns[..k + 1] == rest[..k + 1];
          assert v !in before && forall x | x in rest :: x in visited || x in before;
        }
      }
    }
  }

  function Met(visited: set<Ip>, toVisit: seq<Ip>): set<Ip> {
    visited + Elements(toVisit)
  }

  ghost predicate Crawlable(links: Adjacency, visited: set<Ip>, toVisit: seq<Ip>) {
    Closed(links) && Met(visited, toVisit) <= links.Keys
  }

  ghost function ToDo(links: Adjacency, visited: set<Ip>, toVisit: seq<Ip>): nat {
    |links.Keys - Met(visited, toVisit)| + |toVisit|
  }

  lemma {:induction false} AppendNewBudget(links: Adjacency, ns: seq<Ip>, visited: set<Ip>, toVisit: seq<Ip>)
    requires Crawlable(links, visited, toVisit) && forall v | v in ns :: v in links
    ensures var t := AppendNew(ns, visited, toVisit);
            Crawlable(links, visited, t) && ToDo(links, visited, t) == ToDo(links, visited, toVisit)
    decreases |ns|
  {
    if ns != [] {
      var v := ns[|ns| - 1];
      AppendNewBudget(links, ns[..|ns| - 1], visited, toVisit);
      var t := AppendNew(ns[..|ns| - 1], visited, toVisit);
      if !(v in visited || v in t) {
        assert Met(visited, t + [v]) == Met(visited, t) + {v};
        assert links.Keys - Met(visited, t + [v]) == links.Keys - Met(visited, t) - {v};
      }
    }
  }

  lemma CrawlStep(links: Adjacency, visited: set<Ip>, toVisit: seq<Ip>)
    requires Crawlable(links, visited, toVisit) && toVisit != []
    ensures toVisit[0] in links
    ensures var v, t := visited + {toVisit[0]}, AppendNew(links[toVisit[0]], visited + {toVisit[0]}, toVisit[1..]);
            Crawlable(links, v, t) && ToDo(links, v, t) < ToDo(links, visited, toVisit)
  {
    var u := toVisit[0];
    assert toVisit == [u] + toVisit[1..];
    assert Met(visited + {u}, toVisit[1..]) == Met(visited, toVisit);
    assert forall v | v in links[u] :: Edge(links, u, v);
    AppendNewBudget(links, links[u], visited + {u}, toVisit[1..]);
  }

  /** The nodes in the order in which they are processed. */
  ghost function Crawl(links: Adjacency, visited: set<Ip>, toVisit: seq<Ip>): seq<Ip>
    requires Crawlable(links, visited, toVisit)
    decreases ToDo(links, visited, toVisit)
  {
    if toVisit == [] then [] else
    var u := toVisit[0];
    CrawlStep(links, visited, toVisit);
    [u] + Crawl(links, visited + {u}, AppendNew(links[u], visited + {u}, toVisit[1..]))
  }

  ghost function Order(links: Adjacency, sink: Ip): seq<Ip>
    requires Closed(links) && sink in links
  {
    assert forall v | v in links[sink] :: Edge(links, sink, v);
    Crawl(links, {sink}, links[sink])
  }

  /** The announcements of a round: the k-th processed node is heard when heard(k). */
  function Announce(links: Adjacency, order: seq<Ip>, round: int, heard: nat -> bool): seq<Lsa>
    requires forall n | n in order :: n in links
    decreases |order|
  {
    if order == [] then [] else
    var n := order[|order| - 1];
    Announce(links, order[..|order| - 1], round, heard) +
    (if heard(|order| - 1) then [Lsa(n, round, links[n])] else [])
  }

  /** One round as heard by the sink; None stands for the KeyError on an unknown sink. */
  method GenerateLsas(links: Adjacency, sink: Ip, round: int, heard: nat -> bool)
    returns (lsas: Option<seq<Lsa>>)
    requires Closed(links)
    ensures lsas.None? <==> sink !in links
    ensures lsas.Some? ==>
              && (forall n | n in Order(links, sink) :: n in links)
              && lsas.value == Announce(links, Order(links, sink), round, heard)
  {
    if sink !in links {
      return None;
    }
    hide Crawlable, Crawl, ToDo, Closed;
    var visited, toVisit, heardLsas := {sink}, links[sink], [];
    ghost var order := Order(links, sink);
    StartsCrawlable(links, sink);
    CrawlIsListed(links, visited, toVisit);
    var k := 0;
    while toVisit != []
      invariant Crawlable(links, visited, toVisit)
      invariant k <= |order| && order[k..] == Crawl(links, visited, toVisit)
      invariant heardLsas == Announce(links, order[..k], round, heard)
      decreases ToDo(links, visited, toVisit)
    {
      CrawlStep(links, visited, toVisit);
      CrawlUnfolds(links, visited, toVisit);
      var current := toVisit[0];
      assert order[k] == order[k..][0] && order[k + 1..] == order[k..][1..];
      AnnounceStep(links, order, k, round, heard);
      toVisit := toVisit[1..];
      visited := visited + {current};
      toVisit := AddUnmet(links[current], visited, toVisit);
      if heard(k) {
        heardLsas := heardLsas + [Lsa(current, round, links[current])];
      }
      k := k + 1;
    }
    CrawlEnds(links, visited);
    assert order[..k] == order;
    return Some(heardLsas);
  }

  lemma StartsCrawlable(links: Adjacency, sink: Ip)
    requires Closed(links) && sink in links
    ensures Crawlable(links, {sink}, links[sink])
    ensures Order(links, sink) == Crawl(links, {sink}, links[sink])
  {
    assert forall v | v in links[sink] :: Edge(links, sink, v);
  }

  lemma CrawlUnfolds(links: Adjacency, visited: set<Ip>, toVisit: seq<Ip>)
    requires Crawlable(links, visited, toVisit) && toVisit != [] && toVisit[0] in links
    ensures var v, t := visited + {toVisit[0]}, AppendNew(links[toVisit[0]], visited + {toVisit[0]}, toVisit[1..]);
            Crawlable(links, v, t) && Crawl(links, visited, toVisit) == [toVisit[0]] + Crawl(links, v, t)
  {
    CrawlStep(links, visited, toVisit);
  }

  lemma CrawlEnds(links: Adjacency, visited: set<Ip>)
    requires Crawlable(links, visited, [])
    ensures Crawl(links, visited, []) == []
  {
  }

  lemma AnnounceStep(links: Adjacency, order: seq<Ip>, k: nat, round: int, heard: nat -> bool)
    requires k < |order| && forall n | n in order :: n in links
    ensures Announce(links, order[..k + 1], round, heard) ==
            Announce(links, order[..k], round, heard) +
            (if heard(k) then [Lsa(order[k], round, links[order[k]])] else [])
  {
    assert order[..k + 1][..k] == order[..k];
  }

  method AddUnmet(ns: seq<Ip>, visited: set<Ip>, toVisit: seq<Ip>) returns (t: seq<Ip>)
    ensures t == AppendNew(ns, visited, toVisit)
  {
    t := toVisit;
    for i := 0 to |ns|
      invariant t == AppendNew(ns[..i], visited, toVisit)
    {
      assert ns[..i + 1][..i] == ns[..i];
      if ns[i] !in visited && ns[i] !in t {
        t := t + [ns[i]];
      }
    }
    assert ns[..|ns|] == ns;
  }

  lemma {:induction false} CrawlIsListed(links: Adjacency, visited: set<Ip>, toVisit: seq<Ip>)
    requires Crawlable(links, visited, toVisit)
    ensures forall n | n in Crawl(links, visited, toVisit) :: n in links
    decreases ToDo(links, visited, toVisit)
  {
    if toVisit != [] {
      var u := toVisit[0];
      CrawlStep(links, visited, toVisit);
      CrawlIsListed(links, visited + {u}, AppendNew(links[u], visited + {u}, toVisit[1..]));
    }
  }

  // ---- Who is processed, and when ----

  /** The walk is at level d: the first p waiting nodes are d hops from the sink, and
      `busy` has been visited but its neighbours are not all met. */
  ghost predicate AtLevel(
    links: Adjacency, sink: Ip, busy: seq<Ip>, visited: set<Ip>, toVisit: seq<Ip>, p: nat, d: nat)
  {
    && Level(links, sink, Met(visited, toVisit), busy + toVisit, d) && Layered(links, sink, toVisit, p, d)
    && NoDuplicates(toVisit) && forall v | v in toVisit :: v !in visited
  }

  lemma AppendOne(
    links: Adjacency, sink: Ip, u: Ip, visited: set<Ip>, t: seq<Ip>, p: nat, d: nat, v: Ip)
    requires AtLevel(links, sink, [u], visited, t, p, d)
    requires AtDistance(links, sink, u, d) && Edge(links, u, v) && v !in Met(visited, t)
    ensures AtLevel(links, sink, [u], visited, t + [v], p, d)
  {
    LevelDiscover(links, sink, Met(visited, t), [u] + t, d, u, v);
    assert [u] + t + [v] == [u] + (t + [v]);
    assert Met(visited, t + [v]) == Met(visited, t) + {v};
    AppendKeepsDistinct(t, v);
    hide Level;
    forall i | p <= i < |t + [v]| ensures AtDistance(links, sink, (t + [v])[i], d + 1) {
    }
  }

  /** Appending the new neighbours of u, a node at distance d that has just been visited. */
  lemma {:induction false} AppendAtLevel(
    links: Adjacency, sink: Ip, u: Ip, ns: seq<Ip>, visited: set<Ip>, toVisit: seq<Ip>, p: nat, d: nat)
    requires AtLevel(links, sink, [u], visited, toVisit, p, d)
    requires AtDistance(links, sink, u, d) && forall v | v in ns :: Edge(links, u, v)
    ensures var t := AppendNew(ns, visited, toVisit);
            && AtLevel(links, sink, [u], visited, t, p, d)
            && (forall v | v in ns || v in Met(visited, toVisit) :: v in Met(visited, t))
    decreases |ns|
  {
    hide AtLevel, AtDistance;
    if ns != [] {
      var rest, v := ns[..|ns| - 1], ns[|ns| - 1];
      assert Edge(links, u, v);
      AppendAtLevel(links, sink, u, rest, visited, toVisit, p, d);
      var t := AppendNew(rest, visited, toVisit);
      if v !in visited && v !in t {
        AppendOne(links, sink, u, visited, t, p, d, v);
      }
      assert forall x | x in ns :: x in rest || x == v;
    }
  }

  /** Every processed node is at least d hops away, and later ones are never nearer. */
  ghost predicate InHopOrder(links: Adjacency, sink: Ip, order: seq<Ip>, d: nat) {
    && (forall i, a: nat | 0 <= i < |order| && AtDistance(links, sink, order[i], a) :: d <= a)
    && (forall i, j, a: nat, b: nat | 0 <= i < j < |order| &&
          AtDistance(links, sink, order[i], a) && AtDistance(links, sink, order[j], b) :: a <= b)
  }

  lemma RaiseWalk(links: Adjacency, sink: Ip, visited: set<Ip>, toVisit: seq<Ip>, d: nat)
    requires AtLevel(links, sink, [], visited, toVisit, 0, d)
    ensures AtLevel(links, sink, [], visited, toVisit, |toVisit|, d + 1)
  {
    assert [] + toVisit == toVisit;
    LevelAdvance(links, sink, Met(visited, toVisit), toVisit, d);
  }

  lemma VisitFirst(links: Adjacency, sink: Ip, visited: set<Ip>, toVisit: seq<Ip>, p: nat, d: nat)
    requires AtLevel(links, sink, [], visited, toVisit, p, d) && p > 0 && toVisit != []
    ensures AtDistance(links, sink, toVisit[0], d) && toVisit[0] !in visited
    ensures AtLevel(links, sink, [toVisit[0]], visited + {toVisit[0]}, toVisit[1..], p - 1, d)
  {
    var u, rest := toVisit[0], toVisit[1..];
    hide Level, AtDistance;
    assert [] + toVisit == [u] + rest;
    assert Met(visited + {u}, rest) == Met(visited, toVisit);
    assert forall i | 0 <= i < |rest| :: rest[i] == toVisit[i + 1];
  }

  lemma FinishFirst(links: Adjacency, sink: Ip, u: Ip, visited: set<Ip>, t: seq<Ip>, p: nat, d: nat)
    requires AtLevel(links, sink, [u], visited, t, p, d)
    requires forall v | Edge(links, u, v) :: v in Met(visited, t)
    ensures AtLevel(links, sink, [], visited, t, p, d)
  {
    assert [] + t == t;
    assert forall x :: x in [u] + t <==> x == u || x in t;
    LevelFinish(links, sink, Met(visited, t), [u] + t, t, d, u);
  }

  /** Processing the first waiting node, at distance d. */
  lemma ProcessFirst(links: Adjacency, sink: Ip, visited: set<Ip>, toVisit: seq<Ip>, p: nat, d: nat)
    requires AtLevel(links, sink, [], visited, toVisit, p, d) && p > 0 && toVisit != [] && toVisit[0] in links
    ensures AtDistance(links, sink, toVisit[0], d) && toVisit[0] !in visited
    ensures var u := toVisit[0];
            AtLevel(links, sink, [], visited + {u}, AppendNew(links[u], visited + {u}, toVisit[1..]), p - 1, d)
  {
    hide AtLevel, AtDistance, Met;
    var u, rest := toVisit[0], toVisit[1..];
    VisitFirst(links, sink, visited, toVisit, p, d);
    assert forall v | v in links[u] :: Edge(links, u, v);
    AppendAtLevel(links, sink, u, links[u], visited + {u}, rest, p - 1, d);
    FinishFirst(links, sink, u, visited + {u}, AppendNew(links[u], visited + {u}, rest), p - 1, d);
  }

  lemma InHopOrderCons(links: Adjacency, sink: Ip, u: Ip, rest: seq<Ip>, d: nat)
    requires AtDistance(links, sink, u, d) && InHopOrder(links, sink, rest, d)
    ensures InHopOrder(links, sink, [u] + rest, d) && Reachable(links, sink, u)
  {
    assert Walk(links, sink, u, d);
    var r := [u] + rest;
    forall a: nat | AtDistance(links, sink, u, a) ensures a == d {
      DistanceIsUnique(links, sink, u, a, d);
    }
    assert forall i | 0 < i < |r| :: r[i] == rest[i - 1];
  }

  lemma NothingWaiting(links: Adjacency, sink: Ip, visited: set<Ip>, p: nat, d: nat)
    requires AtLevel(links, sink, [], visited, [], p, d)
    ensures InHopOrder(links, sink, [], d)
    ensures forall v :: v in visited <==> Reachable(links, sink, v)
  {
    var none: seq<Ip> := [];
    assert none + none == none && Met(visited, none) == visited;
    SeenIsReachable(links, sink, visited, d);
  }

  lemma LaterIsFarther(links: Adjacency, sink: Ip, order: seq<Ip>, d: nat)
    requires InHopOrder(links, sink, order, d + 1)
    ensures InHopOrder(links, sink, order, d)
  {
  }

  lemma {:induction false} CrawlOrder(
    links: Adjacency, sink: Ip, visited: set<Ip>, toVisit: seq<Ip>, p: nat, d: nat)
    requires Crawlable(links, visited, toVisit) && AtLevel(links, sink, [], visited, toVisit, p, d)
    ensures var r := Crawl(links, visited, toVisit);
            && NoDuplicates(r) && InHopOrder(links, sink, r, d)
            && forall v :: v in r <==> Reachable(links, sink, v) && v !in visited
    decreases ToDo(links, visited, toVisit), p == 0
  {
    hide AtLevel, AtDistance, Met, ToDo, Crawlable, InHopOrder, Walk, Crawl;
    if toVisit == [] {
      CrawlEnds(links, visited);
      NothingWaiting(links, sink, visited, p, d);
    } else if p == 0 {
      RaiseWalk(links, sink, visited, toVisit, d);
      CrawlOrder(links, sink, visited, toVisit, |toVisit|, d + 1);
      LaterIsFarther(links, sink, Crawl(links, visited, toVisit), d);
    } else {
      var u := toVisit[0];
      CrawlStep(links, visited, toVisit);
      CrawlUnfolds(links, visited, toVisit);
      ProcessFirst(links, sink, visited, toVisit, p, d);
      var t := AppendNew(links[u], visited + {u}, toVisit[1..]);
      CrawlOrder(links, sink, visited + {u}, t, p - 1, d);
      InHopOrderCons(links, sink, u, Crawl(links, visited + {u}, t), d);
    }
  }

  /** Without loops and repeated links at the sink, every node reachable from the sink except
      the sink is processed exactly once, in order of hop distance. */
  lemma EachReachableNodeOnce(links: Adjacency, sink: Ip)
    requires Closed(links) && sink in links && NoDuplicates(links[sink]) && sink !in links[sink]
    ensures var r := Order(links, sink);
            && NoDuplicates(r) && InHopOrder(links, sink, r, 1)
            && forall v :: v in r <==> Reachable(links, sink, v) && v != sink
  {
    var first := links[sink];
    StartsCrawlable(links, sink);
    StartsAtLevel(links, sink);
    RaiseWalk(links, sink, {sink}, first, 0);
    CrawlOrder(links, sink, {sink}, first, |first|, 1);
  }

  lemma StartsAtLevel(links: Adjacency, sink: Ip)
    requires Closed(links) && sink in links && NoDuplicates(links[sink]) && sink !in links[sink]
    ensures AtLevel(links, sink, [], {sink}, links[sink], 0, 0)
  {
    var first := links[sink];
    var seen := Met({sink}, first);
    LevelStart(links, sink);
    forall v | v in first ensures AtDistance(links, sink, v, 1) {
      assert Edge(links, sink, v);
      assert Walk(links, sink, sink, 0);
      assert Walk(links, sink, v, 1);
    }
    assert [] + first == first;
    forall u, v | u in seen && u !in first && Edge(links, u, v) ensures v in seen {
      assert u == sink;
    }
  }

  /** The walk starts with the sink's own list, whatever it holds. */
  lemma {:induction false} CrawlKeepsWaiting(links: Adjacency, visited: set<Ip>, toVisit: seq<Ip>)
    requires Crawlable(links, visited, toVisit)
    ensures toVisit <= Crawl(links, visited, toVisit)
    decreases ToDo(links, visited, toVisit)
  {
    if toVisit != [] {
      var u := toVisit[0];
      CrawlStep(links, visited, toVisit);
      CrawlUnfolds(links, visited, toVisit);
      AppendNewExtends(links[u], visited + {u}, toVisit[1..]);
      CrawlKeepsWaiting(links, visited + {u}, AppendNew(links[u], visited + {u}, toVisit[1..]));
      assert toVisit == [u] + toVisit[1..];
    }
  }

  lemma {:induction false} AppendNewExtends(ns: seq<Ip>, visited: set<Ip>, toVisit: seq<Ip>)
    ensures toVisit <= AppendNew(ns, visited, toVisit)
    decreases |ns|
  {
    if ns != [] {
      AppendNewExtends(ns[..|ns| - 1], visited, toVisit);
    }
  }

  /** Every node is processed at most once, and the sink never, exactly when the sink's own
      list has no repetition and no loop. */
  lemma OnceExactlyWhenSimple(links: Adjacency, sink: Ip)
    requires Closed(links) && sink in links
    ensures NoDuplicates(Order(links, sink)) && sink !in Order(links, sink) <==>
            NoDuplicates(links[sink]) && sink !in links[sink]
  {
    StartsCrawlable(links, sink);
    CrawlKeepsWaiting(links, {sink}, links[sink]);
    var r := Order(links, sink);
    assert forall i | 0 <= i < |links[sink]| :: r[i] == links[sink][i];
    if NoDuplicates(links[sink]) && sink !in links[sink] {
      EachReachableNodeOnce(links, sink);
    }
  }

  // ---- What is heard ----

  ghost predicate HeardInOrder(order: seq<Ip>, heard: nat -> bool, n: Ip) {
    exists k: nat :: HeardAt(order, heard, n, k)
  }

  ghost predicate HeardAt(order: seq<Ip>, heard: nat -> bool, n: Ip, k: nat) {
    k < |order| && order[k] == n && heard(k)
  }

  lemma {:induction false} AnnouncedIsTruthful(
    links: Adjacency, order: seq<Ip>, round: nat, heard: nat -> bool)
    requires forall n | n in order :: n in links
    ensures Truthful(links, Announce(links, order, round, heard))
    ensures forall i | 0 <= i < |Announce(links, order, round, heard)| ::
              Announce(links, order, round, heard)[i].seqNo == round
    decreases |order|
  {
    if order != [] {
      AnnouncedIsTruthful(links, order[..|order| - 1], round, heard);
    }
  }

  /** The part holds one announcement for each of these places of the order, in their order: the node
      there, the round's number, and the node's links. The places are all those that are heard. */
  ghost predicate Announced(part: seq<Lsa>, links: Adjacency, order: seq<Ip>, round: int, heard: nat -> bool,
                            places: seq<nat>)
  {
    && |part| == |places|
    && (forall j | 0 <= j < |places| ::
          && places[j] < |order| && heard(places[j]) && order[places[j]] in links
          && part[j] == Lsa(order[places[j]], round, links[order[places[j]]]))
    && (forall i, j | 0 <= i < j < |places| :: places[i] < places[j])
    && (forall k: nat | k < |order| && heard(k) :: k in places)
  }

  lemma {:induction false} AnnounceIsAnnounced(links: Adjacency, order: seq<Ip>, round: int, heard: nat -> bool)
    returns (places: seq<nat>)
    requires forall n | n in order :: n in links
    ensures Announced(Announce(links, order, round, heard), links, order, round, heard, places)
    decreases |order|
  {
    places := [];
    if order != [] {
      var k := |order| - 1;
      places := AnnounceIsAnnounced(links, order[..k], round, heard);
      places := OnePlaceMore(Announce(links, order[..k], round, heard), links, order, round, heard, places);
    }
  }

  lemma OnePlaceMore(part: seq<Lsa>, links: Adjacency, order: seq<Ip>, round: int, heard: nat -> bool, places: seq<nat>)
    returns (places': seq<nat>)
    requires order != [] && order[|order| - 1] in links
    requires Announced(part, links, order[..|order| - 1], round, heard, places)
    ensures var k := |order| - 1;
            Announced(part + (if heard(k) then [Lsa(order[k], round, links[order[k]])] else []),
                      links, order, round, heard, places')
  {
    var k := |order| - 1;
    assert forall j | 0 <= j < |places| :: places[j] < k && order[..k][places[j]] == order[places[j]];
    if heard(k) {
      places' := places + [k];
      assert places'[|places|] == k;
      assert forall x | x in places :: x in places';
    } else {
      places' := places;
    }
  }

  /** Where no node is processed twice, no sender is heard twice in a round. */
  lemma AnnouncedOnce(part: seq<Lsa>, links: Adjacency, order: seq<Ip>, round: int, heard: nat -> bool,
                      places: seq<nat>, i: nat, j: nat)
    requires Announced(part, links, order, round, heard, places) && NoDuplicates(order) && i < j < |part|
    ensures part[i].sender != part[j].sender
  {
    assert places[i] < places[j];
  }

  /** The senders heard in a round are the processed nodes that were not lost. */
  lemma {:induction false} HeardInRound(
    links: Adjacency, order: seq<Ip>, round: nat, heard: nat -> bool, n: Ip)
    requires forall x | x in order :: x in links
    ensures Heard(Announce(links, order, round, heard), n) <==> HeardInOrder(order, heard, n)
    decreases |order|
  {
    if order != [] {
      var k := |order| - 1;
      var p := order[..k];
      HeardInRound(links, p, round, heard, n);
      AnnounceLast(links, order, round, heard, n);
      if j: nat :| HeardAt(order, heard, n, j) && j < k {
        assert HeardAt(p, heard, n, j);
      }
      if j: nat :| HeardAt(p, heard, n, j) {
        assert HeardAt(order, heard, n, j);
      }
      if order[k] == n && heard(k) {
        assert HeardAt(order, heard, n, k);
      }
    }
  }

  lemma AnnounceLast(links: Adjacency, order: seq<Ip>, round: nat, heard: nat -> bool, n: Ip)
    requires order != [] && forall x | x in order :: x in links
    ensures var k := |order| - 1;
            Heard(Announce(links, order, round, heard), n) <==>
              Heard(Announce(links, order[..k], round, heard), n) || (order[k] == n && heard(k))
  {
    var k := |order| - 1;
    var hp, h := Announce(links, order[..k], round, heard), Announce(links, order, round, heard);
    assert forall i | 0 <= i < |hp| :: h[i] == hp[i];
    if i: nat :| i < |hp| && hp[i].sender == n && hp[i].seqNo >= 0 {
      assert h[i].sender == n;
    }
    if order[k] == n && heard(k) {
      assert h[|hp|].sender == n;
    }
    AnnouncedIsTruthful(links, order[..k], round, heard);
  }
}
