/** The bitrate ladder of a video: a singly linked list kept sorted by insertion, its copy, and the choice
    of a rate for a measured throughput. */
module Bitrate {
  import opened Sequences
  import opened Options

  class Node {
    var bitrate: int
    var next: Node?

    constructor (bitrate: int)
      ensures this.bitrate == bitrate && next == null
    {
      this.bitrate, next := bitrate, null;
    }
  }

  /** s is the chain of nodes from head to the null end, none of them twice. */
  ghost predicate Chain(head: Node?, s: seq<Node>)
    reads s`next
  {
    && NoDuplicates(s)
    && head == At(s, 0, null)
    && (forall i | 0 <= i < |s| :: s[i].next == At(s, i + 1, null))
  }

  ghost function Rates(s: seq<Node>): (r: seq<int>)
    reads s`bitrate
    ensures |r| == |s| && forall i | 0 <= i < |s| :: r[i] == s[i].bitrate
  {
    if s == [] then [] else [s[0].bitrate] + Rates(s[1..])
  }

  /** Before the first rate that is not smaller. */
  function Inserted(s: seq<int>, x: int): seq<int> {
    if s == [] || s[0] >= x then [x] + s else [s[0]] + Inserted(s[1..], x)
  }

  predicate Sorted(s: seq<int>) {
    forall i, j | 0 <= i < j < |s| :: s[i] <= s[j]
  }

  lemma {:induction false} InsertedAddsOne(s: seq<int>, x: int)
    ensures multiset(Inserted(s, x)) == multiset(s) + multiset{x}
  {
    if s != [] && s[0] < x {
      InsertedAddsOne(s[1..], x);
      assert s == [s[0]] + s[1..];
    }
  }

  lemma {:induction false} InsertedIsSorted(s: seq<int>, x: int)
    requires Sorted(s)
    ensures Sorted(Inserted(s, x))
  {
    hide Sorted;
    if s != [] && s[0] < x {
      var rest := Inserted(s[1..], x);
      assert s == [s[0]] + s[1..];
      SmallestInFront(s[0], s[1..]);
      InsertedIsSorted(s[1..], x);
      InsertedAddsOne(s[1..], x);
      forall y | y in rest
        ensures s[0] <= y
      {
        assert y in multiset(rest);
        assert y == x || y in s[1..];
      }
      SmallestInFront(s[0], rest);
    } else {
      if s != [] {
        assert s == [s[0]] + s[1..];
        SmallestInFront(s[0], s[1..]);
      }
      SmallestInFront(x, s);
    }
  }

  lemma SmallestInFront(x: int, s: seq<int>)
    ensures Sorted([x] + s) <==> Sorted(s) && forall y | y in s :: x <= y
  {
    var t := [x] + s;
    if Sorted(t) {
      forall y | y in s
        ensures x <= y
      {
        var i :| 0 <= i < |s| && s[i] == y;
        assert t[0] <= t[i + 1];
      }
      forall i, j | 0 <= i < j < |s|
        ensures s[i] <= s[j]
      {
        assert t[i + 1] <= t[j + 1];
      }
    } else if Sorted(s) && forall y | y in s :: x <= y {
      forall i, j | 0 <= i < j < |t|
        ensures t[i] <= t[j]
      {
        assert t[j] == s[j - 1] && t[j] in s && (i > 0 ==> t[i] == s[i - 1]);
      }
    }
  }

  /** The list parsed from a manifest's rates, in the order they stand there. */
  function Ladder(rates: seq<int>): seq<int> {
    if rates == [] then [] else Inserted(Ladder(rates[..|rates| - 1]), rates[|rates| - 1])
  }

  lemma {:induction false} LadderIsSorted(rates: seq<int>)
    ensures Sorted(Ladder(rates)) && multiset(Ladder(rates)) == multiset(rates)
  {
    if rates != [] {
      var init, last := rates[..|rates| - 1], rates[|rates| - 1];
      assert rates == init + [last];
      LadderIsSorted(init);
      InsertedIsSorted(Ladder(init), last);
      InsertedAddsOne(Ladder(init), last);
    }
  }

  /** At most two thirds of the throughput, in whole numbers. */
  predicate Fits(rate: int, throughput: nat) {
    3 * rate <= 2 * throughput
  }

  lemma FitsMeans(rate: int, throughput: nat)
    ensures Fits(rate, throughput) <==> rate as real <= throughput as real / 1.5
  {
  }

  /** The last of the leading rates within two thirds of the throughput. */
  function Choice(s: seq<int>, throughput: nat): (r: Option<int>)
    ensures r.None? <==> s == []
  {
    if s == [] then None
    else if |s| > 1 && Fits(s[1], throughput) && Fits(s[0], throughput) then Choice(s[1..], throughput)
    else Some(s[0])
  }

  /** The largest of the rates that fits, or the smallest of all when none does. */
  predicate IsBest(b: int, s: seq<int>, throughput: nat) {
    && b in s
    && if exists x :: x in s && Fits(x, throughput)
       then Fits(b, throughput) && forall x | x in s && Fits(x, throughput) :: x <= b
       else forall x | x in s :: b <= x
  }

  lemma {:induction false} ChoiceIsBest(s: seq<int>, throughput: nat)
    requires s != [] && Sorted(s)
    ensures Choice(s, throughput).Some? && IsBest(Choice(s, throughput).value, s, throughput)
  {
    hide Sorted;
    assert s == [s[0]] + s[1..];
    SmallestInFront(s[0], s[1..]);
    if |s| > 1 {
      assert s[1..] == [s[1]] + s[2..];
      SmallestInFront(s[1], s[2..]);
      if Fits(s[1], throughput) && Fits(s[0], throughput) {
        ChoiceIsBest(s[1..], throughput);
        assert s[1] in s[1..];
      }
    }
  }

  /** More throughput never chooses a lower rate. */
  lemma ChoiceIsMonotone(rates: seq<int>, slow: nat, fast: nat)
    requires rates != [] && slow <= fast
    ensures Choice(Ladder(rates), slow).Some? && Choice(Ladder(rates), fast).Some?
    ensures Choice(Ladder(rates), slow).value <= Choice(Ladder(rates), fast).value
  {
    LadderIsSorted(rates);
    assert rates[0] in multiset(Ladder(rates));
    ChoiceIsBest(Ladder(rates), slow);
    ChoiceIsBest(Ladder(rates), fast);
  }

  lemma {:induction false} InsertedAt(s: seq<int>, x: int, i: nat)
    requires i <= |s| && (forall j | 0 <= j < i :: s[j] < x) && (i < |s| ==> s[i] >= x)
    ensures Inserted(s, x) == s[..i] + [x] + s[i..]
  {
    if i > 0 {
      InsertedAt(s[1..], x, i - 1);
      assert s[..i] == [s[0]] + s[1..][..i - 1] && s[1..][i - 1..] == s[i..];
    } else {
      assert s[..0] == [] && s[0..] == s;
    }
  }

  lemma {:induction false} ChoiceAt(s: seq<int>, throughput: nat, i: nat)
    requires 0 < |s| && i <= |s| && (forall j | 0 <= j < i :: Fits(s[j], throughput))
    requires i < |s| ==> !Fits(s[i], throughput)
    ensures Choice(s, throughput) == Some(s[if i == 0 then 0 else i - 1])
  {
    if i > 1 {
      ChoiceAt(s[1..], throughput, i - 1);
    }
  }

  class BitrateList {
    var head: Node?
    ghost var nodes: seq<Node>

    ghost predicate Valid()
      reads this`head, this`nodes, nodes`next
    {
      Chain(head, nodes)
    }

    ghost function Members(): set<Node>
      reads this
    {
      Elements(nodes)
    }

    constructor ()
      ensures Valid() && nodes == [] && Members() == {}
    {
      head, nodes := null, [];
    }

    method SortedInsert(x: int)
      requires Valid()
      modifies this, Members()`next
      ensures Valid() && Rates(nodes) == Inserted(old(Rates(nodes)), x)
      ensures fresh(Members() - old(Members()))
    {
      hide Chain, NoDuplicates, At, Rates, Inserted;
      ghost var t := nodes;
      var node := new Node(x);
      var pre, pt, i := Scan(x);
      InsertedAt(Rates(t), x, i);
      LinkAt(node, pre, pt, i);
    }

    /** The first node whose rate is not smaller than x, and the node before it. */
    method Scan(x: int) returns (pre: Node?, pt: Node?, ghost i: nat)
      requires Valid()
      ensures i <= |nodes| && pt == At(nodes, i, null) && pre == At(nodes, i - 1, null)
      ensures forall j | 0 <= j < i :: nodes[j].bitrate < x
      ensures i < |nodes| ==> nodes[i].bitrate >= x
    {
      pt, pre, i := head, null, 0;
      while pt != null && pt.bitrate < x
        invariant 0 <= i <= |nodes| && pt == At(nodes, i, null) && pre == At(nodes, i - 1, null)
        invariant forall j | 0 <= j < i :: nodes[j].bitrate < x
        decreases |nodes| - i
      {
        pre, pt, i := pt, pt.next, i + 1;
      }
    }

    /** Puts node between its two neighbours, at position i. */
    method LinkAt(node: Node, pre: Node?, pt: Node?, ghost i: nat)
      requires Valid() && node !in nodes && i <= |nodes|
      requires pt == At(nodes, i, null) && pre == At(nodes, i - 1, null)
      modifies this, Members()`next, node`next
      ensures Valid() && nodes == old(nodes)[..i] + [node] + old(nodes)[i..]
      ensures Members() == old(Members()) + {node}
      ensures Rates(nodes) == old(Rates(nodes))[..i] + [node.bitrate] + old(Rates(nodes))[i..]
    {
      hide Rates, Elements, NoDuplicates;
      ghost var t := nodes;
      OnePlace(t, i - 1);
      node.next := pt;
      if pre == null {
        head := node;
      } else {
        pre.next := node;
      }
      nodes := t[..i] + [node] + t[i..];
      forall j | 0 <= j < |t|
        ensures t[j] != node && t[j].next == (if j == i - 1 then node else At(t, j + 1, null))
      {
      }
      ChainWith(head, t, i, node);
      RatesWith(t, i, node);
      SetWith(t, i, node);
    }

    /** The rate to request; None stands for the null pointer the program follows when the list is
        empty. */
    method Select(throughput: nat) returns (r: Option<int>)
      requires Valid()
      ensures r == Choice(Rates(nodes), throughput)
    {
      var pt: Node?, pre: Node? := head, null;
      ghost var i := 0;
      while pt != null && Fits(pt.bitrate, throughput)
        invariant 0 <= i <= |nodes| && pt == At(nodes, i, null) && pre == At(nodes, i - 1, null)
        invariant forall j | 0 <= j < i :: Fits(nodes[j].bitrate, throughput)
        decreases |nodes| - i
      {
        pre, pt, i := pt, pt.next, i + 1;
      }
      if nodes != [] {
        ChoiceAt(Rates(nodes), throughput, i);
      }
      if pre == null {
        r := if head == null then None else Some(head.bitrate);
      } else {
        r := Some(pre.bitrate);
      }
    }

    /** A list of its own nodes with the same rates. */
    method Duplicate() returns (copy: BitrateList)
      requires Valid()
      ensures fresh(copy) && fresh(copy.Members()) && copy.Valid()
      ensures Rates(copy.nodes) == Rates(nodes)
    {
      hide Chain, NoDuplicates, Rates, Elements;
      copy := new BitrateList();
      var pt, pre: Node? := head, null;
      ghost var i := 0;
      ChainStart(head, nodes);
      while pt != null
        invariant 0 <= i <= |nodes| && pt == At(nodes, i, null) && Valid()
        invariant fresh(copy) && fresh(copy.Members()) && copy.Valid() && |copy.nodes| == i
        invariant pre == At(copy.nodes, i - 1, null)
        invariant Rates(copy.nodes) == Rates(nodes)[..i]
        decreases |nodes| - i
      {
        ChainStep(head, nodes, i);
        var node := new Node(pt.bitrate);
        copy.LinkAt(node, pre, null, i);
        AppendNext(Rates(nodes), i);
        pre, pt, i := node, pt.next, i + 1;
      }
    }
  }

  lemma OnePlace(t: seq<Node>, k: int)
    requires NoDuplicates(t) && k < |t|
    ensures forall j | 0 <= j < |t| && j != k && k >= 0 :: t[j] != t[k]
    ensures k >= 0 ==> t[k] in Elements(t)
  {
  }

  lemma SetWith(t: seq<Node>, i: nat, node: Node)
    requires i <= |t|
    ensures Elements(t[..i] + [node] + t[i..]) == Elements(t) + {node}
  {
    assert t == t[..i] + t[i..];
  }

  lemma {:induction false} RatesOfBoth(s: seq<Node>, t: seq<Node>)
    ensures Rates(s + t) == Rates(s) + Rates(t)
  {
    if s == [] {
      assert s + t == t;
    } else {
      assert (s + t)[1..] == s[1..] + t;
      RatesOfBoth(s[1..], t);
    }
  }

  lemma RatesBetween(front: seq<Node>, node: Node, back: seq<Node>)
    ensures Rates(front + [node] + back) == Rates(front) + [node.bitrate] + Rates(back)
    ensures Rates(front + back) == Rates(front) + Rates(back)
  {
    hide Rates;
    RatesOfBoth(front + [node], back);
    RatesOfBoth(front, [node]);
    RatesOfBoth(front, back);
    assert Rates([node]) == [node.bitrate];
  }

  lemma RatesWith(t: seq<Node>, i: nat, node: Node)
    requires i <= |t|
    ensures Rates(t[..i] + [node] + t[i..]) == Rates(t)[..i] + [node.bitrate] + Rates(t)[i..]
  {
    hide Rates;
    var front, back := t[..i], t[i..];
    RatesBetween(front, node, back);
    assert t == front + back;
    Halves(Rates(front), Rates(back));
  }

  lemma Halves(a: seq<int>, b: seq<int>)
    ensures (a + b)[..|a|] == a && (a + b)[|a|..] == b
  {
  }

  lemma AppendNext(r: seq<int>, i: nat)
    requires i < |r|
    ensures r[..i][..i] + [r[i]] + r[..i][i..] == r[..i + 1]
  {
  }

  /** The list of a manifest's rates, inserted as they are found one after the other. */
  method ParseXml(rates: seq<int>) returns (list: BitrateList)
    ensures fresh(list) && fresh(list.Members()) && list.Valid()
    ensures Rates(list.nodes) == Ladder(rates)
  {
    hide Chain, Rates, Inserted;
    list := new BitrateList();
    var k := 0;
    assert Rates(list.nodes) == [] && rates[..0] == [];
    while k < |rates|
      invariant 0 <= k <= |rates| && fresh(list) && list.Valid() && fresh(list.Members())
      invariant Rates(list.nodes) == Ladder(rates[..k])
    {
      assert rates[..k + 1][..k] == rates[..k];
      list.SortedInsert(rates[k]);
      k := k + 1;
    }
    assert rates[..k] == rates;
  }

  lemma ChainStart(head: Node?, s: seq<Node>)
    requires Chain(head, s)
    ensures head == At(s, 0, null)
  {
  }

  lemma ChainStep(head: Node?, s: seq<Node>, i: nat)
    requires Chain(head, s) && i < |s|
    ensures s[i].next == At(s, i + 1, null)
  {
  }

  /** A node linked in at position i. */
  lemma ChainWith(head: Node?, t: seq<Node>, i: nat, node: Node)
    requires NoDuplicates(t) && i <= |t| && node.next == At(t, i, null)
    requires head == if i == 0 then node else At(t, 0, null)
    requires forall j | 0 <= j < |t| :: t[j] != node && t[j].next == if j == i - 1 then node else At(t, j + 1, null)
    ensures Chain(head, t[..i] + [node] + t[i..])
  {
    var s := t[..i] + [node] + t[i..];
    forall j | 0 <= j < |s|
      ensures s[j].next == At(s, j + 1, null)
    {
      assert s[j] == if j < i then t[j] else if j == i then node else t[j - 1];
    }
  }
}
