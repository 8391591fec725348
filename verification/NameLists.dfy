/** The order in which the list programs keep names. */
module NameLists {
  import opened Sequences
  import opened Graphs

  /** A name goes in front unless the list has it. */
  function PushNew(names: seq<Ip>, ip: Ip): seq<Ip> {
    if ip in names then names else [ip] + names
  }

  function PushAll(names: seq<Ip>, file: seq<Ip>): seq<Ip>
    decreases |file|
  {
    if file == [] then names else PushNew(PushAll(names, file[..|file| - 1]), file[|file| - 1])
  }

  function Reversed<T>(s: seq<T>): (r: seq<T>)
    ensures |r| == |s| && forall i | 0 <= i < |s| :: r[i] == s[|s| - 1 - i]
  {
    seq(|s|, i requires 0 <= i < |s| => s[|s| - 1 - i])
  }

  lemma ReversedCons<T>(x: T, s: seq<T>)
    ensures Reversed([x] + s) == Reversed(s) + [x]
  {
  }

  lemma ReversedElements<T>(s: seq<T>)
    ensures Elements(Reversed(s)) == Elements(s)
  {
    forall x | x in s ensures x in Reversed(s) {
      var i :| 0 <= i < |s| && s[i] == x;
      assert Reversed(s)[|s| - 1 - i] == x;
    }
  }

  /** The server list of a fresh name server: the distinct lines of the server file, in the
      order of their first appearance. */
  lemma {:induction false} ServersInFileOrder(file: seq<Ip>)
    ensures var r := Reversed(PushAll([], file));
            && NoDuplicates(r) && Elements(r) == Elements(file)
            && forall i, j | 0 <= i < j < |r| :: AppearsBefore(file, r[i], r[j])
    decreases |file|
  {
    if file != [] {
      var p, x := file[..|file| - 1], file[|file| - 1];
      ServersInFileOrder(p);
      var before := Reversed(PushAll([], p));
      var r := Reversed(PushAll([], file));
      assert forall y :: y in file <==> y in p || y == x;
      ReversedElements(PushAll([], p));
      assert x in PushAll([], p) <==> x in Elements(p);
      ReversedCons(x, PushAll([], p));
      assert r == if x in p then before else before + [x];
      forall y ensures y in r <==> y in file {
        assert y in Elements(before) <==> y in Elements(p);
      }
      forall i, j | 0 <= i < j < |r| ensures AppearsBefore(file, r[i], r[j]) {
        if j < |before| {
          var k :| 0 <= k < |p| && p[k] == before[i] && before[j] !in p[..k + 1];
          assert file[k] == p[k] && file[..k + 1] == p[..k + 1];
        } else {
          assert r[i] in Elements(before);
          var k :| 0 <= k < |p| && p[k] == r[i];
          assert file[k] == p[k] && file[..k + 1] == p[..k + 1];
        }
      }
    }
  }

  ghost predicate AppearsBefore(file: seq<Ip>, a: Ip, b: Ip) {
    exists k :: 0 <= k < |file| && file[k] == a && b !in file[..k + 1]
  }

  lemma PushAllStep(names: seq<Ip>, file: seq<Ip>, x: Ip)
    ensures PushAll(names, file + [x]) == PushNew(PushAll(names, file), x)
  {
    assert (file + [x])[..|file|] == file;
  }
}
