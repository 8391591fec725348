/** The proxy's smoothed throughput estimates, kept per browser address. Divisions and the smoothing
    product are exact; the truncations to unsigned integers are the program's. */
module Throughput {
  import opened Sequences
  import opened Options

  /** Kbps of a chunk of some bytes that took some milliseconds. */
  function Sample(bytes: nat, millis: nat): nat
    requires millis > 0
  {
    var diff := millis as real / 1000.0;
    (bytes as real / diff / 1000.0 * 8.0).Floor
  }

  /** Eight times the bytes by the milliseconds, rounded down. */
  lemma SampleMeans(bytes: nat, millis: nat)
    requires millis > 0
    ensures var t := Sample(bytes, millis); t * millis <= 8 * bytes < (t + 1) * millis
  {
    var m, b := millis as real, bytes as real;
    var x := b / (m / 1000.0) / 1000.0 * 8.0;
    RateIs(b, m);
    var t := Sample(bytes, millis);
    var u := t + 1;
    WholePart(x, m, 8.0 * b, t as real, u as real);
    assert (t * millis) as real == t as real * m;
    assert (u * millis) as real == u as real * m;
  }

  lemma RateIs(b: real, m: real)
    requires m > 0.0
    ensures b / (m / 1000.0) / 1000.0 * 8.0 * m == 8.0 * b
  {
    var y := b / (m / 1000.0);
    assert y * (m / 1000.0) == b;
    assert y / 1000.0 * 8.0 * m == 8.0 * (y * (m / 1000.0));
  }

  lemma WholePart(x: real, m: real, y: real, t: real, u: real)
    requires m > 0.0 && x * m == y && t <= x < u
    ensures t * m <= y < u * m
  {
    TimesOrdered(t, x, m);
    TimesOrdered(x, u, m);
  }

  lemma TimesOrdered(a: real, b: real, m: real)
    requires m > 0.0
    ensures a <= b ==> a * m <= b * m
    ensures a < b ==> a * m < b * m
  {
    assert (b - a) * m == b * m - a * m;
    if a < b {
      assert (b - a) * m > 0.0;
    }
  }

  /** The smoothing product, before truncation. */
  function Blend(alpha: real, sample: real, current: real): real {
    alpha * sample + (1.0 - alpha) * current
  }

  function Smooth(alpha: real, sample: nat, current: nat): (r: nat)
    requires 0.0 < alpha <= 1.0
    ensures sample <= r <= current || current <= r <= sample
  {
    hide Blend;
    BlendBetween(alpha, sample as real, current as real);
    Blend(alpha, sample as real, current as real).Floor
  }

  /** The part alpha of a distance. */
  function Part(alpha: real, d: real): real {
    alpha * d
  }

  lemma BlendBetween(alpha: real, s: real, c: real)
    requires 0.0 < alpha <= 1.0
    ensures s <= Blend(alpha, s, c) <= c || c <= Blend(alpha, s, c) <= s
  {
    hide Blend, Part;
    BlendDistance(alpha, s, c);
    Parts(alpha, s - c);
  }

  lemma BlendDistance(alpha: real, s: real, c: real)
    ensures Blend(alpha, s, c) == c + Part(alpha, s - c) == s - Part(1.0 - alpha, s - c)
  {
    assert alpha * s + (1.0 - alpha) * c == c + alpha * (s - c);
    assert alpha * s + (1.0 - alpha) * c == s - (1.0 - alpha) * (s - c);
  }

  lemma Parts(alpha: real, d: real)
    requires 0.0 < alpha <= 1.0
    ensures 0.0 <= Part(alpha, d) <= d || d <= Part(alpha, d) <= 0.0
  {
    Remainder(alpha, d);
    if d >= 0.0 {
      Product(alpha, d);
      Product(1.0 - alpha, d);
    } else {
      Product(alpha, -d);
      Product(1.0 - alpha, -d);
    }
  }

  lemma Remainder(alpha: real, d: real)
    ensures (1.0 - alpha) * d == d - alpha * d
    ensures alpha * -d == -(alpha * d) && (1.0 - alpha) * -d == -d + alpha * d
  {
  }

  lemma Product(a: real, b: real)
    requires a >= 0.0 && b >= 0.0
    ensures a * b >= 0.0
  {
  }

  /** k further chunks of the same sample. */
  function Repeat(alpha: real, sample: nat, start: nat, k: nat): nat
    requires 0.0 < alpha <= 1.0
  {
    if k == 0 then start else Smooth(alpha, sample, Repeat(alpha, sample, start, k - 1))
  }

  function Power(x: real, k: nat): real {
    if k == 0 then 1.0 else x * Power(x, k - 1)
  }

  function Distance(sample: nat, current: nat): real {
    sample as real - current as real
  }

  /** One step covers the fraction alpha of the distance, less than one unit of it lost by truncation. */
  lemma StepError(alpha: real, sample: nat, current: nat)
    requires 0.0 < alpha <= 1.0
    ensures var e := Distance(sample, current);
            Part(1.0 - alpha, e) <= Distance(sample, Smooth(alpha, sample, current)) < Part(1.0 - alpha, e) + 1.0
  {
    hide Blend, Part;
    BlendDistance(alpha, sample as real, current as real);
  }

  /** How far the estimate may still be after k chunks. */
  function Bound(alpha: real, k: nat, e0: real): real
    requires alpha > 0.0
  {
    Power(1.0 - alpha, k) * e0 + 1.0 / alpha
  }

  /** Rising towards a constant sample: never back, never beyond, and geometrically close up to 1 / alpha. */
  lemma {:induction false} RisingConverges(alpha: real, sample: nat, start: nat, k: nat)
    requires 0.0 < alpha <= 1.0 && start <= sample
    ensures start <= Repeat(alpha, sample, start, k) <= Repeat(alpha, sample, start, k + 1) <= sample
    ensures Distance(sample, Repeat(alpha, sample, start, k)) < Bound(alpha, k, Distance(sample, start))
  {
    hide Distance, Bound, Smooth, Power, Part;
    if k > 0 {
      RisingConverges(alpha, sample, start, k - 1);
      var before := Repeat(alpha, sample, start, k - 1);
      StepError(alpha, sample, before);
      BoundStep(alpha, k, Distance(sample, start), Distance(sample, before),
                Distance(sample, Smooth(alpha, sample, before)));
    } else {
      BoundStart(alpha, Distance(sample, start));
    }
  }

  lemma BoundStart(alpha: real, e: real)
    requires 0.0 < alpha
    ensures e < Bound(alpha, 0, e)
  {
    assert 1.0 / alpha > 0.0;
  }

  lemma BoundStep(alpha: real, k: nat, e0: real, e: real, e': real)
    requires 0.0 < alpha <= 1.0 && k > 0
    requires e < Bound(alpha, k - 1, e0) && e' < Part(1.0 - alpha, e) + 1.0
    ensures e' < Bound(alpha, k, e0)
  {
    var f, p, q := 1.0 - alpha, Power(1.0 - alpha, k - 1), 1.0 / alpha;
    Shrink(f, e, p * e0 + q);
    assert f * (p * e0 + q) == f * p * e0 + (q - alpha * q);
    assert alpha * q == 1.0;
  }

  lemma Shrink(f: real, x: real, y: real)
    requires 0.0 <= f && x < y
    ensures f * x <= f * y
  {
  }

  /** Where the estimate comes to rest: at the sample, or below it by less than 1 / alpha. */
  lemma RestsExactlyWhen(alpha: real, sample: nat, current: nat)
    requires 0.0 < alpha <= 1.0
    ensures Smooth(alpha, sample, current) == current
            <==> current <= sample && Part(alpha, Distance(sample, current)) < 1.0
  {
    hide Blend, Part;
    BlendDistance(alpha, sample as real, current as real);
    SameSign(alpha, Distance(sample, current));
    FloorStays(current, Part(alpha, Distance(sample, current)));
  }

  lemma FloorStays(n: nat, step: real)
    ensures (n as real + step).Floor == n <==> 0.0 <= step < 1.0
  {
  }

  lemma SameSign(alpha: real, x: real)
    requires 0.0 < alpha
    ensures Part(alpha, x) < 0.0 <==> x < 0.0
  {
    if x >= 0.0 {
      assert alpha * x >= 0.0;
    } else {
      assert alpha * -x > 0.0;
    }
  }

  /** Falling, truncation helps: the sample itself is reached, in at most as many chunks as the
      distance. */
  lemma {:induction false} FallingArrives(alpha: real, sample: nat, start: nat, k: nat)
    requires 0.0 < alpha <= 1.0 && sample <= start
    ensures sample <= Repeat(alpha, sample, start, k)
    ensures Repeat(alpha, sample, start, k) <= if k <= start - sample then start - k else sample
  {
    if k > 0 {
      FallingArrives(alpha, sample, start, k - 1);
      RestsExactlyWhen(alpha, sample, Repeat(alpha, sample, start, k - 1));
    }
  }

  datatype Entry = Entry(ip: string, tpt: nat)

  /** needle occurs in hay. */
  predicate Occurs(needle: string, hay: string) {
    exists i | 0 <= i <= |hay| - |needle| :: OccursAt(needle, hay, i)
  }

  predicate OccursAt(needle: string, hay: string, i: nat)
    requires i + |needle| <= |hay|
  {
    hay[i..i + |needle|] == needle
  }

  lemma OccursMeans(needle: string, hay: string)
    ensures Occurs(needle, hay) <==> exists before, behind :: hay == before + needle + behind
  {
    if i :| 0 <= i <= |hay| - |needle| && OccursAt(needle, hay, i) {
      assert hay == hay[..i] + needle + hay[i + |needle|..];
    }
    if before, behind :| hay == before + needle + behind {
      assert hay[|before|..|before| + |needle|] == needle;
      assert OccursAt(needle, hay, |before|);
    }
  }

  /** What a first-match search by substring gives. */
  function Lookup(table: seq<Entry>, ip: string): Option<nat> {
    if table == [] then None
    else if Occurs(ip, table[0].ip) then Some(table[0].tpt)
    else Lookup(table[1..], ip)
  }

  class IpEntry {
    const ip: string
    var tpt: nat
    const next: IpEntry?

    constructor (ip: string, tpt: nat, next: IpEntry?)
      ensures this.ip == ip && this.tpt == tpt && this.next == next
    {
      this.ip, this.tpt, this.next := ip, tpt, next;
    }
  }

  /** s is the chain of entries from head to the null end, none of them twice. */
  ghost predicate Chain(head: IpEntry?, s: seq<IpEntry>) {
    && NoDuplicates(s) && head == At(s, 0, null)
    && forall i | 0 <= i < |s| :: s[i].next == At(s, i + 1, null)
  }

  ghost function Read(s: seq<IpEntry>): (r: seq<Entry>)
    reads s`tpt
    ensures |r| == |s| && forall i | 0 <= i < |s| :: r[i] == Entry(s[i].ip, s[i].tpt)
  {
    if s == [] then [] else [Entry(s[0].ip, s[0].tpt)] + Read(s[1..])
  }

  /** The list of estimates, which only grows at its head. */
  class IpTable {
    var head: IpEntry?
    ghost var nodes: seq<IpEntry>

    ghost predicate Valid()
      reads this`head, this`nodes
    {
      Chain(head, nodes)
    }

    ghost function Members(): set<IpEntry>
      reads this`nodes
    {
      Elements(nodes)
    }

    ghost function Contents(): seq<Entry>
      reads this`nodes, nodes`tpt
    {
      Read(nodes)
    }

    constructor ()
      ensures Valid() && Contents() == [] && Members() == {}
    {
      head, nodes := null, [];
    }

    method Find(ip: string) returns (e: IpEntry?, ghost i: nat)
      requires Valid()
      ensures i <= |nodes| && e == At(nodes, i, null)
      ensures forall j | 0 <= j < i :: !Occurs(ip, nodes[j].ip)
      ensures e != null ==> e in Members() && Occurs(ip, e.ip)
      ensures Lookup(Contents(), ip) == if e == null then None else Some(e.tpt)
    {
      e, i := head, 0;
      while e != null && !Occurs(ip, e.ip)
        invariant i <= |nodes| && e == At(nodes, i, null)
        invariant forall j | 0 <= j < i :: !Occurs(ip, nodes[j].ip)
        decreases |nodes| - i
      {
        e, i := e.next, i + 1;
      }
      AddedAt(Contents(), ip, 0, i);
    }

    method Add(ip: string, tpt: nat)
      requires Valid()
      modifies this, Members()`tpt
      ensures Valid() && Contents() == Added(old(Contents()), ip, tpt)
      ensures fresh(Members() - old(Members()))
      ensures old(Lookup(Contents(), ip)).Some? ==> nodes == old(nodes)
    {
      hide Chain, Read;
      var target, i := Find(ip);
      ghost var before := Contents();
      AddedAt(before, ip, tpt, i);
      ghost var listed := nodes;
      if target == null {
        target := new IpEntry(ip, 0, head);
        InFront(target, head, nodes);
        head, nodes, i := target, [target] + nodes, 0;
      }
      OnePlace(head, nodes, i);
      target.tpt := tpt;
      ghost var after := Contents();
      forall j | 0 <= j < |nodes|
        ensures after[j] == if j == i then Entry(nodes[i].ip, tpt) else before[if nodes == listed then j else j - 1]
      {
      }
    }

    /** A finished chunk: smooth the sample into the address's estimate, which starts from 0. */
    method Estimate(ip: string, bytes: nat, millis: nat, alpha: real) returns (current: nat)
      requires Valid() && millis > 0 && 0.0 < alpha <= 1.0
      modifies this, Members()`tpt
      ensures Valid() && Contents() == Estimated(old(Contents()), ip, Sample(bytes, millis), alpha)
      ensures Some(current) == Lookup(Contents(), ip)
      ensures fresh(Members() - old(Members()))
    {
      hide Chain, Read, Occurs, Smooth, Sample, Added;
      var sample := Sample(bytes, millis);
      AddedIsFound(Contents(), ip, 0);
      var e, i := Find(ip);
      if e == null {
        Add(ip, 0);
      }
      e, i := Find(ip);
      current := Smooth(alpha, sample, e.tpt);
      AddedIsFound(Contents(), ip, current);
      Add(ip, current);
    }
  }

  lemma OnePlace(head: IpEntry?, s: seq<IpEntry>, i: nat)
    requires Chain(head, s) && i < |s|
    ensures forall j | 0 <= j < |s| && j != i :: s[j] != s[i]
  {
  }

  lemma InFront(e: IpEntry, head: IpEntry?, s: seq<IpEntry>)
    requires Chain(head, s) && e.next == head && e !in s
    ensures Chain(e, [e] + s)
  {
    var s' := [e] + s;
    forall i | 0 <= i < |s'|
      ensures s'[i].next == At(s', i + 1, null)
    {
      assert i > 0 ==> s'[i] == s[i - 1];
    }
  }

  /** The first match is overwritten, else a new entry goes in front. */
  function Added(table: seq<Entry>, ip: string, tpt: nat): seq<Entry> {
    if Lookup(table, ip) == None then [Entry(ip, tpt)] + table else Overwritten(table, ip, tpt)
  }

  function Overwritten(table: seq<Entry>, ip: string, tpt: nat): seq<Entry> {
    if table == [] then []
    else if Occurs(ip, table[0].ip) then [table[0].(tpt := tpt)] + table[1..]
    else [table[0]] + Overwritten(table[1..], ip, tpt)
  }

  lemma {:induction false} AddedAt(table: seq<Entry>, ip: string, tpt: nat, i: nat)
    requires i <= |table| && forall j | 0 <= j < i :: !Occurs(ip, table[j].ip)
    requires i < |table| ==> Occurs(ip, table[i].ip)
    ensures i < |table| ==> Overwritten(table, ip, tpt) == table[i := table[i].(tpt := tpt)]
    ensures Lookup(table, ip) == if i < |table| then Some(table[i].tpt) else None
  {
    hide Occurs;
    if table != [] && i > 0 {
      var rest := table[1..];
      assert forall j | 0 <= j < i - 1 :: rest[j] == table[j + 1];
      AddedAt(rest, ip, tpt, i - 1);
      assert !Occurs(ip, table[0].ip);
      if i < |table| {
        var e := table[i].(tpt := tpt);
        assert [table[0]] + rest[i - 1 := e] == table[i := e];
      }
    } else if table != [] {
      var e := table[0].(tpt := tpt);
      assert [e] + table[1..] == table[0 := e];
    }
  }

  function Estimated(table: seq<Entry>, ip: string, sample: nat, alpha: real): seq<Entry>
    requires 0.0 < alpha <= 1.0
  {
    var start := if Lookup(table, ip) == None then Added(table, ip, 0) else table;
    AddedIsFound(table, ip, 0);
    Added(start, ip, Smooth(alpha, sample, Lookup(start, ip).value))
  }

  lemma OccursInItself(s: string)
    ensures Occurs(s, s)
  {
    assert OccursAt(s, s, 0);
  }

  lemma {:induction false} AddedIsFound(table: seq<Entry>, ip: string, tpt: nat)
    ensures Lookup(Added(table, ip, tpt), ip) == Some(tpt)
  {
    OccursInItself(ip);
    if Lookup(table, ip) != None {
      OverwrittenIsFound(table, ip, tpt);
    }
  }

  lemma {:induction false} OverwrittenIsFound(table: seq<Entry>, ip: string, tpt: nat)
    requires Lookup(table, ip) != None
    ensures Lookup(Overwritten(table, ip, tpt), ip) == Some(tpt)
  {
    if !Occurs(ip, table[0].ip) {
      OverwrittenIsFound(table[1..], ip, tpt);
    }
  }

  /** No address of the set occurs within another one. */
  predicate NoneWithin(ips: set<string>) {
    forall a, b | a in ips && b in ips && Occurs(a, b) :: a == b
  }

  predicate KeyedBy(table: seq<Entry>, ips: set<string>) {
    forall e | e in table :: e.ip in ips
  }

  /** One finished chunk of some browser. */
  datatype Chunk = Chunk(ip: string, sample: nat)

  /** The table after a run of chunks. */
  function After(run: seq<Chunk>, alpha: real): seq<Entry>
    requires 0.0 < alpha <= 1.0
  {
    if run == [] then [] else
    var last := run[|run| - 1];
    Estimated(After(run[..|run| - 1], alpha), last.ip, last.sample, alpha)
  }

  /** One browser's own samples folded from 0; None before its first chunk. */
  function Own(run: seq<Chunk>, ip: string, alpha: real): Option<nat>
    requires 0.0 < alpha <= 1.0
  {
    if run == [] then None else
    var before, last := Own(run[..|run| - 1], ip, alpha), run[|run| - 1];
    if last.ip != ip then before
    else Some(Smooth(alpha, last.sample, if before == None then 0 else before.value))
  }

  /** While no address occurs within another, browsers do not disturb each other's estimates. */
  lemma {:induction false} EstimatesAreSeparate(run: seq<Chunk>, ips: set<string>, ip: string, alpha: real)
    requires 0.0 < alpha <= 1.0 && NoneWithin(ips) && ip in ips
    requires forall c | c in run :: c.ip in ips
    ensures KeyedBy(After(run, alpha), ips)
    ensures Lookup(After(run, alpha), ip) == Own(run, ip, alpha)
  {
    if run != [] {
      var init, last := run[..|run| - 1], run[|run| - 1];
      EstimatesAreSeparate(init, ips, ip, alpha);
      EstimateTouchesOne(After(init, alpha), last.ip, ip, last.sample, ips, alpha);
    }
  }

  lemma EstimateTouchesOne(table: seq<Entry>, ip: string, other: string, sample: nat, ips: set<string>, alpha: real)
    requires 0.0 < alpha <= 1.0 && NoneWithin(ips) && ip in ips && other in ips && KeyedBy(table, ips)
    ensures var t := Estimated(table, ip, sample, alpha);
            && KeyedBy(t, ips)
            && Lookup(t, other) == if other != ip then Lookup(table, other)
               else var was := Lookup(table, ip);
                    Some(Smooth(alpha, sample, if was == None then 0 else was.value))
  {
    var start := if Lookup(table, ip) == None then Added(table, ip, 0) else table;
    AddTouchesOne(table, ip, other, 0, ips);
    AddedIsFound(table, ip, 0);
    var tpt := Smooth(alpha, sample, Lookup(start, ip).value);
    AddTouchesOne(start, ip, other, tpt, ips);
    AddedIsFound(start, ip, tpt);
  }

  lemma {:induction false} AddTouchesOne(table: seq<Entry>, ip: string, other: string, tpt: nat, ips: set<string>)
    requires NoneWithin(ips) && ip in ips && other in ips && KeyedBy(table, ips)
    ensures KeyedBy(Added(table, ip, tpt), ips) && KeyedBy(Overwritten(table, ip, tpt), ips)
    ensures other != ip ==> Lookup(Added(table, ip, tpt), other) == Lookup(table, other)
    ensures other != ip ==> Lookup(Overwritten(table, ip, tpt), other) == Lookup(table, other)
  {
    if table != [] {
      AddTouchesOne(table[1..], ip, other, tpt, ips);
    }
  }

  /** A new entry is taken for every address that occurs within its own, and only for those; the
      next chunk of such an address overwrites it. */
  lemma SubstringsCollide(table: seq<Entry>, ip: string, other: string, tpt: nat, again: nat)
    requires Lookup(table, ip) == Lookup(table, other) == None
    ensures Lookup(Added(table, other, tpt), ip) == if Occurs(ip, other) then Some(tpt) else None
    ensures Lookup(Added(Added(table, other, tpt), ip, again), other)
            == Some(if Occurs(ip, other) || Occurs(other, ip) then again else tpt)
  {
    OccursInItself(other);
    var first := Added(table, other, tpt);
    assert first[1..] == table;
    if !Occurs(ip, other) {
      var second := Added(first, ip, again);
      assert second[1..] == first;
    }
  }

  ghost predicate RunOver(run: seq<Chunk>, ips: set<string>) {
    forall c | c in run :: c.ip in ips
  }

  /** Whatever chunks these addresses fetch, each one's estimate is the fold of its own samples. */
  ghost predicate Separate(ips: set<string>, alpha: real)
    requires 0.0 < alpha <= 1.0
  {
    forall run, ip | RunOver(run, ips) && ip in ips :: Lookup(After(run, alpha), ip) == Own(run, ip, alpha)
  }

  /** Estimates are kept apart over every run exactly when no address occurs within another one. */
  lemma SeparateExactlyWhen(ips: set<string>, alpha: real)
    requires 0.0 < alpha <= 1.0
    ensures Separate(ips, alpha) <==> NoneWithin(ips)
  {
    if NoneWithin(ips) {
      forall run, ip | RunOver(run, ips) && ip in ips
        ensures Lookup(After(run, alpha), ip) == Own(run, ip, alpha)
      {
        EstimatesAreSeparate(run, ips, ip, alpha);
      }
    } else {
      var a, b :| a in ips && b in ips && Occurs(a, b) && a != b;
      OneChunkCollides(a, b, 0, alpha);
      assert RunOver([Chunk(b, 0)], ips);
    }
  }

  /** After one chunk of b, an address that occurs within it has an estimate without a chunk. */
  lemma OneChunkCollides(a: string, b: string, sample: nat, alpha: real)
    requires 0.0 < alpha <= 1.0 && Occurs(a, b) && a != b
    ensures Lookup(After([Chunk(b, sample)], alpha), a).Some? && Own([Chunk(b, sample)], a, alpha) == None
  {
    var run := [Chunk(b, sample)];
    assert run[..0] == [];
    OccursInItself(b);
    assert After([], alpha) == [] && Own([], a, alpha) == None;
  }
}
