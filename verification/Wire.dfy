/** Names and messages of section 4.1 of RFC 1035 as byte sequences, independent of the
    two programs that write and read them. */
module Wire {
  type Byte = x: int | 0 <= x < 256 witness 0
  type Bytes = seq<Byte>

  const DOT: Byte := 46

  /** The length of the first label of a dotted name. */
  function FirstDot(name: Bytes): (i: nat)
    ensures i <= |name| && (i < |name| ==> name[i] == DOT)
    ensures forall j | 0 <= j < i :: name[j] != DOT
  {
    if name == [] || name[0] == DOT then 0 else 1 + FirstDot(name[1..])
  }

  predicate NoDots(s: Bytes) {
    forall j | 0 <= j < |s| :: s[j] != DOT
  }

  predicate NoZeros(s: Bytes) {
    forall j | 0 <= j < |s| :: s[j] != 0
  }

  /** The C string at the start of s: it stops at a zero. */
  function UntilZero(s: Bytes): (r: Bytes)
    ensures |r| <= |s|
  {
    if s == [] || s[0] == 0 then [] else [s[0]] + UntilZero(s[1..])
  }

  lemma {:induction false} UntilZeroKeeps(s: Bytes)
    requires NoZeros(s)
    ensures UntilZero(s) == s
  {
    if s != [] {
      UntilZeroKeeps(s[1..]);
    }
  }

  /** What stands in front of the first zero, or everything. */
  lemma {:induction false} UntilZeroMeans(s: Bytes)
    ensures UntilZero(s) <= s && NoZeros(UntilZero(s))
    ensures |UntilZero(s)| < |s| ==> s[|UntilZero(s)|] == 0
  {
    if s != [] && s[0] != 0 {
      UntilZeroMeans(s[1..]);
      assert s == [s[0]] + s[1..];
    }
  }

  /** A hostname is its first label, followed by nothing or by a dot and a hostname. */
  lemma HostnameParts(name: Bytes)
    requires Hostname(name)
    ensures var n := FirstDot(name);
            && 1 <= n <= 63 && NoZeros(name[..n]) && NoDots(name[..n])
            && (n < |name| ==> Hostname(name[n + 1..]) && name == name[..n] + [DOT] + name[n + 1..])
            && (n == |name| ==> name[..n] == name)
  {
    hide FirstDot, NoZeros, NoDots;
    FirstLabel(name);
  }

  lemma Cut(s: Bytes, n: nat)
    requires n < |s|
    ensures s == s[..n] + [s[n]] + s[n + 1..]
  {
  }

  lemma FirstLabel(name: Bytes)
    ensures var n := FirstDot(name);
            && NoDots(name[..n])
            && (n < |name| ==> name == name[..n] + [DOT] + name[n + 1..])
            && (n == |name| ==> name[..n] == name)
  {
    hide FirstDot;
    var n := FirstDot(name);
    if n < |name| {
      Cut(name, n);
    }
  }

  lemma FirstDotIs(name: Bytes, i: nat)
    requires i <= |name| && (i < |name| ==> name[i] == DOT)
    requires forall j | 0 <= j < i :: name[j] != DOT
    ensures FirstDot(name) == i
  {
  }

  /** Every label after its length, and a zero at the end. A length byte keeps the low
      eight bits only. */
  function Encode(name: Bytes): (r: Bytes)
    ensures |r| == |name| + 2
    decreases |name|
  {
    var i := FirstDot(name);
    [i % 256] + name[..i] + (if i < |name| then Encode(name[i + 1..]) else [0])
  }

  /** The encoded name after its first length byte: the first label, and what follows. */
  function Rest(name: Bytes): Bytes {
    name[..FirstDot(name)] + AfterLabel(name)
  }

  function AfterLabel(name: Bytes): Bytes {
    if FirstDot(name) < |name| then Encode(name[FirstDot(name) + 1..]) else [0]
  }

  /** A dotted name of non-empty labels of at most 63 octets, none of them zero. */
  predicate Hostname(name: Bytes)
    decreases |name|
  {
    var i := FirstDot(name);
    1 <= i <= 63 && NoZeros(name[..i]) && (i < |name| ==> Hostname(name[i + 1..]))
  }

  function U16(x: int): Bytes
    requires 0 <= x < 65536
  {
    [x / 256, x % 256]
  }

  function FromU16(b: Bytes, at: nat): int
    requires at + 1 < |b|
  {
    (b[at] as int) * 256 + b[at + 1] as int
  }

  /** Identifier, flag bytes, question and answer counts; the other counts are zero. */
  function Header(id: int, flags0: Byte, flags1: Byte, questions: int, answers: int): (r: Bytes)
    requires 0 <= id < 65536 && 0 <= questions < 65536 && 0 <= answers < 65536
    ensures |r| == 12
  {
    U16(id) + [flags0, flags1] + U16(questions) + U16(answers) + [0, 0, 0, 0]
  }

  /** Name, type A, class IN. */
  function Question(name: Bytes): (r: Bytes)
    ensures |r| == |name| + 6
  {
    Encode(name) + [0, 1, 0, 1]
  }

  /** Name, type A, class IN, lifetime 0, four bytes of address. */
  function Answer(name: Bytes, ip: Bytes): (r: Bytes)
    requires |ip| == 4
    ensures |r| == |name| + 16
  {
    Encode(name) + [0, 1, 0, 1, 0, 0, 0, 0, 0, 4] + ip
  }

  function Reply(name: Bytes, ip: Bytes, id: int): (r: Bytes)
    requires |ip| == 4 && 0 <= id < 65536
    ensures |r| == 12 + |name| + 6 + |name| + 16
  {
    Header(id, 132, 0, 1, 1) + Question(name) + Answer(name, ip)
  }

  lemma DropFirst(a: Bytes, b: Bytes)
    ensures (a + b)[|a|..] == b
  {
  }

  /** What is left of four parts after the first one, and after the first two. */
  lemma DropParts(a: Bytes, b: Bytes, c: Bytes, d: Bytes)
    ensures (a + b + c + d)[|a|..] == b + (c + d)
    ensures (a + b + c + d)[|a| + |b|..] == c + d
  {
    Regroup(a, b, c, d);
    DropFirst(a, b + (c + d));
    Associative(a + b, c, d);
    DropFirst(a + b, c + d);
  }

  lemma Associative(a: Bytes, b: Bytes, c: Bytes)
    ensures a + (b + c) == a + b + c
  {
  }

  lemma Regroup(a: Bytes, b: Bytes, c: Bytes, d: Bytes)
    ensures a + b + c + d == a + (b + (c + d))
  {
    Associative(b, c, d);
    Associative(a, b, c + d);
    Associative(a + b, c, d);
  }

  lemma EncodeHead(name: Bytes)
    ensures Encode(name) == [FirstDot(name) % 256] + Rest(name)
  {
    var i := FirstDot(name);
    hide FirstDot;
    Associative([i % 256], name[..i], AfterLabel(name));
  }

  lemma SliceTail(s: Bytes, i: nat)
    requires 1 <= i <= |s|
    ensures s[..i] == [s[0]] + s[1..][..i - 1]
    ensures i < |s| ==> s[i + 1..] == s[1..][i..]
  {
  }

  lemma FirstDotAfterChar(name: Bytes)
    requires name != [] && name[0] != DOT
    ensures FirstDot(name) == FirstDot(name[1..]) + 1
  {
  }

  /** Past a character that is no dot. */
  lemma RestAfterChar(name: Bytes)
    requires name != [] && name[0] != DOT
    ensures FirstDot(name) == FirstDot(name[1..]) + 1 && Rest(name) == [name[0]] + Rest(name[1..])
  {
    hide FirstDot, Encode;
    var i, tail := FirstDot(name), name[1..];
    FirstDotAfterChar(name);
    SliceTail(name, i);
    assert AfterLabel(name) == AfterLabel(tail);
    Associative([name[0]], tail[..i - 1], AfterLabel(tail));
  }

  /** Past a dot. */
  lemma RestAfterDot(name: Bytes)
    requires name != [] && name[0] == DOT
    ensures FirstDot(name) == 0 && Rest(name) == Encode(name[1..])
  {
    assert FirstDot(name) == 0;
    hide FirstDot, Encode;
    assert name[..0] + Encode(name[1..]) == Encode(name[1..]);
  }
}
