/** The Python codec. A result of None stands for an exception: an index or a slice past
    the end, a label length that does not fit a byte, or an unbound variable. */
module DnsCommon {
  import opened Options
  import opened Wire

  // ---- Generating ----

  /** The lengths of the labels of a dotted name. */
  function Lens(name: Bytes): (r: seq<nat>)
    ensures |r| > 0
    decreases |name|
  {
    var i := FirstDot(name);
    [i] + (if i < |name| then Lens(name[i + 1..]) else [])
  }

  function Sum(lens: seq<nat>): nat
    decreases |lens|
  {
    if lens == [] then 0 else Sum(lens[..|lens| - 1]) + lens[|lens| - 1]
  }

  lemma LensSplit(name: Bytes, k: nat)
    requires k <= |name| && (k < |name| ==> name[k] == DOT) && forall m | 0 <= m < k :: name[m] != DOT
    ensures Lens(name) == [k] + (if k < |name| then Lens(name[k + 1..]) else [])
  {
    FirstDotIs(name, k);
  }

  /** The distance from i to the next dot, or to the end. */
  method ToNextDot(name: Bytes, i: nat) returns (k: nat)
    requires i <= |name|
    ensures i + k <= |name| && (i + k < |name| ==> name[i + k] == DOT)
    ensures forall m | i <= m < i + k :: name[m] != DOT
  {
    k := 0;
    while i + k < |name| && name[i + k] != DOT
      invariant i + k <= |name| && forall m | i <= m < i + k :: name[m] != DOT
    {
      k := k + 1;
    }
  }

  /** The scan for dots: `lens` gets every label that ends in a dot, and the last length is
      what the others leave over. */
  method LabelLengths(name: Bytes) returns (lens: seq<nat>)
    ensures lens == Lens(name)
  {
    hide Lens;
    lens := [];
    var i := 0;
    ghost var start := 0;
    assert name[0..] == name && [] + Lens(name) == Lens(name);
    while i < |name|
      invariant 0 <= start <= |name| && Sum(lens) + |lens| == start
      invariant Lens(name) == lens + Lens(name[start..])
      invariant i == start || (i == |name| && Lens(name[start..]) == [|name| - start])
    {
      var k := ToNextDot(name, i);
      LensSplit(name[i..], k);
      if i + k < |name| {
        assert name[i..][k + 1..] == name[i + k + 1..];
        assert (lens + [k])[..|lens|] == lens;
        lens := lens + [k];
        i := i + k + 1;
        start := i;
      } else {
        i := |name|;
      }
    }
    if start == |name| {
      LensSplit(name[start..], 0);
    }
    var totalRead := Sum(lens) + |lens|;
    lens := lens + [|name| - totalRead];
  }

  /** Every length fits the byte that it is packed into. */
  predicate Packable(lens: seq<nat>) {
    forall i | 0 <= i < |lens| :: lens[i] <= 255
  }

  /** A name can be packed exactly when none of its labels is longer than 255. */
  lemma PackableMeans(part: Bytes, rest: Bytes)
    requires NoDots(part)
    ensures Packable(Lens(part)) <==> |part| <= 255
    ensures Packable(Lens(part + [DOT] + rest)) <==> |part| <= 255 && Packable(Lens(rest))
  {
    hide Lens, Packable;
    assert part[..|part|] == part;
    LensSplit(part, |part|);
    PackableCons(|part|, []);
    NothingToPack();
    var name := part + [DOT] + rest;
    assert name[|part| + 1..] == rest && name[|part|] == DOT;
    LensSplit(name, |part|);
    PackableCons(|part|, Lens(rest));
  }

  lemma NothingToPack()
    ensures Packable([])
  {
  }

  lemma PackableCons(n: nat, lens: seq<nat>)
    ensures Packable([n] + lens) <==> n <= 255 && Packable(lens)
  {
    var all := [n] + lens;
    assert forall i | 0 <= i < |lens| :: all[i + 1] == lens[i];
    if Packable(all) {
      assert all[0] == n;
      forall i | 0 <= i < |lens| ensures lens[i] <= 255 {
        assert all[i + 1] <= 255;
      }
    }
  }

  lemma LensAfterChar(name: Bytes)
    requires name != [] && name[0] != DOT
    ensures Lens(name)[1..] == Lens(name[1..])[1..]
  {
    RestAfterChar(name);
    var i := FirstDot(name);
    hide FirstDot;
    SliceTail(name, i);
  }

  lemma LensAfterDot(name: Bytes)
    requires name != [] && name[0] == DOT
    ensures Lens(name)[1..] == Lens(name[1..])
  {
    LensSplit(name, 0);
  }

  lemma LensHead(name: Bytes)
    ensures Lens(name)[0] == FirstDot(name)
  {
  }

  lemma NothingLeft(name: Bytes)
    requires name == []
    ensures Rest(name) == [0] && Lens(name) == [0]
  {
    LensSplit(name, 0);
  }

  /** Inserts the lengths between the characters of the name. */
  method PackName(name: Bytes) returns (r: Option<Bytes>)
    ensures r == if Packable(Lens(name)) then Some(Encode(name)) else None
  {
    var lens := LabelLengths(name);
    hide Lens, Encode, Rest, FirstDot;
    EncodeHead(name);
    LensHead(name);
    if lens[0] > 255 {
      return None;
    }
    var message: Bytes := [lens[0]];
    var l, i := 1, 0;
    assert name[0..] == name;
    while i < |name|
      invariant 0 <= i <= |name| && 1 <= l <= |lens|
      invariant Packable(lens[..l]) && lens[l..] == Lens(name[i..])[1..]
      invariant message + Rest(name[i..]) == Encode(name)
    {
      var c := name[i];
      assert name[i..][0] == c && name[i..][1..] == name[i + 1..];
      if c == DOT {
        RestAfterDot(name[i..]);
        LensAfterDot(name[i..]);
        EncodeHead(name[i + 1..]);
        LensHead(name[i + 1..]);
        assert lens[l] == lens[l..][0] && lens[l + 1..] == lens[l..][1..];
        if lens[l] > 255 {
          return None;
        }
        Associative(message, [lens[l]], Rest(name[i + 1..]));
        message, l := message + [lens[l]], l + 1;
      } else {
        RestAfterChar(name[i..]);
        LensAfterChar(name[i..]);
        Associative(message, [c], Rest(name[i + 1..]));
        message := message + [c];
      }
      i := i + 1;
    }
    NothingLeft(name[i..]);
    assert lens[..l] == lens;
    return Some(message + [0]);
  }

  /** The module's globals that genFlags and genMessage use. */
  class Codec {
    var transId: int
    var flagsQr: int
    var numAnswers: int

    ghost predicate Valid()
      reads this
    {
      0 <= transId < 65536 && flagsQr in {0, 1} && numAnswers in {0, 1}
    }

    constructor (transId: int)
      requires 0 <= transId < 65536
      ensures Valid() && this.transId == transId && flagsQr == 0 && numAnswers == 0
    {
      this.transId, flagsQr, numAnswers := transId, 0, 0;
    }

    /** The two flag bytes. Once a reply has been generated the globals stay at reply. */
    method GenFlags(query: bool) returns (flags: int)
      requires Valid()
      modifies this
      ensures Valid() && transId == old(transId)
      ensures flagsQr == (if query then old(flagsQr) else 1)
      ensures numAnswers == (if query then old(numAnswers) else 1)
      ensures flags == (if flagsQr == 1 then 132 else 4) * 256
    {
      if !query {
        flagsQr, numAnswers := 1, 1;
      }
      var flagsB1 := flagsQr * 128 + 0 * 8 + 1 * 4 + 0 * 2 + 0;
      var flagsB2 := 0 * 128 + 0;
      flags := flagsB1 * 256 + flagsB2;
    }

    /** A query message for the name. */
    method GenQuery(name: Bytes) returns (message: Option<Bytes>)
      requires Valid()
      modifies this
      ensures Valid() && transId == old(transId) && flagsQr == old(flagsQr) && numAnswers == old(numAnswers)
      ensures message == if Packable(Lens(name))
                         then Some(Header(transId, if flagsQr == 1 then 132 else 4, 0, 1, numAnswers) + Question(name))
                         else None
    {
      hide Encode, Lens;
      var flags := GenFlags(true);
      var header := U16(transId) + U16(flags) + U16(1) + U16(numAnswers) + U16(0) + U16(0);
      var packed := PackName(name);
      if packed.None? {
        return None;
      }
      assert header == Header(transId, if flagsQr == 1 then 132 else 4, 0, 1, numAnswers);
      Associative(header, packed.value, [0, 1, 0, 1]);
      return Some(header + packed.value + [0, 1, 0, 1]);
    }
  }

  lemma {:induction false} HostnamesPack(name: Bytes)
    requires Hostname(name)
    ensures Packable(Lens(name))
    decreases |name|
  {
    HostnameParts(name);
    var n := FirstDot(name);
    if n < |name| {
      HostnamesPack(name[n + 1..]);
    }
  }

  // ---- Parsing ----

  datatype Read = Read(text: Bytes, after: Bytes)

  function PrependRead(s: Bytes, r: Option<Read>): Option<Read> {
    match r
    case None => None
    case Some(Read(t, after)) => Some(Read(s + t, after))
  }

  /** The characters up to the zero length, each label followed by a dot; l characters of
      the current label are still to come. */
  function TextAfter(mem: Bytes, l: nat): Option<Read>
    decreases |mem|
  {
    if l == 0 then Some(Read([], mem))
    else if mem == [] then None
    else if l > 1 then PrependRead([mem[0]], TextAfter(mem[1..], l - 1))
    else if |mem| < 2 then None
    else PrependRead([mem[0], DOT], TextAfter(mem[2..], mem[1]))
  }

  lemma PrependReadTwice(s: Bytes, t: Bytes, r: Option<Read>)
    ensures PrependRead(s, PrependRead(t, r)) == PrependRead(s + t, r) && PrependRead([], r) == r
  {
    if r.Some? {
      Associative(s, t, r.value.text);
      assert [] + r.value.text == r.value.text;
    }
  }

  method ReadText(data: Bytes, at: nat, first: Byte) returns (r: Option<Read>)
    requires at <= |data|
    ensures r == TextAfter(data[at..], first)
  {
    var i: nat, l: nat := at, first;
    var text: Bytes := [];
    PrependReadTwice([], [], TextAfter(data[at..], first));
    while l != 0
      invariant i <= |data| && TextAfter(data[at..], first) == PrependRead(text, TextAfter(data[i..], l))
      decreases |data| - i
    {
      if i >= |data| {
        return None;
      }
      ghost var mem := data[i..];
      assert mem[1..] == data[i + 1..];
      var c := data[i];
      i, l := i + 1, l - 1;
      if l == 0 {
        if i >= |data| {
          return None;
        }
        assert mem[2..] == data[i + 1..];
        PrependReadTwice(text, [c, DOT], TextAfter(data[i + 1..], data[i]));
        assert text + [c] + [DOT] == text + [c, DOT];
        l := data[i];
        i := i + 1;
        text := text + [c] + [DOT];
      } else {
        PrependReadTwice(text, [c], TextAfter(data[i..], l));
        text := text + [c];
      }
    }
    assert text + [] == text;
    return Some(Read(text, data[i..]));
  }

  /** The name field of an answer: the pointer's 16 bits, or a name. */
  datatype RrName = Pointer(bits: int) | Named(text: Bytes)

  datatype HeaderFields = HeaderFields(
    qr: int, opcode: int, aa: int, tc: int, rd: int, ra: int, z: int, rcode: int,
    numQuestions: int, numAnswers: int, numAuthority: int, numAdditional: int)

  datatype RecordFields = RecordFields(rrName: RrName, rrType: int, rrClass: int, ttl: int, dataLength: int)

  /** What the program returns of a reply, but for its own identifier. */
  datatype Reply = Reply(
    name: Bytes, addr: Bytes, id: int, header: HeaderFields, qtype: int, qclass: int, record: RecordFields)

  function DropLast(s: Bytes): Bytes {
    if s == [] then [] else s[..|s| - 1]
  }

  datatype AnswerName = AnswerName(name: RrName, after: Bytes)

  /** The name of the answer, a pointer to offset 12 or a name, and what stands behind it. */
  function ReadAnswerName(mem: Bytes): Option<AnswerName> {
    if |mem| < 2 then None
    else if FromU16(mem, 0) == 49164 then Some(AnswerName(Pointer(49164), mem[2..]))
    else match TextAfter(mem[1..], mem[0])
         case None => None
         case Some(r) => Some(AnswerName(Named(DropLast(r.text)), r.after))
  }

  function Fields(data: Bytes): HeaderFields
    requires |data| >= 12
  {
    var b1, b2 := data[2] as int, data[3] as int;
    HeaderFields(b1 / 128, (b1 / 8) % 16, (b1 / 4) % 2, (b1 / 2) % 2, b1 % 2, b2 / 128, (b2 / 16) % 8, b2 % 16,
                 FromU16(data, 4), FromU16(data, 6), FromU16(data, 8), FromU16(data, 10))
  }

  /** The lifetime's high half is shifted by 8 bits only. */
  function Record(name: RrName, mem: Bytes): RecordFields
    requires |mem| >= 10
  {
    RecordFields(name, FromU16(mem, 0), FromU16(mem, 2), FromU16(mem, 4) * 256 + FromU16(mem, 6), FromU16(mem, 8))
  }

  /** Every flag is read back from where section 4.1.1 of RFC 1035 puts it. */
  lemma FieldsMean(data: Bytes, qr: int, opcode: int, aa: int, tc: int, rd: int, ra: int, z: int, rcode: int)
    requires |data| >= 12 && 0 <= opcode < 16 && 0 <= z < 8 && 0 <= rcode < 16
    requires qr in {0, 1} && aa in {0, 1} && tc in {0, 1} && rd in {0, 1} && ra in {0, 1}
    requires data[2] as int == 128 * qr + 8 * opcode + 4 * aa + 2 * tc + rd
    requires data[3] as int == 128 * ra + 16 * z + rcode
    ensures Fields(data) == HeaderFields(qr, opcode, aa, tc, rd, ra, z, rcode,
                                         256 * (data[4] as int) + data[5] as int,
                                         256 * (data[6] as int) + data[7] as int,
                                         256 * (data[8] as int) + data[9] as int,
                                         256 * (data[10] as int) + data[11] as int)
  {
    var b1, b2 := data[2] as int, data[3] as int;
    LowBits(b1, qr, opcode, aa, tc, rd);
    assert b2 / 128 == ra && b2 / 16 == 8 * ra + z && b2 % 16 == rcode;
  }

  lemma LowBits(b: int, qr: int, opcode: int, aa: int, tc: int, rd: int)
    requires 0 <= opcode < 16 && qr in {0, 1} && aa in {0, 1} && tc in {0, 1} && rd in {0, 1}
    requires b == 128 * qr + 8 * opcode + 4 * aa + 2 * tc + rd
    ensures b / 128 == qr && (b / 8) % 16 == opcode && (b / 4) % 2 == aa && (b / 2) % 2 == tc && b % 2 == rd
  {
    assert b / 2 == 64 * qr + 4 * opcode + 2 * aa + tc;
    assert b / 4 == 32 * qr + 2 * opcode + aa;
    assert b / 8 == 16 * qr + opcode;
  }

  /** The lifetime is read right exactly when it is less than 65536. */
  lemma LifetimeReadExactlyWhen(name: RrName, mem: Bytes)
    requires |mem| >= 10
    ensures var ttl := ((mem[4] as int * 256 + mem[5]) * 256 + mem[6]) * 256 + mem[7];
            Record(name, mem).ttl == ttl <==> ttl < 65536
    ensures Record(name, mem).ttl ==
            (mem[4] as int * 256 + mem[5] as int) * 256 + (mem[6] as int * 256 + mem[7] as int)
    ensures Record(name, mem).rrName == name && Record(name, mem).rrType == mem[0] as int * 256 + mem[1] as int
    ensures Record(name, mem).rrClass == mem[2] as int * 256 + mem[3] as int
    ensures Record(name, mem).dataLength == mem[8] as int * 256 + mem[9] as int
  {
  }

  /** The reply in a message; without an answer the type of the record stays unbound. */
  function ReplyIn(data: Bytes): Option<Reply> {
    if |data| < 13 then None
    else match TextAfter(data[13..], data[12])
         case None => None
         case Some(q) =>
           if |q.after| < 4 || FromU16(data, 6) == 0 then None
           else match ReadAnswerName(q.after[4..])
                case None => None
                case Some(n) =>
                  if |n.after| < 14 then None
                  else Some(Reply(DropLast(q.text), n.after[10..14], FromU16(data, 0), Fields(data),
                                  FromU16(q.after, 0), FromU16(q.after, 2), Record(n.name, n.after)))
  }

  /** The two flag bytes are taken out of the 16 bits that are read at once. */
  method ReadHeader(data: Bytes) returns (header: HeaderFields)
    requires |data| >= 12
    ensures header == Fields(data) && header.numAnswers == FromU16(data, 6)
  {
    var flags := FromU16(data, 2);
    var b1, b2 := flags / 256, flags % 256;
    assert b1 == data[2] as int && b2 == data[3] as int;
    header := HeaderFields(b1 / 128, (b1 / 8) % 16, (b1 / 4) % 2, (b1 / 2) % 2, b1 % 2, b2 / 128, (b2 / 16) % 8,
                           b2 % 16, FromU16(data, 4), FromU16(data, 6), FromU16(data, 8), FromU16(data, 10));
  }

  method ParseMessage(data: Bytes) returns (r: Option<Reply>)
    ensures r == ReplyIn(data)
  {
    if |data| < 13 {
      return None;
    }
    hide TextAfter, Fields, Record;
    var header := ReadHeader(data);
    var q := ReadText(data, 13, data[12]);
    if q.None? || |q.value.after| < 4 || header.numAnswers == 0 {
      return None;
    }
    var qtype, qclass := FromU16(q.value.after, 0), FromU16(q.value.after, 2);
    var mem := q.value.after[4..];
    if |mem| < 2 {
      return None;
    }
    var rrName := Pointer(FromU16(mem, 0));
    if rrName.bits == 49164 {
      mem := mem[2..];
    } else {
      var name := ReadText(mem, 1, mem[0]);
      if name.None? {
        return None;
      }
      rrName, mem := Named(DropLast(name.value.text)), name.value.after;
    }
    if |mem| < 14 {
      return None;
    }
    return Some(Reply(DropLast(q.value.text), mem[10..14], FromU16(data, 0), header, qtype, qclass,
                      Record(rrName, mem)));
  }

  /** Reading one label, and then from the next length on. */
  lemma {:induction false} LabelRead(part: Bytes, next: Byte, mem: Bytes)
    requires part != []
    ensures TextAfter(part + ([next] + mem), |part|) == PrependRead(part + [DOT], TextAfter(mem, next))
  {
    var all := part + ([next] + mem);
    if |part| == 1 {
      assert all[2..] == mem && part + [DOT] == [part[0], DOT];
    } else {
      assert all[1..] == part[1..] + ([next] + mem);
      LabelRead(part[1..], next, mem);
      PrependReadTwice([part[0]], part[1..] + [DOT], TextAfter(mem, next));
      assert [part[0]] + (part[1..] + [DOT]) == part + [DOT];
    }
  }
}
