/** The C codec. Offsets are kept as the program keeps them: the name reader returns one
    less than the encoded length, and its callers make up for it. A pointer that is read
    through is the memory from there on; a result of None stands for a read or a write
    outside the buffers. */
module DnsRecord {
  import opened Options
  import opened Wire

  // ---- Names ----

  lemma EncodeLabel(part: Bytes, rest: Bytes)
    requires NoDots(part)
    ensures Encode(part + [DOT] + rest) == [|part| % 256] + part + Encode(rest)
    ensures Encode(part) == [|part| % 256] + part + [0]
  {
    var s := part + [DOT] + rest;
    FirstDotIs(s, |part|);
    FirstDotIs(part, |part|);
    assert s[..|part|] == part && s[|part| + 1..] == rest && part[..|part|] == part;
  }

  /** A label ends before a dot: what is written so far grows by the label. */
  lemma LabelDone(all: Bytes, done: Bytes, part: Bytes, rest: Bytes)
    requires NoDots(part) && done + Encode(part + [DOT] + rest) == all
    ensures done + ([|part| % 256] + part) + Encode(rest) == all
  {
    EncodeLabel(part, rest);
    Associative(done, [|part| % 256] + part, Encode(rest));
  }

  lemma SplitAt(s: Bytes, at: nat, n: nat)
    requires at + n < |s|
    ensures s[at..] == s[at..at + n] + [s[at + n]] + s[at + n + 1..]
  {
  }

  lemma LastLabelDone(addr: Bytes, total: nat, done: Bytes)
    requires total <= |addr| && NoDots(addr[total..])
    requires done + Encode(addr[total..]) == Encode(addr)
    ensures done + ([(|addr| - total) % 256] + addr[total..] + [0]) == Encode(addr)
  {
    EncodeLabel(addr[total..], []);
  }

  lemma LabelGrows(addr: Bytes, total: nat, n: nat)
    requires total + n < |addr|
    ensures addr[total..total + n + 1] == addr[total..total + n] + [addr[total + n]]
    ensures addr[total + n + 1..total + n + 1] == []
  {
  }

  /** Writes a length byte in front of the n characters that are already in place. */
  method PutLength(result: array<Byte>, at: nat, n: nat)
    requires at + n < result.Length
    modifies result
    ensures forall i | 0 <= i < result.Length && i != at :: result[i] == old(result[i])
    ensures result[at..at + n + 1] == [n % 256] + old(result[at + 1..at + n + 1])
  {
    result[at] := n % 256;
  }

  /** Writes the encoded name at `at`: the characters go one place ahead of where they are
      read, and each length byte is filled in when its label ends. */
  method TranslateName(addr: Bytes, result: array<Byte>, at: nat) returns (ret: nat)
    requires at + |addr| + 2 <= result.Length
    modifies result
    ensures ret == |addr| + 2 && result[at..at + ret] == Encode(addr)
    ensures forall i | 0 <= i < at || at + ret <= i < result.Length :: result[i] == old(result[i])
  {
    hide Encode;
    var total, labelLen := 0, 0;
    assert addr[0..] == addr;
    while total + labelLen < |addr|
      invariant 0 <= total && 0 <= labelLen && total + labelLen <= |addr|
      invariant NoDots(addr[total..total + labelLen])
      invariant result[at..at + total] + Encode(addr[total..]) == Encode(addr)
      invariant result[at + total + 1..at + total + 1 + labelLen] == addr[total..total + labelLen]
      invariant forall i | 0 <= i < at || at + |addr| + 2 <= i < result.Length :: result[i] == old(result[i])
      decreases |addr| - total - labelLen
    {
      LabelGrows(addr, total, labelLen);
      assert labelLen == 0 ==> NoDots(addr[total..total]);
      var curr := addr[total + labelLen];
      if curr != DOT {
        result[at + total + labelLen + 1] := curr;
        labelLen := labelLen + 1;
      } else {
        total := FinishLabel(addr, result, at, total, labelLen);
        labelLen := 0;
      }
    }
    assert addr[total..total + labelLen] == addr[total..];
    FinishName(addr, result, at, total);
    ret := total + labelLen + 2;
  }

  method FinishName(addr: Bytes, result: array<Byte>, at: nat, total: nat)
    requires at + |addr| + 2 <= result.Length && total <= |addr| && NoDots(addr[total..])
    requires result[at..at + total] + Encode(addr[total..]) == Encode(addr)
    requires result[at + total + 1..at + 1 + |addr|] == addr[total..]
    modifies result
    ensures result[at..at + |addr| + 2] == Encode(addr)
    ensures forall i | 0 <= i < at || at + |addr| + 2 <= i < result.Length :: result[i] == old(result[i])
  {
    hide Encode;
    ghost var done := result[at..at + total];
    LastLabelDone(addr, total, done);
    PutLength(result, at + total, |addr| - total);
    result[at + |addr| + 1] := 0;
    assert result[at..at + |addr| + 2] == done + ([(|addr| - total) % 256] + addr[total..] + [0]);
  }

  method FinishLabel(addr: Bytes, result: array<Byte>, at: nat, total: nat, n: nat) returns (total': nat)
    requires at + |addr| + 2 <= result.Length && total + n < |addr| && addr[total + n] == DOT
    requires NoDots(addr[total..total + n])
    requires result[at..at + total] + Encode(addr[total..]) == Encode(addr)
    requires result[at + total + 1..at + total + 1 + n] == addr[total..total + n]
    modifies result
    ensures total' == total + n + 1
    ensures result[at..at + total'] + Encode(addr[total'..]) == Encode(addr)
    ensures forall i | 0 <= i < at || at + |addr| + 2 <= i < result.Length :: result[i] == old(result[i])
  {
    hide Encode;
    ghost var done := result[at..at + total];
    SplitAt(addr, total, n);
    LabelDone(Encode(addr), done, addr[total..total + n], addr[total + n + 1..]);
    PutLength(result, at + total, n);
    total' := total + n + 1;
    assert result[at..at + total'] == done + ([n % 256] + addr[total..total + n]);
  }

  /** The labels at the pointer, each followed by a dot. Only the label lengths are counted
      against size. */
  function Text(mem: Bytes, size: int): Option<Bytes>
    decreases size
  {
    if size <= 0 then Some([])
    else if mem == [] then None
    else
      var n := mem[0];
      if n == 0 then Some([])
      else if n >= 128 || 1 + n > |mem| then None
      else Prepend(UntilZero(mem[1..1 + n]) + [DOT], Text(mem[1 + n..], size - n))
  }

  function Prepend(s: Bytes, t: Option<Bytes>): Option<Bytes> {
    match t
    case None => None
    case Some(rest) => Some(s + rest)
  }

  lemma PrependTwice(s: Bytes, t: Bytes, o: Option<Bytes>)
    ensures Prepend(s, Prepend(t, o)) == Prepend(s + t, o) && Prepend([], o) == o
  {
    if o.Some? {
      assert s + (t + o.value) == s + t + o.value && [] + o.value == o.value;
    }
  }

  datatype Name = Name(text: Bytes, len: nat)

  /** The callers' name buffers. */
  const NAME_BUFFER := 512

  /** A name that fits the buffer with its last dot and the zero behind it. */
  predicate Fits(name: Bytes) {
    |name| + 2 <= 512
  }

  /** The name without its last dot, and the length with it. An empty name would put the
      final zero before the buffer, and one that does not fit overruns it. */
  function NameAt(mem: Bytes, size: int): (r: Option<Name>)
    ensures r.Some? ==> Fits(r.value.text)
  {
    match Text(mem, size)
    case None => None
    case Some(t) => if t == [] || |t| + 1 > NAME_BUFFER then None else Some(Name(t[..|t| - 1], |t|))
  }

  method ParseName(question: Bytes, size: int) returns (r: Option<Name>)
    ensures r == NameAt(question, size)
  {
    var pt, left := question, size;
    var result: Bytes := [];
    PrependTwice([], [], Text(question, size));
    while left > 0
      invariant Text(question, size) == Prepend(result, Text(pt, left))
      decreases left
    {
      if pt == [] {
        return None;
      }
      var labelSize := pt[0];
      if labelSize == 0 {
        break;
      }
      if labelSize >= 128 || 1 + labelSize > |pt| {
        return None;
      }
      var piece := UntilZero(pt[1..1 + labelSize]) + [DOT];
      PrependTwice(result, piece, Text(pt[1 + labelSize..], left - labelSize));
      result := result + piece;
      pt := pt[1 + labelSize..];
      left := left - labelSize;
    }
    assert result + [] == result;
    if result == [] || |result| + 1 > NAME_BUFFER {
      return None;
    }
    return Some(Name(result[..|result| - 1], |result|));
  }

  /** One turn of the name reader on a label without zeros. */
  lemma TextStep(part: Bytes, rest: Bytes, size: int)
    requires size > 0 && 1 <= |part| <= 127 && NoZeros(part)
    ensures Text([|part|] + (part + rest), size) == Prepend(part + [DOT], Text(rest, size - |part|))
  {
    UntilZeroKeeps(part);
    var mem := [|part|] + (part + rest);
    assert mem[1..1 + |part|] == part && mem[1 + |part|..] == rest;
  }

  /** A length from 128 on is read as a negative number, and a label that is cut off is read past its
      end. */
  lemma TextStops(n: Byte, mem: Bytes, size: int)
    requires size > 0 && n > 0
    ensures n >= 128 || n as int > |mem| ==> Text([n] + mem, size) == None
  {
  }

  lemma TextEnds(after: Bytes, size: int)
    ensures Text([0] + after, size) == Some([])
  {
  }

  lemma {:induction false} TextOfEncoded(name: Bytes, after: Bytes, size: int)
    requires Hostname(name) && size > |name|
    ensures Text(Encode(name) + after, size) == Some(name + [DOT])
    decreases |name|
  {
    hide Encode, FirstDot, NoDots, NoZeros, Hostname, Text;
    HostnameParts(name);
    var n := FirstDot(name);
    var part := name[..n];
    if n < |name| {
      var rest := name[n + 1..];
      TextOfEncoded(rest, after, size - n);
      EncodedTail(part, rest, after);
      TextStep(part, Encode(rest) + after, size);
      Associative(part + [DOT], rest, [DOT]);
    } else {
      LastLabel(name, after);
      TextStep(name, [0] + after, size);
      TextEnds(after, size - |name|);
      assert name + [DOT] + [] == name + [DOT];
    }
  }

  lemma EncodedTail(part: Bytes, rest: Bytes, after: Bytes)
    requires NoDots(part) && |part| < 256
    ensures Encode(part + [DOT] + rest) + after == [|part|] + (part + (Encode(rest) + after))
  {
    hide Encode, FirstDot, NoDots;
    EncodeLabel(part, rest);
    Regroup([|part|], part, Encode(rest), after);
  }

  lemma LastLabel(part: Bytes, after: Bytes)
    requires NoDots(part) && |part| < 256
    ensures Encode(part) + after == [|part|] + (part + ([0] + after))
  {
    hide Encode, FirstDot, NoDots;
    EncodeLabel(part, []);
    Regroup([|part|], part, [0], after);
  }

  /** Reading back an encoded name gives the name, and a length one less than was written, exactly when
      the name fits the buffer; a longer one overruns it. */
  lemma NameRoundTrip(name: Bytes, after: Bytes, size: int)
    requires Hostname(name) && size > |name|
    ensures NameAt(Encode(name) + after, size) ==
            if Fits(name) then Some(Name(name, |Encode(name)| - 1)) else None
  {
    hide Encode, Hostname, Text;
    TextOfEncoded(name, after, size);
    assert (name + [DOT])[..|name|] == name;
  }

  // ---- Parsing ----

  /** The question's type is read one byte early and only reported, never checked. The
      length is the name length plus the four bytes of type and class. */
  function QuestionAt(mem: Bytes, size: int): Option<Name> {
    match NameAt(mem, size)
    case None => None
    case Some(n) => if n.len + 1 >= |mem| then None else Some(n.(len := n.len + 4))
  }

  /** The 16 flag bits as a little-endian host loads them. */
  function Flags(buf: Bytes): int
    requires |buf| >= 12
  {
    buf[2] as int + 256 * (buf[3] as int)
  }

  predicate IsSet(flags: int, mask: int)
    requires mask > 0
  {
    (flags / mask) % 2 == 1
  }

  const QR := 128
  const AA := 4
  const RD := 1
  const RA := 32768

  function ResponseCode(flags: int): int {
    (flags / 256) % 16
  }

  predicate IsInvalid(buf: Bytes, isRequest: bool)
    requires |buf| >= 12
  {
    || (isRequest && (IsSet(Flags(buf), QR) || FromU16(buf, 4) != 1))
    || (!isRequest && (!IsSet(Flags(buf), QR) || !IsSet(Flags(buf), AA) || FromU16(buf, 6) != 1))
    || IsSet(Flags(buf), RD) || IsSet(Flags(buf), RA)
    || FromU16(buf, 8) != 0 || FromU16(buf, 10) != 0
  }

  /** The flags as section 4.1.1 of RFC 1035 lays them out: QR, AA and RD are the first, sixth and eighth
      bit of the third byte, RA is the first bit of the fourth and the response code its last four. */
  lemma InvalidMeans(buf: Bytes)
    requires |buf| >= 12
    ensures IsInvalid(buf, true) <==>
            !(buf[2] < 128 && buf[4..6] == [0, 1] && buf[2] % 2 == 0 && buf[3] < 128 && buf[8..12] == [0, 0, 0, 0])
    ensures IsInvalid(buf, false) <==>
            !(buf[2] >= 128 && (buf[2] / 4) % 2 == 1 && buf[6..8] == [0, 1] && buf[2] % 2 == 0 && buf[3] < 128
              && buf[8..12] == [0, 0, 0, 0])
    ensures ResponseCode(Flags(buf)) == buf[3] % 16
  {
    hide IsSet, ResponseCode;
    FlagBits(buf[2], buf[3]);
    CountIs(buf, 4);
    CountIs(buf, 6);
    CountIs(buf, 8);
    CountIs(buf, 10);
    assert buf[4..6] == [buf[4], buf[5]] && buf[6..8] == [buf[6], buf[7]];
    assert buf[8..12] == [buf[8], buf[9], buf[10], buf[11]];
  }

  lemma CountIs(buf: Bytes, at: nat)
    requires at + 1 < |buf|
    ensures FromU16(buf, at) == 0 <==> buf[at] == 0 && buf[at + 1] == 0
    ensures FromU16(buf, at) == 1 <==> buf[at] == 0 && buf[at + 1] == 1
  {
  }

  lemma FlagBits(low: Byte, high: Byte)
    ensures var flags := low as int + 256 * (high as int);
            && (IsSet(flags, QR) <==> low >= 128) && (IsSet(flags, AA) <==> (low / 4) % 2 == 1)
            && (IsSet(flags, RD) <==> low % 2 == 1) && (IsSet(flags, RA) <==> high >= 128)
            && ResponseCode(flags) == high % 16
  {
    var l: int, h: int := low, high;
    var flags := l + 256 * h;
    assert flags / 128 == l / 128 + 2 * h;
    assert flags / 4 == l / 4 + 64 * h;
    assert flags / 1 == flags && flags % 2 == l % 2;
    assert flags / 256 == h;
    assert flags / 32768 == h / 128;
  }

  datatype Request = Undefined | Rejected | Accepted(id: int, name: Bytes, ret: int)

  /** The request parser together with the identifier that the server reads beside it. */
  function ParseRequest(buf: Bytes, size: int): Request {
    if |buf| < 12 then Undefined
    else if IsInvalid(buf, true) then Rejected
    else match QuestionAt(buf[12..], size - 12)
         case None => Undefined
         case Some(q) => Accepted(FromU16(buf, 0), q.text, q.len)
  }

  datatype Response = OutOfBounds | Returned(ret: int, addr: Option<Bytes>)

  /** The address is looked for two bytes before the end of the padded record. */
  function ResourceAt(mem: Bytes, size: int): Response {
    match NameAt(mem, size)
    case None => OutOfBounds
    case Some(n) =>
      var offset := n.len + 1;
      if offset + 14 > |mem| then OutOfBounds
      else if FromU16(mem, offset + 8) != 4 then Returned(-1, None)
      else Returned(offset + 12 - 2, Some(mem[offset + 10..offset + 14]))
  }

  function ParseResponse(buf: Bytes, size: int): Response {
    if |buf| < 12 then OutOfBounds
    else if IsInvalid(buf, false) then Returned(-1, None)
    else if ResponseCode(Flags(buf)) != 0 then Returned(-2, None)
    else match QuestionAt(buf[12..], size - 12)
         case None => OutOfBounds
         case Some(q) =>
           var offset := 12 + q.len + 1;
           if offset > |buf| then OutOfBounds else
           match ResourceAt(buf[offset..], size - offset)
           case OutOfBounds => OutOfBounds
           case Returned(ret, addr) => Returned(ret + offset, addr)
  }

  // ---- Generating ----

  method PutU16(result: array<Byte>, at: nat, x: int)
    requires at + 2 <= result.Length && 0 <= x < 65536
    modifies result
    ensures result[at] == x / 256 && result[at + 1] == x % 256
    ensures forall i | 0 <= i < at || at + 2 <= i < result.Length :: result[i] == old(result[i])
  {
    result[at], result[at + 1] := x / 256, x % 256;
  }

  /** Clears the header, then stores the identifier, the flags low byte first, and the
      counts. */
  method PutHeader(result: array<Byte>, id: int, flags: int, questions: int, answers: int)
    requires result.Length >= 12 && 0 <= id < 65536 && 0 <= flags < 65536
    requires 0 <= questions < 65536 && 0 <= answers < 65536
    modifies result
    ensures result[..12] == Header(id, flags % 256, flags / 256, questions, answers)
    ensures forall i | 12 <= i < result.Length :: result[i] == old(result[i])
  {
    for i := 0 to 12
      invariant forall j | 0 <= j < i :: result[j] == 0
      invariant forall j | 12 <= j < result.Length :: result[j] == old(result[j])
    {
      result[i] := 0;
    }
    PutU16(result, 0, id);
    result[2], result[3] := flags % 256, flags / 256;
    PutU16(result, 4, questions);
    PutU16(result, 6, answers);
  }

  method GenerateQuestion(query: Bytes, result: array<Byte>, at: nat) returns (ret: nat)
    requires at + |query| + 6 <= result.Length
    modifies result
    ensures ret == |query| + 6 && result[at..at + ret] == Question(query)
    ensures forall i | 0 <= i < at || at + ret <= i < result.Length :: result[i] == old(result[i])
  {
    hide Encode;
    ret := TranslateName(query, result, at);
    ghost var name := result[at..at + ret];
    PutU16(result, at + ret, 1);
    PutU16(result, at + ret + 2, 1);
    assert result[at..at + ret] == name;
    assert result[at..at + ret + 4] == name + [0, 1, 0, 1];
    ret := ret + 4;
  }

  lemma AnswerInPlace(s: Bytes, at: nat, n: nat, query: Bytes, ip: Bytes)
    requires |ip| == 4 && n == |Encode(query)| && at + n + 14 <= |s| && s[at..at + n] == Encode(query)
    requires s[at + n..at + n + 10] == [0, 1, 0, 1, 0, 0, 0, 0, 0, 4] && s[at + n + 10..at + n + 14] == ip
    ensures s[at..at + n + 14] == Answer(query, ip)
  {
    hide Encode;
    assert s[at..at + n + 14] == s[at..at + n] + s[at + n..at + n + 10] + s[at + n + 10..at + n + 14];
  }

  /** The record is copied with its two bytes of padding, whatever they hold; the address
      then overwrites them. */
  method GenerateResource(query: Bytes, ip: Bytes, result: array<Byte>, at: nat) returns (ret: nat)
    requires |ip| == 4 && at + |query| + 16 <= result.Length
    modifies result
    ensures ret == |query| + 16 && result[at..at + ret] == Answer(query, ip)
    ensures forall i | 0 <= i < at || at + ret <= i < result.Length :: result[i] == old(result[i])
  {
    hide Encode, Answer;
    var n := TranslateName(query, result, at);
    ghost var name := result[at..at + n];
    var o := at + n;
    PutRecord(result, o);
    o := o + 12 - 2;
    ghost var record := result[at + n..o];
    result[o], result[o + 1], result[o + 2], result[o + 3] := ip[0], ip[1], ip[2], ip[3];
    ret := n + 12 + 4 - 2;
    assert result[at..at + n] == name && result[at + n..o] == record && result[o..o + 4] == ip;
    ghost var all := result[..];
    assert all[at..at + n] == name && all[at + n..o] == record && all[o..o + 4] == ip;
    AnswerInPlace(all, at, n, query, ip);
    assert result[at..at + ret] == all[at..at + ret];
  }

  /** Type A, class IN, lifetime 0, address length 4, and two bytes of padding. */
  method PutRecord(result: array<Byte>, at: nat)
    requires at + 12 <= result.Length
    modifies result
    ensures result[at..at + 10] == [0, 1, 0, 1, 0, 0, 0, 0, 0, 4]
    ensures forall i | 0 <= i < at || at + 12 <= i < result.Length :: result[i] == old(result[i])
  {
    PutU16(result, at, 1);
    PutU16(result, at + 2, 1);
    PutU16(result, at + 4, 0);
    PutU16(result, at + 6, 0);
    PutU16(result, at + 8, 4);
    var padding0: Byte, padding1: Byte := *, *;
    result[at + 10], result[at + 11] := padding0, padding1;
  }

  /** The reply; a non-zero rcode sends the bare header with one more flag bit. */
  method GenResponse(query: Bytes, ip: Bytes, id: int, rcode: int, result: array<Byte>) returns (ret: nat)
    requires 0 <= id < 65536 && |ip| == 4 && result.Length >= 12 + |query| + 6 + |query| + 16
    modifies result
    ensures ret == if rcode == 0 then |query| + |query| + 34 else 12
    ensures result[..ret] == if rcode == 0 then Reply(query, ip, id) else Header(id, 132, 16, 0, 0)
  {
    hide Header, Question, Answer, Encode;
    var flags := QR + AA;
    if rcode != 0 {
      PutHeader(result, id, 4096 + flags, 0, 0);
      return 12;
    }
    PutHeader(result, id, flags, 1, 1);
    ghost var header := result[..12];
    var n := GenerateQuestion(query, result, 12);
    assert result[..12] == header;
    ghost var question := result[..12 + n];
    assert question == header + result[12..12 + n];
    var m := GenerateResource(query, ip, result, 12 + n);
    assert result[..12 + n] == question;
    ret := 12 + n + m;
    assert result[..ret] == question + result[12 + n..12 + n + m];
  }

  method GenerateRequest(query: Bytes, id: int, result: array<Byte>) returns (ret: nat)
    requires 0 <= id < 65536 && result.Length >= 12 + |query| + 6
    modifies result
    ensures ret == |query| + 18 && result[..ret] == Header(id, 0, 0, 1, 0) + Question(query)
  {
    PutHeader(result, id, 0, 1, 0);
    ghost var header := result[..12];
    var n := GenerateQuestion(query, result, 12);
    assert result[..12] == header;
    ret := 12 + n;
    assert result[..ret] == header + result[12..12 + n];
  }

  // ---- Round trips ----

  lemma HeaderFields(id: int, flags0: Byte, flags1: Byte, questions: int, answers: int, rest: Bytes)
    requires 0 <= id < 65536 && 0 <= questions < 65536 && 0 <= answers < 65536
    ensures var buf := Header(id, flags0, flags1, questions, answers) + rest;
            && buf[12..] == rest && Flags(buf) == flags0 as int + 256 * (flags1 as int)
            && FromU16(buf, 0) == id && FromU16(buf, 4) == questions && FromU16(buf, 6) == answers
            && FromU16(buf, 8) == 0 && FromU16(buf, 10) == 0
  {
  }

  lemma QuestionRoundTrip(name: Bytes, after: Bytes, size: int)
    requires Hostname(name) && size > |name|
    ensures QuestionAt(Question(name) + after, size) ==
            if Fits(name) then Some(Name(name, |Question(name)| - 1)) else None
  {
    hide Encode, Text, NameAt, Hostname, Fits;
    NameRoundTrip(name, [0, 1, 0, 1] + after, size);
    Associative(Encode(name), [0, 1, 0, 1], after);
  }

  lemma AnswerRoundTrip(name: Bytes, ip: Bytes, after: Bytes, size: int)
    requires Hostname(name) && |ip| == 4 && size > |name|
    ensures ResourceAt(Answer(name, ip) + after, size) ==
            if Fits(name) then Returned(|Answer(name, ip)| - 4, Some(ip)) else OutOfBounds
  {
    var record: Bytes := [0, 1, 0, 1, 0, 0, 0, 0, 0, 4];
    NameRoundTrip(name, record + (ip + after), size);
    hide Encode, Text;
    var code := Encode(name);
    Regroup(code, record, ip, after);
    var mem := Answer(name, ip) + after;
    assert forall i | 0 <= i < 10 :: mem[|code| + i] == record[i];
    assert mem[|code| + 10..|code| + 14] == ip;
  }

  /** The parser's result from what it finds in the three sections. */
  lemma ParsedSections(buf: Bytes, size: int, question: Bytes, q: Name, answer: Bytes, r: Response)
    requires |buf| >= 12 && !IsInvalid(buf, false) && ResponseCode(Flags(buf)) == 0
    requires buf[12..] == question && QuestionAt(question, size - 12) == Some(q)
    requires 13 + q.len <= |buf| && buf[13 + q.len..] == answer
    requires ResourceAt(answer, size - (13 + q.len)) == r && r.Returned?
    ensures ParseResponse(buf, size) == Returned(r.ret + 13 + q.len, r.addr)
  {
  }

  /** Every check before the address length passes, and the record lies in the buffer. */
  predicate ReachesAnswer(buf: Bytes, size: int) {
    && |buf| >= 12 && !IsInvalid(buf, false) && ResponseCode(Flags(buf)) == 0
    && var question := QuestionAt(buf[12..], size - 12);
    && question.Some?
    && var offset := 13 + question.value.len;
    && offset <= |buf|
    && var name := NameAt(buf[offset..], size - offset);
    && name.Some? && offset + name.value.len + 15 <= |buf|
  }

  /** Where the answer starts, and where its address length stands. */
  function AnswerStart(buf: Bytes, size: int): (r: nat)
    requires ReachesAnswer(buf, size)
    ensures r <= |buf|
  {
    13 + QuestionAt(buf[12..], size - 12).value.len
  }

  function LengthField(buf: Bytes, size: int): int
    requires ReachesAnswer(buf, size)
  {
    var offset := AnswerStart(buf, size);
    FromU16(buf, offset + NameAt(buf[offset..], size - offset).value.len + 9)
  }

  /** A response parses to no address, yet not to a negative number, exactly when everything but its
      address length is right; the number is one less than where the answer starts. */
  lemma WrongLengthExactlyWhen(buf: Bytes, size: int)
    ensures var r := ParseResponse(buf, size);
            r.Returned? && r.ret >= 0 && r.addr == None <==>
            ReachesAnswer(buf, size) && LengthField(buf, size) != 4
    ensures ReachesAnswer(buf, size) && LengthField(buf, size) != 4 ==>
              ParseResponse(buf, size) == Returned(AnswerStart(buf, size) - 1, None)
  {
    hide NameAt, QuestionAt, IsInvalid;
    if ReachesAnswer(buf, size) {
      var offset := AnswerStart(buf, size);
      var mem := buf[offset..];
      var n := NameAt(mem, size - offset).value;
      assert FromU16(mem, n.len + 9) == FromU16(buf, offset + n.len + 9);
    }
  }

  /** The question's type and class are read, one byte early, but change nothing. */
  lemma TypeIsIgnored(name: Bytes, id: int, flags0: Byte, type4: Bytes, after: Bytes)
    requires Hostname(name) && 0 <= id < 65536 && flags0 in {0, 4} && |type4| == 4
    ensures var message := Header(id, flags0, 0, 1, 0) + (Encode(name) + type4);
            ParseRequest(message + after, |message|) ==
            if Fits(name) then Accepted(id, name, |Encode(name)| + 3) else Undefined
  {
    hide Hostname, NameAt, Encode;
    var header, question := Header(id, flags0, 0, 1, 0), Encode(name) + type4;
    Associative(header, question, after);
    HeaderFields(id, flags0, 0, 1, 0, question + after);
    Associative(Encode(name), type4, after);
    NameRoundTrip(name, type4 + after, |question|);
  }

  lemma NoQuestion(buf: Bytes, size: int, question: Bytes)
    requires |buf| >= 12 && !IsInvalid(buf, false) && ResponseCode(Flags(buf)) == 0
    requires buf[12..] == question && QuestionAt(question, size - 12) == None
    ensures ParseResponse(buf, size) == OutOfBounds
  {
  }

  lemma ReplyIsValid(id: int, rest: Bytes)
    requires 0 <= id < 65536
    ensures var buf := Header(id, 132, 0, 1, 1) + rest;
            !IsInvalid(buf, false) && ResponseCode(Flags(buf)) == 0
  {
    HeaderFields(id, 132, 0, 1, 1, rest);
  }

  /** The reply that the C server generates gives the C proxy back the address, whatever
      lies in the buffer behind it, exactly when the name fits the proxy's name buffers. */
  lemma ReplyRoundTrip(name: Bytes, ip: Bytes, id: int, after: Bytes)
    requires Hostname(name) && |ip| == 4 && 0 <= id < 65536
    ensures ParseResponse(Reply(name, ip, id) + after, |Reply(name, ip, id)|) ==
            if Fits(name) then Returned(|Reply(name, ip, id)| - 4, Some(ip)) else OutOfBounds
  {
    hide Header, Question, Answer, QuestionAt, ResourceAt, Hostname, IsInvalid, Flags, ParseResponse;
    var header, question, answer := Header(id, 132, 0, 1, 1), Question(name), Answer(name, ip);
    ReplyIsValid(id, question + (answer + after));
    QuestionRoundTrip(name, answer + after, |question| + |answer|);
    AnswerRoundTrip(name, ip, after, |answer|);
    Regroup(header, question, answer, after);
    DropParts(header, question, answer, after);
    if !Fits(name) {
      NoQuestion(header + question + answer + after, |header + question + answer|, question + (answer + after));
      return;
    }
    var q, r := Name(name, |question| - 1), Returned(|answer| - 4, Some(ip));
    ParsedSections(header + question + answer + after, |header + question + answer|,
                   question + (answer + after), q, answer + after, r);
  }

  /** Every reply generated with a non-zero rcode is rejected, for want of an answer; the
      response code that it carries on the wire is zero. */
  lemma ErrorReplyIsRejected(id: int, after: Bytes)
    requires 0 <= id < 65536
    ensures var buf := Header(id, 132, 16, 0, 0) + after;
            ParseResponse(buf, 12) == Returned(-1, None) && ResponseCode(Flags(buf)) == 0
  {
    HeaderFields(id, 132, 16, 0, 0, after);
  }

  /** The server reads back the name of every request, exactly when it fits the server's name buffer. */
  lemma RequestRoundTrip(name: Bytes, id: int, flags0: Byte, after: Bytes)
    requires Hostname(name) && 0 <= id < 65536 && flags0 in {0, 4}
    ensures var message := Header(id, flags0, 0, 1, 0) + Question(name);
            ParseRequest(message + after, |message|) ==
            if Fits(name) then Accepted(id, name, |Question(name)| - 1) else Undefined
  {
    hide Question, Hostname, QuestionAt;
    var header, question := Header(id, flags0, 0, 1, 0), Question(name);
    Associative(header, question, after);
    HeaderFields(id, flags0, 0, 1, 0, question + after);
    QuestionRoundTrip(name, after, |question|);
  }
}
