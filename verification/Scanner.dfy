/** The scanner that looks for the blank line at the end of a header. */
module Scanner {
  import opened Options
  import opened Wire

  const CR: Byte := 13
  const LF: Byte := 10

  /** START 0, CR 1, CRLF 2, CRLFCR 3, CRLFCRLF 4. An unexpected byte always leads back to
      START, even when it could begin a new line end. */
  function Next(state: int, ch: Byte): int {
    var expected := if state == 0 || state == 2 then CR else LF;
    if ch == expected then state + 1 else 0
  }

  /** The state after the first i bytes; the scan stops in state 4. */
  function State(s: Bytes, i: nat): (r: int)
    requires i <= |s|
    ensures 0 <= r <= 4 && r <= i
    decreases i
  {
    if i == 0 then 0
    else if State(s, i - 1) == 4 then 4
    else Next(State(s, i - 1), s[i - 1])
  }

  /** Where the scan stops first, if it does. */
  ghost predicate StopsAt(s: Bytes, p: nat) {
    p <= |s| && State(s, p) == 4 && forall q | 0 <= q < p :: State(s, q) != 4
  }

  /** The first stop from place i on. */
  function StopFrom(s: Bytes, i: nat): (r: Option<nat>)
    requires i <= |s|
    ensures r.Some? ==> i <= r.value <= |s|
    decreases |s| - i
  {
    if State(s, i) == 4 then Some(i) else if i == |s| then None else StopFrom(s, i + 1)
  }

  /** The position behind the header, or None when more is needed. */
  function Position(s: Bytes): Option<nat> {
    StopFrom(s, 0)
  }

  /** The scanning loop of the request and response parsers. */
  method Scan(buffer: array<Byte>, size: nat) returns (r: Option<nat>)
    requires size <= buffer.Length
    ensures r == Position(buffer[..size])
  {
    var i, state := 0, 0;
    while state != 4
      invariant 0 <= i <= size && state == State(buffer[..size], i)
      invariant Position(buffer[..size]) == StopFrom(buffer[..size], i)
      decreases size - i
    {
      if i == size {
        break;
      }
      var ch := buffer[i];
      i := i + 1;
      state := Next(state, ch);
    }
    return if state == 4 then Some(i) else None;
  }

  lemma {:induction false} StopFromIsFirst(s: Bytes, i: nat, p: nat)
    requires i <= p && StopsAt(s, p)
    ensures StopFrom(s, i) == Some(p)
    decreases p - i
  {
    if i < p {
      StopFromIsFirst(s, i + 1, p);
    }
  }

  // ---- What the scanner finds ----

  predicate BlankLineAt(s: Bytes, k: int) {
    0 <= k && k + 4 <= |s| && s[k] == CR && s[k + 1] == LF && s[k + 2] == CR && s[k + 3] == LF
  }

  /** How many carriage returns end at place i. */
  function CrRun(s: Bytes, i: nat): nat
    requires i < |s|
    decreases i
  {
    if s[i] != CR then 0 else if i == 0 then 1 else CrRun(s, i - 1) + 1
  }

  /** Before it stops, the scanner is behind a carriage return exactly when an odd run of
      them ends there. */
  lemma {:induction false} BehindCr(s: Bytes, i: nat)
    requires 0 < i <= |s| && State(s, i - 1) != 4
    ensures State(s, i) == 1 || State(s, i) == 3 <==> CrRun(s, i - 1) % 2 == 1
    decreases i
  {
    if i > 1 && State(s, i - 2) != 4 {
      BehindCr(s, i - 1);
    }
  }

  /** The scan stops behind the first blank line whose carriage return ends an odd run. */
  ghost predicate Stop(s: Bytes, p: nat) {
    p >= 4 && BlankLineAt(s, p - 4) && CrRun(s, p - 4) % 2 == 1
  }

  lemma StopIsFound(s: Bytes, p: nat)
    requires p <= |s| && forall q | 0 <= q < p :: State(s, q) != 4
    ensures State(s, p) == 4 <==> Stop(s, p)
  {
    if p >= 4 {
      BehindCr(s, p - 3);
      assert State(s, p - 1) == Next(State(s, p - 2), s[p - 2]);
      assert State(s, p - 2) == Next(State(s, p - 3), s[p - 3]);
    }
  }

  lemma ScanExactly(s: Bytes, p: nat)
    requires p <= |s|
    ensures StopsAt(s, p) <==> Stop(s, p) && forall q | 0 <= q < p :: !Stop(s, q)
  {
    if StopsAt(s, p) {
      StopIsFound(s, p);
      forall q | 0 <= q < p ensures !Stop(s, q) {
        StopIsFound(s, q);
      }
    } else if Stop(s, p) && forall q | 0 <= q < p :: !Stop(s, q) {
      NoEarlierStop(s, p);
      StopIsFound(s, p);
    }
  }

  lemma {:induction false} NoEarlierStop(s: Bytes, p: nat)
    requires p <= |s| && forall q | 0 <= q < p :: !Stop(s, q)
    ensures forall q | 0 <= q < p :: State(s, q) != 4
    decreases p
  {
    if p > 0 {
      NoEarlierStop(s, p - 1);
      StopIsFound(s, p - 1);
    }
  }

  /** The first blank line of s is at k. */
  ghost predicate FirstBlankLine(s: Bytes, k: nat) {
    BlankLineAt(s, k) && forall j | 0 <= j < k :: !BlankLineAt(s, j)
  }

  /** The first blank line is found exactly when an odd run of carriage returns leads to
      it; an even run hides it. */
  lemma FirstBlankLineFound(s: Bytes, k: nat)
    requires FirstBlankLine(s, k)
    ensures StopsAt(s, k + 4) <==> CrRun(s, k) % 2 == 1
  {
    ScanExactly(s, k + 4);
    forall q | 0 <= q < k + 4 ensures !Stop(s, q) {
      assert q >= 4 ==> !BlankLineAt(s, q - 4);
    }
  }

  /** CR CR LF CR LF holds a blank line that the scanner does not see. */
  lemma HiddenBlankLine()
    ensures FirstBlankLine([CR, CR, LF, CR, LF], 1) && !StopsAt([CR, CR, LF, CR, LF], 5)
  {
    var s: Bytes := [CR, CR, LF, CR, LF];
    assert CrRun(s, 0) == 1 && CrRun(s, 1) == 2;
    FirstBlankLineFound(s, 1);
  }

  predicate NoBareCr(s: Bytes) {
    forall i | 0 <= i < |s| - 1 && s[i] == CR :: s[i + 1] == LF
  }

  /** Without bare carriage returns every blank line is seen. */
  lemma WithoutBareCr(s: Bytes, k: nat)
    requires NoBareCr(s) && FirstBlankLine(s, k)
    ensures StopsAt(s, k + 4)
  {
    assert k > 0 ==> s[k - 1] != CR;
    FirstBlankLineFound(s, k);
  }

  lemma {:induction false} StatePrefix(s: Bytes, t: Bytes, i: nat)
    requires i <= |s|
    ensures State(s + t, i) == State(s, i)
    decreases i
  {
    if i > 0 {
      StatePrefix(s, t, i - 1);
    }
  }

  /** What follows a header does not change where its scan stops. */
  lemma PositionPrefix(s: Bytes, t: Bytes)
    requires StopsAt(s, |s|)
    ensures Position(s + t) == Some(|s|)
  {
    forall q | 0 <= q <= |s| ensures State(s + t, q) == State(s, q) {
      StatePrefix(s, t, q);
    }
    StopFromIsFirst(s + t, 0, |s|);
  }
}
