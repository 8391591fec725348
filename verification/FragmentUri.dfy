/** The rewriting of a fragment request to another rate, and what of it is sent. */
module FragmentUri {
  import opened Options
  import opened Numerals

  predicate SegmentAt(s: string, k: nat) {
    k + 3 <= |s| && s[k..k + 3] == "Seg"
  }

  /** Where the segment part starts: the first place, from i on. */
  function SegmentFrom(s: string, i: nat): (r: Option<nat>)
    requires i <= |s|
    ensures r.Some? ==> i <= r.value && SegmentAt(s, r.value)
    decreases |s| - i
  {
    if SegmentAt(s, i) then Some(i) else if i == |s| then None else SegmentFrom(s, i + 1)
  }

  /** The last slash up to place i. */
  function SlashBefore(s: string, i: nat): (r: Option<nat>)
    requires i < |s|
    ensures r.Some? ==> r.value <= i && s[r.value] == '/' && '/' !in s[r.value + 1..i + 1]
    ensures r.None? ==> '/' !in s[..i + 1]
  {
    if s[i] == '/' then Some(i)
    else if i == 0 then (assert s[..1] == [s[0]]; None)
    else
      assert s[..i + 1] == s[..i] + [s[i]];
      var r := SlashBefore(s, i - 1);
      assert r.Some? ==> s[r.value + 1..i + 1] == s[r.value + 1..i] + [s[i]];
      r
  }

  /** The request with what stands between the last slash and the segment part replaced by the rate; as it
      is without a segment part. None stands for a read in front of the buffer. */
  function WithRate(s: string, rate: int): Option<string> {
    match SegmentFrom(s, 0)
    case None => Some(s)
    case Some(p) =>
      match SlashBefore(s, p)
      case None => None
      case Some(q) => Some(s[..q] + "/" + Signed(rate) + s[p..])
  }

  method ReplaceUriBitrate(request: string, rate: int) returns (r: Option<string>)
    ensures r == WithRate(request, rate)
  {
    var left := 0;
    while left < |request| && !SegmentAt(request, left)
      invariant left <= |request| && SegmentFrom(request, 0) == SegmentFrom(request, left)
    {
      left := left + 1;
    }
    if left == |request| {
      return Some(request);
    }
    var pt := left;
    while request[pt] != '/'
      invariant 0 <= pt <= left && SlashBefore(request, left) == SlashBefore(request, pt)
      decreases pt
    {
      if pt == 0 {
        return None;
      }
      pt := pt - 1;
    }
    return Some(request[..pt] + "/" + Signed(rate) + request[left..]);
  }

  // ---- What the rewriting means ----

  lemma {:induction false} FirstSegment(s: string, i: nat, p: nat)
    requires i <= p <= |s| && SegmentAt(s, p) && forall k | i <= k < p :: !SegmentAt(s, k)
    ensures SegmentFrom(s, i) == Some(p)
    decreases p - i
  {
    if i < p {
      FirstSegment(s, i + 1, p);
    }
  }

  lemma {:induction false} NoneBefore(s: string, i: nat)
    requires i <= |s|
    ensures SegmentFrom(s, i).Some? ==> forall k | i <= k < SegmentFrom(s, i).value :: !SegmentAt(s, k)
    ensures SegmentFrom(s, i).None? ==> forall k | i <= k <= |s| :: !SegmentAt(s, k)
    decreases |s| - i
  {
    if !SegmentAt(s, i) && i < |s| {
      NoneBefore(s, i + 1);
    }
  }

  lemma {:induction false} LastSlash(s: string, i: nat, q: nat)
    requires q <= i < |s| && s[q] == '/' && forall k | q < k <= i :: s[k] != '/'
    ensures SlashBefore(s, i) == Some(q)
    decreases i
  {
    if q < i {
      LastSlash(s, i - 1, q);
    }
  }

  lemma {:induction false} DecimalIsPlain(n: nat)
    ensures forall i | 0 <= i < |Decimal(n)| :: '0' <= Decimal(n)[i] <= '9'
  {
    if n >= 10 {
      DecimalIsPlain(n / 10);
    }
  }

  lemma SignedIsPlain(n: int)
    ensures forall i | 0 <= i < |Signed(n)| :: Signed(n)[i] != '/' && Signed(n)[i] != 'S'
  {
    DecimalIsPlain(if n < 0 then -n else n);
  }

  /** In the rewritten request the rate stands between the last slash and the same first segment part. */
  lemma RateInPlace(s: string, rate: int, p: nat, q: nat)
    requires SegmentFrom(s, 0) == Some(p) && SlashBefore(s, p) == Some(q)
    ensures var t := s[..q] + "/" + Signed(rate) + s[p..];
            && SegmentFrom(t, 0) == Some(q + 1 + |Signed(rate)|)
            && SlashBefore(t, q + 1 + |Signed(rate)|) == Some(q)
            && t[q + 1..q + 1 + |Signed(rate)|] == Signed(rate)
  {
    var d := Signed(rate);
    var t, p' := s[..q] + "/" + d + s[p..], q + 1 + |d|;
    NoneBefore(s, 0);
    SignedIsPlain(rate);
    assert s[p] == "Seg"[0] == 'S' by { assert s[p..p + 3][0] == "Seg"[0]; }
    assert t[p'..p' + 3] == s[p..p + 3];
    forall k | 0 <= k < p'
      ensures !SegmentAt(t, k)
    {
      NoSegment(s, t, d, p, q, k);
    }
    FirstSegment(t, 0, p');
    forall k | q < k <= p'
      ensures t[k] != '/'
    {
      assert k < p' ==> t[k] == d[k - q - 1];
    }
    LastSlash(t, p', q);
    assert t[q + 1..p'] == d;
  }

  lemma NoSegment(s: string, t: string, d: string, p: nat, q: nat, k: nat)
    requires q <= p && p + 3 <= |s| && t == s[..q] + "/" + d + s[p..] && k < q + 1 + |d|
    requires forall j | 0 <= j < p :: !SegmentAt(s, j)
    requires forall j | 0 <= j < |d| :: d[j] != '/' && d[j] != 'S'
    ensures !SegmentAt(t, k)
  {
    assert t[q] == '/' && forall j | q < j < q + 1 + |d| :: t[j] == d[j - q - 1];
    if SegmentAt(t, k) {
      assert t[k..k + 3][0] == 'S' && t[k..k + 3][1] == 'e' && t[k..k + 3][2] == 'g';
      assert t[k] == 'S' && t[k + 1] == 'e' && t[k + 2] == 'g';
      if k < q {
        assert k + 2 < q;
        assert s[k..k + 3] == "Seg";
        assert SegmentAt(s, k);
      }
    }
  }

  /** A second rewriting undoes the first one. */
  lemma RewritingTwice(s: string, a: int, b: int)
    requires WithRate(s, a).Some?
    ensures WithRate(WithRate(s, a).value, b) == WithRate(s, b)
  {
    match SegmentFrom(s, 0)
    case None =>
    case Some(p) =>
      var q := SlashBefore(s, p).value;
      RateInPlace(s, a, p, q);
      var t, p' := WithRate(s, a).value, q + 1 + |Signed(a)|;
      assert t[..q] == s[..q] && t[p'..] == s[p..];
  }

  /** The rewriting, spelled out: `front/old` in front of the first `Seg` becomes `front/rate`. */
  lemma RewritingMeans(front: string, was: string, rest: string, rate: int)
    requires '/' !in was
    requires var s := front + "/" + was + "Seg" + rest;
             forall k | 0 <= k < |front| + 1 + |was| :: !SegmentAt(s, k)
    ensures WithRate(front + "/" + was + "Seg" + rest, rate) == Some(front + "/" + Signed(rate) + "Seg" + rest)
  {
    var s, q := front + "/" + was + "Seg" + rest, |front|;
    var p := q + 1 + |was|;
    assert s[p..p + 3] == "Seg" && s[p..] == "Seg" + rest && s[..q] == front && s[q] == '/';
    FirstSegment(s, 0, p);
    forall k | q < k <= p ensures s[k] != '/' {
      assert k < p ==> s[k] == was[k - q - 1];
    }
    LastSlash(s, p, q);
    var t := front + "/" + Signed(rate);
    assert t + ("Seg" + rest) == t + "Seg" + rest;
  }

  lemma NothingToRewrite(s: string, rate: int)
    requires forall k | 0 <= k <= |s| :: !SegmentAt(s, k)
    ensures WithRate(s, rate) == Some(s)
  {
    NoneBefore(s, 0);
  }

  // ---- What is sent ----

  /** The length sent is that of the request before it was rewritten. A shorter text is followed by its
      zero and by what lay behind it before. */
  function Sent(s: string, t: string): (r: string)
    ensures |r| == |s|
  {
    if |t| >= |s| then t[..|s|] else t + ['\0'] + s[|t| + 1..]
  }

  lemma SentMeans(s: string, t: string)
    ensures |t| >= |s| ==> Sent(s, t) == t[..|s|]
    ensures |t| < |s| ==> Sent(s, t)[..|t|] == t && Sent(s, t)[|t|] == '\0'
    ensures forall i | |t| < i < |s| :: Sent(s, t)[i] == s[i]
  {
  }

  /** The rewritten request is sent whole, and nothing else, exactly when the rate is as long as what stood
      between the last slash and the segment part. */
  lemma SentWholeExactlyWhen(s: string, rate: int, p: nat, q: nat)
    requires SegmentFrom(s, 0) == Some(p) && SlashBefore(s, p) == Some(q)
    ensures var t := WithRate(s, rate);
            t.Some? && (Sent(s, t.value) == t.value <==> |Signed(rate)| == p - q - 1)
  {
    SlashIsBefore(s, p, q);
  }

  lemma SlashIsBefore(s: string, p: nat, q: nat)
    requires SegmentAt(s, p) && SlashBefore(s, p) == Some(q)
    ensures q < p
  {
    assert s[p..p + 3][0] == "Seg"[0];
  }
}
