/** Decimal numerals, and Python's order on text. */
module Numerals {
  /** Python's `<` on strings. */
  predicate TextLess(a: string, b: string) {
    if b == "" then false
    else if a == "" then true
    else a[0] < b[0] || (a[0] == b[0] && TextLess(a[1..], b[1..]))
  }

  lemma {:induction false} TextLessTransitive(a: string, b: string, c: string)
    requires TextLess(a, b) && TextLess(b, c)
    ensures TextLess(a, c)
  {
    if a != "" && a[0] == b[0] && b[0] == c[0] {
      TextLessTransitive(a[1..], b[1..], c[1..]);
    }
  }

  lemma {:induction false} TextLessIrreflexive(a: string)
    ensures !TextLess(a, a)
  {
    if a != "" {
      TextLessIrreflexive(a[1..]);
    }
  }

  lemma {:induction false} TextLessTotal(a: string, b: string)
    ensures a == b || TextLess(a, b) || TextLess(b, a)
    ensures !(TextLess(a, b) && TextLess(b, a))
  {
    if a != "" && b != "" && a[0] == b[0] {
      TextLessTotal(a[1..], b[1..]);
      assert a == [a[0]] + a[1..] && b == [b[0]] + b[1..];
    }
  }

  // ---- Numbers ----

  predicate Digits(s: string) {
    forall i | 0 <= i < |s| :: '0' <= s[i] <= '9'
  }

  /** No sign and no leading zeros. */
  predicate Numeral(s: string) {
    s != "" && Digits(s) && (s[0] == '0' ==> |s| == 1)
  }

  function Power10(n: nat): nat {
    if n == 0 then 1 else 10 * Power10(n - 1)
  }

  function Value(s: string): nat
    requires Digits(s)
  {
    if s == "" then 0 else (s[0] - '0') as int * Power10(|s| - 1) + Value(s[1..])
  }

  lemma {:induction false} ValueBelow(s: string)
    requires Digits(s)
    ensures Value(s) < Power10(|s|)
  {
    if s != "" {
      ValueBelow(s[1..]);
      Times((s[0] - '0') as int, 9, Power10(|s| - 1));
    }
  }

  lemma Times(a: nat, b: nat, p: nat)
    ensures a <= b ==> a * p <= b * p
    ensures a < b ==> a * p + p <= b * p
  {
    if a < b {
      TimesAtLeast(a + 1, b, p);
      assert (a + 1) * p == a * p + p;
    }
  }

  lemma {:induction false} TimesAtLeast(a: nat, b: nat, p: nat)
    requires a <= b
    ensures a * p <= b * p
    decreases b - a
  {
    if a < b {
      TimesAtLeast(a + 1, b, p);
      assert (a + 1) * p == a * p + p;
    }
  }

  /** At equal length text order is number order. */
  lemma {:induction false} OrderAtEqualLength(a: string, b: string)
    requires Digits(a) && Digits(b) && |a| == |b|
    ensures TextLess(a, b) <==> Value(a) < Value(b)
  {
    if a != "" {
      OrderAtEqualLength(a[1..], b[1..]);
      ValueBelow(a[1..]);
      ValueBelow(b[1..]);
      var x, y, p := (a[0] - '0') as int, (b[0] - '0') as int, Power10(|a| - 1);
      Times(x, y, p);
      Times(y, x, p);
    }
  }

  /** At different lengths it is the order of the shorter text and as much of the longer one. */
  lemma {:induction false} OrderOfPrefix(a: string, b: string)
    requires |a| < |b|
    ensures TextLess(a, b) <==> !TextLess(b[..|a|], a)
    ensures TextLess(b, a) <==> TextLess(b[..|a|], a)
  {
    if a != "" {
      assert b[..|a|][1..] == b[1..][..|a| - 1];
      OrderOfPrefix(a[1..], b[1..]);
    }
  }

  lemma {:induction false} PowerGrows(m: nat, n: nat)
    requires m <= n
    ensures 1 <= Power10(m) <= Power10(n)
    decreases n
  {
    if m < n {
      PowerGrows(m, n - 1);
    } else if n > 0 {
      PowerGrows(n - 1, n - 1);
    }
  }

  lemma LongerIsGreater(a: string, b: string)
    requires Numeral(a) && Numeral(b) && |a| < |b|
    ensures Value(a) < Value(b)
  {
    ValueBelow(a);
    PowerGrows(|a|, |b| - 1);
    Times(1, (b[0] - '0') as int, Power10(|b| - 1));
  }

  /** Two numerals stand in text order as in number order exactly when they are equally long or the
      beginning of the longer one is not less than the shorter one. */
  lemma TextOrderExactlyWhen(a: string, b: string)
    requires Numeral(a) && Numeral(b)
    ensures (TextLess(a, b) <==> Value(a) < Value(b)) <==>
            if |a| == |b| then true
            else if |a| < |b| then !TextLess(b[..|a|], a)
            else !TextLess(a[..|b|], b)
  {
    if |a| == |b| {
      OrderAtEqualLength(a, b);
    } else if |a| < |b| {
      OrderOfPrefix(a, b);
      LongerIsGreater(a, b);
    } else {
      OrderOfPrefix(b, a);
      LongerIsGreater(b, a);
    }
  }

  /** The text of a number. */
  function Decimal(n: nat): string {
    var last := '0' + (n % 10) as char;
    if n < 10 then [last] else Decimal(n / 10) + [last]
  }

  lemma {:induction false} ValueAppend(s: string, c: char)
    requires Digits(s) && '0' <= c <= '9'
    ensures Digits(s + [c]) && Value(s + [c]) == 10 * Value(s) + (c - '0') as int
  {
    if s == "" {
      assert s + [c] == [c] && [c][1..] == "";
    } else {
      assert (s + [c])[1..] == s[1..] + [c];
      ValueAppend(s[1..], c);
      var d, p := (s[0] - '0') as int, Power10(|s| - 1);
      assert d * (10 * p) == 10 * (d * p);
    }
  }

  lemma {:induction false} DecimalIsNumeral(n: nat)
    ensures Numeral(Decimal(n)) && Value(Decimal(n)) == n
    ensures n > 0 ==> Decimal(n)[0] != '0'
  {
    var last := '0' + (n % 10) as char;
    if n < 10 {
      assert [last][1..] == "" && Power10(0) == 1;
    } else {
      DecimalIsNumeral(n / 10);
      ValueAppend(Decimal(n / 10), last);
      assert Decimal(n)[0] == Decimal(n / 10)[0];
    }
  }

  /** The text of an integer, as `%d` prints it. */
  function Signed(n: int): (s: string)
    ensures s != ""
  {
    if n < 0 then "-" + Decimal(-n) else Decimal(n)
  }

  /** It is a numeral of the number's size, behind a minus sign for a negative one. */
  lemma SignedMeans(n: int)
    ensures n >= 0 ==> Numeral(Signed(n)) && Value(Signed(n)) == n
    ensures n < 0 ==> Signed(n)[0] == '-' && Numeral(Signed(n)[1..]) && Value(Signed(n)[1..]) == -n
  {
    DecimalIsNumeral(if n < 0 then -n else n);
    assert n < 0 ==> Signed(n)[1..] == Decimal(-n);
  }
}
