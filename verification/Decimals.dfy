/** Snowflakes: decimal text, its value, and the two orders on it. */
module Decimals {
  import opened Options

  type Snowflake = string

  const UINT64_LIMIT: nat := 0x1_0000_0000_0000_0000

  function Digit(d: nat): (c: char)
    requires d < 10
    ensures IsDigit(c)
  {
    '0' + d as char
  }

  predicate IsDigit(c: char) {
    '0' <= c <= '9'
  }

  function DigitValue(c: char): (d: nat)
    requires IsDigit(c)
    ensures d < 10
  {
    c as nat - '0' as nat
  }

  predicate AllDigits(s: string) {
    forall i :: 0 <= i < |s| ==> IsDigit(s[i])
  }

  /** The value of a string of digits. */
  function Value(s: string): nat
    requires AllDigits(s)
  {
    if s == "" then 0 else 10 * Value(s[..|s| - 1]) + DigitValue(s[|s| - 1])
  }

  /** How a number prints. */
  function Decimal(n: nat): (s: string)
    ensures AllDigits(s) && s != "" && Value(s) == n
    ensures Canonical(s)
  {
    if n < 10 then
      var s := [Digit(n)];
      assert s[..0] == "";
      s
    else
      var t := Decimal(n / 10);
      var s := t + [Digit(n % 10)];
      assert s[..|s| - 1] == t;
      s
  }

  /** Digits without a superfluous leading zero. */
  predicate Canonical(s: string) {
    s != "" && AllDigits(s) && (s[0] == '0' ==> |s| == 1)
  }

  /** `strconv.ParseUint(s, 10, 64)`. */
  function ParseUint(s: string): (r: Option<nat>)
    ensures r.Some? <==> s != "" && AllDigits(s) && Value(s) < UINT64_LIMIT
    ensures r.Some? ==> r.value == Value(s)
  {
    if s == "" || !AllDigits(s) || Value(s) >= UINT64_LIMIT then None else Some(Value(s))
  }

  function Power10(k: nat): nat {
    if k == 0 then 1 else 10 * Power10(k - 1)
  }

  lemma {:induction false} ValueBelow(s: string)
    requires AllDigits(s)
    ensures Value(s) < Power10(|s|)
  {
    if s != "" {
      ValueBelow(s[..|s| - 1]);
    }
  }

  lemma {:induction false} ValueAtLeast(s: string)
    requires Canonical(s) && |s| > 1
    ensures Value(s) >= Power10(|s| - 1)
  {
    var t := s[..|s| - 1];
    if |s| == 2 {
      assert t[..0] == "" && Value(t) == DigitValue(s[0]);
      assert Power10(1) == 10;
    } else {
      assert t[0] == s[0];
      ValueAtLeast(t);
    }
  }

  lemma {:induction false} Power10Grows(a: nat, b: nat)
    requires a <= b
    ensures Power10(a) <= Power10(b)
  {
    if a < b {
      Power10Grows(a, b - 1);
    }
  }

  /** Lexicographic order of two strings, as JavaScript's `<` and Go's string comparison have it. */
  predicate Before(a: string, b: string) {
    if b == "" then false
    else if a == "" then true
    else if a[0] != b[0] then a[0] < b[0]
    else Before(a[1..], b[1..])
  }

  /** `compareSnowflake_`: shorter first, then lexicographically. */
  function CompareSnowflake(a: string, b: string): int {
    if |a| != |b| then |a| - |b|
    else if Before(a, b) then -1
    else if Before(b, a) then 1
    else 0
  }

  lemma {:induction false} BeforeTotal(a: string, b: string)
    ensures a == b || Before(a, b) || Before(b, a)
    ensures !(Before(a, b) && Before(b, a))
    ensures a == b ==> !Before(a, b)
  {
    if a != "" && b != "" {
      BeforeTotal(a[1..], b[1..]);
      assert a == [a[0]] + a[1..] && b == [b[0]] + b[1..];
    }
  }

  lemma {:induction false} BeforeTransitive(a: string, b: string, c: string)
    requires Before(a, b) && Before(b, c)
    ensures Before(a, c)
  {
    if a != "" && a[0] == b[0] == c[0] {
      BeforeTransitive(a[1..], b[1..], c[1..]);
    }
  }

  /** Appending a digit to equally long strings: the earlier digits decide first. */
  lemma {:induction false} BeforeSnoc(a: string, b: string, x: char, y: char)
    requires |a| == |b|
    ensures Before(a + [x], b + [y]) <==> Before(a, b) || (a == b && x < y)
  {
    if a == "" {
      assert a + [x] == [x] && b + [y] == [y];
    } else {
      assert (a + [x])[1..] == a[1..] + [x] && (b + [y])[1..] == b[1..] + [y];
      BeforeSnoc(a[1..], b[1..], x, y);
      assert a == [a[0]] + a[1..] && b == [b[0]] + b[1..];
    }
  }

  /** On equally long digit strings the lexicographic order is the numeric one. */
  lemma {:induction false} EqualLengthOrder(a: string, b: string)
    requires AllDigits(a) && AllDigits(b) && |a| == |b|
    ensures Before(a, b) <==> Value(a) < Value(b)
    ensures a == b <==> Value(a) == Value(b)
  {
    if a != "" {
      var n := |a| - 1;
      var p, q := a[..n], b[..n];
      EqualLengthOrder(p, q);
      BeforeSnoc(p, q, a[n], b[n]);
      assert a == p + [a[n]] && b == q + [b[n]];
    }
  }

  /** `compareSnowflake_` is the numeric order on canonical decimal strings, although it never converts. */
  lemma CompareIsNumeric(a: string, b: string)
    requires Canonical(a) && Canonical(b)
    ensures CompareSnowflake(a, b) < 0 <==> Value(a) < Value(b)
    ensures CompareSnowflake(a, b) == 0 <==> a == b
    ensures a == b <==> Value(a) == Value(b)
  {
    if |a| == |b| {
      EqualLengthOrder(a, b);
      BeforeTotal(a, b);
    } else if |a| < |b| {
      ShorterIsLess(a, b);
    } else {
      ShorterIsLess(b, a);
    }
  }

  lemma ShorterIsLess(a: string, b: string)
    requires Canonical(a) && Canonical(b) && |a| < |b|
    ensures Value(a) < Value(b)
  {
    ValueBelow(a);
    Power10Grows(|a|, |b| - 1);
    ValueAtLeast(b);
  }

  /** Printing and parsing a snowflake. */
  lemma ParsePrinted(n: nat)
    requires n < UINT64_LIMIT
    ensures ParseUint(Decimal(n)) == Some(n)
  {
  }

  lemma PrintParsed(s: string)
    requires Canonical(s)
    ensures Decimal(Value(s)) == s
  {
    CompareIsNumeric(Decimal(Value(s)), s);
  }
}
