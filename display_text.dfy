/**
 * The display strings a recommendation carries: an integer as a template
 * literal prints it (optional minus sign, decimal digits, no leading zeros),
 * the ideal range "min–max" joined by an en dash, and a list of soils
 * joined by a separator.
 */
module DisplayText {

  const EnDash: char := '\U{2013}'

  predicate IsDigit(c: char) {
    '0' <= c <= '9'
  }

  predicate AllDigits(s: string) {
    forall i :: 0 <= i < |s| ==> IsDigit(s[i])
  }

  function DigitChar(d: int): (c: char)
    requires 0 <= d < 10
    ensures IsDigit(c)
  {
    (d + '0' as int) as char
  }

  function DigitValue(c: char): (d: int)
    requires IsDigit(c)
    ensures 0 <= d < 10
  {
    c as int - '0' as int
  }

  /** The decimal digits of `n`, most significant first, without leading zeros. */
  function NatText(n: nat): (s: string)
    ensures |s| > 0 && AllDigits(s)
    ensures s[0] == '0' ==> n == 0
  {
    if n < 10 then [DigitChar(n)] else NatText(n / 10) + [DigitChar(n % 10)]
  }

  /** The number a string of decimal digits denotes. */
  function NatValue(s: string): nat
    requires AllDigits(s)
  {
    if |s| == 0 then 0 else NatValue(s[..|s| - 1]) * 10 + DigitValue(s[|s| - 1])
  }

  lemma {:induction false} NatTextRoundTrip(n: nat)
    ensures NatValue(NatText(n)) == n
  {
    var s := NatText(n);
    if n >= 10 {
      NatTextRoundTrip(n / 10);
      assert s[..|s| - 1] == NatText(n / 10);
    }
  }

  /** An integer as a template literal prints it. */
  function IntText(n: int): (s: string)
    ensures |s| > 0
    ensures EnDash !in s
  {
    if n < 0 then "-" + NatText(-n) else NatText(n)
  }

  /** The number denoted by a possibly negative decimal string. */
  function IntValue(s: string): int
    requires |s| > 0
    requires if s[0] == '-' then AllDigits(s[1..]) else AllDigits(s)
  {
    if s[0] == '-' then 0 - NatValue(s[1..]) else NatValue(s)
  }

  lemma IntTextRoundTrip(n: int)
    ensures var s := IntText(n); |s| > 0 && (if s[0] == '-' then AllDigits(s[1..]) else AllDigits(s)) && IntValue(s) == n
  {
    if n < 0 {
      NatTextRoundTrip(-n);
      assert IntText(n)[1..] == NatText(-n);
    } else {
      NatTextRoundTrip(n);
    }
  }

  /** The ideal temperature range as displayed: "min–max". */
  function RangeText(lo: int, hi: int): string {
    IntText(lo) + [EnDash] + IntText(hi)
  }

  /** The range text splits at its only en dash back into the two bounds. */
  lemma RangeTextRoundTrip(lo: int, hi: int)
    ensures var s, k := RangeText(lo, hi), |IntText(lo)|;
      k < |s| && s[k] == EnDash && EnDash !in s[..k] && EnDash !in s[k + 1..]
      && s[..k] == IntText(lo) && s[k + 1..] == IntText(hi)
      && IntValue(s[..k]) == lo && IntValue(s[k + 1..]) == hi
  {
    var s, k := RangeText(lo, hi), |IntText(lo)|;
    assert s[..k] == IntText(lo);
    assert s[k + 1..] == IntText(hi);
    IntTextRoundTrip(lo);
    IntTextRoundTrip(hi);
  }

  /** The summed length of a list of strings. */
  function TotalLength(xs: seq<string>): nat {
    if |xs| == 0 then 0 else TotalLength(xs[..|xs| - 1]) + |xs[|xs| - 1]|
  }

  /** The strings of `xs` in order, with `sep` between neighbours. */
  function Join(xs: seq<string>, sep: string): string {
    if |xs| == 0 then ""
    else if |xs| == 1 then xs[0]
    else Join(xs[..|xs| - 1], sep) + sep + xs[|xs| - 1]
  }

  /** The joined string holds every character of the parts plus one separator between
      each pair of neighbours, and ends with the last part. */
  lemma {:induction false} JoinLength(xs: seq<string>, sep: string)
    ensures |xs| == 0 ==> Join(xs, sep) == ""
    ensures |xs| > 0 ==> |Join(xs, sep)| == TotalLength(xs) + (|xs| - 1) * |sep|
    ensures |xs| > 0 ==> Join(xs, sep)[|Join(xs, sep)| - |xs[|xs| - 1]|..] == xs[|xs| - 1]
  {
    if |xs| > 1 {
      var init := xs[..|xs| - 1];
      JoinLength(init, sep);
      assert TotalLength(xs) == TotalLength(init) + |xs[|xs| - 1]|;
      assert (|xs| - 1) * |sep| == (|init| - 1) * |sep| + |sep|;
    } else if |xs| == 1 {
      assert xs[..0] == [];
    }
  }

  /** Read from the front: the first part, a separator, then the rest joined. Together with
      `Join([x], sep) == x` this lays out every part in order with `sep` between neighbours. */
  lemma {:induction false} JoinFront(xs: seq<string>, sep: string)
    requires |xs| > 1
    ensures Join(xs, sep) == xs[0] + sep + Join(xs[1..], sep)
    decreases |xs|
  {
    var n := |xs|;
    if n == 2 {
      assert xs[..1] == [xs[0]];
      assert xs[1..] == [xs[1]];
    } else {
      var init := xs[..n - 1];
      JoinFront(init, sep);
      assert init[1..] == xs[1..][..n - 2];
      assert xs[1..][n - 2] == xs[n - 1];
    }
  }
}
