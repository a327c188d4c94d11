/** The text the tables show: Python's `str` of an integer, the `GW <n>` column
    headers and the `<count> / <teams>` ownership fraction. */
module Text {
  import opened Seqs

  predicate IsDigit(c: char) {
    '0' <= c <= '9'
  }

  function DigitChar(d: nat): char
    requires d < 10
  {
    (48 + d) as char
  }

  function DigitValue(c: char): nat
    requires IsDigit(c)
  {
    c as int - 48
  }

  /** Python's `str(n)` for a non-negative integer. */
  function NatToString(n: nat): (s: string)
    ensures |s| > 0
    ensures forall k :: 0 <= k < |s| ==> IsDigit(s[k])
    ensures |s| > 1 ==> s[0] != '0'
  {
    if n < 10 then [DigitChar(n)] else NatToString(n / 10) + [DigitChar(n % 10)]
  }

  /** The number a string of decimal digits denotes. */
  function DecimalValue(s: string): nat
    requires forall k :: 0 <= k < |s| ==> IsDigit(s[k])
  {
    if s == [] then 0 else 10 * DecimalValue(s[..|s| - 1]) + DigitValue(s[|s| - 1])
  }

  lemma {:induction false} NatToStringRoundTrip(n: nat)
    ensures DecimalValue(NatToString(n)) == n
  {
    if n >= 10 {
      NatToStringRoundTrip(n / 10);
      var s := NatToString(n);
      assert s[..|s| - 1] == NatToString(n / 10);
    }
  }

  /** Python's `str(i)` (and `f"{i}"`) for any integer: a minus sign, then the digits. */
  function IntToString(i: int): (s: string)
    ensures |s| > 0
    ensures forall k :: 0 <= k < |s| ==> IsDigit(s[k]) || s[k] == '-'
  {
    if i < 0 then "-" + NatToString(-i) else NatToString(i)
  }

  lemma IntToStringInjective(a: int, b: int)
    requires IntToString(a) == IntToString(b)
    ensures a == b
  {
    var s := IntToString(a);
    if a < 0 {
      assert s[0] == '-';
      assert b < 0;
      assert NatToString(-a) == s[1..] == NatToString(-b);
      NatToStringRoundTrip(-a);
      NatToStringRoundTrip(-b);
    } else {
      assert IsDigit(NatToString(a)[0]);
      assert b >= 0;
      NatToStringRoundTrip(a);
      NatToStringRoundTrip(b);
    }
  }

  /** The header of a gameweek column, `f"GW {col}"`. */
  function GameweekHeader(g: int): string {
    "GW " + IntToString(g)
  }

  /** Distinct gameweeks get distinct column headers. */
  lemma GameweekHeaderInjective(a: int, b: int)
    requires GameweekHeader(a) == GameweekHeader(b)
    ensures a == b
  {
    assert IntToString(a) == GameweekHeader(a)[3..];
    IntToStringInjective(a, b);
  }

  /** `[f"GW {col}" for col in ...]`: the headers of the gameweek columns, in column order. */
  function GameweekHeaders(gameweeks: seq<int>): seq<string> {
    seq(|gameweeks|, j requires 0 <= j < |gameweeks| => GameweekHeader(gameweeks[j]))
  }

  /** Distinct gameweeks give distinct headers, each starting with 'G'. */
  lemma GameweekHeadersDistinct(gameweeks: seq<int>)
    requires Distinct(gameweeks)
    ensures Distinct(GameweekHeaders(gameweeks))
    ensures forall j :: 0 <= j < |gameweeks| ==> |GameweekHeaders(gameweeks)[j]| > 0 && GameweekHeaders(gameweeks)[j][0] == 'G'
  {
    var hs := GameweekHeaders(gameweeks);
    forall i, j | 0 <= i < j < |hs|
      ensures hs[i] != hs[j]
    {
      if hs[i] == hs[j] {
        GameweekHeaderInjective(gameweeks[i], gameweeks[j]);
      }
    }
  }

  /** The ownership fraction, `f"{count} / {total_teams}"`. */
  function FractionText(count: int, total: int): string {
    IntToString(count) + " / " + IntToString(total)
  }

  /** Index of the first space in `s`, or `|s|` when there is none. */
  function SpaceIndex(s: string): nat {
    if s == [] || s[0] == ' ' then 0 else 1 + SpaceIndex(s[1..])
  }

  lemma {:induction false} SpaceEndsNumber(x: string, rest: string)
    requires forall k :: 0 <= k < |x| ==> x[k] != ' '
    requires rest != [] && rest[0] == ' '
    ensures SpaceIndex(x + rest) == |x|
  {
    if x != [] {
      assert (x + rest)[1..] == x[1..] + rest;
      SpaceEndsNumber(x[1..], rest);
    }
  }

  /** Two concatenations that agree, with heads of one length, agree part by part. */
  lemma SplitEqual(x1: string, r1: string, x2: string, r2: string)
    requires x1 + r1 == x2 + r2 && |x1| == |x2|
    ensures x1 == x2 && r1 == r2
  {
    assert x1 == (x1 + r1)[..|x1|];
    assert x2 == (x2 + r2)[..|x2|];
    assert r1 == (x1 + r1)[|x1|..];
    assert r2 == (x2 + r2)[|x2|..];
  }

  /** The fraction text gives back both its numerator and its denominator. */
  lemma FractionTextInjective(c1: int, t1: int, c2: int, t2: int)
    requires FractionText(c1, t1) == FractionText(c2, t2)
    ensures c1 == c2 && t1 == t2
  {
    var x1, x2 := IntToString(c1), IntToString(c2);
    var r1, r2 := " / " + IntToString(t1), " / " + IntToString(t2);
    assert FractionText(c1, t1) == x1 + r1;
    assert FractionText(c2, t2) == x2 + r2;
    SpaceEndsNumber(x1, r1);
    SpaceEndsNumber(x2, r2);
    SplitEqual(x1, r1, x2, r2);
    SplitEqual(" / ", IntToString(t1), " / ", IntToString(t2));
    IntToStringInjective(c1, c2);
    IntToStringInjective(t1, t2);
  }
}
