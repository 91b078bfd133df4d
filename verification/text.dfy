/**
 * String helpers with Java's semantics: decimal rendering of an int
 * (`Integer.toString`, `StringBuilder.append(int)`), `Integer.parseInt`
 * restricted to ASCII digits, `String.indexOf` and joining with a separator.
 */
module Text {
  import opened InfernoTypes

  predicate IsDigit(c: char) { '0' <= c <= '9' }

  predicate AllDigits(s: string) { forall i :: 0 <= i < |s| ==> IsDigit(s[i]) }

  function DigitChar(d: nat): (c: char)
    requires d < 10
    ensures IsDigit(c)
  {
    ['0', '1', '2', '3', '4', '5', '6', '7', '8', '9'][d]
  }

  function DigitValue(c: char): (d: nat)
    requires IsDigit(c)
    ensures d < 10
  {
    (c as int - '0' as int) as nat
  }

  lemma DigitRoundTrip(d: nat)
    requires d < 10
    ensures DigitValue(DigitChar(d)) == d
  {
  }

  /** Decimal digits of `n`, most significant first, without leading zeros. */
  function NatToString(n: nat): string
  {
    if n < 10 then [DigitChar(n)] else NatToString(n / 10) + [DigitChar(n % 10)]
  }

  /** The rendering is a non-empty run of digits. */
  lemma {:induction false} NatToStringDigits(n: nat)
    ensures |NatToString(n)| >= 1 && AllDigits(NatToString(n))
  {
    if n >= 10 {
      NatToStringDigits(n / 10);
    }
  }

  /** `Integer.toString(i)`. */
  function IntToString(i: int): string
  {
    if i < 0 then "-" + NatToString(-i) else NatToString(i)
  }

  /** A non-negative int renders as digits; a negative one as a minus sign and digits. */
  lemma IntToStringShape(i: int)
    ensures |IntToString(i)| >= 1
    ensures i >= 0 ==> AllDigits(IntToString(i))
    ensures i < 0 ==> IntToString(i)[0] == '-' && AllDigits(IntToString(i)[1..])
  {
    if i < 0 {
      NatToStringDigits(-i);
      assert IntToString(i)[1..] == NatToString(-i);
    } else {
      NatToStringDigits(i);
    }
  }

  /** The value of a string of decimal digits, most significant first. */
  function DigitsValue(s: string): nat
    requires AllDigits(s)
  {
    if s == [] then 0 else DigitsValue(s[..|s| - 1]) * 10 + DigitValue(s[|s| - 1])
  }

  lemma {:induction false} NatToStringValue(n: nat)
    ensures AllDigits(NatToString(n)) && DigitsValue(NatToString(n)) == n
  {
    NatToStringDigits(n);
    var s := NatToString(n);
    if n < 10 {
      DigitRoundTrip(n);
      assert s[..0] == [];
    } else {
      NatToStringValue(n / 10);
      DigitRoundTrip(n % 10);
      assert s[..|s| - 1] == NatToString(n / 10);
    }
  }

  /**
   * `Integer.parseInt(s)` over ASCII digits: an optional leading sign, at least
   * one digit, and a value that fits in 32 bits; anything else throws, which
   * is `None` here.
   */
  function ParseJavaInt(s: string): (r: Option<int>)
    ensures r.Some? ==> -INT_MAX - 1 <= r.value <= INT_MAX
    ensures r.Some? ==> |s| >= 1
  {
    if |s| == 0 then None
    else
      var negative := s[0] == '-';
      var body := if s[0] == '-' || s[0] == '+' then s[1..] else s;
      if |body| == 0 || !AllDigits(body) then None
      else
        var mag: int := DigitsValue(body);
        var v := if negative then -mag else mag;
        if -INT_MAX - 1 <= v <= INT_MAX then Some(v) else None
  }

  /** Rendering an int and parsing it back gives the int again. */
  lemma ParseIntToString(i: int)
    requires -INT_MAX - 1 <= i <= INT_MAX
    ensures ParseJavaInt(IntToString(i)) == Some(i)
  {
    var s := IntToString(i);
    if i < 0 {
      NatToStringValue(-i);
      assert s[0] == '-' && s[1..] == NatToString(-i);
      assert DigitsValue(s[1..]) == -i;
    } else {
      NatToStringValue(i);
      assert IsDigit(s[0]);
      assert DigitsValue(s) == i;
    }
  }

  /** Whether `pat` occurs in `s` starting at position `k`. */
  predicate OccursAt(s: string, pat: string, k: nat)
  {
    k + |pat| <= |s| && s[k..k + |pat|] == pat
  }

  /** `s.indexOf(pat, from)`: the first occurrence at or after `from`, or −1. */
  function IndexOfFrom(s: string, pat: string, from: nat): (r: int)
    decreases |s| - from
    ensures r == -1 || (from <= r && OccursAt(s, pat, r))
    ensures r == -1 ==> forall k :: from <= k <= |s| ==> !OccursAt(s, pat, k)
    ensures r >= 0 ==> forall k :: from <= k < r ==> !OccursAt(s, pat, k)
  {
    if from + |pat| > |s| then -1
    else if s[from..from + |pat|] == pat then from
    else IndexOfFrom(s, pat, from + 1)
  }

  /** `s.indexOf(pat)`. */
  function IndexOf(s: string, pat: string): (r: int)
    ensures r == -1 <==> forall k :: 0 <= k <= |s| ==> !OccursAt(s, pat, k)
    ensures r != -1 ==> 0 <= r && OccursAt(s, pat, r) && forall k :: 0 <= k < r ==> !OccursAt(s, pat, k)
  {
    IndexOfFrom(s, pat, 0)
  }

  /** `s.contains(pat)`. */
  predicate Contains(s: string, pat: string)
    ensures Contains(s, pat) <==> exists k :: 0 <= k <= |s| && OccursAt(s, pat, k)
  {
    IndexOf(s, pat) >= 0
  }

  /** The first occurrence is found when nothing earlier matches. */
  lemma IndexOfIs(s: string, pat: string, k: nat)
    requires OccursAt(s, pat, k)
    requires forall j :: 0 <= j < k ==> !OccursAt(s, pat, j)
    ensures IndexOf(s, pat) == k
  {
  }

  /** The entries joined with single spaces (a `StringBuilder` that appends " " before every entry but the first). */
  function JoinSpaced(xs: seq<string>): string
  {
    if |xs| == 0 then "" else if |xs| == 1 then xs[0] else JoinSpaced(xs[..|xs| - 1]) + " " + xs[|xs| - 1]
  }

  /** The joined text is as long as the entries plus one separator between each two. */
  lemma {:induction false} JoinSpacedLength(xs: seq<string>)
    ensures |JoinSpaced(xs)| == SumLengths(xs) + (if |xs| == 0 then 0 else |xs| - 1)
  {
    if |xs| > 1 {
      JoinSpacedLength(xs[..|xs| - 1]);
    }
  }

  function SumLengths(xs: seq<string>): nat
  {
    if |xs| == 0 then 0 else SumLengths(xs[..|xs| - 1]) + |xs[|xs| - 1]|
  }
}
