// String operations the display code applies to feed values: JavaScript's
// `toUpperCase`/`toLowerCase` (ASCII letters only), `Math.round` and
// `Number.prototype.toString` on integers, with a decimal parser as its inverse.

module Text {
  import opened Wrappers

  function UpperChar(c: char): char
  {
    if 'a' <= c <= 'z' then (c as int - 32) as char else c
  }

  function LowerChar(c: char): char
  {
    if 'A' <= c <= 'Z' then (c as int + 32) as char else c
  }

  /** `s.toUpperCase()` restricted to ASCII letters. */
  function Upper(s: string): (r: string)
    ensures |r| == |s|
    ensures forall i :: 0 <= i < |s| ==> r[i] == UpperChar(s[i])
    ensures forall i :: 0 <= i < |r| ==> !('a' <= r[i] <= 'z')
    ensures forall i :: 0 <= i < |s| ==> LowerChar(r[i]) == LowerChar(s[i])
  {
    seq(|s|, i requires 0 <= i < |s| => UpperChar(s[i]))
  }

  /** `s.toLowerCase()` restricted to ASCII letters. */
  function Lower(s: string): (r: string)
    ensures |r| == |s|
    ensures forall i :: 0 <= i < |s| ==> r[i] == LowerChar(s[i])
    ensures forall i :: 0 <= i < |r| ==> !('A' <= r[i] <= 'Z')
    ensures forall i :: 0 <= i < |s| ==> UpperChar(r[i]) == UpperChar(s[i])
  {
    seq(|s|, i requires 0 <= i < |s| => LowerChar(s[i]))
  }

  /** Two strings that differ only in the case of ASCII letters. */
  predicate SameIgnoringCase(a: string, b: string)
  {
    Upper(a) == Upper(b)
  }

  /** Lower-casing forgets case just as upper-casing does. */
  lemma LowerIgnoresCase(a: string, b: string)
    requires SameIgnoringCase(a, b)
    ensures Lower(a) == Lower(b)
  {
    assert |a| == |Upper(a)| == |Upper(b)| == |b|;
    forall i | 0 <= i < |a|
      ensures Lower(a)[i] == Lower(b)[i]
    {
      assert UpperChar(a[i]) == Upper(a)[i] == Upper(b)[i] == UpperChar(b[i]);
    }
  }

  // ---------------------------------------------------------------------------
  // Decimal rendering of integers.
  // ---------------------------------------------------------------------------

  predicate IsDigit(c: char)
  {
    '0' <= c <= '9'
  }

  function DigitChar(d: int): (c: char)
    requires 0 <= d < 10
    ensures IsDigit(c)
  {
    ('0' as int + d) as char
  }

  function DigitValue(c: char): (d: int)
    requires IsDigit(c)
    ensures 0 <= d < 10
  {
    c as int - '0' as int
  }

  /** The decimal digits of `n`, most significant first, without leading zeros. */
  function NatToString(n: nat): (r: string)
    ensures |r| >= 1
    ensures forall i :: 0 <= i < |r| ==> IsDigit(r[i])
    ensures r[0] == '0' ==> n == 0
  {
    if n < 10 then [DigitChar(n)] else NatToString(n / 10) + [DigitChar(n % 10)]
  }

  /** The canonical form `toString` writes: "0" alone, otherwise no leading
      zero, after the sign if there is one. */
  predicate NoLeadingZero(s: string)
  {
    && s != []
    && (s[0] == '0' ==> s == "0")
    && (s[0] == '-' ==> |s| > 1 && s[1] != '0')
  }

  /** `n.toString()` for an integer `n`. */
  function IntToString(n: int): (r: string)
    ensures |r| >= 1
    ensures n < 0 <==> r[0] == '-'
    ensures NoLeadingZero(r)
  {
    if n < 0 then "-" + NatToString(-n) else NatToString(n)
  }

  /** The value of a sequence of decimal digits. */
  function ParseDigits(s: string): nat
    requires forall i :: 0 <= i < |s| ==> IsDigit(s[i])
  {
    if s == [] then 0 else 10 * ParseDigits(s[..|s| - 1]) + DigitValue(s[|s| - 1])
  }

  /** Reads back a decimal integer with an optional leading minus sign. */
  function ParseInt(s: string): Option<int>
  {
    if |s| >= 2 && s[0] == '-' && forall i :: 1 <= i < |s| ==> IsDigit(s[i]) then
      Some(0 - ParseDigits(s[1..]) as int)
    else if |s| >= 1 && forall i :: 0 <= i < |s| ==> IsDigit(s[i]) then
      Some(ParseDigits(s))
    else
      None
  }

  lemma {:induction false} ParseNatToString(n: nat)
    ensures ParseDigits(NatToString(n)) == n
  {
    if n >= 10 {
      var s := NatToString(n);
      assert s[..|s| - 1] == NatToString(n / 10);
      ParseNatToString(n / 10);
    }
  }

  /** Rendering an integer and reading it back gives the integer. */
  lemma IntToStringRoundTrip(n: int)
    ensures ParseInt(IntToString(n)) == Some(n)
  {
    if n < 0 {
      NegativeRoundTrip(-n);
    } else {
      NatRoundTrip(n);
    }
  }

  lemma NegativeRoundTrip(m: nat)
    ensures ParseInt("-" + NatToString(m)) == Some(-(m as int))
  {
    var digits := NatToString(m);
    var s := "-" + digits;
    ParseNatToString(m);
    assert s[1..] == digits;
    assert forall i :: 1 <= i < |s| ==> IsDigit(s[i]) by {
      forall i | 1 <= i < |s|
        ensures IsDigit(s[i])
      {
        assert s[i] == digits[i - 1];
      }
    }
  }

  lemma NatRoundTrip(n: nat)
    ensures ParseInt(NatToString(n)) == Some(n)
  {
    var s := NatToString(n);
    ParseNatToString(n);
    assert !(|s| >= 2 && s[0] == '-') by {
      assert IsDigit(s[0]);
    }
  }

  /** Different integers render differently. */
  lemma IntToStringInjective(m: int, n: int)
    requires IntToString(m) == IntToString(n)
    ensures m == n
  {
    IntToStringRoundTrip(m);
    IntToStringRoundTrip(n);
  }

  /** `Math.round(x)`: the nearest integer, halves rounding up (towards +infinity). */
  function Round(x: real): (r: int)
    ensures r as real - 0.5 <= x < r as real + 0.5
  {
    (x + 0.5).Floor
  }
}
