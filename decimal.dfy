/**
 * Decimal text of whole numbers, as Python's `str(int)` and JavaScript's
 * template interpolation of an integer produce it (no padding, a leading
 * '-' for negatives), the parser that reads it back, and `padStart`.
 */
module Decimal {
  import opened Wrappers

  predicate IsDigit(c: char) {
    '0' <= c <= '9'
  }

  predicate AllDigits(s: string) {
    forall i :: 0 <= i < |s| ==> IsDigit(s[i])
  }

  function DigitChar(d: nat): (c: char)
    requires d < 10
    ensures IsDigit(c)
  {
    (('0' as int) + d) as char
  }

  function DigitValue(c: char): (d: nat)
    requires IsDigit(c)
    ensures d < 10 && DigitChar(d) == c
  {
    c as int - '0' as int
  }

  /** `str(n)` for a natural number: shortest decimal text, no leading zero. */
  function NatToDec(n: nat): (s: string)
    ensures |s| > 0 && AllDigits(s)
    ensures |s| > 1 ==> s[0] != '0'
    decreases n
  {
    if n < 10 then [DigitChar(n)] else NatToDec(n / 10) + [DigitChar(n % 10)]
  }

  /** The value of a string of decimal digits ("" reads as 0). */
  function DecToNat(s: string): nat
    requires AllDigits(s)
  {
    if s == [] then 0 else DecToNat(s[..|s| - 1]) * 10 + DigitValue(s[|s| - 1])
  }

  lemma {:induction false} DecRoundTrip(n: nat)
    ensures DecToNat(NatToDec(n)) == n
    decreases n
  {
    if n >= 10 {
      var s := NatToDec(n);
      DecRoundTrip(n / 10);
      assert s[..|s| - 1] == NatToDec(n / 10);
      assert DigitValue(s[|s| - 1]) == n % 10;
    }
  }

  /** Different numbers never print the same. */
  lemma NatToDecInjective(a: nat, b: nat)
    requires NatToDec(a) == NatToDec(b)
    ensures a == b
  {
    DecRoundTrip(a);
    DecRoundTrip(b);
  }

  /** `str(i)` for any integer. */
  function IntToDec(i: int): (s: string)
  {
    if i < 0 then "-" + NatToDec(-i) else NatToDec(i)
  }

  /** Reads an optional '-' followed by at least one digit and nothing else. */
  function ParseInt(s: string): (r: Option<int>)
  {
    if |s| > 1 && s[0] == '-' && AllDigits(s[1..]) then Some(-(DecToNat(s[1..]) as int))
    else if |s| > 0 && AllDigits(s) then Some(DecToNat(s))
    else None
  }

  lemma IntRoundTrip(i: int)
    ensures ParseInt(IntToDec(i)) == Some(i)
  {
    var s := IntToDec(i);
    if i < 0 {
      var d := NatToDec(-i);
      assert s == "-" + d && s[1..] == d;
      assert AllDigits(d) && |s| > 1 && s[0] == '-';
      DecRoundTrip(-i);
      assert DecToNat(d) == -i;
    } else {
      assert s == NatToDec(i);
      assert IsDigit(s[0]);
      DecRoundTrip(i);
    }
  }

  /** The longest prefix of `s` made of digits, and what follows it. */
  function SplitDigits(s: string): (r: (string, string))
    ensures AllDigits(r.0) && r.0 + r.1 == s
    ensures r.1 == [] || !IsDigit(r.1[0])
  {
    if s == [] || !IsDigit(s[0]) then ([], s)
    else
      var (d, rest) := SplitDigits(s[1..]);
      ([s[0]] + d, rest)
  }

  /** A run of digits followed by a non-digit (or by nothing) is split off exactly. */
  lemma {:induction false} SplitDigitsExact(d: string, rest: string)
    requires AllDigits(d)
    requires rest == [] || !IsDigit(rest[0])
    ensures SplitDigits(d + rest) == (d, rest)
  {
    if d != [] {
      assert (d + rest)[1..] == d[1..] + rest;
      SplitDigitsExact(d[1..], rest);
      assert [d[0]] + d[1..] == d;
    } else {
      assert d + rest == rest;
    }
  }

  /** Reads a non-empty run of digits at the front of `s`. */
  function ReadNat(s: string): (r: Option<(nat, string)>)
  {
    var (d, rest) := SplitDigits(s);
    if d == [] then None else Some((DecToNat(d), rest))
  }

  lemma ReadNatExact(n: nat, rest: string)
    requires rest == [] || !IsDigit(rest[0])
    ensures ReadNat(NatToDec(n) + rest) == Some((n, rest))
  {
    SplitDigitsExact(NatToDec(n), rest);
    DecRoundTrip(n);
  }

  /** JavaScript's `s.padStart(width, fill)` for a one-character fill. */
  function PadStart(s: string, width: nat, fill: char): (r: string)
    ensures |r| == if |s| >= width then |s| else width
    ensures r[|r| - |s|..] == s
    ensures forall i :: 0 <= i < |r| - |s| ==> r[i] == fill
  {
    if |s| >= width then s else seq(width - |s|, _ => fill) + s
  }

  /** A leading zero does not change the value read. */
  lemma {:induction false} LeadingZero(d: string)
    requires AllDigits(d)
    ensures AllDigits("0" + d) && DecToNat("0" + d) == DecToNat(d)
  {
    if d != [] {
      var z := "0" + d;
      assert z[..|z| - 1] == "0" + d[..|d| - 1];
      LeadingZero(d[..|d| - 1]);
    }
  }
}
