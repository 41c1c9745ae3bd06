/** Python's `str` of an integer: decimal digits, no leading zeros, a leading
    `-` for negative numbers. Its inverse `ParseInt` is the partner that shows
    no two integers are written alike. */
module Decimal {
  import opened Common

  predicate IsDigit(c: char)
  {
    '0' <= c <= '9'
  }

  function DigitChar(d: nat): (c: char)
    requires d < 10
    ensures IsDigit(c)
  {
    (('0' as int) + d) as char
  }

  function DigitValue(c: char): (d: nat)
    requires IsDigit(c)
    ensures d < 10 && DigitChar(d) == c
  {
    (c as int) - ('0' as int)
  }

  /** Decimal digits of a natural number, most significant first, with no
      leading zero: the string starts with '0' only for zero itself. */
  function NatToString(n: nat): (s: string)
    ensures |s| > 0 && AllDigits(s)
    ensures s[0] == '0' <==> n == 0
    decreases n
  {
    if n < 10 then [DigitChar(n)] else NatToString(n / 10) + [DigitChar(n % 10)]
  }

  /** Python's `str(i)` for an `int`. */
  function IntToString(i: int): (s: string)
    ensures |s| > 0 && (s[0] == '-' <==> i < 0)
  {
    NatToStringDigits(if i < 0 then -i else i);
    if i < 0 then "-" + NatToString(-i) else NatToString(i)
  }

  predicate AllDigits(s: string)
  {
    forall p :: 0 <= p < |s| ==> IsDigit(s[p])
  }

  /** The number a non-empty run of digits denotes. */
  function DigitsValue(s: string): nat
    requires AllDigits(s)
    decreases |s|
  {
    if |s| == 0 then 0 else 10 * DigitsValue(s[..|s| - 1]) + DigitValue(s[|s| - 1])
  }

  /** Reads back what `IntToString` writes: an optional `-` and at least one digit. */
  function ParseInt(s: string): Option<int>
  {
    if |s| > 0 && s[0] == '-' then
      (if |s| > 1 && AllDigits(s[1..]) then Some(-(DigitsValue(s[1..]) as int)) else None)
    else if |s| > 0 && AllDigits(s) then Some(DigitsValue(s) as int)
    else None
  }

  lemma {:induction false} NatToStringDigits(n: nat)
    ensures |NatToString(n)| > 0 && AllDigits(NatToString(n))
    ensures DigitsValue(NatToString(n)) == n
    decreases n
  {
    if n >= 10 {
      NatToStringDigits(n / 10);
      var s := NatToString(n);
      assert s[..|s| - 1] == NatToString(n / 10);
    }
  }

  /** Printing then parsing gives the integer back. */
  lemma ParseIntToString(i: int)
    ensures ParseInt(IntToString(i)) == Some(i)
  {
    if i < 0 {
      NatToStringDigits(-i);
      assert IntToString(i)[1..] == NatToString(-i);
    } else {
      NatToStringDigits(i);
    }
  }

  /** Distinct integers are written differently. */
  lemma IntToStringInjective(i: int, j: int)
    requires IntToString(i) == IntToString(j)
    ensures i == j
  {
    ParseIntToString(i);
    ParseIntToString(j);
  }

  /** A written integer is non-empty and only its first character can be a non-digit. */
  lemma IntToStringShape(i: int)
    ensures |IntToString(i)| > 0
    ensures forall p :: 1 <= p < |IntToString(i)| ==> IsDigit(IntToString(i)[p])
  {
    if i < 0 {
      NatToStringDigits(-i);
    } else {
      NatToStringDigits(i);
    }
  }

  /** A written integer followed by a separator that starts with a non-digit
      can be split back unambiguously: equal texts have equal integers and
      equal tails. */
  lemma SplitAfterInt(i: int, j: int, u: string, v: string)
    requires |u| > 0 && !IsDigit(u[0]) && |v| > 0 && !IsDigit(v[0])
    requires IntToString(i) + u == IntToString(j) + v
    ensures i == j && u == v
  {
    var a, b := IntToString(i), IntToString(j);
    IntToStringShape(i);
    IntToStringShape(j);
    assert a == (a + u)[..|a|] == (b + v)[..|b|] == b;
    IntToStringInjective(i, j);
    assert u == (a + u)[|a|..] == (b + v)[|b|..] == v;
  }

  /** Two integers written around a separator that starts with a non-digit
      can be read back: the joined string determines both. */
  lemma JoinedIntsInjective(a1: int, b1: int, a2: int, b2: int, sep: string)
    requires |sep| > 0 && !IsDigit(sep[0])
    requires IntToString(a1) + sep + IntToString(b1) == IntToString(a2) + sep + IntToString(b2)
    ensures a1 == a2 && b1 == b2
  {
    var u := sep + IntToString(b1);
    var v := sep + IntToString(b2);
    Regroup(IntToString(a1), sep, IntToString(b1));
    Regroup(IntToString(a2), sep, IntToString(b2));
    SplitAfterInt(a1, a2, u, v);
    StripPrefix(sep, IntToString(b1), IntToString(b2));
    IntToStringInjective(b1, b2);
  }

  /** Concatenation regrouped to the right. */
  lemma Regroup(a: string, b: string, c: string)
    ensures a + b + c == a + (b + c)
  {
  }

  /** A common prefix can be dropped. */
  lemma StripPrefix(p: string, s: string, t: string)
    requires p + s == p + t
    ensures s == t
  {
    assert s == (p + s)[|p|..];
    assert t == (p + t)[|p|..];
  }
}
