/** Base-10 integers as text: Python's `int(token)` and the `{n:02d}`
    format specification used to build date keys. */
module Decimal {
  import opened Wrappers
  import Text

  predicate IsDigit(c: char) {
    '0' <= c <= '9'
  }

  function DigitValue(c: char): nat
    requires IsDigit(c)
  {
    c as int - '0' as int
  }

  function DigitChar(d: nat): (c: char)
    requires d < 10
    ensures IsDigit(c) && DigitValue(c) == d
  {
    ('0' as int + d) as char
  }

  predicate AllDigits(s: string) {
    forall i :: 0 <= i < |s| ==> IsDigit(s[i])
  }

  /** The decimal digits of `n` without leading zeros: Python's `str(n)`. */
  function Dec(n: nat): (r: string)
    ensures r != [] && AllDigits(r)
    ensures n < 10 <==> |r| == 1
    ensures n < 100 ==> |r| <= 2
    decreases n
  {
    if n < 10 then [DigitChar(n)] else Dec(n / 10) + [DigitChar(n % 10)]
  }

  /** Python's `f"{n:02d}"`: at least two characters, zero-padded after the
      sign; a negative number is already two characters wide. */
  function Pad2(n: int): (r: string)
    ensures |r| >= 2
    ensures 0 <= n < 100 ==> |r| == 2 && AllDigits(r)
    ensures n >= 0 ==> AllDigits(r)
    ensures n < 0 ==> r[0] == '-'
  {
    if n < 0 then "-" + Dec(-n)
    else if n < 10 then "0" + Dec(n)
    else Dec(n)
  }

  // ---------------------------------------------------------------------
  // int(token)
  // ---------------------------------------------------------------------

  predicate DigitOrUnderscore(s: string) {
    forall i :: 0 <= i < |s| ==> IsDigit(s[i]) || s[i] == '_'
  }

  /** What Python's `int()` accepts after the sign: digits, where a single
      underscore may stand between two digits. */
  predicate DigitString(s: string) {
    && s != []
    && DigitOrUnderscore(s)
    && IsDigit(s[0])
    && IsDigit(s[|s| - 1])
    && forall i :: 0 <= i < |s| - 1 ==> !(s[i] == '_' && s[i + 1] == '_')
  }

  /** The number the digits of `s` spell, underscores skipped. */
  function DigitsValue(s: string): nat
    requires DigitOrUnderscore(s)
  {
    if s == [] then 0
    else if s[|s| - 1] == '_' then DigitsValue(s[..|s| - 1])
    else DigitsValue(s[..|s| - 1]) * 10 + DigitValue(s[|s| - 1])
  }

  /** Python's `int(s)` in base 10: surrounding whitespace, then an optional
      sign, then a digit string. `None` where `int` raises `ValueError`. */
  function ParseInt(s: string): (r: Option<int>)
    ensures Text.Trim(s) == [] ==> r == None
    ensures r.Some? ==> var t := Text.Trim(s);
      && t != [] && IsDigit(t[|t| - 1])
      && (IsDigit(t[0]) || t[0] == '+' || t[0] == '-')
      && forall i :: 0 < i < |t| ==> IsDigit(t[i]) || t[i] == '_'
    ensures r.Some? && r.value < 0 ==> Text.Trim(s)[0] == '-'
  {
    var t := Text.Trim(s);
    if t != [] && (t[0] == '+' || t[0] == '-') then
      var body := t[1..];
      if DigitString(body) then
        var v: int := DigitsValue(body);
        Some(if t[0] == '-' then -v else v)
      else None
    else if DigitString(t) then Some(DigitsValue(t))
    else None
  }

  // ---------------------------------------------------------------------
  // Properties
  // ---------------------------------------------------------------------

  lemma {:induction false} DecValue(n: nat)
    ensures DigitString(Dec(n))
    ensures DigitsValue(Dec(n)) == n
    decreases n
  {
    var r := Dec(n);
    if n >= 10 {
      DecValue(n / 10);
      var p := Dec(n / 10);
      assert r[..|r| - 1] == p;
    }
  }

  /** A leading zero does not change the value `int` reads. */
  lemma {:induction false} LeadingZeroValue(s: string)
    requires DigitOrUnderscore(s)
    ensures DigitOrUnderscore("0" + s)
    ensures DigitsValue("0" + s) == DigitsValue(s)
    decreases |s|
  {
    var z := "0" + s;
    if s == [] {
      assert z[..0] == [];
    } else {
      assert z[..|z| - 1] == "0" + s[..|s| - 1];
      LeadingZeroValue(s[..|s| - 1]);
    }
  }

  lemma NoSpaceIsTrimmed(s: string)
    requires forall i :: 0 <= i < |s| ==> !Text.IsSpace(s[i])
    ensures Text.Trim(s) == s
  {
    assert [] + s + [] == s;
    Text.TrimExact([], s, []);
  }

  /** A digit string with no sign reads as its value. */
  lemma ParseUnsigned(t: string)
    requires DigitString(t)
    ensures ParseInt(t) == Some(DigitsValue(t))
  {
    NoSpaceIsTrimmed(t);
  }

  /** A minus sign followed by a digit string reads as the negated value. */
  lemma ParseMinus(b: string, t: string)
    requires DigitString(b) && t == "-" + b
    ensures ParseInt(t) == Some(0 - DigitsValue(b))
  {
    NoSpaceIsTrimmed(t);
    assert t[0] == '-';
    assert t[1..] == b;
  }

  /** `int("0" + d) == int(d)` for every digit string `d`: the day tokens
      "1" and "01" read as the same number. */
  lemma LeadingZero(d: string)
    requires DigitString(d)
    ensures ParseInt("0" + d) == ParseInt(d)
  {
    LeadingZeroValue(d);
    var z := "0" + d;
    forall i | 0 <= i < |z| - 1
      ensures !(z[i] == '_' && z[i + 1] == '_')
    {
      if i > 0 {
        assert z[i] == d[i - 1] && z[i + 1] == d[i];
      }
    }
    assert DigitString(z);
    ParseUnsigned(d);
    ParseUnsigned(z);
  }

  /** `int` reads back what `{n:02d}` writes, for every integer. */
  lemma ParsePad2(n: int)
    ensures ParseInt(Pad2(n)) == Some(n)
  {
    if n < 0 {
      ParsePad2Negative(n);
    } else if n < 10 {
      ParsePad2Digit(n);
    } else {
      ParsePad2Wide(n);
    }
  }

  lemma ParsePad2Negative(n: int)
    requires n < 0
    ensures ParseInt(Pad2(n)) == Some(n)
  {
    var m: nat := -n;
    var b := Dec(m);
    assert Pad2(n) == "-" + b;
    DecValue(m);
    assert DigitString(b) && DigitsValue(b) == m;
    ParseMinus(b, Pad2(n));
  }

  lemma ParsePad2Digit(n: int)
    requires 0 <= n < 10
    ensures ParseInt(Pad2(n)) == Some(n)
  {
    var b := Dec(n);
    assert Pad2(n) == "0" + b;
    DecValue(n);
    LeadingZero(b);
    ParseUnsigned(b);
  }

  lemma ParsePad2Wide(n: int)
    requires n >= 10
    ensures ParseInt(Pad2(n)) == Some(n)
  {
    var b := Dec(n);
    assert Pad2(n) == b;
    DecValue(n);
    ParseUnsigned(b);
  }

  /** `{n:02d}` never writes the same text for two different numbers. */
  lemma Pad2Injective(m: int, n: int)
    requires Pad2(m) == Pad2(n)
    ensures m == n
  {
    ParsePad2(m);
    ParsePad2(n);
  }

  /** A token holding any character other than whitespace, digits, a sign or
      an underscore makes `int` raise. */
  lemma ParseIntRejects(s: string, i: int)
    requires 0 <= i < |s|
    requires !Text.IsSpace(s[i]) && !IsDigit(s[i]) && s[i] != '_' && s[i] != '+' && s[i] != '-'
    ensures ParseInt(s) == None
  {
    var t := Text.Trim(s);
    var k := Text.LeadingSpaces(s);
    Text.TrimSlice(s);
    assert k <= i < k + |t|;
    assert t[i - k] == s[i];
    if t[0] == '+' || t[0] == '-' {
      assert t[1..][i - k - 1] == s[i];
    }
  }
}
