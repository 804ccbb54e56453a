/** Date keys of the nameday table ("MM-DD") and the Gregorian calendar rule
    the service uses to reject impossible dates. */
module Calendar {
  import Decimal

  /** The key `f"{month:02d}-{day:02d}"`. */
  function DateKey(month: int, day: int): (k: string)
    ensures 0 <= month < 100 ==> |k| >= 5 && k[2] == '-' && k[..2] == Decimal.Pad2(month)
    ensures 0 <= month < 100 && 0 <= day < 100 ==> |k| == 5
  {
    Decimal.Pad2(month) + "-" + Decimal.Pad2(day)
  }

  /** The text every key of `month` starts with: `f"{month:02d}-"`. */
  function MonthPrefix(month: int): (p: string)
    ensures 0 <= month < 100 ==> |p| == 3 && p[2] == '-'
  {
    Decimal.Pad2(month) + "-"
  }

  /** A key starts with the prefix of `month` exactly when its first two
      characters are the month's digits and the third is a dash. */
  lemma MonthPrefixOf(month: int)
    requires 0 <= month < 100
    ensures forall k: string :: MonthPrefix(month) <= k <==>
      |k| >= 3 && k[..2] == Decimal.Pad2(month) && k[2] == '-'
  {
    var p := MonthPrefix(month);
    forall k: string ensures p <= k <==> |k| >= 3 && k[..2] == Decimal.Pad2(month) && k[2] == '-' {
      if |k| >= 3 && k[..2] == Decimal.Pad2(month) && k[2] == '-' {
        assert k[..3] == p;
      }
    }
  }

  /** Two-digit months are recovered from a key: the key of (m, d) is the
      key of (m', d') only when m == m' and d == d'. */
  lemma DateKeyInjective(m: int, d: int, m': int, d': int)
    requires 0 <= m < 100 && 0 <= m' < 100
    requires DateKey(m, d) == DateKey(m', d')
    ensures m == m' && d == d'
  {
    var k := DateKey(m, d);
    Decimal.Pad2Injective(m, m');
    assert k[3..] == Decimal.Pad2(d);
    assert DateKey(m', d')[3..] == Decimal.Pad2(d');
    Decimal.Pad2Injective(d, d');
  }

  /** A key starts with the prefix of a two-digit month exactly when it is
      that month's key. */
  lemma DateKeyPrefix(month: int, m: int, d: int)
    requires 0 <= month < 100 && 0 <= m < 100
    ensures MonthPrefix(month) <= DateKey(m, d) <==> month == m
  {
    var k := DateKey(m, d);
    assert k[..3] == MonthPrefix(m);
    if MonthPrefix(month) <= k {
      assert MonthPrefix(month) == k[..3];
      assert Decimal.Pad2(month) == MonthPrefix(month)[..2];
      assert Decimal.Pad2(m) == MonthPrefix(m)[..2];
      Decimal.Pad2Injective(month, m);
    }
  }

  predicate IsLeapYear(year: int) {
    year % 4 == 0 && (year % 100 != 0 || year % 400 == 0)
  }

  function DaysInMonth(year: int, month: int): (n: int)
    requires 1 <= month <= 12
    ensures 28 <= n <= 31
    ensures n == 29 <==> month == 2 && IsLeapYear(year)
  {
    if month == 2 then (if IsLeapYear(year) then 29 else 28)
    else if month == 4 || month == 6 || month == 9 || month == 11 then 30
    else 31
  }

  /** What `datetime(year, month, day)` accepts without `ValueError`: a
      year from `MINYEAR` 1 to `MAXYEAR` 9999 and a day of that month. */
  predicate ValidDate(year: int, month: int, day: int)
    ensures ValidDate(year, month, day) ==> 1 <= year <= 9999 && 1 <= month <= 12 && 1 <= day <= 31
    ensures 1 <= year <= 9999 && 1 <= month <= 12 && 1 <= day <= 28 ==> ValidDate(year, month, day)
    ensures ValidDate(year, month, day) && month == 2 && day == 29 ==> IsLeapYear(year)
  {
    1 <= year <= 9999 && 1 <= month <= 12 && 1 <= day <= DaysInMonth(year, month)
  }

  /** The year 2000 is a leap year, so every date of every year is a date of
      the year 2000. */
  lemma Year2000Covers(year: int, month: int, day: int)
    requires ValidDate(year, month, day)
    ensures ValidDate(2000, month, day)
  {
  }
}
