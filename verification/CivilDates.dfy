/**
  Civil dates as the calendar code handles them: strings YYYY-MM-DD, converted
  through UTC day numbers of the proleptic Gregorian calendar (sections 21.4.1
  and 21.4.3.4 of ECMA-262).
*/
module CivilDates {
  // ---- Day numbers ------------------------------------------------------------

  predicate LeapYear(y: int) {
    y % 4 == 0 && (y % 100 != 0 || y % 400 == 0)
  }

  /** The day number, from 1970-01-01, of the first day of a year. */
  function DayFromYear(y: int): int {
    365 * (y - 1970) + (y - 1969) / 4 - (y - 1901) / 100 + (y - 1601) / 400
  }

  function DaysInYear(y: int): int {
    if LeapYear(y) then 366 else 365
  }

  lemma FourYears(y: int)
    ensures (y - 1968) / 4 == (y - 1969) / 4 + (if y % 4 == 0 then 1 else 0)
  {
  }

  lemma HundredYears(y: int)
    ensures (y - 1900) / 100 == (y - 1901) / 100 + (if y % 100 == 0 then 1 else 0)
  {
  }

  lemma FourHundredYears(y: int)
    ensures (y - 1600) / 400 == (y - 1601) / 400 + (if y % 400 == 0 then 1 else 0)
    ensures y % 400 == 0 ==> y % 100 == 0
    ensures y % 100 == 0 ==> y % 4 == 0
  {
    assert y % 400 == 0 ==> y == 400 * (y / 400) == 100 * (4 * (y / 400));
    assert y % 100 == 0 ==> y == 100 * (y / 100) == 4 * (25 * (y / 100));
  }

  lemma YearLength(y: int)
    ensures DayFromYear(y + 1) == DayFromYear(y) + DaysInYear(y)
  {
    FourYears(y);
    HundredYears(y);
    FourHundredYears(y);
  }

  lemma {:induction false} YearsAscend(y: int, z: int)
    requires y <= z
    ensures DayFromYear(y) + 365 * (z - y) <= DayFromYear(z)
    decreases z - y
  {
    if y < z {
      YearLength(z - 1);
      YearsAscend(y, z - 1);
    }
  }

  /** From March on the months alternate so that five of them have 153 days; month 13 stands for the whole year. */
  function DaysBeforeMonth(y: int, m: int): int {
    if m <= 2 then 31 * (m - 1) else 59 + (if LeapYear(y) then 1 else 0) + (153 * (m - 3) + 2) / 5
  }

  function DaysInMonth(y: int, m: int): int {
    if m == 2 then (if LeapYear(y) then 29 else 28)
    else if m == 4 || m == 6 || m == 9 || m == 11 then 30
    else 31
  }

  lemma MonthEnds(y: int, m: int)
    requires 1 <= m <= 12
    ensures DaysBeforeMonth(y, m + 1) == DaysBeforeMonth(y, m) + DaysInMonth(y, m)
    ensures DaysBeforeMonth(y, 1) == 0 && DaysBeforeMonth(y, 13) == DaysInYear(y)
    ensures 28 <= DaysInMonth(y, m) <= 31
  {
  }

  datatype CivilDate = CivilDate(year: int, month: int, day: int)

  predicate RealDate(c: CivilDate) {
    1 <= c.month <= 12 && 1 <= c.day <= DaysInMonth(c.year, c.month)
  }

  /** The day number of a date whose day may run past the end of its month, as MakeDay computes it. */
  function DayNumber(c: CivilDate): int {
    DayFromYear(c.year) + DaysBeforeMonth(c.year, c.month) + c.day - 1
  }

  /** The day lies in the year. */
  predicate InYear(n: int, y: int) {
    DayFromYear(y) <= n < DayFromYear(y + 1)
  }

  /** From a year that starts no later than the day there is a year the day lies in, not many years later. */
  lemma {:induction false} YearFrom(n: int, y: int) returns (year: int)
    requires DayFromYear(y) <= n
    ensures InYear(n, year) && y <= year <= y + (n - DayFromYear(y))
    decreases n - DayFromYear(y)
  {
    YearLength(y);
    if n < DayFromYear(y + 1) {
      year := y;
    } else {
      year := YearFrom(n, y + 1);
    }
  }

  function Least(a: int, b: int): int {
    if a < b then a else b
  }

  /** A day lies in a year at most as many years from the epoch as the day is days. */
  lemma YearExists(n: int)
    ensures exists y :: 1970 + Least(n, 0) <= y <= 1970 - Least(-n, 0) && InYear(n, y)
  {
    var first := 1970 + Least(n, 0);
    YearsAscend(first, 1970);
    var year := YearFrom(n, first);
    if n < 0 && year > 1970 {
      YearsAscend(1970, year);
    }
  }

  lemma {:induction false} MonthFrom(y: int, dayInYear: int, m: int) returns (month: int)
    requires 1 <= m <= 12 && DaysBeforeMonth(y, m) <= dayInYear < DaysInYear(y)
    ensures 1 <= month <= 12 && DaysBeforeMonth(y, month) <= dayInYear < DaysBeforeMonth(y, month + 1)
    decreases 12 - m
  {
    if dayInYear < DaysBeforeMonth(y, m + 1) {
      month := m;
    } else {
      month := MonthFrom(y, dayInYear, m + 1);
    }
  }

  predicate IsDateOf(y: int, m: int, d: int, n: int) {
    RealDate(CivilDate(y, m, d)) && DayNumber(CivilDate(y, m, d)) == n
  }

  lemma DateInYear(n: int, y: int) returns (m: int, d: int)
    requires InYear(n, y)
    ensures 1 <= m <= 12 && 1 <= d <= 31 && IsDateOf(y, m, d, n)
  {
    YearLength(y);
    MonthEnds(y, 1);
    hide DaysBeforeMonth, DaysInMonth, DayFromYear;
    m := MonthFrom(y, n - DayFromYear(y), 1);
    d := n - DayFromYear(y) - DaysBeforeMonth(y, m) + 1;
    MonthEnds(y, m);
  }

  lemma DateExists(n: int)
    ensures exists y, m, d ::
              1970 + Least(n, 0) <= y <= 1970 - Least(-n, 0) && 1 <= m <= 12 && 1 <= d <= 31 && IsDateOf(y, m, d, n)
  {
    hide InYear, IsDateOf;
    YearExists(n);
    var y :| 1970 + Least(n, 0) <= y <= 1970 - Least(-n, 0) && InYear(n, y);
    var m, d := DateInYear(n, y);
  }

  predicate Earlier(a: CivilDate, b: CivilDate) {
    a.year < b.year || (a.year == b.year && (a.month < b.month || (a.month == b.month && a.day < b.day)))
  }

  lemma {:induction false} MonthsAscend(y: int, m: int, k: int)
    requires 1 <= m <= k <= 13
    ensures DaysBeforeMonth(y, m) <= DaysBeforeMonth(y, k)
    decreases k - m
  {
    hide DaysBeforeMonth, DaysInMonth;
    if m < k {
      MonthEnds(y, k - 1);
      MonthsAscend(y, m, k - 1);
    }
  }

  /** A real date lies within its year. */
  lemma WithinYear(c: CivilDate)
    requires RealDate(c)
    ensures DayFromYear(c.year) <= DayNumber(c) < DayFromYear(c.year + 1)
  {
    hide DaysBeforeMonth, DaysInMonth, DayFromYear;
    YearLength(c.year);
    MonthEnds(c.year, c.month);
    MonthsAscend(c.year, 1, c.month);
    MonthsAscend(c.year, c.month + 1, 13);
  }

  lemma EarlierHasLowerNumber(a: CivilDate, b: CivilDate)
    requires RealDate(a) && RealDate(b) && Earlier(a, b)
    ensures DayNumber(a) < DayNumber(b)
  {
    hide DaysBeforeMonth, DaysInMonth, DayFromYear, LeapYear;
    MonthEnds(a.year, a.month);
    if a.year < b.year {
      WithinYear(a);
      WithinYear(b);
      YearsAscend(a.year + 1, b.year);
    } else if a.month < b.month {
      MonthsAscend(a.year, a.month + 1, b.month);
    }
  }

  lemma DateIsUnique(n: int, b: CivilDate, c: CivilDate)
    requires RealDate(b) && RealDate(c) && DayNumber(b) == n == DayNumber(c)
    ensures b == c
  {
    if Earlier(b, c) {
      EarlierHasLowerNumber(b, c);
    } else if Earlier(c, b) {
      EarlierHasLowerNumber(c, b);
    }
  }

  /** The date a UTC day number stands for: the real date with that number. */
  function DateOf(n: int): (c: CivilDate)
    ensures RealDate(c) && DayNumber(c) == n
  {
    DateExists(n);
    assert forall y, m, d, y', m', d' ::
        IsDateOf(y, m, d, n) && IsDateOf(y', m', d', n) ==> y == y' && m == m' && d == d' by {
      forall y, m, d, y', m', d' | IsDateOf(y, m, d, n) && IsDateOf(y', m', d', n) ensures y == y' && m == m' && d == d' {
        DateIsUnique(n, CivilDate(y, m, d), CivilDate(y', m', d'));
      }
    }
    var y, m, d :| 1970 + Least(n, 0) <= y <= 1970 - Least(-n, 0) && 1 <= m <= 12 && 1 <= d <= 31 && IsDateOf(y, m, d, n);
    CivilDate(y, m, d)
  }

  /** Day numbers order dates: the Gregorian calendar is a bijection between real dates and integers. */
  lemma DayNumberIsFaithful(a: CivilDate, b: CivilDate)
    requires RealDate(a) && RealDate(b)
    ensures Earlier(a, b) <==> DayNumber(a) < DayNumber(b)
    ensures DayNumber(a) == DayNumber(b) <==> a == b
    ensures DateOf(DayNumber(a)) == a
  {
    if Earlier(a, b) {
      EarlierHasLowerNumber(a, b);
    } else if Earlier(b, a) {
      EarlierHasLowerNumber(b, a);
    }
    var c := DateOf(DayNumber(a));
    if Earlier(a, c) {
      EarlierHasLowerNumber(a, c);
    } else if Earlier(c, a) {
      EarlierHasLowerNumber(c, a);
    }
  }

  // ---- Decimal text ---------------------------------------------------------------

  predicate IsDigit(c: char) {
    '0' <= c <= '9'
  }

  function DigitChar(k: int): (c: char)
    requires 0 <= k <= 9
    ensures IsDigit(c) && DigitValue(c) == k
  {
    (('0' as int) + k) as char
  }

  function DigitValue(c: char): (k: int)
    requires IsDigit(c)
    ensures 0 <= k <= 9
  {
    c as int - '0' as int
  }

  function Decimal(n: nat): (s: string)
    ensures |s| >= 1 && forall i :: 0 <= i < |s| ==> IsDigit(s[i])
    decreases n
  {
    if n < 10 then [DigitChar(n)] else Decimal(n / 10) + [DigitChar(n % 10)]
  }

  function Text(n: int): string {
    if n < 0 then ['-'] + Decimal(-n) else Decimal(n)
  }

  function PadStart(s: string, width: nat): string
    decreases width - |s|
  {
    if |s| >= width then s else PadStart(['0'] + s, width)
  }

  /** parseInt of a run of digits. */
  function ParseInt(s: string): (n: nat)
    requires forall i :: 0 <= i < |s| ==> IsDigit(s[i])
  {
    if s == [] then 0 else 10 * ParseInt(s[..|s| - 1]) + DigitValue(s[|s| - 1])
  }

  function Two(n: int): string
    requires 0 <= n < 100
  {
    [DigitChar(n / 10), DigitChar(n % 10)]
  }

  function Four(n: int): string
    requires 0 <= n < 10000
  {
    Two(n / 100) + Two(n % 100)
  }

  lemma PaddedTwo(n: int)
    requires 0 <= n < 100
    ensures PadStart(Text(n), 2) == Two(n)
  {
    if n >= 10 {
      assert Decimal(n) == Decimal(n / 10) + [DigitChar(n % 10)] == Two(n);
    } else {
      assert ['0'] + Decimal(n) == Two(n);
    }
  }

  lemma FourDigits(n: int)
    requires 1000 <= n < 10000
    ensures Decimal(n) == Four(n)
  {
    assert n / 10 / 10 == n / 100 && n / 10 / 10 / 10 == n / 100 / 10;
    assert Decimal(n / 100) == Decimal(n / 1000) + [DigitChar(n / 100 % 10)] == Two(n / 100);
    assert Decimal(n / 10) == Decimal(n / 100) + [DigitChar(n / 10 % 10)];
  }

  lemma ThreeDigits(n: int)
    requires 100 <= n < 1000
    ensures ['0'] + Decimal(n) == Four(n)
  {
    assert Decimal(n / 10) == Decimal(n / 100) + [DigitChar(n / 10 % 10)];
  }

  lemma PaddedFour(n: int)
    requires 0 <= n < 10000
    ensures PadStart(Text(n), 4) == Four(n)
  {
    if n >= 1000 {
      FourDigits(n);
    } else if n >= 100 {
      ThreeDigits(n);
    } else if n >= 10 {
      assert Decimal(n) == Two(n);
      var padded := ['0'] + Decimal(n);
      assert PadStart(Decimal(n), 4) == PadStart(padded, 4) == PadStart(['0'] + padded, 4);
      assert ['0'] + padded == Four(n);
    } else {
      var padded := ['0'] + (['0'] + Decimal(n));
      assert PadStart(Decimal(n), 4) == PadStart(padded, 4) == PadStart(['0'] + padded, 4);
      assert ['0'] + padded == Four(n);
    }
  }

  lemma {:induction false} DecimalLength(n: nat, width: nat)
    requires |Decimal(n)| <= width <= 4
    ensures n < if width == 0 then 0 else if width == 1 then 10 else if width == 2 then 100 else if width == 3 then 1000 else 10000
    decreases width
  {
    if n >= 10 {
      DecimalLength(n / 10, width - 1);
    }
  }

  lemma ParseTwo(s: string)
    requires |s| == 2 && IsDigit(s[0]) && IsDigit(s[1])
    ensures ParseInt(s) == 10 * DigitValue(s[0]) + DigitValue(s[1]) < 100
    ensures Two(ParseInt(s)) == s
  {
    assert s[..1][..0] == [];
    assert ParseInt(s[..1]) == DigitValue(s[0]);
  }

  lemma ParseFour(s: string)
    requires |s| == 4 && forall i :: 0 <= i < 4 ==> IsDigit(s[i])
    ensures ParseInt(s) == 100 * ParseInt(s[..2]) + ParseInt(s[2..]) < 10000
    ensures Four(ParseInt(s)) == s
  {
    ParseTwo(s[..2]);
    ParseTwo(s[2..]);
    assert ParseInt(s[..3]) == 10 * ParseInt(s[..2]) + DigitValue(s[2]) by {
      assert s[..3][..2] == s[..2];
    }
    hide ParseInt;
    var high, low := ParseInt(s[..2]), ParseInt(s[2..]);
    assert (100 * high + low) / 100 == high && (100 * high + low) % 100 == low;
    assert s == s[..2] + s[2..];
  }

  lemma ReadTwo(n: int)
    requires 0 <= n < 100
    ensures IsDigit(Two(n)[0]) && IsDigit(Two(n)[1]) && ParseInt(Two(n)) == n
  {
    ParseTwo(Two(n));
  }

  lemma ReadFour(n: int)
    requires 0 <= n < 10000
    ensures |Four(n)| == 4 && (forall i :: 0 <= i < 4 ==> IsDigit(Four(n)[i])) && ParseInt(Four(n)) == n
  {
    assert Four(n)[..2] == Two(n / 100) && Four(n)[2..] == Two(n % 100);
    ReadTwo(n / 100);
    ReadTwo(n % 100);
    hide Two;
    ParseFour(Four(n));
  }
}
