/**
  The date functions of packages/database/src/business-calendar.ts on strings:
  validate, parse, format, shift by days and day of the week. Date.UTC reads the
  years 0..99 as 1900..1999, so the dates these functions accept are those from
  0100-01-01 to 9999-12-31.
*/
module IsoDates {
  import opened Wrappers
  import opened CivilDates

  /** The pattern \d{4}-\d{2}-\d{2} over the whole string. */
  predicate HasShape(s: string) {
    && |s| == 10
    && (forall i :: 0 <= i < 4 ==> IsDigit(s[i])) && s[4] == '-'
    && IsDigit(s[5]) && IsDigit(s[6]) && s[7] == '-'
    && IsDigit(s[8]) && IsDigit(s[9])
  }

  /** The day number of Date.UTC(y, m - 1, d); the day may lie outside the month. */
  function UtcDay(y: int, m: int, d: int): int
    requires 1 <= m <= 12
  {
    DayNumber(CivilDate(if 0 <= y <= 99 then 1900 + y else y, m, d))
  }

  function Fields(s: string): CivilDate
    requires HasShape(s)
  {
    CivilDate(ParseInt(s[0..4]), ParseInt(s[5..7]), ParseInt(s[8..10]))
  }

  predicate ValidateIsoCivilDate(s: string) {
    && HasShape(s)
    && var f := Fields(s);
    && 1 <= f.month <= 12 && 1 <= f.day <= 31
    && DateOf(UtcDay(f.year, f.month, f.day)) == f
  }

  function ParseIsoCivilDate(s: string): Option<CivilDate> {
    if ValidateIsoCivilDate(s) then Some(Fields(s)) else None
  }

  function FormatIsoCivilDate(c: CivilDate): string {
    PadStart(Text(c.year), 4) + ['-'] + PadStart(Text(c.month), 2) + ['-'] + PadStart(Text(c.day), 2)
  }

  function ShiftCivilDate(s: string, deltaDays: int): Option<string> {
    match ParseIsoCivilDate(s)
    case None => None
    case Some(c) => Some(FormatIsoCivilDate(DateOf(UtcDay(c.year, c.month, c.day + deltaDays))))
  }

  /** getUTCDay: 0 is Sunday; 1970-01-01 was a Thursday. */
  function WeekDay(n: int): int {
    (n + 4) % 7
  }

  /** 1 is Monday, 7 is Sunday. */
  function CivilDayOfWeek(s: string): Option<int> {
    match ParseIsoCivilDate(s)
    case None => None
    case Some(c) =>
      var day := WeekDay(UtcDay(c.year, c.month, c.day));
      Some(if day == 0 then 7 else day)
  }

  // ---- Strings and day numbers ---------------------------------------------------

  const FIRST_DAY := -683003 // 0100-01-01
  const LAST_DAY := 2932896 // 9999-12-31

  lemma RangeEnds()
    ensures FIRST_DAY == DayNumber(CivilDate(100, 1, 1)) == DayFromYear(100)
    ensures LAST_DAY == DayNumber(CivilDate(9999, 12, 31)) == DayFromYear(10000) - 1
  {
  }

  predicate InRange(n: int) {
    FIRST_DAY <= n <= LAST_DAY
  }

  /** The string of a day number. */
  function Iso(n: int): string {
    FormatIsoCivilDate(DateOf(n))
  }

  lemma YearRange(n: int)
    ensures InRange(n) <==> 100 <= DateOf(n).year <= 9999
  {
    var c := DateOf(n);
    WithinYear(c);
    RangeEnds();
    hide DayNumber, DateOf, DayFromYear, RealDate;
    if c.year < 100 {
      YearsAscend(c.year + 1, 100);
    } else if c.year <= 9999 {
      YearsAscend(100, c.year);
      YearsAscend(c.year + 1, 10000);
    } else {
      YearsAscend(10000, c.year);
    }
  }

  function Joined(year: string, month: string, day: string): string {
    year + ['-'] + month + ['-'] + day
  }

  lemma JoinedSlices(year: string, month: string, day: string)
    requires |year| == 4 && |month| == 2 && |day| == 2
    ensures var s := Joined(year, month, day);
            |s| == 10 && s[0..4] == year && s[4] == '-' && s[5..7] == month && s[7] == '-' && s[8..10] == day
  {
  }

  lemma FormatShape(c: CivilDate)
    requires RealDate(c) && 0 <= c.year <= 9999
    ensures FormatIsoCivilDate(c) == Joined(Four(c.year), Two(c.month), Two(c.day))
    ensures HasShape(FormatIsoCivilDate(c)) && Fields(FormatIsoCivilDate(c)) == c
  {
    MonthEnds(c.year, c.month);
    PaddedFour(c.year);
    PaddedTwo(c.month);
    PaddedTwo(c.day);
    ReadFour(c.year);
    ReadTwo(c.month);
    ReadTwo(c.day);
    hide Four, RealDate, ParseInt, PadStart, Text;
    JoinedSlices(Four(c.year), Two(c.month), Two(c.day));
    var s := Joined(Four(c.year), Two(c.month), Two(c.day));
    assert FormatIsoCivilDate(c) == s;
    assert forall i :: 0 <= i < 4 ==> s[i] == s[0..4][i];
    assert s[5] == s[5..7][0] && s[6] == s[5..7][1] && s[8] == s[8..10][0] && s[9] == s[8..10][1];
  }

  lemma FieldsAreReal(s: string)
    requires ValidateIsoCivilDate(s)
    ensures RealDate(Fields(s)) && 100 <= Fields(s).year <= 9999
  {
    var c := Fields(s);
    assert DateOf(UtcDay(c.year, c.month, c.day)) == c;
    ParseFour(s[0..4]);
    hide ParseInt;
    if c.year <= 99 {
      CenturyLater(c);
    }
  }

  lemma ShapeIsJoined(s: string)
    requires HasShape(s)
    ensures var f := Fields(s);
            && 0 <= f.year < 10000 && 0 <= f.month < 100 && 0 <= f.day < 100
            && s == Joined(Four(f.year), Two(f.month), Two(f.day))
  {
    ParseFour(s[0..4]);
    ParseTwo(s[5..7]);
    ParseTwo(s[8..10]);
    assert s == Joined(s[0..4], s[5..7], s[8..10]);
  }

  /** A valid string names exactly one day of the range, and is that day's string. */
  lemma ParseThenFormat(s: string)
    requires ValidateIsoCivilDate(s)
    ensures var c := ParseIsoCivilDate(s).value;
            RealDate(c) && 100 <= c.year <= 9999 && InRange(DayNumber(c)) && FormatIsoCivilDate(c) == s && Iso(DayNumber(c)) == s
  {
    var c := Fields(s);
    FieldsAreReal(s);
    FormatShape(c);
    ShapeIsJoined(s);
    DayNumberIsFaithful(c, c);
    YearRange(DayNumber(c));
    hide DateOf, DayNumber, Four, Two, RealDate, PadStart, Text, ParseInt, HasShape;
  }

  lemma FormatThenParse(c: CivilDate)
    requires RealDate(c) && 100 <= c.year <= 9999
    ensures ParseIsoCivilDate(FormatIsoCivilDate(c)) == Some(c)
  {
    MonthEnds(c.year, c.month);
    assert 1 <= c.day <= 31;
    FormatShape(c);
    DayNumberIsFaithful(c, c);
    hide HasShape, FormatIsoCivilDate, Fields, DateOf, DayNumber;
  }

  lemma ShapeStartsWithFourDigits(year: string, month: string, day: string)
    requires |year| >= 4 && |month| >= 2 && |day| >= 2 && HasShape(Joined(year, month, day))
    ensures |year| == 4 && forall i :: 0 <= i < 4 ==> IsDigit(year[i])
  {
    var s := Joined(year, month, day);
    assert s[..|year|] == year;
    assert forall i :: 0 <= i < 4 ==> year[i] == s[i];
  }

  lemma TextOutOfRangeHasNoShape(c: CivilDate)
    requires !(0 <= c.year <= 9999)
    ensures !HasShape(FormatIsoCivilDate(c))
  {
    var year := PadStart(Text(c.year), 4);
    PadKeeps(Text(c.year), 4);
    PadKeeps(Text(c.month), 2);
    PadKeeps(Text(c.day), 2);
    if HasShape(FormatIsoCivilDate(c)) {
      hide PadStart, HasShape;
      ShapeStartsWithFourDigits(year, PadStart(Text(c.month), 2), PadStart(Text(c.day), 2));
      hide Joined, FormatIsoCivilDate;
      if c.year < 0 {
        DashSurvives(Decimal(-c.year), 4);
        assert false;
      } else {
        DecimalLength(c.year, 4);
      }
    }
  }

  lemma DashSurvives(digits: string, width: nat)
    ensures '-' in PadStart(['-'] + digits, width)
  {
    var s := ['-'] + digits;
    PadKeeps(s, width);
    var p := PadStart(s, width);
    assert p[|p| - |s|] == p[|p| - |s|..][0] == '-';
  }

  lemma {:induction false} PadKeeps(s: string, width: nat)
    ensures |PadStart(s, width)| == if |s| < width then width else |s|
    ensures PadStart(s, width)[|PadStart(s, width)| - |s|..] == s
    decreases width - |s|
  {
    if |s| < width {
      PadKeeps(['0'] + s, width);
      var p := PadStart(s, width);
      assert p[|p| - |s|..] == p[|p| - |['0'] + s|..][1..];
    }
  }

  /** A day's string is accepted exactly if the day lies in the range. */
  lemma FormattedIsValid(n: int)
    ensures ValidateIsoCivilDate(Iso(n)) <==> InRange(n)
    ensures InRange(n) ==> ParseIsoCivilDate(Iso(n)) == Some(DateOf(n))
  {
    var c := DateOf(n);
    YearRange(n);
    if InRange(n) {
      FormatThenParse(c);
    } else if 0 <= c.year <= 99 {
      FormatShape(c);
      assert DateOf(UtcDay(c.year, c.month, c.day)).year != c.year by {
        CenturyLater(c);
      }
    } else {
      TextOutOfRangeHasNoShape(c);
    }
  }

  lemma CenturyLater(c: CivilDate)
    requires RealDate(c) && 0 <= c.year <= 99
    ensures DateOf(UtcDay(c.year, c.month, c.day)).year >= 1900
  {
    var n := UtcDay(c.year, c.month, c.day);
    MonthsAscend(1900 + c.year, 1, c.month);
    assert DayFromYear(1900 + c.year) <= n;
    var e := DateOf(n);
    WithinYear(e);
    hide DateOf, DayNumber, DayFromYear, UtcDay, RealDate;
    YearsAscend(1900, 1900 + c.year);
    if e.year < 1900 {
      YearsAscend(e.year + 1, 1900);
    }
  }

  // ---- Arithmetic ------------------------------------------------------------------

  /** The day number of a valid string. */
  function DayOf(s: string): int
    requires ValidateIsoCivilDate(s)
  {
    DayNumber(ParseIsoCivilDate(s).value)
  }

  lemma DayOfIso(n: int)
    requires InRange(n)
    ensures ValidateIsoCivilDate(Iso(n)) && DayOf(Iso(n)) == n
  {
    FormattedIsValid(n);
  }

  lemma IsoOfDay(s: string)
    requires ValidateIsoCivilDate(s)
    ensures InRange(DayOf(s)) && Iso(DayOf(s)) == s
  {
    ParseThenFormat(s);
  }

  /** Shifting a string shifts its day number. */
  lemma ShiftIsAddition(s: string, deltaDays: int)
    requires ValidateIsoCivilDate(s)
    ensures ShiftCivilDate(s, deltaDays) == Some(Iso(DayOf(s) + deltaDays))
  {
    hide ValidateIsoCivilDate, HasShape, Fields, DateOf, RealDate, FormatIsoCivilDate, InRange;
    ParseThenFormat(s);
  }

  /** Two shifts are one, as long as the date between them is one the parser accepts. */
  lemma ShiftsCompose(s: string, first: int, second: int)
    requires ValidateIsoCivilDate(s) && InRange(DayOf(s) + first)
    ensures ShiftCivilDate(ShiftCivilDate(s, first).value, second) == ShiftCivilDate(s, first + second)
  {
    hide ValidateIsoCivilDate, ShiftCivilDate, Iso, DayOf, InRange;
    ShiftIsAddition(s, first);
    ShiftIsAddition(s, first + second);
    DayOfIso(DayOf(s) + first);
    ShiftIsAddition(Iso(DayOf(s) + first), second);
  }

  /** Where the date between is out of range, the second shift throws. */
  lemma ShiftOutOfRangeThrows(s: string, first: int, second: int)
    requires ValidateIsoCivilDate(s) && !InRange(DayOf(s) + first)
    ensures ShiftCivilDate(ShiftCivilDate(s, first).value, second) == None
  {
    hide ValidateIsoCivilDate, Iso, DayOf, InRange, FormatIsoCivilDate, DateOf, DayNumber;
    ShiftIsAddition(s, first);
    FormattedIsValid(DayOf(s) + first);
  }

  /** The day of the week advances with the shift modulo 7. */
  lemma DayOfWeekAdvances(s: string, deltaDays: int)
    requires ValidateIsoCivilDate(s) && InRange(DayOf(s) + deltaDays)
    ensures var dow, later := CivilDayOfWeek(s), CivilDayOfWeek(ShiftCivilDate(s, deltaDays).value);
            dow.Some? && later.Some? && 1 <= dow.value <= 7 && later.value == (dow.value - 1 + deltaDays) % 7 + 1
  {
    hide ValidateIsoCivilDate, ShiftCivilDate, Iso, DayOf, InRange, CivilDayOfWeek;
    ShiftIsAddition(s, deltaDays);
    DayOfIso(DayOf(s) + deltaDays);
    DayOfWeekOf(s);
    DayOfWeekOf(Iso(DayOf(s) + deltaDays));
  }

  lemma DayOfWeekOf(s: string)
    requires ValidateIsoCivilDate(s)
    ensures CivilDayOfWeek(s) == Some((DayOf(s) + 3) % 7 + 1)
  {
    hide DateOf, DayNumber, HasShape, Fields, ValidateIsoCivilDate, FormatIsoCivilDate, InRange;
    ParseThenFormat(s);
  }

  lemma EpochIsDayZero()
    ensures RealDate(CivilDate(1970, 1, 1)) && DayNumber(CivilDate(1970, 1, 1)) == 0
  {
  }

  lemma EpochText()
    ensures FormatIsoCivilDate(CivilDate(1970, 1, 1)) == "1970-01-01"
  {
    EpochIsDayZero();
    hide RealDate, FormatIsoCivilDate, HasShape, Fields;
    FormatShape(CivilDate(1970, 1, 1));
    assert Four(1970) == "1970" && Two(1) == "01";
  }

  /** Days are counted from 1970-01-01, a Thursday. */
  lemma EpochIsAThursday()
    ensures ValidateIsoCivilDate("1970-01-01") && DayOf("1970-01-01") == 0 && CivilDayOfWeek("1970-01-01") == Some(4)
  {
    hide RealDate, DayNumber, DateOf, ValidateIsoCivilDate, DayOf, CivilDayOfWeek, FormatIsoCivilDate;
    EpochIsDayZero();
    EpochText();
    DayNumberIsFaithful(CivilDate(1970, 1, 1), DateOf(0));
    DayOfIso(0);
    DayOfWeekOf(Iso(0));
  }

  // ---- Order -------------------------------------------------------------------------

  /** The order of strings: at the first difference the smaller character, or a proper prefix. */
  predicate TextLess(a: string, b: string) {
    b != [] && (a == [] || a[0] < b[0] || (a[0] == b[0] && TextLess(a[1..], b[1..])))
  }

  lemma {:induction false} TextLessConcat(a: string, b: string, x: string, y: string)
    requires |a| == |b|
    ensures TextLess(a + x, b + y) <==> TextLess(a, b) || (a == b && TextLess(x, y))
  {
    if a == [] {
      assert a + x == x && b + y == y;
    } else {
      assert (a + x)[1..] == a[1..] + x && (b + y)[1..] == b[1..] + y;
      assert a == b <==> a[0] == b[0] && a[1..] == b[1..];
      TextLessConcat(a[1..], b[1..], x, y);
    }
  }

  lemma TwoOrder(m: int, n: int)
    requires 0 <= m < 100 && 0 <= n < 100
    ensures TextLess(Two(m), Two(n)) <==> m < n
    ensures Two(m) == Two(n) <==> m == n
  {
    ReadTwo(m);
    ReadTwo(n);
    var a, b := Two(m), Two(n);
    assert TextLess(a[1..], b[1..]) <==> a[1] < b[1] by {
      assert a[1..][0] == a[1] && b[1..][0] == b[1] && a[1..][1..] == [] && b[1..][1..] == [];
    }
  }

  lemma FourOrder(m: int, n: int)
    requires 0 <= m < 10000 && 0 <= n < 10000
    ensures TextLess(Four(m), Four(n)) <==> m < n
    ensures Four(m) == Four(n) <==> m == n
  {
    TwoOrder(m / 100, n / 100);
    TwoOrder(m % 100, n % 100);
    TextLessConcat(Two(m / 100), Two(n / 100), Two(m % 100), Two(n % 100));
    ReadFour(m);
    ReadFour(n);
  }

  lemma FormatOrder(a: CivilDate, b: CivilDate)
    requires RealDate(a) && RealDate(b) && 0 <= a.year <= 9999 && 0 <= b.year <= 9999
    ensures TextLess(FormatIsoCivilDate(a), FormatIsoCivilDate(b)) <==> Earlier(a, b)
  {
    FormatShape(a);
    FormatShape(b);
    MonthEnds(a.year, a.month);
    MonthEnds(b.year, b.month);
    FourOrder(a.year, b.year);
    TwoOrder(a.month, b.month);
    TwoOrder(a.day, b.day);
    hide Four, Two, FormatIsoCivilDate, RealDate;
    JoinedOrder(Four(a.year), Two(a.month), Two(a.day), Four(b.year), Two(b.month), Two(b.day));
  }

  lemma JoinedOrder(y: string, m: string, d: string, y': string, m': string, d': string)
    requires |y| == |y'| && |m| == |m'|
    ensures TextLess(Joined(y, m, d), Joined(y', m', d'))
            <==> TextLess(y, y') || (y == y' && (TextLess(m, m') || (m == m' && TextLess(d, d'))))
  {
    assert Joined(y, m, d) == y + (['-'] + (m + (['-'] + d)));
    assert Joined(y', m', d') == y' + (['-'] + (m' + (['-'] + d')));
    TextLessConcat(y, y', ['-'] + (m + (['-'] + d)), ['-'] + (m' + (['-'] + d')));
    TextLessConcat(['-'], ['-'], m + (['-'] + d), m' + (['-'] + d'));
    TextLessConcat(m, m', ['-'] + d, ['-'] + d');
    TextLessConcat(['-'], ['-'], d, d');
    assert !TextLess(['-'], ['-']);
  }

  /** Comparing valid strings compares dates. */
  lemma TextOrderIsDateOrder(s: string, t: string)
    requires ValidateIsoCivilDate(s) && ValidateIsoCivilDate(t)
    ensures TextLess(s, t) <==> DayOf(s) < DayOf(t)
  {
    ParseThenFormat(s);
    ParseThenFormat(t);
    var a, b := ParseIsoCivilDate(s).value, ParseIsoCivilDate(t).value;
    hide RealDate, FormatIsoCivilDate, ParseIsoCivilDate, DayNumber;
    DayNumberIsFaithful(a, b);
    FormatOrder(a, b);
  }
}
