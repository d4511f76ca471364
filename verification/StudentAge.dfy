/**
  Coming of age by calendar dates: parseCalendarDate and isAdultStudent of
  packages/database/src/application-authority.ts.
*/
module StudentAge {
  import opened Wrappers
  import opened CivilDates
  import opened IsoDates

  /** Date.UTC(y, m - 1, d) for any month number: months past December run into the next years. */
  function UtcDayOfAnyMonth(y: int, m: int, d: int): int {
    var year := if 0 <= y <= 99 then 1900 + y else y;
    DayNumber(CivilDate(year + (m - 1) / 12, (m - 1) % 12 + 1, d))
  }

  function ParseCalendarDate(s: string): Option<CivilDate> {
    if HasShape(s) && DateOf(UtcDayOfAnyMonth(Fields(s).year, Fields(s).month, Fields(s).day)) == Fields(s)
    then Some(Fields(s))
    else None
  }

  lemma SameWithinYear(y: int, m: int, d: int)
    requires 1 <= m <= 12
    ensures UtcDayOfAnyMonth(y, m, d) == UtcDay(y, m, d)
  {
    hide DayNumber;
    assert (m - 1) / 12 == 0 && (m - 1) % 12 + 1 == m;
  }

  lemma RealDatesAreInBounds(c: CivilDate)
    requires RealDate(c)
    ensures 1 <= c.month <= 12 && 1 <= c.day <= 31
  {
    MonthEnds(c.year, c.month);
  }

  /** The calendar and the authority code accept the same dates and read them alike. */
  lemma ParsersAgree(s: string)
    ensures ParseCalendarDate(s) == ParseIsoCivilDate(s)
  {
    hide HasShape, Fields, UtcDay, UtcDayOfAnyMonth, DayNumber, RealDate, DateOf;
    if HasShape(s) {
      var f := Fields(s);
      if 1 <= f.month <= 12 {
        SameWithinYear(f.year, f.month, f.day);
      }
      if DateOf(UtcDayOfAnyMonth(f.year, f.month, f.day)) == f {
        RealDatesAreInBounds(f);
      }
    }
  }

  /** None stands for the validation error of a date that does not parse. */
  function IsAdultStudent(dateOfBirth: string, reference: string): Option<bool> {
    match (ParseCalendarDate(dateOfBirth), ParseCalendarDate(reference))
    case (Some(birth), Some(today)) =>
      var years := today.year - birth.year;
      var age := if today.month < birth.month || (today.month == birth.month && today.day < birth.day) then years - 1 else years;
      Some(age >= 18)
    case _ => None
  }

  /** The day of the 18th birthday; 29 February counts as 1 March, for no birth year is it a leap day. */
  function ComesOfAge(birth: CivilDate): int {
    DayNumber(CivilDate(birth.year + 18, birth.month, birth.day))
  }

  lemma NoLeapAnniversary(birth: CivilDate)
    requires RealDate(birth)
    ensures birth.month == 2 && birth.day == 29 ==>
              !LeapYear(birth.year + 18) && ComesOfAge(birth) == DayNumber(CivilDate(birth.year + 18, 3, 1))
    ensures !(birth.month == 2 && birth.day == 29) ==> RealDate(CivilDate(birth.year + 18, birth.month, birth.day))
  {
    MonthEnds(birth.year, birth.month);
  }

  lemma AgeByDays(birth: CivilDate, today: CivilDate)
    requires RealDate(birth) && RealDate(today)
    ensures !Earlier(today, CivilDate(birth.year + 18, birth.month, birth.day)) <==> ComesOfAge(birth) <= DayNumber(today)
  {
    hide DayNumber, DaysBeforeMonth, DayFromYear;
    NoLeapAnniversary(birth);
    var anniversary := CivilDate(birth.year + 18, birth.month, birth.day);
    if birth.month == 2 && birth.day == 29 {
      var march := CivilDate(birth.year + 18, 3, 1);
      assert RealDate(march);
      assert today.year == march.year && today.month == 2 ==> today.day <= 28;
      DayNumberIsFaithful(today, march);
    } else {
      DayNumberIsFaithful(today, anniversary);
    }
  }

  /** A student is adult exactly from the day of the 18th birthday on. */
  lemma AdultFromAnniversary(dateOfBirth: string, reference: string)
    requires ValidateIsoCivilDate(dateOfBirth) && ValidateIsoCivilDate(reference)
    ensures IsAdultStudent(dateOfBirth, reference)
            == Some(ComesOfAge(ParseIsoCivilDate(dateOfBirth).value) <= DayOf(reference))
  {
    hide ValidateIsoCivilDate, RealDate, DayNumber, FormatIsoCivilDate, ParseCalendarDate, HasShape, Fields, ComesOfAge, InRange, Iso;
    ParsersAgree(dateOfBirth);
    ParsersAgree(reference);
    ParseThenFormat(dateOfBirth);
    ParseThenFormat(reference);
    AgeByDays(ParseIsoCivilDate(dateOfBirth).value, ParseIsoCivilDate(reference).value);
  }

  lemma AgeNeedsDates(dateOfBirth: string, reference: string)
    ensures IsAdultStudent(dateOfBirth, reference).Some? <==> ValidateIsoCivilDate(dateOfBirth) && ValidateIsoCivilDate(reference)
  {
    ParsersAgree(dateOfBirth);
    ParsersAgree(reference);
    hide ParseCalendarDate, ValidateIsoCivilDate;
  }

  /** Nobody becomes a minor again. */
  lemma AdultStaysAdult(dateOfBirth: string, earlier: string, later: string)
    requires IsAdultStudent(dateOfBirth, earlier) == Some(true) && ValidateIsoCivilDate(later)
    requires ValidateIsoCivilDate(earlier) && DayOf(earlier) <= DayOf(later)
    ensures IsAdultStudent(dateOfBirth, later) == Some(true)
  {
    hide IsAdultStudent, ValidateIsoCivilDate, DayOf, ComesOfAge;
    AgeNeedsDates(dateOfBirth, earlier);
    AdultFromAnniversary(dateOfBirth, earlier);
    AdultFromAnniversary(dateOfBirth, later);
  }
}
