/**
  When an offer expires and when its family is reminded: calculateBusinessDeadline
  and calculateOfferReminderAt of packages/database/src/business-calendar.ts, and
  the schedule capacity-offer.ts derives from them.
*/
module OfferDeadline {
  import opened Wrappers
  import opened IsoDates
  import opened BusinessDays
  import opened LocalTime
  import AdmissionRows

  const LAST_MOMENT := Clock(23, 59, 59, 999)
  const REMINDER_TIME := Clock(10, 0, 0, 0)

  function CalculateBusinessDeadline(issuedAt: int, businessDays: int, excluded: set<string>, zone: Zone): Option<int> {
    match BusinessDateAfter(GetLocalDate(zone, issuedAt), businessDays, excluded)
    case None => None
    case Some(date) => InstantOf(date, LAST_MOMENT, zone)
  }

  datatype Reminder = Throws | NoReminder | RemindAt(at: int)

  function CalculateOfferReminderAt(issuedAt: int, expiresAt: int, excluded: set<string>, zone: Zone): Reminder {
    match BusinessDateBefore(GetLocalDate(zone, expiresAt), excluded)
    case None => Throws
    case Some(date) =>
      match InstantOf(date, REMINDER_TIME, zone)
      case None => Throws
      case Some(at) => if at <= issuedAt then NoReminder else RemindAt(at)
  }

  /** Offsets of at most a day, any two of them less than ten hours apart. */
  ghost predicate Steady(zone: Zone) {
    Bounded(zone) && forall s, t :: zone(s) - zone(t) < 10 * HOUR_MS
  }

  /** A local date that parses is that of the instant, unless the instant lies before 1 AD and so before the date. */
  lemma ShownLocalDate(zone: Zone, t: int)
    requires ValidateIsoCivilDate(GetLocalDate(zone, t))
    ensures LocalDay(zone, t) <= DayOf(GetLocalDate(zone, t))
    ensures Reading(zone, t) >= FIRST_AD <==> LocalDay(zone, t) == DayOf(GetLocalDate(zone, t))
  {
    hide ValidateIsoCivilDate, DayOf, Iso;
    YearOfReading(Reading(zone, t));
    IsoOfDay(GetLocalDate(zone, t));
    if Reading(zone, t) >= FIRST_AD {
      assert GetLocalDate(zone, t) == Iso(LocalDay(zone, t)) by { ShownInAD(zone, t); }
      FormattedIsValid(LocalDay(zone, t));
      DayOfIso(LocalDay(zone, t));
    } else {
      YearOneStartsEarly();
      assert LocalDay(zone, t) < FIRST_DAY;
    }
  }

  lemma YearOneStartsEarly()
    ensures FIRST_AD < FIRST_DAY * DAY_MS
  {
  }

  lemma ShownInAD(zone: Zone, t: int)
    requires Reading(zone, t) >= FIRST_AD
    ensures GetLocalDate(zone, t) == Iso(LocalDay(zone, t))
  {
    YearOfReading(Reading(zone, t));
  }

  /** The local date of an instant that shows a date at some time of day is that date. */
  lemma ShownDate(date: string, clock: Clock, zone: Zone, t: int)
    requires ValidateIsoCivilDate(date) && ClockTime(clock) && Reading(zone, t) == Target(date, clock)
    ensures GetLocalDate(zone, t) == date && LocalDay(zone, t) == DayOf(date)
  {
    hide ValidateIsoCivilDate, DayOf, GetLocalDate, Iso;
    ClockIsFaithful(clock, clock);
    DayAndRest(DayOf(date), ClockMs(clock), Reading(zone, t));
    IsoOfDay(date);
    YearOneStartsEarly();
    ShownInAD(zone, t);
  }

  /** Readings ten hours apart are in the order of their instants. */
  lemma LaterReadingIsLater(zone: Zone, s: int, t: int)
    requires Steady(zone) && Reading(zone, s) + 10 * HOUR_MS <= Reading(zone, t)
    ensures s < t
  {
    assert zone(t) - zone(s) < 10 * HOUR_MS;
  }

  lemma WithinLocalDay(zone: Zone, t: int)
    ensures LocalDay(zone, t) * DAY_MS <= Reading(zone, t) < (LocalDay(zone, t) + 1) * DAY_MS
  {
  }

  /**
    The deadline shows 23:59:59.999 on the n-th business day after the local date of
    issue, the local date being that of the instant of issue from 1 AD on.
  */
  lemma DeadlineIsTheNthBusinessDay(issuedAt: int, businessDays: int, excluded: set<string>, zone: Zone)
    requires Bounded(zone) && CalculateBusinessDeadline(issuedAt, businessDays, excluded, zone).Some?
    ensures var e, issueDate := CalculateBusinessDeadline(issuedAt, businessDays, excluded, zone).value, GetLocalDate(zone, issuedAt);
            && ValidateIsoCivilDate(issueDate) && 1 <= businessDays <= MAX_SAFE_INTEGER
            && LocalDay(zone, issuedAt) <= DayOf(issueDate)
            && (Reading(zone, issuedAt) >= FIRST_AD ==> LocalDay(zone, issuedAt) == DayOf(issueDate))
            && BusinessDateAfter(issueDate, businessDays, excluded) == Some(GetLocalDate(zone, e))
            && ValidateIsoCivilDate(GetLocalDate(zone, e))
            && DayOf(GetLocalDate(zone, e)) == LocalDay(zone, e)
            && IsBusinessDate(GetLocalDate(zone, e), excluded) == Some(true)
            && Count(DayOf(issueDate), LocalDay(zone, e), excluded) == businessDays
            && DayOf(issueDate) < LocalDay(zone, e)
            && Reading(zone, e) == LocalDay(zone, e) * DAY_MS + ClockMs(LAST_MOMENT)
  {
    hide ValidateIsoCivilDate, DayOf, GetLocalDate, Iso, InstantOf, IsBusinessDate, Count, NthAfter, LocalDay, Reading, InRange, Bounded;
    var issueDate := GetLocalDate(zone, issuedAt);
    var last := BusinessDateAfter(issueDate, businessDays, excluded).value;
    var e := InstantOf(last, LAST_MOMENT, zone).value;
    ShownLocalDate(zone, issuedAt);
    AnswerIsTheNthBusinessDate(issueDate, businessDays, excluded, last);
    ResultShowsTarget(last, LAST_MOMENT, zone);
    ShownDate(last, LAST_MOMENT, zone, e);
  }

  /** A deadline lies after the instant of issue. */
  lemma DeadlineIsAfterIssue(issuedAt: int, businessDays: int, excluded: set<string>, zone: Zone)
    requires Steady(zone) && CalculateBusinessDeadline(issuedAt, businessDays, excluded, zone).Some?
    ensures issuedAt < CalculateBusinessDeadline(issuedAt, businessDays, excluded, zone).value
  {
    hide CalculateBusinessDeadline, ValidateIsoCivilDate, DayOf, GetLocalDate, IsBusinessDate, Count, LocalDay, Reading, BusinessDateAfter;
    var e := CalculateBusinessDeadline(issuedAt, businessDays, excluded, zone).value;
    DeadlineIsTheNthBusinessDay(issuedAt, businessDays, excluded, zone);
    WithinLocalDay(zone, issuedAt);
    assert Reading(zone, issuedAt) + 10 * HOUR_MS <= Reading(zone, e);
    LaterReadingIsLater(zone, issuedAt, e);
  }

  /** The date of a reminder: the (n-1)-th business day after issue, or for n = 1 one that is not after it. */
  lemma ReminderDate(issuedAt: int, businessDays: int, excluded: set<string>, zone: Zone, date: string)
    requires Bounded(zone) && CalculateBusinessDeadline(issuedAt, businessDays, excluded, zone).Some?
    requires BusinessDateBefore(GetLocalDate(zone, CalculateBusinessDeadline(issuedAt, businessDays, excluded, zone).value), excluded)
             == Some(date)
    ensures var e, issueDate := CalculateBusinessDeadline(issuedAt, businessDays, excluded, zone).value, GetLocalDate(zone, issuedAt);
            && ValidateIsoCivilDate(date) && DayOf(date) < LocalDay(zone, e)
            && ValidateIsoCivilDate(issueDate) && LocalDay(zone, issuedAt) <= DayOf(issueDate)
            && (businessDays >= 2 ==> BusinessDateAfter(issueDate, businessDays - 1, excluded) == Some(date))
            && (businessDays >= 2 ==> DayOf(issueDate) < DayOf(date))
            && (businessDays == 1 ==> DayOf(date) <= DayOf(issueDate))
  {
    hide CalculateBusinessDeadline, ValidateIsoCivilDate, DayOf, GetLocalDate, IsBusinessDate, Count, LocalDay, Reading,
    BusinessDateBefore, BusinessDateAfter, ClockMs;
    var e := CalculateBusinessDeadline(issuedAt, businessDays, excluded, zone).value;
    DeadlineIsTheNthBusinessDay(issuedAt, businessDays, excluded, zone);
    var issueDate, lastDate := GetLocalDate(zone, issuedAt), GetLocalDate(zone, e);
    AnswerIsTheLatestEarlier(lastDate, excluded, date);
    if businessDays >= 2 {
      BackFromNextIsSame(issueDate, businessDays - 1, excluded);
      AnswerIsTheNthBusinessDate(issueDate, businessDays - 1, excluded, date);
    } else {
      BackFromFirstIsNotAfterStart(issueDate, excluded, date);
    }
  }

  /** The instant found for the reminder: before the deadline, and after issue from two days on. */
  lemma ReminderInstant(issuedAt: int, businessDays: int, excluded: set<string>, zone: Zone, date: string, at: int)
    requires Steady(zone) && CalculateBusinessDeadline(issuedAt, businessDays, excluded, zone).Some?
    requires BusinessDateBefore(GetLocalDate(zone, CalculateBusinessDeadline(issuedAt, businessDays, excluded, zone).value), excluded)
             == Some(date)
    requires InstantOf(date, REMINDER_TIME, zone) == Some(at)
    ensures at < CalculateBusinessDeadline(issuedAt, businessDays, excluded, zone).value
    ensures businessDays >= 2 ==> issuedAt < at
    ensures GetLocalDate(zone, at) == date && Reading(zone, at) == LocalDay(zone, at) * DAY_MS + 10 * HOUR_MS
  {
    hide CalculateBusinessDeadline, ValidateIsoCivilDate, DayOf, GetLocalDate, IsBusinessDate, Count, LocalDay, Reading,
    BusinessDateBefore, BusinessDateAfter, InstantOf, Bounded;
    var e := CalculateBusinessDeadline(issuedAt, businessDays, excluded, zone).value;
    DeadlineIsTheNthBusinessDay(issuedAt, businessDays, excluded, zone);
    ReminderDate(issuedAt, businessDays, excluded, zone, date);
    ResultShowsTarget(date, REMINDER_TIME, zone);
    ShownDate(date, REMINDER_TIME, zone, at);
    WithinLocalDay(zone, issuedAt);
    LaterReadingIsLater(zone, at, e);
    if businessDays >= 2 {
      LaterReadingIsLater(zone, issuedAt, at);
    }
  }

  /**
    A reminder lies strictly between issue and deadline and shows 10:00 on the
    business day before the deadline; it is left out only for a validity of one
    day, and it fails only if that 10:00 does not resolve or, for a validity of one
    day, if the calendar has no earlier business date.
  */
  lemma ReminderIsBetween(issuedAt: int, businessDays: int, excluded: set<string>, zone: Zone)
    requires Steady(zone) && CalculateBusinessDeadline(issuedAt, businessDays, excluded, zone).Some?
    ensures var e := CalculateBusinessDeadline(issuedAt, businessDays, excluded, zone).value;
            var before := BusinessDateBefore(GetLocalDate(zone, e), excluded);
            match CalculateOfferReminderAt(issuedAt, e, excluded, zone)
            case RemindAt(at) =>
              && issuedAt < at < e
              && before == Some(GetLocalDate(zone, at))
              && Reading(zone, at) == LocalDay(zone, at) * DAY_MS + 10 * HOUR_MS
            case NoReminder => businessDays == 1
            case Throws =>
              && (before.None? ==> businessDays == 1)
              && (before.Some? ==> InstantOf(before.value, REMINDER_TIME, zone) == None)
  {
    hide CalculateBusinessDeadline, GetLocalDate, LocalDay, Reading, BusinessDateBefore, BusinessDateAfter, InstantOf, Bounded;
    hide ValidateIsoCivilDate, DayOf, IsBusinessDate, Count;
    var e := CalculateBusinessDeadline(issuedAt, businessDays, excluded, zone).value;
    DeadlineIsTheNthBusinessDay(issuedAt, businessDays, excluded, zone);
    var before := BusinessDateBefore(GetLocalDate(zone, e), excluded);
    if businessDays >= 2 {
      BackFromNextIsSame(GetLocalDate(zone, issuedAt), businessDays - 1, excluded);
      EarlierCountExists(GetLocalDate(zone, issuedAt), businessDays, excluded);
    }
    if before.Some? {
      var found := InstantOf(before.value, REMINDER_TIME, zone);
      if found.Some? {
        ReminderInstant(issuedAt, businessDays, excluded, zone, before.value, found.value);
      }
    }
  }

  lemma EarlierCountExists(start: string, count: int, excluded: set<string>)
    requires count >= 2 && BusinessDateAfter(start, count, excluded).Some?
    ensures BusinessDateAfter(start, count - 1, excluded).Some?
  {
    ThrowsWhenDatesRunOut(start, count, excluded);
    ThrowsWhenDatesRunOut(start, count - 1, excluded);
  }

  // ---- The schedule of an offer version -------------------------------------------------

  function ScheduleOf(issuedAt: int, businessDays: int, excluded: set<string>, zone: Zone): Option<AdmissionRows.Schedule> {
    match CalculateBusinessDeadline(issuedAt, businessDays, excluded, zone)
    case None => None
    case Some(expiresAt) =>
      match CalculateOfferReminderAt(issuedAt, expiresAt, excluded, zone)
      case Throws => None
      case NoReminder => Some(AdmissionRows.Schedule(expiresAt, None))
      case RemindAt(at) => Some(AdmissionRows.Schedule(expiresAt, Some(at)))
  }

  /** The rule a configured calendar gives the seat transactions. */
  function CalendarRule(excluded: set<string>, zone: Zone): AdmissionRows.DeadlineRule {
    (issuedAt: AdmissionRows.Instant, businessDays: int) => ScheduleOf(issuedAt, businessDays, excluded, zone)
  }

  /**
    With a configured calendar the deadline check of the schema never stops an
    issue, and every schedule orders issue, reminder and deadline.
  */
  lemma CalendarMeetsTheDeadlineCheck(excluded: set<string>, zone: Zone, issuedAt: int, validityDays: int)
    requires Steady(zone)
    ensures var resolved := AdmissionRows.ResolveSchedule(Some(CalendarRule(excluded, zone)), issuedAt, validityDays);
            && resolved != Err(AdmissionRows.ConstraintViolation)
            && (resolved.Ok? ==>
                var s := resolved.value;
                issuedAt < s.expiresAt && (s.reminderAt.Some? ==> issuedAt < s.reminderAt.value < s.expiresAt)
                && (s.reminderAt.None? ==> validityDays == 1))
  {
    hide CalculateBusinessDeadline, CalculateOfferReminderAt, Steady, BusinessDateBefore, BusinessDateAfter, InstantOf, GetLocalDate;
    if CalculateBusinessDeadline(issuedAt, validityDays, excluded, zone).Some? {
      DeadlineIsAfterIssue(issuedAt, validityDays, excluded, zone);
      ReminderIsBetween(issuedAt, validityDays, excluded, zone);
    }
  }
}
