/**
  The instants the offer transactions write, read off the local clock and counted on
  the calendar: what calculateBusinessDeadline and calculateOfferReminderAt hand to
  every issue, promotion and reopening of packages/database/src/capacity-offer.ts.
*/
module OfferSchedule {
  import opened Wrappers
  import opened IsoDates
  import opened BusinessDays
  import opened LocalTime
  import opened OfferDeadline
  import opened AdmissionRows
  import opened SeatInvariants
  import SeatEffects
  import SeatRuns

  /** `day` is a working day, the n-th one after `start`. */
  predicate ClosesCount(start: int, n: int, excluded: set<string>, day: int) {
    start < day <= LAST_DAY && Working(day, excluded) && Count(start, day, excluded) == n
  }

  /** `before` is the last working day of the calendar earlier than `day`. */
  predicate JustBefore(day: int, excluded: set<string>, before: int) {
    FIRST_DAY <= before < day && Working(before, excluded) && forall d :: before < d < day ==> !Working(d, excluded)
  }

  /**
    The offer expires at 23:59:59.999 of the n-th working day after the local date of
    issue and the family is reminded at 10:00 of the working day before; a reminder is
    left out exactly if that instant does not lie after the issue.
  */
  ghost predicate OnTheNthBusinessDay(
    zone: Zone, excluded: set<string>, issuedAt: Instant, n: int, expiresAt: Instant, reminderAt: Option<Instant>)
  {
    var issueDate, last := GetLocalDate(zone, issuedAt), LocalDay(zone, expiresAt);
    && ValidateIsoCivilDate(issueDate)
    && (Reading(zone, issuedAt) >= FIRST_AD ==> DayOf(issueDate) == LocalDay(zone, issuedAt))
    && ClosesCount(DayOf(issueDate), n, excluded, last)
    && Reading(zone, expiresAt) == last * 86_400_000 + 86_399_999
    && exists at :: ShowsTenJustBefore(zone, excluded, last, at)
                    && reminderAt == (if issuedAt < at then Some(at) else None)
                    && (n >= 2 ==> issuedAt < at) && at < expiresAt
  }

  /** At this instant the clock shows 10:00 on the working day before the given day. */
  ghost predicate ShowsTenJustBefore(zone: Zone, excluded: set<string>, last: int, at: Instant) {
    Reading(zone, at) == LocalDay(zone, at) * 86_400_000 + 36_000_000 && JustBefore(last, excluded, LocalDay(zone, at))
  }

  lemma {:induction false} NoneBetween(a: int, b: int, excluded: set<string>)
    ensures Count(a, b, excluded) == 0 <==> forall d :: a < d <= b ==> !Working(d, excluded)
    decreases b - a
  {
    if a < b {
      NoneBetween(a, b - 1, excluded);
    }
  }

  lemma WorkingDayBefore(day: int, excluded: set<string>, before: int)
    requires InRange(day)
    ensures JustBefore(day, excluded, before) <==> BusinessDateBefore(Iso(day), excluded) == Some(Iso(before)) && FIRST_DAY <= before < day
  {
    hide Iso, Working, LastBefore, ValidateIsoCivilDate, DayOf, Count;
    DayOfIso(day);
    LastIsTheLast(day, excluded, before);
    NoneBetween(before, day - 1, excluded);
    var found := LastBefore(day, excluded);
    if found.Some? {
      LastIsTheLast(day, excluded, found.value);
      DayOfIso(found.value);
      if FIRST_DAY <= before < day {
        DayOfIso(before);
      }
    }
  }

  lemma WorkingDayAfter(start: string, n: int, excluded: set<string>, day: int)
    requires ValidateIsoCivilDate(start) && 1 <= n <= MAX_SAFE_INTEGER
    ensures ClosesCount(DayOf(start), n, excluded, day) <==>
            InRange(day) && BusinessDateAfter(start, n, excluded) == Some(Iso(day))
  {
    hide Iso, Working, NthAfter, ValidateIsoCivilDate, DayOf, Count;
    IsoOfDay(start);
    NthIsTheKth(DayOf(start), n, excluded, day);
    var found := NthAfter(DayOf(start), n, excluded);
    if found.Some? {
      NthIsTheKth(DayOf(start), n, excluded, found.value);
      DayOfIso(found.value);
      if InRange(day) {
        DayOfIso(day);
      }
    }
  }

  lemma AnsweredDay(start: string, n: int, excluded: set<string>)
    requires BusinessDateAfter(start, n, excluded).Some?
    ensures ValidateIsoCivilDate(start) && 1 <= n <= MAX_SAFE_INTEGER
    ensures exists day :: InRange(day) && BusinessDateAfter(start, n, excluded) == Some(Iso(day)) && ClosesCount(DayOf(start), n, excluded, day)
  {
    hide Iso, Working, NthAfter, ValidateIsoCivilDate, DayOf, Count;
    var day := NthAfter(DayOf(start), n, excluded).value;
    IsoOfDay(start);
    NthIsTheKth(DayOf(start), n, excluded, day);
    WorkingDayAfter(start, n, excluded, day);
  }

  lemma AnsweredDayBefore(day: int, excluded: set<string>)
    requires InRange(day) && BusinessDateBefore(Iso(day), excluded).Some?
    ensures exists before :: JustBefore(day, excluded, before) && BusinessDateBefore(Iso(day), excluded) == Some(Iso(before))
  {
    hide Iso, Working, LastBefore, ValidateIsoCivilDate, DayOf, Count;
    DayOfIso(day);
    var before := LastBefore(day, excluded).value;
    LastIsTheLast(day, excluded, before);
    WorkingDayBefore(day, excluded, before);
  }

  /** A local time found on a day of the calendar shows that day and that time. */
  lemma FoundShows(day: int, clock: Clock, zone: Zone)
    requires Bounded(zone) && InRange(day) && ClockTime(clock) && InstantOf(Iso(day), clock, zone).Some?
    ensures var at := InstantOf(Iso(day), clock, zone).value;
            LocalDay(zone, at) == day && Reading(zone, at) == day * DAY_MS + ClockMs(clock) && GetLocalDate(zone, at) == Iso(day)
  {
    hide Iso, ValidateIsoCivilDate, DayOf, InstantOf, GetLocalDate, Reading, Bounded;
    DayOfIso(day);
    ResultShowsTarget(Iso(day), clock, zone);
    ShownDate(Iso(day), clock, zone, InstantOf(Iso(day), clock, zone).value);
  }

  /** The deadline day and the reminder day of an issue, and the instants found on them. */
  ghost predicate FoundOn(
    zone: Zone, excluded: set<string>, start: int, n: int, last: int, before: int, expiresAt: Instant, remindAt: Instant)
  {
    && ClosesCount(start, n, excluded, last) && JustBefore(last, excluded, before)
    && InRange(last) && InRange(before)
    && InstantOf(Iso(last), Clock(23, 59, 59, 999), zone) == Some(expiresAt)
    && InstantOf(Iso(before), Clock(10, 0, 0, 0), zone) == Some(remindAt)
  }

  ghost predicate Counts(zone: Zone, issuedAt: Instant, n: int) {
    ValidateIsoCivilDate(GetLocalDate(zone, issuedAt)) && 1 <= n <= 0x1F_FFFF_FFFF_FFFF
  }

  lemma ScheduledDays(zone: Zone, excluded: set<string>, issuedAt: Instant, n: int, schedule: Schedule)
    requires Bounded(zone) && ScheduleOf(issuedAt, n, excluded, zone) == Some(schedule)
    ensures Counts(zone, issuedAt, n)
    ensures exists last, before, at ::
              && FoundOn(zone, excluded, DayOf(GetLocalDate(zone, issuedAt)), n, last, before, schedule.expiresAt, at)
              && schedule.reminderAt == if issuedAt < at then Some(at) else None
  {
    hide Bounded, ValidateIsoCivilDate, DayOf, GetLocalDate, Iso, InstantOf, BusinessDateAfter, BusinessDateBefore, ClosesCount, JustBefore;
    var issueDate := GetLocalDate(zone, issuedAt);
    AnsweredDay(issueDate, n, excluded);
    var last :| InRange(last) && BusinessDateAfter(issueDate, n, excluded) == Some(Iso(last))
                && ClosesCount(DayOf(issueDate), n, excluded, last);
    FoundShows(last, LAST_MOMENT, zone);
    AnsweredDayBefore(last, excluded);
    var before :| JustBefore(last, excluded, before) && BusinessDateBefore(Iso(last), excluded) == Some(Iso(before));
    var at := InstantOf(Iso(before), REMINDER_TIME, zone).value;
    assert InRange(before) by { JustBeforeInRange(last, excluded, before); }
    assert FoundOn(zone, excluded, DayOf(issueDate), n, last, before, schedule.expiresAt, at);
  }

  lemma JustBeforeInRange(day: int, excluded: set<string>, before: int)
    requires JustBefore(day, excluded, before) && InRange(day)
    ensures InRange(before)
  {
  }

  lemma DaysSchedule(
    zone: Zone, excluded: set<string>, issuedAt: Instant, n: int, last: int, before: int, expiresAt: Instant, at: Instant)
    requires Bounded(zone) && Counts(zone, issuedAt, n)
    requires FoundOn(zone, excluded, DayOf(GetLocalDate(zone, issuedAt)), n, last, before, expiresAt, at)
    ensures ScheduleOf(issuedAt, n, excluded, zone) == Some(Schedule(expiresAt, if issuedAt < at then Some(at) else None))
  {
    hide Bounded, ValidateIsoCivilDate, DayOf, GetLocalDate, Iso, InstantOf, BusinessDateAfter, BusinessDateBefore, ClosesCount, JustBefore;
    WorkingDayAfter(GetLocalDate(zone, issuedAt), n, excluded, last);
    FoundShows(last, LAST_MOMENT, zone);
    WorkingDayBefore(last, excluded, before);
  }

  lemma ResolvesLikeCalendar(excluded: set<string>, zone: Zone, issuedAt: Instant, n: int)
    requires Steady(zone)
    ensures var resolved, scheduled := ResolveSchedule(Some(CalendarRule(excluded, zone)), issuedAt, n), ScheduleOf(issuedAt, n, excluded, zone);
            && (resolved.Ok? <==> scheduled.Some?)
            && (resolved.Ok? ==> scheduled == Some(resolved.value))
  {
    hide ScheduleOf, Steady;
    CalendarMeetsTheDeadlineCheck(excluded, zone, issuedAt, n);
  }

  // ---- Main results --------------------------------------------------------------------

  /** Both local times the calendar asks for exist and are found. */
  ghost predicate BothResolve(zone: Zone, excluded: set<string>, last: int, before: int) {
    && InstantOf(Iso(last), Clock(23, 59, 59, 999), zone).Some?
    && JustBefore(last, excluded, before)
    && InstantOf(Iso(before), Clock(10, 0, 0, 0), zone).Some?
  }

  /**
    An offer is scheduled exactly if its count of business days is a positive safe
    integer, that many business days remain after its local date of issue with one
    before the last, and the two local times resolve.
  */
  lemma ScheduledExactly(excluded: set<string>, zone: Zone, issuedAt: Instant, n: int)
    requires Steady(zone)
    ensures ResolveSchedule(Some(CalendarRule(excluded, zone)), issuedAt, n).Ok? <==>
            && ValidateIsoCivilDate(GetLocalDate(zone, issuedAt)) && 1 <= n <= 0x1F_FFFF_FFFF_FFFF
            && exists last, before ::
                 ClosesCount(DayOf(GetLocalDate(zone, issuedAt)), n, excluded, last) && BothResolve(zone, excluded, last, before)
  {
    hide ValidateIsoCivilDate, DayOf, GetLocalDate, Iso, InstantOf, ScheduleOf, ResolveSchedule, Bounded;
    ResolvesLikeCalendar(excluded, zone, issuedAt, n);
    var scheduled := ScheduleOf(issuedAt, n, excluded, zone);
    if scheduled.Some? {
      ScheduledDays(zone, excluded, issuedAt, n, scheduled.value);
      var start := DayOf(GetLocalDate(zone, issuedAt));
      var last, before, at :| FoundOn(zone, excluded, start, n, last, before, scheduled.value.expiresAt, at);
      assert ClosesCount(start, n, excluded, last) && BothResolve(zone, excluded, last, before);
    } else if Counts(zone, issuedAt, n) {
      var start := DayOf(GetLocalDate(zone, issuedAt));
      StartsInRange(GetLocalDate(zone, issuedAt));
      forall last, before | ClosesCount(start, n, excluded, last) && BothResolve(zone, excluded, last, before) ensures false {
        var expiresAt, at := InstantOf(Iso(last), Clock(23, 59, 59, 999), zone).value, InstantOf(Iso(before), Clock(10, 0, 0, 0), zone).value;
        assert FoundOn(zone, excluded, start, n, last, before, expiresAt, at);
        DaysSchedule(zone, excluded, issuedAt, n, last, before, expiresAt, at);
      }
    }
  }

  lemma StartsInRange(date: string)
    requires ValidateIsoCivilDate(date)
    ensures FIRST_DAY <= DayOf(date)
  {
    IsoOfDay(date);
  }

  /** Every schedule is that of the n-th business day. */
  lemma ScheduledOnTheNthBusinessDay(excluded: set<string>, zone: Zone, issuedAt: Instant, n: int, schedule: Schedule)
    requires Steady(zone) && ResolveSchedule(Some(CalendarRule(excluded, zone)), issuedAt, n) == Ok(schedule)
    ensures OnTheNthBusinessDay(zone, excluded, issuedAt, n, schedule.expiresAt, schedule.reminderAt)
  {
    hide ValidateIsoCivilDate, DayOf, GetLocalDate, Iso, InstantOf, ScheduleOf, ResolveSchedule, Bounded, ClosesCount, JustBefore, Reading, LocalDay;
    ResolvesLikeCalendar(excluded, zone, issuedAt, n);
    ScheduledDays(zone, excluded, issuedAt, n, schedule);
    var issueDate := GetLocalDate(zone, issuedAt);
    var last, before, at :| FoundOn(zone, excluded, DayOf(issueDate), n, last, before, schedule.expiresAt, at)
                            && schedule.reminderAt == if issuedAt < at then Some(at) else None;
    FoundShows(last, Clock(23, 59, 59, 999), zone);
    FoundShows(before, Clock(10, 0, 0, 0), zone);
    ShownLocalDate(zone, issuedAt);
    ReminderFollowsIssue(excluded, zone, issuedAt, n, last, before, schedule.expiresAt, at);
    assert ShowsTenJustBefore(zone, excluded, last, at);
  }

  /** The reminder found lies before the deadline, and after the issue from two days on. */
  lemma ReminderFollowsIssue(
    excluded: set<string>, zone: Zone, issuedAt: Instant, n: int, last: int, before: int, expiresAt: Instant, at: Instant)
    requires Steady(zone) && Counts(zone, issuedAt, n)
    requires FoundOn(zone, excluded, DayOf(GetLocalDate(zone, issuedAt)), n, last, before, expiresAt, at)
    ensures at < expiresAt && (n >= 2 ==> issuedAt < at)
  {
    hide ValidateIsoCivilDate, DayOf, GetLocalDate, Iso, InstantOf, BusinessDateAfter, BusinessDateBefore, Bounded, ClosesCount, JustBefore;
    var issueDate := GetLocalDate(zone, issuedAt);
    WorkingDayAfter(issueDate, n, excluded, last);
    FoundShows(last, LAST_MOMENT, zone);
    WorkingDayBefore(last, excluded, before);
    ReminderInstant(issuedAt, n, excluded, zone, Iso(before), at);
  }

  // ---- Carried to the rows ------------------------------------------------------------------

  /** The version and its jobs are those of the n-th business day after its issue. */
  ghost predicate VersionOnSchedule(b: Book, v: Id, n: int, excluded: set<string>, zone: Zone) {
    && v in b.versions && v in b.jobs && b.jobs[v].expiresAt == b.versions[v].expiresAt
    && OnTheNthBusinessDay(zone, excluded, b.versions[v].issuedAt, n, b.versions[v].expiresAt, b.jobs[v].reminderAt)
  }

  ghost predicate UsesCalendar(c: Command, excluded: set<string>, zone: Zone) {
    c.DecideCmd? || c.PromoteCmd? || c.ReopenCmd? ==> c.calendar == Some(CalendarRule(excluded, zone))
  }

  lemma WithdrawalIssuesNothing(s: Rows, a: Id, confirmed: bool, now: Instant)
    requires Valid(s)
    ensures Withdraw(s, a, confirmed, now).After(s).book.versions.Keys == s.book.versions.Keys
  {
    hide Valid, Withdraw;
    SeatEffects.WithdrawalExactly(s, a, confirmed, now);
    if SeatEffects.MayWithdraw(s, a, confirmed) {
      SeatEffects.WithdrawalChoices(s, a, now);
    }
  }

  lemma BookStays(s: Rows, c: Command)
    requires c.CreateCapacityCmd? || c.AdjustCapacityCmd?
    ensures Step(s, c).book == s.book
  {
  }

  lemma AnswersIssueNothing(s: Rows, a: Id, v: Id, response: Response, authorized: bool, now: Instant)
    ensures Respond(s, a, v, response, authorized, now).After(s).book.versions.Keys == s.book.versions.Keys
  {
  }

  lemma OthersIssueNothing(s: Rows, c: Command)
    requires Valid(s) && !(c.DecideCmd? && c.disposition == Aprobado) && !c.PromoteCmd? && !c.ReopenCmd?
    ensures Step(s, c).book.versions.Keys == s.book.versions.Keys
  {
    hide Valid, Withdraw, Decide, Promote, ReopenObserving, Respond, CreateCapacity, AdjustCapacity;
    if c.CreateCapacityCmd? || c.AdjustCapacityCmd? {
      BookStays(s, c);
    } else if c.RespondCmd? {
      AnswersIssueNothing(s, c.applicationId, c.expectedVersionId, c.response, c.authorized, c.now);
    } else if c.DecideCmd? {
      SeatEffects.OtherDispositionsExactly(s, c.applicationId, c.disposition, c.now, c.calendar, c.ids, c.entryId);
    } else if c.WithdrawCmd? {
      WithdrawalIssuesNothing(s, c.applicationId, c.confirmed, c.now);
    }
  }

  lemma IssuedOnSchedule(
    s: Rows, a: Id, o: Id, ids: FreshIds, number: int, previous: Option<Id>, origin: Origin, offerVersion: int, now: Instant,
    schedule: Schedule, n: int, excluded: set<string>, zone: Zone)
    requires Steady(zone) && o in s.capacities && SeatEffects.Schedules(Some(CalendarRule(excluded, zone)), now, n, schedule)
    ensures var t := SeatEffects.WithVersion(s, a, o, ids, number, previous, origin, offerVersion, now, schedule);
            && t.book.versions.Keys == s.book.versions.Keys + {ids.versionId}
            && t.book.versions[ids.versionId].issuedAt == now && t.book.versions[ids.versionId].applicationId == a
            && VersionOnSchedule(t.book, ids.versionId, n, excluded, zone)
  {
    hide OnTheNthBusinessDay, CalendarRule;
    ScheduledOnTheNthBusinessDay(excluded, zone, now, n, schedule);
  }

  /** The one new version of `t` was issued at `now`, with the validity the capacity has in `s`, on the calendar. */
  ghost predicate IssuedOn(s: Rows, t: Rows, v: Id, now: Instant, excluded: set<string>, zone: Zone) {
    && v in t.book.versions && t.book.versions[v].issuedAt == now
    && t.book.versions[v].applicationId in s.applications
    && var o := s.applications[t.book.versions[v].applicationId].offeringId;
    && o in s.capacities && VersionOnSchedule(t.book, v, s.capacities[o].validityDays, excluded, zone)
  }

  lemma ApprovalOnSchedule(s: Rows, c: Command, v: Id, excluded: set<string>, zone: Zone)
    requires Valid(s) && Steady(zone) && UsesCalendar(c, excluded, zone) && c.DecideCmd? && c.disposition == Aprobado
    requires v in Step(s, c).book.versions && v !in s.book.versions
    ensures IssuedOn(s, Step(s, c), v, c.now, excluded, zone)
  {
    hide Valid, VersionOnSchedule, SeatEffects.WithVersion, SeatEffects.Schedules, Steady, CalendarRule, Decide;
    SeatEffects.ApprovalExactly(s, c.applicationId, c.now, c.calendar, c.ids, c.entryId);
    var a := c.applicationId;
    var o := s.applications[a].offeringId;
    var schedule :| SeatEffects.Schedules(c.calendar, c.now, s.capacities[o].validityDays, schedule)
                    && Step(s, c) == SeatEffects.WithVersion(s, a, o, c.ids, 1, None, Normal, 1, c.now, schedule)
                                       .(finalDecisions := s.finalDecisions + {a});
    IssuedOnSchedule(s, a, o, c.ids, 1, None, Normal, 1, c.now, schedule, s.capacities[o].validityDays, excluded, zone);
  }

  lemma PromotionOnSchedule(s: Rows, c: Command, v: Id, excluded: set<string>, zone: Zone)
    requires Valid(s) && Steady(zone) && UsesCalendar(c, excluded, zone) && c.PromoteCmd?
    requires v in Step(s, c).book.versions && v !in s.book.versions
    ensures IssuedOn(s, Step(s, c), v, c.now, excluded, zone)
  {
    hide Valid, VersionOnSchedule, SeatEffects.WithVersion, SeatEffects.Schedules, Steady, CalendarRule, Promote;
    SeatEffects.PromotionExactly(s, c.entryId, c.expectedCapacityVersion, c.expectedEntryVersion, c.now, c.calendar, c.ids);
    var entry := s.entries[c.entryId];
    SeatEffects.WaitingMayBeOffered(s, c.entryId);
    var days := s.capacities[entry.offeringId].validityDays;
    var schedule :| SeatEffects.Schedules(c.calendar, c.now, days, schedule)
                    && Step(s, c).book
                       == SeatEffects.WithVersion(s, entry.applicationId, entry.offeringId, c.ids, 1, None, Waitlist, 1, c.now, schedule).book;
    IssuedOnSchedule(s, entry.applicationId, entry.offeringId, c.ids, 1, None, Waitlist, 1, c.now, schedule, days, excluded, zone);
  }

  lemma ReopeningOnSchedule(s: Rows, c: Command, v: Id, excluded: set<string>, zone: Zone)
    requires Valid(s) && Steady(zone) && UsesCalendar(c, excluded, zone) && c.ReopenCmd?
    requires v in Step(s, c).book.versions && v !in s.book.versions
    ensures IssuedOn(s, Step(s, c), v, c.now, excluded, zone)
  {
    hide Valid, VersionOnSchedule, SeatEffects.WithVersion, SeatEffects.Schedules, Steady, CalendarRule, Reopen;
    var a := c.applicationId;
    SeatEffects.ReopeningExactly(s, a, c.expectedVersionId, c.expectedCapacityVersion, c.now, c.calendar, c.ids);
    SeatEffects.CurrentVersionIsThere(s, a);
    var o, offer, number := s.applications[a].offeringId, s.book.offers[a], s.book.versions[c.expectedVersionId].number + 1;
    var days := s.capacities[o].validityDays;
    var schedule :| SeatEffects.Schedules(c.calendar, c.now, days, schedule)
                    && Step(s, c) == SeatEffects.WithVersion(s, a, o, c.ids, number, Some(c.expectedVersionId), offer.origin,
                                                             offer.version + 1, c.now, schedule);
    IssuedOnSchedule(s, a, o, c.ids, number, Some(c.expectedVersionId), offer.origin, offer.version + 1, c.now, schedule, days,
                     excluded, zone);
  }

  /**
    Whichever transaction issues it, with a configured calendar a new version expires
    on the business day the validity of its capacity asks for, and its jobs say so.
  */
  lemma NewVersionsFollowCalendar(s: Rows, c: Command, v: Id, excluded: set<string>, zone: Zone)
    requires Valid(s) && Steady(zone) && UsesCalendar(c, excluded, zone)
    requires v in Step(s, c).book.versions && v !in s.book.versions
    ensures c.DecideCmd? || c.PromoteCmd? || c.ReopenCmd?
    ensures IssuedOn(s, Step(s, c), v, c.now, excluded, zone)
  {
    hide Valid, IssuedOn, Steady, UsesCalendar, Step;
    if c.DecideCmd? && c.disposition == Aprobado {
      ApprovalOnSchedule(s, c, v, excluded, zone);
    } else if c.PromoteCmd? {
      PromotionOnSchedule(s, c, v, excluded, zone);
    } else if c.ReopenCmd? {
      ReopeningOnSchedule(s, c, v, excluded, zone);
    } else {
      OthersIssueNothing(s, c);
    }
  }

  ghost predicate AllOnSchedule(b: Book, excluded: set<string>, zone: Zone) {
    forall v :: v in b.versions ==> exists n :: 1 <= n <= 30 && VersionOnSchedule(b, v, n, excluded, zone)
  }

  lemma StepKeepsSchedules(s: Rows, c: Command, excluded: set<string>, zone: Zone)
    requires Valid(s) && Steady(zone) && UsesCalendar(c, excluded, zone) && AllOnSchedule(s.book, excluded, zone)
    ensures AllOnSchedule(Step(s, c).book, excluded, zone)
  {
    hide Valid, OnTheNthBusinessDay, Steady, UsesCalendar, Step;
    SeatRuns.StepEvolves(s, c);
    forall v | v in Step(s, c).book.versions ensures exists n :: 1 <= n <= 30 && VersionOnSchedule(Step(s, c).book, v, n, excluded, zone) {
      if v in s.book.versions {
        var n :| 1 <= n <= 30 && VersionOnSchedule(s.book, v, n, excluded, zone);
        assert SeatRuns.Identity(Step(s, c).book.versions[v]) == SeatRuns.Identity(s.book.versions[v]);
        assert VersionOnSchedule(Step(s, c).book, v, n, excluded, zone);
      } else {
        NewVersionsFollowCalendar(s, c, v, excluded, zone);
        ValidityInRange(s, s.applications[Step(s, c).book.versions[v].applicationId].offeringId);
      }
    }
  }

  lemma ValidityInRange(s: Rows, o: Id)
    requires Valid(s) && o in s.capacities
    ensures 1 <= s.capacities[o].validityDays <= 30
  {
    hide BookValid, Placed, EntriesLinked;
  }

  /** In every run on one calendar every version ever issued expires on the business day of its validity. */
  lemma {:induction false} RunKeepsSchedules(s: Rows, commands: seq<Command>, excluded: set<string>, zone: Zone)
    requires Valid(s) && Steady(zone) && AllOnSchedule(s.book, excluded, zone)
    requires forall c :: c in commands ==> UsesCalendar(c, excluded, zone)
    ensures AllOnSchedule(Run(s, commands).book, excluded, zone)
    decreases commands
  {
    hide Valid, AllOnSchedule, Steady, UsesCalendar, Step;
    if commands != [] {
      SeatRuns.StepKeepsValid(s, commands[0]);
      StepKeepsSchedules(s, commands[0], excluded, zone);
      RunKeepsSchedules(Step(s, commands[0]), commands[1..], excluded, zone);
    }
  }
}
