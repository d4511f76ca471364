/**
  civilDateTimeToInstant of packages/database/src/business-calendar.ts: the search
  for the instant at which a clock in some time zone shows a given date and time.

  A zone is the function from an instant to its offset, both in milliseconds, so
  the clock shows t + zone(t). Dates are read off as Intl.DateTimeFormat does: in
  the proleptic Gregorian calendar, with hours 0 to 23, and with the year of the
  era, so that the years before 1 AD count up again.
*/
module LocalTime {
  import opened Wrappers
  import opened CivilDates
  import opened IsoDates

  type Zone = int -> int

  const HOUR_MS := 3_600_000
  const DAY_MS := 86_400_000

  datatype Clock = Clock(hour: int, minute: int, second: int, millisecond: int)
  datatype ZonedParts = ZonedParts(date: CivilDate, clock: Clock)

  predicate ClockTime(k: Clock) {
    0 <= k.hour < 24 && 0 <= k.minute < 60 && 0 <= k.second < 60 && 0 <= k.millisecond < 1000
  }

  function ClockMs(k: Clock): int {
    k.hour * HOUR_MS + k.minute * 60_000 + k.second * 1000 + k.millisecond
  }

  function ClockOf(ms: int): (k: Clock)
    requires 0 <= ms < DAY_MS
    ensures ClockTime(k) && ClockMs(k) == ms
  {
    var inHour := ms % HOUR_MS;
    var inMinute := inHour % 60_000;
    Clock(ms / HOUR_MS, inHour / 60_000, inMinute / 1000, inMinute % 1000)
  }

  lemma ClockIsFaithful(j: Clock, k: Clock)
    requires ClockTime(j) && ClockTime(k)
    ensures 0 <= ClockMs(j) < DAY_MS
    ensures ClockMs(j) == ClockMs(k) <==> j == k
  {
  }

  /** What the clock shows, as milliseconds since 1970-01-01 00:00 by that clock. */
  function Reading(zone: Zone, t: int): int {
    t + zone(t)
  }

  function LocalDay(zone: Zone, t: int): int {
    Reading(zone, t) / DAY_MS
  }

  /** The year of the era: year 0 is 1 BC, year -1 is 2 BC. */
  function InEra(c: CivilDate): CivilDate {
    if c.year <= 0 then c.(year := 1 - c.year) else c
  }

  function GetZonedParts(zone: Zone, t: int): ZonedParts {
    ZonedParts(InEra(DateOf(LocalDay(zone, t))), ClockOf(Reading(zone, t) % DAY_MS))
  }

  function GetLocalDate(zone: Zone, t: int): string {
    FormatIsoCivilDate(GetZonedParts(zone, t).date)
  }

  /** Date.UTC of a date and a clock time. */
  function UtcMs(p: ZonedParts): int
    requires 1 <= p.date.month <= 12
  {
    UtcDay(p.date.year, p.date.month, p.date.day) * DAY_MS + ClockMs(p.clock)
  }

  /** What a guess shows, taken as a time in UTC. */
  function ShownAsUtc(zone: Zone, t: int): int {
    UtcMs(GetZonedParts(zone, t))
  }

  /** The loop: at most `rounds` corrections of the guess by the difference it shows. */
  function Refine(zone: Zone, target: int, guess: int, rounds: nat): int
    decreases rounds
  {
    if rounds == 0 then guess
    else
      var diff := ShownAsUtc(zone, guess) - target;
      if diff == 0 then guess else Refine(zone, target, guess - diff, rounds - 1)
  }

  function InstantOf(date: string, clock: Clock, zone: Zone): Option<int> {
    match ParseIsoCivilDate(date)
    case None => None
    case Some(c) =>
      var target := UtcMs(ZonedParts(c, clock));
      var found := Refine(zone, target, target, 4);
      if GetZonedParts(zone, found) == ZonedParts(c, clock) then Some(found) else None
  }

  lemma ParsedMonth(date: string)
    ensures var c := ParseIsoCivilDate(date); c.Some? ==> 1 <= c.value.month <= 12
  {
  }

  method CivilDateTimeToInstant(date: string, clock: Clock, zone: Zone) returns (r: Option<int>)
    ensures r == InstantOf(date, clock, zone)
  {
    hide Refine, ShownAsUtc, GetZonedParts, UtcMs, ParseIsoCivilDate;
    ParsedMonth(date);
    var parsed := ParseIsoCivilDate(date);
    if parsed.None? {
      return None;
    }
    var target := UtcMs(ZonedParts(parsed.value, clock));
    var guess := target;
    for iter := 0 to 4
      invariant Refine(zone, target, guess, 4 - iter) == Refine(zone, target, target, 4)
    {
      var diff := ShownAsUtc(zone, guess) - target;
      RefineUnfolds(zone, target, guess, 4 - iter);
      if diff == 0 {
        break;
      }
      guess := guess - diff;
    }
    NoRounds(zone, target, guess);
    if GetZonedParts(zone, guess) != ZonedParts(parsed.value, clock) {
      return None;
    }
    return Some(guess);
  }

  // ---- Soundness ------------------------------------------------------------------

  /** The reading a date and a time of day ask for. */
  function Target(date: string, clock: Clock): int
    requires ValidateIsoCivilDate(date)
  {
    DayOf(date) * DAY_MS + ClockMs(clock)
  }

  lemma DayAndRest(day: int, rest: int, total: int)
    requires total == day * DAY_MS + rest && 0 <= rest < DAY_MS
    ensures total / DAY_MS == day && total % DAY_MS == rest
  {
  }

  /** The first instant of a clock that counts as AD, and the first of the year 100. */
  const FIRST_AD := DayFromYear(1) * DAY_MS
  const FIRST_READING := FIRST_DAY * DAY_MS

  lemma YearOfReading(reading: int)
    ensures reading >= FIRST_AD <==> DateOf(reading / DAY_MS).year >= 1
    ensures reading >= FIRST_READING <==> DateOf(reading / DAY_MS).year >= 100
  {
    var day := reading / DAY_MS;
    var c := DateOf(day);
    WithinYear(c);
    RangeEnds();
    assert reading >= FIRST_AD <==> day >= DayFromYear(1);
    assert reading >= FIRST_READING <==> day >= DayFromYear(100);
    hide DayFromYear, DateOf, DayNumber, RealDate;
    YearStarts(day, c.year, 1);
    YearStarts(day, c.year, 100);
  }

  lemma YearStarts(day: int, y: int, z: int)
    requires InYear(day, y)
    ensures day >= DayFromYear(z) <==> y >= z
  {
    hide DayFromYear;
    if y >= z {
      YearsAscend(z, y);
    } else {
      YearsAscend(y + 1, z);
    }
  }

  lemma TargetIsUtc(date: string, clock: Clock)
    requires ValidateIsoCivilDate(date)
    ensures UtcMs(ZonedParts(ParseIsoCivilDate(date).value, clock)) == Target(date, clock)
    ensures ClockTime(clock) ==> Target(date, clock) >= FIRST_READING
  {
    ParseThenFormat(date);
  }

  /** From 1 AD on, the parts shown are the wanted ones exactly if the reading is the target. */
  lemma PartsAreReading(date: string, clock: Clock, zone: Zone, t: int)
    requires ValidateIsoCivilDate(date) && ClockTime(clock) && Reading(zone, t) >= FIRST_AD
    ensures GetZonedParts(zone, t) == ZonedParts(ParseIsoCivilDate(date).value, clock)
            <==> Reading(zone, t) == Target(date, clock)
  {
    hide ValidateIsoCivilDate, ClockOf, InRange, RealDate, DateOf, DayNumber, DayFromYear, HasShape, Fields;
    ParseThenFormat(date);
    var c := ParseIsoCivilDate(date).value;
    DayNumberIsFaithful(c, c);
    var reading := Reading(zone, t);
    YearOfReading(reading);
    var k := ClockOf(reading % DAY_MS);
    hide ClockMs, ClockTime;
    ClockIsFaithful(k, clock);
    if reading == Target(date, clock) {
      DayAndRest(DayOf(date), ClockMs(clock), reading);
    }
  }

  lemma ParsesWhenValid(date: string)
    ensures ParseIsoCivilDate(date).Some? <==> ValidateIsoCivilDate(date)
  {
  }

  /**
    Whatever the zone does, a result shows exactly the wanted parts; it shows the
    wanted date and time itself unless it lies before 1 AD, where the parts do not
    tell the era.
  */
  lemma ResultShowsParts(date: string, clock: Clock, zone: Zone)
    requires ClockTime(clock) && InstantOf(date, clock, zone).Some?
    ensures ValidateIsoCivilDate(date)
    ensures var r := InstantOf(date, clock, zone).value;
            && GetZonedParts(zone, r) == ZonedParts(ParseIsoCivilDate(date).value, clock)
            && (Reading(zone, r) >= FIRST_AD ==> Reading(zone, r) == Target(date, clock))
  {
    hide Target, Reading, ValidateIsoCivilDate, GetZonedParts, UtcMs, Refine;
    ParsesWhenValid(date);
    var r := InstantOf(date, clock, zone).value;
    if Reading(zone, r) >= FIRST_AD {
      PartsAreReading(date, clock, zone, r);
    }
  }

  // ---- Where the search goes ---------------------------------------------------------

  /** Offsets of at most a day, as those of all real zones. */
  ghost predicate Bounded(zone: Zone) {
    forall t :: -DAY_MS <= zone(t) <= DAY_MS
  }

  /** Readings from the year 100 on convert back to themselves. */
  lemma PlainPartsConvertBack(zone: Zone, t: int)
    requires Reading(zone, t) >= FIRST_READING
    ensures ShownAsUtc(zone, t) == Reading(zone, t)
  {
    hide DayFromYear, Reading;
    YearOfReading(Reading(zone, t));
    hide DateOf, DayNumber, RealDate;
  }

  lemma RefineUnfolds(zone: Zone, target: int, guess: int, rounds: nat)
    requires rounds >= 1
    ensures Refine(zone, target, guess, rounds)
            == if ShownAsUtc(zone, guess) == target then guess
               else Refine(zone, target, guess - (ShownAsUtc(zone, guess) - target), rounds - 1)
  {
    hide ShownAsUtc;
  }

  lemma NoRounds(zone: Zone, target: int, guess: int)
    ensures Refine(zone, target, guess, 0) == guess
  {
  }

  /** One round: a guess showing an offset moves to the target read with that offset. */
  lemma OneRound(zone: Zone, target: int, guess: int, rounds: nat)
    requires Reading(zone, guess) >= FIRST_READING && rounds >= 1
    ensures Refine(zone, target, guess, rounds)
            == if Reading(zone, guess) == target then guess else Refine(zone, target, target - zone(guess), rounds - 1)
  {
    hide Refine, ShownAsUtc;
    PlainPartsConvertBack(zone, guess);
    RefineUnfolds(zone, target, guess, rounds);
  }

  /** Far enough back that guesses show years of the era from 1700 on. */
  const LONG_AGO := (DayFromYear(-1700) - 1) * DAY_MS

  /** A reading of the last month of the year 99 is taken for one of 1999. */
  lemma Year99ShownAs1999(zone: Zone, t: int)
    requires FIRST_READING - 2 * DAY_MS <= Reading(zone, t) < FIRST_READING
    ensures ShownAsUtc(zone, t) == Reading(zone, t) + (DayFromYear(2000) - FIRST_DAY) * DAY_MS
  {
    var day := LocalDay(zone, t);
    var d := 32 + day - FIRST_DAY;
    var c := CivilDate(99, 12, d);
    RangeEnds();
    assert FIRST_DAY - 2 <= day < FIRST_DAY;
    DayOfDecember(99, d);
    DayOfDecember(1999, d);
    hide DayNumber, DateOf, DayFromYear, RealDate;
    DayNumberIsFaithful(c, c);
    assert DateOf(day) == c;
  }

  lemma DayOfDecember(y: int, d: int)
    requires 1 <= d <= 31
    ensures RealDate(CivilDate(y, 12, d)) && DayNumber(CivilDate(y, 12, d)) == DayFromYear(y + 1) - 32 + d
  {
    YearLength(y);
    MonthEnds(y, 12);
    hide DayFromYear;
  }

  /** Long ago the years of the era only take the search further back. */
  lemma LongAgoShowsLate(zone: Zone, t: int)
    requires Bounded(zone) && t < LONG_AGO
    ensures GetZonedParts(zone, t).date.year >= 1700
    ensures ShownAsUtc(zone, t) >= DayFromYear(1700) * DAY_MS
  {
    var day := LocalDay(zone, t);
    var c := DateOf(day);
    assert zone(t) <= DAY_MS;
    assert day < DayFromYear(-1700);
    WithinYear(c);
    hide DayFromYear, DateOf, Bounded;
    YearStarts(day, c.year, -1700);
    var shown := InEra(c);
    MonthsAscend(shown.year, 1, shown.month);
    MonthEnds(shown.year, 1);
    YearsAscend(1700, shown.year);
    hide DaysBeforeMonth, DaysInMonth;
    assert DayNumber(shown) >= DayFromYear(1700);
  }

  lemma {:induction false} LongAgoStays(zone: Zone, target: int, guess: int, rounds: nat)
    requires Bounded(zone) && guess < LONG_AGO && target < DayFromYear(1700) * DAY_MS
    ensures Refine(zone, target, guess, rounds) < LONG_AGO
    decreases rounds
  {
    hide Refine, ShownAsUtc, GetZonedParts, Bounded, LONG_AGO;
    if rounds > 0 {
      LongAgoShowsLate(zone, guess);
      RefineUnfolds(zone, target, guess, rounds);
      LongAgoStays(zone, target, guess - (ShownAsUtc(zone, guess) - target), rounds - 1);
    } else {
      NoRounds(zone, target, guess);
    }
  }

  /** A guess near the target that shows the year 99 sends the search away for good. */
  lemma EarlyReadingIsLost(zone: Zone, target: int, guess: int, rounds: nat)
    requires Bounded(zone) && rounds >= 1 && FIRST_READING <= target
    requires target - DAY_MS <= guess <= target + DAY_MS && Reading(zone, guess) < FIRST_READING
    ensures target < FIRST_READING + 2 * DAY_MS
    ensures Refine(zone, target, guess, rounds) < LONG_AGO
  {
    hide Refine, ShownAsUtc, LONG_AGO, DayFromYear;
    assert -DAY_MS <= zone(guess) <= DAY_MS;
    Year99ShownAs1999(zone, guess);
    CenturiesApart();
    var next := guess - (ShownAsUtc(zone, guess) - target);
    RefineUnfolds(zone, target, guess, rounds);
    LongAgoStays(zone, target, next, rounds - 1);
  }

  /** Nineteen centuries before the year 100 is long ago, and the year 100 is before 1700. */
  lemma CenturiesApart()
    ensures FIRST_READING + 4 * DAY_MS - (DayFromYear(2000) - FIRST_DAY) * DAY_MS < LONG_AGO
    ensures FIRST_READING + 2 * DAY_MS < DayFromYear(1700) * DAY_MS
  {
  }

  /** The search stays within a day of the target or is lost for good. */
  lemma {:induction false} NearOrLost(zone: Zone, target: int, guess: int, rounds: nat)
    requires Bounded(zone) && FIRST_READING <= target && target - DAY_MS <= guess <= target + DAY_MS
    ensures var r := Refine(zone, target, guess, rounds);
            target - DAY_MS <= r <= target + DAY_MS || (r < LONG_AGO && target < FIRST_READING + 2 * DAY_MS)
    decreases rounds
  {
    hide Refine, LONG_AGO;
    if rounds == 0 {
      NoRounds(zone, target, guess);
    } else if Reading(zone, guess) < FIRST_READING {
      EarlyReadingIsLost(zone, target, guess, rounds);
    } else {
      OneRound(zone, target, guess, rounds);
      assert -DAY_MS <= zone(guess) <= DAY_MS;
      NearOrLost(zone, target, target - zone(guess), rounds - 1);
    }
  }

  /** An instant of long ago does not show a date of the year 100. */
  lemma LostShowsOtherParts(date: string, clock: Clock, zone: Zone, t: int)
    requires Bounded(zone) && ValidateIsoCivilDate(date) && ClockTime(clock)
    requires Target(date, clock) < FIRST_READING + 2 * DAY_MS && t < LONG_AGO
    ensures GetZonedParts(zone, t) != ZonedParts(ParseIsoCivilDate(date).value, clock)
  {
    var c := ParseIsoCivilDate(date).value;
    hide ValidateIsoCivilDate, GetZonedParts, Bounded, LONG_AGO, ParseIsoCivilDate;
    LongAgoShowsLate(zone, t);
    ParseThenFormat(date);
    ClockIsFaithful(clock, clock);
    WithinYear(c);
    RangeEnds();
    assert DayNumber(c) < FIRST_DAY + 2 < DayFromYear(101);
    hide DayNumber, DayFromYear, RealDate;
    YearStarts(DayNumber(c), c.year, 101);
  }

  /** With offsets of at most a day, a result shows exactly the wanted date and time. */
  lemma ResultShowsTarget(date: string, clock: Clock, zone: Zone)
    requires Bounded(zone) && ClockTime(clock) && InstantOf(date, clock, zone).Some?
    ensures ValidateIsoCivilDate(date)
    ensures Reading(zone, InstantOf(date, clock, zone).value) == Target(date, clock)
  {
    hide Target, ValidateIsoCivilDate, GetZonedParts, UtcMs, Refine, LONG_AGO;
    ParsesWhenValid(date);
    TargetIsUtc(date, clock);
    var target, r := Target(date, clock), InstantOf(date, clock, zone).value;
    NearOrLost(zone, target, target, 4);
    if r < LONG_AGO && target < FIRST_READING + 2 * DAY_MS {
      LostShowsOtherParts(date, clock, zone, r);
    } else {
      assert -DAY_MS <= zone(r);
      assert FIRST_READING - 2 * DAY_MS >= FIRST_AD;
      PartsAreReading(date, clock, zone, r);
    }
  }

  // ---- One jump --------------------------------------------------------------------------

  /** The offset is `a` before the instant `jump` and `b` from then on. */
  predicate OffsetAt(zone: Zone, a: int, b: int, jump: int, t: int) {
    zone(t) == if t < jump then a else b
  }

  /** The instant the search settles on when the zone jumps from `a` to `b`. */
  function Settled(target: int, a: int, b: int, jump: int): int {
    if target < jump + a && (target < jump || target < jump + b) then target - a else target - b
  }

  /** One of the first two guesses shows a time before 0100-01-01. */
  predicate ReadsEarly(zone: Zone, target: int) {
    Reading(zone, target) < FIRST_READING || Reading(zone, target - zone(target)) < FIRST_READING
  }

  lemma RoundsSettle(zone: Zone, target: int, a: int, b: int, jump: int, rounds: nat)
    requires forall t :: t in {target, target - a, target - b} ==> OffsetAt(zone, a, b, jump, t)
    requires FIRST_READING <= target && !ReadsEarly(zone, target)
    requires !(jump + a <= target < jump + b) && rounds >= 2
    ensures Refine(zone, target, target, rounds) == Settled(target, a, b, jump)
    ensures Reading(zone, Settled(target, a, b, jump)) == target
  {
    hide Refine;
    assert OffsetAt(zone, a, b, jump, target) && OffsetAt(zone, a, b, jump, target - a) && OffsetAt(zone, a, b, jump, target - b);
    var second := target - zone(target);
    var settled := Settled(target, a, b, jump);
    assert Reading(zone, settled) == target;
    OneRound(zone, target, target, rounds);
    OneRound(zone, target, second, rounds - 1);
    if Reading(zone, target) == target {
      assert settled == target;
    } else if Reading(zone, second) == target {
      assert settled == second;
    } else {
      assert settled == target - zone(second);
      SettledStays(zone, target, settled, rounds - 2);
    }
  }

  lemma SettledStays(zone: Zone, target: int, guess: int, rounds: nat)
    requires FIRST_READING <= target && Reading(zone, guess) == target
    ensures Refine(zone, target, guess, rounds) == guess
  {
    hide Refine;
    if rounds > 0 {
      OneRound(zone, target, guess, rounds);
    } else {
      NoRounds(zone, target, guess);
    }
  }

  /** In the gap every guess shows another time, whichever of the two offsets it was made with. */
  lemma GapHasNoInstant(zone: Zone, target: int, a: int, b: int, jump: int, t: int)
    requires jump + a <= target < jump + b && OffsetAt(zone, a, b, jump, t)
    ensures Reading(zone, t) != target
  {
  }

  /** Until it is lost, the search moves between the target and the target read with either offset. */
  lemma {:induction false} GuessesStayClose(zone: Zone, target: int, a: int, b: int, jump: int, guess: int, rounds: nat)
    requires Bounded(zone) && FIRST_READING <= target
    requires forall t :: t in {target, target - a, target - b} ==> OffsetAt(zone, a, b, jump, t)
    requires guess in {target, target - a, target - b} && target - DAY_MS <= guess <= target + DAY_MS
    ensures var r := Refine(zone, target, guess, rounds);
            r in {target, target - a, target - b} || (r < LONG_AGO && target < FIRST_READING + 2 * DAY_MS)
    decreases rounds
  {
    hide Refine, LONG_AGO;
    if rounds == 0 {
      NoRounds(zone, target, guess);
    } else if Reading(zone, guess) < FIRST_READING {
      EarlyReadingIsLost(zone, target, guess, rounds);
    } else {
      assert OffsetAt(zone, a, b, jump, guess) && -DAY_MS <= zone(guess) <= DAY_MS;
      OneRound(zone, target, guess, rounds);
      GuessesStayClose(zone, target, a, b, jump, target - zone(guess), rounds - 1);
    }
  }

  /** A first or second guess that reads early loses the search. */
  lemma ReadsEarlyIsLost(zone: Zone, target: int, rounds: nat)
    requires Bounded(zone) && FIRST_READING <= target && ReadsEarly(zone, target) && rounds >= 2
    ensures Refine(zone, target, target, rounds) < LONG_AGO && target < FIRST_READING + 2 * DAY_MS
  {
    hide Refine, LONG_AGO;
    assert -DAY_MS <= zone(target) <= DAY_MS;
    if Reading(zone, target) < FIRST_READING {
      EarlyReadingIsLost(zone, target, target, rounds);
    } else {
      OneRound(zone, target, target, rounds);
      EarlyReadingIsLost(zone, target, target - zone(target), rounds - 1);
    }
  }

  /**
    Around one jump from `a` to `b` the search throws exactly in the gap and where
    one of its first two guesses reads before 0100-01-01; elsewhere two of its four
    rounds are enough.
  */
  lemma OneJumpIsSolved(date: string, clock: Clock, zone: Zone, a: int, b: int, jump: int)
    requires ValidateIsoCivilDate(date) && ClockTime(clock) && Bounded(zone)
    requires forall t :: t in {Target(date, clock), Target(date, clock) - a, Target(date, clock) - b} ==> OffsetAt(zone, a, b, jump, t)
    ensures InstantOf(date, clock, zone)
            == if jump + a <= Target(date, clock) < jump + b || ReadsEarly(zone, Target(date, clock)) then None
               else Some(Settled(Target(date, clock), a, b, jump))
    ensures InstantOf(date, clock, zone).Some? ==>
              Refine(zone, Target(date, clock), Target(date, clock), 4) == Refine(zone, Target(date, clock), Target(date, clock), 2)
  {
    hide ValidateIsoCivilDate, GetZonedParts, UtcMs, Refine, Settled, OffsetAt, LONG_AGO, Target, ReadsEarly, Bounded;
    var target := Target(date, clock);
    ParsesWhenValid(date);
    TargetIsUtc(date, clock);
    var found := Refine(zone, target, target, 4);
    if ReadsEarly(zone, target) {
      ReadsEarlyIsLost(zone, target, 4);
      LostShowsOtherParts(date, clock, zone, found);
    } else if jump + a <= target < jump + b {
      GuessesStayClose(zone, target, a, b, jump, target, 4);
      if found < LONG_AGO && target < FIRST_READING + 2 * DAY_MS {
        LostShowsOtherParts(date, clock, zone, found);
      } else {
        GapHasNoInstant(zone, target, a, b, jump, found);
        NearReadsAD(zone, target, 4);
        PartsAreReading(date, clock, zone, found);
      }
    } else {
      RoundsSettle(zone, target, a, b, jump, 4);
      RoundsSettle(zone, target, a, b, jump, 2);
      assert FIRST_READING >= FIRST_AD;
      PartsAreReading(date, clock, zone, found);
    }
  }

  lemma NearReadsAD(zone: Zone, target: int, rounds: nat)
    requires Bounded(zone) && FIRST_READING <= target
    ensures var r := Refine(zone, target, target, rounds);
            Reading(zone, r) >= FIRST_AD || (r < LONG_AGO && target < FIRST_READING + 2 * DAY_MS)
  {
    hide Refine, LONG_AGO;
    var r := Refine(zone, target, target, rounds);
    NearOrLost(zone, target, target, rounds);
    assert -DAY_MS <= zone(r);
    assert FIRST_READING - 2 * DAY_MS >= FIRST_AD;
  }

  /**
    With at most one jump within `reach` of the target, the search throws exactly
    when no instant shows the wanted date and time, or a first guess reads early.
  */
  lemma ThrowsOnlyForMissingTimes(date: string, clock: Clock, zone: Zone, a: int, b: int, jump: int, reach: int)
    requires ValidateIsoCivilDate(date) && ClockTime(clock) && reach <= DAY_MS
    requires -reach <= a <= reach && -reach <= b <= reach
    requires forall t :: -reach <= zone(t) <= reach
    requires forall t :: Target(date, clock) - reach <= t <= Target(date, clock) + reach ==> OffsetAt(zone, a, b, jump, t)
    ensures InstantOf(date, clock, zone) == None <==>
            (forall t :: Reading(zone, t) != Target(date, clock)) || ReadsEarly(zone, Target(date, clock))
  {
    hide ValidateIsoCivilDate, InstantOf, Target, Refine, ReadsEarly;
    var target := Target(date, clock);
    assert Bounded(zone);
    OneJumpIsSolved(date, clock, zone, a, b, jump);
    if jump + a <= target < jump + b {
      forall t ensures Reading(zone, t) != target {
        if target - reach <= t <= target + reach {
          assert OffsetAt(zone, a, b, jump, t);
        } else {
          assert -reach <= zone(t) <= reach;
        }
      }
    } else {
      var s := Settled(target, a, b, jump);
      assert OffsetAt(zone, a, b, jump, s);
      assert Reading(zone, s) == target;
    }
  }

  /** From two days into the year 100 no guess reads early. */
  lemma LaterDatesReadPlainly(date: string, clock: Clock, zone: Zone)
    requires ValidateIsoCivilDate(date) && ClockTime(clock) && Bounded(zone) && DayOf(date) >= FIRST_DAY + 2
    ensures !ReadsEarly(zone, Target(date, clock))
  {
    var target := Target(date, clock);
    ClockIsFaithful(clock, clock);
    hide ValidateIsoCivilDate, DayOf;
    assert -DAY_MS <= zone(target) <= DAY_MS && -DAY_MS <= zone(target - zone(target));
  }

  /**
    A time the clock shows twice resolves to its first occurrence exactly if, read
    as UTC, it lies before the jump, and to the second one otherwise.
  */
  lemma RepeatedTimeResolves(date: string, clock: Clock, zone: Zone, a: int, b: int, jump: int)
    requires ValidateIsoCivilDate(date) && ClockTime(clock) && Bounded(zone)
    requires forall t :: t in {Target(date, clock), Target(date, clock) - a, Target(date, clock) - b} ==> OffsetAt(zone, a, b, jump, t)
    requires jump + b <= Target(date, clock) < jump + a && !ReadsEarly(zone, Target(date, clock))
    ensures var target := Target(date, clock);
            && target - a < target - b
            && Reading(zone, target - a) == target && Reading(zone, target - b) == target
            && InstantOf(date, clock, zone) == Some(if target < jump then target - a else target - b)
  {
    hide ValidateIsoCivilDate, InstantOf, Target, Refine, ReadsEarly;
    var target := Target(date, clock);
    OneJumpIsSolved(date, clock, zone, a, b, jump);
    assert OffsetAt(zone, a, b, jump, target - a) && OffsetAt(zone, a, b, jump, target - b);
  }

  // ---- Any zone ---------------------------------------------------------------------------

  /** The target read with the offset of a guess. */
  function Corrected(zone: Zone, target: int, guess: int): int {
    target - zone(guess)
  }

  lemma PlainRound(zone: Zone, target: int, guess: int, rounds: nat)
    requires Bounded(zone) && target >= FIRST_READING + 2 * DAY_MS && target - DAY_MS <= guess <= target + DAY_MS && rounds >= 1
    ensures Refine(zone, target, guess, rounds) == Refine(zone, target, Corrected(zone, target, guess), rounds - 1)
    ensures target - DAY_MS <= Corrected(zone, target, guess) <= target + DAY_MS
  {
    hide Refine;
    assert -DAY_MS <= zone(guess) <= DAY_MS;
    OneRound(zone, target, guess, rounds);
    if Reading(zone, guess) == target {
      SettledStays(zone, target, guess, rounds - 1);
    }
  }

  /**
    Whatever a zone does, from 0100-01-03 on the search answers the target corrected
    four times, each time by the offset of the guess before, if that shows the target.
  */
  lemma FourthCorrectionDecides(date: string, clock: Clock, zone: Zone)
    requires ValidateIsoCivilDate(date) && ClockTime(clock) && Bounded(zone) && DayOf(date) >= FIRST_DAY + 2
    ensures var target := Target(date, clock);
            var first := target - zone(target);
            var second := target - zone(first);
            var third := target - zone(second);
            var fourth := target - zone(third);
            InstantOf(date, clock, zone) == if fourth + zone(fourth) == target then Some(fourth) else None
  {
    hide ValidateIsoCivilDate, GetZonedParts, UtcMs, Refine, Target, DayOf, ClockTime, Bounded, FIRST_READING, FIRST_AD;
    var target := Target(date, clock);
    LateTarget(date, clock);
    ParsesWhenValid(date);
    TargetIsUtc(date, clock);
    var first := Corrected(zone, target, target);
    PlainRound(zone, target, target, 4);
    var second := Corrected(zone, target, first);
    PlainRound(zone, target, first, 3);
    var third := Corrected(zone, target, second);
    PlainRound(zone, target, second, 2);
    var fourth := Corrected(zone, target, third);
    PlainRound(zone, target, third, 1);
    NoRounds(zone, target, fourth);
    NearReadsLate(zone, target, fourth);
    PartsAreReading(date, clock, zone, fourth);
  }

  lemma LateTarget(date: string, clock: Clock)
    requires ValidateIsoCivilDate(date) && ClockTime(clock) && DayOf(date) >= FIRST_DAY + 2
    ensures Target(date, clock) >= FIRST_READING + 2 * DAY_MS
  {
    hide ValidateIsoCivilDate, DayOf;
    ClockIsFaithful(clock, clock);
  }

  lemma NearReadsLate(zone: Zone, target: int, guess: int)
    requires Bounded(zone) && target >= FIRST_READING + 2 * DAY_MS && target - DAY_MS <= guess
    ensures Reading(zone, guess) >= FIRST_AD
  {
    assert -DAY_MS <= zone(guess);
    assert FIRST_READING >= FIRST_AD;
  }

  // ---- The first accepted date ----------------------------------------------------------

  function Fixed(offset: int): Zone {
    t => offset
  }

  /**
    Where the offset never changes, a time resolves exactly if the target read as
    UTC does not show a time before 0100-01-01; every time is shown by some instant.
  */
  lemma FixedOffsetResolves(date: string, clock: Clock, offset: int)
    requires ValidateIsoCivilDate(date) && ClockTime(clock) && -DAY_MS <= offset <= DAY_MS
    ensures Reading(Fixed(offset), Target(date, clock) - offset) == Target(date, clock)
    ensures InstantOf(date, clock, Fixed(offset))
            == if Target(date, clock) + offset >= FIRST_READING then Some(Target(date, clock) - offset) else None
  {
    hide ValidateIsoCivilDate, InstantOf, Target, Refine;
    OneJumpIsSolved(date, clock, Fixed(offset), offset, offset, Target(date, clock));
    TargetIsUtc(date, clock);
  }

  /** Midnight of 0100-01-01 is missed four hours west of Greenwich, though an instant shows it. */
  lemma FirstMidnightIsMissedInTheWest()
    ensures var date, midnight, zone := Iso(FIRST_DAY), Clock(0, 0, 0, 0), Fixed(-4 * HOUR_MS);
            && ValidateIsoCivilDate(date)
            && Reading(zone, FIRST_READING + 4 * HOUR_MS) == Target(date, midnight)
            && InstantOf(date, midnight, zone) == None
  {
    hide ValidateIsoCivilDate, Iso, DayOf, InstantOf;
    DayOfIso(FIRST_DAY);
    FixedOffsetResolves(Iso(FIRST_DAY), Clock(0, 0, 0, 0), -4 * HOUR_MS);
  }
}
