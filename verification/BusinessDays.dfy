/**
  Counting business days: isBusinessDate, addBusinessDaysAfter and
  previousBusinessDate of packages/database/src/business-calendar.ts. None
  stands for the validation error they throw.
*/
module BusinessDays {
  import opened Wrappers
  import opened CivilDates
  import opened IsoDates

  const MAX_SAFE_INTEGER := 0x1F_FFFF_FFFF_FFFF

  function IsBusinessDate(s: string, excluded: set<string>): Option<bool> {
    match CivilDayOfWeek(s)
    case None => None
    case Some(dow) => Some(!(dow == 6 || dow == 7) && s !in excluded)
  }

  // ---- The count the loops refer to ------------------------------------------------

  /** A day of the range that is neither a weekend nor excluded. */
  predicate Working(n: int, excluded: set<string>) {
    (n + 3) % 7 < 5 && Iso(n) !in excluded
  }

  /** The number of working days after `a` up to and including `b`. */
  function Count(a: int, b: int, excluded: set<string>): nat
    decreases b - a
  {
    if b <= a then 0 else Count(a, b - 1, excluded) + (if Working(b, excluded) then 1 else 0)
  }

  /** The day reached from `d` after `k` further working days, unless the range ends first. */
  function NthAfter(d: int, k: nat, excluded: set<string>): Option<int>
    decreases LAST_DAY - d
  {
    if k == 0 then Some(d)
    else if d >= LAST_DAY then None
    else NthAfter(d + 1, if Working(d + 1, excluded) then k - 1 else k, excluded)
  }

  function LastBefore(d: int, excluded: set<string>): Option<int>
    decreases d - FIRST_DAY
  {
    if d <= FIRST_DAY then None
    else if Working(d - 1, excluded) then Some(d - 1)
    else LastBefore(d - 1, excluded)
  }

  function Written(day: Option<int>): Option<string> {
    if day.Some? then Some(Iso(day.value)) else None
  }

  function BusinessDateAfter(start: string, count: int, excluded: set<string>): Option<string> {
    if count < 1 || count > MAX_SAFE_INTEGER || !ValidateIsoCivilDate(start) then None
    else Written(NthAfter(DayOf(start), count, excluded))
  }

  function BusinessDateBefore(date: string, excluded: set<string>): Option<string> {
    if !ValidateIsoCivilDate(date) then None else Written(LastBefore(DayOf(date), excluded))
  }

  ghost function WorkingDays(a: int, b: int, excluded: set<string>): set<int> {
    set d | a < d <= b && Working(d, excluded)
  }

  /** The count is the number of working days in the interval. */
  lemma {:induction false} CountIsCardinality(a: int, b: int, excluded: set<string>)
    ensures Count(a, b, excluded) == |WorkingDays(a, b, excluded)|
    decreases b - a
  {
    hide Working;
    if b <= a {
      assert WorkingDays(a, b, excluded) == {};
    } else {
      CountIsCardinality(a, b - 1, excluded);
      var before := WorkingDays(a, b - 1, excluded);
      assert b !in before;
      if Working(b, excluded) {
        assert WorkingDays(a, b, excluded) == before + {b};
      } else {
        assert WorkingDays(a, b, excluded) == before;
      }
    }
  }

  /** A day of the calendar works exactly if it is a Monday to Friday and not excluded. */
  lemma WorkingByWeekday(n: int, excluded: set<string>)
    requires InRange(n)
    ensures Working(n, excluded) <==> CivilDayOfWeek(Iso(n)).Some? && CivilDayOfWeek(Iso(n)).value in {1, 2, 3, 4, 5} && Iso(n) !in excluded
  {
    hide Iso, InRange, ValidateIsoCivilDate, DayOf;
    DayOfIso(n);
    DayOfWeekOf(Iso(n));
  }

  // ---- One step of either loop ---------------------------------------------------------

  lemma BusinessDateIsWorking(n: int, excluded: set<string>)
    ensures IsBusinessDate(Iso(n), excluded) == if InRange(n) then Some(Working(n, excluded)) else None
  {
    hide Iso, InRange, ValidateIsoCivilDate, DayOf;
    if InRange(n) {
      DayOfIso(n);
      DayOfWeekOf(Iso(n));
    } else {
      FormattedIsValid(n);
    }
  }

  lemma StepFrom(current: string, delta: int)
    requires ValidateIsoCivilDate(current)
    ensures ShiftCivilDate(current, delta) == Some(Iso(DayOf(current) + delta))
    ensures InRange(DayOf(current))
    ensures InRange(DayOf(current) + delta) ==>
              ValidateIsoCivilDate(Iso(DayOf(current) + delta)) && DayOf(Iso(DayOf(current) + delta)) == DayOf(current) + delta
  {
    hide Iso, InRange, ValidateIsoCivilDate, DayOf, ShiftCivilDate;
    ShiftIsAddition(current, delta);
    IsoOfDay(current);
    if InRange(DayOf(current) + delta) {
      DayOfIso(DayOf(current) + delta);
    }
  }

  method AddBusinessDaysAfter(start: string, count: int, excluded: set<string>) returns (r: Option<string>)
    ensures r == BusinessDateAfter(start, count, excluded)
  {
    hide Iso, ValidateIsoCivilDate, DayOf, ShiftCivilDate, IsBusinessDate, Working;
    if count < 1 || count > MAX_SAFE_INTEGER {
      return None;
    }
    var current := start;
    var remaining := count;
    while remaining > 0
      invariant 0 <= remaining <= count
      invariant !ValidateIsoCivilDate(start) ==> current == start && remaining == count
      invariant ValidateIsoCivilDate(start) ==>
          ValidateIsoCivilDate(current)
          && NthAfter(DayOf(current), remaining, excluded) == NthAfter(DayOf(start), count, excluded)
      decreases if ValidateIsoCivilDate(current) then LAST_DAY - DayOf(current) else 0
    {
      var next := ShiftCivilDate(current, 1);
      if next.None? {
        assert !ValidateIsoCivilDate(current) by {
          if ValidateIsoCivilDate(current) { StepFrom(current, 1); }
        }
        return None;
      }
      assert ValidateIsoCivilDate(current) by {
        ThrowsWhenInvalid(current, 1);
      }
      StepFrom(current, 1);
      BusinessDateIsWorking(DayOf(current) + 1, excluded);
      var business := IsBusinessDate(next.value, excluded);
      if business.None? {
        return None;
      }
      current := next.value;
      if business.value {
        remaining := remaining - 1;
      }
    }
    IsoOfDay(current);
    r := Some(current);
  }

  lemma ThrowsWhenInvalid(s: string, delta: int)
    ensures !ValidateIsoCivilDate(s) ==> ShiftCivilDate(s, delta) == None
  {
  }

  method PreviousBusinessDate(date: string, excluded: set<string>) returns (r: Option<string>)
    ensures r == BusinessDateBefore(date, excluded)
  {
    hide Iso, ValidateIsoCivilDate, DayOf, ShiftCivilDate, IsBusinessDate, Working;
    var current := date;
    while true
      invariant !ValidateIsoCivilDate(date) ==> current == date
      invariant ValidateIsoCivilDate(date) ==>
          ValidateIsoCivilDate(current)
          && LastBefore(DayOf(current), excluded) == LastBefore(DayOf(date), excluded)
      decreases if ValidateIsoCivilDate(current) then DayOf(current) - FIRST_DAY else 0
    {
      var previous := ShiftCivilDate(current, -1);
      ThrowsWhenInvalid(current, -1);
      if !ValidateIsoCivilDate(current) {
        return None;
      }
      StepFrom(current, -1);
      BusinessDateIsWorking(DayOf(current) - 1, excluded);
      current := previous.value;
      var business := IsBusinessDate(current, excluded);
      if business.None? {
        return None;
      }
      if business.value {
        return Some(current);
      }
    }
  }

  // ---- What the loops find ----------------------------------------------------------------

  lemma {:induction false} CountSplits(a: int, b: int, c: int, excluded: set<string>)
    requires a <= b <= c
    ensures Count(a, c, excluded) == Count(a, b, excluded) + Count(b, c, excluded)
    decreases c - b
  {
    if b < c {
      CountSplits(a, b, c - 1, excluded);
    }
  }

  /** The search ends on the one working day that closes an interval with `k` of them. */
  lemma {:induction false} NthIsTheKth(d: int, k: nat, excluded: set<string>, e: int)
    requires k >= 1
    ensures NthAfter(d, k, excluded) == Some(e) <==>
            d < e <= LAST_DAY && Working(e, excluded) && Count(d, e, excluded) == k
    decreases LAST_DAY - d
  {
    hide Working, DayNumber;
    if d < LAST_DAY {
      var rest := if Working(d + 1, excluded) then k - 1 else k;
      assert NthAfter(d, k, excluded) == NthAfter(d + 1, rest, excluded);
      if d + 1 <= e {
        CountSplits(d, d + 1, e, excluded);
        assert Count(d, d + 1, excluded) == k - rest;
        NothingPast(d + 1, e, excluded);
      }
      if rest >= 1 {
        NthIsTheKth(d + 1, rest, excluded, e);
      }
    }
  }

  lemma NothingPast(d: int, e: int, excluded: set<string>)
    requires d <= e
    ensures d < e && Working(e, excluded) ==> Count(d, e, excluded) >= 1
  {
  }

  lemma {:induction false} NthExists(d: int, k: nat, excluded: set<string>)
    ensures NthAfter(d, k, excluded).Some? <==> Count(d, LAST_DAY, excluded) >= k
    decreases LAST_DAY - d
  {
    if k > 0 && d < LAST_DAY {
      var rest := if Working(d + 1, excluded) then k - 1 else k;
      CountSplits(d, d + 1, LAST_DAY, excluded);
      NthExists(d + 1, rest, excluded);
    }
  }

  lemma {:induction false} LastIsTheLast(d: int, excluded: set<string>, e: int)
    ensures LastBefore(d, excluded) == Some(e) <==>
            FIRST_DAY <= e < d && Working(e, excluded) && Count(e, d - 1, excluded) == 0
    decreases d - FIRST_DAY
  {
    hide Working, DayNumber;
    if d > FIRST_DAY {
      LastIsTheLast(d - 1, excluded, e);
      if FIRST_DAY <= e < d - 1 {
        assert Count(e, d - 1, excluded) == Count(e, d - 2, excluded) + (if Working(d - 1, excluded) then 1 else 0);
      }
    }
  }

  // ---- Main results ------------------------------------------------------------------------

  /**
    `r` is the answer exactly if it is a business date after the start that makes
    the number of business dates in (start, r] equal to the count; so there is at
    most one such date.
  */
  lemma AnswerIsTheNthBusinessDate(start: string, count: int, excluded: set<string>, r: string)
    requires ValidateIsoCivilDate(start) && 1 <= count <= MAX_SAFE_INTEGER
    ensures BusinessDateAfter(start, count, excluded) == Some(r) <==>
            && ValidateIsoCivilDate(r)
            && IsBusinessDate(r, excluded) == Some(true)
            && DayOf(start) < DayOf(r)
            && Count(DayOf(start), DayOf(r), excluded) == count
  {
    hide Iso, ValidateIsoCivilDate, DayOf, IsBusinessDate, Working, NthAfter, Count;
    IsoOfDay(start);
    var found := NthAfter(DayOf(start), count, excluded);
    if found.Some? {
      NthIsTheKth(DayOf(start), count, excluded, found.value);
      DayOfIso(found.value);
      BusinessDateIsWorking(found.value, excluded);
    }
    if ValidateIsoCivilDate(r) {
      IsoOfDay(r);
      BusinessDateIsWorking(DayOf(r), excluded);
      NthIsTheKth(DayOf(start), count, excluded, DayOf(r));
    }
  }

  /** It throws exactly when the calendar runs out of business dates first. */
  lemma ThrowsWhenDatesRunOut(start: string, count: int, excluded: set<string>)
    ensures BusinessDateAfter(start, count, excluded) == None <==>
            || count < 1 || count > MAX_SAFE_INTEGER || !ValidateIsoCivilDate(start)
            || Count(DayOf(start), LAST_DAY, excluded) < count
  {
    if 1 <= count && ValidateIsoCivilDate(start) {
      NthExists(DayOf(start), count, excluded);
    }
  }

  lemma {:induction false} FewerExcludedMoreCounted(a: int, b: int, fewer: set<string>, more: set<string>)
    requires fewer <= more
    ensures Count(a, b, more) <= Count(a, b, fewer)
    decreases b - a
  {
    if a < b {
      FewerExcludedMoreCounted(a, b - 1, fewer, more);
    }
  }

  lemma {:induction false} NthIsMonotone(d: int, k: nat, more: nat, fewer: set<string>, excluded: set<string>)
    requires fewer <= excluded && k <= more && NthAfter(d, more, excluded).Some?
    ensures NthAfter(d, k, fewer).Some?
    ensures NthAfter(d, k, fewer).value <= NthAfter(d, more, excluded).value
    decreases LAST_DAY - d
  {
    if k == 0 {
      NthMovesForward(d, more, excluded);
    } else {
      NthIsMonotone(d + 1, if Working(d + 1, fewer) then k - 1 else k, if Working(d + 1, excluded) then more - 1 else more,
                    fewer, excluded);
    }
  }

  lemma {:induction false} NthMovesForward(d: int, k: nat, excluded: set<string>)
    requires NthAfter(d, k, excluded).Some?
    ensures d <= NthAfter(d, k, excluded).value
    decreases LAST_DAY - d
  {
    if k > 0 {
      NthMovesForward(d + 1, if Working(d + 1, excluded) then k - 1 else k, excluded);
    }
  }

  /** Excluding more dates never makes a deadline earlier, and never makes a failing call succeed. */
  lemma ExclusionsOnlyPostpone(start: string, count: int, fewer: set<string>, more: set<string>)
    requires fewer <= more && BusinessDateAfter(start, count, more).Some?
    ensures BusinessDateAfter(start, count, fewer).Some?
    ensures var early, late := BusinessDateAfter(start, count, fewer).value, BusinessDateAfter(start, count, more).value;
            ValidateIsoCivilDate(early) && ValidateIsoCivilDate(late) && DayOf(early) <= DayOf(late)
  {
    hide Iso, ValidateIsoCivilDate, DayOf, Working;
    NthIsMonotone(DayOf(start), count, count, fewer, more);
    var early, late := NthAfter(DayOf(start), count, fewer).value, NthAfter(DayOf(start), count, more).value;
    IsoOfDay(start);
    NthMovesForward(DayOf(start), count, fewer);
    NthIsTheKth(DayOf(start), count, more, late);
    DayOfIso(early);
    DayOfIso(late);
  }

  lemma StepBetweenNeighbours(d: int, k: nat, excluded: set<string>, here: int, next: int)
    requires k >= 1 && FIRST_DAY <= d && NthAfter(d, k, excluded) == Some(here) && NthAfter(d, k + 1, excluded) == Some(next)
    ensures d < here < next <= LAST_DAY && LastBefore(next, excluded) == Some(here)
  {
    hide Iso, Working, DayNumber, NthAfter, LastBefore;
    NthIsTheKth(d, k, excluded, here);
    NthIsTheKth(d, k + 1, excluded, next);
    hide LAST_DAY;
    if next < here {
      CountSplits(d, next, here, excluded);
    }
    CountSplits(d, here, next, excluded);
    assert Count(here, next, excluded) == Count(here, next - 1, excluded) + 1;
    LastIsTheLast(next, excluded, here);
  }

  /** Going back one business date from the (n+1)-th gives the n-th. */
  lemma BackFromNextIsSame(start: string, count: int, excluded: set<string>)
    requires count >= 1 && BusinessDateAfter(start, count + 1, excluded).Some?
    ensures BusinessDateBefore(BusinessDateAfter(start, count + 1, excluded).value, excluded)
            == BusinessDateAfter(start, count, excluded)
  {
    hide Iso, ValidateIsoCivilDate, DayOf, Working, DayNumber, NthAfter, LastBefore;
    var d := DayOf(start);
    NthIsMonotone(d, count, count + 1, excluded, excluded);
    IsoOfDay(start);
    var here, next := NthAfter(d, count, excluded).value, NthAfter(d, count + 1, excluded).value;
    assert FIRST_DAY <= d;
    StepBetweenNeighbours(d, count, excluded, here, next);
    assert InRange(next);
    DayOfIso(next);
  }

  /** Going back from the first one leaves the days after the start: the date found, if any, is not after it. */
  lemma BackFromFirstIsNotAfterStart(start: string, excluded: set<string>, previous: string)
    requires BusinessDateAfter(start, 1, excluded).Some?
    requires BusinessDateBefore(BusinessDateAfter(start, 1, excluded).value, excluded) == Some(previous)
    ensures ValidateIsoCivilDate(previous) && DayOf(previous) <= DayOf(start)
  {
    var d := DayOf(start);
    var first := NthAfter(d, 1, excluded).value;
    hide Iso, ValidateIsoCivilDate, DayOf, Working, NthAfter;
    NthIsTheKth(d, 1, excluded, first);
    IsoOfDay(start);
    DayOfIso(first);
    var p := LastBefore(first, excluded).value;
    LastIsTheLast(first, excluded, p);
    DayOfIso(p);
    if d < p {
      CountSplits(d, p, first, excluded);
      NothingPast(d, p, excluded);
      NothingPast(p, first, excluded);
    }
  }

  /** The date before is the latest business date earlier than the given one; it throws if there is none. */
  lemma AnswerIsTheLatestEarlier(date: string, excluded: set<string>, r: string)
    requires ValidateIsoCivilDate(date)
    ensures BusinessDateBefore(date, excluded) == Some(r) <==>
            && ValidateIsoCivilDate(r)
            && IsBusinessDate(r, excluded) == Some(true)
            && DayOf(r) < DayOf(date)
            && Count(DayOf(r), DayOf(date) - 1, excluded) == 0
  {
    hide Iso, ValidateIsoCivilDate, DayOf, IsBusinessDate, Working, LastBefore, Count;
    IsoOfDay(date);
    var found := LastBefore(DayOf(date), excluded);
    if found.Some? {
      LastIsTheLast(DayOf(date), excluded, found.value);
      DayOfIso(found.value);
      BusinessDateIsWorking(found.value, excluded);
    }
    if ValidateIsoCivilDate(r) {
      IsoOfDay(r);
      BusinessDateIsWorking(DayOf(r), excluded);
      LastIsTheLast(DayOf(date), excluded, DayOf(r));
    }
  }
}
