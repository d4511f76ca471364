/**
  What every transaction on an activity keeps: the appointment chain, the attempts
  on it and the bound on reschedules.
*/
module ActivityChain {
  import opened Wrappers
  import opened Activities

  // ---- The invariant -----------------------------------------------------------------

  predicate LinkedAppointment(s: seq<Appointment>, i: int)
    requires 0 <= i < |s|
  {
    s[i].sequence == i + 1 && s[i].previous == if i == 0 then None else Some(s[i - 1].id)
  }

  /** Appointments are numbered 1..n and each names its predecessor; ids are distinct. */
  predicate ChainedAppointments(s: seq<Appointment>) {
    && (forall i :: 0 <= i < |s| ==> LinkedAppointment(s, i))
    && (forall i, j :: 0 <= i < j < |s| ==> s[i].id != s[j].id)
  }

  predicate LinkedAttempt(s: seq<Attempt>, j: int)
    requires 0 <= j < |s|
  {
    s[j].sequence == j + 1 && s[j].previous == if j == 0 then None else Some(s[j - 1].id)
  }

  predicate ChainedAttempts(s: seq<Attempt>) {
    && (forall j :: 0 <= j < |s| ==> LinkedAttempt(s, j))
    && (forall j, k :: 0 <= j < k < |s| ==> s[j].id != s[k].id)
  }

  /** The current appointment is the last one and is never REPROGRAMADA; the activity shows its status. */
  predicate CurrentIsLast(a: Activity) {
    var n := |a.appointments|;
    if n == 0 then a.current == None && a.status == Pendiente
    else
      var last := a.appointments[n - 1];
      && a.current == Some(last.id)
      && last.status != Reprogramada
      && (a.status == Cerrada || a.status == if last.status.Held? then Recorded(last.status.outcome) else Scheduled)
  }

  /** An attempt stands on an appointment that carries its outcome or was reprogrammed since. */
  predicate Stands(a: Activity, j: int)
    requires 0 <= j < |a.attempts|
  {
    var p := Position(a.appointments, a.attempts[j].appointmentId);
    && p < |a.appointments|
    && (a.appointments[p].status == Held(a.attempts[j].outcome) || a.appointments[p].status == Reprogramada)
    && (a.attempts[j].outcome == Inasistencia && p < |a.appointments| - 1 ==> a.appointments[p].status == Reprogramada)
  }

  predicate OnEarlierAppointment(a: Activity, j: int, k: int)
    requires 0 <= j < k < |a.attempts|
  {
    Position(a.appointments, a.attempts[j].appointmentId) < Position(a.appointments, a.attempts[k].appointmentId)
  }

  /** Attempts follow the order of their appointments, so no appointment has two. */
  predicate PlacedAttempts(a: Activity) {
    && (forall j :: 0 <= j < |a.attempts| ==> Stands(a, j))
    && (forall j, k :: 0 <= j < k < |a.attempts| ==> OnEarlierAppointment(a, j, k))
  }

  /** The last appointment carries an outcome only if the last attempt recorded it there. */
  predicate LastOutcomeIsLastAttempt(a: Activity) {
    var n, m := |a.appointments|, |a.attempts|;
    n > 0 && a.appointments[n - 1].status.Held? ==>
      m > 0 && a.attempts[m - 1].appointmentId == a.appointments[n - 1].id
  }

  predicate Justified(x: Attempt) {
    x.noShowJustified.Some? <==> x.outcome == Inasistencia
  }

  /** Only attended attempts carry a result, and an unfinished one is INCONCLUSO. */
  predicate ResultsMatch(a: Activity) {
    && (forall j :: 0 <= j < |a.attempts| ==>
          Justified(a.attempts[j])
          && (a.attempts[j].id in a.results <==> a.attempts[j].outcome != Inasistencia)
          && (a.attempts[j].outcome == NoCompletada ==> a.results[a.attempts[j].id] == Inconcluso))
    && (forall id :: id in a.results ==> exists j :: 0 <= j < |a.attempts| && a.attempts[j].id == id)
  }

  predicate WithinLimit(a: Activity) {
    Reschedules(a.appointments) <= a.maxNormalReschedules
  }

  predicate ClosedForCause(a: Activity) {
    a.status == Cerrada ==>
      && UnjustifiedNoShows(a.attempts) >= 2
      && |a.appointments| > 0 && a.appointments[|a.appointments| - 1].status != Programada
  }

  predicate Valid(a: Activity) {
    && ChainedAppointments(a.appointments)
    && ChainedAttempts(a.attempts)
    && CurrentIsLast(a)
    && PlacedAttempts(a)
    && LastOutcomeIsLastAttempt(a)
    && ResultsMatch(a)
    && WithinLimit(a)
    && ClosedForCause(a)
  }

  // ---- Looking up rows ------------------------------------------------------------------

  lemma CurrentOfValid(a: Activity)
    requires ChainedAppointments(a.appointments) && CurrentIsLast(a)
    ensures CurrentIndex(a) == if |a.appointments| == 0 then None else Some(|a.appointments| - 1)
    ensures |a.appointments| > 0 ==> a.appointments[|a.appointments| - 1].sequence == |a.appointments|
  {
    assert |a.appointments| > 0 ==> LinkedAppointment(a.appointments, |a.appointments| - 1);
  }

  lemma {:induction false} LatestOfValid(s: seq<Attempt>)
    requires ChainedAttempts(s)
    ensures LatestAttempt(s) == if s == [] then None else Some(s[|s| - 1])
    ensures s != [] ==> s[|s| - 1].sequence == |s|
  {
    if s != [] {
      var before := s[..|s| - 1];
      forall j | 0 <= j < |before| ensures LinkedAttempt(before, j) {
        assert LinkedAttempt(s, j);
      }
      LatestOfValid(before);
      assert LinkedAttempt(s, |s| - 1) && (before != [] ==> LinkedAttempt(s, |s| - 2));
    }
  }

  lemma PositionInChain(s: seq<Appointment>, p: nat)
    requires ChainedAppointments(s) && p < |s|
    ensures Position(s, s[p].id) == p
  {
  }

  /** Two sequences with the same ids place every id alike, up to an appended row of another id. */
  lemma PositionStays(s: seq<Appointment>, t: seq<Appointment>, id: Id)
    requires |s| <= |t| <= |s| + 1 && forall i :: 0 <= i < |s| ==> s[i].id == t[i].id
    requires Position(s, id) < |s|
    ensures Position(t, id) == Position(s, id)
  {
  }

  lemma ReschedulesOfMark(s: seq<Appointment>, status: AppointmentStatus)
    requires |s| > 0 && s[|s| - 1].status != Reprogramada
    ensures Reschedules(s[|s| - 1 := s[|s| - 1].(status := status)]) == Reschedules(s) + (if status == Reprogramada then 1 else 0)
  {
    var t := s[|s| - 1 := s[|s| - 1].(status := status)];
    assert t[..|t| - 1] == s[..|s| - 1];
  }

  lemma ReschedulesOfAppend(s: seq<Appointment>, appointment: Appointment)
    requires appointment.status != Reprogramada
    ensures Reschedules(s + [appointment]) == Reschedules(s)
  {
    assert (s + [appointment])[..|s|] == s;
  }

  // ---- Adding an appointment ----------------------------------------------------------------

  /** The rows after a new appointment; with `mark` the one it replaces is REPROGRAMADA. */
  function Extended(a: Activity, mark: bool, next: Appointment): Activity
    requires mark ==> |a.appointments| > 0
  {
    Appoint(if mark then MarkReprogrammed(a, |a.appointments| - 1) else a, next)
  }

  ghost predicate Extends(a: Activity, mark: bool, next: Appointment) {
    && Valid(a)
    && a.status != Cerrada
    && (mark ==> |a.appointments| > 0)
    && next.status == Programada
    && next.sequence == |a.appointments| + 1
    && next.previous == (if |a.appointments| == 0 then None else Some(a.appointments[|a.appointments| - 1].id))
    && forall i :: 0 <= i < |a.appointments| ==> a.appointments[i].id != next.id
  }

  lemma ExtendedPlaces(a: Activity, mark: bool, next: Appointment)
    requires Extends(a, mark, next)
    requires !mark && |a.appointments| > 0 ==> a.appointments[|a.appointments| - 1].status != Held(Inasistencia)
    ensures PlacedAttempts(Extended(a, mark, next))
  {
    hide ResultsMatch, LastOutcomeIsLastAttempt, ChainedAttempts, ClosedForCause, WithinLimit, LinkedAppointment;
    var b := Extended(a, mark, next);
    var s, t := a.appointments, b.appointments;
    forall j | 0 <= j < |a.attempts| ensures Stands(b, j) {
      assert Stands(a, j);
      PositionStays(s, t, a.attempts[j].appointmentId);
    }
    forall j, k | 0 <= j < k < |a.attempts| ensures OnEarlierAppointment(b, j, k) {
      assert OnEarlierAppointment(a, j, k) && Stands(a, j) && Stands(a, k);
      PositionStays(s, t, a.attempts[j].appointmentId);
      PositionStays(s, t, a.attempts[k].appointmentId);
    }
  }

  lemma ExtendedChains(a: Activity, mark: bool, next: Appointment)
    requires Extends(a, mark, next)
    ensures ChainedAppointments(Extended(a, mark, next).appointments)
    ensures CurrentIsLast(Extended(a, mark, next)) && LastOutcomeIsLastAttempt(Extended(a, mark, next))
  {
    hide PlacedAttempts, ResultsMatch, WithinLimit, ClosedForCause, ChainedAttempts;
    var s, t := a.appointments, Extended(a, mark, next).appointments;
    forall i | 0 <= i < |s| ensures LinkedAppointment(t, i) {
      assert LinkedAppointment(s, i);
    }
    assert LinkedAppointment(t, |s|);
  }

  lemma ExtendedStaysWithin(a: Activity, mark: bool, next: Appointment)
    requires Extends(a, mark, next)
    requires mark ==> Reschedules(a.appointments) < a.maxNormalReschedules
    ensures WithinLimit(Extended(a, mark, next))
  {
    hide PlacedAttempts, ResultsMatch, ClosedForCause, ChainedAttempts, ChainedAppointments, Reschedules;
    var marked := if mark then MarkReprogrammed(a, |a.appointments| - 1) else a;
    if mark {
      ReschedulesOfMark(a.appointments, Reprogramada);
    }
    ReschedulesOfAppend(marked.appointments, next);
  }

  lemma ExtendedKeepsValid(a: Activity, mark: bool, next: Appointment)
    requires Extends(a, mark, next)
    requires mark ==> Reschedules(a.appointments) < a.maxNormalReschedules
    requires !mark && |a.appointments| > 0 ==> a.appointments[|a.appointments| - 1].status != Held(Inasistencia)
    ensures Valid(Extended(a, mark, next))
  {
    ExtendedPlaces(a, mark, next);
    ExtendedChains(a, mark, next);
    ExtendedStaysWithin(a, mark, next);
    hide PlacedAttempts, ChainedAppointments, CurrentIsLast, LastOutcomeIsLastAttempt, WithinLimit;
  }

  lemma OnlyRequestsDiffer(a: Activity, b: Activity)
    requires Valid(a) && b == a.(requests := b.requests)
    ensures Valid(b)
  {
    forall j | 0 <= j < |b.attempts| ensures Stands(b, j) {
      assert Stands(a, j);
    }
    forall j, k | 0 <= j < k < |b.attempts| ensures OnEarlierAppointment(b, j, k) {
      assert OnEarlierAppointment(a, j, k);
    }
  }

  // ---- Transactions that appoint ----------------------------------------------------------------

  lemma ScheduleKeepsValid(a: Activity, ready: bool, input: ScheduleInput)
    requires Valid(a)
    ensures Valid(Schedule(a, ready, input).After(a))
  {
    hide PlacedAttempts, ResultsMatch, LastOutcomeIsLastAttempt;
    CurrentOfValid(a);
    if Schedule(a, ready, input).Commit? {
      ExtendedKeepsValid(a, false, Appointment(input.newId, 1, None, input.assignedUser, input.start, Programada));
    }
  }

  lemma ReprogramKeepsValid(a: Activity, ready: bool, input: ScheduleInput)
    requires Valid(a)
    ensures Valid(Reprogram(a, ready, input).After(a))
  {
    hide PlacedAttempts, ResultsMatch, LastOutcomeIsLastAttempt, WithinLimit;
    CurrentOfValid(a);
    if Reprogram(a, ready, input).Commit? {
      var last := a.appointments[|a.appointments| - 1];
      var next := Appointment(input.newId, last.sequence + 1, Some(last.id), input.assignedUser, input.start, Programada);
      ExtendedKeepsValid(a, true, next);
      OnlyRequestsDiffer(Extended(a, true, next), Fulfill(Extended(a, true, next), input.requestId, next.id));
    }
  }

  /** A repeat is only for a current appointment without a no-show: the latest attempt is the one on it. */
  lemma NoRepeatAfterNoShow(a: Activity)
    requires Valid(a) && |a.appointments| > 0
    requires LatestAttempt(a.attempts).Some? && LatestAttempt(a.attempts).value.outcome == NoCompletada
    ensures a.appointments[|a.appointments| - 1].status != Held(Inasistencia)
  {
    LatestOfValid(a.attempts);
    assert Stands(a, |a.attempts| - 1);
    PositionInChain(a.appointments, |a.appointments| - 1);
  }

  lemma RepeatKeepsValid(a: Activity, ready: bool, input: ScheduleInput)
    requires Valid(a)
    ensures Valid(Repeat(a, ready, input).After(a))
  {
    hide PlacedAttempts, ResultsMatch, LastOutcomeIsLastAttempt, WithinLimit;
    CurrentOfValid(a);
    if Repeat(a, ready, input).Commit? {
      NoRepeatAfterNoShow(a);
      var last := a.appointments[|a.appointments| - 1];
      ExtendedKeepsValid(a, false, Appointment(input.newId, last.sequence + 1, Some(last.id), input.assignedUser, input.start, Programada));
    }
  }

  // ---- Recording an outcome -------------------------------------------------------------------------

  /** The rows after a committed outcome on the last appointment. */
  ghost predicate Records(a: Activity, input: OutcomeInput) {
    Valid(a) && RecordOutcome(a, input).Commit?
  }

  lemma RecordedRows(a: Activity, input: OutcomeInput)
    requires Records(a, input)
    ensures |a.appointments| > 0
    ensures var n, b := |a.appointments|, RecordOutcome(a, input).activity;
            var x := AttemptOf(a, a.appointments[n - 1].id, input);
            && a.appointments[n - 1].status == Programada && a.status != Cerrada && OutcomeInputValid(input)
            && b.appointments == a.appointments[n - 1 := a.appointments[n - 1].(status := Held(input.outcome))]
            && b.attempts == a.attempts + [x] && x.sequence == |a.attempts| + 1
            && x.previous == (if |a.attempts| == 0 then None else Some(a.attempts[|a.attempts| - 1].id))
            && (forall j :: 0 <= j < |a.attempts| ==> a.attempts[j].id != x.id)
            && b.status == Recorded(input.outcome) && b.current == a.current && b.maxNormalReschedules == a.maxNormalReschedules
            && b.results == if input.result.Some? then a.results[x.id := input.result.value] else a.results
  {
    hide PlacedAttempts, ResultsMatch, LastOutcomeIsLastAttempt, WithinLimit;
    CurrentOfValid(a);
    LatestOfValid(a.attempts);
  }

  lemma RecordedPlaces(a: Activity, input: OutcomeInput)
    requires Records(a, input)
    ensures PlacedAttempts(RecordOutcome(a, input).activity)
  {
    hide RecordOutcome, ResultsMatch, LastOutcomeIsLastAttempt, ChainedAttempts, ClosedForCause, WithinLimit, CurrentIsLast, LinkedAppointment;
    RecordedRows(a, input);
    var n, m, b := |a.appointments|, |a.attempts|, RecordOutcome(a, input).activity;
    var s, t := a.appointments, b.appointments;
    PositionInChain(s, n - 1);
    PositionStays(s, t, s[n - 1].id);
    forall j | 0 <= j < m
      ensures Position(t, b.attempts[j].appointmentId) == Position(s, a.attempts[j].appointmentId) < n - 1 && Stands(b, j)
    {
      assert Stands(a, j);
      PositionStays(s, t, a.attempts[j].appointmentId);
    }
    assert Stands(b, m);
    forall j, k | 0 <= j < k < |b.attempts| ensures OnEarlierAppointment(b, j, k) {
      if k < m {
        assert OnEarlierAppointment(a, j, k);
      }
    }
  }

  lemma RecordedResults(a: Activity, input: OutcomeInput)
    requires Records(a, input)
    ensures ResultsMatch(RecordOutcome(a, input).activity)
  {
    hide PlacedAttempts, LastOutcomeIsLastAttempt, WithinLimit, CurrentIsLast, ChainedAppointments;
    RecordedRows(a, input);
    var b, m := RecordOutcome(a, input).activity, |a.attempts|;
    hide RecordOutcome;
    forall id | id in b.results ensures exists j :: 0 <= j < |b.attempts| && b.attempts[j].id == id {
      if id in a.results {
        var j :| 0 <= j < m && a.attempts[j].id == id;
        assert b.attempts[j].id == id;
      } else {
        assert b.attempts[m].id == id;
      }
    }
    assert b.attempts[m].id !in a.results;
  }

  lemma RecordedChains(a: Activity, input: OutcomeInput)
    requires Records(a, input)
    ensures var b := RecordOutcome(a, input).activity;
            ChainedAppointments(b.appointments) && ChainedAttempts(b.attempts) && CurrentIsLast(b)
            && LastOutcomeIsLastAttempt(b) && WithinLimit(b) && ClosedForCause(b)
  {
    RecordedRows(a, input);
    var b := RecordOutcome(a, input).activity;
    hide RecordOutcome, PlacedAttempts, ResultsMatch, Reschedules;
    ReschedulesOfMark(a.appointments, Held(input.outcome));
    forall i | 0 <= i < |b.appointments| ensures LinkedAppointment(b.appointments, i) {
      assert LinkedAppointment(a.appointments, i);
    }
    forall j | 0 <= j < |b.attempts| ensures LinkedAttempt(b.attempts, j) {
      if j < |a.attempts| {
        assert LinkedAttempt(a.attempts, j);
      }
    }
  }

  lemma RecordOutcomeKeepsValid(a: Activity, input: OutcomeInput)
    requires Valid(a)
    ensures Valid(RecordOutcome(a, input).After(a))
  {
    if RecordOutcome(a, input).Commit? {
      RecordedPlaces(a, input);
      RecordedResults(a, input);
      RecordedChains(a, input);
    }
  }

  // ---- Every transaction ----------------------------------------------------------------------------------

  lemma CloseKeepsValid(a: Activity)
    requires Valid(a)
    ensures Valid(CloseAfterNoShows(a).After(a))
  {
    CurrentOfValid(a);
    var b := CloseAfterNoShows(a).After(a);
    forall j | 0 <= j < |b.attempts| ensures Stands(b, j) {
      assert Stands(a, j);
    }
    forall j, k | 0 <= j < k < |b.attempts| ensures OnEarlierAppointment(b, j, k) {
      assert OnEarlierAppointment(a, j, k);
    }
    if a.attempts != [] {
      AttemptsNeedAppointments(a);
    }
  }

  lemma AttemptsNeedAppointments(a: Activity)
    requires Valid(a) && |a.attempts| > 0
    ensures |a.appointments| > 0
  {
    assert Stands(a, 0);
  }

  lemma StepKeepsValid(a: Activity, c: Command)
    requires Valid(a)
    ensures Valid(Step(a, c))
  {
    match c
    case ScheduleCmd(ready, input) => ScheduleKeepsValid(a, ready, input);
    case ReprogramCmd(ready, input) => ReprogramKeepsValid(a, ready, input);
    case RecordCmd(input) => RecordOutcomeKeepsValid(a, input);
    case RepeatCmd(ready, input) => RepeatKeepsValid(a, ready, input);
    case CloseCmd => CloseKeepsValid(a);
    case RequestCmd(requestId, expected) => OnlyRequestsDiffer(a, RequestReschedule(a, requestId, expected).After(a));
  }

  lemma {:induction false} RunKeepsValid(a: Activity, commands: seq<Command>)
    requires Valid(a)
    ensures Valid(Run(a, commands))
    decreases commands
  {
    if commands != [] {
      RunKeepsValid(a, commands[..|commands| - 1]);
      StepKeepsValid(Run(a, commands[..|commands| - 1]), commands[|commands| - 1]);
    }
  }

  lemma PinnedIsValid(a: Activity)
    requires Pinned(a)
    ensures Valid(a)
  {
  }
}
