/**
  What each transaction on a valid activity does, row by row: exactly when it commits,
  and every row it then writes. The current appointment of a valid activity is its
  last one.
*/
module ActivityEffects {
  import opened Wrappers
  import opened Activities
  import opened ActivityChain
  import ActivityTheorems

  function Last(a: Activity): Appointment
    requires a.appointments != []
  {
    a.appointments[|a.appointments| - 1]
  }

  /** The rows without the last appointment, for those that rewrite it. */
  function Earlier(a: Activity): seq<Appointment>
    requires a.appointments != []
  {
    a.appointments[..|a.appointments| - 1]
  }

  predicate NewAppointment(a: Activity, id: Id) {
    forall i :: 0 <= i < |a.appointments| ==> a.appointments[i].id != id
  }

  predicate NewAttempt(a: Activity, id: Id) {
    forall j :: 0 <= j < |a.attempts| ==> a.attempts[j].id != id
  }

  // ---- Counting rows ---------------------------------------------------------------------

  ghost function Rescheduled(appointments: seq<Appointment>): set<int> {
    set i | 0 <= i < |appointments| && appointments[i].status == Reprogramada
  }

  lemma {:induction false} ReschedulesAreCounted(s: seq<Appointment>)
    ensures Reschedules(s) == |Rescheduled(s)|
  {
    if s != [] {
      var n := |s| - 1;
      ReschedulesAreCounted(s[..n]);
      assert Rescheduled(s) == Rescheduled(s[..n]) + (if s[n].status == Reprogramada then {n} else {});
    }
  }

  ghost function Unexcused(attempts: seq<Attempt>): set<int> {
    set j | 0 <= j < |attempts| && attempts[j].outcome == Inasistencia && attempts[j].noShowJustified == Some(false)
  }

  lemma {:induction false} NoShowsAreCounted(s: seq<Attempt>)
    ensures UnjustifiedNoShows(s) == |Unexcused(s)|
  {
    if s != [] {
      var n := |s| - 1;
      NoShowsAreCounted(s[..n]);
      assert Unexcused(s) == Unexcused(s[..n]) + (if n in Unexcused(s) then {n} else {});
    }
  }

  /** Two different attempts are unjustified no-shows. */
  predicate TwoUnexcused(attempts: seq<Attempt>) {
    exists j, k :: 0 <= j < k < |attempts|
                   && attempts[j].outcome == Inasistencia && attempts[j].noShowJustified == Some(false)
                   && attempts[k].outcome == Inasistencia && attempts[k].noShowJustified == Some(false)
  }

  lemma TwoAreTwo(s: seq<Attempt>)
    ensures |Unexcused(s)| >= 2 <==> TwoUnexcused(s)
  {
    var all := Unexcused(s);
    if |all| >= 2 {
      var j :| j in all;
      assert |all - {j}| == |all| - 1;
      var k :| k in all - {j};
      if j < k {
        assert s[j].outcome == s[k].outcome;
      } else {
        assert s[k].outcome == s[j].outcome;
      }
    }
    forall j, k | 0 <= j < k < |s| && j in all && k in all ensures |all| >= 2 {
      SubsetIsSmaller({j, k}, all);
    }
    assert forall j :: 0 <= j < |s| && s[j].outcome == Inasistencia && s[j].noShowJustified == Some(false) ==> j in all;
  }

  lemma SubsetIsSmaller(x: set<int>, y: set<int>)
    requires x <= y
    ensures |x| <= |y|
  {
    assert y == x + (y - x);
  }

  // ---- Appointments ------------------------------------------------------------------------

  /** An activity is scheduled exactly once, before it has any appointment. */
  lemma ScheduleExactly(a: Activity, ready: bool, input: ScheduleInput)
    requires Valid(a)
    ensures var outcome := Schedule(a, ready, input);
            && (outcome.Commit? <==> ready && a.appointments == [])
            && (outcome.Commit? ==>
                outcome.activity == a.(
                  appointments := [Appointment(input.newId, 1, None, input.assignedUser, input.start, Programada)],
                  current := Some(input.newId), status := Scheduled))
  {
    hide Stands, OnEarlierAppointment, PlacedAttempts, ResultsMatch, LastOutcomeIsLastAttempt;
    CurrentOfValid(a);
  }

  ghost predicate MayReprogram(a: Activity, ready: bool, input: ScheduleInput) {
    && ready && a.status != Cerrada && a.appointments != [] && input.expected == Some(Last(a).id)
    && |Rescheduled(a.appointments)| < a.maxNormalReschedules
    && NewAppointment(a, input.newId)
    && (input.requestId.Some? ==>
          input.requestId.value in a.requests && a.requests[input.requestId.value] == RescheduleRequest(Last(a).id, None))
  }

  /**
    The current appointment is reprogrammed exactly while fewer appointments are
    REPROGRAMADA than the maximum allows; the next one follows it, and the request it
    answers, if any, is fulfilled by it.
  */
  lemma ReprogramExactly(a: Activity, ready: bool, input: ScheduleInput)
    requires Valid(a)
    ensures var outcome := Reprogram(a, ready, input);
            && (outcome.Commit? <==> MayReprogram(a, ready, input))
            && (outcome.Commit? ==>
                && outcome.activity.appointments
                   == Earlier(a) + [Last(a).(status := Reprogramada),
                                    Appointment(input.newId, |a.appointments| + 1, Some(Last(a).id), input.assignedUser,
                                                input.start, Programada)]
                && outcome.activity == a.(
                   appointments := outcome.activity.appointments, current := Some(input.newId), status := Scheduled,
                   requests := if input.requestId.None? then a.requests
                   else a.requests[input.requestId.value := RescheduleRequest(Last(a).id, Some(input.newId))]))
  {
    hide Stands, OnEarlierAppointment, PlacedAttempts, ResultsMatch, LastOutcomeIsLastAttempt, Position;
    CurrentOfValid(a);
    ReschedulesAreCounted(a.appointments);
    SequencesAreTaken(a);
  }

  /** Sequences run from 1 to the number of appointments, so the next one is free. */
  lemma SequencesAreTaken(a: Activity)
    requires ChainedAppointments(a.appointments)
    ensures forall id :: Insertable(a.appointments, id, |a.appointments| + 1) <==> NewAppointment(a, id)
  {
    forall i | 0 <= i < |a.appointments| ensures a.appointments[i].sequence == i + 1 {
      assert LinkedAppointment(a.appointments, i);
    }
  }

  predicate MayRepeat(a: Activity, ready: bool, input: ScheduleInput) {
    && ready && a.status != Cerrada && a.diagnosticEvaluation
    && a.attempts != [] && a.attempts[|a.attempts| - 1].outcome == NoCompletada
    && a.appointments != [] && input.expected == Some(Last(a).id)
    && NewAppointment(a, input.newId)
  }

  /** A diagnostic evaluation is repeated exactly if its last attempt was not completed; nothing is rewritten. */
  lemma RepeatExactly(a: Activity, ready: bool, input: ScheduleInput)
    requires Valid(a)
    ensures var outcome := Repeat(a, ready, input);
            && (outcome.Commit? <==> MayRepeat(a, ready, input))
            && (outcome.Commit? ==>
                outcome.activity == a.(
                  appointments := a.appointments
                    + [Appointment(input.newId, |a.appointments| + 1, Some(Last(a).id), input.assignedUser, input.start, Programada)],
                  current := Some(input.newId), status := Scheduled))
  {
    hide Stands, OnEarlierAppointment, PlacedAttempts, ResultsMatch, LastOutcomeIsLastAttempt, Position;
    CurrentOfValid(a);
    LatestOfValid(a.attempts);
    SequencesAreTaken(a);
  }

  // ---- Outcomes --------------------------------------------------------------------------------

  /** REALIZADA comes with a result, NO_COMPLETADA with INCONCLUSO, INASISTENCIA with none; only a no-show may be justified. */
  predicate OutcomeShape(input: OutcomeInput) {
    && (input.outcome == Inasistencia <==> input.result.None?)
    && (input.outcome == NoCompletada ==> input.result == Some(Inconcluso))
    && (input.noShowJustified.Some? ==> input.outcome == Inasistencia)
  }

  predicate MayRecord(a: Activity, input: OutcomeInput) {
    && OutcomeShape(input) && a.status != Cerrada && input.executorAllowed
    && a.appointments != [] && Last(a).id == input.expected && Last(a).status == Programada && Last(a).assignedUser == input.actor
    && (input.outcome == Inasistencia ==> input.occurredAt >= Last(a).scheduledStartAt + a.lateToleranceMinutes * 60_000)
    && NewAttempt(a, input.newId)
  }

  /**
    An outcome is recorded exactly by the assigned user on the appointment that is
    still PROGRAMADA, a no-show not before the tolerance has passed; a no-show nobody
    justified counts as unjustified.
  */
  lemma RecordExactly(a: Activity, input: OutcomeInput)
    requires Valid(a)
    ensures var outcome := RecordOutcome(a, input);
            && (outcome.Commit? <==> MayRecord(a, input))
            && (outcome.Commit? ==>
                outcome.activity == a.(
                  attempts := a.attempts
                    + [Attempt(input.newId, |a.attempts| + 1, if a.attempts == [] then None else Some(a.attempts[|a.attempts| - 1].id),
                               Last(a).id, input.outcome, input.occurredAt,
                               if input.outcome != Inasistencia then None else Some(input.noShowJustified == Some(true)))],
                  appointments := Earlier(a) + [Last(a).(status := Held(input.outcome))],
                  results := if input.result.None? then a.results else a.results[input.newId := input.result.value],
                  status := Recorded(input.outcome)))
  {
    hide Stands, OnEarlierAppointment, PlacedAttempts, ResultsMatch, LastOutcomeIsLastAttempt, Position;
    CurrentOfValid(a);
    LatestOfValid(a.attempts);
    AttemptSequencesAreTaken(a);
    if a.appointments != [] {
      assert a.appointments[|a.appointments| - 1 := Last(a).(status := Held(input.outcome))]
             == Earlier(a) + [Last(a).(status := Held(input.outcome))];
    }
  }

  lemma AttemptSequencesAreTaken(a: Activity)
    requires ChainedAttempts(a.attempts)
    ensures forall j :: 0 <= j < |a.attempts| ==> a.attempts[j].sequence != |a.attempts| + 1
  {
    forall j | 0 <= j < |a.attempts| ensures a.attempts[j].sequence == j + 1 {
      assert LinkedAttempt(a.attempts, j);
    }
  }

  // ---- Closing and requests ------------------------------------------------------------------------

  /**
    An activity is closed exactly if its current appointment is not PROGRAMADA and two
    different attempts are unjustified no-shows; closing changes nothing but the status.
  */
  lemma CloseExactly(a: Activity)
    requires Valid(a)
    ensures CloseAfterNoShows(a).Commit? <==>
            && (a.appointments == [] || Last(a).status != Programada)
            && exists j, k :: 0 <= j < k < |a.attempts|
                 && a.attempts[j].outcome == Inasistencia && a.attempts[j].noShowJustified == Some(false)
                 && a.attempts[k].outcome == Inasistencia && a.attempts[k].noShowJustified == Some(false)
    ensures CloseAfterNoShows(a).Commit? ==> CloseAfterNoShows(a).activity == a.(status := Cerrada)
    ensures a.current == if a.appointments == [] then None else Some(Last(a).id)
  {
    hide Stands, OnEarlierAppointment, PlacedAttempts, ResultsMatch, LastOutcomeIsLastAttempt, UnjustifiedNoShows, Position;
    CurrentOfValid(a);
    NoShowsAreCounted(a.attempts);
    TwoAreTwo(a.attempts);
  }

  /** A family may ask to reschedule exactly the current appointment, any number of times and whatever its status. */
  lemma RequestExactly(a: Activity, requestId: Id, expected: Id)
    requires Valid(a)
    ensures var outcome := RequestReschedule(a, requestId, expected);
            && (outcome.Commit? <==> a.appointments != [] && Last(a).id == expected && requestId !in a.requests)
            && (outcome.Commit? ==>
                outcome.activity == a.(requests := a.requests[requestId := RescheduleRequest(expected, None)]))
  {
    hide Stands, OnEarlierAppointment, PlacedAttempts, ResultsMatch, LastOutcomeIsLastAttempt;
    CurrentOfValid(a);
  }

  // ---- Refusals -------------------------------------------------------------------------------------

  /** Why an appointment is not reprogrammed although the policy is ready. */
  lemma RefusedReprograms(a: Activity, input: ScheduleInput)
    requires Valid(a) && input.expected.Some?
    ensures var outcome, expectedOne := Reprogram(a, true, input), a.appointments != [] && input.expected == Some(Last(a).id);
            && (outcome == Abort(ActivityClosed) <==> a.status == Cerrada)
            && (outcome == Abort(ActivityAppointmentChanged) <==> a.status != Cerrada && !expectedOne)
            && (outcome == Abort(NormalRescheduleLimit) <==>
                a.status != Cerrada && expectedOne && |Rescheduled(a.appointments)| >= a.maxNormalReschedules)
  {
    hide Stands, OnEarlierAppointment, PlacedAttempts, ResultsMatch, LastOutcomeIsLastAttempt, Position, Insertable, PendingFor;
    CurrentOfValid(a);
    ReschedulesAreCounted(a.appointments);
  }

  /** Why an outcome is not recorded: its shape, its appointment, its executor, or a no-show noted too early. */
  lemma RefusedOutcomes(a: Activity, input: OutcomeInput)
    requires Valid(a) && a.status != Cerrada
    ensures var outcome, expectedOne := RecordOutcome(a, input),
                a.appointments != [] && Last(a).id == input.expected && Last(a).status == Programada && Last(a).assignedUser == input.actor;
            && (outcome == Abort(InvalidInput) <==> !OutcomeShape(input))
            && (outcome == Abort(ActivityAppointmentChanged) <==> OutcomeShape(input) && !expectedOne)
            && (outcome == Abort(ExecutorDenied) <==> OutcomeShape(input) && expectedOne && !input.executorAllowed)
            && (outcome == Abort(NoShowTooEarly) <==>
                OutcomeShape(input) && expectedOne && input.executorAllowed && input.outcome == Inasistencia
                && input.occurredAt < Last(a).scheduledStartAt + a.lateToleranceMinutes * 60_000)
  {
    hide Stands, OnEarlierAppointment, PlacedAttempts, ResultsMatch, LastOutcomeIsLastAttempt, Position;
    CurrentOfValid(a);
  }

  lemma RefusedClosures(a: Activity)
    requires Valid(a)
    ensures CloseAfterNoShows(a) == Abort(CurrentNotResolved) <==> a.appointments != [] && Last(a).status == Programada
    ensures CloseAfterNoShows(a) == Abort(NeedsTwoNoShows) <==>
            (a.appointments == [] || Last(a).status != Programada) && !TwoUnexcused(a.attempts)
  {
    hide Valid, TwoUnexcused, UnjustifiedNoShows;
    CloseExactly(a);
    CurrentIsTheLast(a);
    assert TwoUnexcused(a.attempts) <==> UnjustifiedNoShows(a.attempts) >= 2 by {
      NoShowsAreCounted(a.attempts);
      TwoAreTwo(a.attempts);
    }
  }

  lemma CurrentIsTheLast(a: Activity)
    requires Valid(a)
    ensures CurrentIndex(a) == if a.appointments == [] then None else Some(|a.appointments| - 1)
  {
    hide Stands, OnEarlierAppointment, PlacedAttempts, ResultsMatch, LastOutcomeIsLastAttempt;
    CurrentOfValid(a);
  }

  // ---- A run that closes ------------------------------------------------------------------------------

  function Slot(newId: Id, expected: Option<Id>): ScheduleInput {
    ScheduleInput(newId, 7, 0, expected, None)
  }

  /** A no-show of the appointment at 0, noted as soon as the tolerance has passed and justified by nobody. */
  function NoShow(a: Activity, id: Id): OutcomeInput {
    OutcomeInput(id, id, 7, true, Inasistencia, None, None, a.lateToleranceMinutes * 60_000)
  }

  function MissedTwice(a: Activity): seq<Command> {
    [ ScheduleCmd(true, Slot(1, None)), RecordCmd(NoShow(a, 1)), ReprogramCmd(true, Slot(2, Some(1))), RecordCmd(NoShow(a, 2)), CloseCmd]
  }

  lemma RunOfFive(a: Activity, v: Command, w: Command, x: Command, y: Command, z: Command)
    ensures Run(a, [v, w, x, y, z]) == Step(Step(Step(Step(Step(a, v), w), x), y), z)
  {
    hide Step;
    ActivityTheorems.RunOfFour(a, v, w, x, y);
    assert [v, w, x, y, z][..4] == [v, w, x, y];
  }

  lemma MissedOnce(a: Activity)
    requires Pinned(a)
    ensures var b := Step(Step(a, MissedTwice(a)[0]), MissedTwice(a)[1]);
            && Valid(b) && b.appointments == [Appointment(1, 1, None, 7, 0, Held(Inasistencia))] && b.current == Some(1)
            && b.attempts == [Attempt(1, 1, None, 1, Inasistencia, a.lateToleranceMinutes * 60_000, Some(false))]
            && b.status == Recorded(Inasistencia) && b.maxNormalReschedules == a.maxNormalReschedules
            && b.lateToleranceMinutes == a.lateToleranceMinutes && b.requests == map[]
  {
    hide Valid, Schedule, RecordOutcome;
    PinnedIsValid(a);
    ScheduleExactly(a, true, Slot(1, None));
    StepKeepsValid(a, MissedTwice(a)[0]);
    var once := Step(a, MissedTwice(a)[0]);
    RecordExactly(once, NoShow(a, 1));
    StepKeepsValid(once, MissedTwice(a)[1]);
  }

  lemma MissedAgain(a: Activity, b: Activity)
    requires Valid(b) && b.appointments == [Appointment(1, 1, None, 7, 0, Held(Inasistencia))] && b.current == Some(1)
    requires b.attempts == [Attempt(1, 1, None, 1, Inasistencia, a.lateToleranceMinutes * 60_000, Some(false))]
    requires b.status == Recorded(Inasistencia) && b.maxNormalReschedules >= 1 && b.lateToleranceMinutes == a.lateToleranceMinutes
    ensures var c := Step(Step(b, MissedTwice(a)[2]), MissedTwice(a)[3]);
            Valid(c) && c.appointments != [] && Last(c).status == Held(Inasistencia) && |c.attempts| == 2
            && forall j :: 0 <= j < 2 ==> c.attempts[j].outcome == Inasistencia && c.attempts[j].noShowJustified == Some(false)
  {
    hide Valid, Reprogram, RecordOutcome;
    assert Rescheduled(b.appointments) == {};
    ReprogramExactly(b, true, Slot(2, Some(1)));
    StepKeepsValid(b, MissedTwice(a)[2]);
    var again := Step(b, MissedTwice(a)[2]);
    RecordExactly(again, NoShow(a, 2));
    StepKeepsValid(again, MissedTwice(a)[3]);
  }

  /** An activity can be closed by some run exactly if its maximum allows a reschedule. */
  lemma ClosableWithOneReschedule(pinned: Activity)
    requires Pinned(pinned)
    ensures (exists commands :: Run(pinned, commands).status == Cerrada) <==> pinned.maxNormalReschedules >= 1
    ensures pinned.maxNormalReschedules >= 1 ==> Run(pinned, MissedTwice(pinned)).status == Cerrada
  {
    hide Run, Valid;
    if pinned.maxNormalReschedules >= 1 {
      var all := MissedTwice(pinned);
      hide Step;
      RunOfFive(pinned, all[0], all[1], all[2], all[3], all[4]);
      MissedOnce(pinned);
      var once := Step(Step(pinned, all[0]), all[1]);
      MissedAgain(pinned, once);
      var twice := Step(Step(once, all[2]), all[3]);
      CloseExactly(twice);
      assert twice.attempts[0].outcome == twice.attempts[1].outcome;
      ClosingCloses(twice);
    } else {
      forall commands ensures Run(pinned, commands).status != Cerrada {
        ActivityTheorems.WithoutReschedulesNeverClosed(pinned, commands);
      }
    }
  }

  lemma ClosingCloses(a: Activity)
    requires CloseAfterNoShows(a).Commit?
    ensures Step(a, CloseCmd).status == Cerrada
  {
  }
}
