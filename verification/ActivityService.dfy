/**
  The activity as the service works on it: an object whose rows the methods
  update. Each method is tied to the transition of the same name in Activities;
  what the transitions keep is proved in ActivityChain and ActivityTheorems.
*/
module ActivityService {
  import opened Wrappers
  import opened Activities
  import opened ActivityChain
  import ActivityEffects

  /**
    What a caller may rely on: a valid activity stays valid, its reschedules made and
    remaining still add up, and a closed one only gains reschedule requests.
  */
  ghost predicate KeepsActivity(a: Activity, b: Activity) {
    && (Valid(a) ==> Valid(b) && RescheduleCounts(b).0 + RescheduleCounts(b).1 == a.maxNormalReschedules)
    && (a.status == Cerrada ==> b == a.(requests := b.requests))
  }

  lemma TransactionKeeps(a: Activity, command: Command)
    ensures KeepsActivity(a, Execute(a, command).After(a))
  {
    if Valid(a) {
      StepKeepsValid(a, command);
    }
    hide Valid;
    assert Step(a, command).maxNormalReschedules == a.maxNormalReschedules;
    assert a.status == Cerrada ==> Step(a, command) == a.(requests := Step(a, command).requests);
    hide Step, Execute;
    CountsAddUp(a);
    CountsAddUp(Step(a, command));
  }

  lemma CountsAddUp(a: Activity)
    ensures Valid(a) ==> RescheduleCounts(a).0 + RescheduleCounts(a).1 == a.maxNormalReschedules
  {
    hide ChainedAppointments, ChainedAttempts, PlacedAttempts, ResultsMatch, CurrentIsLast;
  }

  class ActivityRecord {
    const maxNormalReschedules: int
    const lateToleranceMinutes: int
    const diagnosticEvaluation: bool
    var status: ActivityStatus
    var current: Option<Id>
    var appointments: seq<Appointment>
    var attempts: seq<Attempt>
    var results: map<Id, ResultValue>
    var requests: map<Id, RescheduleRequest>

    function Value(): Activity
      reads this
    {
      Activity(maxNormalReschedules, lateToleranceMinutes, diagnosticEvaluation,
               status, current, appointments, attempts, results, requests)
    }

    constructor (maxNormalReschedules: int, lateToleranceMinutes: int, diagnosticEvaluation: bool)
      requires maxNormalReschedules >= 0
      ensures Pinned(Value()) && Valid(Value())
      ensures this.maxNormalReschedules == maxNormalReschedules && this.lateToleranceMinutes == lateToleranceMinutes
      ensures this.diagnosticEvaluation == diagnosticEvaluation
    {
      this.maxNormalReschedules := maxNormalReschedules;
      this.lateToleranceMinutes := lateToleranceMinutes;
      this.diagnosticEvaluation := diagnosticEvaluation;
      status, current, appointments, attempts, results, requests := Pendiente, None, [], [], map[], map[];
      new;
      PinnedIsValid(Value());
    }

    ghost predicate Follows(outcome: Outcome, before: Activity, failure: Option<Code>)
      reads this
    {
      && Value() == outcome.After(before)
      && failure == if outcome.Commit? then None else Some(outcome.code)
    }

    ghost predicate Keeps(before: Activity)
      reads this
    {
      KeepsActivity(before, Value())
    }

    method InsertCurrent(appointment: Appointment)
      modifies this`appointments, this`current, this`status
      ensures Value() == Appoint(old(Value()), appointment)
    {
      appointments := appointments + [appointment];
      current := Some(appointment.id);
      status := Scheduled;
    }

    /** schedule (reprogram = false) and reprogram share this transaction. */
    method MutateAppointment(reprogram: bool, ready: bool, input: ScheduleInput) returns (failure: Option<Code>)
      modifies this`appointments, this`current, this`status, this`requests
      ensures Follows(if reprogram then Reprogram(old(Value()), ready, input) else Schedule(old(Value()), ready, input),
                      old(Value()), failure)
      ensures Keeps(old(Value()))
    {
      hide KeepsActivity;
      TransactionKeeps(Value(), if reprogram then ReprogramCmd(ready, input) else ScheduleCmd(ready, input));
      if reprogram && input.expected.None? {
        return Some(InvalidInput);
      }
      if !ready {
        return Some(PolicyNotReady);
      }
      if status == Cerrada {
        return Some(ActivityClosed);
      }
      var found := CurrentIndex(Value());
      if !reprogram {
        if found.Some? {
          return Some(ActivityAlreadyScheduled);
        }
        if !Insertable(appointments, input.newId, 1) {
          return Some(ConstraintViolation);
        }
        InsertCurrent(Appointment(input.newId, 1, None, input.assignedUser, input.start, Programada));
      } else {
        if found.None? || current != input.expected {
          return Some(ActivityAppointmentChanged);
        }
        var made := CountReprogrammed();
        if made >= maxNormalReschedules {
          return Some(NormalRescheduleLimit);
        }
        var leaving := appointments[found.value];
        var next := Appointment(input.newId, leaving.sequence + 1, Some(leaving.id), input.assignedUser, input.start, Programada);
        if !Insertable(appointments, next.id, next.sequence) {
          return Some(ConstraintViolation);
        }
        if input.requestId.Some? && !PendingFor(Value(), input.requestId.value, leaving.id) {
          return Some(NotFound);
        }
        appointments := appointments[found.value := leaving.(status := Reprogramada)];
        InsertCurrent(next);
        if input.requestId.Some? {
          var request := requests[input.requestId.value];
          requests := requests[input.requestId.value := request.(fulfilledBy := Some(next.id))];
        }
      }
      return None;
    }

    method CountReprogrammed() returns (made: nat)
      ensures made == Reschedules(appointments)
    {
      made := 0;
      for i := 0 to |appointments|
        invariant made == Reschedules(appointments[..i])
      {
        assert appointments[..i + 1][..i] == appointments[..i];
        if appointments[i].status == Reprogramada {
          made := made + 1;
        }
      }
      assert appointments[..|appointments|] == appointments;
    }

    method RecordOutcome(input: OutcomeInput) returns (failure: Option<Code>)
      modifies this`appointments, this`attempts, this`results, this`status
      ensures Follows(Activities.RecordOutcome(old(Value()), input), old(Value()), failure)
      ensures Keeps(old(Value()))
    {
      hide KeepsActivity;
      TransactionKeeps(Value(), RecordCmd(input));
      if !OutcomeInputValid(input) {
        return Some(InvalidInput);
      }
      if status == Cerrada {
        return Some(ActivityClosed);
      }
      var found := CurrentIndex(Value());
      if found.None? || current != Some(input.expected) {
        return Some(ActivityAppointmentChanged);
      }
      var appointment := appointments[found.value];
      if appointment.status != Programada || appointment.assignedUser != input.actor {
        return Some(ActivityAppointmentChanged);
      }
      if !input.executorAllowed {
        return Some(ExecutorDenied);
      }
      if input.outcome == Inasistencia {
        var allowedAt := appointment.scheduledStartAt + lateToleranceMinutes * 60_000;
        if input.occurredAt < allowedAt {
          return Some(NoShowTooEarly);
        }
      }
      var attempt := AttemptOf(Value(), appointment.id, input);
      if exists j :: 0 <= j < |attempts| && (attempts[j].id == attempt.id || attempts[j].sequence == attempt.sequence) {
        return Some(ConstraintViolation);
      }
      attempts := attempts + [attempt];
      appointments := appointments[found.value := appointment.(status := Held(input.outcome))];
      if input.result.Some? {
        results := results[attempt.id := input.result.value];
      }
      status := Recorded(input.outcome);
      return None;
    }

    method Repeat(ready: bool, input: ScheduleInput) returns (failure: Option<Code>)
      modifies this`appointments, this`current, this`status
      ensures Follows(Activities.Repeat(old(Value()), ready, input), old(Value()), failure)
      ensures Keeps(old(Value()))
    {
      hide KeepsActivity;
      TransactionKeeps(Value(), RepeatCmd(ready, input));
      if !ready {
        return Some(PolicyNotReady);
      }
      if status == Cerrada {
        return Some(ActivityClosed);
      }
      if !diagnosticEvaluation {
        return Some(OnlyDiagnosticRepeats);
      }
      var latest := LatestAttempt(attempts);
      if latest.None? || latest.value.outcome != NoCompletada {
        return Some(OnlyNotCompletedRepeats);
      }
      var found := CurrentIndex(Value());
      if found.None? || current != input.expected {
        return Some(ActivityAppointmentChanged);
      }
      var leaving := appointments[found.value];
      var next := Appointment(input.newId, leaving.sequence + 1, Some(leaving.id), input.assignedUser, input.start, Programada);
      if !Insertable(appointments, next.id, next.sequence) {
        return Some(ConstraintViolation);
      }
      InsertCurrent(next);
      return None;
    }

    method CloseActivityAfterNoShows() returns (failure: Option<Code>)
      modifies this`status
      ensures Follows(CloseAfterNoShows(old(Value())), old(Value()), failure)
      ensures Keeps(old(Value()))
      ensures old(Valid(Value())) ==>
                (failure.None? <==>
                 (appointments == [] || ActivityEffects.Last(Value()).status != Programada) && ActivityEffects.TwoUnexcused(attempts))
      ensures failure.None? ==> Value() == old(Value()).(status := Cerrada)
    {
      hide KeepsActivity, Valid, ActivityEffects.TwoUnexcused;
      TransactionKeeps(Value(), CloseCmd);
      if Valid(Value()) {
        ActivityEffects.RefusedClosures(Value());
      }
      var found := CurrentIndex(Value());
      if found.Some? && appointments[found.value].status == Programada {
        return Some(CurrentNotResolved);
      }
      var unjustified := 0;
      for i := 0 to |attempts|
        invariant unjustified == UnjustifiedNoShows(attempts[..i])
      {
        assert attempts[..i + 1][..i] == attempts[..i];
        if UnjustifiedNoShow(attempts[i]) {
          unjustified := unjustified + 1;
        }
      }
      assert attempts[..|attempts|] == attempts;
      if unjustified < 2 {
        return Some(NeedsTwoNoShows);
      }
      status := Cerrada;
      return None;
    }

    method RequestFamilyReschedule(requestId: Id, expected: Id) returns (failure: Option<Code>)
      modifies this`requests
      ensures Follows(RequestReschedule(old(Value()), requestId, expected), old(Value()), failure)
      ensures Keeps(old(Value()))
    {
      hide KeepsActivity;
      TransactionKeeps(Value(), RequestCmd(requestId, expected));
      if CurrentIndex(Value()).None? {
        return Some(InvalidInput);
      }
      if current != Some(expected) {
        return Some(ActivityAppointmentChanged);
      }
      if requestId in requests {
        return Some(ConstraintViolation);
      }
      requests := requests[requestId := RescheduleRequest(expected, None)];
      return None;
    }
  }
}
