/**
  One activity of an application with its appointments, attempts, results and
  reschedule requests, and one transition per transaction of
  packages/database/src/activities.ts.

  Rows are kept in the order they were inserted. Policy readiness and the check
  of the executor are arguments: they read tables that are not modelled.
*/
module Activities {
  import opened Wrappers

  type Id = int
  type Instant = int

  datatype OutcomeKind = Realizada | NoCompletada | Inasistencia
  datatype ResultValue = Favorable | NoFavorable | Inconcluso

  datatype AppointmentStatus = Programada | Reprogramada | Held(outcome: OutcomeKind)
  datatype Appointment = Appointment(
    id: Id, sequence: int, previous: Option<Id>, assignedUser: Id, scheduledStartAt: Instant, status: AppointmentStatus)

  datatype Attempt = Attempt(
    id: Id, sequence: int, previous: Option<Id>, appointmentId: Id, outcome: OutcomeKind, occurredAt: Instant,
    noShowJustified: Option<bool>)

  datatype RescheduleRequest = RescheduleRequest(appointmentId: Id, fulfilledBy: Option<Id>)

  datatype ActivityStatus = Pendiente | Scheduled | Recorded(outcome: OutcomeKind) | Cerrada

  datatype Activity = Activity(
    maxNormalReschedules: int, lateToleranceMinutes: int, diagnosticEvaluation: bool,
    status: ActivityStatus, current: Option<Id>, appointments: seq<Appointment>, attempts: seq<Attempt>,
    results: map<Id, ResultValue>, requests: map<Id, RescheduleRequest>)

  datatype Code =
    | InvalidInput
    | NotFound
    | ConstraintViolation
    | PolicyNotReady
    | ExecutorDenied
    | ActivityClosed
    | ActivityAlreadyScheduled
    | ActivityAppointmentChanged
    | NormalRescheduleLimit
    | NoShowTooEarly
    | OnlyDiagnosticRepeats
    | OnlyNotCompletedRepeats
    | CurrentNotResolved
    | NeedsTwoNoShows

  datatype Outcome = Commit(activity: Activity) | Abort(code: Code) {
    function After(before: Activity): Activity {
      if Commit? then activity else before
    }
  }

  // ---- Reading the rows ----------------------------------------------------------------

  /** Where an appointment stands, or the number of appointments if there is none of that id. */
  function Position(appointments: seq<Appointment>, id: Id): (p: nat)
    ensures p <= |appointments|
    ensures p < |appointments| ==> appointments[p].id == id
    ensures forall i :: 0 <= i < p ==> appointments[i].id != id
  {
    if appointments == [] || appointments[0].id == id then 0 else 1 + Position(appointments[1..], id)
  }

  /** The index of the current appointment. */
  function CurrentIndex(a: Activity): (p: Option<nat>)
    ensures p.Some? ==> p.value < |a.appointments| && a.current == Some(a.appointments[p.value].id)
  {
    if a.current.Some? && Position(a.appointments, a.current.value) < |a.appointments|
    then Some(Position(a.appointments, a.current.value))
    else None
  }

  /** The number of appointments marked REPROGRAMADA. */
  function Reschedules(appointments: seq<Appointment>): nat {
    if appointments == [] then 0
    else Reschedules(appointments[..|appointments| - 1]) + (if appointments[|appointments| - 1].status == Reprogramada then 1 else 0)
  }

  predicate UnjustifiedNoShow(x: Attempt) {
    x.outcome == Inasistencia && x.noShowJustified == Some(false)
  }

  function UnjustifiedNoShows(attempts: seq<Attempt>): nat {
    if attempts == [] then 0
    else UnjustifiedNoShows(attempts[..|attempts| - 1]) + (if UnjustifiedNoShow(attempts[|attempts| - 1]) then 1 else 0)
  }

  /** The first attempt in descending order of sequence. */
  function LatestAttempt(attempts: seq<Attempt>): Option<Attempt> {
    if attempts == [] then None
    else
      var last, rest := attempts[|attempts| - 1], LatestAttempt(attempts[..|attempts| - 1]);
      if rest.Some? && rest.value.sequence > last.sequence then rest else Some(last)
  }

  /** Reschedules made and still allowed, as the family sees them. */
  function RescheduleCounts(a: Activity): (int, int) {
    var made := Reschedules(a.appointments);
    (made, if a.maxNormalReschedules > made then a.maxNormalReschedules - made else 0)
  }

  // ---- Transitions -----------------------------------------------------------------------

  datatype ScheduleInput = ScheduleInput(
    newId: Id, assignedUser: Id, start: Instant, expected: Option<Id>, requestId: Option<Id>)

  /** The keys of the appointment table: the id, and the sequence within the activity. */
  predicate Insertable(appointments: seq<Appointment>, id: Id, sequence: int) {
    forall i :: 0 <= i < |appointments| ==> appointments[i].id != id && appointments[i].sequence != sequence
  }

  /** A new appointment that becomes the current one. */
  function Appoint(a: Activity, appointment: Appointment): Activity {
    a.(appointments := a.appointments + [appointment], current := Some(appointment.id), status := Scheduled)
  }

  function MarkReprogrammed(a: Activity, p: nat): Activity
    requires p < |a.appointments|
  {
    a.(appointments := a.appointments[p := a.appointments[p].(status := Reprogramada)])
  }

  predicate PendingFor(a: Activity, requestId: Id, appointmentId: Id) {
    requestId in a.requests && a.requests[requestId] == RescheduleRequest(appointmentId, None)
  }

  function Fulfill(a: Activity, requestId: Option<Id>, newId: Id): Activity {
    if requestId.Some? && requestId.value in a.requests
    then a.(requests := a.requests[requestId.value := a.requests[requestId.value].(fulfilledBy := Some(newId))])
    else a
  }

  function Schedule(a: Activity, ready: bool, input: ScheduleInput): Outcome {
    if !ready then Abort(PolicyNotReady)
    else if a.status == Cerrada then Abort(ActivityClosed)
    else if CurrentIndex(a).Some? then Abort(ActivityAlreadyScheduled)
    else if !Insertable(a.appointments, input.newId, 1) then Abort(ConstraintViolation)
    else Commit(Appoint(a, Appointment(input.newId, 1, None, input.assignedUser, input.start, Programada)))
  }

  function Reprogram(a: Activity, ready: bool, input: ScheduleInput): Outcome {
    if input.expected.None? then Abort(InvalidInput)
    else if !ready then Abort(PolicyNotReady)
    else if a.status == Cerrada then Abort(ActivityClosed)
    else if CurrentIndex(a).None? || a.current != input.expected then Abort(ActivityAppointmentChanged)
    else if Reschedules(a.appointments) >= a.maxNormalReschedules then Abort(NormalRescheduleLimit)
    else
      var p := CurrentIndex(a).value;
      var leaving := a.appointments[p];
      var next := Appointment(input.newId, leaving.sequence + 1, Some(leaving.id), input.assignedUser, input.start, Programada);
      if !Insertable(a.appointments, next.id, next.sequence) then Abort(ConstraintViolation)
      else if input.requestId.Some? && !PendingFor(a, input.requestId.value, leaving.id) then Abort(NotFound)
      else Commit(Fulfill(Appoint(MarkReprogrammed(a, p), next), input.requestId, next.id))
  }

  datatype OutcomeInput = OutcomeInput(
    newId: Id, expected: Id, actor: Id, executorAllowed: bool, outcome: OutcomeKind, noShowJustified: Option<bool>,
    result: Option<ResultValue>, occurredAt: Instant)

  predicate OutcomeInputValid(input: OutcomeInput) {
    match input.outcome
    case Realizada => input.noShowJustified.None? && input.result.Some?
    case NoCompletada => input.noShowJustified.None? && input.result == Some(Inconcluso)
    case Inasistencia => input.result.None?
  }

  function AttemptOf(a: Activity, appointmentId: Id, input: OutcomeInput): Attempt {
    var latest := LatestAttempt(a.attempts);
    var justified := if input.noShowJustified.Some? then input.noShowJustified.value else false;
    Attempt(input.newId, if latest.Some? then latest.value.sequence + 1 else 1,
            if latest.Some? then Some(latest.value.id) else None, appointmentId, input.outcome, input.occurredAt,
            if input.outcome == Inasistencia then Some(justified) else None)
  }

  function RecordOutcome(a: Activity, input: OutcomeInput): Outcome {
    if !OutcomeInputValid(input) then Abort(InvalidInput)
    else if a.status == Cerrada then Abort(ActivityClosed)
    else if CurrentIndex(a).None? || a.current != Some(input.expected)
            || a.appointments[CurrentIndex(a).value].status != Programada
            || a.appointments[CurrentIndex(a).value].assignedUser != input.actor then Abort(ActivityAppointmentChanged)
    else if !input.executorAllowed then Abort(ExecutorDenied)
    else
      var p := CurrentIndex(a).value;
      var appointment := a.appointments[p];
      if input.outcome == Inasistencia && input.occurredAt < appointment.scheduledStartAt + a.lateToleranceMinutes * 60_000 then
        Abort(NoShowTooEarly)
      else
        var attempt := AttemptOf(a, appointment.id, input);
        if exists j :: 0 <= j < |a.attempts| && (a.attempts[j].id == attempt.id || a.attempts[j].sequence == attempt.sequence) then
          Abort(ConstraintViolation)
        else
          Commit(a.(attempts := a.attempts + [attempt],
                 appointments := a.appointments[p := appointment.(status := Held(input.outcome))],
                 results := if input.result.Some? then a.results[attempt.id := input.result.value] else a.results,
                 status := Recorded(input.outcome)))
  }

  function Repeat(a: Activity, ready: bool, input: ScheduleInput): Outcome {
    if !ready then Abort(PolicyNotReady)
    else if a.status == Cerrada then Abort(ActivityClosed)
    else if !a.diagnosticEvaluation then Abort(OnlyDiagnosticRepeats)
    else if LatestAttempt(a.attempts).None? || LatestAttempt(a.attempts).value.outcome != NoCompletada then
      Abort(OnlyNotCompletedRepeats)
    else if CurrentIndex(a).None? || a.current != input.expected then Abort(ActivityAppointmentChanged)
    else
      var leaving := a.appointments[CurrentIndex(a).value];
      var next := Appointment(input.newId, leaving.sequence + 1, Some(leaving.id), input.assignedUser, input.start, Programada);
      if !Insertable(a.appointments, next.id, next.sequence) then Abort(ConstraintViolation)
      else Commit(Appoint(a, next))
  }

  function CloseAfterNoShows(a: Activity): Outcome {
    if CurrentIndex(a).Some? && a.appointments[CurrentIndex(a).value].status == Programada then Abort(CurrentNotResolved)
    else if UnjustifiedNoShows(a.attempts) < 2 then Abort(NeedsTwoNoShows)
    else Commit(a.(status := Cerrada))
  }

  function RequestReschedule(a: Activity, requestId: Id, expected: Id): Outcome {
    if CurrentIndex(a).None? then Abort(InvalidInput)
    else if a.current != Some(expected) then Abort(ActivityAppointmentChanged)
    else if requestId in a.requests then Abort(ConstraintViolation)
    else Commit(a.(requests := a.requests[requestId := RescheduleRequest(expected, None)]))
  }

  // ---- Runs --------------------------------------------------------------------------------

  datatype Command =
    | ScheduleCmd(ready: bool, input: ScheduleInput)
    | ReprogramCmd(ready: bool, input: ScheduleInput)
    | RecordCmd(outcome: OutcomeInput)
    | RepeatCmd(ready: bool, input: ScheduleInput)
    | CloseCmd
    | RequestCmd(requestId: Id, expected: Id)

  function Execute(a: Activity, c: Command): Outcome {
    match c
    case ScheduleCmd(ready, input) => Schedule(a, ready, input)
    case ReprogramCmd(ready, input) => Reprogram(a, ready, input)
    case RecordCmd(input) => RecordOutcome(a, input)
    case RepeatCmd(ready, input) => Repeat(a, ready, input)
    case CloseCmd => CloseAfterNoShows(a)
    case RequestCmd(requestId, expected) => RequestReschedule(a, requestId, expected)
  }

  function Step(a: Activity, c: Command): Activity {
    Execute(a, c).After(a)
  }

  /** The activity after a run of transactions, some of which may abort. */
  function Run(a: Activity, commands: seq<Command>): Activity {
    if commands == [] then a else Step(Run(a, commands[..|commands| - 1]), commands[|commands| - 1])
  }

  /** An activity as the submission of the application pins it; the schema keeps the limit at 0 or more. */
  predicate Pinned(a: Activity) {
    && a.maxNormalReschedules >= 0
    && a.status == Pendiente && a.current == None
    && a.appointments == [] && a.attempts == [] && a.results == map[] && a.requests == map[]
  }
}
