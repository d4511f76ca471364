/**
  What holds of an activity over whole runs: the chain and the reschedule counts,
  what a closure needs, and where an appointment can be left PROGRAMADA behind.
*/
module ActivityTheorems {
  import opened Wrappers
  import opened Activities
  import opened ActivityChain

  // ---- Steps of a run ------------------------------------------------------------------

  function StateAt(a: Activity, commands: seq<Command>, k: nat): Activity
    requires k <= |commands|
  {
    Run(a, commands[..k])
  }

  lemma StateAfter(a: Activity, commands: seq<Command>, k: nat)
    requires k < |commands|
    ensures StateAt(a, commands, k + 1) == Step(StateAt(a, commands, k), commands[k])
  {
    assert commands[..k + 1][..k] == commands[..k];
  }

  lemma StateOfPrefix(a: Activity, commands: seq<Command>, n: nat, k: nat)
    requires k <= n <= |commands|
    ensures StateAt(a, commands[..n], k) == StateAt(a, commands, k)
  {
    assert commands[..n][..k] == commands[..k];
  }

  lemma StateIsValid(a: Activity, commands: seq<Command>, k: nat)
    requires Pinned(a) && k <= |commands|
    ensures Valid(StateAt(a, commands, k))
  {
    PinnedIsValid(a);
    RunKeepsValid(a, commands[..k]);
  }

  // ---- Chain and counts ----------------------------------------------------------------------

  /**
    In every reachable activity the appointments are numbered 1..n along the links
    to their predecessors, the current one is the last and not REPROGRAMADA, and no
    appointment has two attempts.
  */
  lemma AppointmentsFormAChain(pinned: Activity, commands: seq<Command>)
    requires Pinned(pinned)
    ensures var a := Run(pinned, commands);
            && ChainedAppointments(a.appointments) && ChainedAttempts(a.attempts)
            && CurrentIndex(a) == (if a.appointments == [] then None else Some(|a.appointments| - 1))
            && (a.appointments != [] ==> a.appointments[|a.appointments| - 1].status != Reprogramada)
            && (forall j, k :: 0 <= j < k < |a.attempts| ==> a.attempts[j].appointmentId != a.attempts[k].appointmentId)
  {
    PinnedIsValid(pinned);
    RunKeepsValid(pinned, commands);
    var a := Run(pinned, commands);
    CurrentOfValid(a);
    forall j, k | 0 <= j < k < |a.attempts| ensures a.attempts[j].appointmentId != a.attempts[k].appointmentId {
      assert OnEarlierAppointment(a, j, k);
    }
  }

  lemma StepKeepsLimit(a: Activity, c: Command)
    ensures Step(a, c).maxNormalReschedules == a.maxNormalReschedules
  {
  }

  lemma {:induction false} RunKeepsLimit(a: Activity, commands: seq<Command>)
    ensures Run(a, commands).maxNormalReschedules == a.maxNormalReschedules
    decreases commands
  {
    if commands != [] {
      RunKeepsLimit(a, commands[..|commands| - 1]);
      StepKeepsLimit(Run(a, commands[..|commands| - 1]), commands[|commands| - 1]);
    }
  }

  /** Reschedules made and remaining always add up to the pinned maximum. */
  lemma ReschedulesAddUp(pinned: Activity, commands: seq<Command>)
    requires Pinned(pinned)
    ensures var counts := RescheduleCounts(Run(pinned, commands));
            counts.0 >= 0 && counts.1 >= 0 && counts.0 + counts.1 == pinned.maxNormalReschedules
  {
    PinnedIsValid(pinned);
    RunKeepsValid(pinned, commands);
    RunKeepsLimit(pinned, commands);
    hide Run;
  }

  // ---- No-shows need reschedules --------------------------------------------------------------

  function NoShows(attempts: seq<Attempt>): nat {
    if attempts == [] then 0
    else NoShows(attempts[..|attempts| - 1]) + (if attempts[|attempts| - 1].outcome == Inasistencia then 1 else 0)
  }

  lemma AllNoShowsOfAppend(s: seq<Attempt>, x: Attempt)
    ensures NoShows(s + [x]) == NoShows(s) + (if x.outcome == Inasistencia then 1 else 0)
  {
    assert (s + [x])[..|s|] == s;
  }

  lemma {:induction false} UnjustifiedAreNoShows(s: seq<Attempt>)
    ensures UnjustifiedNoShows(s) <= NoShows(s)
  {
    if s != [] {
      UnjustifiedAreNoShows(s[..|s| - 1]);
    }
  }

  /** Every no-show but one on the last appointment was followed by a reschedule. */
  predicate NoShowsRescheduled(a: Activity) {
    var n := |a.appointments|;
    NoShows(a.attempts) <= Reschedules(a.appointments) + (if n > 0 && a.appointments[n - 1].status == Held(Inasistencia) then 1 else 0)
  }

  /** A new appointment adds no no-show; without a mark it follows no no-show. */
  lemma ExtendedKeepsNoShowsRescheduled(a: Activity, mark: bool, next: Appointment)
    requires NoShowsRescheduled(a) && next.status == Programada && (mark ==> |a.appointments| > 0)
    requires |a.appointments| > 0 ==> a.appointments[|a.appointments| - 1].status != Reprogramada
    requires !mark && |a.appointments| > 0 ==> a.appointments[|a.appointments| - 1].status != Held(Inasistencia)
    ensures NoShowsRescheduled(Extended(a, mark, next))
  {
    hide Reschedules, NoShows;
    var marked := if mark then MarkReprogrammed(a, |a.appointments| - 1) else a;
    if mark {
      ReschedulesOfMark(a.appointments, Reprogramada);
    }
    ReschedulesOfAppend(marked.appointments, next);
  }

  lemma RecordKeepsNoShowsRescheduled(a: Activity, input: OutcomeInput)
    requires Records(a, input) && NoShowsRescheduled(a)
    ensures NoShowsRescheduled(RecordOutcome(a, input).activity)
  {
    hide Reschedules, NoShows, RecordOutcome, Valid;
    RecordedRows(a, input);
    var b := RecordOutcome(a, input).activity;
    ReschedulesOfMark(a.appointments, Held(input.outcome));
    AllNoShowsOfAppend(a.attempts, b.attempts[|a.attempts|]);
  }

  /** What a committed appointing transaction adds. */
  lemma AppointingExtends(a: Activity, c: Command) returns (next: Appointment)
    requires Valid(a) && Execute(a, c).Commit? && (c.ScheduleCmd? || c.ReprogramCmd? || c.RepeatCmd?)
    ensures next.status == Programada && (c.ReprogramCmd? ==> |a.appointments| > 0)
    ensures Step(a, c).appointments == Extended(a, c.ReprogramCmd?, next).appointments && Step(a, c).attempts == a.attempts
    ensures |a.appointments| > 0 ==>
              && a.appointments[|a.appointments| - 1].status != Reprogramada
              && (!c.ReprogramCmd? ==> a.appointments[|a.appointments| - 1].status != Held(Inasistencia))
  {
    hide PlacedAttempts, ResultsMatch, Reschedules, LinkedAppointment, ChainedAttempts, UnjustifiedNoShows, LatestAttempt, Insertable,
    LastOutcomeIsLastAttempt, ClosedForCause;
    CurrentOfValid(a);
    next := Step(a, c).appointments[|a.appointments|];
    if c.RepeatCmd? && |a.appointments| > 0 {
      NoRepeatAfterNoShow(a);
    }
  }

  lemma StepKeepsNoShowsRescheduled(a: Activity, c: Command)
    requires Valid(a) && NoShowsRescheduled(a)
    ensures NoShowsRescheduled(Step(a, c))
  {
    hide Valid, Schedule, Reprogram, RecordOutcome, Repeat, Reschedules, NoShows;
    if Execute(a, c).Commit? {
      match c
      case RecordCmd(input) => RecordKeepsNoShowsRescheduled(a, input);
      case CloseCmd =>
      case RequestCmd(_, _) =>
      case _ =>
        var next := AppointingExtends(a, c);
        ExtendedKeepsNoShowsRescheduled(a, c.ReprogramCmd?, next);
    }
  }

  lemma {:induction false} RunKeepsNoShowsRescheduled(pinned: Activity, commands: seq<Command>)
    requires Pinned(pinned)
    ensures NoShowsRescheduled(Run(pinned, commands))
    decreases commands
  {
    if commands != [] {
      var before := commands[..|commands| - 1];
      RunKeepsNoShowsRescheduled(pinned, before);
      PinnedIsValid(pinned);
      RunKeepsValid(pinned, before);
      StepKeepsNoShowsRescheduled(Run(pinned, before), commands[|commands| - 1]);
    }
  }

  /** A limit of m reschedules leaves room for at most m + 1 no-shows, justified or not. */
  lemma NoShowsAreBounded(pinned: Activity, commands: seq<Command>)
    requires Pinned(pinned)
    ensures UnjustifiedNoShows(Run(pinned, commands).attempts) <= NoShows(Run(pinned, commands).attempts) <= pinned.maxNormalReschedules + 1
  {
    PinnedIsValid(pinned);
    RunKeepsValid(pinned, commands);
    RunKeepsNoShowsRescheduled(pinned, commands);
    RunKeepsLimit(pinned, commands);
    hide Run;
    UnjustifiedAreNoShows(Run(pinned, commands).attempts);
  }

  /** An activity that allows no reschedule can never be closed. */
  lemma WithoutReschedulesNeverClosed(pinned: Activity, commands: seq<Command>)
    requires Pinned(pinned) && pinned.maxNormalReschedules == 0
    ensures Run(pinned, commands).status != Cerrada
  {
    PinnedIsValid(pinned);
    RunKeepsValid(pinned, commands);
    NoShowsAreBounded(pinned, commands);
  }

  // ---- Closure ----------------------------------------------------------------------------------

  /** Once CERRADA nothing moves any more; only reschedule requests may still arrive. */
  lemma {:induction false} ClosedStaysClosed(a: Activity, commands: seq<Command>)
    requires a.status == Cerrada
    ensures Run(a, commands) == a.(requests := Run(a, commands).requests)
    decreases commands
  {
    if commands != [] {
      ClosedStaysClosed(a, commands[..|commands| - 1]);
    }
  }

  lemma {:induction false} TwoUnjustified(s: seq<Attempt>) returns (i: nat, j: nat)
    requires UnjustifiedNoShows(s) >= 2
    ensures i < j < |s| && UnjustifiedNoShow(s[i]) && UnjustifiedNoShow(s[j])
  {
    j := |s| - 1;
    if UnjustifiedNoShow(s[j]) {
      i := OneUnjustified(s[..j]);
    } else {
      i, j := TwoUnjustified(s[..j]);
    }
  }

  lemma {:induction false} OneUnjustified(s: seq<Attempt>) returns (i: nat)
    requires UnjustifiedNoShows(s) >= 1
    ensures i < |s| && UnjustifiedNoShow(s[i])
  {
    i := |s| - 1;
    if !UnjustifiedNoShow(s[i]) {
      i := OneUnjustified(s[..i]);
    }
  }

  /** Command `k` records attempt number `m`. */
  ghost predicate RecordsAttempt(a: Activity, commands: seq<Command>, k: nat, m: nat, x: Attempt) {
    && k < |commands|
    && commands[k].RecordCmd?
    && Records(StateAt(a, commands, k), commands[k].outcome)
    && |StateAt(a, commands, k).attempts| == m
    && StateAt(a, commands, k + 1).attempts == StateAt(a, commands, k).attempts + [x]
  }

  lemma StepAttempts(a: Activity, c: Command)
    requires Valid(a)
    ensures Step(a, c).attempts == a.attempts ||
            (c.RecordCmd? && Records(a, c.outcome)
             && Step(a, c).attempts == a.attempts + [Step(a, c).attempts[|a.attempts|]])
  {
    hide PlacedAttempts, ResultsMatch, Reschedules, LinkedAppointment, ChainedAppointments, ChainedAttempts;
  }

  lemma {:induction false} AttemptWasRecorded(a: Activity, commands: seq<Command>, m: nat) returns (k: nat)
    requires Pinned(a) && m < |Run(a, commands).attempts|
    ensures RecordsAttempt(a, commands, k, m, Run(a, commands).attempts[m])
    ensures StateAt(a, commands, k).attempts == Run(a, commands).attempts[..m]
    decreases commands
  {
    var n := |commands| - 1;
    var before := commands[..n];
    hide Step;
    StateIsValid(a, commands, n);
    StepAttempts(Run(a, before), commands[n]);
    StateAfter(a, commands, n);
    assert commands[..n + 1] == commands;
    if m < |Run(a, before).attempts| {
      k := AttemptWasRecorded(a, before, m);
      StateOfPrefix(a, commands, n, k);
      StateOfPrefix(a, commands, n, k + 1);
    } else {
      k := n;
    }
  }

  function StatusOf(a: Activity, id: Id): Option<AppointmentStatus> {
    var p := Position(a.appointments, id);
    if p < |a.appointments| then Some(a.appointments[p].status) else None
  }

  /** A committed transaction leaves every appointment but the last as it is; only a reprogram marks that one. */
  lemma StepAppointments(a: Activity, c: Command)
    requires Valid(a)
    ensures var n, t := |a.appointments|, Step(a, c).appointments;
            && n <= |t| <= n + 1
            && (forall i :: 0 <= i < n ==> t[i].id == a.appointments[i].id)
            && (forall i :: 0 <= i < n - 1 ==> t[i] == a.appointments[i])
            && (n > 0 && t[n - 1].status == Reprogramada && a.appointments[n - 1].status != Reprogramada ==>
                c.ReprogramCmd? && Execute(a, c).Commit? && a.current == Some(a.appointments[n - 1].id))
  {
    hide PlacedAttempts, ResultsMatch, Reschedules, LinkedAppointment, ChainedAttempts, UnjustifiedNoShows, LatestAttempt, Insertable;
    hide LastOutcomeIsLastAttempt, ClosedForCause, WithinLimit;
    CurrentOfValid(a);
  }

  /** Only a reprogram of the current appointment turns one REPROGRAMADA, and appointments do not vanish. */
  lemma StepStatus(a: Activity, c: Command, id: Id)
    requires Valid(a) && StatusOf(a, id).Some?
    ensures StatusOf(Step(a, c), id).Some?
    ensures StatusOf(a, id) != Some(Reprogramada) && StatusOf(Step(a, c), id) == Some(Reprogramada) ==>
              c.ReprogramCmd? && Execute(a, c).Commit? && a.current == Some(id)
  {
    hide Valid, Step, Execute;
    StepAppointments(a, c);
    PositionStays(a.appointments, Step(a, c).appointments, id);
  }

  /** Command `j` commits a reprogram of the appointment `id`. */
  predicate ReprogramAt(a: Activity, commands: seq<Command>, j: nat, id: Id) {
    && j < |commands|
    && commands[j].ReprogramCmd?
    && Execute(StateAt(a, commands, j), commands[j]).Commit?
    && StateAt(a, commands, j).current == Some(id)
  }

  lemma {:induction false} TurnedBetween(a: Activity, commands: seq<Command>, lo: nat, hi: nat, id: Id) returns (j: nat)
    requires Pinned(a) && lo <= hi <= |commands|
    requires StatusOf(StateAt(a, commands, lo), id).Some? && StatusOf(StateAt(a, commands, lo), id) != Some(Reprogramada)
    requires StatusOf(StateAt(a, commands, hi), id) == Some(Reprogramada)
    ensures lo <= j < hi && ReprogramAt(a, commands, j, id)
    decreases hi
  {
    hide Step, Execute, StatusOf, Run;
    assert lo < hi;
    StatusPersists(a, commands, lo, hi - 1, id);
    if StatusOf(StateAt(a, commands, hi - 1), id) == Some(Reprogramada) {
      j := TurnedBetween(a, commands, lo, hi - 1, id);
    } else {
      j := hi - 1;
      StateAfter(a, commands, j);
      StateIsValid(a, commands, j);
      StepStatus(StateAt(a, commands, j), commands[j], id);
    }
  }

  lemma {:induction false} StatusPersists(a: Activity, commands: seq<Command>, lo: nat, hi: nat, id: Id)
    requires Pinned(a) && lo <= hi <= |commands| && StatusOf(StateAt(a, commands, lo), id).Some?
    ensures StatusOf(StateAt(a, commands, hi), id).Some?
    decreases hi
  {
    hide Step, StatusOf, Run;
    if lo < hi {
      StatusPersists(a, commands, lo, hi - 1, id);
      StateAfter(a, commands, hi - 1);
      StateIsValid(a, commands, hi - 1);
      StepStatus(StateAt(a, commands, hi - 1), commands[hi - 1], id);
    }
  }

  /** Command `i` commits an unjustified no-show on the appointment `id`. */
  predicate NoShowAt(a: Activity, commands: seq<Command>, i: nat, id: Id) {
    && i < |commands|
    && commands[i].RecordCmd?
    && commands[i].outcome.outcome == Inasistencia
    && commands[i].outcome.noShowJustified != Some(true)
    && Execute(StateAt(a, commands, i), commands[i]).Commit?
    && StateAt(a, commands, i).current == Some(id)
  }

  lemma RecordedNoShow(a: Activity, commands: seq<Command>, k: nat, m: nat, x: Attempt)
    requires Pinned(a) && RecordsAttempt(a, commands, k, m, x) && UnjustifiedNoShow(x)
    ensures NoShowAt(a, commands, k, x.appointmentId)
    ensures StatusOf(StateAt(a, commands, k + 1), x.appointmentId) == Some(Held(Inasistencia))
  {
    hide Run, Reschedules, UnjustifiedNoShows, LatestAttempt, PlacedAttempts, ResultsMatch, LinkedAppointment, LinkedAttempt;
    var s := StateAt(a, commands, k);
    StateAfter(a, commands, k);
    RecordedRows(s, commands[k].outcome);
    hide RecordOutcome;
    assert StateAt(a, commands, k + 1).attempts[m] == x;
    PositionInChain(s.appointments, |s.appointments| - 1);
    PositionStays(s.appointments, StateAt(a, commands, k + 1).appointments, x.appointmentId);
  }

  /** When a later attempt is recorded, the appointment of an earlier no-show is REPROGRAMADA by then. */
  lemma EarlierNoShowIsReprogrammed(a: Activity, input: OutcomeInput, j: nat)
    requires Records(a, input) && j < |a.attempts| && a.attempts[j].outcome == Inasistencia
    ensures StatusOf(a, a.attempts[j].appointmentId) == Some(Reprogramada)
    ensures a.current != Some(a.attempts[j].appointmentId)
  {
    hide ResultsMatch, ChainedAttempts, WithinLimit, ClosedForCause, LastOutcomeIsLastAttempt;
    RecordedRows(a, input);
    hide RecordOutcome;
    assert Stands(a, j);
    PositionInChain(a.appointments, |a.appointments| - 1);
  }

  /** The three commands a closure rests on: a no-show, the reprogram of its appointment, a second no-show. */
  ghost predicate NoShowReprogramNoShow(a: Activity, commands: seq<Command>) {
    exists i: nat, j: nat, k: nat, first: Id, second: Id ::
      && i < j < k
      && NoShowAt(a, commands, i, first)
      && ReprogramAt(a, commands, j, first)
      && NoShowAt(a, commands, k, second)
      && first != second
  }

  /**
    Every run that reaches CERRADA contains two unjustified no-shows on different
    appointments with a successful reprogram of the first one between them.
  */
  lemma ClosureNeedsTwoNoShows(pinned: Activity, commands: seq<Command>)
    requires Pinned(pinned) && Run(pinned, commands).status == Cerrada
    ensures NoShowReprogramNoShow(pinned, commands)
  {
    PinnedIsValid(pinned);
    RunKeepsValid(pinned, commands);
    var attempts := Run(pinned, commands).attempts;
    assert UnjustifiedNoShows(attempts) >= 2;
    hide Run, Valid, Pinned, StatusOf, NoShowAt, ReprogramAt, RecordsAttempt, Records, UnjustifiedNoShows;
    var m1, m2 := TwoUnjustified(attempts);
    var k := AttemptWasRecorded(pinned, commands, m2);
    RecordedParts(pinned, commands, k, m2, attempts[m2]);
    var before, s := commands[..k], StateAt(pinned, commands, k);
    assert s == Run(pinned, before) && s.attempts[m1] == attempts[m1];
    EarlierNoShowIsReprogrammed(s, commands[k].outcome, m1);
    var i := AttemptWasRecorded(pinned, before, m1);
    RecordedParts(pinned, before, i, m1, attempts[m1]);
    RecordedNoShow(pinned, before, i, m1, attempts[m1]);
    RecordedNoShow(pinned, commands, k, m2, attempts[m2]);
    var first, second := attempts[m1].appointmentId, attempts[m2].appointmentId;
    StateOfPrefix(pinned, commands, k, i + 1);
    var j := TurnedBetween(pinned, commands, i + 1, k, first);
    NoShowOfPrefix(pinned, commands, k, i, first);
    NoShowNames(pinned, commands, k, second);
  }

  lemma RecordedParts(a: Activity, commands: seq<Command>, k: nat, m: nat, x: Attempt)
    requires RecordsAttempt(a, commands, k, m, x)
    ensures k < |commands| && commands[k].RecordCmd? && Records(StateAt(a, commands, k), commands[k].outcome)
  {
  }

  lemma NoShowOfPrefix(a: Activity, commands: seq<Command>, n: nat, i: nat, id: Id)
    requires n <= |commands| && NoShowAt(a, commands[..n], i, id)
    ensures NoShowAt(a, commands, i, id)
  {
    StateOfPrefix(a, commands, n, i);
  }

  lemma NoShowNames(a: Activity, commands: seq<Command>, k: nat, id: Id)
    requires NoShowAt(a, commands, k, id)
    ensures k < |commands| && StateAt(a, commands, k).current == Some(id)
  {
  }

  // ---- Appointments left PROGRAMADA behind -------------------------------------------------------------

  predicate OnlyCurrentProgrammed(a: Activity) {
    forall i :: 0 <= i < |a.appointments| - 1 ==> a.appointments[i].status != Programada
  }

  /** A repeat that commits while the current appointment still waits for its outcome. */
  predicate Strands(a: Activity, c: Command) {
    && c.RepeatCmd?
    && Execute(a, c).Commit?
    && CurrentIndex(a).Some?
    && a.appointments[CurrentIndex(a).value].status == Programada
  }

  lemma StepStrandsOrKeeps(a: Activity, c: Command)
    requires Valid(a)
    ensures OnlyCurrentProgrammed(Step(a, c)) <==> OnlyCurrentProgrammed(a) && !Strands(a, c)
  {
    hide PlacedAttempts, ResultsMatch, Reschedules, LinkedAppointment, ChainedAttempts, UnjustifiedNoShows, LatestAttempt, Insertable;
    CurrentOfValid(a);
    var s, t, n := a.appointments, Step(a, c).appointments, |a.appointments|;
    assert n <= |t| <= n + 1;
    assert forall i :: 0 <= i < n - 1 ==> t[i] == s[i];
    if |t| == n + 1 && n > 0 {
      assert t[n - 1].status == Programada <==> Strands(a, c);
    } else {
      assert !Strands(a, c);
    }
  }

  predicate NeverStrands(pinned: Activity, commands: seq<Command>) {
    forall k :: 0 <= k < |commands| ==> !Strands(StateAt(pinned, commands, k), commands[k])
  }

  lemma NeverStrandsUnfolds(pinned: Activity, before: seq<Command>, last: Command)
    ensures NeverStrands(pinned, before + [last]) <==> NeverStrands(pinned, before) && !Strands(Run(pinned, before), last)
  {
    var commands, n := before + [last], |before|;
    hide Strands, Run;
    assert commands[..n] == before;
    assert StateAt(pinned, commands, n) == Run(pinned, before);
    forall k | 0 <= k < n ensures StateAt(pinned, before, k) == StateAt(pinned, commands, k) && before[k] == commands[k] {
      StateOfPrefix(pinned, commands, n, k);
    }
    hide StateAt;
  }

  /**
    Only the current appointment is PROGRAMADA exactly in those runs where no
    repeat was started over a current appointment that was itself still PROGRAMADA.
  */
  lemma {:induction false} StrandedOnlyByRepeats(pinned: Activity, commands: seq<Command>)
    requires Pinned(pinned)
    ensures OnlyCurrentProgrammed(Run(pinned, commands)) <==>
            forall k :: 0 <= k < |commands| ==> !Strands(StateAt(pinned, commands, k), commands[k])
    decreases commands
  {
    hide Step, Strands, OnlyCurrentProgrammed, Valid, StateAt;
    if commands == [] {
      NothingStranded(pinned);
    } else {
      var before, last := commands[..|commands| - 1], commands[|commands| - 1];
      StrandedOnlyByRepeats(pinned, before);
      PinnedIsValid(pinned);
      RunKeepsValid(pinned, before);
      StepStrandsOrKeeps(Run(pinned, before), last);
      assert commands == before + [last];
      NeverStrandsUnfolds(pinned, before, last);
    }
  }

  lemma NothingStranded(pinned: Activity)
    requires Pinned(pinned)
    ensures OnlyCurrentProgrammed(pinned)
  {
  }

  function DiagnosticExample(): Activity {
    Activity(1, 15, true, Pendiente, None, [], [], map[], map[])
  }

  function Slot(newId: Id, expected: Option<Id>): ScheduleInput {
    ScheduleInput(newId, 7, 0, expected, None)
  }

  function TwoRepeats(): seq<Command> {
    [ ScheduleCmd(true, Slot(1, None)),
      RecordCmd(OutcomeInput(1, 1, 7, true, NoCompletada, None, Some(Inconcluso), 0)),
      RepeatCmd(true, Slot(2, Some(1))),
      RepeatCmd(true, Slot(3, Some(2)))]
  }

  lemma RunOfFour(a: Activity, w: Command, x: Command, y: Command, z: Command)
    ensures Run(a, [w, x, y, z]) == Step(Step(Step(Step(a, w), x), y), z)
  {
    hide Step;
    assert [w, x, y, z][..3] == [w, x, y] && [w, x, y][..2] == [w, x] && [w, x][..1] == [w] && [w][..0] == [];
    assert Run(a, [w]) == Step(a, w);
    assert Run(a, [w, x]) == Step(Step(a, w), x);
    assert Run(a, [w, x, y]) == Step(Step(Step(a, w), x), y);
  }

  /** The example after its first appointment ended without completion. */
  function NotCompletedExample(): Activity {
    Activity(1, 15, true, Recorded(NoCompletada), Some(1), [Appointment(1, 1, None, 7, 0, Held(NoCompletada))],
             [Attempt(1, 1, None, 1, NoCompletada, 0, None)], map[1 := Inconcluso], map[])
  }

  lemma FirstTwoCommands()
    ensures Step(Step(DiagnosticExample(), TwoRepeats()[0]), TwoRepeats()[1]) == NotCompletedExample()
  {
    var first := Step(DiagnosticExample(), TwoRepeats()[0]);
    assert first.appointments == [Appointment(1, 1, None, 7, 0, Programada)] && CurrentIndex(first) == Some(0);
    assert first.appointments[0 := Appointment(1, 1, None, 7, 0, Held(NoCompletada))] == NotCompletedExample().appointments;
  }

  lemma LastTwoCommands()
    ensures var a := Step(Step(NotCompletedExample(), TwoRepeats()[2]), TwoRepeats()[3]);
            |a.appointments| == 3 && a.appointments[1].status == Programada && a.appointments[2].status == Programada
  {
    assert LatestAttempt(NotCompletedExample().attempts).value.outcome == NoCompletada;
    assert CurrentIndex(NotCompletedExample()) == Some(0);
    var once := Step(NotCompletedExample(), TwoRepeats()[2]);
    assert once.appointments == NotCompletedExample().appointments + [Appointment(2, 2, Some(1), 7, 0, Programada)];
    assert CurrentIndex(once) == Some(1);
  }

  /** After an attempt that was not completed, two repeats in a row leave two appointments PROGRAMADA. */
  lemma TwoRepeatsLeaveTwoProgrammed()
    ensures Pinned(DiagnosticExample())
    ensures var a := Run(DiagnosticExample(), TwoRepeats());
            |a.appointments| == 3 && a.appointments[1].status == Programada && a.appointments[2].status == Programada
  {
    hide Step, Run;
    var c := TwoRepeats();
    RunOfFour(DiagnosticExample(), c[0], c[1], c[2], c[3]);
    FirstTwoCommands();
    LastTwoCommands();
  }
}
