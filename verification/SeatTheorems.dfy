/**
  What the seat allocator promises over whole runs.
*/
module SeatTheorems {
  import opened Wrappers
  import opened AdmissionRows
  import opened SeatInvariants
  import opened SeatTransactions
  import opened SeatRuns

  // ---- Seats ----------------------------------------------------------------------

  /** `availableCount` of the capacity view, clamped at zero as the view does. */
  function AvailableCount(s: Rows, c: Id): int
    requires c in s.capacities
  {
    var free := s.capacities[c].configured - ConsumedSeats(s, c);
    if free < 0 then 0 else free
  }

  /** No run oversells: the clamp never acts, and free and consumed seats add up to the capacity. */
  lemma SeatSafety(offerings: set<Id>, commands: seq<Command>, c: Id)
    requires c in Run(NoRows(offerings), commands).capacities
    ensures var s := Run(NoRows(offerings), commands);
            && ConsumedSeats(s, c) <= s.capacities[c].configured
            && AvailableCount(s, c) + ConsumedSeats(s, c) == s.capacities[c].configured
  {
    ReachableIsValid(offerings, commands);
  }

  /**
    Offers and seats move in lock step: every version owns a seat of its own, every
    seat belongs to a version, ACTIVE, ACCEPTED and DECLINED or EXPIRED versions
    have an ACTIVE, COMMITTED and RELEASED seat, and all but the current version of
    an offer are EXPIRED.
  */
  lemma OffersAndSeatsInLockStep(offerings: set<Id>, commands: seq<Command>)
    ensures var b := Run(NoRows(offerings), commands).book;
            && (forall v :: v in b.versions ==>
                 && b.versions[v].reservationId in b.reservations
                 && b.reservations[b.versions[v].reservationId].state == SeatStateFor(b.versions[v].lifecycle)
                 && (!IsCurrent(b, v) ==> b.versions[v].lifecycle == Expired))
            && (forall v, w | v in b.versions && w in b.versions :: b.versions[v].reservationId == b.versions[w].reservationId ==> v == w)
            && (forall r :: r in b.reservations ==> exists v :: OwnedBy(b, r, v))
  {
    ReachableIsValid(offerings, commands);
    hide Run;
  }

  /** In every reachable state an acceptance record exists exactly if the current version is ACCEPTED, and it was made in time. */
  lemma AcceptancesMatchVersions(offerings: set<Id>, commands: seq<Command>, a: Id)
    requires a in Run(NoRows(offerings), commands).book.offers
    ensures var b := Run(NoRows(offerings), commands).book;
            && b.offers[a].currentVersionId in b.versions
            && (a in b.acceptances <==> b.versions[b.offers[a].currentVersionId].lifecycle == Accepted)
            && (a in b.acceptances ==>
                  b.acceptances[a].versionId == b.offers[a].currentVersionId
                  && b.acceptances[a].acceptedAt < b.versions[b.offers[a].currentVersionId].expiresAt)
  {
    ReachableIsValid(offerings, commands);
    hide Run;
  }

  /** An application whose offer is open or accepted. */
  predicate HoldsOffer(b: Book, c: Id, a: Id) {
    && a in b.offers && b.offers[a].offeringId == c
    && b.offers[a].currentVersionId in b.versions
    && b.versions[b.offers[a].currentVersionId].lifecycle in {Active, Accepted}
  }

  function HoldersOf(b: Book, c: Id): set<Id> {
    set a | a in b.offers && HoldsOffer(b, c, a)
  }

  /** A one to one map has as many values as keys. */
  lemma {:induction false} InjectiveSize<K, V>(f: map<K, V>)
    requires forall x, y :: x in f && y in f && f[x] == f[y] ==> x == y
    ensures |f.Values| == |f.Keys|
    decreases |f|
  {
    if |f| != 0 {
      var x :| x in f.Keys;
      var g := f - {x};
      assert g.Keys == f.Keys - {x};
      forall y | y in f.Values && y != f[x] ensures y in g.Values {
        var z :| z in f.Keys && f[z] == y;
        assert z in g && g[z] == y;
      }
      forall y | y in g.Values ensures y in f.Values && y != f[x] {
        var z :| z in g.Keys && g[z] == y;
        assert f[z] == y;
      }
      assert g.Values == f.Values - {f[x]};
      InjectiveSize(g);
    }
  }

  lemma KeyOf<K, V>(f: map<K, V>, y: V) returns (x: K)
    requires y in f.Values
    ensures x in f && f[x] == y
  {
    x :| x in f.Keys && f[x] == y;
  }

  function SeatOfHolder(b: Book, a: Id): Id
    requires a in b.offers && b.offers[a].currentVersionId in b.versions
  {
    b.versions[b.offers[a].currentVersionId].reservationId
  }

  /** Recounting the seats of a capacity counts the applications with an open or accepted offer. */
  lemma ConsumedSeatsCountHolders(s: Rows, c: Id)
    requires Valid(s)
    ensures ConsumedSeats(s, c) == |HoldersOf(s.book, c)|
  {
    hide Valid;
    var b := s.book;
    var seats := map a | a in HoldersOf(b, c) :: SeatOfHolder(b, a);
    forall r | r in ConsumingSeats(b.reservations, c) ensures r in seats.Values {
      HolderOfSeat(s, c, r);
      assert seats[b.reservations[r].applicationId] == r;
    }
    forall a | a in HoldersOf(b, c) ensures SeatOfHolder(b, a) in ConsumingSeats(b.reservations, c) {
      HolderHasSeat(s, c, a);
    }
    assert seats.Values == ConsumingSeats(b.reservations, c);
    assert seats.Keys == HoldersOf(b, c);
    forall x, y | x in seats && y in seats && seats[x] == seats[y] ensures x == y {
      HolderHasSeat(s, c, x);
      HolderHasSeat(s, c, y);
    }
    InjectiveSize(seats);
  }

  lemma HolderHasSeat(s: Rows, c: Id, a: Id)
    requires Valid(s) && HoldsOffer(s.book, c, a)
    ensures SeatOfHolder(s.book, a) in ConsumingSeats(s.book.reservations, c)
    ensures s.book.reservations[SeatOfHolder(s.book, a)].applicationId == a
  {
    hide EntriesLinked, WithdrawalsQuiescent, SeatsWithinCapacity, CapacitiesInRange;
    var r := SeatOfHolder(s.book, a);
    assert s.book.reservations[r].capacityId == s.applications[a].offeringId;
  }

  lemma HolderOfSeat(s: Rows, c: Id, r: Id)
    requires Valid(s) && r in ConsumingSeats(s.book.reservations, c)
    ensures var a := s.book.reservations[r].applicationId;
            HoldsOffer(s.book, c, a) && s.book.versions[s.book.offers[a].currentVersionId].reservationId == r
  {
    hide EntriesLinked, WithdrawalsQuiescent, SeatsWithinCapacity, CapacitiesInRange;
    var v :| OwnedBy(s.book, r, v);
    assert IsCurrent(s.book, v);
  }

  // ---- Versions of an offer -----------------------------------------------------------

  function VersionsOf(b: Book, a: Id): set<Id> {
    set v | v in b.versions && b.versions[v].applicationId == a
  }

  function CurrentNumber(b: Book, a: Id): int
    requires OffersLinked(b) && a in b.offers
  {
    b.versions[b.offers[a].currentVersionId].number
  }

  /** Going back from the current version meets every number down to 1. */
  lemma {:induction false} NumberIsTaken(b: Book, a: Id, k: int) returns (v: Id)
    requires BookValid(b) && a in b.offers && 1 <= k <= CurrentNumber(b, a)
    ensures v in VersionsOf(b, a) && b.versions[v].number == k
    decreases CurrentNumber(b, a) - k
  {
    if k == CurrentNumber(b, a) {
      v := b.offers[a].currentVersionId;
    } else {
      var next := NumberIsTaken(b, a, k + 1);
      assert LinkedToPrevious(b, next);
      v := b.versions[next].previous.value;
    }
  }

  function NumbersUpTo(n: nat): (numbers: set<int>)
    ensures |numbers| == n && forall k :: k in numbers <==> 1 <= k <= n
  {
    if n == 0 then {} else NumbersUpTo(n - 1) + {n}
  }

  /** The versions of an offer are numbered 1..n, each number once, the current one n. */
  lemma VersionsAreNumberedThrough(b: Book, a: Id)
    requires BookValid(b) && a in b.offers
    ensures |VersionsOf(b, a)| == CurrentNumber(b, a)
    ensures forall v :: v in VersionsOf(b, a) ==> 1 <= b.versions[v].number <= CurrentNumber(b, a)
    ensures forall v, w :: v in VersionsOf(b, a) && w in VersionsOf(b, a) && b.versions[v].number == b.versions[w].number ==> v == w
  {
    var current := b.offers[a].currentVersionId;
    assert b.versions[current].number >= 1;
    var numbers := map v | v in VersionsOf(b, a) :: b.versions[v].number;
    forall k | k in NumbersUpTo(CurrentNumber(b, a)) ensures k in numbers.Values {
      var v := NumberIsTaken(b, a, k);
      assert numbers[v] == k;
    }
    forall k | k in numbers.Values ensures k in NumbersUpTo(CurrentNumber(b, a)) {
      var v := KeyOf(numbers, k);
    }
    assert numbers.Values == NumbersUpTo(CurrentNumber(b, a));
    assert numbers.Keys == VersionsOf(b, a);
    forall v, w | v in numbers && w in numbers && numbers[v] == numbers[w] ensures v == w {
      assert b.versions[v].number == b.versions[w].number;
    }
    InjectiveSize(numbers);
  }

  // ---- Withdrawal ---------------------------------------------------------------------

  /** A withdrawn application stays withdrawn, keeps its one record and never holds anything again. */
  lemma WithdrawalIsForever(s: Rows, a: Id, later: seq<Command>)
    requires Valid(s) && a in s.withdrawals
    ensures var t := Run(s, later);
            && a in t.withdrawals && t.withdrawals[a] == s.withdrawals[a]
            && a in t.applications && t.applications[a].status == Withdrawn
            && Quiescent(t.book, t.entries, a)
            && forall confirmed, now :: Withdraw(t, a, confirmed, now).After(t) == t
  {
    RunKeepsValid(s, later);
    RunEvolves(s, later);
  }

  /** The withdrawal takes effect exactly when it is confirmed, submitted and not yet accepted. */
  lemma WithdrawalTakesEffect(s: Rows, a: Id, confirmed: bool, now: Instant)
    requires Valid(s) && a in s.applications && a !in s.withdrawals
    ensures a in Withdraw(s, a, confirmed, now).After(s).withdrawals
            <==> confirmed && s.applications[a].status == Submitted && a !in s.book.acceptances
  {
  }

  /**
    Reopening decides on the status read before the application is locked. What
    it commits is sound if and only if the application is not withdrawn in the
    rows it writes to.
  */
  lemma ReopenNeedsFreshStatus(
    s: Rows, observed: ApplicationStatus, a: Id, expected: Id, capacityVersion: int, now: Instant,
    calendar: Option<DeadlineRule>, ids: FreshIds)
    requires Valid(s) && ReopenObserving(s, observed, a, expected, capacityVersion, now, calendar, ids).Commit?
    ensures Valid(ReopenObserving(s, observed, a, expected, capacityVersion, now, calendar, ids).rows)
            <==> s.applications[a].status != Withdrawn
  {
    hide BookValid, Placed, EntriesLinked, SeatsWithinCapacity, CapacitiesInRange, DecisionsLinked;
    var t := ReopenObserving(s, observed, a, expected, capacityVersion, now, calendar, ids).rows;
    if s.applications[a].status == Withdrawn {
      assert t.book.reservations[ids.reservationId].state == SeatActive;
      assert t.book.reservations[ids.reservationId].applicationId == a;
      assert a in t.withdrawals && !Quiescent(t.book, t.entries, a);
    } else {
      assert t == Reopen(s, a, expected, capacityVersion, now, calendar, ids).After(s);
      ReopenKeepsValid(s, a, expected, capacityVersion, now, calendar, ids);
    }
  }

  /** A transaction; a reopen comes with the status it observed before the lock. */
  datatype ObservedCommand =
    | Fresh(command: Command)
    | ObservedReopen(observed: ApplicationStatus, applicationId: Id, expectedVersionId: Id, expectedCapacityVersion: int,
                     now: Instant, calendar: Option<DeadlineRule>, ids: FreshIds)

  ghost function ExecuteObserved(s: Rows, c: ObservedCommand): Outcome {
    match c
    case Fresh(command) => Execute(s, command)
    case ObservedReopen(observed, a, expected, capacityVersion, now, calendar, ids) =>
      ReopenObserving(s, observed, a, expected, capacityVersion, now, calendar, ids)
  }

  /** A reopen that commits although the application is withdrawn in the rows it writes to. */
  ghost predicate ReopensWithdrawn(s: Rows, c: ObservedCommand) {
    && c.ObservedReopen? && ExecuteObserved(s, c).Commit?
    && c.applicationId in s.applications && s.applications[c.applicationId].status == Withdrawn
  }

  /** The invariant holds at every point of the run. */
  ghost predicate ValidThroughout(s: Rows, commands: seq<ObservedCommand>)
    decreases commands
  {
    Valid(s) && (commands != [] ==> ValidThroughout(ExecuteObserved(s, commands[0]).After(s), commands[1..]))
  }

  ghost predicate NeverReopensWithdrawn(s: Rows, commands: seq<ObservedCommand>)
    decreases commands
  {
    commands != [] ==>
      !ReopensWithdrawn(s, commands[0]) && NeverReopensWithdrawn(ExecuteObserved(s, commands[0]).After(s), commands[1..])
  }

  lemma ObservedStepKeepsValid(s: Rows, c: ObservedCommand)
    requires Valid(s)
    ensures Valid(ExecuteObserved(s, c).After(s)) <==> !ReopensWithdrawn(s, c)
  {
    hide Valid, ReopenObserving;
    match c
    case Fresh(command) => StepKeepsValid(s, command);
    case ObservedReopen(observed, a, expected, capacityVersion, now, calendar, ids) =>
      if ExecuteObserved(s, c).Commit? {
        CommittedReopenKnowsItsApplication(s, observed, a, expected, capacityVersion, now, calendar, ids);
        ReopenNeedsFreshStatus(s, observed, a, expected, capacityVersion, now, calendar, ids);
      }
  }

  lemma CommittedReopenKnowsItsApplication(
    s: Rows, observed: ApplicationStatus, a: Id, expected: Id, capacityVersion: int, now: Instant,
    calendar: Option<DeadlineRule>, ids: FreshIds)
    requires ReopenObserving(s, observed, a, expected, capacityVersion, now, calendar, ids).Commit?
    ensures a in s.applications
  {
  }

  /**
    Whatever statuses the reopens of a run observed, the invariant holds throughout
    it exactly if no committed reopen writes to a withdrawn application.
  */
  lemma {:induction false} RunsAreValidUnlessReopeningWithdrawn(s: Rows, commands: seq<ObservedCommand>)
    requires Valid(s)
    ensures ValidThroughout(s, commands) <==> NeverReopensWithdrawn(s, commands)
    decreases commands
  {
    hide Valid, ExecuteObserved, ReopensWithdrawn;
    if commands != [] {
      ObservedStepKeepsValid(s, commands[0]);
      var t := ExecuteObserved(s, commands[0]).After(s);
      if Valid(t) {
        RunsAreValidUnlessReopeningWithdrawn(t, commands[1..]);
      }
    }
  }

  function OneDay(now: Instant, days: int): Option<Schedule> {
    Some(Schedule(now + 1, None))
  }

  /** Application 7 is offered the one seat of offering 1, lets the offer expire and withdraws. */
  function ExpireThenWithdraw(): seq<Command> {
    [OpenApplicationCmd(7, 1), SubmitApplicationCmd(7), CreateCapacityCmd(1, 1, None),
     DecideCmd(7, Aprobado, 0, Some(OneDay), FreshIds(10, 20), 30), ExpireCmd(20, 1), WithdrawCmd(7, true, 2)]
  }

  /** The book of application 7 with its one offer in the given state. */
  function BookOfSeven(lifecycle: Lifecycle, terminal: Option<Terminal>, seat: SeatState, released: Option<TerminalReason>): Book {
    Book(map[10 := Reservation(1, 7, seat, released)], map[7 := Offer(1, Normal, 20, 1)],
         map[20 := OfferVersion(7, 10, 1, None, Normal, 0, 1, lifecycle, terminal)], map[], map[20 := Schedule(1, None)])
  }

  function ReadyToDecide(): Rows {
    Rows({1}, map[7 := Application(1, Submitted)], {}, map[1 := Capacity(1, 3, 1)], map[1 := []],
         Book(map[], map[], map[], map[], map[]), map[], map[])
  }

  function OfferedToSeven(): Rows {
    ReadyToDecide().(finalDecisions := {7}, capacities := map[1 := Capacity(1, 3, 2)],
    book := BookOfSeven(Active, None, SeatActive, None))
  }

  function ExpiredForSeven(): Rows {
    OfferedToSeven().(capacities := map[1 := Capacity(1, 3, 3)],
    book := BookOfSeven(Expired, Some(Terminal(1, DeadlineExpired)), SeatReleased, Some(DeadlineExpired)))
  }

  function WithdrawnAfterExpiry(): Rows {
    ExpiredForSeven().(applications := map[7 := Application(1, Withdrawn)], withdrawals := map[7 := Withdrawal(2, Some(20), Some(10), None)])
  }

  lemma FirstThreeSteps()
    ensures var c := ExpireThenWithdraw();
            Step(Step(Step(NoRows({1}), c[0]), c[1]), c[2]) == ReadyToDecide()
  {
    var c := ExpireThenWithdraw();
    var drafted := Step(NoRows({1}), c[0]);
    assert drafted.applications == map[7 := Application(1, Draft)];
    var submitted := Step(drafted, c[1]);
    assert submitted.applications == map[7 := Application(1, Submitted)];
    assert Step(submitted, c[2]).capacities == map[1 := Capacity(1, 3, 1)];
  }

  lemma DecisionOffers()
    ensures Step(ReadyToDecide(), ExpireThenWithdraw()[3]) == OfferedToSeven()
  {
    var s := ReadyToDecide();
    assert ConsumingSeats(s.book.reservations, 1) == {};
    assert ResolveSchedule(Some(OneDay), 0, 3) == Ok(Schedule(1, None));
    var t := Step(s, ExpireThenWithdraw()[3]);
    assert t.finalDecisions == {7};
    assert t.capacities == map[1 := Capacity(1, 3, 2)];
    assert t.book == BookOfSeven(Active, None, SeatActive, None);
  }

  lemma ThenItExpires()
    ensures Step(OfferedToSeven(), ExpireThenWithdraw()[4]) == ExpiredForSeven()
  {
    var t := Step(OfferedToSeven(), ExpireThenWithdraw()[4]);
    assert t.capacities == map[1 := Capacity(1, 3, 3)];
    assert t.book == BookOfSeven(Expired, Some(Terminal(1, DeadlineExpired)), SeatReleased, Some(DeadlineExpired));
  }

  lemma ThenItIsWithdrawn()
    ensures Step(ExpiredForSeven(), ExpireThenWithdraw()[5]) == WithdrawnAfterExpiry()
  {
    var s := ExpiredForSeven();
    assert CurrentVersionOf(s, 7) == Some(20) && SeatToRelease(s, 7) == Some(10) && ActiveEntryOf(s, 7) == None;
    var record := Withdrawal(2, Some(20), Some(10), None);
    assert Step(s, ExpireThenWithdraw()[5]) == LeaveWith(s, 7, record);
    assert LeaveWith(s, 7, record).applications == WithdrawnAfterExpiry().applications;
  }

  lemma RunOfSix(s: Rows, c: seq<Command>)
    requires |c| == 6
    ensures Run(s, c) == Step(Step(Step(Step(Step(Step(s, c[0]), c[1]), c[2]), c[3]), c[4]), c[5])
  {
    hide Step;
    var t1 := Step(s, c[0]);
    var t2 := Step(t1, c[1]);
    var t3 := Step(t2, c[2]);
    var t4 := Step(t3, c[3]);
    var t5 := Step(t4, c[4]);
    assert Run(s, c) == Run(t1, c[1..]);
    assert Run(t1, c[1..]) == Run(t2, c[1..][1..]) && c[1..][1..] == c[2..];
    assert Run(t2, c[2..]) == Run(t3, c[2..][1..]) && c[2..][1..] == c[3..];
    assert Run(t3, c[3..]) == Run(t4, c[3..][1..]) && c[3..][1..] == c[4..];
    assert Run(t4, c[4..]) == Run(t5, c[4..][1..]) && c[4..][1..] == c[5..];
    assert Run(t5, c[5..]) == Run(Step(t5, c[5]), c[5..][1..]) && c[5..][1..] == [];
  }

  lemma WithdrawnAfterExpiryIsReached()
    ensures Run(NoRows({1}), ExpireThenWithdraw()) == WithdrawnAfterExpiry()
  {
    hide Step, Run;
    RunOfSix(NoRows({1}), ExpireThenWithdraw());
    FirstThreeSteps();
    DecisionOffers();
    ThenItExpires();
    ThenItIsWithdrawn();
  }

  /** After a run like that, a status read before the withdrawal lets reopening seat the withdrawn application. */
  lemma StaleReopenSeatsWithdrawn()
    ensures var s := Run(NoRows({1}), ExpireThenWithdraw());
            var outcome := ReopenObserving(s, Submitted, 7, 20, 3, 3, Some(OneDay), FreshIds(11, 21));
            && Valid(s) && outcome.Commit? && 7 in outcome.rows.withdrawals && HoldsSeat(outcome.rows, 7)
            && Reopen(s, 7, 20, 3, 3, Some(OneDay), FreshIds(11, 21)) == Abort(ApplicationIsWithdrawn)
  {
    hide Valid, Run;
    WithdrawnAfterExpiryIsReached();
    ReachableIsValid({1}, ExpireThenWithdraw());
    var s := WithdrawnAfterExpiry();
    assert ConsumingSeats(s.book.reservations, 1) == {};
    assert ResolveSchedule(Some(OneDay), 3, 3) == Ok(Schedule(4, None));
    var outcome := ReopenObserving(s, Submitted, 7, 20, 3, 3, Some(OneDay), FreshIds(11, 21));
    assert outcome.Commit?;
    assert outcome.rows.book.reservations[11] == Reservation(1, 7, SeatActive, None);
  }

  // ---- Acceptance ------------------------------------------------------------------------

  /** The offer of the application stands accepted: in time, by its current version, with a committed seat. */
  predicate StandsAccepted(s: Rows, a: Id) {
    && a in s.book.acceptances && a in s.book.offers && a !in s.withdrawals
    && var accepted := s.book.acceptances[a];
    && s.book.offers[a].currentVersionId == accepted.versionId
    && accepted.versionId in s.book.versions
    && s.book.versions[accepted.versionId].lifecycle == Accepted
    && accepted.acceptedAt < s.book.versions[accepted.versionId].expiresAt
    && accepted.reservationId in s.book.reservations
    && s.book.versions[accepted.versionId].reservationId == accepted.reservationId
    && s.book.reservations[accepted.reservationId].state == SeatCommitted
  }

  lemma AcceptedStands(s: Rows, a: Id)
    requires Valid(s) && a in s.book.acceptances
    ensures StandsAccepted(s, a)
  {
    hide EntriesLinked, SeatsWithinCapacity, CapacitiesInRange, Placed;
    var v := s.book.offers[a].currentVersionId;
    assert s.book.versions[v].applicationId == a && s.book.versions[v].lifecycle == Accepted;
  }

  /** An acceptance is the only one of its offer, and nothing later undoes it. */
  lemma AcceptanceIsFinal(s: Rows, a: Id, later: seq<Command>)
    requires Valid(s) && a in s.book.acceptances
    ensures StandsAccepted(Run(s, later), a)
    ensures Run(s, later).book.acceptances[a] == s.book.acceptances[a]
  {
    RunKeepsValid(s, later);
    RunEvolves(s, later);
    AcceptedStands(Run(s, later), a);
  }

  /** A version that has left ACTIVE is the same row at every later point. */
  lemma TerminalVersionsNeverChange(s: Rows, v: Id, later: seq<Command>)
    requires Valid(s) && v in s.book.versions && s.book.versions[v].lifecycle != Active
    ensures v in Run(s, later).book.versions && Run(s, later).book.versions[v] == s.book.versions[v]
  {
    RunEvolves(s, later);
  }

  // ---- The capacity version ------------------------------------------------------------------

  /** Two points of a run that show the same capacity version show the same configuration and the same seats. */
  lemma VersionIsFaithfulWitness(s: Rows, later: seq<Command>, c: Id)
    requires Valid(s) && c in s.capacities
    requires c in Run(s, later).capacities ==> Run(s, later).capacities[c].version == s.capacities[c].version
    ensures var t := Run(s, later); c in t.capacities && SameAtCapacity(s, t, c)
    ensures ConsumedSeats(Run(s, later), c) == ConsumedSeats(s, c)
  {
    RunEvolves(s, later);
    var t := Run(s, later);
    assert CapacityEvolves(s, t, c);
    forall r | r in ConsumingSeats(t.book.reservations, c) ensures r in ConsumingSeats(s.book.reservations, c) {
      assert SeatAt(t.book, c, r) == SeatAt(s.book, c, r);
    }
    forall r | r in ConsumingSeats(s.book.reservations, c) ensures r in ConsumingSeats(t.book.reservations, c) {
      assert SeatAt(t.book, c, r) == SeatAt(s.book, c, r);
    }
    assert ConsumingSeats(t.book.reservations, c) == ConsumingSeats(s.book.reservations, c);
  }

  /** The ledger entries written since a point of a run lead from the capacity it had to the one it has. */
  lemma LedgerReplays(s: Rows, later: seq<Command>, c: Id)
    requires Valid(s) && c in s.capacities
    ensures var t := Run(s, later);
            && c in t.capacities && c in s.ledger && c in t.ledger && s.ledger[c] <= t.ledger[c]
            && Leads(s.capacities[c].configured, t.ledger[c][|s.ledger[c]|..], t.capacities[c].configured)
  {
    RunEvolves(s, later);
    assert CapacityEvolves(s, Run(s, later), c);
  }

  /** From its creation, when the ledger is empty, replaying the whole ledger gives the present capacity. */
  lemma LedgerReplaysFromCreation(s: Rows, later: seq<Command>, c: Id)
    requires Valid(s) && c in s.capacities && c in s.ledger && s.ledger[c] == []
    ensures var t := Run(s, later);
            c in t.capacities && c in t.ledger && Leads(s.capacities[c].configured, t.ledger[c], t.capacities[c].configured)
  {
    LedgerReplays(s, later, c);
    hide Valid, Run;
    assert Run(s, later).ledger[c][0..] == Run(s, later).ledger[c];
  }

  // ---- The waitlist ----------------------------------------------------------------------------

  lemma OthersLeaveTheLine(s: Rows, c: Command)
    requires !c.DecideCmd? && !c.PromoteCmd? && !c.WithdrawCmd?
    ensures Step(s, c).entries == s.entries
  {
    hide ResolveSchedule, ExpireVerdict, HoldsSeat, ConsumedSeats, Bump, IssueInBook;
  }

  lemma DecidePromotesNothing(
    s: Rows, a: Id, disposition: Disposition, now: Instant, calendar: Option<DeadlineRule>, ids: FreshIds, entryId: Id, e: Id)
    requires e in s.entries
    ensures var t := Decide(s, a, disposition, now, calendar, ids, entryId).After(s); e in t.entries && t.entries[e] == s.entries[e]
  {
    hide ResolveSchedule, HoldsSeat, ConsumedSeats, Bump, IssueInBook;
  }

  lemma PromotePromotesTheFirst(
    s: Rows, p: Id, capacityVersion: int, entryVersion: int, now: Instant, calendar: Option<DeadlineRule>, ids: FreshIds, e: Id)
    requires e in s.entries
    ensures var t := Promote(s, p, capacityVersion, entryVersion, now, calendar, ids).After(s);
            e in t.entries && (t.entries[e] == s.entries[e] || FirstInLine(s.entries, s.entries[e].offeringId, e))
  {
    hide ResolveSchedule, HoldsSeat, ConsumedSeats, Bump, IssueInBook, FirstInLine;
  }

  /** A transaction promotes an entry only from the head of the line. */
  lemma PromotionIsInOrder(s: Rows, c: Command, e: Id)
    requires Valid(s) && e in s.entries && s.entries[e].state == EntryActive
    requires e in Step(s, c).entries && Step(s, c).entries[e].state == EntryPromoted
    ensures FirstInLine(s.entries, s.entries[e].offeringId, e)
  {
    hide Valid, FirstInLine, Decide, Promote, Withdraw;
    match c
    case DecideCmd(a, disposition, now, calendar, ids, entryId) =>
      DecidePromotesNothing(s, a, disposition, now, calendar, ids, entryId, e);
    case PromoteCmd(p, capacityVersion, entryVersion, now, calendar, ids) =>
      PromotePromotesTheFirst(s, p, capacityVersion, entryVersion, now, calendar, ids, e);
    case WithdrawCmd(a, confirmed, now) => WithdrawPromotesNothing(s, a, confirmed, now, e);
    case _ =>
      hide Step;
      OthersLeaveTheLine(s, c);
  }

  lemma WithdrawPromotesNothing(s: Rows, a: Id, confirmed: bool, now: Instant, e: Id)
    requires e in s.entries && s.entries[e].state == EntryActive
    ensures e in Withdraw(s, a, confirmed, now).After(s).entries
    ensures Withdraw(s, a, confirmed, now).After(s).entries[e].state != EntryPromoted
  {
    if Withdraw(s, a, confirmed, now).Commit? && a !in s.withdrawals {
      var entry := ActiveEntryOf(s, a);
      assert Withdraw(s, a, confirmed, now).rows
             == LeaveWith(s, a, Withdrawal(now, CurrentVersionOf(s, a), SeatToRelease(s, a), entry));
      hide Withdraw, SeatToRelease, CurrentVersionOf;
      assert Withdraw(s, a, confirmed, now).rows.entries == WithdrawEntry(s, entry).entries;
    }
  }

  /** Nobody overtakes: while two entries wait, the later one is not promoted before the earlier one has left the line. */
  lemma {:induction false} NobodyOvertakes(s: Rows, later: seq<Command>, d: Id, e: Id)
    requires Valid(s) && e in s.entries && s.entries[e].state == EntryActive && Waiting(s.entries, s.entries[e].offeringId, d)
    requires Before(s.entries, d, e)
    ensures var t := Run(s, later);
            && d in t.entries && e in t.entries
            && (t.entries[e].state == EntryPromoted ==> t.entries[d].state != EntryActive)
    decreases later
  {
    if later != [] {
      var t := Step(s, later[0]);
      StepKeepsValid(s, later[0]);
      StepEvolves(s, later[0]);
      assert t.entries[d].enteredAt == s.entries[d].enteredAt && t.entries[e].enteredAt == s.entries[e].enteredAt;
      if t.entries[d].state != EntryActive || t.entries[e].state != EntryActive {
        if t.entries[e].state == EntryPromoted {
          PromotionIsInOrder(s, later[0], e);
        }
        RunEvolves(t, later[1..]);
      } else {
        NobodyOvertakes(t, later[1..], d, e);
      }
    }
  }
}
