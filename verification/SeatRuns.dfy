/**
  Runs: any sequence of transactions, committed or aborted. Evolves is a
  preorder that every transaction moves along, so what it says of two rows holds
  between any two points of a run.
*/
module SeatRuns {
  import opened Wrappers
  import opened AdmissionRows
  import opened SeatInvariants
  import opened SeatTransactions

  lemma StepKeepsValid(s: Rows, c: Command)
    requires Valid(s)
    ensures Valid(Step(s, c))
  {
    hide Valid;
    match c
    case OpenApplicationCmd(a, o) => OpenApplicationKeepsValid(s, a, o);
    case SubmitApplicationCmd(a) => SubmitApplicationKeepsValid(s, a);
    case CreateCapacityCmd(o, configured, days) => CreateCapacityKeepsValid(s, o, configured, days);
    case AdjustCapacityCmd(o, expected, configured, days) => AdjustCapacityKeepsValid(s, o, expected, configured, days);
    case DecideCmd(a, disposition, now, calendar, ids, entryId) => DecideKeepsValid(s, a, disposition, now, calendar, ids, entryId);
    case PromoteCmd(e, capacityVersion, entryVersion, now, calendar, ids) =>
      PromoteKeepsValid(s, e, capacityVersion, entryVersion, now, calendar, ids);
    case RespondCmd(a, expected, response, authorized, now) => RespondKeepsValid(s, a, expected, response, authorized, now);
    case ReopenCmd(a, expected, capacityVersion, now, calendar, ids) =>
      ReopenKeepsValid(s, a, expected, capacityVersion, now, calendar, ids);
    case ExpireCmd(v, now) => ExpireKeepsValid(s, v, now);
    case WithdrawCmd(a, confirmed, now) => WithdrawKeepsValid(s, a, confirmed, now);
  }

  lemma {:induction false} RunKeepsValid(s: Rows, commands: seq<Command>)
    requires Valid(s)
    ensures Valid(Run(s, commands))
    decreases commands
  {
    hide Valid;
    if commands != [] {
      StepKeepsValid(s, commands[0]);
      RunKeepsValid(Step(s, commands[0]), commands[1..]);
    }
  }

  lemma NoRowsAreValid(offerings: set<Id>)
    ensures Valid(NoRows(offerings))
  {
  }

  /** Every state the allocator can reach satisfies Valid. */
  lemma ReachableIsValid(offerings: set<Id>, commands: seq<Command>)
    ensures Valid(Run(NoRows(offerings), commands))
  {
    hide Valid;
    NoRowsAreValid(offerings);
    RunKeepsValid(NoRows(offerings), commands);
  }

  // ---- What a transaction may change ------------------------------------------------

  /** Everything a version was issued with. */
  function Identity(v: OfferVersion): OfferVersion {
    v.(lifecycle := Active, terminal := None)
  }

  predicate VersionsEvolve(b: Book, c: Book) {
    forall v :: v in b.versions ==>
      && v in c.versions
      && Identity(c.versions[v]) == Identity(b.versions[v])
      && (b.versions[v].lifecycle != Active ==> c.versions[v] == b.versions[v])
  }

  predicate SeatsEvolve(b: Book, c: Book) {
    forall r :: r in b.reservations ==>
      && r in c.reservations
      && c.reservations[r].capacityId == b.reservations[r].capacityId
      && c.reservations[r].applicationId == b.reservations[r].applicationId
      && (b.reservations[r].state != SeatActive ==> c.reservations[r] == b.reservations[r])
  }

  predicate BookEvolves(b: Book, c: Book) {
    && VersionsEvolve(b, c) && SeatsEvolve(b, c)
    && b.offers.Keys <= c.offers.Keys
    && (forall a :: a in b.acceptances ==> a in c.acceptances && c.acceptances[a] == b.acceptances[a])
    && (forall v :: v in b.jobs ==> v in c.jobs && c.jobs[v] == b.jobs[v])
  }

  predicate EntriesEvolve(s: map<Id, WaitlistEntry>, t: map<Id, WaitlistEntry>) {
    forall e :: e in s ==>
      && e in t
      && t[e].applicationId == s[e].applicationId && t[e].offeringId == s[e].offeringId && t[e].enteredAt == s[e].enteredAt
      && (s[e].state != EntryActive ==> t[e] == s[e])
  }

  predicate ApplicationsEvolve(s: Rows, t: Rows) {
    && (forall a :: a in s.applications ==>
         && a in t.applications
         && t.applications[a].offeringId == s.applications[a].offeringId
         && (s.applications[a].status == Submitted ==> t.applications[a].status != Draft)
         && (s.applications[a].status == Withdrawn ==> t.applications[a].status == Withdrawn))
    && (forall a :: a in s.withdrawals ==> a in t.withdrawals && t.withdrawals[a] == s.withdrawals[a])
    && s.finalDecisions <= t.finalDecisions
  }

  /** The seat `r` as the capacity `c` sees it. */
  function SeatAt(b: Book, c: Id, r: Id): Option<Reservation> {
    if r in b.reservations && b.reservations[r].capacityId == c then Some(b.reservations[r]) else None
  }

  /** What the version number of a capacity stands for: its configuration, its ledger and its seats. */
  ghost predicate SameAtCapacity(s: Rows, t: Rows, c: Id)
    requires c in s.capacities && c in t.capacities
  {
    && t.capacities[c] == s.capacities[c]
    && c in s.ledger && c in t.ledger && t.ledger[c] == s.ledger[c]
    && forall r :: SeatAt(t.book, c, r) == SeatAt(s.book, c, r)
  }

  /** The adjustments, each starting from the value the one before left, lead from one value to the other. */
  predicate Leads(from: int, adjustments: seq<Adjustment>, to: int)
    decreases adjustments
  {
    if adjustments == [] then from == to
    else adjustments[0].previousValue == from && Leads(adjustments[0].newValue, adjustments[1..], to)
  }

  lemma {:induction false} LeadsFurther(from: int, first: seq<Adjustment>, via: int, second: seq<Adjustment>, to: int)
    requires Leads(from, first, via) && Leads(via, second, to)
    ensures Leads(from, first + second, to)
    decreases first
  {
    if first == [] {
      assert first + second == second;
    } else {
      LeadsFurther(first[0].newValue, first[1..], via, second, to);
      assert (first + second)[1..] == first[1..] + second;
    }
  }

  ghost predicate CapacityEvolves(s: Rows, t: Rows, c: Id)
    requires c in s.capacities
  {
    && c in t.capacities && c in s.ledger && c in t.ledger
    && s.capacities[c].version <= t.capacities[c].version
    && (s.capacities[c].version == t.capacities[c].version ==> SameAtCapacity(s, t, c))
    && s.ledger[c] <= t.ledger[c]
    && Leads(s.capacities[c].configured, t.ledger[c][|s.ledger[c]|..], t.capacities[c].configured)
  }

  ghost predicate CapacitiesEvolve(s: Rows, t: Rows) {
    forall c :: c in s.capacities ==> CapacityEvolves(s, t, c)
  }

  ghost predicate Evolves(s: Rows, t: Rows) {
    && BookEvolves(s.book, t.book)
    && EntriesEvolve(s.entries, t.entries)
    && ApplicationsEvolve(s, t)
    && CapacitiesEvolve(s, t)
  }

  lemma CapacityEvolvesTransitive(s: Rows, t: Rows, u: Rows, c: Id)
    requires c in s.capacities && CapacityEvolves(s, t, c) && CapacityEvolves(t, u, c)
    ensures CapacityEvolves(s, u, c)
  {
    var first, second := t.ledger[c][|s.ledger[c]|..], u.ledger[c][|t.ledger[c]|..];
    LeadsFurther(s.capacities[c].configured, first, t.capacities[c].configured, second, u.capacities[c].configured);
    assert u.ledger[c][|s.ledger[c]|..] == first + second;
  }

  lemma CapacitiesEvolveTransitive(s: Rows, t: Rows, u: Rows)
    requires CapacitiesEvolve(s, t) && CapacitiesEvolve(t, u)
    ensures CapacitiesEvolve(s, u)
  {
    forall c | c in s.capacities ensures CapacityEvolves(s, u, c) {
      assert CapacityEvolves(s, t, c) && CapacityEvolves(t, u, c);
      CapacityEvolvesTransitive(s, t, u, c);
    }
  }

  lemma BookEvolvesTransitive(b: Book, c: Book, d: Book)
    requires BookEvolves(b, c) && BookEvolves(c, d)
    ensures BookEvolves(b, d)
  {
  }

  lemma EvolvesTransitive(s: Rows, t: Rows, u: Rows)
    requires Evolves(s, t) && Evolves(t, u)
    ensures Evolves(s, u)
  {
    CapacitiesEvolveTransitive(s, t, u);
    BookEvolvesTransitive(s.book, t.book, u.book);
  }

  // ---- Each row change evolves -----------------------------------------------------

  lemma IssueEvolves(s: Rows, n: Issued)
    requires s.capacities.Keys == s.ledger.Keys
    requires n.ids.reservationId !in s.book.reservations && n.ids.versionId !in s.book.versions && n.ids.versionId !in s.book.jobs
    requires n.offer.offeringId in s.capacities
    ensures Evolves(s, Issue(s, n))
  {
    var t := Issue(s, n);
    forall c | c in s.capacities ensures CapacityEvolves(s, t, c) {
      if c != n.offer.offeringId {
        assert forall r :: SeatAt(t.book, c, r) == SeatAt(s.book, c, r);
      }
    }
  }

  lemma SettleEvolvesBook(b: Book, v: Id, lifecycle: Lifecycle, terminal: Terminal)
    requires VersionsLinked(b) && LockStep(b) && OffersLinked(b) && AcceptancesExact(b) && MaySettle(b, v, lifecycle, terminal)
    ensures BookEvolves(b, SettleInBook(b, v, lifecycle, terminal))
  {
  }

  lemma SettleMovesCapacity(s: Rows, v: Id, lifecycle: Lifecycle, terminal: Terminal, c: Id)
    requires s.capacities.Keys == s.ledger.Keys && c in s.capacities
    requires v in s.book.versions && s.book.versions[v].reservationId in s.book.reservations
    ensures CapacityEvolves(s, Settle(s, v, lifecycle, terminal), c)
  {
    var t, r := Settle(s, v, lifecycle, terminal), s.book.versions[v].reservationId;
    assert t.ledger == s.ledger && t.ledger[c][|s.ledger[c]|..] == [];
    if c != s.book.reservations[r].capacityId {
      assert t.capacities[c] == s.capacities[c];
      forall k ensures SeatAt(t.book, c, k) == SeatAt(s.book, c, k) {
        assert k != r ==> SeatAt(t.book, c, k) == SeatAt(s.book, c, k);
      }
    }
  }

  lemma SettleLeavesTheRest(s: Rows, v: Id, lifecycle: Lifecycle, terminal: Terminal)
    requires v in s.book.versions && s.book.versions[v].reservationId in s.book.reservations
    ensures var t := Settle(s, v, lifecycle, terminal);
            EntriesEvolve(s.entries, t.entries) && ApplicationsEvolve(s, t) && t.book == SettleInBook(s.book, v, lifecycle, terminal)
  {
    hide SettleInBook;
  }

  lemma SettleEvolves(s: Rows, v: Id, lifecycle: Lifecycle, terminal: Terminal)
    requires s.capacities.Keys == s.ledger.Keys
    requires BookValid(s.book) && MaySettle(s.book, v, lifecycle, terminal)
    requires s.book.reservations[s.book.versions[v].reservationId].capacityId in s.capacities
    ensures Evolves(s, Settle(s, v, lifecycle, terminal))
  {
    SettleEvolvesBook(s.book, v, lifecycle, terminal);
    SettleLeavesTheRest(s, v, lifecycle, terminal);
    var t := Settle(s, v, lifecycle, terminal);
    forall c | c in s.capacities ensures CapacityEvolves(s, t, c) {
      SettleMovesCapacity(s, v, lifecycle, terminal, c);
    }
    hide BookValid, BookEvolves, EntriesEvolve, ApplicationsEvolve, CapacityEvolves, Settle;
  }

  /** Rows that leave the book and the capacities alone. */
  lemma OutsideBookEvolves(s: Rows, t: Rows)
    requires s.capacities.Keys == s.ledger.Keys
    requires t.book == s.book && t.capacities == s.capacities && t.ledger == s.ledger
    requires EntriesEvolve(s.entries, t.entries) && ApplicationsEvolve(s, t)
    ensures Evolves(s, t)
  {
  }

  lemma EvolvesReflexive(s: Rows)
    requires Valid(s)
    ensures Evolves(s, s)
  {
  }

  lemma CreateCapacityEvolves(s: Rows, offeringId: Id, configured: int, validityDays: Option<int>)
    requires Valid(s)
    ensures Evolves(s, CreateCapacity(s, offeringId, configured, validityDays).After(s))
  {
    hide BookValid, Placed, EntriesLinked, WithdrawalsQuiescent, SeatsWithinCapacity;
    var t := CreateCapacity(s, offeringId, configured, validityDays).After(s);
    forall c | c in s.capacities ensures CapacityEvolves(s, t, c) {
      assert t.book == s.book;
    }
  }

  lemma AdjustCapacityEvolves(s: Rows, offeringId: Id, expectedVersion: int, configured: int, validityDays: Option<int>)
    requires Valid(s)
    ensures Evolves(s, AdjustCapacity(s, offeringId, expectedVersion, configured, validityDays).After(s))
  {
    hide BookValid, Placed, EntriesLinked, WithdrawalsQuiescent, SeatsWithinCapacity;
    var t := AdjustCapacity(s, offeringId, expectedVersion, configured, validityDays).After(s);
    forall c | c in s.capacities ensures CapacityEvolves(s, t, c) {
      assert t.book == s.book;
      if t != s && c == offeringId {
        assert Leads(s.capacities[c].configured, [Adjustment(s.capacities[c].configured, configured)], configured);
        assert t.ledger[c][|s.ledger[c]|..] == [Adjustment(s.capacities[c].configured, configured)];
      }
    }
  }

  lemma ReserveAndIssueEvolves(
    s: Rows, a: Id, o: Id, expected: Option<int>, origin: Origin, now: Instant, calendar: Option<DeadlineRule>, ids: FreshIds)
    requires Valid(s)
    ensures Evolves(s, ReserveAndIssue(s, a, o, expected, origin, now, calendar, ids).After(s))
  {
    hide EntriesLinked, DecisionsLinked, WithdrawalsQuiescent, SeatsWithinCapacity, Placed;
    if ReserveAndIssue(s, a, o, expected, origin, now, calendar, ids).Commit? {
      var schedule := ResolveSchedule(calendar, now, s.capacities[o].validityDays).value;
      IssueEvolves(s, Issued(a, Offer(o, origin, ids.versionId, 1), 1, None, now, schedule, ids));
    }
  }

  lemma DecideWithoutOffer(
    s: Rows, a: Id, disposition: Disposition, now: Instant, calendar: Option<DeadlineRule>, ids: FreshIds, entryId: Id)
    requires disposition != Aprobado
    ensures var t := Decide(s, a, disposition, now, calendar, ids, entryId).After(s);
            && t.book == s.book && t.capacities == s.capacities && t.ledger == s.ledger
            && EntriesEvolve(s.entries, t.entries) && ApplicationsEvolve(s, t)
  {
  }

  lemma DecideEvolves(
    s: Rows, a: Id, disposition: Disposition, now: Instant, calendar: Option<DeadlineRule>, ids: FreshIds, entryId: Id)
    requires Valid(s)
    ensures Evolves(s, Decide(s, a, disposition, now, calendar, ids, entryId).After(s))
  {
    hide ReserveAndIssue, BookValid, Placed, EntriesLinked, WithdrawalsQuiescent, SeatsWithinCapacity, Evolves;
    var t := Decide(s, a, disposition, now, calendar, ids, entryId);
    if t.Abort? {
      EvolvesReflexive(s);
    } else if disposition == Aprobado {
      var decided := s.(finalDecisions := s.finalDecisions + {a});
      FinalDecisionKeepsValid(s, a);
      OutsideBookEvolves(s, decided);
      ReserveAndIssueEvolves(decided, a, s.applications[a].offeringId, None, Normal, now, calendar, ids);
      EvolvesTransitive(s, decided, t.rows);
    } else {
      DecideWithoutOffer(s, a, disposition, now, calendar, ids, entryId);
      OutsideBookEvolves(s, t.rows);
    }
  }

  lemma PromoteEvolves(
    s: Rows, e: Id, capacityVersion: int, entryVersion: int, now: Instant, calendar: Option<DeadlineRule>, ids: FreshIds)
    requires Valid(s)
    ensures Evolves(s, Promote(s, e, capacityVersion, entryVersion, now, calendar, ids).After(s))
  {
    hide BookValid, Placed, WithdrawalsQuiescent, SeatsWithinCapacity, DecisionsLinked, ReserveAndIssue;
    var t := Promote(s, e, capacityVersion, entryVersion, now, calendar, ids);
    if t.Commit? {
      var a, o := s.entries[e].applicationId, s.entries[e].offeringId;
      var promoted := PromoteEntry(s, e, now);
      PromoteEntryKeepsValid(s, e, now);
      OutsideBookEvolves(s, promoted);
      ReserveAndIssueEvolves(promoted, a, o, Some(capacityVersion), Waitlist, now, calendar, ids);
      PromotionCommutes(s, e, a, o, Some(capacityVersion), now, calendar, ids);
      EvolvesTransitive(s, promoted, t.rows);
    } else {
      EvolvesReflexive(s);
    }
  }

  lemma RespondEvolves(s: Rows, a: Id, expected: Id, response: Response, authorized: bool, now: Instant)
    requires Valid(s)
    ensures Evolves(s, Respond(s, a, expected, response, authorized, now).After(s))
  {
    var t := Respond(s, a, expected, response, authorized, now).After(s);
    if t == s {
      EvolvesReflexive(s);
    } else {
      var terminal := Terminal(now, if response == Accept then FamilyAccepted else FamilyDeclined);
      var lifecycle := if response == Accept then Accepted else Declined;
      SettleEvolves(s, expected, lifecycle, terminal);
      assert t == Settle(s, expected, lifecycle, terminal) by {
        if response == Decline {
          ReleaseIsSettle(s, expected, Declined, terminal);
        }
      }
    }
  }

  lemma ReopenEvolves(
    s: Rows, observed: ApplicationStatus, a: Id, expected: Id, capacityVersion: int, now: Instant,
    calendar: Option<DeadlineRule>, ids: FreshIds)
    requires Valid(s)
    ensures Evolves(s, ReopenObserving(s, observed, a, expected, capacityVersion, now, calendar, ids).After(s))
  {
    hide EntriesLinked, DecisionsLinked, WithdrawalsQuiescent, SeatsWithinCapacity, Evolves, SeatsOwnedOnce, LockStep, LinksBack;
    if ReopenObserving(s, observed, a, expected, capacityVersion, now, calendar, ids).Commit? {
      var offer := s.book.offers[a];
      var schedule := ResolveSchedule(calendar, now, s.capacities[s.applications[a].offeringId].validityDays).value;
      IssueEvolves(s, Issued(a, offer.(version := offer.version + 1), s.book.versions[expected].number + 1, Some(expected),
                             now, schedule, ids));
    } else {
      EvolvesReflexive(s);
    }
  }

  lemma ExpireEvolves(s: Rows, v: Id, now: Instant)
    requires Valid(s)
    ensures Evolves(s, Expire(s, v, now).After(s))
  {
    if ExpireVerdict(s, v, now) == VersionExpired {
      SettleEvolves(s, v, Expired, Terminal(now, DeadlineExpired));
      ReleaseIsSettle(s, v, Expired, Terminal(now, DeadlineExpired));
    } else {
      EvolvesReflexive(s);
    }
  }

  lemma LetOfferGoEvolves(s: Rows, a: Id, now: Instant)
    requires Valid(s)
    ensures Evolves(s, LetOfferGo(s, a, now))
  {
    var current := CurrentVersionOf(s, a);
    if current.Some? && s.book.versions[current.value].lifecycle == Active {
      SettleEvolves(s, current.value, Declined, Terminal(now, ApplicationWithdrawn));
    } else {
      EvolvesReflexive(s);
    }
  }

  lemma WithdrawEvolves(s: Rows, a: Id, confirmed: bool, now: Instant)
    requires Valid(s)
    ensures Evolves(s, Withdraw(s, a, confirmed, now).After(s))
  {
    if Withdraw(s, a, confirmed, now).Commit? && a !in s.withdrawals {
      WithdrawInMoves(s, a, confirmed, now);
      var closed := LetOfferGo(s, a, now);
      LetOfferGoEvolves(s, a, now);
      LetOfferGoKeepsValid(s, a, now);
      hide Valid, Withdraw, LetOfferGo;
      var left := WithdrawEntry(closed, ActiveEntryOf(s, a));
      LeaveEvolves(closed, left, a, Withdrawal(now, CurrentVersionOf(s, a), SeatToRelease(s, a), ActiveEntryOf(s, a)));
      EvolvesTransitive(s, closed, Withdraw(s, a, confirmed, now).rows);
    } else {
      EvolvesReflexive(s);
    }
  }

  lemma LeaveEvolves(s: Rows, left: Rows, a: Id, record: Withdrawal)
    requires Valid(s) && a in s.applications && s.applications[a].status == Submitted
    requires exists entry: Option<Id> ::
               && (entry.Some? ==> entry.value in s.entries && s.entries[entry.value].state == EntryActive)
               && left == WithdrawEntry(s, entry)
    ensures Evolves(s, LeaveApplication(left, a, record))
  {
    hide BookValid, Placed, EntriesLinked, SeatsWithinCapacity;
    OutsideBookEvolves(s, LeaveApplication(left, a, record));
  }

  lemma StepEvolves(s: Rows, c: Command)
    requires Valid(s)
    ensures Evolves(s, Step(s, c))
  {
    hide Valid, Evolves;
    match c
    case OpenApplicationCmd(a, o) => OpenApplicationEvolves(s, a, o);
    case SubmitApplicationCmd(a) => SubmitApplicationEvolves(s, a);
    case CreateCapacityCmd(o, configured, days) => CreateCapacityEvolves(s, o, configured, days);
    case AdjustCapacityCmd(o, expected, configured, days) => AdjustCapacityEvolves(s, o, expected, configured, days);
    case DecideCmd(a, disposition, now, calendar, ids, entryId) => DecideEvolves(s, a, disposition, now, calendar, ids, entryId);
    case PromoteCmd(e, capacityVersion, entryVersion, now, calendar, ids) =>
      PromoteEvolves(s, e, capacityVersion, entryVersion, now, calendar, ids);
    case RespondCmd(a, expected, response, authorized, now) => RespondEvolves(s, a, expected, response, authorized, now);
    case ReopenCmd(a, expected, capacityVersion, now, calendar, ids) =>
      ReopenEvolves(s, if a in s.applications then s.applications[a].status else Draft, a, expected, capacityVersion, now, calendar, ids);
    case ExpireCmd(v, now) => ExpireEvolves(s, v, now);
    case WithdrawCmd(a, confirmed, now) => WithdrawEvolves(s, a, confirmed, now);
  }

  lemma OpenApplicationEvolves(s: Rows, a: Id, o: Id)
    requires Valid(s)
    ensures Evolves(s, OpenApplication(s, a, o).After(s))
  {
    hide BookValid, Placed, EntriesLinked, WithdrawalsQuiescent, SeatsWithinCapacity;
    OutsideBookEvolves(s, OpenApplication(s, a, o).After(s));
  }

  lemma SubmitApplicationEvolves(s: Rows, a: Id)
    requires Valid(s)
    ensures Evolves(s, SubmitApplication(s, a).After(s))
  {
    hide BookValid, Placed, EntriesLinked, WithdrawalsQuiescent, SeatsWithinCapacity;
    OutsideBookEvolves(s, SubmitApplication(s, a).After(s));
  }

  /** Any later point of a run has evolved from any earlier one. */
  lemma {:induction false} RunEvolves(s: Rows, commands: seq<Command>)
    requires Valid(s)
    ensures Evolves(s, Run(s, commands))
    decreases commands
  {
    if commands == [] {
      EvolvesReflexive(s);
    } else {
      hide Valid, Evolves;
      StepKeepsValid(s, commands[0]);
      StepEvolves(s, commands[0]);
      RunEvolves(Step(s, commands[0]), commands[1..]);
      EvolvesTransitive(s, Step(s, commands[0]), Run(s, commands));
    }
  }
}
