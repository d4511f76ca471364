/**
  What each transaction of the seat allocator does on valid rows, field by field:
  exactly when it commits, and every row it then changes.
*/
module SeatEffects {
  import opened Wrappers
  import opened AdmissionRows
  import opened SeatInvariants
  import SeatTransactions

  // ---- Capacity ---------------------------------------------------------------------

  /** A capacity is created exactly for a known offering without one, from a non-negative number and 1 to 30 days. */
  lemma CreateCapacityExactly(s: Rows, o: Id, configured: int, validityDays: Option<int>)
    requires Valid(s)
    ensures var days := if validityDays.Some? then validityDays.value else 3;
            var outcome := CreateCapacity(s, o, configured, validityDays);
            && (outcome.Commit? <==> configured >= 0 && 1 <= days <= 30 && o in s.offerings && o !in s.capacities)
            && (outcome.Commit? ==>
                outcome.rows == s.(capacities := s.capacities[o := Capacity(configured, days, 1)], ledger := s.ledger[o := []])
                && ConsumedSeats(outcome.rows, o) == 0)
  {
    hide EntriesLinked, WithdrawalsQuiescent, BookValid;
    if o !in s.capacities {
      forall r | r in s.book.reservations ensures s.book.reservations[r].capacityId != o {
        assert s.book.reservations[r].capacityId in s.capacities.Keys;
      }
      assert ConsumingSeats(s.book.reservations, o) == {};
    }
  }

  /**
    An adjustment is accepted exactly if it names the current version and does not go
    below the consumed seats; one that changes something is numbered and recorded.
  */
  lemma AdjustCapacityExactly(s: Rows, o: Id, expected: int, configured: int, validityDays: Option<int>)
    requires Valid(s)
    ensures var outcome := AdjustCapacity(s, o, expected, configured, validityDays);
            && (outcome.Commit? <==>
                configured >= 0 && (validityDays.Some? ==> 1 <= validityDays.value <= 30)
                && o in s.capacities && s.capacities[o].version == expected && ConsumedSeats(s, o) <= configured)
            && (outcome.Commit? ==>
                var before := s.capacities[o];
                var days := if validityDays.Some? then validityDays.value else before.validityDays;
                outcome.rows == if configured == before.configured && days == before.validityDays then s
                else s.(capacities := s.capacities[o := Capacity(configured, days, before.version + 1)],
                     ledger := s.ledger[o := s.ledger[o] + [Adjustment(before.configured, configured)]]))
  {
    hide EntriesLinked, WithdrawalsQuiescent, BookValid;
  }

  // ---- Issuing ----------------------------------------------------------------------------

  /** The calendar gives a deadline after the instant of issue. */
  predicate Schedules(calendar: Option<DeadlineRule>, issuedAt: Instant, days: int, schedule: Schedule) {
    calendar.Some? && calendar.value(issuedAt, days) == Some(schedule) && issuedAt < schedule.expiresAt
  }

  /** The rows with one more offer version, its seat and its job, on the next version of the capacity. */
  function WithVersion(
    s: Rows, a: Id, o: Id, ids: FreshIds, number: int, previous: Option<Id>, origin: Origin, offerVersion: int,
    issuedAt: Instant, schedule: Schedule): Rows
    requires o in s.capacities
  {
    s.(book := s.book.(
       reservations := s.book.reservations[ids.reservationId := Reservation(o, a, SeatActive, None)],
       versions := s.book.versions[ids.versionId :=
         OfferVersion(a, ids.reservationId, number, previous, origin, issuedAt, schedule.expiresAt, Active, None)],
       offers := s.book.offers[a := Offer(o, origin, ids.versionId, offerVersion)],
       jobs := s.book.jobs[ids.versionId := schedule]),
    capacities := s.capacities[o :=
      Capacity(s.capacities[o].configured, s.capacities[o].validityDays, s.capacities[o].version + 1)])
  }

  predicate Unused(s: Rows, ids: FreshIds) {
    ids.reservationId !in s.book.reservations && ids.versionId !in s.book.versions
  }

  predicate SeatFree(s: Rows, o: Id) {
    o in s.capacities && ConsumedSeats(s, o) < s.capacities[o].configured
  }

  lemma OneMoreSeat(
    s: Rows, a: Id, o: Id, ids: FreshIds, number: int, previous: Option<Id>, origin: Origin, offerVersion: int,
    issuedAt: Instant, schedule: Schedule)
    requires o in s.capacities && Unused(s, ids)
    ensures ConsumedSeats(WithVersion(s, a, o, ids, number, previous, origin, offerVersion, issuedAt, schedule), o) == ConsumedSeats(s, o) + 1
  {
    var t := WithVersion(s, a, o, ids, number, previous, origin, offerVersion, issuedAt, schedule);
    assert ConsumingSeats(t.book.reservations, o) == ConsumingSeats(s.book.reservations, o) + {ids.reservationId};
  }

  lemma NoOfferHoldsNothing(s: Rows, a: Id)
    requires Valid(s) && a !in s.book.offers
    ensures !HoldsSeat(s, a)
  {
    hide EntriesLinked, WithdrawalsQuiescent, Placed, DecisionsLinked, BookValid;
    SeatTransactions.NoOfferNoSeat(s.book, a);
  }

  lemma ResolvesExactly(calendar: Option<DeadlineRule>, issuedAt: Instant, days: int)
    ensures forall schedule :: ResolveSchedule(calendar, issuedAt, days) == Ok(schedule) <==> Schedules(calendar, issuedAt, days, schedule)
  {
  }

  /** A first version for an application without an offer, whatever the origin. */
  lemma FirstVersionExactly(
    s: Rows, a: Id, o: Id, expected: Option<int>, origin: Origin, now: Instant, calendar: Option<DeadlineRule>, ids: FreshIds)
    requires Valid(s) && a in s.applications && s.applications[a].offeringId == o && a !in s.book.offers
    ensures var outcome := ReserveAndIssue(s, a, o, expected, origin, now, calendar, ids);
            && (outcome.Commit? <==>
                && SeatFree(s, o) && Unused(s, ids)
                && (expected.Some? ==> s.capacities[o].version == expected.value)
                && exists schedule :: Schedules(calendar, now, s.capacities[o].validityDays, schedule))
            && (outcome.Commit? ==>
                exists schedule :: Schedules(calendar, now, s.capacities[o].validityDays, schedule)
                                   && outcome.rows == WithVersion(s, a, o, ids, 1, None, origin, 1, now, schedule))
  {
    NoOfferHoldsNothing(s, a);
    hide Valid, HoldsSeat, ConsumedSeats;
    if o in s.capacities {
      var resolved := ResolveSchedule(calendar, now, s.capacities[o].validityDays);
      ResolvesExactly(calendar, now, s.capacities[o].validityDays);
      if resolved.Ok? {
        assert Schedules(calendar, now, s.capacities[o].validityDays, resolved.value);
      }
    }
  }

  lemma UndecidedHasNoOffer(s: Rows, a: Id)
    requires Valid(s) && a in s.applications && a !in s.finalDecisions
    ensures a !in s.book.offers
    ensures s.applications[a].status == Submitted ==> Valid(s.(finalDecisions := s.finalDecisions + {a}))
  {
    hide BookValid, Placed, SeatsWithinCapacity, CapacitiesInRange, Quiescent;
    if s.applications[a].status == Submitted {
      SeatTransactions.FinalDecisionKeepsValid(s, a);
    }
  }

  predicate Undecided(s: Rows, a: Id) {
    a in s.applications && s.applications[a].status == Submitted && a !in s.finalDecisions
  }

  /**
    An approval offers a seat exactly to a submitted, undecided application whose
    offering has one free, if the calendar schedules the offer.
  */
  lemma ApprovalExactly(
    s: Rows, a: Id, now: Instant, calendar: Option<DeadlineRule>, ids: FreshIds, entryId: Id)
    requires Valid(s)
    ensures var outcome := Decide(s, a, Aprobado, now, calendar, ids, entryId);
            && (outcome.Commit? <==>
                && Undecided(s, a) && SeatFree(s, s.applications[a].offeringId) && Unused(s, ids)
                && exists schedule :: Schedules(calendar, now, s.capacities[s.applications[a].offeringId].validityDays, schedule))
            && (outcome.Commit? ==>
                var o := s.applications[a].offeringId;
                exists schedule ::
                  && Schedules(calendar, now, s.capacities[o].validityDays, schedule)
                  && outcome.rows == WithVersion(s, a, o, ids, 1, None, Normal, 1, now, schedule).(finalDecisions := s.finalDecisions + {a})
                  && ConsumedSeats(outcome.rows, o) == ConsumedSeats(s, o) + 1)
  {
    hide Valid, ReserveAndIssue, Schedules;
    if Undecided(s, a) {
      var o := s.applications[a].offeringId;
      var decided := s.(finalDecisions := s.finalDecisions + {a});
      UndecidedHasNoOffer(s, a);
      FirstVersionExactly(decided, a, o, None, Normal, now, calendar, ids);
      assert ConsumedSeats(decided, o) == ConsumedSeats(s, o);
      var outcome := Decide(s, a, Aprobado, now, calendar, ids, entryId);
      if outcome.Commit? {
        var schedule :| Schedules(calendar, now, s.capacities[o].validityDays, schedule)
                        && outcome.rows == WithVersion(decided, a, o, ids, 1, None, Normal, 1, now, schedule);
        OneMoreSeat(s, a, o, ids, 1, None, Normal, 1, now, schedule);
        assert outcome.rows == WithVersion(s, a, o, ids, 1, None, Normal, 1, now, schedule).(finalDecisions := s.finalDecisions + {a});
      }
    }
  }

  /** The other dispositions: a place in the line, a mere decision, or nothing. */
  lemma OtherDispositionsExactly(
    s: Rows, a: Id, disposition: Disposition, now: Instant, calendar: Option<DeadlineRule>, ids: FreshIds, entryId: Id)
    requires disposition != Aprobado
    ensures var outcome := Decide(s, a, disposition, now, calendar, ids, entryId);
            && (outcome.Commit? <==> Undecided(s, a) && (disposition == ListaDeEspera ==> entryId !in s.entries))
            && (outcome.Commit? ==>
                && (disposition == DevueltoARevision ==> outcome.rows == s)
                && (disposition == Rechazado ==> outcome.rows == s.(finalDecisions := s.finalDecisions + {a}))
                && (disposition == ListaDeEspera ==>
                    outcome.rows == s.(
                      finalDecisions := s.finalDecisions + {a},
                      entries := s.entries[entryId := WaitlistEntry(a, s.applications[a].offeringId, now, EntryActive, 1, None)])))
  {
  }

  /** The entry waits, and every other one waiting for its offering entered later, or at once with a greater id. */
  predicate EnteredFirst(entries: map<Id, WaitlistEntry>, e: Id) {
    && e in entries && entries[e].state == EntryActive
    && forall d :: d in entries && d != e && entries[d].state == EntryActive && entries[d].offeringId == entries[e].offeringId ==>
         entries[e].enteredAt < entries[d].enteredAt || (entries[e].enteredAt == entries[d].enteredAt && e < d)
  }

  lemma FirstInLineEnteredFirst(entries: map<Id, WaitlistEntry>, e: Id)
    requires e in entries
    ensures FirstInLine(entries, entries[e].offeringId, e) <==> EnteredFirst(entries, e)
  {
    if FirstInLine(entries, entries[e].offeringId, e) {
      forall d | d in entries && d != e && entries[d].state == EntryActive && entries[d].offeringId == entries[e].offeringId
        ensures entries[e].enteredAt < entries[d].enteredAt || (entries[e].enteredAt == entries[d].enteredAt && e < d)
      {
        assert Waiting(entries, entries[e].offeringId, d);
      }
    }
  }

  /**
    An entry is promoted exactly if it entered first of those that wait, both versions
    are the expected ones, a seat is free, and the calendar schedules the offer; it
    then has an offer from the waitlist and has left the line.
  */
  lemma PromotionExactly(
    s: Rows, e: Id, capacityVersion: int, entryVersion: int, now: Instant, calendar: Option<DeadlineRule>, ids: FreshIds)
    requires Valid(s)
    ensures var outcome := Promote(s, e, capacityVersion, entryVersion, now, calendar, ids);
            && (outcome.Commit? <==>
                && EnteredFirst(s.entries, e) && s.entries[e].version == entryVersion && entryVersion >= 1
                && SeatFree(s, s.entries[e].offeringId) && s.capacities[s.entries[e].offeringId].version == capacityVersion
                && Unused(s, ids)
                && exists schedule :: Schedules(calendar, now, s.capacities[s.entries[e].offeringId].validityDays, schedule))
            && (outcome.Commit? ==>
                var entry := s.entries[e];
                exists schedule ::
                  && Schedules(calendar, now, s.capacities[entry.offeringId].validityDays, schedule)
                  && outcome.rows
                     == WithVersion(s, entry.applicationId, entry.offeringId, ids, 1, None, Waitlist, 1, now, schedule)
                        .(entries := s.entries[e :=
                            WaitlistEntry(entry.applicationId, entry.offeringId, entry.enteredAt, EntryPromoted, entryVersion + 1, Some(now))])
                  && ConsumedSeats(outcome.rows, entry.offeringId) == ConsumedSeats(s, entry.offeringId) + 1)
  {
    hide ReserveAndIssue, Schedules, FirstInLine, EnteredFirst, ConsumedSeats, ResolveSchedule;
    if e in s.entries {
      FirstInLineEnteredFirst(s.entries, e);
    }
    FirstIsActive(s.entries, e);
    if e in s.entries && s.entries[e].state == EntryActive {
      WaitingMayBeOffered(s, e);
      hide Valid;
      var entry := s.entries[e];
      FirstVersionExactly(s, entry.applicationId, entry.offeringId, Some(capacityVersion), Waitlist, now, calendar, ids);
      var outcome := Promote(s, e, capacityVersion, entryVersion, now, calendar, ids);
      if outcome.Commit? {
        var issued := ReserveAndIssue(s, entry.applicationId, entry.offeringId, Some(capacityVersion), Waitlist, now, calendar, ids);
        var schedule :| Schedules(calendar, now, s.capacities[entry.offeringId].validityDays, schedule)
                        && issued.rows == WithVersion(s, entry.applicationId, entry.offeringId, ids, 1, None, Waitlist, 1, now, schedule);
        OneMoreSeat(s, entry.applicationId, entry.offeringId, ids, 1, None, Waitlist, 1, now, schedule);
        var after := WithVersion(s, entry.applicationId, entry.offeringId, ids, 1, None, Waitlist, 1, now, schedule);
        assert issued.rows == after && after.entries == s.entries;
        assert outcome.rows == after.(entries := s.entries[e :=
          WaitlistEntry(entry.applicationId, entry.offeringId, entry.enteredAt, EntryPromoted, entryVersion + 1, Some(now))]);
        assert ConsumedSeats(outcome.rows, entry.offeringId) == ConsumedSeats(s, entry.offeringId) + 1 by {
          assert outcome.rows.book == after.book;
          SameBookSameSeats(outcome.rows, after, entry.offeringId);
        }
      }
    }
  }

  lemma SameBookSameSeats(s: Rows, t: Rows, o: Id)
    requires s.book == t.book
    ensures ConsumedSeats(s, o) == ConsumedSeats(t, o)
  {
  }

  lemma FirstIsActive(entries: map<Id, WaitlistEntry>, e: Id)
    ensures EnteredFirst(entries, e) ==> e in entries && entries[e].state == EntryActive
  {
  }

  /** An entry that waits is of a known application that is neither withdrawn nor offered a seat. */
  lemma WaitingMayBeOffered(s: Rows, e: Id)
    requires Valid(s) && e in s.entries && s.entries[e].state == EntryActive
    ensures var a, o := s.entries[e].applicationId, s.entries[e].offeringId;
            && a in s.applications && s.applications[a].offeringId == o && s.applications[a].status != Withdrawn
            && a !in s.book.offers && o in s.offerings
    ensures forall c :: c in s.capacities ==> s.capacities[c].version >= 1
  {
    hide BookValid, Placed, SeatsWithinCapacity;
    var a := s.entries[e].applicationId;
    if s.applications[a].status == Withdrawn {
      assert false;
    }
  }

  /**
    An offer is reopened exactly if its current version is the expected one and has
    expired, the application is not withdrawn, a seat is free on the expected version
    of the capacity, and the calendar schedules it; the new version follows the old.
  */
  lemma ReopeningExactly(
    s: Rows, a: Id, expected: Id, capacityVersion: int, now: Instant, calendar: Option<DeadlineRule>, ids: FreshIds)
    requires Valid(s)
    ensures var outcome := Reopen(s, a, expected, capacityVersion, now, calendar, ids);
            && (outcome.Commit? <==>
                && a in s.book.offers && s.book.offers[a].currentVersionId == expected && expected in s.book.versions
                && s.book.versions[expected].lifecycle == Expired && s.applications[a].status != Withdrawn
                && SeatFree(s, s.applications[a].offeringId) && s.capacities[s.applications[a].offeringId].version == capacityVersion
                && Unused(s, ids)
                && exists schedule :: Schedules(calendar, now, s.capacities[s.applications[a].offeringId].validityDays, schedule))
            && (outcome.Commit? ==>
                var o, offer := s.applications[a].offeringId, s.book.offers[a];
                exists schedule ::
                  && Schedules(calendar, now, s.capacities[o].validityDays, schedule)
                  && outcome.rows == WithVersion(s, a, o, ids, s.book.versions[expected].number + 1, Some(expected), offer.origin,
                                                 offer.version + 1, now, schedule)
                  && ConsumedSeats(outcome.rows, o) == ConsumedSeats(s, o) + 1)
  {
    hide Schedules, ConsumedSeats, SeatsWithinCapacity, EntriesLinked, WithdrawalsQuiescent, SeatsOwnedOnce, LockStep, LinksBack,
    NumbersDistinct, CurrentIsLast, JobsExact;
    if a in s.book.offers && a in s.applications && s.applications[a].offeringId in s.capacities {
      var o, offer := s.applications[a].offeringId, s.book.offers[a];
      assert offer.offeringId == o && s.capacities[o].version >= 1;
      var resolved := ResolveSchedule(calendar, now, s.capacities[o].validityDays);
      ResolvesExactly(calendar, now, s.capacities[o].validityDays);
      if resolved.Ok? {
        assert Schedules(calendar, now, s.capacities[o].validityDays, resolved.value);
        var number := if expected in s.book.versions then s.book.versions[expected].number + 1 else 0;
        if Unused(s, ids) {
          OneMoreSeat(s, a, o, ids, number, Some(expected), offer.origin, offer.version + 1, now, resolved.value);
        }
      }
    }
  }

  // ---- Answering, expiring ---------------------------------------------------------------------

  /** The current version of the offer is this one, and it is open. */
  predicate Open(b: Book, a: Id, v: Id) {
    && a in b.offers && b.offers[a].currentVersionId == v
    && v in b.versions && b.versions[v].lifecycle == Active
  }

  /** The rows with the open version closed for a reason and its seat free again, on the next version of the capacity. */
  function WithSeatFreed(s: Rows, v: Id, lifecycle: Lifecycle, now: Instant, reason: TerminalReason): Rows
    requires v in s.book.versions && s.book.versions[v].reservationId in s.book.reservations
    requires s.book.reservations[s.book.versions[v].reservationId].capacityId in s.capacities
  {
    var version := s.book.versions[v];
    var seat := s.book.reservations[version.reservationId];
    var capacity := s.capacities[seat.capacityId];
    s.(book := s.book.(
       versions := s.book.versions[v := version.(lifecycle := lifecycle, terminal := Some(Terminal(now, reason)))],
       reservations := s.book.reservations[version.reservationId :=
         Reservation(seat.capacityId, seat.applicationId, SeatReleased, Some(reason))]),
    capacities := s.capacities[seat.capacityId := Capacity(capacity.configured, capacity.validityDays, capacity.version + 1)])
  }

  /** An open version has an ACTIVE seat at the capacity of the application, which is not withdrawn. */
  lemma OpenVersionHasSeat(s: Rows, a: Id, v: Id)
    requires Valid(s) && Open(s.book, a, v)
    ensures a in s.applications && s.applications[a].status != Withdrawn && a !in s.book.acceptances
    ensures s.book.versions[v].reservationId in s.book.reservations && s.book.versions[v].applicationId == a
    ensures var seat := s.book.reservations[s.book.versions[v].reservationId];
            seat.state == SeatActive && seat.applicationId == a && seat.capacityId in s.capacities
            && seat.capacityId == s.applications[a].offeringId
  {
    hide EntriesLinked, SeatsWithinCapacity, SeatsOwnedOnce, LinksBack, NumbersDistinct, CurrentIsLast, JobsExact;
    if s.applications[a].status == Withdrawn {
      assert false;
    }
  }

  lemma OneSeatLess(s: Rows, v: Id, lifecycle: Lifecycle, now: Instant, reason: TerminalReason)
    requires v in s.book.versions && s.book.versions[v].reservationId in s.book.reservations
    requires var seat := s.book.reservations[s.book.versions[v].reservationId];
             seat.capacityId in s.capacities && seat.state == SeatActive
    ensures var o := s.book.reservations[s.book.versions[v].reservationId].capacityId;
            ConsumedSeats(WithSeatFreed(s, v, lifecycle, now, reason), o) == ConsumedSeats(s, o) - 1
  {
    var r := s.book.versions[v].reservationId;
    var o := s.book.reservations[r].capacityId;
    var t := WithSeatFreed(s, v, lifecycle, now, reason);
    assert ConsumingSeats(t.book.reservations, o) == ConsumingSeats(s.book.reservations, o) - {r};
  }

  /**
    A decline takes effect exactly on the open current version before its deadline: the
    version is DECLINED by the family, its seat is free and counts no more. A decline
    that commits otherwise repeats an earlier one and changes nothing.
  */
  lemma DeclineExactly(s: Rows, a: Id, v: Id, authorized: bool, now: Instant)
    requires Valid(s)
    ensures var outcome := Respond(s, a, v, Decline, authorized, now);
            && (outcome.Commit? <==>
                || (Open(s.book, a, v) && now < s.book.versions[v].expiresAt)
                || DeclinedByFamily(s.book, a, v))
            && (DeclinedByFamily(s.book, a, v) ==> outcome == Commit(s))
            && (Open(s.book, a, v) && now < s.book.versions[v].expiresAt ==>
                var version := s.book.versions[v];
                && version.reservationId in s.book.reservations
                && var seat := s.book.reservations[version.reservationId];
                && seat.applicationId == a && seat.state == SeatActive && seat.capacityId in s.capacities
                && var capacity := s.capacities[seat.capacityId];
                && outcome == Commit(s.(
                   book := s.book.(
                     versions := s.book.versions[v := version.(lifecycle := Declined, terminal := Some(Terminal(now, FamilyDeclined)))],
                     reservations := s.book.reservations[version.reservationId :=
                       seat.(state := SeatReleased, releaseReason := Some(FamilyDeclined))]),
                   capacities := s.capacities[seat.capacityId :=
                     Capacity(capacity.configured, capacity.validityDays, capacity.version + 1)]))
                && ConsumedSeats(outcome.rows, seat.capacityId) == ConsumedSeats(s, seat.capacityId) - 1)
  {
    if Open(s.book, a, v) {
      OpenVersionHasSeat(s, a, v);
      OneSeatLess(s, v, Declined, now, FamilyDeclined);
    } else if a in s.book.offers {
      CurrentVersionIsThere(s, a);
    }
    hide Valid, ConsumedSeats;
  }

  /** The current version was declined by the family before. */
  predicate DeclinedByFamily(b: Book, a: Id, v: Id) {
    && a in b.offers && b.offers[a].currentVersionId == v && v in b.versions
    && b.versions[v].lifecycle == Declined
    && b.versions[v].terminal.Some? && b.versions[v].terminal.value.reason == FamilyDeclined
  }

  lemma CurrentVersionIsThere(s: Rows, a: Id)
    requires Valid(s) && a in s.book.offers
    ensures a in s.applications && s.book.offers[a].currentVersionId in s.book.versions
  {
    hide EntriesLinked, SeatsWithinCapacity, WithdrawalsQuiescent;
  }

  /**
    An acceptance takes effect exactly on the open current version before its deadline
    with the authority's leave: the version is ACCEPTED, the record is made, the seat
    is committed and still counts.
  */
  lemma AcceptExactly(s: Rows, a: Id, v: Id, authorized: bool, now: Instant)
    requires Valid(s)
    ensures var outcome := Respond(s, a, v, Accept, authorized, now);
            && (outcome.Commit? <==>
                || (Open(s.book, a, v) && now < s.book.versions[v].expiresAt && authorized)
                || (a in s.book.acceptances && s.book.acceptances[a].versionId == v))
            && (a in s.book.acceptances && s.book.acceptances[a].versionId == v ==> outcome == Commit(s))
            && (Open(s.book, a, v) && now < s.book.versions[v].expiresAt && authorized ==>
                var version := s.book.versions[v];
                && version.reservationId in s.book.reservations
                && var seat := s.book.reservations[version.reservationId];
                && seat.capacityId in s.capacities
                && var capacity := s.capacities[seat.capacityId];
                && outcome == Commit(s.(
                   book := s.book.(
                     versions := s.book.versions[v := version.(lifecycle := Accepted, terminal := Some(Terminal(now, FamilyAccepted)))],
                     acceptances := s.book.acceptances[a := Acceptance(v, version.reservationId, now)],
                     reservations := s.book.reservations[version.reservationId := seat.(state := SeatCommitted)]),
                   capacities := s.capacities[seat.capacityId :=
                     Capacity(capacity.configured, capacity.validityDays, capacity.version + 1)]))
                && ConsumedSeats(outcome.rows, seat.capacityId) == ConsumedSeats(s, seat.capacityId))
  {
    if Open(s.book, a, v) {
      OpenVersionHasSeat(s, a, v);
      if now < s.book.versions[v].expiresAt && authorized {
        var t := Respond(s, a, v, Accept, authorized, now).After(s);
        var o := s.book.reservations[s.book.versions[v].reservationId].capacityId;
        assert ConsumingSeats(t.book.reservations, o) == ConsumingSeats(s.book.reservations, o);
      }
    } else if a in s.book.offers {
      CurrentVersionIsThere(s, a);
    }
    if a in s.book.acceptances {
      AcceptedIsCurrent(s, a);
    }
    hide Valid;
  }

  lemma AcceptedIsCurrent(s: Rows, a: Id)
    requires Valid(s) && a in s.book.acceptances
    ensures a in s.applications && a in s.book.offers && s.book.acceptances[a].versionId == s.book.offers[a].currentVersionId
    ensures s.book.offers[a].currentVersionId in s.book.versions
    ensures s.book.versions[s.book.offers[a].currentVersionId].lifecycle == Accepted
  {
    hide EntriesLinked, SeatsWithinCapacity, WithdrawalsQuiescent;
  }

  /**
    An expiry always commits; it takes effect exactly on an open version at or after
    its deadline, which it expires, freeing the seat, and otherwise changes nothing.
  */
  lemma ExpiryExactly(s: Rows, v: Id, now: Instant)
    requires Valid(s)
    ensures var due := v in s.book.versions && s.book.versions[v].lifecycle == Active && s.book.versions[v].expiresAt <= now;
            && (!due ==> Expire(s, v, now) == Commit(s))
            && (due ==>
                && s.book.versions[v].reservationId in s.book.reservations
                && var seat := s.book.reservations[s.book.versions[v].reservationId];
                && seat.capacityId in s.capacities
                && Expire(s, v, now) == Commit(WithSeatFreed(s, v, Expired, now, DeadlineExpired))
                && ConsumedSeats(Expire(s, v, now).rows, seat.capacityId) == ConsumedSeats(s, seat.capacityId) - 1)
  {
    if v in s.book.versions && s.book.versions[v].lifecycle == Active {
      ActiveIsOpen(s, v);
      OpenVersionHasSeat(s, s.book.versions[v].applicationId, v);
      OneSeatLess(s, v, Expired, now, DeadlineExpired);
    }
    hide Valid, ConsumedSeats;
  }

  /** The verdict an expiry reports: expired now, not due yet, closed before, or superseded. */
  lemma VerdictExactly(s: Rows, v: Id, now: Instant)
    requires Valid(s)
    ensures var verdict := ExpireVerdict(s, v, now);
            if v !in s.book.versions then verdict == NoopStale
            else
              var version := s.book.versions[v];
              && (verdict == VersionExpired <==> version.lifecycle == Active && version.expiresAt <= now)
              && (verdict == NoopNotDue <==> version.lifecycle == Active && now < version.expiresAt)
              && (verdict == NoopStale <==> exists w :: Supersedes(s.book, w, v))
              && (verdict == NoopTerminal <==> version.lifecycle != Active && forall w :: !Supersedes(s.book, w, v))
  {
    hide EntriesLinked, SeatsWithinCapacity, WithdrawalsQuiescent, LinksBack, JobsExact, AcceptancesExact, SeatsOwnedOnce;
    if v in s.book.versions {
      var current := s.book.offers[s.book.versions[v].applicationId].currentVersionId;
      assert IsCurrent(s.book, current) && s.book.versions[v].number <= s.book.versions[current].number;
      if current != v {
        assert Supersedes(s.book, current, v);
      }
    }
  }

  /** A later version of the same offer. */
  predicate Supersedes(b: Book, w: Id, v: Id)
    requires v in b.versions
  {
    w in b.versions && b.versions[w].applicationId == b.versions[v].applicationId && b.versions[w].number > b.versions[v].number
  }

  /** Why an answer is refused: too late, closed or not the current version, or an acceptance without authority. */
  lemma RefusedAnswers(s: Rows, a: Id, v: Id, response: Response, authorized: bool, now: Instant)
    requires Valid(s) && Respond(s, a, v, response, authorized, now).Abort?
    ensures var code := Respond(s, a, v, response, authorized, now).code;
            && (code == NotFound <==> a !in s.book.offers)
            && (code == OfferVersionChanged <==> a in s.book.offers && s.book.offers[a].currentVersionId != v)
            && (code == OfferExpired <==> Open(s.book, a, v) && s.book.versions[v].expiresAt <= now)
            && (code == AuthorityDenied <==>
                Open(s.book, a, v) && now < s.book.versions[v].expiresAt && response == Accept && !authorized)
            && (a in s.book.offers && s.book.offers[a].currentVersionId == v && !Open(s.book, a, v) ==>
                code in {OfferNotActive, ApplicationIsWithdrawn}
                && (code == ApplicationIsWithdrawn <==> a in s.applications && s.applications[a].status == Withdrawn))
  {
    if Open(s.book, a, v) {
      OpenVersionHasSeat(s, a, v);
    } else if a in s.book.offers {
      CurrentVersionIsThere(s, a);
    }
    hide Valid;
  }

  lemma ActiveIsOpen(s: Rows, v: Id)
    requires Valid(s) && v in s.book.versions && s.book.versions[v].lifecycle == Active
    ensures Open(s.book, s.book.versions[v].applicationId, v)
  {
    hide EntriesLinked, SeatsWithinCapacity, WithdrawalsQuiescent;
    assert IsCurrent(s.book, v);
  }

  // ---- Withdrawal ---------------------------------------------------------------------------------

  predicate MayWithdraw(s: Rows, a: Id, confirmed: bool) {
    confirmed && a in s.applications && a !in s.withdrawals && s.applications[a].status == Submitted && a !in s.book.acceptances
  }

  lemma WithdrawalChoices(s: Rows, a: Id, now: Instant)
    requires Valid(s) && MayWithdraw(s, a, true)
    ensures var outcome := Withdraw(s, a, true, now);
            && outcome.Commit? && a in outcome.rows.withdrawals
            && var record := outcome.rows.withdrawals[a];
            && (record.offerVersionId.Some? ==> record.offerVersionId.value in s.book.versions)
            && (record.entryId.Some? ==> record.entryId.value in s.entries)
            && record == Withdrawal(now, CurrentVersionOf(s, a), SeatToRelease(s, a), ActiveEntryOf(s, a))
            && outcome.rows == LeaveWith(s, a, record)
  {
    if a in s.book.offers {
      CurrentVersionIsThere(s, a);
      AcceptedHasRecord(s, a);
    }
    hide Valid;
  }

  lemma AcceptedHasRecord(s: Rows, a: Id)
    requires Valid(s) && a in s.book.offers && a !in s.book.acceptances
    ensures s.book.offers[a].currentVersionId in s.book.versions
    ensures s.book.versions[s.book.offers[a].currentVersionId].lifecycle != Accepted
  {
    hide EntriesLinked, SeatsWithinCapacity, WithdrawalsQuiescent;
  }

  /** The rows an application leaves when it withdraws while its version is open: the offer goes and the seat is free. */
  lemma OpenOfferIsLetGo(s: Rows, a: Id, v: Id, now: Instant)
    requires Valid(s) && MayWithdraw(s, a, true) && Open(s.book, a, v)
    ensures s.book.versions[v].reservationId in s.book.reservations
    ensures s.book.reservations[s.book.versions[v].reservationId].capacityId in s.capacities
    ensures Withdraw(s, a, true, now)
            == Commit(WithSeatFreed(s, v, Declined, now, ApplicationWithdrawn).(
                      applications := s.applications[a := Application(s.applications[a].offeringId, Withdrawn)],
                      withdrawals := s.withdrawals[a := Withdrawal(now, Some(v), Some(s.book.versions[v].reservationId), None)]))
  {
    OpenVersionHasSeat(s, a, v);
    WithdrawalChoices(s, a, now);
    OfferedDoesNotWait(s, a);
    hide Valid, Withdraw;
    assert CurrentVersionOf(s, a) == Some(v);
    assert SeatToRelease(s, a) == Some(s.book.versions[v].reservationId);
    assert ActiveEntryOf(s, a) == None;
    hide SeatToRelease, ActiveEntryOf, CurrentVersionOf;
  }

  lemma OfferedDoesNotWait(s: Rows, a: Id)
    requires Valid(s) && a in s.book.offers
    ensures forall e :: e in s.entries && s.entries[e].applicationId == a ==> s.entries[e].state != EntryActive
  {
    hide BookValid, Placed, SeatsWithinCapacity, WithdrawalsQuiescent;
  }

  /** Without an open offer only the place in the line is given up; a closed offer is named in the record. */
  lemma NothingElseIsLetGo(s: Rows, a: Id, now: Instant)
    requires Valid(s) && MayWithdraw(s, a, true)
    requires a in s.book.offers ==> !Open(s.book, a, s.book.offers[a].currentVersionId)
    ensures var outcome := Withdraw(s, a, true, now);
            && outcome.Commit? && a in outcome.rows.withdrawals
            && var record := outcome.rows.withdrawals[a];
            && record.confirmedAt == now
            && (a in s.book.offers ==>
                && s.book.offers[a].currentVersionId in s.book.versions
                && record.offerVersionId == Some(s.book.offers[a].currentVersionId)
                && record.reservationId == Some(s.book.versions[s.book.offers[a].currentVersionId].reservationId)
                && record.entryId == None)
            && (a !in s.book.offers ==> record.offerVersionId == None && record.reservationId == None)
            && (record.entryId.Some? ==> record.entryId.value in s.entries && s.entries[record.entryId.value].applicationId == a
                                         && s.entries[record.entryId.value].state == EntryActive)
            && (record.entryId.None? ==>
                forall e :: e in s.entries && s.entries[e].applicationId == a ==> s.entries[e].state != EntryActive)
            && outcome.rows == s.(
               applications := s.applications[a := Application(s.applications[a].offeringId, Withdrawn)],
               withdrawals := s.withdrawals[a := record],
               entries := if record.entryId.None? then s.entries
               else var entry := s.entries[record.entryId.value];
               s.entries[record.entryId.value := entry.(state := EntryWithdrawn, version := entry.version + 1)])
  {
    WithdrawalChoices(s, a, now);
    if a in s.book.offers {
      CurrentVersionIsThere(s, a);
      AcceptedHasRecord(s, a);
      OfferedDoesNotWait(s, a);
      ClosedVersionHasNoSeat(s, a);
    } else {
      SeatTransactions.NoOfferNoSeat(s.book, a);
    }
    hide Valid, Withdraw;
  }

  lemma ClosedVersionHasNoSeat(s: Rows, a: Id)
    requires Valid(s) && a in s.book.offers && !Open(s.book, a, s.book.offers[a].currentVersionId) && a !in s.book.acceptances
    ensures var v := s.book.offers[a].currentVersionId;
            v in s.book.versions && s.book.versions[v].reservationId in s.book.reservations
            && s.book.reservations[s.book.versions[v].reservationId].state == SeatReleased
  {
    hide EntriesLinked, SeatsWithinCapacity, WithdrawalsQuiescent, Placed;
    AcceptedHasRecord(s, a);
  }

  /** A withdrawal commits exactly if it is confirmed and either recorded before or of a submitted application not yet accepted. */
  lemma WithdrawalExactly(s: Rows, a: Id, confirmed: bool, now: Instant)
    requires Valid(s)
    ensures Withdraw(s, a, confirmed, now).Commit? <==> MayWithdraw(s, a, confirmed) || (confirmed && a in s.withdrawals)
    ensures confirmed && a in s.withdrawals ==> Withdraw(s, a, confirmed, now) == Commit(s)
  {
    if MayWithdraw(s, a, confirmed) {
      WithdrawalChoices(s, a, now);
    }
    if a in s.book.acceptances {
      AcceptedIsCurrent(s, a);
    }
    RecordsHaveApplications(s, a);
    hide Valid;
  }

  lemma RecordsHaveApplications(s: Rows, a: Id)
    requires Valid(s)
    ensures a in s.withdrawals ==> a in s.applications
  {
    hide BookValid, EntriesLinked;
  }

  // ---- Refusals --------------------------------------------------------------------------------------

  /** Why an otherwise well-formed adjustment is refused. */
  lemma RefusedAdjustments(s: Rows, o: Id, expected: int, configured: int, validityDays: Option<int>)
    requires Valid(s) && o in s.capacities && configured >= 0 && expected >= 1
    requires validityDays.Some? ==> 1 <= validityDays.value <= 30
    ensures var outcome := AdjustCapacity(s, o, expected, configured, validityDays);
            && (outcome == Abort(CapacityVersionChanged) <==> s.capacities[o].version != expected)
            && (outcome == Abort(CapacityBelowConsumedSeats) <==> s.capacities[o].version == expected && configured < ConsumedSeats(s, o))
  {
    hide EntriesLinked, WithdrawalsQuiescent, BookValid;
  }

  /** Why an approval offers no seat: no capacity, or none free. */
  lemma RefusedApprovals(
    s: Rows, a: Id, now: Instant, calendar: Option<DeadlineRule>, ids: FreshIds, entryId: Id)
    requires Valid(s) && Undecided(s, a)
    ensures var outcome, o := Decide(s, a, Aprobado, now, calendar, ids, entryId), s.applications[a].offeringId;
            && (outcome == Abort(CapacityNotConfigured) <==> o !in s.capacities)
            && (outcome == Abort(NoAdmissionSeatAvailable) <==> o in s.capacities && !SeatFree(s, o))
  {
    var decided := s.(finalDecisions := s.finalDecisions + {a});
    UndecidedHasNoOffer(s, a);
    NoOfferHoldsNothing(decided, a);
    hide Valid, HoldsSeat;
    assert ConsumedSeats(decided, s.applications[a].offeringId) == ConsumedSeats(s, s.applications[a].offeringId);
    hide ConsumedSeats;
  }

  /** Why the expected version of an entry is not promoted. */
  lemma RefusedPromotions(
    s: Rows, e: Id, capacityVersion: int, now: Instant, calendar: Option<DeadlineRule>, ids: FreshIds)
    requires Valid(s) && e in s.entries && s.entries[e].state == EntryActive && s.entries[e].version >= 1 && capacityVersion >= 1
    ensures var outcome, o := Promote(s, e, capacityVersion, s.entries[e].version, now, calendar, ids), s.entries[e].offeringId;
            && (outcome == Abort(WaitlistEntryNotFirst) <==> !EnteredFirst(s.entries, e))
            && (EnteredFirst(s.entries, e) && o in s.capacities ==>
                && (outcome == Abort(CapacityVersionChanged) <==> s.capacities[o].version != capacityVersion)
                && (outcome == Abort(NoAdmissionSeatAvailable) <==> s.capacities[o].version == capacityVersion && !SeatFree(s, o)))
  {
    WaitingMayBeOffered(s, e);
    FirstInLineEnteredFirst(s.entries, e);
    NoOfferHoldsNothing(s, s.entries[e].applicationId);
    hide Valid, HoldsSeat, FirstInLine, EnteredFirst, ConsumedSeats;
  }

  /** Why the expected version of an offer is not reopened. */
  lemma RefusedReopenings(s: Rows, a: Id, capacityVersion: int, now: Instant, calendar: Option<DeadlineRule>, ids: FreshIds)
    requires Valid(s) && a in s.book.offers && capacityVersion >= 1
    requires a in s.applications && s.applications[a].offeringId in s.capacities && s.book.offers[a].currentVersionId in s.book.versions
    ensures var v, capacity := s.book.offers[a].currentVersionId, s.capacities[s.applications[a].offeringId];
            var outcome, expired := Reopen(s, a, v, capacityVersion, now, calendar, ids), s.book.versions[v].lifecycle == Expired;
            var reopens := expired && s.applications[a].status != Withdrawn;
            && (outcome == Abort(OfferAlreadyAccepted) <==> s.book.versions[v].lifecycle == Accepted)
            && (outcome == Abort(OfferNotExpired) <==> s.book.versions[v].lifecycle in {Active, Declined})
            && (outcome == Abort(ApplicationIsWithdrawn) <==> expired && s.applications[a].status == Withdrawn)
            && (outcome == Abort(CapacityVersionChanged) <==> reopens && capacity.version != capacityVersion)
            && (outcome == Abort(NoAdmissionSeatAvailable) <==>
                reopens && capacity.version == capacityVersion && !SeatFree(s, s.applications[a].offeringId))
  {
    if a in s.book.acceptances {
      AcceptedIsCurrent(s, a);
    }
    hide Valid, ConsumedSeats;
  }
}
