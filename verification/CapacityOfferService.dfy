/**
  The service itself: an object whose fields are the tables and whose methods
  update them row by row. Each method is tied to the transition of the same name
  in AdmissionRows; what the transitions keep is proved in SeatTransactions and
  SeatTheorems. A transaction that throws is rolled back, so the methods resolve
  everything that may throw before they write. On rows that satisfy the invariant
  every method keeps it, together with what a caller relies on; on any other rows
  the methods still do what their transition says.
*/
module CapacityOfferService {
  import opened Wrappers
  import opened AdmissionRows
  import opened SeatInvariants
  import opened SeatRuns
  import opened SeatTheorems
  import SeatTransactions
  import SeatEffects

  /**
    What a caller may rely on from valid rows: the invariant, rows that only move
    forward, seats within every capacity, and withdrawn applications that hold nothing.
  */
  ghost predicate KeepsRows(s: Rows, t: Rows) {
    Valid(s) ==>
      && Valid(t) && Evolves(s, t)
      && (forall c :: c in t.capacities ==> ConsumedSeats(t, c) <= t.capacities[c].configured)
      && (forall a :: a in s.withdrawals ==> a in t.withdrawals && Quiescent(t.book, t.entries, a))
  }

  /** From valid rows, what an answer in time to the open version leaves. */
  ghost predicate Answered(s: Rows, t: Rows, a: Id, v: Id, response: Response, authorized: bool, now: Instant) {
    Valid(s) && SeatEffects.Open(s.book, a, v) && now < s.book.versions[v].expiresAt ==>
      && v in t.book.versions
      && var r := s.book.versions[v].reservationId;
      && r in s.book.reservations && r in t.book.reservations
      && var o := s.book.reservations[r].capacityId;
      && (response == Decline ==>
          && t.book.versions[v].lifecycle == Declined && t.book.versions[v].terminal == Some(Terminal(now, FamilyDeclined))
          && t.book.reservations[r].state == SeatReleased && t.book.reservations[r].releaseReason == Some(FamilyDeclined)
          && ConsumedSeats(t, o) == ConsumedSeats(s, o) - 1)
      && (response == Accept && authorized ==>
          && t.book.versions[v].lifecycle == Accepted && t.book.versions[v].terminal == Some(Terminal(now, FamilyAccepted))
          && t.book.reservations[r].state == SeatCommitted
          && a in t.book.acceptances && t.book.acceptances[a] == Acceptance(v, r, now)
          && ConsumedSeats(t, o) == ConsumedSeats(s, o))
      && (response == Accept && !authorized ==> t == s)
  }

  lemma AnswerTakesEffect(s: Rows, a: Id, v: Id, response: Response, authorized: bool, now: Instant)
    ensures Answered(s, Respond(s, a, v, response, authorized, now).After(s), a, v, response, authorized, now)
  {
    hide Valid, Respond, ConsumedSeats;
    if Valid(s) && SeatEffects.Open(s.book, a, v) && now < s.book.versions[v].expiresAt {
      SeatEffects.OpenVersionHasSeat(s, a, v);
      if response == Decline {
        SeatEffects.DeclineExactly(s, a, v, authorized, now);
      } else {
        SeatEffects.AcceptExactly(s, a, v, authorized, now);
      }
    }
  }

  lemma ValidRowsKeep(s: Rows, t: Rows)
    requires Valid(s) ==> Valid(t) && Evolves(s, t)
    ensures KeepsRows(s, t)
  {
  }

  lemma InvalidRowsKeepNothing(s: Rows, t: Rows)
    requires !Valid(s)
    ensures KeepsRows(s, t)
  {
    hide Valid;
  }

  lemma TransactionKeeps(s: Rows, command: Command)
    ensures KeepsRows(s, Execute(s, command).After(s))
  {
    hide Valid, Evolves, Execute;
    if Valid(s) {
      StepKeepsValid(s, command);
      StepEvolves(s, command);
    }
    ValidRowsKeep(s, Execute(s, command).After(s));
  }

  /** A reopen keeps what a caller relies on if the status it observed is current, and else exactly as its condition says. */
  lemma ReopenKeeps(
    s: Rows, observed: ApplicationStatus, a: Id, expected: Id, capacityVersion: int, now: Instant,
    calendar: Option<DeadlineRule>, ids: FreshIds)
    ensures var t := ReopenObserving(s, observed, a, expected, capacityVersion, now, calendar, ids).After(s);
            && (a in s.applications && observed == s.applications[a].status ==> KeepsRows(s, t))
            && (Valid(s) ==>
                Evolves(s, t)
                && (Valid(t) <==> !ReopensWithdrawn(s, ObservedReopen(observed, a, expected, capacityVersion, now, calendar, ids))))
  {
    hide Valid, Evolves, KeepsRows, ReopenObserving;
    TransactionKeeps(s, ReopenCmd(a, expected, capacityVersion, now, calendar, ids));
    if Valid(s) {
      ReopenEvolves(s, observed, a, expected, capacityVersion, now, calendar, ids);
      ObservedStepKeepsValid(s, ObservedReopen(observed, a, expected, capacityVersion, now, calendar, ids));
    }
  }

  lemma LeavingIsRecorded(s: Rows, a: Id, record: Withdrawal)
    requires a in s.applications
    requires record.offerVersionId.Some? ==> record.offerVersionId.value in s.book.versions
    requires record.entryId.Some? ==> record.entryId.value in s.entries
    ensures var t := LeaveWith(s, a, record);
            a in t.withdrawals && a in t.applications && t.applications[a].status == Withdrawn
  {
  }

  lemma NoOtherSeat(b: Book, a: Id)
    ensures BookValid(b) && a !in b.offers ==> forall r :: r in b.reservations ==> b.reservations[r].applicationId != a
  {
    hide BookValid;
    if BookValid(b) && a !in b.offers {
      SeatTransactions.NoOfferNoSeat(b, a);
    }
  }

  class Service {
    var offerings: set<Id>
    var applications: map<Id, Application>
    var finalDecisions: set<Id>
    var capacities: map<Id, Capacity>
    var ledger: map<Id, seq<Adjustment>>
    var reservations: map<Id, Reservation>
    var offers: map<Id, Offer>
    var versions: map<Id, OfferVersion>
    var acceptances: map<Id, Acceptance>
    var jobs: map<Id, Schedule>
    var entries: map<Id, WaitlistEntry>
    var withdrawals: map<Id, Withdrawal>

    function Tables(): Rows
      reads this
    {
      Rows(offerings, applications, finalDecisions, capacities, ledger,
           Book(reservations, offers, versions, acceptances, jobs), entries, withdrawals)
    }

    constructor (offerings: set<Id>)
      ensures Tables() == NoRows(offerings)
    {
      this.offerings := offerings;
      applications, finalDecisions, capacities, ledger := map[], {}, map[], map[];
      reservations, offers, versions, acceptances, jobs := map[], map[], map[], map[], map[];
      entries, withdrawals := map[], map[];
    }

    /** The tables are as the transition leaves them and the caller learns why nothing changed. */
    ghost predicate Follows(outcome: Outcome, before: Rows, failure: Option<Code>)
      reads this
    {
      && Tables() == outcome.After(before)
      && failure == if outcome.Commit? then None else Some(outcome.code)
    }

    ghost predicate Keeps(before: Rows)
      reads this
    {
      KeepsRows(before, Tables())
    }

    method BumpCapacity(c: Id)
      modifies this`capacities
      ensures capacities == Bump(old(capacities), c)
    {
      if c in capacities {
        var capacity := capacities[c];
        capacities := capacities[c := capacity.(version := capacity.version + 1)];
      }
    }

    method ReleaseReservation(r: Id, reason: TerminalReason) returns (released: bool)
      modifies this`reservations, this`capacities
      ensures Tables() == ReleaseSeat(old(Tables()), r, reason)
      ensures released <==> r in old(reservations) && old(reservations)[r].state == SeatActive
    {
      if r !in reservations || reservations[r].state != SeatActive {
        return false;
      }
      reservations := reservations[r := reservations[r].(state := SeatReleased, releaseReason := Some(reason))];
      BumpCapacity(reservations[r].capacityId);
      return true;
    }

    method InsertIssue(n: Issued)
      modifies this`reservations, this`offers, this`versions, this`capacities, this`jobs
      ensures Tables() == Issue(old(Tables()), n)
    {
      var a, r, v := n.applicationId, n.ids.reservationId, n.ids.versionId;
      reservations := reservations[r := Reservation(n.offer.offeringId, a, SeatActive, None)];
      versions := versions[v := OfferVersion(a, r, n.number, n.previous, n.offer.origin, n.issuedAt, n.schedule.expiresAt, Active, None)];
      offers := offers[a := n.offer.(currentVersionId := v)];
      BumpCapacity(n.offer.offeringId);
      jobs := jobs[v := n.schedule];
    }

    method IssueFirstVersion(
      a: Id, offeringId: Id, expectedCapacityVersion: Option<int>, origin: Origin, issuedAt: Instant,
      calendar: Option<DeadlineRule>, ids: FreshIds) returns (failure: Option<Code>)
      modifies this`reservations, this`offers, this`versions, this`capacities, this`jobs
      ensures Follows(ReserveAndIssue(old(Tables()), a, offeringId, expectedCapacityVersion, origin, issuedAt, calendar, ids), old(Tables()), failure)
    {
      if offeringId !in capacities {
        return Some(CapacityNotConfigured);
      }
      var capacity := capacities[offeringId];
      if expectedCapacityVersion.Some? && capacity.version != expectedCapacityVersion.value {
        return Some(CapacityVersionChanged);
      }
      if exists r :: r in reservations && reservations[r].applicationId == a && Consuming(reservations[r]) {
        return Some(ReservationAlreadyExists);
      }
      if |ConsumingSeats(reservations, offeringId)| >= capacity.configured {
        return Some(NoAdmissionSeatAvailable);
      }
      if a in offers {
        return Some(ReservationAlreadyExists);
      }
      if !InsertsCleanly(Tables(), a, offeringId, ids) {
        return Some(ConstraintViolation);
      }
      var resolved := ResolveSchedule(calendar, issuedAt, capacity.validityDays);
      if resolved.Err? {
        return Some(resolved.error);
      }
      InsertIssue(Issued(a, Offer(offeringId, origin, ids.versionId, 1), 1, None, issuedAt, resolved.value, ids));
      return None;
    }

    method CreateCapacity(offeringId: Id, configured: int, validityDays: Option<int>) returns (failure: Option<Code>)
      modifies this`capacities, this`ledger
      ensures Follows(AdmissionRows.CreateCapacity(old(Tables()), offeringId, configured, validityDays), old(Tables()), failure)
      ensures Keeps(old(Tables()))
    {
      hide KeepsRows;
      TransactionKeeps(Tables(), CreateCapacityCmd(offeringId, configured, validityDays));
      var days := match validityDays case Some(d) => d case None => DEFAULT_OFFER_VALIDITY_BUSINESS_DAYS;
      if configured < 0 || !ValidBusinessDays(days) {
        return Some(InvalidInput);
      }
      if offeringId !in offerings {
        return Some(NotFound);
      }
      if offeringId in capacities {
        return Some(CapacityAlreadyConfigured);
      }
      capacities := capacities[offeringId := Capacity(configured, days, 1)];
      ledger := ledger[offeringId := []];
      return None;
    }

    method AdjustCapacity(offeringId: Id, expectedVersion: int, configured: int, validityDays: Option<int>)
      returns (failure: Option<Code>)
      modifies this`capacities, this`ledger
      ensures Follows(AdmissionRows.AdjustCapacity(old(Tables()), offeringId, expectedVersion, configured, validityDays), old(Tables()), failure)
      ensures Keeps(old(Tables()))
    {
      hide KeepsRows;
      TransactionKeeps(Tables(), AdjustCapacityCmd(offeringId, expectedVersion, configured, validityDays));
      if configured < 0 || expectedVersion < 1 || (validityDays.Some? && !ValidBusinessDays(validityDays.value)) {
        return Some(InvalidInput);
      }
      if offeringId !in offerings {
        return Some(NotFound);
      }
      if offeringId !in capacities || offeringId !in ledger {
        return Some(CapacityNotConfigured);
      }
      var capacity := capacities[offeringId];
      if capacity.version != expectedVersion {
        return Some(CapacityVersionChanged);
      }
      if configured < |ConsumingSeats(reservations, offeringId)| {
        return Some(CapacityBelowConsumedSeats);
      }
      var days := match validityDays case Some(d) => d case None => capacity.validityDays;
      if capacity.configured == configured && capacity.validityDays == days {
        return None;
      }
      ledger := ledger[offeringId := ledger[offeringId] + [Adjustment(capacity.configured, configured)]];
      capacities := capacities[offeringId := Capacity(configured, days, capacity.version + 1)];
      return None;
    }

    method ApplyDirectionDisposition(
      a: Id, disposition: Disposition, occurredAt: Instant, calendar: Option<DeadlineRule>, ids: FreshIds, entryId: Id)
      returns (failure: Option<Code>)
      modifies this
      ensures Follows(Decide(old(Tables()), a, disposition, occurredAt, calendar, ids, entryId), old(Tables()), failure)
      ensures Keeps(old(Tables()))
    {
      hide KeepsRows;
      TransactionKeeps(Tables(), DecideCmd(a, disposition, occurredAt, calendar, ids, entryId));
      if a !in applications {
        return Some(NotFound);
      }
      if applications[a].status != Submitted {
        return Some(NotSubmitted);
      }
      if a in finalDecisions {
        return Some(DecisionAlreadyFinal);
      }
      if disposition == DevueltoARevision {
        return None;
      }
      var decisions := finalDecisions;
      finalDecisions := finalDecisions + {a};
      if disposition == Aprobado {
        failure := IssueFirstVersion(a, applications[a].offeringId, None, Normal, occurredAt, calendar, ids);
        if failure.Some? {
          finalDecisions := decisions;
        }
      } else if disposition == ListaDeEspera {
        if entryId in entries {
          finalDecisions := decisions;
          return Some(ConstraintViolation);
        }
        entries := entries[entryId := WaitlistEntry(a, applications[a].offeringId, occurredAt, EntryActive, 1, None)];
        return None;
      } else {
        return None;
      }
    }

    /** The first ACTIVE entry of an offering in (enteredAt, id) order. */
    method FirstActiveEntry(offeringId: Id) returns (first: Option<Id>)
      ensures first.Some? ==> FirstInLine(entries, offeringId, first.value)
      ensures first.None? ==> forall e :: e in entries ==> !Waiting(entries, offeringId, e)
    {
      first := None;
      var pending := entries.Keys;
      while pending != {}
        invariant pending <= entries.Keys
        invariant first.Some? ==> Waiting(entries, offeringId, first.value)
        invariant forall e :: e in entries && e !in pending && Waiting(entries, offeringId, e) ==>
                                first.Some? && (e == first.value || Before(entries, first.value, e))
        decreases pending
      {
        var e := Pick(pending);
        if Waiting(entries, offeringId, e) && (first.None? || Before(entries, e, first.value)) {
          first := Some(e);
        }
        pending := pending - {e};
      }
    }

    method PromoteWaitlistEntry(
      e: Id, expectedCapacityVersion: int, expectedEntryVersion: int, now: Instant,
      calendar: Option<DeadlineRule>, ids: FreshIds) returns (failure: Option<Code>)
      modifies this
      ensures Follows(Promote(old(Tables()), e, expectedCapacityVersion, expectedEntryVersion, now, calendar, ids), old(Tables()), failure)
      ensures Keeps(old(Tables()))
    {
      hide KeepsRows;
      TransactionKeeps(Tables(), PromoteCmd(e, expectedCapacityVersion, expectedEntryVersion, now, calendar, ids));
      if expectedCapacityVersion < 1 || expectedEntryVersion < 1 {
        return Some(InvalidInput);
      }
      if e !in entries || entries[e].offeringId !in offerings {
        return Some(NotFound);
      }
      var entry := entries[e];
      if entry.version != expectedEntryVersion {
        return Some(WaitlistEntryVersionChanged);
      }
      if entry.state != EntryActive {
        return Some(WaitlistEntryNotActive);
      }
      if entry.applicationId !in applications {
        return Some(NotFound);
      }
      if applications[entry.applicationId].status == Withdrawn {
        return Some(ApplicationIsWithdrawn);
      }
      var first := FirstActiveEntry(entry.offeringId);
      if first != Some(e) {
        return Some(WaitlistEntryNotFirst);
      }
      failure := IssueFirstVersion(entry.applicationId, entry.offeringId, Some(expectedCapacityVersion), Waitlist, now, calendar, ids);
      if failure.None? {
        entries := entries[e := entry.(state := EntryPromoted, version := entry.version + 1, promotedAt := Some(now))];
      }
    }

    method WriteAcceptance(a: Id, v: Id, now: Instant)
      requires v in versions && versions[v].reservationId in reservations
      modifies this`versions, this`acceptances, this`reservations, this`capacities
      ensures var closed := CloseVersion(old(Tables()), v, Accepted, Terminal(now, FamilyAccepted));
              var recorded := closed.book.acceptances[a := Acceptance(v, old(versions)[v].reservationId, now)];
              Tables() == CommitSeat(closed.(book := closed.book.(acceptances := recorded)), old(versions)[v].reservationId)
    {
      var r := versions[v].reservationId;
      versions := versions[v := versions[v].(lifecycle := Accepted, terminal := Some(Terminal(now, FamilyAccepted)))];
      acceptances := acceptances[a := Acceptance(v, r, now)];
      reservations := reservations[r := reservations[r].(state := SeatCommitted)];
      BumpCapacity(reservations[r].capacityId);
    }

    method RespondToOffer(a: Id, expectedVersionId: Id, response: Response, authorized: bool, now: Instant)
      returns (failure: Option<Code>)
      modifies this
      ensures Follows(Respond(old(Tables()), a, expectedVersionId, response, authorized, now), old(Tables()), failure)
      ensures Keeps(old(Tables()))
      ensures Answered(old(Tables()), Tables(), a, expectedVersionId, response, authorized, now)
    {
      hide KeepsRows, Answered;
      TransactionKeeps(Tables(), RespondCmd(a, expectedVersionId, response, authorized, now));
      AnswerTakesEffect(Tables(), a, expectedVersionId, response, authorized, now);
      if a !in offers || a !in applications {
        return Some(NotFound);
      }
      var v := offers[a].currentVersionId;
      if v !in versions {
        return Some(CurrentVersionMissing);
      }
      if v != expectedVersionId {
        return Some(OfferVersionChanged);
      }
      var current := versions[v];
      if response == Accept && a in acceptances && acceptances[a].versionId == v {
        return None;
      }
      if response == Decline && current.lifecycle == Declined && current.terminal.Some?
         && current.terminal.value.reason == FamilyDeclined {
        return None;
      }
      if applications[a].status == Withdrawn {
        return Some(ApplicationIsWithdrawn);
      }
      if current.lifecycle != Active {
        return Some(OfferNotActive);
      }
      if current.expiresAt <= now {
        return Some(OfferExpired);
      }
      var r := current.reservationId;
      if r !in reservations || reservations[r].state != SeatActive {
        return Some(OfferNotActive);
      }
      if response == Accept {
        if !authorized {
          return Some(AuthorityDenied);
        }
        WriteAcceptance(a, v, now);
      } else {
        versions := versions[v := current.(lifecycle := Declined, terminal := Some(Terminal(now, FamilyDeclined)))];
        var released := ReleaseReservation(r, FamilyDeclined);
      }
      return None;
    }

    method ReopenOffer(
      a: Id, observed: ApplicationStatus, expectedVersionId: Id, expectedCapacityVersion: int, now: Instant,
      calendar: Option<DeadlineRule>, ids: FreshIds) returns (failure: Option<Code>)
      modifies this
      ensures Follows(ReopenObserving(old(Tables()), observed, a, expectedVersionId, expectedCapacityVersion, now, calendar, ids),
                      old(Tables()), failure)
      ensures a in old(applications) && observed == old(applications)[a].status ==> Keeps(old(Tables()))
      ensures old(Valid(Tables())) ==>
                Evolves(old(Tables()), Tables())
                && (Valid(Tables()) <==>
                    !ReopensWithdrawn(old(Tables()), ObservedReopen(observed, a, expectedVersionId, expectedCapacityVersion, now, calendar, ids)))
    {
      hide KeepsRows, Valid, Evolves, ReopensWithdrawn;
      ReopenKeeps(Tables(), observed, a, expectedVersionId, expectedCapacityVersion, now, calendar, ids);
      if expectedCapacityVersion < 1 {
        return Some(InvalidInput);
      }
      if a !in offers || a !in applications {
        return Some(NotFound);
      }
      var offer := offers[a];
      if offer.currentVersionId != expectedVersionId {
        return Some(OfferVersionChanged);
      }
      if expectedVersionId !in versions {
        return Some(CurrentVersionMissing);
      }
      var previous := versions[expectedVersionId];
      if a in acceptances || previous.lifecycle == Accepted {
        return Some(OfferAlreadyAccepted);
      }
      if previous.lifecycle != Expired {
        return Some(OfferNotExpired);
      }
      if observed == Withdrawn {
        return Some(ApplicationIsWithdrawn);
      }
      var offeringId := applications[a].offeringId;
      if offeringId !in capacities {
        return Some(CapacityNotConfigured);
      }
      if capacities[offeringId].version != expectedCapacityVersion {
        return Some(CapacityVersionChanged);
      }
      if |ConsumingSeats(reservations, offeringId)| >= capacities[offeringId].configured {
        return Some(NoAdmissionSeatAvailable);
      }
      if !InsertsCleanly(Tables(), a, offer.offeringId, ids) {
        return Some(ConstraintViolation);
      }
      var resolved := ResolveSchedule(calendar, now, capacities[offeringId].validityDays);
      if resolved.Err? {
        return Some(resolved.error);
      }
      InsertIssue(Issued(a, offer.(version := offer.version + 1), previous.number + 1, Some(expectedVersionId),
                         now, resolved.value, ids));
      return None;
    }

    method ExpireOfferVersion(v: Id, now: Instant) returns (verdict: ExpiryVerdict, failure: Option<Code>)
      modifies this`versions, this`reservations, this`capacities
      ensures Follows(Expire(old(Tables()), v, now), old(Tables()), failure)
      ensures verdict == ExpireVerdict(old(Tables()), v, now)
      ensures Keeps(old(Tables()))
    {
      hide KeepsRows;
      TransactionKeeps(Tables(), ExpireCmd(v, now));
      if v !in versions {
        return NoopStale, None;
      }
      var version := versions[v];
      if version.applicationId !in offers || offers[version.applicationId].currentVersionId != v {
        return NoopStale, None;
      }
      if version.lifecycle != Active {
        return NoopTerminal, None;
      }
      if version.expiresAt > now {
        return NoopNotDue, None;
      }
      if version.reservationId !in reservations {
        return VersionExpired, Some(ReservationMissing);
      }
      versions := versions[v := version.(lifecycle := Expired, terminal := Some(Terminal(now, DeadlineExpired)))];
      var released := ReleaseReservation(version.reservationId, DeadlineExpired);
      return VersionExpired, None;
    }

    method FindActiveEntry(a: Id) returns (found: Option<Id>)
      ensures found.Some? ==> found.value in entries && entries[found.value].applicationId == a && entries[found.value].state == EntryActive
      ensures found.None? ==> forall e :: e in entries && entries[e].applicationId == a ==> entries[e].state != EntryActive
      ensures EntriesLinked(Tables()) ==> found == ActiveEntryOf(Tables(), a)
    {
      if exists e :: e in entries && entries[e].applicationId == a && entries[e].state == EntryActive {
        var e :| e in entries && entries[e].applicationId == a && entries[e].state == EntryActive;
        return Some(e);
      }
      return None;
    }

    /** The reservation a withdrawal releases: that of the current version, or any ACTIVE one of the application. */
    method FindSeatToRelease(a: Id) returns (found: Option<Id>)
      ensures BookValid(Tables().book) ==> found == SeatToRelease(Tables(), a)
    {
      found := None;
      if a in offers && offers[a].currentVersionId in versions {
        var r := versions[offers[a].currentVersionId].reservationId;
        if r in reservations {
          found := Some(r);
        }
      }
      if found.None? {
        if exists r :: r in reservations && reservations[r].applicationId == a && reservations[r].state == SeatActive {
          var r :| r in reservations && reservations[r].applicationId == a && reservations[r].state == SeatActive;
          found := Some(r);
        }
        NoOtherSeat(Tables().book, a);
      }
    }

    method WriteWithdrawal(a: Id, record: Withdrawal)
      requires a in applications
      requires record.offerVersionId.Some? ==> record.offerVersionId.value in versions
      requires record.entryId.Some? ==> record.entryId.value in entries
      modifies this
      ensures Tables() == LeaveWith(old(Tables()), a, record)
    {
      var current := record.offerVersionId;
      if current.Some? && versions[current.value].lifecycle == Active {
        var version := versions[current.value];
        versions := versions[current.value :=
          version.(lifecycle := Declined, terminal := Some(Terminal(record.confirmedAt, ApplicationWithdrawn)))];
      }
      if record.reservationId.Some? {
        var released := ReleaseReservation(record.reservationId.value, ApplicationWithdrawn);
      }
      if record.entryId.Some? {
        var left := entries[record.entryId.value];
        entries := entries[record.entryId.value := left.(state := EntryWithdrawn, version := left.version + 1)];
      }
      withdrawals := withdrawals[a := record];
      applications := applications[a := applications[a].(status := Withdrawn)];
    }

    method WithdrawApplication(a: Id, confirmed: bool, now: Instant) returns (failure: Option<Code>)
      modifies this
      ensures old(Valid(Tables())) ==> Follows(Withdraw(old(Tables()), a, confirmed, now), old(Tables()), failure)
      ensures Keeps(old(Tables()))
      ensures failure.Some? ==> Tables() == old(Tables())
      ensures failure.None? ==> a in withdrawals && (a !in old(withdrawals) ==> a in applications && applications[a].status == Withdrawn)
    {
      hide BookValid, Placed, EntriesLinked, DecisionsLinked, WithdrawalsQuiescent, SeatsWithinCapacity, CapacitiesInRange;
      hide LeaveWith, ActiveEntryOf, SeatToRelease, KeepsRows;
      TransactionKeeps(Tables(), WithdrawCmd(a, confirmed, now));
      if !confirmed {
        return Some(ConfirmationRequired);
      }
      if a !in applications {
        return Some(NotFound);
      }
      if a in withdrawals {
        return None;
      }
      if applications[a].status != Submitted {
        return Some(ApplicationIsWithdrawn);
      }
      var current := CurrentVersionOf(Tables(), a);
      if current.Some? && versions[current.value].lifecycle == Accepted {
        return Some(OfferAlreadyAccepted);
      }
      var entry := FindActiveEntry(a);
      var seat := FindSeatToRelease(a);
      ghost var record := Withdrawal(now, current, seat, entry);
      LeavingIsRecorded(Tables(), a, record);
      WriteWithdrawal(a, Withdrawal(now, current, seat, entry));
      if !old(Valid(Tables())) {
        InvalidRowsKeepNothing(old(Tables()), Tables());
      }
      return None;
    }
  }
}
