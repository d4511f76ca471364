/**
  Every transaction keeps Valid, and so does every run of transactions from the
  empty tables.
*/
module SeatTransactions {
  import opened Wrappers
  import opened AdmissionRows
  import opened SeatInvariants

  // ---- Rows around the offer book ------------------------------------------------

  lemma PromoteEntryKeepsValid(s: Rows, e: Id, now: Instant)
    requires Valid(s) && e in s.entries
    ensures Valid(PromoteEntry(s, e, now))
  {
    var t := PromoteEntry(s, e, now);
    forall a | a in t.withdrawals ensures Quiescent(t.book, t.entries, a) {
      assert Quiescent(s.book, s.entries, a);
    }
  }

  lemma WithdrawEntryKeepsValid(s: Rows, entry: Option<Id>)
    requires Valid(s) && (entry.Some? ==> entry.value in s.entries)
    ensures Valid(WithdrawEntry(s, entry))
  {
    var t := WithdrawEntry(s, entry);
    forall a | a in t.withdrawals ensures Quiescent(t.book, t.entries, a) {
      assert Quiescent(s.book, s.entries, a);
    }
  }

  /** Once the current version is closed and the entry left, nothing of the application is alive. */
  lemma ClosedOfferIsQuiescent(s: Rows, a: Id)
    requires BookValid(s.book)
    requires a in s.book.offers ==> s.book.versions[s.book.offers[a].currentVersionId].lifecycle in {Declined, Expired}
    requires forall e :: e in s.entries && s.entries[e].applicationId == a ==> s.entries[e].state != EntryActive
    ensures Quiescent(s.book, s.entries, a)
  {
    var b := s.book;
    forall v | v in b.versions && b.versions[v].applicationId == a ensures b.versions[v].lifecycle in {Declined, Expired} {
      assert IsCurrent(b, v) || b.versions[v].lifecycle == Expired;
    }
    forall r | r in b.reservations && b.reservations[r].applicationId == a ensures b.reservations[r].state == SeatReleased {
      var v :| OwnedBy(b, r, v);
    }
  }

  function LeaveApplication(s: Rows, a: Id, record: Withdrawal): Rows
    requires a in s.applications
  {
    s.(withdrawals := s.withdrawals[a := record],
    applications := s.applications[a := s.applications[a].(status := Withdrawn)])
  }

  lemma LeaveApplicationKeepsValid(s: Rows, a: Id, record: Withdrawal)
    requires Valid(s) && a in s.applications && Quiescent(s.book, s.entries, a)
    ensures Valid(LeaveApplication(s, a, record))
  {
    hide BookValid, Quiescent, SeatsWithinCapacity, CapacitiesInRange;
  }

  lemma CreateCapacityKeepsValid(s: Rows, offeringId: Id, configured: int, validityDays: Option<int>)
    requires Valid(s)
    ensures Valid(CreateCapacity(s, offeringId, configured, validityDays).After(s))
  {
    hide BookValid, Quiescent;
    if offeringId !in s.capacities {
      forall r | r in s.book.reservations ensures s.book.reservations[r].capacityId != offeringId {
      }
      assert ConsumingSeats(s.book.reservations, offeringId) == {};
    }
  }

  lemma AdjustCapacityKeepsValid(s: Rows, offeringId: Id, expectedVersion: int, configured: int, validityDays: Option<int>)
    requires Valid(s)
    ensures Valid(AdjustCapacity(s, offeringId, expectedVersion, configured, validityDays).After(s))
  {
    hide BookValid;
    var t := AdjustCapacity(s, offeringId, expectedVersion, configured, validityDays).After(s);
    assert t.capacities.Keys == s.capacities.Keys;
  }

  lemma OpenApplicationKeepsValid(s: Rows, a: Id, offeringId: Id)
    requires Valid(s)
    ensures Valid(OpenApplication(s, a, offeringId).After(s))
  {
    hide BookValid, Quiescent, SeatsWithinCapacity, CapacitiesInRange;
  }

  lemma SubmitApplicationKeepsValid(s: Rows, a: Id)
    requires Valid(s)
    ensures Valid(SubmitApplication(s, a).After(s))
  {
    hide BookValid, Quiescent, SeatsWithinCapacity, CapacitiesInRange;
  }

  // ---- Transactions --------------------------------------------------------------

  lemma ReserveAndIssueKeepsValid(
    s: Rows, a: Id, offeringId: Id, expected: Option<int>, origin: Origin, now: Instant,
    calendar: Option<DeadlineRule>, ids: FreshIds)
    requires Valid(s) && a in s.finalDecisions && s.applications[a].status != Withdrawn
    requires forall e :: e in s.entries && s.entries[e].applicationId == a ==> s.entries[e].state != EntryActive
    ensures Valid(ReserveAndIssue(s, a, offeringId, expected, origin, now, calendar, ids).After(s))
  {
    var outcome := ReserveAndIssue(s, a, offeringId, expected, origin, now, calendar, ids);
    if outcome.Commit? {
      var schedule := ResolveSchedule(calendar, now, s.capacities[offeringId].validityDays).value;
      IssueKeepsValid(s, Issued(a, Offer(offeringId, origin, ids.versionId, 1), 1, None, now, schedule, ids));
    }
  }

  lemma FinalDecisionKeepsValid(s: Rows, a: Id)
    requires Valid(s) && a in s.applications && s.applications[a].status == Submitted
    ensures Valid(s.(finalDecisions := s.finalDecisions + {a}))
  {
  }

  lemma EnterWaitlistKeepsValid(s: Rows, a: Id, entryId: Id, now: Instant)
    requires Valid(s) && a in s.applications && s.applications[a].status == Submitted && a in s.finalDecisions
    requires a !in s.book.offers && entryId !in s.entries
    requires forall e :: e in s.entries ==> s.entries[e].applicationId != a
    ensures Valid(s.(entries := s.entries[entryId := WaitlistEntry(a, s.applications[a].offeringId, now, EntryActive, 1, None)]))
  {
    var t := s.(entries := s.entries[entryId := WaitlistEntry(a, s.applications[a].offeringId, now, EntryActive, 1, None)]);
    forall b | b in t.withdrawals ensures Quiescent(t.book, t.entries, b) {
      assert Quiescent(s.book, s.entries, b);
    }
  }

  lemma DecideKeepsValid(
    s: Rows, a: Id, disposition: Disposition, now: Instant, calendar: Option<DeadlineRule>, ids: FreshIds, entryId: Id)
    requires Valid(s)
    ensures Valid(Decide(s, a, disposition, now, calendar, ids, entryId).After(s))
  {
    if Decide(s, a, disposition, now, calendar, ids, entryId).Commit? && disposition != DevueltoARevision {
      var decided := s.(finalDecisions := s.finalDecisions + {a});
      FinalDecisionKeepsValid(s, a);
      if disposition == Aprobado {
        ReserveAndIssueKeepsValid(decided, a, s.applications[a].offeringId, None, Normal, now, calendar, ids);
      } else if disposition == ListaDeEspera {
        EnterWaitlistKeepsValid(decided, a, entryId, now);
      }
    }
  }

  /** Issuing reads no entry, so the entry may as well be promoted first. */
  lemma PromotionCommutes(
    s: Rows, e: Id, a: Id, o: Id, expected: Option<int>, now: Instant, calendar: Option<DeadlineRule>, ids: FreshIds)
    requires e in s.entries
    ensures var first := ReserveAndIssue(PromoteEntry(s, e, now), a, o, expected, Waitlist, now, calendar, ids);
            var second := ReserveAndIssue(s, a, o, expected, Waitlist, now, calendar, ids);
            first == if second.Commit? then Commit(PromoteEntry(second.rows, e, now)) else second
  {
    assert HoldsSeat(s, a) == HoldsSeat(PromoteEntry(s, e, now), a);
  }

  lemma PromoteKeepsValid(
    s: Rows, e: Id, capacityVersion: int, entryVersion: int, now: Instant, calendar: Option<DeadlineRule>, ids: FreshIds)
    requires Valid(s)
    ensures Valid(Promote(s, e, capacityVersion, entryVersion, now, calendar, ids).After(s))
  {
    hide BookValid, Placed, WithdrawalsQuiescent, SeatsWithinCapacity, CapacitiesInRange, ReserveAndIssue;
    if Promote(s, e, capacityVersion, entryVersion, now, calendar, ids).Commit? {
      var a, o := s.entries[e].applicationId, s.entries[e].offeringId;
      PromoteEntryKeepsValid(s, e, now);
      ReserveAndIssueKeepsValid(PromoteEntry(s, e, now), a, o, Some(capacityVersion), Waitlist, now, calendar, ids);
      PromotionCommutes(s, e, a, o, Some(capacityVersion), now, calendar, ids);
    }
  }

  lemma RespondKeepsValid(s: Rows, a: Id, expected: Id, response: Response, authorized: bool, now: Instant)
    requires Valid(s)
    ensures Valid(Respond(s, a, expected, response, authorized, now).After(s))
  {
    var outcome := Respond(s, a, expected, response, authorized, now);
    if outcome.Commit? && outcome.rows != s {
      var reason := if response == Accept then FamilyAccepted else FamilyDeclined;
      var lifecycle := if response == Accept then Accepted else Declined;
      SettleKeepsValid(s, expected, lifecycle, Terminal(now, reason));
      if response == Decline {
        ReleaseIsSettle(s, expected, Declined, Terminal(now, reason));
      }
      assert outcome.rows == Settle(s, expected, lifecycle, Terminal(now, reason));
    }
  }

  lemma ExpiredOfferMayRenew(s: Rows, n: Issued)
    requires Valid(s) && n.applicationId in s.book.offers && Renews(s.book, n)
    requires n.ids.reservationId !in s.book.reservations && n.ids.versionId !in s.book.versions
    requires n.issuedAt < n.schedule.expiresAt
    ensures FreshInBook(s.book, n) && n.applicationId in s.finalDecisions
    ensures forall e :: e in s.entries && s.entries[e].applicationId == n.applicationId ==> s.entries[e].state != EntryActive
  {
  }

  /** Reopening keeps Valid as long as the status it decides on is the one of the rows it writes to. */
  lemma ReopenKeepsValid(
    s: Rows, a: Id, expected: Id, capacityVersion: int, now: Instant, calendar: Option<DeadlineRule>, ids: FreshIds)
    requires Valid(s)
    ensures Valid(Reopen(s, a, expected, capacityVersion, now, calendar, ids).After(s))
  {
    hide BookValid, EntriesLinked, WithdrawalsQuiescent, SeatsWithinCapacity, CapacitiesInRange;
    var outcome := Reopen(s, a, expected, capacityVersion, now, calendar, ids);
    if outcome.Commit? {
      var offer := s.book.offers[a];
      var schedule := ResolveSchedule(calendar, now, s.capacities[offer.offeringId].validityDays).value;
      var n := Issued(a, offer.(version := offer.version + 1), s.book.versions[expected].number + 1, Some(expected),
                      now, schedule, ids);
      ExpiredOfferMayRenew(s, n);
      IssueKeepsValid(s, n);
    }
  }

  lemma ExpireKeepsValid(s: Rows, v: Id, now: Instant)
    requires Valid(s)
    ensures Valid(Expire(s, v, now).After(s))
  {
    if ExpireVerdict(s, v, now) == VersionExpired {
      SettleKeepsValid(s, v, Expired, Terminal(now, DeadlineExpired));
      ReleaseIsSettle(s, v, Expired, Terminal(now, DeadlineExpired));
    }
  }

  lemma NoOfferNoSeat(b: Book, a: Id)
    requires BookValid(b) && a !in b.offers
    ensures forall r :: r in b.reservations ==> b.reservations[r].applicationId != a
  {
    forall r | r in b.reservations ensures b.reservations[r].applicationId != a {
      var v :| OwnedBy(b, r, v);
    }
  }

  /** The rows once the open version is declined and its seat is free. */
  function LetOfferGo(s: Rows, a: Id, now: Instant): Rows
    requires VersionsLinked(s.book)
  {
    var current := CurrentVersionOf(s, a);
    if current.Some? && s.book.versions[current.value].lifecycle == Active
    then Settle(s, current.value, Declined, Terminal(now, ApplicationWithdrawn))
    else s
  }

  lemma LetOfferGoKeepsValid(s: Rows, a: Id, now: Instant)
    requires Valid(s) && (a in s.book.offers ==> s.book.versions[s.book.offers[a].currentVersionId].lifecycle != Accepted)
    ensures var t := LetOfferGo(s, a, now);
            && Valid(t) && t.entries == s.entries && t.applications == s.applications
            && (a in t.book.offers ==> t.book.versions[t.book.offers[a].currentVersionId].lifecycle in {Declined, Expired})
  {
    var current := CurrentVersionOf(s, a);
    if current.Some? && s.book.versions[current.value].lifecycle == Active {
      SettleKeepsValid(s, current.value, Declined, Terminal(now, ApplicationWithdrawn));
    }
  }

  /** Closing the version and then freeing the seat the query finds comes to the same rows. */
  lemma WithdrawalLetsOfferGo(s: Rows, a: Id, now: Instant)
    requires BookValid(s.book)
    ensures var current := CurrentVersionOf(s, a);
            var seat := SeatToRelease(s, a);
            var declined := if current.Some? && s.book.versions[current.value].lifecycle == Active
                            then CloseVersion(s, current.value, Declined, Terminal(now, ApplicationWithdrawn)) else s;
            (current.Some? ==> s.book.versions[current.value].lifecycle != Accepted) ==>
            LetOfferGo(s, a, now) == if seat.Some? then ReleaseSeat(declined, seat.value, ApplicationWithdrawn) else declined
  {
    var current := CurrentVersionOf(s, a);
    if current.None? {
      NoOfferNoSeat(s.book, a);
    } else if s.book.versions[current.value].lifecycle == Active {
      ReleaseIsSettle(s, current.value, Declined, Terminal(now, ApplicationWithdrawn));
    }
  }

  /** The withdrawal in three moves: the offer goes, the line is left, the application is marked. */
  lemma WithdrawInMoves(s: Rows, a: Id, confirmed: bool, now: Instant)
    requires BookValid(s.book) && Withdraw(s, a, confirmed, now).Commit? && a !in s.withdrawals
    ensures var record := Withdrawal(now, CurrentVersionOf(s, a), SeatToRelease(s, a), ActiveEntryOf(s, a));
            && Withdraw(s, a, confirmed, now).rows
               == LeaveApplication(WithdrawEntry(LetOfferGo(s, a, now), ActiveEntryOf(s, a)), a, record)
            && a in s.applications && s.applications[a].status == Submitted
            && (a in s.book.offers ==> s.book.versions[s.book.offers[a].currentVersionId].lifecycle != Accepted)
  {
    WithdrawalLetsOfferGo(s, a, now);
  }

  lemma LeaveLine(s: Rows, t: Rows, a: Id)
    requires Valid(s) && Valid(t) && t.entries == s.entries
    requires a in t.book.offers ==> t.book.versions[t.book.offers[a].currentVersionId].lifecycle in {Declined, Expired}
    ensures var left := WithdrawEntry(t, ActiveEntryOf(s, a));
            Valid(left) && Quiescent(left.book, left.entries, a) && left.applications == t.applications
  {
    hide BookValid, Placed, WithdrawalsQuiescent, SeatsWithinCapacity, CapacitiesInRange;
    var left := WithdrawEntry(t, ActiveEntryOf(s, a));
    WithdrawEntryKeepsValid(t, ActiveEntryOf(s, a));
    ClosedOfferIsQuiescent(left, a);
  }

  lemma WithdrawKeepsValid(s: Rows, a: Id, confirmed: bool, now: Instant)
    requires Valid(s)
    ensures Valid(Withdraw(s, a, confirmed, now).After(s))
  {
    hide Placed, EntriesLinked, DecisionsLinked, WithdrawalsQuiescent, SeatsWithinCapacity, CapacitiesInRange, Withdraw;
    if Withdraw(s, a, confirmed, now).Commit? && a !in s.withdrawals {
      WithdrawInMoves(s, a, confirmed, now);
      var closed := LetOfferGo(s, a, now);
      LetOfferGoKeepsValid(s, a, now);
      hide BookValid, LetOfferGo;
      LeaveLine(s, closed, a);
      LeaveApplicationKeepsValid(
        WithdrawEntry(closed, ActiveEntryOf(s, a)), a,
        Withdrawal(now, CurrentVersionOf(s, a), SeatToRelease(s, a), ActiveEntryOf(s, a)));
    } else {
      WithdrawRepeats(s, a, confirmed, now);
    }
  }

  /** Once the withdrawal record is there, asking again changes nothing. */
  lemma WithdrawRepeats(s: Rows, a: Id, confirmed: bool, now: Instant)
    requires Withdraw(s, a, confirmed, now).Abort? || a in s.withdrawals
    ensures Withdraw(s, a, confirmed, now).After(s) == s
  {
  }
}
