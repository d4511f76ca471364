/**
  What every transaction of the seat allocator keeps, first inside the offer
  book, then across all rows. Each predicate is one clause of Valid; the lemmas
  show that the two row changes the offer transactions are made of, issuing a
  version and settling the active one, keep every clause.
*/
module SeatInvariants {
  import opened Wrappers
  import opened AdmissionRows

  function SeatStateFor(lifecycle: Lifecycle): SeatState {
    match lifecycle
    case Active => SeatActive
    case Accepted => SeatCommitted
    case Declined => SeatReleased
    case Expired => SeatReleased
  }

  // ---- The offer book ---------------------------------------------------------

  predicate IsCurrent(b: Book, v: Id)
    requires v in b.versions
  {
    b.versions[v].applicationId in b.offers && b.offers[b.versions[v].applicationId].currentVersionId == v
  }

  predicate OffersLinked(b: Book) {
    forall a :: a in b.offers ==>
      b.offers[a].currentVersionId in b.versions && b.versions[b.offers[a].currentVersionId].applicationId == a
  }

  /** Every version is a version of an offer and has a seat of the same application. */
  predicate VersionsLinked(b: Book) {
    forall v :: v in b.versions ==>
      && b.versions[v].applicationId in b.offers
      && b.versions[v].reservationId in b.reservations
      && b.reservations[b.versions[v].reservationId].applicationId == b.versions[v].applicationId
  }

  predicate OwnedBy(b: Book, r: Id, v: Id) {
    v in b.versions && b.versions[v].reservationId == r
  }

  /** No two versions share a seat and no seat is without a version. */
  ghost predicate SeatsOwnedOnce(b: Book) {
    && (forall v, w :: v in b.versions && w in b.versions && b.versions[v].reservationId == b.versions[w].reservationId ==> v == w)
    && (forall r :: r in b.reservations ==> exists v :: OwnedBy(b, r, v))
  }

  /** The lifecycle of a version and the state of its seat say the same thing, and only the current version is not expired. */
  predicate LockStep(b: Book)
    requires VersionsLinked(b)
  {
    forall v :: v in b.versions ==>
      && b.reservations[b.versions[v].reservationId].state == SeatStateFor(b.versions[v].lifecycle)
      && (!IsCurrent(b, v) ==> b.versions[v].lifecycle == Expired)
  }

  /** No version of an offer has a higher number than the current one. */
  predicate CurrentIsLast(b: Book)
    requires VersionsLinked(b) && OffersLinked(b)
  {
    forall v :: v in b.versions ==>
      1 <= b.versions[v].number <= b.versions[b.offers[b.versions[v].applicationId].currentVersionId].number
  }

  /** previousVersionId leads from number k + 1 to number k of the same offer, and from number 1 nowhere. */
  predicate LinksBack(b: Book) {
    forall v :: v in b.versions ==> LinkedToPrevious(b, v)
  }

  predicate LinkedToPrevious(b: Book, v: Id)
    requires v in b.versions
  {
    match b.versions[v].previous
    case None => b.versions[v].number == 1
    case Some(p) =>
      && p in b.versions
      && b.versions[p].applicationId == b.versions[v].applicationId
      && b.versions[p].number + 1 == b.versions[v].number
  }

  predicate NumbersDistinct(b: Book) {
    forall v, w | v in b.versions && w in b.versions ::
      b.versions[v].applicationId == b.versions[w].applicationId && b.versions[v].number == b.versions[w].number ==> v == w
  }

  /** An acceptance record exists exactly for the offers whose current version is ACCEPTED, and was made in time. */
  predicate AcceptancesExact(b: Book)
    requires OffersLinked(b)
  {
    && b.acceptances.Keys <= b.offers.Keys
    && forall a :: a in b.offers ==>
         && (a in b.acceptances <==> b.versions[b.offers[a].currentVersionId].lifecycle == Accepted)
         && (a in b.acceptances ==>
               && b.acceptances[a].versionId == b.offers[a].currentVersionId
               && b.acceptances[a].reservationId == b.versions[b.offers[a].currentVersionId].reservationId
               && b.acceptances[a].acceptedAt < b.versions[b.offers[a].currentVersionId].expiresAt)
  }

  /** Each version has its expiry job, available at its deadline, and the deadline is after the issue. */
  predicate JobsExact(b: Book) {
    && b.jobs.Keys == b.versions.Keys
    && forall v :: v in b.versions ==> b.jobs[v].expiresAt == b.versions[v].expiresAt && b.versions[v].issuedAt < b.versions[v].expiresAt
  }

  ghost predicate BookValid(b: Book) {
    && OffersLinked(b) && VersionsLinked(b) && SeatsOwnedOnce(b) && LockStep(b)
    && CurrentIsLast(b) && LinksBack(b) && NumbersDistinct(b)
    && AcceptancesExact(b) && JobsExact(b)
  }

  // ---- All rows -----------------------------------------------------------------

  /** Seats and offers belong to an application and to the capacity of its offering. */
  predicate Placed(b: Book, applications: map<Id, Application>, capacities: set<Id>) {
    && (forall r :: r in b.reservations ==>
         && b.reservations[r].capacityId in capacities
         && b.reservations[r].applicationId in applications
         && applications[b.reservations[r].applicationId].offeringId == b.reservations[r].capacityId)
    && (forall a :: a in b.offers ==> a in applications && b.offers[a].offeringId == applications[a].offeringId)
  }

  /** At most one entry per application, made by its final decision, and no offer while it waits. */
  predicate EntriesLinked(s: Rows) {
    && (forall e :: e in s.entries ==>
         && s.entries[e].applicationId in s.applications
         && s.applications[s.entries[e].applicationId].offeringId == s.entries[e].offeringId
         && s.entries[e].applicationId in s.finalDecisions
         && (s.entries[e].state == EntryActive ==> s.entries[e].applicationId !in s.book.offers))
    && (forall d, e :: d in s.entries && e in s.entries && s.entries[d].applicationId == s.entries[e].applicationId ==> d == e)
  }

  predicate DecisionsLinked(s: Rows) {
    && s.book.offers.Keys <= s.finalDecisions <= s.applications.Keys
    && (forall a :: a in s.finalDecisions ==> s.applications[a].status != Draft)
    && (forall a :: a in s.applications ==> s.applications[a].offeringId in s.offerings)
    && s.capacities.Keys <= s.offerings
  }

  /** The application holds no seat, no open offer and no place in the line. */
  predicate Quiescent(b: Book, entries: map<Id, WaitlistEntry>, a: Id) {
    && (forall r :: r in b.reservations && b.reservations[r].applicationId == a ==> b.reservations[r].state == SeatReleased)
    && (forall v :: v in b.versions && b.versions[v].applicationId == a ==> b.versions[v].lifecycle in {Declined, Expired})
    && (forall e :: e in entries && entries[e].applicationId == a ==> entries[e].state != EntryActive)
  }

  predicate WithdrawalsQuiescent(s: Rows) {
    && s.withdrawals.Keys <= s.applications.Keys
    && (forall a :: a in s.applications ==> (a in s.withdrawals <==> s.applications[a].status == Withdrawn))
    && (forall a :: a in s.withdrawals ==> Quiescent(s.book, s.entries, a))
  }

  predicate SeatsWithinCapacity(reservations: map<Id, Reservation>, capacities: map<Id, Capacity>) {
    forall c :: c in capacities ==> |ConsumingSeats(reservations, c)| <= capacities[c].configured
  }

  predicate CapacitiesInRange(ledger: map<Id, seq<Adjustment>>, capacities: map<Id, Capacity>) {
    && ledger.Keys == capacities.Keys
    && forall c :: c in capacities ==>
         capacities[c].configured >= 0 && ValidBusinessDays(capacities[c].validityDays) && capacities[c].version >= 1
  }

  ghost predicate Valid(s: Rows) {
    && BookValid(s.book)
    && Placed(s.book, s.applications, s.capacities.Keys)
    && EntriesLinked(s)
    && DecisionsLinked(s)
    && WithdrawalsQuiescent(s)
    && SeatsWithinCapacity(s.book.reservations, s.capacities)
    && CapacitiesInRange(s.ledger, s.capacities)
  }

  // ---- Issuing a version ----------------------------------------------------------

  predicate FreshInBook(b: Book, n: Issued) {
    && n.ids.reservationId !in b.reservations
    && n.ids.versionId !in b.versions
    && n.applicationId !in b.acceptances
    && n.issuedAt < n.schedule.expiresAt
    && if n.applicationId in b.offers then Renews(b, n) else n.previous == None && n.number == 1
  }

  /** The new version follows the current one, which has expired. */
  predicate Renews(b: Book, n: Issued)
    requires n.applicationId in b.offers
  {
    && b.offers[n.applicationId].currentVersionId in b.versions
    && b.versions[b.offers[n.applicationId].currentVersionId].lifecycle == Expired
    && n.previous == Some(b.offers[n.applicationId].currentVersionId)
    && n.number == b.versions[b.offers[n.applicationId].currentVersionId].number + 1
  }

  lemma IssueKeepsOffersLinked(b: Book, n: Issued)
    requires OffersLinked(b) && VersionsLinked(b) && FreshInBook(b, n)
    ensures OffersLinked(IssueInBook(b, n)) && VersionsLinked(IssueInBook(b, n))
  {
  }

  lemma IssueKeepsAcceptances(b: Book, n: Issued)
    requires OffersLinked(b) && OffersLinked(IssueInBook(b, n)) && AcceptancesExact(b) && FreshInBook(b, n)
    ensures AcceptancesExact(IssueInBook(b, n))
  {
    hide Renews;
  }

  lemma IssueKeepsJobs(b: Book, n: Issued)
    requires JobsExact(b) && FreshInBook(b, n)
    ensures JobsExact(IssueInBook(b, n))
  {
    hide Renews;
  }

  lemma IssueKeepsLinks(b: Book, n: Issued)
    requires BookValid(b) && FreshInBook(b, n)
    ensures var c := IssueInBook(b, n); OffersLinked(c) && VersionsLinked(c) && AcceptancesExact(c) && JobsExact(c)
  {
    hide OffersLinked, VersionsLinked, AcceptancesExact, JobsExact, FreshInBook, IssueInBook, LockStep, SeatsOwnedOnce, LinksBack,
    NumbersDistinct, CurrentIsLast;
    IssueKeepsOffersLinked(b, n);
    IssueKeepsAcceptances(b, n);
    IssueKeepsJobs(b, n);
  }

  lemma IssueKeepsOwnership(b: Book, n: Issued)
    requires VersionsLinked(b) && SeatsOwnedOnce(b) && FreshInBook(b, n)
    ensures SeatsOwnedOnce(IssueInBook(b, n))
  {
    var c := IssueInBook(b, n);
    forall r | r in c.reservations ensures exists v :: OwnedBy(c, r, v) {
      if r == n.ids.reservationId {
        assert OwnedBy(c, r, n.ids.versionId);
      } else {
        var v :| OwnedBy(b, r, v);
        assert OwnedBy(c, r, v);
      }
    }
  }

  lemma IssueKeepsLockStep(b: Book, n: Issued)
    requires OffersLinked(b) && VersionsLinked(b) && LockStep(b) && FreshInBook(b, n)
    requires VersionsLinked(IssueInBook(b, n))
    ensures LockStep(IssueInBook(b, n))
  {
    var c := IssueInBook(b, n);
    forall v | v in c.versions && !IsCurrent(c, v) ensures c.versions[v].lifecycle == Expired {
      assert v in b.versions;
      assert IsCurrent(b, v) ==> b.versions[v].applicationId == n.applicationId;
    }
  }

  lemma IssueKeepsNumbers(b: Book, n: Issued)
    requires OffersLinked(b) && VersionsLinked(b) && CurrentIsLast(b) && NumbersDistinct(b) && FreshInBook(b, n)
    requires OffersLinked(IssueInBook(b, n)) && VersionsLinked(IssueInBook(b, n))
    ensures CurrentIsLast(IssueInBook(b, n)) && NumbersDistinct(IssueInBook(b, n))
  {
    var c := IssueInBook(b, n);
    forall v, w | v in c.versions && w in c.versions
      ensures c.versions[v].applicationId == c.versions[w].applicationId && c.versions[v].number == c.versions[w].number ==> v == w
    {
      assert v in b.versions || v == n.ids.versionId;
      assert w in b.versions || w == n.ids.versionId;
    }
  }

  lemma IssueKeepsLinksBack(b: Book, n: Issued)
    requires OffersLinked(b) && LinksBack(b) && FreshInBook(b, n)
    ensures LinksBack(IssueInBook(b, n))
  {
    var c := IssueInBook(b, n);
    forall v | v in c.versions ensures LinkedToPrevious(c, v) {
      assert v != n.ids.versionId ==> LinkedToPrevious(b, v);
    }
  }

  lemma IssueKeepsBook(b: Book, n: Issued)
    requires BookValid(b) && FreshInBook(b, n)
    ensures BookValid(IssueInBook(b, n))
  {
    IssueKeepsLinks(b, n);
    IssueKeepsOwnership(b, n);
    IssueKeepsLockStep(b, n);
    IssueKeepsNumbers(b, n);
    IssueKeepsLinksBack(b, n);
  }

  lemma IssueConsumesOneSeat(b: Book, n: Issued, c: Id)
    requires n.ids.reservationId !in b.reservations
    ensures |ConsumingSeats(IssueInBook(b, n).reservations, c)|
            == |ConsumingSeats(b.reservations, c)| + (if c == n.offer.offeringId then 1 else 0)
  {
    var before := ConsumingSeats(b.reservations, c);
    var after := ConsumingSeats(IssueInBook(b, n).reservations, c);
    if c == n.offer.offeringId {
      assert after == before + {n.ids.reservationId};
    } else {
      assert after == before;
    }
  }

  /** What the guards of ReserveAndIssue and Reopen establish before they insert rows. */
  predicate MayIssue(s: Rows, n: Issued) {
    && FreshInBook(s.book, n)
    && InsertsCleanly(s, n.applicationId, n.offer.offeringId, n.ids)
    && n.offer.offeringId in s.capacities
    && n.applicationId in s.finalDecisions
    && s.applications[n.applicationId].status != Withdrawn
    && ConsumedSeats(s, n.offer.offeringId) < s.capacities[n.offer.offeringId].configured
    && (forall e :: e in s.entries && s.entries[e].applicationId == n.applicationId ==> s.entries[e].state != EntryActive)
  }

  lemma IssueKeepsCapacity(s: Rows, n: Issued)
    requires SeatsWithinCapacity(s.book.reservations, s.capacities) && MayIssue(s, n)
    ensures SeatsWithinCapacity(Issue(s, n).book.reservations, Issue(s, n).capacities)
  {
    forall c | c in s.capacities
      ensures ConsumedSeats(Issue(s, n), c) <= Issue(s, n).capacities[c].configured
    {
      IssueConsumesOneSeat(s.book, n, c);
    }
  }

  lemma IssueKeepsPlaces(s: Rows, n: Issued)
    requires Valid(s) && MayIssue(s, n)
    ensures var t := Issue(s, n);
            && Placed(t.book, t.applications, t.capacities.Keys) && EntriesLinked(t) && DecisionsLinked(t)
            && CapacitiesInRange(t.ledger, t.capacities)
  {
  }

  lemma IssueKeepsQuiet(s: Rows, n: Issued)
    requires WithdrawalsQuiescent(s) && MayIssue(s, n)
    ensures WithdrawalsQuiescent(Issue(s, n))
  {
    forall a | a in s.withdrawals ensures Quiescent(Issue(s, n).book, s.entries, a) {
      assert Quiescent(s.book, s.entries, a);
    }
  }

  lemma IssueKeepsValid(s: Rows, n: Issued)
    requires Valid(s) && MayIssue(s, n)
    ensures Valid(Issue(s, n))
  {
    IssueKeepsBook(s.book, n);
    IssueKeepsPlaces(s, n);
    IssueKeepsCapacity(s, n);
    IssueKeepsQuiet(s, n);
  }

  // ---- Settling the active version -----------------------------------------------

  /** Version `v` reaches a terminal lifecycle and its seat follows: committed or freed. */
  function SettleInBook(b: Book, v: Id, lifecycle: Lifecycle, terminal: Terminal): Book
    requires v in b.versions && b.versions[v].reservationId in b.reservations
  {
    var r := b.versions[v].reservationId;
    var reason := if lifecycle == Accepted then b.reservations[r].releaseReason else Some(terminal.reason);
    b.(
    versions := b.versions[v := b.versions[v].(lifecycle := lifecycle, terminal := Some(terminal))],
    reservations := b.reservations[r := b.reservations[r].(state := SeatStateFor(lifecycle), releaseReason := reason)],
    acceptances := if lifecycle == Accepted
                   then b.acceptances[b.versions[v].applicationId := Acceptance(v, r, terminal.at)]
                   else b.acceptances)
  }

  function Settle(s: Rows, v: Id, lifecycle: Lifecycle, terminal: Terminal): Rows
    requires v in s.book.versions && s.book.versions[v].reservationId in s.book.reservations
  {
    s.(book := SettleInBook(s.book, v, lifecycle, terminal),
    capacities := Bump(s.capacities, s.book.reservations[s.book.versions[v].reservationId].capacityId))
  }

  predicate MaySettle(b: Book, v: Id, lifecycle: Lifecycle, terminal: Terminal) {
    && v in b.versions && IsCurrent(b, v) && b.versions[v].lifecycle == Active && lifecycle != Active
    && (lifecycle == Accepted ==> terminal.at < b.versions[v].expiresAt)
  }

  lemma SettleKeepsLinks(b: Book, v: Id, lifecycle: Lifecycle, terminal: Terminal)
    requires OffersLinked(b) && VersionsLinked(b) && MaySettle(b, v, lifecycle, terminal)
    ensures var c := SettleInBook(b, v, lifecycle, terminal); OffersLinked(c) && VersionsLinked(c)
  {
  }

  lemma SettleKeepsAcceptances(b: Book, v: Id, lifecycle: Lifecycle, terminal: Terminal)
    requires OffersLinked(b) && VersionsLinked(b) && AcceptancesExact(b) && MaySettle(b, v, lifecycle, terminal)
    requires OffersLinked(SettleInBook(b, v, lifecycle, terminal))
    ensures AcceptancesExact(SettleInBook(b, v, lifecycle, terminal))
  {
  }

  lemma SettleKeepsJobs(b: Book, v: Id, lifecycle: Lifecycle, terminal: Terminal)
    requires VersionsLinked(b) && JobsExact(b) && MaySettle(b, v, lifecycle, terminal)
    ensures JobsExact(SettleInBook(b, v, lifecycle, terminal))
  {
  }

  lemma SettleKeepsOwnership(b: Book, v: Id, lifecycle: Lifecycle, terminal: Terminal)
    requires VersionsLinked(b) && SeatsOwnedOnce(b) && MaySettle(b, v, lifecycle, terminal)
    ensures SeatsOwnedOnce(SettleInBook(b, v, lifecycle, terminal))
  {
    var c := SettleInBook(b, v, lifecycle, terminal);
    forall r | r in c.reservations ensures exists w :: OwnedBy(c, r, w) {
      var w :| OwnedBy(b, r, w);
      assert OwnedBy(c, r, w);
    }
  }

  lemma SettleKeepsLockStep(b: Book, v: Id, lifecycle: Lifecycle, terminal: Terminal)
    requires VersionsLinked(b) && SeatsOwnedOnce(b) && LockStep(b) && MaySettle(b, v, lifecycle, terminal)
    requires VersionsLinked(SettleInBook(b, v, lifecycle, terminal))
    ensures LockStep(SettleInBook(b, v, lifecycle, terminal))
  {
    var c := SettleInBook(b, v, lifecycle, terminal);
    forall w | w in c.versions && w != v
      ensures && c.versions[w] == b.versions[w]
              && c.reservations[c.versions[w].reservationId] == b.reservations[b.versions[w].reservationId]
              && IsCurrent(c, w) == IsCurrent(b, w)
    {
    }
  }

  lemma SettleKeepsNumbers(b: Book, v: Id, lifecycle: Lifecycle, terminal: Terminal)
    requires OffersLinked(b) && VersionsLinked(b) && CurrentIsLast(b) && NumbersDistinct(b) && MaySettle(b, v, lifecycle, terminal)
    requires var c := SettleInBook(b, v, lifecycle, terminal); OffersLinked(c) && VersionsLinked(c)
    ensures var c := SettleInBook(b, v, lifecycle, terminal); CurrentIsLast(c) && NumbersDistinct(c)
  {
    SettleKeepsNumbering(b, v, lifecycle, terminal);
  }

  lemma SettleKeepsLinksBack(b: Book, v: Id, lifecycle: Lifecycle, terminal: Terminal)
    requires VersionsLinked(b) && LinksBack(b) && MaySettle(b, v, lifecycle, terminal)
    ensures LinksBack(SettleInBook(b, v, lifecycle, terminal))
  {
    var c := SettleInBook(b, v, lifecycle, terminal);
    forall w | w in c.versions ensures LinkedToPrevious(c, w) {
      assert LinkedToPrevious(b, w);
    }
  }

  lemma SettleKeepsNumbering(b: Book, v: Id, lifecycle: Lifecycle, terminal: Terminal)
    requires v in b.versions && b.versions[v].reservationId in b.reservations
    ensures var c := SettleInBook(b, v, lifecycle, terminal);
            && c.versions.Keys == b.versions.Keys
            && forall w :: w in b.versions ==>
                 && c.versions[w].applicationId == b.versions[w].applicationId
                 && c.versions[w].number == b.versions[w].number
                 && c.versions[w].previous == b.versions[w].previous
  {
  }

  lemma SettleKeepsBook(b: Book, v: Id, lifecycle: Lifecycle, terminal: Terminal)
    requires BookValid(b) && MaySettle(b, v, lifecycle, terminal)
    ensures BookValid(SettleInBook(b, v, lifecycle, terminal))
  {
    SettleKeepsLinks(b, v, lifecycle, terminal);
    SettleKeepsAcceptances(b, v, lifecycle, terminal);
    SettleKeepsJobs(b, v, lifecycle, terminal);
    SettleKeepsOwnership(b, v, lifecycle, terminal);
    SettleKeepsLockStep(b, v, lifecycle, terminal);
    SettleKeepsNumbers(b, v, lifecycle, terminal);
    SettleKeepsLinksBack(b, v, lifecycle, terminal);
  }

  lemma SettleSeats(b: Book, v: Id, lifecycle: Lifecycle, terminal: Terminal, c: Id)
    requires VersionsLinked(b) && LockStep(b) && MaySettle(b, v, lifecycle, terminal)
    ensures |ConsumingSeats(SettleInBook(b, v, lifecycle, terminal).reservations, c)| ==
            |ConsumingSeats(b.reservations, c)|
            - (if lifecycle != Accepted && c == b.reservations[b.versions[v].reservationId].capacityId then 1 else 0)
  {
    var r := b.versions[v].reservationId;
    var before := ConsumingSeats(b.reservations, c);
    var after := ConsumingSeats(SettleInBook(b, v, lifecycle, terminal).reservations, c);
    if lifecycle != Accepted && c == b.reservations[r].capacityId {
      assert r in before && after == before - {r};
    } else {
      assert after == before;
    }
  }

  lemma SettleKeepsCapacity(s: Rows, v: Id, lifecycle: Lifecycle, terminal: Terminal)
    requires VersionsLinked(s.book) && LockStep(s.book) && MaySettle(s.book, v, lifecycle, terminal)
    requires SeatsWithinCapacity(s.book.reservations, s.capacities)
    ensures var t := Settle(s, v, lifecycle, terminal); SeatsWithinCapacity(t.book.reservations, t.capacities)
  {
    var t := Settle(s, v, lifecycle, terminal);
    forall c | c in t.capacities ensures ConsumedSeats(t, c) <= t.capacities[c].configured {
      SettleSeats(s.book, v, lifecycle, terminal, c);
    }
  }

  lemma SettleKeepsPlaces(s: Rows, v: Id, lifecycle: Lifecycle, terminal: Terminal)
    requires Valid(s) && MaySettle(s.book, v, lifecycle, terminal)
    ensures var t := Settle(s, v, lifecycle, terminal);
            && Placed(t.book, t.applications, t.capacities.Keys) && EntriesLinked(t) && DecisionsLinked(t)
            && CapacitiesInRange(t.ledger, t.capacities)
  {
  }

  lemma SettleKeepsQuiet(s: Rows, v: Id, lifecycle: Lifecycle, terminal: Terminal)
    requires VersionsLinked(s.book) && WithdrawalsQuiescent(s) && MaySettle(s.book, v, lifecycle, terminal)
    ensures WithdrawalsQuiescent(Settle(s, v, lifecycle, terminal))
  {
    forall a | a in s.withdrawals ensures Quiescent(SettleInBook(s.book, v, lifecycle, terminal), s.entries, a) {
      assert Quiescent(s.book, s.entries, a);
    }
  }

  lemma SettleKeepsValid(s: Rows, v: Id, lifecycle: Lifecycle, terminal: Terminal)
    requires Valid(s) && MaySettle(s.book, v, lifecycle, terminal)
    ensures Valid(Settle(s, v, lifecycle, terminal))
  {
    SettleKeepsBook(s.book, v, lifecycle, terminal);
    SettleKeepsPlaces(s, v, lifecycle, terminal);
    SettleKeepsCapacity(s, v, lifecycle, terminal);
    SettleKeepsQuiet(s, v, lifecycle, terminal);
  }

  /** Freeing the seat of a version that has just been declined or expired is settling it. */
  lemma ReleaseIsSettle(s: Rows, v: Id, lifecycle: Lifecycle, terminal: Terminal)
    requires VersionsLinked(s.book) && LockStep(s.book) && MaySettle(s.book, v, lifecycle, terminal) && lifecycle != Accepted
    ensures ReleaseSeat(CloseVersion(s, v, lifecycle, terminal), s.book.versions[v].reservationId, terminal.reason)
            == Settle(s, v, lifecycle, terminal)
  {
  }
}
