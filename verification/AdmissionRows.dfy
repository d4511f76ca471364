/**
  The tables behind seats, offers and the waitlist, and one transition per
  transaction of packages/database/src/capacity-offer.ts.

  A transaction either commits new rows or aborts with a code and leaves every
  row as it was. Row identifiers are drawn by the database: they are inputs
  here, and one that is already taken aborts like any unique key violation.
  Capacities are named by their offering and offers by their application, as
  the unique indexes of the schema allow.
*/
module AdmissionRows {
  import opened Wrappers

  type Id = int
  type Instant = int

  datatype ApplicationStatus = Draft | Submitted | Withdrawn
  datatype Application = Application(offeringId: Id, status: ApplicationStatus)

  datatype Capacity = Capacity(configured: int, validityDays: int, version: int)
  datatype Adjustment = Adjustment(previousValue: int, newValue: int)

  datatype SeatState = SeatActive | SeatCommitted | SeatReleased
  datatype Reservation = Reservation(
    capacityId: Id, applicationId: Id, state: SeatState, releaseReason: Option<TerminalReason>)

  datatype Lifecycle = Active | Accepted | Declined | Expired
  datatype TerminalReason = FamilyAccepted | FamilyDeclined | DeadlineExpired | ApplicationWithdrawn
  datatype Terminal = Terminal(at: Instant, reason: TerminalReason)
  datatype Origin = Normal | Waitlist

  datatype OfferVersion = OfferVersion(
    applicationId: Id, reservationId: Id, number: int, previous: Option<Id>, origin: Origin,
    issuedAt: Instant, expiresAt: Instant, lifecycle: Lifecycle, terminal: Option<Terminal>)

  datatype Offer = Offer(offeringId: Id, origin: Origin, currentVersionId: Id, version: int)
  datatype Acceptance = Acceptance(versionId: Id, reservationId: Id, acceptedAt: Instant)

  datatype EntryState = EntryActive | EntryPromoted | EntryWithdrawn
  datatype WaitlistEntry = WaitlistEntry(
    applicationId: Id, offeringId: Id, enteredAt: Instant, state: EntryState, version: int,
    promotedAt: Option<Instant>)

  datatype Withdrawal = Withdrawal(
    confirmedAt: Instant, offerVersionId: Option<Id>, reservationId: Option<Id>, entryId: Option<Id>)

  /** When the expiry job and the reminder job of an offer version become available. */
  datatype Schedule = Schedule(expiresAt: Instant, reminderAt: Option<Instant>)

  /** Issue instant and validity in business days to the schedule; None when the calendar throws. */
  type DeadlineRule = (Instant, int) -> Option<Schedule>

  /** The tables an offer lives in: its seats, versions, acceptance and outbox jobs. */
  datatype Book = Book(
    reservations: map<Id, Reservation>,
    offers: map<Id, Offer>,
    versions: map<Id, OfferVersion>,
    acceptances: map<Id, Acceptance>,
    jobs: map<Id, Schedule>)

  datatype Rows = Rows(
    offerings: set<Id>,
    applications: map<Id, Application>,
    finalDecisions: set<Id>,
    capacities: map<Id, Capacity>,
    ledger: map<Id, seq<Adjustment>>,
    book: Book,
    entries: map<Id, WaitlistEntry>,
    withdrawals: map<Id, Withdrawal>)

  datatype Code =
    | NotFound
    | InvalidInput
    | ConfirmationRequired
    | ConstraintViolation
    | CalendarUnresolvable
    | CurrentVersionMissing
    | ReservationMissing
    | AuthorityDenied
    | CapacityAlreadyConfigured
    | CapacityNotConfigured
    | CapacityVersionChanged
    | CapacityBelowConsumedSeats
    | NoAdmissionSeatAvailable
    | ReservationAlreadyExists
    | WaitlistEntryVersionChanged
    | WaitlistEntryNotActive
    | WaitlistEntryNotFirst
    | OfferVersionChanged
    | OfferNotActive
    | OfferNotExpired
    | OfferAlreadyAccepted
    | OfferExpired
    | ApplicationIsWithdrawn
    | CalendarNotConfigured
    | NotSubmitted
    | DecisionAlreadyFinal

  datatype Outcome = Commit(rows: Rows) | Abort(code: Code) {
    /** The rows a reader finds once the transaction is over. */
    function After(before: Rows): Rows {
      if Commit? then rows else before
    }
  }

  datatype ExpiryVerdict = VersionExpired | NoopNotDue | NoopStale | NoopTerminal
  datatype Disposition = Aprobado | ListaDeEspera | Rechazado | DevueltoARevision
  datatype Response = Accept | Decline
  datatype FreshIds = FreshIds(reservationId: Id, versionId: Id)

  // ---- Seats ----------------------------------------------------------------

  predicate Consuming(seat: Reservation) {
    seat.state != SeatReleased
  }

  /** The reservations that `consumedSeats` counts. */
  function ConsumingSeats(reservations: map<Id, Reservation>, capacityId: Id): set<Id> {
    set r | r in reservations && reservations[r].capacityId == capacityId && Consuming(reservations[r])
  }

  function ConsumedSeats(s: Rows, capacityId: Id): nat {
    |ConsumingSeats(s.book.reservations, capacityId)|
  }

  function Bump(capacities: map<Id, Capacity>, capacityId: Id): map<Id, Capacity> {
    if capacityId in capacities
    then capacities[capacityId := capacities[capacityId].(version := capacities[capacityId].version + 1)]
    else capacities
  }

  predicate HoldsSeat(s: Rows, applicationId: Id) {
    exists r :: r in s.book.reservations && s.book.reservations[r].applicationId == applicationId && Consuming(s.book.reservations[r])
  }

  /** What an issue writes; `offer` is the offer row, its current version still to be set. */
  datatype Issued = Issued(
    applicationId: Id, offer: Offer, number: int, previous: Option<Id>, issuedAt: Instant, schedule: Schedule, ids: FreshIds)

  /** One new seat and one new offer version that becomes the current one. */
  function IssueInBook(b: Book, n: Issued): Book {
    b.(
    reservations := b.reservations[n.ids.reservationId :=
      Reservation(n.offer.offeringId, n.applicationId, SeatActive, None)],
    versions := b.versions[n.ids.versionId :=
      OfferVersion(n.applicationId, n.ids.reservationId, n.number, n.previous, n.offer.origin,
                   n.issuedAt, n.schedule.expiresAt, Active, None)],
    offers := b.offers[n.applicationId := n.offer.(currentVersionId := n.ids.versionId)],
    jobs := b.jobs[n.ids.versionId := n.schedule])
  }

  function Issue(s: Rows, n: Issued): Rows {
    s.(book := IssueInBook(s.book, n), capacities := Bump(s.capacities, n.offer.offeringId))
  }

  /** `releaseReservation`: only an ACTIVE seat is freed, and only then does the capacity move on. */
  function ReleaseSeat(s: Rows, r: Id, reason: TerminalReason): Rows {
    if r in s.book.reservations && s.book.reservations[r].state == SeatActive then
      var seat := s.book.reservations[r];
      s.(book := s.book.(reservations := s.book.reservations[r := seat.(state := SeatReleased, releaseReason := Some(reason))]),
      capacities := Bump(s.capacities, seat.capacityId))
    else s
  }

  function CommitSeat(s: Rows, r: Id): Rows
    requires r in s.book.reservations
  {
    var seat := s.book.reservations[r];
    s.(book := s.book.(reservations := s.book.reservations[r := seat.(state := SeatCommitted)]),
    capacities := Bump(s.capacities, seat.capacityId))
  }

  function CloseVersion(s: Rows, v: Id, lifecycle: Lifecycle, terminal: Terminal): Rows
    requires v in s.book.versions
  {
    var version := s.book.versions[v];
    s.(book := s.book.(versions := s.book.versions[v := version.(lifecycle := lifecycle, terminal := Some(terminal))]))
  }

  /** Whether the rows an issue would insert break a key, a foreign key or the deadline check. */
  predicate InsertsCleanly(s: Rows, applicationId: Id, offeringId: Id, ids: FreshIds) {
    && ids.reservationId !in s.book.reservations
    && ids.versionId !in s.book.versions
    && applicationId in s.applications
    && s.applications[applicationId].offeringId == offeringId
  }

  function ResolveSchedule(calendar: Option<DeadlineRule>, issuedAt: Instant, validityDays: int): Result<Schedule, Code> {
    match calendar
    case None => Err(CalendarNotConfigured)
    case Some(rule) =>
      match rule(issuedAt, validityDays)
      case None => Err(CalendarUnresolvable)
      case Some(schedule) => if schedule.expiresAt <= issuedAt then Err(ConstraintViolation) else Ok(schedule)
  }

  function ReserveAndIssue(
    s: Rows, applicationId: Id, offeringId: Id, expectedCapacityVersion: Option<int>, origin: Origin,
    issuedAt: Instant, calendar: Option<DeadlineRule>, ids: FreshIds): Outcome
  {
    if offeringId !in s.capacities then Abort(CapacityNotConfigured)
    else if expectedCapacityVersion.Some? && s.capacities[offeringId].version != expectedCapacityVersion.value then
      Abort(CapacityVersionChanged)
    else if HoldsSeat(s, applicationId) then Abort(ReservationAlreadyExists)
    else if ConsumedSeats(s, offeringId) >= s.capacities[offeringId].configured then Abort(NoAdmissionSeatAvailable)
    else if applicationId in s.book.offers then Abort(ReservationAlreadyExists)
    else if !InsertsCleanly(s, applicationId, offeringId, ids) then Abort(ConstraintViolation)
    else
      match ResolveSchedule(calendar, issuedAt, s.capacities[offeringId].validityDays)
      case Err(code) => Abort(code)
      case Ok(schedule) =>
        Commit(Issue(s, Issued(applicationId, Offer(offeringId, origin, ids.versionId, 1), 1, None, issuedAt, schedule, ids)))
  }

  // ---- Capacity -------------------------------------------------------------

  const DEFAULT_OFFER_VALIDITY_BUSINESS_DAYS := 3

  predicate ValidBusinessDays(days: int) {
    1 <= days <= 30
  }

  function CreateCapacity(s: Rows, offeringId: Id, configured: int, validityDays: Option<int>): Outcome {
    var days := if validityDays.Some? then validityDays.value else DEFAULT_OFFER_VALIDITY_BUSINESS_DAYS;
    if configured < 0 || !ValidBusinessDays(days) then Abort(InvalidInput)
    else if offeringId !in s.offerings then Abort(NotFound)
    else if offeringId in s.capacities then Abort(CapacityAlreadyConfigured)
    else Commit(s.(capacities := s.capacities[offeringId := Capacity(configured, days, 1)],
                ledger := s.ledger[offeringId := []]))
  }

  function AdjustCapacity(s: Rows, offeringId: Id, expectedVersion: int, configured: int, validityDays: Option<int>): Outcome {
    if configured < 0 || expectedVersion < 1 || (validityDays.Some? && !ValidBusinessDays(validityDays.value)) then
      Abort(InvalidInput)
    else if offeringId !in s.offerings then Abort(NotFound)
    else if offeringId !in s.capacities || offeringId !in s.ledger then Abort(CapacityNotConfigured)
    else
      var capacity := s.capacities[offeringId];
      var days := if validityDays.Some? then validityDays.value else capacity.validityDays;
      if capacity.version != expectedVersion then Abort(CapacityVersionChanged)
      else if configured < ConsumedSeats(s, offeringId) then Abort(CapacityBelowConsumedSeats)
      else if capacity.configured == configured && capacity.validityDays == days then Commit(s)
      else
        Commit(s.(capacities := s.capacities[offeringId := Capacity(configured, days, capacity.version + 1)],
               ledger := s.ledger[offeringId := s.ledger[offeringId] + [Adjustment(capacity.configured, configured)]]))
  }

  // ---- Direction disposition and waitlist -----------------------------------

  /** The decision transaction of recommendation.ts together with its seat effects. */
  function Decide(
    s: Rows, applicationId: Id, disposition: Disposition, occurredAt: Instant,
    calendar: Option<DeadlineRule>, ids: FreshIds, entryId: Id): Outcome
  {
    if applicationId !in s.applications then Abort(NotFound)
    else if s.applications[applicationId].status != Submitted then Abort(NotSubmitted)
    else if applicationId in s.finalDecisions then Abort(DecisionAlreadyFinal)
    else
      var offeringId := s.applications[applicationId].offeringId;
      var decided := s.(finalDecisions := s.finalDecisions + {applicationId});
      match disposition
      case DevueltoARevision => Commit(s)
      case Rechazado => Commit(decided)
      case Aprobado => ReserveAndIssue(decided, applicationId, offeringId, None, Normal, occurredAt, calendar, ids)
      case ListaDeEspera =>
        if entryId in s.entries then Abort(ConstraintViolation)
        else Commit(decided.(entries := s.entries[entryId :=
                             WaitlistEntry(applicationId, offeringId, occurredAt, EntryActive, 1, None)]))
  }

  /** The (enteredAt, id) order of the waitlist queries. */
  predicate Before(entries: map<Id, WaitlistEntry>, d: Id, e: Id)
    requires d in entries && e in entries
  {
    entries[d].enteredAt < entries[e].enteredAt || (entries[d].enteredAt == entries[e].enteredAt && d < e)
  }

  predicate Waiting(entries: map<Id, WaitlistEntry>, offeringId: Id, e: Id) {
    e in entries && entries[e].offeringId == offeringId && entries[e].state == EntryActive
  }

  /** `e` is the entry the query for the first ACTIVE one of the offering answers. */
  predicate FirstInLine(entries: map<Id, WaitlistEntry>, offeringId: Id, e: Id) {
    && Waiting(entries, offeringId, e)
    && forall d :: d in entries && Waiting(entries, offeringId, d) && d != e ==> Before(entries, e, d)
  }

  function PromoteEntry(s: Rows, e: Id, now: Instant): Rows
    requires e in s.entries
  {
    s.(entries := s.entries[e :=
      s.entries[e].(state := EntryPromoted, version := s.entries[e].version + 1, promotedAt := Some(now))])
  }

  function Promote(
    s: Rows, e: Id, expectedCapacityVersion: int, expectedEntryVersion: int, now: Instant,
    calendar: Option<DeadlineRule>, ids: FreshIds): Outcome
  {
    if expectedCapacityVersion < 1 || expectedEntryVersion < 1 then Abort(InvalidInput)
    else if e !in s.entries || s.entries[e].offeringId !in s.offerings then Abort(NotFound)
    else if s.entries[e].version != expectedEntryVersion then Abort(WaitlistEntryVersionChanged)
    else if s.entries[e].state != EntryActive then Abort(WaitlistEntryNotActive)
    else
      var entry := s.entries[e];
      if entry.applicationId !in s.applications then Abort(NotFound)
      else if s.applications[entry.applicationId].status == Withdrawn then Abort(ApplicationIsWithdrawn)
      else if !FirstInLine(s.entries, entry.offeringId, e) then Abort(WaitlistEntryNotFirst)
      else
        var issued := ReserveAndIssue(s, entry.applicationId, entry.offeringId, Some(expectedCapacityVersion), Waitlist,
                                      now, calendar, ids);
        if issued.Abort? then issued else Commit(PromoteEntry(issued.rows, e, now))
  }

  // ---- Offers ---------------------------------------------------------------

  /** Accepting or declining; `authorized` is the verdict of the application authority guard. */
  function Respond(s: Rows, applicationId: Id, expectedVersionId: Id, response: Response, authorized: bool, now: Instant): Outcome {
    if applicationId !in s.book.offers || applicationId !in s.applications then Abort(NotFound)
    else
      var v := s.book.offers[applicationId].currentVersionId;
      if v !in s.book.versions then Abort(CurrentVersionMissing)
      else if v != expectedVersionId then Abort(OfferVersionChanged)
      else
        var current := s.book.versions[v];
        if response == Accept && applicationId in s.book.acceptances && s.book.acceptances[applicationId].versionId == v then Commit(s)
        else if response == Decline && current.lifecycle == Declined && current.terminal.Some?
                && current.terminal.value.reason == FamilyDeclined then Commit(s)
        else if s.applications[applicationId].status == Withdrawn then Abort(ApplicationIsWithdrawn)
        else if current.lifecycle != Active then Abort(OfferNotActive)
        else if current.expiresAt <= now then Abort(OfferExpired)
        else if current.reservationId !in s.book.reservations || s.book.reservations[current.reservationId].state != SeatActive then
          Abort(OfferNotActive)
        else if response == Accept && !authorized then Abort(AuthorityDenied)
        else if response == Accept then
          var closed := CloseVersion(s, v, Accepted, Terminal(now, FamilyAccepted));
          var acceptances := s.book.acceptances[applicationId := Acceptance(v, current.reservationId, now)];
          Commit(CommitSeat(closed.(book := closed.book.(acceptances := acceptances)), current.reservationId))
        else
          Commit(ReleaseSeat(CloseVersion(s, v, Declined, Terminal(now, FamilyDeclined)),
                             current.reservationId, FamilyDeclined))
  }

  /**
    Reopening an expired offer. The application status is an argument because the
    transaction reads it before it locks the application; Reopen below is the
    case where nothing changed in between.
  */
  function ReopenObserving(
    s: Rows, observed: ApplicationStatus, applicationId: Id, expectedVersionId: Id, expectedCapacityVersion: int,
    now: Instant, calendar: Option<DeadlineRule>, ids: FreshIds): Outcome
  {
    if expectedCapacityVersion < 1 then Abort(InvalidInput)
    else if applicationId !in s.book.offers || applicationId !in s.applications then Abort(NotFound)
    else if s.book.offers[applicationId].currentVersionId != expectedVersionId then Abort(OfferVersionChanged)
    else if expectedVersionId !in s.book.versions then Abort(CurrentVersionMissing)
    else
      var offer := s.book.offers[applicationId];
      var previous := s.book.versions[expectedVersionId];
      var offeringId := s.applications[applicationId].offeringId;
      if applicationId in s.book.acceptances || previous.lifecycle == Accepted then Abort(OfferAlreadyAccepted)
      else if previous.lifecycle != Expired then Abort(OfferNotExpired)
      else if observed == Withdrawn then Abort(ApplicationIsWithdrawn)
      else if offeringId !in s.capacities then Abort(CapacityNotConfigured)
      else if s.capacities[offeringId].version != expectedCapacityVersion then Abort(CapacityVersionChanged)
      else if ConsumedSeats(s, offeringId) >= s.capacities[offeringId].configured then Abort(NoAdmissionSeatAvailable)
      else if !InsertsCleanly(s, applicationId, offer.offeringId, ids) then Abort(ConstraintViolation)
      else
        match ResolveSchedule(calendar, now, s.capacities[offeringId].validityDays)
        case Err(code) => Abort(code)
        case Ok(schedule) =>
          Commit(Issue(s, Issued(applicationId, offer.(version := offer.version + 1), previous.number + 1,
                                 Some(expectedVersionId), now, schedule, ids)))
  }

  function Reopen(
    s: Rows, applicationId: Id, expectedVersionId: Id, expectedCapacityVersion: int,
    now: Instant, calendar: Option<DeadlineRule>, ids: FreshIds): Outcome
  {
    var observed := if applicationId in s.applications then s.applications[applicationId].status else Draft;
    ReopenObserving(s, observed, applicationId, expectedVersionId, expectedCapacityVersion, now, calendar, ids)
  }

  function ExpireVerdict(s: Rows, v: Id, now: Instant): ExpiryVerdict {
    if v !in s.book.versions then NoopStale
    else if s.book.versions[v].applicationId !in s.book.offers || s.book.offers[s.book.versions[v].applicationId].currentVersionId != v then NoopStale
    else if s.book.versions[v].lifecycle != Active then NoopTerminal
    else if s.book.versions[v].expiresAt > now then NoopNotDue
    else VersionExpired
  }

  function Expire(s: Rows, v: Id, now: Instant): Outcome {
    if ExpireVerdict(s, v, now) != VersionExpired then Commit(s)
    else if s.book.versions[v].reservationId !in s.book.reservations then Abort(ReservationMissing)
    else Commit(ReleaseSeat(CloseVersion(s, v, Expired, Terminal(now, DeadlineExpired)),
                            s.book.versions[v].reservationId, DeadlineExpired))
  }

  // ---- Withdrawal -----------------------------------------------------------

  /** The ACTIVE waitlist entry the withdrawal query finds, if any. */
  ghost function ActiveEntryOf(s: Rows, applicationId: Id): (found: Option<Id>)
    ensures found.Some? ==> found.value in s.entries && s.entries[found.value].applicationId == applicationId
                            && s.entries[found.value].state == EntryActive
    ensures found.None? ==> forall e :: e in s.entries && s.entries[e].applicationId == applicationId ==>
                                          s.entries[e].state != EntryActive
  {
    if exists e :: e in s.entries && s.entries[e].applicationId == applicationId && s.entries[e].state == EntryActive then
      var e :| e in s.entries && s.entries[e].applicationId == applicationId && s.entries[e].state == EntryActive;
      Some(e)
    else None
  }

  ghost function ActiveSeatOf(s: Rows, applicationId: Id): (found: Option<Id>)
    ensures found.Some? ==> found.value in s.book.reservations && s.book.reservations[found.value].applicationId == applicationId
                            && s.book.reservations[found.value].state == SeatActive
    ensures found.None? ==> forall r :: r in s.book.reservations && s.book.reservations[r].applicationId == applicationId ==>
                                          s.book.reservations[r].state != SeatActive
  {
    var seats := s.book.reservations;
    if exists r :: r in seats && seats[r].applicationId == applicationId && seats[r].state == SeatActive then
      var r :| r in seats && seats[r].applicationId == applicationId && seats[r].state == SeatActive;
      Some(r)
    else None
  }

  function CurrentVersionOf(s: Rows, applicationId: Id): Option<Id> {
    if applicationId in s.book.offers && s.book.offers[applicationId].currentVersionId in s.book.versions
    then Some(s.book.offers[applicationId].currentVersionId)
    else None
  }

  /** The seat a withdrawal lets go: the current version's, or else any ACTIVE one of the application. */
  ghost function SeatToRelease(s: Rows, applicationId: Id): Option<Id> {
    var current := CurrentVersionOf(s, applicationId);
    if current.Some? && s.book.versions[current.value].reservationId in s.book.reservations
    then Some(s.book.versions[current.value].reservationId)
    else ActiveSeatOf(s, applicationId)
  }

  function WithdrawEntry(s: Rows, entry: Option<Id>): Rows
    requires entry.Some? ==> entry.value in s.entries
  {
    match entry
    case None => s
    case Some(e) =>
      s.(entries := s.entries[e := s.entries[e].(state := EntryWithdrawn, version := s.entries[e].version + 1)])
  }

  /** What the withdrawal writes once it knows the version, the seat and the entry the record names. */
  function LeaveWith(s: Rows, applicationId: Id, record: Withdrawal): Rows
    requires applicationId in s.applications
    requires record.offerVersionId.Some? ==> record.offerVersionId.value in s.book.versions
    requires record.entryId.Some? ==> record.entryId.value in s.entries
  {
    var current := record.offerVersionId;
    var declined := if current.Some? && s.book.versions[current.value].lifecycle == Active
                    then CloseVersion(s, current.value, Declined, Terminal(record.confirmedAt, ApplicationWithdrawn))
                    else s;
    var freed := if record.reservationId.Some? then ReleaseSeat(declined, record.reservationId.value, ApplicationWithdrawn) else declined;
    WithdrawEntry(freed, record.entryId).(
    withdrawals := s.withdrawals[applicationId := record],
    applications := s.applications[applicationId := s.applications[applicationId].(status := Withdrawn)])
  }

  ghost function Withdraw(s: Rows, applicationId: Id, confirmed: bool, now: Instant): Outcome {
    if !confirmed then Abort(ConfirmationRequired)
    else if applicationId !in s.applications then Abort(NotFound)
    else if applicationId in s.withdrawals then Commit(s)
    else if s.applications[applicationId].status != Submitted then Abort(ApplicationIsWithdrawn)
    else
      var current := CurrentVersionOf(s, applicationId);
      if current.Some? && s.book.versions[current.value].lifecycle == Accepted then Abort(OfferAlreadyAccepted)
      else
        var entry := ActiveEntryOf(s, applicationId);
        var seat := SeatToRelease(s, applicationId);
        Commit(LeaveWith(s, applicationId, Withdrawal(now, current, seat, entry)))
  }

  // ---- What other services do to applications --------------------------------

  function OpenApplication(s: Rows, applicationId: Id, offeringId: Id): Outcome {
    if offeringId !in s.offerings then Abort(NotFound)
    else if applicationId in s.applications then Abort(ConstraintViolation)
    else Commit(s.(applications := s.applications[applicationId := Application(offeringId, Draft)]))
  }

  function SubmitApplication(s: Rows, applicationId: Id): Outcome {
    if applicationId !in s.applications then Abort(NotFound)
    else if s.applications[applicationId].status != Draft then Abort(NotSubmitted)
    else Commit(s.(applications := s.applications[applicationId := s.applications[applicationId].(status := Submitted)]))
  }

  // ---- Runs -------------------------------------------------------------------

  datatype Command =
    | OpenApplicationCmd(applicationId: Id, offeringId: Id)
    | SubmitApplicationCmd(applicationId: Id)
    | CreateCapacityCmd(offeringId: Id, configured: int, validityDays: Option<int>)
    | AdjustCapacityCmd(offeringId: Id, expectedVersion: int, configured: int, validityDays: Option<int>)
    | DecideCmd(applicationId: Id, disposition: Disposition, now: Instant, calendar: Option<DeadlineRule>,
                ids: FreshIds, entryId: Id)
    | PromoteCmd(entryId: Id, expectedCapacityVersion: int, expectedEntryVersion: int, now: Instant,
                 calendar: Option<DeadlineRule>, ids: FreshIds)
    | RespondCmd(applicationId: Id, expectedVersionId: Id, response: Response, authorized: bool, now: Instant)
    | ReopenCmd(applicationId: Id, expectedVersionId: Id, expectedCapacityVersion: int, now: Instant,
                calendar: Option<DeadlineRule>, ids: FreshIds)
    | ExpireCmd(versionId: Id, now: Instant)
    | WithdrawCmd(applicationId: Id, confirmed: bool, now: Instant)

  ghost function Execute(s: Rows, c: Command): Outcome {
    match c
    case OpenApplicationCmd(a, o) => OpenApplication(s, a, o)
    case SubmitApplicationCmd(a) => SubmitApplication(s, a)
    case CreateCapacityCmd(o, configured, days) => CreateCapacity(s, o, configured, days)
    case AdjustCapacityCmd(o, expected, configured, days) => AdjustCapacity(s, o, expected, configured, days)
    case DecideCmd(a, disposition, now, calendar, ids, entryId) => Decide(s, a, disposition, now, calendar, ids, entryId)
    case PromoteCmd(e, capacityVersion, entryVersion, now, calendar, ids) =>
      Promote(s, e, capacityVersion, entryVersion, now, calendar, ids)
    case RespondCmd(a, expected, response, authorized, now) => Respond(s, a, expected, response, authorized, now)
    case ReopenCmd(a, expected, capacityVersion, now, calendar, ids) =>
      Reopen(s, a, expected, capacityVersion, now, calendar, ids)
    case ExpireCmd(v, now) => Expire(s, v, now)
    case WithdrawCmd(a, confirmed, now) => Withdraw(s, a, confirmed, now)
  }

  ghost function Step(s: Rows, c: Command): Rows {
    Execute(s, c).After(s)
  }

  ghost function Run(s: Rows, commands: seq<Command>): Rows
    decreases commands
  {
    if commands == [] then s else Run(Step(s, commands[0]), commands[1..])
  }

  function NoRows(offerings: set<Id>): Rows {
    Rows(offerings, map[], {}, map[], map[], Book(map[], map[], map[], map[], map[]), map[], map[])
  }
}
