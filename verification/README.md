# Verification of the admission core

A Dafny model of the business logic of the school admission system, with proofs.
Every public method of the services is one database transaction; here it is one
atomic step on explicit rows that either commits or leaves the rows as they were.
`dafny verify dfyconfig.toml` checks the whole project.

## What is modelled

1. **Seats, offers and waitlist** (`capacity-offer.ts`). `AdmissionRows` holds the
   tables and one transition per transaction; `CapacityOfferService` is the service
   as a class whose methods update the tables row by row and are tied to the
   transitions. `SeatInvariants`, `SeatTransactions` and `SeatRuns` prove the
   invariant of every transaction and what a run may change; `SeatEffects` states of
   each transaction exactly when it commits and what it writes; `SeatTheorems` and
   `WaitlistView` state the results over runs. No seat counter is stored: consumption is
   recounted from the reservations, as in the source.
2. **Expiry** (`worker.ts`, `outbox.ts`). `ExpiryDeliveries` treats arbitrary
   sequences of deliveries, `ExpiryWorker` the lease protocol, the backoff and one
   round of the worker, `ExpiryEffects` when a message is claimed and what a round
   leaves, `ExpiryRuns` any number of workers that claim, expire and settle in any
   interleaving with all other transactions.
3. **Business calendar** (`business-calendar.ts`). `CivilDates` and `IsoDates` for
   dates as strings, `BusinessDays` for the counting loops, `LocalTime` for the
   search for a local time, `OfferDeadline` for deadlines and reminders.
   `OfferDeadline.CalendarRule` is the rule the seat transactions take as input;
   `OfferSchedule` carries its deadlines to every version a run issues.
4. **Activities** (`activities.ts`). `Activities` holds the transitions,
   `ActivityService` the class, `ActivityChain` and `ActivityTheorems` the
   invariant and the theorems over runs, `ActivityEffects` what each transaction
   writes and when, `Pinning` the selection of versions.
5. **Application authority** (`application-authority.ts`). `StudentAge`, `Authority`
   (transitions and guard), `AuthorityTheorems` for runs and `AuthorityEffects` for
   what a declaration and a review do.
   `AuthorityService` is the class; `GuardedAcceptance` joins the guard with the
   acceptance of an offer.
6. **Audit pages** (`access-admin.ts`). `AuditPages` proves the batched reading
   equal to pages cut from a plain filter.

## Where the code does not keep a property, and when it does

- Reopening an offer decides on an application status read before the application
  is locked. With a status that has changed since, a withdrawn application gets a
  seat again (`SeatTheorems.StaleReopenSeatsWithdrawn`). What a reopen commits is
  sound if and only if the application is not withdrawn in the rows it writes to
  (`SeatTheorems.ReopenNeedsFreshStatus`), and a run keeps the invariant throughout
  if and only if no reopen of it does that
  (`SeatTheorems.RunsAreValidUnlessReopeningWithdrawn`). The commands of all other
  runs read the fresh status.
- "At most one PROGRAMADA appointment" fails after two repeats in a row
  (`ActivityTheorems.TwoRepeatsLeaveTwoProgrammed`). Only the current appointment is
  PROGRAMADA if and only if no repeat was started over a current appointment that
  was itself PROGRAMADA (`ActivityTheorems.StrandedOnlyByRepeats`).
- An activity pinned with a maximum of 0 reschedules can never be closed after
  no-shows; some run closes it if and only if the maximum is at least 1
  (`ActivityEffects.ClosableWithOneReschedule`).
- A message can be claimed more than maxAttempts times: one whose lease ran out is
  handed out again whatever its attempt counter says
  (`ExpiryWorker.DeathsExceedMaxAttempts`). It is claimed once more if and only if the
  worker of its last claim died, or failed for the moment with fewer than maxAttempts
  claims made (`ExpiryWorker.ClaimedOnceMore`); so the bound is exceeded exactly when
  the worker of claim number maxAttempts dies (`ExpiryWorker.ClaimsAreBounded`).
- Delays are monotone if and only if the base delay is not negative; unlike the
  document worker, the offer expiry worker does not check its base delay.
- Shifting dates twice equals shifting once only if the date between lies from
  0100-01-01 to 9999-12-31: Date.UTC takes the years 0 to 99 for 1900 to 1999, and
  five-digit years do not parse.
- For the same reason the local time search misses some times of the first two days
  of the year 100, for instance midnight of 0100-01-01 four hours west of Greenwich
  (`LocalTime.FirstMidnightIsMissedInTheWest`). In a zone of one fixed offset a time
  resolves if and only if the target read as UTC shows no time before 0100-01-01
  (`LocalTime.FixedOffsetResolves`), and around a jump the same holds of the first
  two guesses (`LocalTime.OneJumpIsSolved`).
- The parts of a local time carry the year of the era and not the era, so an instant
  before 1 AD reads as a year AD. A local date is that of its instant from 1 AD on
  (`OfferDeadline.ShownLocalDate`).
- A time that occurs twice resolves to its first occurrence if and only if, read as
  UTC, it lies before the jump (`LocalTime.RepeatedTimeResolves`).
- The audit evidence in docs/e5/08-e5h-reports-permissions-audit-evidence.md (line
  307) promises that the pages rebuild all authorised events. That holds if and only
  if the limit is positive or nothing is visible; the HTTP schema admits 1 to 100.

## Assumptions about the surroundings

- Identifiers of new rows are inputs. One that is taken aborts the transaction like
  a unique key violation.
- From the schema: one capacity per offering and one offer per application, so
  capacities are named by their offering and offers by their application; versions
  start at 1; a deadline must follow its issue; reschedule limits are not negative;
  a version number occurs once per definition; appointment and attempt sequences
  are unique per activity.
- The decision transaction of `recommendation.ts` is the caller of the disposition
  effects: it requires a SUBMITTED application without a final decision.
- Offsets of a zone are at most a day, and for deadlines and reminders any two of
  them differ by less than ten hours. A worker's clock does not run backwards while
  it handles a claim; clocks of different workers may differ.
- The base delay of the expiry worker is not negative (its default is a second) and
  the lease is positive, as the outbox checks.

## Model

| member | source | states |
|---|---|---|
| `SeatInvariants.IssueKeepsValid` | packages/database/src/capacity-offer.ts:549-622 | issuing a version (seat, version, offer, job, capacity version) keeps every clause of the invariant whenever the offer is new or expired, a seat is free and the application is not withdrawn |
| `SeatInvariants.SettleKeepsValid` | packages/database/src/capacity-offer.ts:633-662 | closing the open version together with its seat keeps every clause of the invariant |
| `SeatInvariants.IssueConsumesOneSeat` | packages/database/src/capacity-offer.ts:365-372 | recounting after an issue gives exactly one consumed seat more at its capacity and the same number elsewhere |
| `SeatInvariants.SettleSeats` | packages/database/src/capacity-offer.ts:365-372 | recounting after an acceptance gives the same number, after a release one less |
| `SeatTransactions.CreateCapacityKeepsValid` | packages/database/src/capacity-offer.ts:711-747 | creating a capacity keeps the invariant |
| `SeatTransactions.AdjustCapacityKeepsValid` | packages/database/src/capacity-offer.ts:749-819 | adjusting a capacity keeps the invariant; it never falls below the consumed seats |
| `SeatTransactions.ReserveAndIssueKeepsValid` | packages/database/src/capacity-offer.ts:496-631 | reserving and issuing a first version keeps the invariant |
| `SeatTransactions.DecideKeepsValid` | packages/database/src/recommendation.ts:826-936 | a decision with its disposition effects keeps the invariant |
| `SeatTransactions.PromoteKeepsValid` | packages/database/src/capacity-offer.ts:870-943 | promoting a waitlist entry keeps the invariant |
| `SeatTransactions.RespondKeepsValid` | packages/database/src/capacity-offer.ts:1411-1556 | accepting and declining keep the invariant |
| `SeatTransactions.ReopenKeepsValid` | packages/database/src/capacity-offer.ts:1042-1185 | reopening an expired offer keeps the invariant when the status it decides on is current |
| `SeatTransactions.ExpireKeepsValid` | packages/database/src/capacity-offer.ts:1187-1242 | an expiry, whatever it finds, keeps the invariant |
| `SeatTransactions.WithdrawKeepsValid` | packages/database/src/capacity-offer.ts:1244-1361 | a withdrawal keeps the invariant |
| `SeatTransactions.WithdrawRepeats` | packages/database/src/capacity-offer.ts:1260-1268 | repeating a withdrawal changes nothing |
| `SeatRuns.ReachableIsValid` | packages/database/src/capacity-offer.ts:705-1556 | every state any run of transactions reaches from empty tables satisfies the invariant |
| `SeatRuns.RunEvolves` | packages/database/src/capacity-offer.ts:705-1556 | between any two points of a run rows only move forward: identities stay, closed rows and records stay, capacity versions and ledgers grow |
| `SeatTheorems.SeatSafety` | packages/database/src/capacity-offer.ts:1389-1389 | in every reachable state consumed seats do not exceed the configured capacity, so the clamp of the available count never acts |
| `SeatTheorems.OffersAndSeatsInLockStep` | packages/database/src/capacity-offer.ts:496-662 | in every reachable state each version owns a seat of its own whose state mirrors its lifecycle, every seat is owned, and all but current versions are EXPIRED |
| `SeatTheorems.AcceptancesMatchVersions` | packages/database/src/capacity-offer.ts:1496-1513 | an acceptance record exists exactly if the current version is ACCEPTED, names it, and was made before its deadline |
| `SeatTheorems.ConsumedSeatsCountHolders` | packages/database/src/capacity-offer.ts:365-372 | the recount of consumed seats equals the number of applications whose current version is ACTIVE or ACCEPTED |
| `SeatTheorems.NumberIsTaken` | packages/database/src/capacity-offer.ts:1130-1140 | following previousVersionId from the current version meets every number down to 1 |
| `SeatTheorems.VersionsAreNumberedThrough` | packages/database/src/capacity-offer.ts:1126-1142 | the versions of an offer are numbered 1..n, each number once, n being the current one |
| `SeatTheorems.WithdrawalIsForever` | packages/database/src/capacity-offer.ts:1256-1360 | once withdrawn: one unchanged record, and in every later state of any run no ACTIVE or COMMITTED seat, no ACTIVE version, no ACTIVE entry, and repeating changes nothing |
| `SeatTheorems.WithdrawalTakesEffect` | packages/database/src/capacity-offer.ts:1251-1282 | a withdrawal is recorded if and only if it is confirmed, the application is SUBMITTED and its offer not accepted |
| `SeatTheorems.ReopenNeedsFreshStatus` | packages/database/src/capacity-offer.ts:1052-1088 | a reopen that commits on a status read before the lock keeps the invariant if and only if the application is not withdrawn in the rows it writes to |
| `SeatTheorems.StaleReopenSeatsWithdrawn` | packages/database/src/capacity-offer.ts:1055-1088 | after a concrete run, a status read at 1055 that is stale lets the reopen commit and seat a withdrawn application; with a fresh read it throws |
| `SeatTheorems.RunsAreValidUnlessReopeningWithdrawn` | packages/database/src/capacity-offer.ts:1042-1185 | with the statuses its reopens observed as inputs, a run keeps the invariant at every point if and only if no committed reopen writes to a withdrawn application |
| `SeatTheorems.AcceptanceIsFinal` | packages/database/src/capacity-offer.ts:1485-1520 | an acceptance stands unchanged in every later state, with its version ACCEPTED and its seat COMMITTED |
| `SeatTheorems.TerminalVersionsNeverChange` | packages/database/src/capacity-offer.ts:1470-1475 | a version that has left ACTIVE is the same row at every later point of a run |
| `SeatTheorems.VersionIsFaithfulWitness` | packages/database/src/capacity-offer.ts:597-600 | two points of a run with equal capacity version have equal configuration, validity, ledger and seats |
| `SeatTheorems.LedgerReplays` | packages/database/src/capacity-offer.ts:783-806 | the ledger only grows, and its new entries lead from the earlier configured capacity to the later one |
| `SeatTheorems.LedgerReplaysFromCreation` | packages/database/src/capacity-offer.ts:783-806 | replaying the whole ledger from the initial value gives the present configured capacity |
| `SeatTheorems.PromotionIsInOrder` | packages/database/src/capacity-offer.ts:911-917 | whatever the transaction, an entry becomes PROMOTED only if it was first among the ACTIVE ones of its offering |
| `SeatTheorems.NobodyOvertakes` | packages/database/src/capacity-offer.ts:911-917 | in any run a waiting entry is not promoted while one that came before it still waits |
| `WaitlistView.ListWaitlist` | packages/database/src/capacity-offer.ts:848-866 | the running counter gives every row its place: one more than the number of waiting entries ahead of it, 0 if it does not wait |
| `WaitlistView.FirstPlaceIsFirstInLine` | packages/database/src/capacity-offer.ts:848-917 | position 1 is exactly the entry promotion accepts as first |
| `WaitlistView.PlacesAreOneToK` | packages/database/src/capacity-offer.ts:852-861 | the positions of the waiting entries are 1..k, each once |
| `SeatEffects.CreateCapacityExactly` | packages/database/src/capacity-offer.ts:711-747 | a capacity is created if and only if the offering is known and has none, the number is not negative and the validity is 1 to 30 days, 3 if not given; it starts at version 1 with nothing consumed |
| `SeatEffects.AdjustCapacityExactly` | packages/database/src/capacity-offer.ts:749-819 | an adjustment commits if and only if it names the current version and stays at or above the consumed seats; a change is numbered and recorded, no change leaves the rows |
| `SeatEffects.RefusedAdjustments` | packages/database/src/capacity-offer.ts:765-779 | a well-formed adjustment is refused for its version or for falling below the consumed seats, exactly |
| `SeatEffects.FirstVersionExactly` | packages/database/src/capacity-offer.ts:496-631 | a first version is issued if and only if a seat is free on the expected capacity version, the new ids are unused and the calendar schedules it; every row it writes is named |
| `SeatEffects.ApprovalExactly` | packages/database/src/capacity-offer.ts:664-703 | an approval commits if and only if the application is SUBMITTED and undecided, its offering has a free seat and the calendar schedules the offer; it then consumes one seat more |
| `SeatEffects.OtherDispositionsExactly` | packages/database/src/capacity-offer.ts:664-703 | the waitlist disposition adds one ACTIVE entry of that moment, a rejection only the decision, a return to review nothing |
| `SeatEffects.RefusedApprovals` | packages/database/src/capacity-offer.ts:508-538 | an undecided application is refused an offer for want of a capacity or of a free seat, exactly |
| `SeatEffects.PromotionExactly` | packages/database/src/capacity-offer.ts:870-943 | an entry is promoted if and only if of all waiting ones it entered first, both expected versions are current, a seat is free and the calendar schedules the offer; it becomes PROMOTED with a first version from the waitlist and one seat more consumed |
| `SeatEffects.RefusedPromotions` | packages/database/src/capacity-offer.ts:885-925 | a waiting entry of the expected version is refused for not being first, then for the capacity version, then for want of a seat, exactly |
| `SeatEffects.ReopeningExactly` | packages/database/src/capacity-offer.ts:1042-1185 | an offer is reopened if and only if its current version is the expected one and EXPIRED, the application is not withdrawn, a seat is free on the expected capacity version and the calendar schedules it; the new version has the next number and names the old one |
| `SeatEffects.RefusedReopenings` | packages/database/src/capacity-offer.ts:1072-1108 | each reason for refusing to reopen the current version, exactly |
| `SeatEffects.DeclineExactly` | packages/database/src/capacity-offer.ts:1411-1556 | a decline commits if and only if the expected version is current and either open before its deadline or already declined by the family; in the first case version, seat, consumed seats and capacity version change as named and no other row, in the second none |
| `SeatEffects.AcceptExactly` | packages/database/src/capacity-offer.ts:1411-1556 | an acceptance commits if and only if the expected version is current and either open before its deadline with authority, or already accepted; in the first case it leaves record, committed seat, capacity version and as many consumed seats, in the second everything as it was |
| `SeatEffects.RefusedAnswers` | packages/database/src/capacity-offer.ts:1428-1484 | an answer is refused as late exactly at or after the deadline of the open version, and the other reasons likewise |
| `SeatEffects.ExpiryExactly` | packages/database/src/capacity-offer.ts:1187-1242 | an expiry closes exactly an open version at or after its deadline, frees its seat and moves its capacity, and otherwise changes nothing |
| `SeatEffects.VerdictExactly` | packages/database/src/capacity-offer.ts:1187-1242 | the verdict tells a version expired now, not due yet, superseded by a later number of its offer, or closed before |
| `SeatEffects.WithdrawalExactly` | packages/database/src/capacity-offer.ts:1244-1361 | a withdrawal commits if and only if it is confirmed and either recorded before, changing nothing, or of a SUBMITTED application without an acceptance |
| `SeatEffects.OpenOfferIsLetGo` | packages/database/src/capacity-offer.ts:1284-1361 | a withdrawal with an open offer closes it as withdrawn, frees its seat and names both in the record |
| `SeatEffects.NothingElseIsLetGo` | packages/database/src/capacity-offer.ts:1284-1361 | without an open offer a withdrawal gives up at most the waiting entry, and names the closed version and its seat in the record |
| `CapacityOfferService.Service.CreateCapacity` | packages/database/src/capacity-offer.ts:711-747 | the rows after the method are those of the transition, or unchanged with its code; on valid rows the invariant, seats within capacity and withdrawn applications are kept |
| `CapacityOfferService.Service.AdjustCapacity` | packages/database/src/capacity-offer.ts:749-819 | likewise: version, ledger entry and the refusal below consumed seats; on valid rows the invariant, seats within capacity and withdrawn applications are kept |
| `CapacityOfferService.Service.IssueFirstVersion` | packages/database/src/capacity-offer.ts:496-631 | likewise: seat, offer, version, job and capacity version, or the reason for refusing |
| `CapacityOfferService.Service.ReleaseReservation` | packages/database/src/capacity-offer.ts:633-662 | frees the seat and moves the capacity version only if the seat was ACTIVE |
| `CapacityOfferService.Service.ApplyDirectionDisposition` | packages/database/src/capacity-offer.ts:664-703 | likewise: issue, waitlist entry or nothing, by disposition; on valid rows the invariant, seats within capacity and withdrawn applications are kept |
| `CapacityOfferService.Service.PromoteWaitlistEntry` | packages/database/src/capacity-offer.ts:870-943 | likewise: only the first ACTIVE entry, with its offer; on valid rows the invariant, seats within capacity and withdrawn applications are kept |
| `CapacityOfferService.Service.FirstActiveEntry` | packages/database/src/capacity-offer.ts:911-914 | finds the first ACTIVE entry of an offering, if there is one |
| `CapacityOfferService.Service.RespondToOffer` | packages/database/src/capacity-offer.ts:1411-1556 | likewise; from valid rows an answer in time to the open version leaves it DECLINED by the family with its seat free and one seat less consumed, or with authority ACCEPTED with record and committed seat, and without it everything as it was |
| `CapacityOfferService.Service.ReopenOffer` | packages/database/src/capacity-offer.ts:1042-1185 | likewise, deciding on the status that was observed; on valid rows the invariant is kept if and only if no withdrawn application is reopened |
| `CapacityOfferService.Service.ExpireOfferVersion` | packages/database/src/capacity-offer.ts:1187-1242 | likewise, with the verdict returned to the caller; on valid rows the invariant, seats within capacity and withdrawn applications are kept |
| `CapacityOfferService.Service.WithdrawApplication` | packages/database/src/capacity-offer.ts:1244-1361 | from valid rows the transition: version, seat, entry, record and status, with the invariant kept; from any rows it records the withdrawal or leaves them unchanged |
| `GuardedAcceptance.AcceptedExactlyWithAuthority` | packages/database/src/capacity-offer.ts:1459-1520 | an offer becomes accepted if and only if its current version is open in time and the actor holds a verified authority matching family, date of birth and age |
| `ExpiryDeliveries.OneDelivery` | packages/database/src/capacity-offer.ts:1187-1242 | one delivery frees at most the seat of its own version and changes nothing else |
| `ExpiryDeliveries.DeliveriesExpireTheDue` | apps/worker/src/worker.ts:278-299 | any sequence of deliveries, early, late, repeated or out of order, expires exactly the open versions it finds past their deadline and frees exactly their seats |
| `ExpiryDeliveries.ExactlyExpiredCompose` | apps/worker/src/worker.ts:278-299 | expiring one set of versions and then a disjoint one is expiring both |
| `ExpiryDeliveries.DueVersionsDetermineRows` | packages/database/src/capacity-offer.ts:1187-1242 | two delivery sequences that find the same versions due leave the same rows, up to the instant of closing |
| `ExpiryRuns.AtLeastOnceIsExactlyOnce` | apps/worker/src/worker.ts:278-321 | deliveries on time, repeated and interleaved with any other transactions, leave exactly the rows that the first delivery of each version alone would leave |
| `ExpiryRuns.DeliveryCloses` | packages/database/src/capacity-offer.ts:1202-1228 | an expiry at or after the deadline commits and leaves its version closed |
| `ExpiryRuns.EnqueuedIsSound` | packages/database/src/capacity-offer.ts:433-451 | the message an issue enqueues waits for the deadline of its version |
| `ExpiryRuns.MoveKeepsSound` | apps/worker/src/worker.ts:273-321 | claims, expiries, settlements and other transactions, in any interleaving of any number of workers, keep messages and workers sound, and every expiry a worker runs is on time |
| `ExpiryRuns.SentMeansClosed` | apps/worker/src/worker.ts:278-299 | however the workers overlap, fail or die, the version of a message that ends SENT is closed |
| `ExpiryRuns.RowsFollowActs` | apps/worker/src/worker.ts:278-299 | the rows of any run of workers and transactions are those of its expiries and transactions in order, every expiry on time |
| `ExpiryRuns.WorkersDeliverExactlyOnce` | apps/worker/src/worker.ts:256-324 | from any valid rows, any run of retrying, overlapping and dying workers among other transactions leaves the rows of the run with only the first delivery of each version |
| `ExpiryRuns.RoundIsARun` | apps/worker/src/worker.ts:256-324 | an uninterrupted round is one such run: claim, expiry, settlement |
| `ExpiryDeliveries.RedeliveryIsSpent` | packages/database/src/capacity-offer.ts:1197-1212 | once a job took effect, delivering it again after any further run, reopening included, changes nothing |
| `ExpiryDeliveries.ClaimedJobIsDue` | packages/database/src/capacity-offer.ts:433-451 | a job claimed at or after its availability is never refused as not yet due |
| `ExpiryWorker.BackoffIsMonotone` | apps/worker/src/worker.ts:306-310 | delays never shrink from attempt to attempt if and only if the base delay is not negative |
| `ExpiryWorker.BackoffGrows` | apps/worker/src/worker.ts:306-310 | with a base of 0 or more, delays grow with the attempts and stay within 24 hours |
| `ExpiryWorker.ClaimsAreBounded` | apps/worker/src/worker.ts:303-318 | more than maxAttempts claims happen only if the worker of every claim from number maxAttempts up to the last but one died; if that claim is settled, it is the last |
| `ExpiryWorker.ClaimedOnceMore` | apps/worker/src/worker.ts:303-318 | a message is claimed once more if and only if the worker of its last claim died, or failed for the moment with fewer than maxAttempts claims made |
| `ExpiryWorker.LastEndingDecides` | apps/worker/src/worker.ts:299-318 | every claim counts one attempt and the last ending decides the status of the message |
| `ExpiryWorker.DeathsExceedMaxAttempts` | packages/database/src/outbox.ts:47-84 | if every worker dies, a new message is claimed any number of times, whatever maxAttempts is |
| `ExpiryWorker.HandlingKeepsTimely` | packages/database/src/outbox.ts:112-136 | claims and requeues never make a job available before the deadline it waits for |
| `ExpiryWorker.HandledMeansClosed` | apps/worker/src/worker.ts:278-299 | a timely job handled to the end leaves its version closed |
| `ExpiryWorker.LifeKeepsTimely` | packages/database/src/outbox.ts:47-136 | over a whole life of claims and requeues a job stays unavailable before the deadline it waits for |
| `ExpiryWorker.AnyClaimCloses` | apps/worker/src/worker.ts:278-299 | after any life the next claim that runs the expiry leaves the version closed |
| `ExpiryWorker.OfferExpiryWorker.ClaimNext` | packages/database/src/outbox.ts:47-84 | claims the claimable message first in the order of claim or availability, adding one attempt, or none if none is claimable |
| `ExpiryWorker.OfferExpiryWorker.SettleClaim` | packages/database/src/outbox.ts:86-135 | settles a message only under the lease it was claimed with |
| `ExpiryWorker.OfferExpiryWorker.ProcessTenant` | apps/worker/src/worker.ts:256-324 | one uninterrupted round: the claimed message, the expiry it causes, and sent, requeued or failed; rounds that overlap are the runs of ExpiryRuns |
| `ExpiryEffects.BackoffDoubles` | apps/worker/src/worker.ts:305-310 | the first delay is the base, each further one twice the one before, none more than 24 hours |
| `ExpiryEffects.ClaimedAgainExactly` | apps/worker/src/worker.ts:299-318 | after a claim a message may be claimed again exactly from a lease later if its worker died, or from the delay on if it failed for the moment with attempts left |
| `ExpiryEffects.LongestWaitGoesFirst` | packages/database/src/outbox.ts:47-84 | the message claimed next is due for longest, by its claim or else its availability, and among equals was created first |
| `ExpiryEffects.StaleSettlementIsNoop` | packages/database/src/outbox.ts:86-135 | a settlement under any other claim changes nothing, and none touches another message |
| `ExpiryEffects.RoundExactly` | apps/worker/src/worker.ts:256-324 | on valid rows an undisturbed round sends the message and expires its version exactly if it is due; a payload that does not parse is given up at once, a failing store requeues after the delay or gives up at maxAttempts, and a dying worker leaves its claim |
| `CivilDates.DateOf` | packages/database/src/business-calendar.ts:150-155 | the date of a day number is a real date with that number |
| `CivilDates.DayNumberIsFaithful` | packages/database/src/business-calendar.ts:150-155 | day numbers are a bijection with the real Gregorian dates and keep their order |
| `CivilDates.YearLength` | packages/database/src/business-calendar.ts:150-155 | a year has 366 days exactly if it is a leap year, by the day number formula |
| `CivilDates.MonthEnds` | packages/database/src/business-calendar.ts:150-155 | the days before a month add up the lengths of the months before it |
| `IsoDates.FormatShape` | packages/database/src/business-calendar.ts:169-181 | the formatted string has the shape the validator wants and its fields are those of the date |
| `IsoDates.FormatOrder` | packages/database/src/business-calendar.ts:169-181 | formatted strings compare as their dates do |
| `IsoDates.ParseThenFormat` | packages/database/src/business-calendar.ts:140-181 | a string the validator accepts is the format of the date parsed from it, a real date of the years 100 to 9999 |
| `IsoDates.FormatThenParse` | packages/database/src/business-calendar.ts:140-181 | formatting and parsing a real date of the years 100 to 9999 gives it back |
| `IsoDates.FormattedIsValid` | packages/database/src/business-calendar.ts:140-181 | the string of a day is accepted if and only if the day lies from 0100-01-01 to 9999-12-31 |
| `IsoDates.ShiftIsAddition` | packages/database/src/business-calendar.ts:186-194 | shifting a date string adds to its day number |
| `IsoDates.ShiftsCompose` | packages/database/src/business-calendar.ts:186-194 | two shifts are one shift by the sum, if the date between is in range |
| `IsoDates.ShiftOutOfRangeThrows` | packages/database/src/business-calendar.ts:186-194 | if the date between is out of range the second shift throws |
| `IsoDates.DayOfWeekAdvances` | packages/database/src/business-calendar.ts:199-204 | the day of the week advances by the shift modulo 7 |
| `IsoDates.EpochIsAThursday` | packages/database/src/business-calendar.ts:191-204 | 1970-01-01 is day 0 and a Thursday |
| `IsoDates.TextOrderIsDateOrder` | packages/database/src/business-calendar.ts:140-181 | comparing accepted strings compares the dates |
| `BusinessDays.AddBusinessDaysAfter` | packages/database/src/business-calendar.ts:223-243 | the loop returns the day its counting function names, and throws when that has none |
| `BusinessDays.PreviousBusinessDate` | packages/database/src/business-calendar.ts:248-259 | the loop returns the nearest earlier business date, and throws when there is none in range |
| `BusinessDays.WorkingByWeekday` | packages/database/src/business-calendar.ts:205-215 | a day works exactly if it is a Monday to Friday and not excluded |
| `BusinessDays.CountIsCardinality` | packages/database/src/business-calendar.ts:223-243 | the count is the number of working days after the start up to the end |
| `BusinessDays.AnswerIsTheNthBusinessDate` | packages/database/src/business-calendar.ts:223-243 | a date is the answer if and only if it is a business date with exactly n business dates after the start up to it |
| `BusinessDays.NthIsTheKth` | packages/database/src/business-calendar.ts:223-243 | on day numbers: the k-th working day after d is the one day that closes an interval with k of them |
| `BusinessDays.NthIsMonotone` | packages/database/src/business-calendar.ts:223-243 | on day numbers: fewer days wanted or fewer dates excluded never end later |
| `BusinessDays.StepBetweenNeighbours` | packages/database/src/business-calendar.ts:223-259 | on day numbers: the k-th working day is the one before the (k+1)-th |
| `BusinessDays.LastIsTheLast` | packages/database/src/business-calendar.ts:248-259 | on day numbers: the previous working day has no working day between it and the given one |
| `BusinessDays.ThrowsWhenDatesRunOut` | packages/database/src/business-calendar.ts:223-243 | it throws if and only if the count or the start is invalid or fewer than n business dates remain in range |
| `BusinessDays.ExclusionsOnlyPostpone` | packages/database/src/business-calendar.ts:223-243 | excluding more dates never makes the answer earlier |
| `BusinessDays.BackFromNextIsSame` | packages/database/src/business-calendar.ts:223-259 | the business date before the (n+1)-th is the n-th |
| `BusinessDays.BackFromFirstIsNotAfterStart` | packages/database/src/business-calendar.ts:223-259 | the business date before the first one is not after the start |
| `BusinessDays.AnswerIsTheLatestEarlier` | packages/database/src/business-calendar.ts:248-259 | a date is the previous business date if and only if it is an earlier business date with none between |
| `LocalTime.CivilDateTimeToInstant` | packages/database/src/business-calendar.ts:266-315 | the correction loop returns the instant its iteration settles on if that shows the wanted parts, and throws otherwise |
| `LocalTime.ResultShowsParts` | packages/database/src/business-calendar.ts:301-314 | for any zone whatever, a result shows exactly the wanted parts, and from 1 AD on reads as the wanted date and time |
| `LocalTime.ResultShowsTarget` | packages/database/src/business-calendar.ts:266-315 | with offsets of at most a day, a result reads as exactly the wanted date and time |
| `LocalTime.OneJumpIsSolved` | packages/database/src/business-calendar.ts:284-312 | around one jump from a to b at T it throws exactly in the gap [T+a, T+b) and where one of the first two guesses reads before 0100-01-01; elsewhere two corrections are enough and the instant is named |
| `LocalTime.FourthCorrectionDecides` | packages/database/src/business-calendar.ts:284-312 | whatever a zone does, from 0100-01-03 on the search answers the target corrected four times, each time by the offset of the guess before, if that shows the target, and throws otherwise |
| `LocalTime.RepeatedTimeResolves` | packages/database/src/business-calendar.ts:284-299 | a time shown twice resolves to its first occurrence if and only if, read as UTC, it lies before the jump |
| `LocalTime.NearOrLost` | packages/database/src/business-calendar.ts:284-299 | the search stays within a day of the target, or a reading of the year 99, taken for 1999, sends it away for good |
| `LocalTime.RoundsSettle` | packages/database/src/business-calendar.ts:284-299 | outside the gap two rounds settle on an instant that shows the target, and further rounds leave it |
| `LocalTime.GuessesStayClose` | packages/database/src/business-calendar.ts:284-299 | unless lost, every guess is the target itself or the target read with one of the two offsets |
| `LocalTime.ThrowsOnlyForMissingTimes` | packages/database/src/business-calendar.ts:284-312 | with bounded offsets and one jump nearby it throws if and only if no instant shows the wanted time or one of the first two guesses reads before 0100-01-01 |
| `LocalTime.LaterDatesReadPlainly` | packages/database/src/business-calendar.ts:284-299 | from 0100-01-03 on no guess reads early |
| `LocalTime.FixedOffsetResolves` | packages/database/src/business-calendar.ts:284-312 | in a zone of one fixed offset a time resolves if and only if the target read as UTC does not show a time before 0100-01-01 |
| `LocalTime.FirstMidnightIsMissedInTheWest` | packages/database/src/business-calendar.ts:284-312 | four hours west of Greenwich midnight of 0100-01-01 is shown by an instant, and the search throws |
| `OfferDeadline.DeadlineIsTheNthBusinessDay` | packages/database/src/business-calendar.ts:320-344 | the deadline shows 23:59:59.999 on the n-th business day after the local date of issue, which from 1 AD on is the local day of the instant |
| `OfferDeadline.ShownLocalDate` | packages/database/src/business-calendar.ts:95-133 | a local date that parses is the local day of the instant if and only if that lies from 1 AD on, and is never before it |
| `OfferDeadline.DeadlineIsAfterIssue` | packages/database/src/business-calendar.ts:320-344 | with offsets less than ten hours apart the deadline lies after the instant of issue |
| `OfferDeadline.ReminderIsBetween` | packages/database/src/business-calendar.ts:350-378 | a reminder lies strictly between issue and deadline at 10:00 on the business day before; it is null only for one day |
| `OfferDeadline.CalendarMeetsTheDeadlineCheck` | packages/database/src/capacity-offer.ts:565-595 | a configured calendar never violates the check that a deadline follows its issue; which deadline and reminder it schedules, and when, is stated by the rows of OfferSchedule |
| `OfferSchedule.ScheduledExactly` | packages/database/src/capacity-offer.ts:565-595 | an issue is scheduled if and only if the local date of issue is one of the calendar, the count is a positive safe integer, that many business days remain with one before the last, and both local times resolve |
| `OfferSchedule.ScheduledOnTheNthBusinessDay` | packages/database/src/business-calendar.ts:320-378 | every schedule expires at 23:59:59.999 of the n-th business day after the local date of issue and reminds at 10:00 of the business day before, unless that is not after the issue, which happens only for one day |
| `OfferSchedule.NewVersionsFollowCalendar` | packages/database/src/capacity-offer.ts:565-622 | whichever transaction issues it, a new version and its jobs are those of the business day the validity of its capacity asks for |
| `OfferSchedule.RunKeepsSchedules` | packages/database/src/capacity-offer.ts:565-622 | in every run on one calendar every version ever issued expires, and is reminded of, on the business day of its validity of 1 to 30 days |
| `ActivityChain.ScheduleKeepsValid` | packages/database/src/activities.ts:1166-1190 | scheduling keeps the activity invariant |
| `ActivityChain.ReprogramKeepsValid` | packages/database/src/activities.ts:1191-1265 | reprogramming keeps the activity invariant and the reschedule limit |
| `ActivityChain.RecordOutcomeKeepsValid` | packages/database/src/activities.ts:1286-1436 | recording an outcome keeps the activity invariant |
| `ActivityChain.RepeatKeepsValid` | packages/database/src/activities.ts:1444-1549 | a repeat keeps the activity invariant; it never follows a no-show |
| `ActivityChain.NoRepeatAfterNoShow` | packages/database/src/activities.ts:1491-1504 | when the latest attempt is NO_COMPLETADA, the current appointment is no INASISTENCIA |
| `ActivityChain.CloseKeepsValid` | packages/database/src/activities.ts:1586-1610 | closing keeps the activity invariant |
| `ActivityChain.RunKeepsValid` | packages/database/src/activities.ts:1066-1627 | every run keeps the activity invariant |
| `ActivityTheorems.AppointmentsFormAChain` | packages/database/src/activities.ts:1166-1234 | in every reachable activity appointments are numbered 1..n along previous links, the current one is the last and not REPROGRAMADA, and none has two attempts |
| `ActivityTheorems.ReschedulesAddUp` | packages/database/src/activities.ts:472-481 | reschedules made and remaining always add up to the pinned maximum |
| `ActivityTheorems.NoShowsAreBounded` | packages/database/src/activities.ts:1191-1205 | a maximum of m reschedules leaves room for at most m + 1 no-shows |
| `ActivityTheorems.RunKeepsNoShowsRescheduled` | packages/database/src/activities.ts:1191-1234 | in every run there are at most as many no-shows as reschedules, one more if the current appointment is one |
| `ActivityTheorems.WithoutReschedulesNeverClosed` | packages/database/src/activities.ts:1589-1607 | an activity with maximum 0 can never be closed |
| `ActivityTheorems.ClosedStaysClosed` | packages/database/src/activities.ts:1164-1165 | once CERRADA, status, appointments, attempts and results never change again |
| `ActivityTheorems.ClosureNeedsTwoNoShows` | packages/database/src/activities.ts:1589-1607 | every run that reaches CERRADA contains two unjustified no-shows on different appointments with a committed reprogram of the first between them |
| `ActivityTheorems.AttemptWasRecorded` | packages/database/src/activities.ts:1352-1375 | every attempt of a reachable activity was recorded by one command of the run, with exactly the earlier attempts before it |
| `ActivityTheorems.TurnedBetween` | packages/database/src/activities.ts:1205-1230 | an appointment that became REPROGRAMADA between two points was the current one of a committed reprogram in between |
| `ActivityTheorems.EarlierNoShowIsReprogrammed` | packages/database/src/activities.ts:1330-1340 | when a further attempt is recorded, the appointment of an earlier no-show is REPROGRAMADA |
| `ActivityTheorems.StrandedOnlyByRepeats` | packages/database/src/activities.ts:1497-1530 | only the current appointment is PROGRAMADA if and only if no repeat of the run was started over a current appointment still PROGRAMADA |
| `ActivityTheorems.StepStrandsOrKeeps` | packages/database/src/activities.ts:1497-1530 | a single transaction leaves an appointment PROGRAMADA behind if and only if it is such a repeat |
| `ActivityTheorems.TwoRepeatsLeaveTwoProgrammed` | packages/database/src/activities.ts:1497-1530 | a concrete run: two repeats in a row leave two appointments PROGRAMADA |
| `ActivityService.ActivityRecord.MutateAppointment` | packages/database/src/activities.ts:1116-1265 | the rows after schedule or reprogram are those of the transition, or unchanged with its code; a valid activity stays valid, a closed one closed |
| `ActivityService.ActivityRecord.CountReprogrammed` | packages/database/src/activities.ts:1196-1202 | counts the appointments marked REPROGRAMADA |
| `ActivityService.ActivityRecord.RecordOutcome` | packages/database/src/activities.ts:1286-1436 | likewise for an outcome: attempt, appointment, result and status; a valid activity stays valid, a closed one closed |
| `ActivityService.ActivityRecord.Repeat` | packages/database/src/activities.ts:1444-1549 | likewise for a repeat; a valid activity stays valid, a closed one closed |
| `ActivityService.ActivityRecord.CloseActivityAfterNoShows` | packages/database/src/activities.ts:1551-1627 | likewise for a closure; a valid activity is closed if and only if its current appointment is not PROGRAMADA and two different attempts are unjustified no-shows, and only its status changes |
| `ActivityService.ActivityRecord.RequestFamilyReschedule` | packages/database/src/activities.ts:957-1008 | likewise for a reschedule request, which leaves status and appointments alone; a valid activity stays valid, a closed one closed |
| `ActivityEffects.ScheduleExactly` | packages/database/src/activities.ts:1158-1185 | an activity is scheduled if and only if the policy is ready and it has no appointment |
| `ActivityEffects.ReprogramExactly` | packages/database/src/activities.ts:1190-1256 | the current appointment is reprogrammed if and only if it is the expected one, the activity is open, fewer appointments than the maximum are REPROGRAMADA and a request named is pending for it; all rows written are named |
| `ActivityEffects.RepeatExactly` | packages/database/src/activities.ts:1490-1535 | a repeat starts if and only if the activity is an open diagnostic evaluation whose last attempt is NO_COMPLETADA and the current appointment is the expected one; the earlier appointments stay as they are |
| `ActivityEffects.RecordExactly` | packages/database/src/activities.ts:1298-1420 | an outcome is recorded if and only if its shape is right, the current appointment is the expected one, PROGRAMADA and assigned to the actor, and a no-show is not before the tolerance in minutes has passed; attempt, appointment, result and status are named, a no-show nobody justified counting as unjustified |
| `ActivityEffects.CloseExactly` | packages/database/src/activities.ts:1589-1612 | a closure commits if and only if the current appointment is not PROGRAMADA and two different attempts are unjustified no-shows; only the status changes |
| `ActivityEffects.RequestExactly` | packages/database/src/activities.ts:957-1008 | a request is taken if and only if it names the current appointment |
| `ActivityEffects.RefusedReprograms` | packages/database/src/activities.ts:1158-1209 | each reason for refusing to reprogram, exactly |
| `ActivityEffects.RefusedOutcomes` | packages/database/src/activities.ts:1298-1375 | each reason for refusing an outcome, exactly; a no-show is too early exactly before start plus tolerance |
| `ActivityEffects.RefusedClosures` | packages/database/src/activities.ts:1589-1603 | a closure is refused for an unresolved current appointment, or else for want of two unjustified no-shows, exactly |
| `ActivityEffects.ClosableWithOneReschedule` | packages/database/src/activities.ts:1589-1612 | some run closes an activity if and only if its maximum is at least 1, and a run of two missed appointments does |
| `Pinning.Application.Pin` | packages/database/src/activities.ts:605-660 | pins all or nothing, and nothing once something is pinned; the definitions pinned are those with a published version whose given scope parts are all those of the application, each at the one with the most given parts, then the highest number; it fails if and only if the policy of one is not ready |
| `Pinning.Create` | packages/database/src/activities.ts:637-655 | creates an activity for every selected definition, or fails if the policy of one is not ready |
| `Pinning.SortKeeps` | packages/database/src/activities.ts:624-631 | the sort permutes the versions and leaves none before one that sorts before it |
| `Pinning.PinsTheBest` | packages/database/src/activities.ts:381-419 | per definition the selected version is the unique one that applies and outranks all others that do, counting the given parts as a set and then by number; none if none applies |
| `Pinning.SortsByGivenParts` | packages/database/src/activities.ts:407-419 | the comparator puts a version first exactly if it gives more scope parts, or as many and has the higher number |
| `Pinning.MatchesExactly` | packages/database/src/activities.ts:381-405 | a version is a candidate exactly if no scope part it gives differs from the application |
| `Pinning.OneMorePartOutranks` | packages/database/src/activities.ts:624-631 | a version that gives all the parts another one gives and one more sorts before it, whatever the numbers |
| `Pinning.MoreSpecificWins` | packages/database/src/activities.ts:622-638 | a version is never selected while another one of its definition applies that gives its parts and one more |
| `Pinning.SelectionIgnoresOrder` | packages/database/src/activities.ts:622-638 | the selection does not depend on the order of the rows |
| `Pinning.OnlyABetterVersionReplaces` | packages/database/src/activities.ts:622-638 | one more published version changes the selection of its definition only if it applies and outranks the selected one |
| `StudentAge.ParsersAgree` | packages/database/src/application-authority.ts:141-158 | the date parser of the authority code accepts the same strings as the calendar's and reads them alike |
| `StudentAge.AdultFromAnniversary` | packages/database/src/application-authority.ts:164-182 | a student is adult exactly from the 18th anniversary on, 29 February counting as 1 March |
| `StudentAge.AdultStaysAdult` | packages/database/src/application-authority.ts:164-182 | being adult is monotone in the reference date |
| `AuthorityService.AssertAndLinkEvidence` | packages/database/src/application-authority.ts:418-453 | the loop links all usable documents not yet linked, or fails if one is not usable |
| `AuthorityService.ApplicationAuthorityService.NextSequenceNumber` | packages/database/src/application-authority.ts:407-416 | one more than the greatest number in the history |
| `AuthorityService.ApplicationAuthorityService.DeclareApplicationAuthority` | packages/database/src/application-authority.ts:590-732 | the case after the method is that of the transition, or unchanged with its code; a valid case stays valid and its history only grows; a first declaration succeeds if and only if actor, date of birth, age, mode, relationship and basis allow it and no version is expected |
| `AuthorityService.ApplicationAuthorityService.ReviewApplicationAuthority` | packages/database/src/application-authority.ts:781-878 | likewise for a review: edge, evidence, stamps and history |
| `AuthorityEffects.EighteenFromAnniversary` | packages/database/src/application-authority.ts:164-182 | born at least eighteen years before by year, month and day exactly from the 18th anniversary on |
| `AuthorityEffects.FirstDeclarationExactly` | packages/database/src/application-authority.ts:253-283 | a first declaration commits if and only if the active family user makes it without an expected version and it is the student's own by own right from the 18th anniversary on, or a representative's with neither before it; the record and its first history entry are named |
| `AuthorityEffects.RedeclarationExactly` | packages/database/src/application-authority.ts:642-693 | a declaration anew needs the same, the current version, and DRAFT or the take-over of a minor's submitted application by the adult student; it keeps principal, evidence and history and takes every verdict back |
| `AuthorityEffects.RecordsFitTheirAge` | packages/database/src/application-authority.ts:253-283 | every authority any run leaves fits, by mode, relationship and basis, the age of the student on the day it was declared |
| `AuthorityEffects.ReviewExactly` | packages/database/src/application-authority.ts:781-878 | a review commits if and only if it gives a reason, the current version, one of the eleven steps, and usable evidence, some of it linked for a verdict on any basis but the parent's or the student's own; stamps, version, links and history entry are named |
| `AuthorityEffects.RefusedReviews` | packages/database/src/application-authority.ts:808-862 | each reason for refusing a review, exactly |
| `AuthorityTheorems.LinkingIsAUnion` | packages/database/src/application-authority.ts:424-452 | linking appends exactly the new documents, each once |
| `AuthorityTheorems.LinkingTwiceIsOnce` | packages/database/src/application-authority.ts:438-441 | linking documents already linked changes nothing |
| `AuthorityTheorems.StepKeepsValid` | packages/database/src/application-authority.ts:590-878 | every transaction keeps the authority invariant |
| `AuthorityTheorems.HistoryIsALegalPath` | packages/database/src/application-authority.ts:118-130 | in every reachable case the history is numbered 1..n, n the version, chained from NOT_DECLARED to the status along allowed edges; VERIFIED rests on a review since the latest declaration and on evidence unless the basis is PARENT or SELF |
| `AuthorityTheorems.AppendIsLegal` | packages/database/src/application-authority.ts:370-416 | appending a declaration or an allowed edge from the current status keeps the history legal |
| `AuthorityTheorems.AdultPersists` | packages/database/src/application-authority.ts:651-660 | once an application past DRAFT has an adult student's own authority, it keeps that mode |
| `AuthorityTheorems.NothingIsErased` | packages/database/src/application-authority.ts:370-405 | history and evidence only grow and the principal stays, between any two points of a run |
| `AuthorityTheorems.SubmittedHasAuthority` | packages/database/src/application-authority.ts:460-535 | no reachable case has left DRAFT without an authority, since the submission runs the guard |
| `AuthorityTheorems.OneLateDeclaration` | packages/database/src/application-authority.ts:651-660 | in any run at most one declaration, first or anew, commits after the application left DRAFT |
| `AuthorityTheorems.GuardByAge` | packages/database/src/application-authority.ts:460-535 | the guard passes if and only if the authority is verified and matches family, actor and date of birth, and is the student's own exactly from the 18th anniversary on (actions of the years 100 to 9999) |
| `AuthorityTheorems.AdultAuthorityKeepsPassing` | packages/database/src/application-authority.ts:510-525 | an adult student's own authority that passes never fails later, up to the year 9999 |
| `AuthorityTheorems.RepresentativeFailsFromAnniversary` | packages/database/src/application-authority.ts:510-525 | a representative's authority that passes fails exactly from the 18th anniversary on, by the mode check |
| `AuthorityTheorems.ChangedBirthDateBlocks` | packages/database/src/application-authority.ts:493-500 | changing the date of birth blocks critical actions |
| `AuditPages.ListEvents` | packages/database/src/access-admin.ts:431-512 | the batch loop returns the page cut from the plain filter, for any batch contents, cursor and limit, and terminates |
| `AuditPages.VisibleExactly` | packages/database/src/access-admin.ts:378-409 | an event is shown exactly if the caller may see all, has the scope of its resource or shares a scope it was recorded under; order and repetition stay |
| `AuditPages.PageAfter` | packages/database/src/access-admin.ts:485-508 | a page is at most a positive limit long and full if another follows |
| `AuditPages.CursorMovesOn` | packages/database/src/access-admin.ts:503-508 | a next cursor names an event, lies past the start of its page and leaves exactly what the page left out |
| `AuditPages.ReadEnough` | packages/database/src/access-admin.ts:446-489 | a page does not depend on rows behind those read once more than limit events are visible |
| `AuditPages.PagesCoverTheRest` | packages/database/src/access-admin.ts:446-508 | from any cursor on, the pages together are the visible events behind it |
| `AuditPages.PagesAreThePlainFilter` | packages/database/src/access-admin.ts:446-508 | the pages together are exactly the visible events in order if and only if the limit is positive or nothing is visible |
| `AuditPages.NewEventsHideAndRepeatNothing` | packages/database/src/access-admin.ts:446-508 | events recorded between two pages, wherever they sort, neither hide nor repeat an event that was there before |
| `AuditPages.NewestEventsDoNotShiftPages` | packages/database/src/access-admin.ts:448-453 | if the events recorded meanwhile all sort before the ones there, the pages that follow a cursor are the very same |

## Left out

- Authorization, permissions, scopes of staff, ownership checks and tenants: one tenant, callers that are allowed to call. The authority guard is an input (`authorized`) of the seat transitions and is joined in by `GuardedAcceptance`.
- Prisma, PostgreSQL, row level security and locks: a transaction is one atomic step. The one read that happens before the lock and matters, the status in reopenOffer, is an input.
- Audit events, texts, reasons and their sanitising, DTO mapping and printing of timestamps.
- The methods of the classes resolve everything that may throw before they write, where the source writes first and lets the database roll back.
- The repeated final decision with identical content, which the decision transaction answers with the stored version, and the returned-to-review refusal: the first changes nothing, the second only refuses more.
- The order of ledger entries by creation time: the ledger is the sequence in which adjustments committed.
- The sending of reminders (only their time is modelled), the other three workers, and the loop of a worker over tenants and polls.
- Intl.DateTimeFormat and IANA names: a zone is any function from instants to offsets, hours are read as 0 to 23 and years as years of the era. Instants beyond the range of JavaScript dates are ordinary integers here.
- Which offsets and jumps real zones have: they are hypotheses of the local time theorems.
- Activity policy readiness, duration resolution and the executor check: inputs. Results are kept per attempt without their later versions.
- Clashes of appointment and attempt ids with rows of other activities: such a transaction aborts and is no step here.
- Array.prototype.sort is the stable insertion sort of `Pinning`; the selection is proved for it and for every order of the input.
- Documents: the set of usable document versions is an input of a review. Creation of applications, forms and document checks of a submission are not part of this model.
- Audit pages: the query of the rows with its filters is the sequence it selects; the date range limit and the metadata sanitising are not modelled. A cursor that names no selected row leaves an empty page.
- AuthorityTheorems.GuardByAge: outside the years 100 to 9999 the date of the action does not parse and the guard throws.
- LocalTime.OneJumpIsSolved: one jump near the target; with two jumps that close together only the answer of the search is named (LocalTime.FourthCorrectionDecides), not when it exists.
- IsoDates.ShiftsCompose: the date between must be in range, since the second shift throws otherwise (IsoDates.ShiftOutOfRangeThrows).
