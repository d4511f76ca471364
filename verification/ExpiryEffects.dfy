/**
  What the rounds of the expiry worker come to: when a message is claimed next, which
  one goes first, and what one round leaves in the outbox and in the rows.
*/
module ExpiryEffects {
  import opened Wrappers
  import opened AdmissionRows
  import opened SeatInvariants
  import opened ExpiryWorker
  import SeatEffects

  // ---- Waiting for the next claim -----------------------------------------------------------

  function Least(a: int, b: int): int {
    if a < b then a else b
  }

  /** The first delay is the base, each further one twice the one before, none more than 24 hours. */
  lemma BackoffDoubles(baseMs: int, attempts: nat)
    requires baseMs >= 0 && attempts >= 1
    ensures Backoff(baseMs, 1) == Least(baseMs, 86_400_000)
    ensures Backoff(baseMs, attempts + 1) == Least(2 * Backoff(baseMs, attempts), 86_400_000)
  {
    assert Power2(0) == 1;
    PowerIsPositive(baseMs, attempts - 1);
    BackoffStep(baseMs, attempts);
  }

  /**
    When a message may be claimed again: a lease after a claim that died, a delay after
    a failure that leaves attempts, and never once it is sent or given up.
  */
  lemma ClaimedAgainExactly(m: Message, attempt: Attempt, now: Instant, baseMs: int, maxAttempts: int, leaseMs: int)
    ensures var claims := m.attempts + 1;
            Claimable(Handle(m, attempt, baseMs, maxAttempts), now, leaseMs) <==>
            || (attempt.ending == Died && now - attempt.claimedAt >= leaseMs)
            || (attempt.ending == Threw(false) && claims < maxAttempts && now >= attempt.settledAt + Backoff(baseMs, claims))
  {
  }

  /** A message enqueued for a deadline may be claimed exactly from the deadline on. */
  lemma EnqueuedWaits(v: Id, createdAt: Instant, deadline: Instant, now: Instant, leaseMs: int)
    ensures Claimable(Message(Some(v), createdAt, deadline, Pending, None, 0), now, leaseMs) <==> now >= deadline
  {
  }

  /** Since when a claimable message has been due, by its claim or else by its availability. */
  predicate WaitsSince(m: Message, since: Instant) {
    (m.claimedAt == Some(since)) || (m.claimedAt == None && m.availableAt == since)
  }

  /** The message claimed next has waited longest, and of those that waited as long it was created first. */
  lemma LongestWaitGoesFirst(messages: map<Id, Message>, id: Id, now: Instant, leaseMs: int)
    ensures IsNext(messages, id, now, leaseMs) <==>
            && id in messages && Claimable(messages[id], now, leaseMs)
            && forall other, since, otherSince ::
                 other in messages && Claimable(messages[other], now, leaseMs)
                 && WaitsSince(messages[id], since) && WaitsSince(messages[other], otherSince) ==>
                   since < otherSince || (since == otherSince && messages[id].createdAt <= messages[other].createdAt)
  {
    if id in messages && !IsNext(messages, id, now, leaseMs) && Claimable(messages[id], now, leaseMs) {
      var other :| other in messages && Claimable(messages[other], now, leaseMs) && ClaimedBefore(messages[other], messages[id]);
      assert WaitsSince(messages[id], ClaimKey(messages[id])) && WaitsSince(messages[other], ClaimKey(messages[other]));
    }
  }

  // ---- Settling ---------------------------------------------------------------------------------

  /** A settlement counts only under the claim it was made for; it touches no other message. */
  lemma StaleSettlementIsNoop(
    messages: map<Id, Message>, id: Id, claimedAt: Instant, ending: Ending, now: Instant, baseMs: int, maxAttempts: int)
    ensures var after := SettleUnderLease(messages, id, claimedAt, ending, now, baseMs, maxAttempts);
            && after.Keys == messages.Keys
            && (forall other :: other in messages && other != id ==> after[other] == messages[other])
            && (id in messages && (messages[id].status != Processing || messages[id].claimedAt != Some(claimedAt)) ==> after == messages)
            && (id in messages && messages[id].status == Processing && messages[id].claimedAt == Some(claimedAt) ==>
                match ending
                case Done => after[id] == messages[id].(status := Sent)
                case Died => after == messages
                case Threw(permanent) =>
                  if permanent || maxAttempts <= messages[id].attempts then after[id] == messages[id].(status := Failed)
                  else after[id] == messages[id].(status := Pending, claimedAt := None,
                                                  availableAt := now + Backoff(baseMs, messages[id].attempts)))
  {
  }

  // ---- One round ----------------------------------------------------------------------------------

  /** The message after a claim at this time. */
  function Taken(m: Message, at: Instant): Message {
    Message(m.versionId, m.createdAt, m.availableAt, Processing, Some(at), m.attempts + 1)
  }

  /** The version is open and its deadline has come. */
  predicate Due(b: Book, v: Id, at: Instant) {
    v in b.versions && b.versions[v].lifecycle == Active && b.versions[v].expiresAt <= at
  }

  /**
    An undisturbed round sends the message and expires its version if it is due, a
    payload that names no version is given up at once, and a worker that dies leaves
    its claim; the rows change only in rounds that reach the expiry.
  */
  lemma RoundExactly(
    s: Rows, m: Message, fault: Fault, claimAt: Instant, expireAt: Instant, settleAt: Instant, baseMs: int, maxAttempts: int)
    requires Valid(s)
    ensures var outcome := if m.versionId.Some? then Expire(s, m.versionId.value, expireAt) else Commit(s);
            var after := Handle(m, Attempt(claimAt, settleAt, EndingOf(m, outcome, fault)), baseMs, maxAttempts);
            var taken := Taken(m, claimAt);
            && (fault == DiesBeforeExpiry || fault == DiesBeforeMark ==> after == taken)
            && (fault == NoFault && m.versionId.Some? ==> after == taken.(status := Sent))
            && ((fault == NoFault || fault == StoreFails) && m.versionId.None? ==> after == taken.(status := Failed))
            && (fault == StoreFails && m.versionId.Some? ==>
                after == if taken.attempts < maxAttempts
                         then taken.(status := Pending, claimedAt := None, availableAt := settleAt + Backoff(baseMs, taken.attempts))
                         else taken.(status := Failed))
    ensures var runs := m.versionId.Some? && (fault == NoFault || fault == DiesBeforeMark) && Due(s.book, m.versionId.value, expireAt);
            && (!runs ==> RowsAfter(s, m, fault, expireAt) == s)
            && (runs ==>
                && s.book.versions[m.versionId.value].reservationId in s.book.reservations
                && s.book.reservations[s.book.versions[m.versionId.value].reservationId].capacityId in s.capacities
                && RowsAfter(s, m, fault, expireAt)
                   == SeatEffects.WithSeatFreed(s, m.versionId.value, Expired, expireAt, DeadlineExpired))
  {
    hide Valid, Expire, SeatEffects.WithSeatFreed;
    if m.versionId.Some? {
      SeatEffects.ExpiryExactly(s, m.versionId.value, expireAt);
    }
  }
}
