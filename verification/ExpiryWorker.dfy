/**
  The outbox lease protocol and the worker that drives offer expiry
  (apps/worker/src/worker.ts with packages/database/src/outbox.ts): claim a due
  message, expire the version it names, then mark it sent, requeue it with
  exponential backoff or give it up.
*/
module ExpiryWorker {
  import opened Wrappers
  import opened AdmissionRows
  import opened SeatInvariants
  import opened ExpiryDeliveries
  import Offers = CapacityOfferService

  datatype MessageStatus = Pending | Processing | Sent | Failed

  /** An expiry message; `versionId` is None when its payload does not parse. */
  datatype Message = Message(
    versionId: Option<Id>, createdAt: Instant, availableAt: Instant, status: MessageStatus,
    claimedAt: Option<Instant>, attempts: nat)

  predicate Claimable(m: Message, now: Instant, leaseMs: int) {
    match m.status
    case Pending => m.availableAt <= now
    case Processing => m.claimedAt.Some? && m.claimedAt.value <= now - leaseMs
    case Sent => false
    case Failed => false
  }

  function ClaimKey(m: Message): Instant {
    if m.claimedAt.Some? then m.claimedAt.value else m.availableAt
  }

  predicate ClaimedBefore(m: Message, n: Message) {
    ClaimKey(m) < ClaimKey(n) || (ClaimKey(m) == ClaimKey(n) && m.createdAt < n.createdAt)
  }

  predicate IsNext(messages: map<Id, Message>, id: Id, now: Instant, leaseMs: int) {
    && id in messages && Claimable(messages[id], now, leaseMs)
    && forall other :: other in messages && Claimable(messages[other], now, leaseMs) ==> !ClaimedBefore(messages[other], messages[id])
  }

  function Claim(m: Message, now: Instant): Message {
    m.(status := Processing, claimedAt := Some(now), attempts := m.attempts + 1)
  }

  // ---- Retry ----------------------------------------------------------------------

  const DAY_MS := 24 * 60 * 60 * 1000

  function Power2(n: nat): nat {
    if n == 0 then 1 else 2 * Power2(n - 1)
  }

  function Backoff(baseMs: int, attempts: nat): int {
    var delay := baseMs * Power2(if attempts == 0 then 0 else attempts - 1);
    if delay < DAY_MS then delay else DAY_MS
  }

  lemma BackoffStep(baseMs: int, attempts: nat)
    requires attempts >= 1
    ensures baseMs * Power2(attempts) == 2 * (baseMs * Power2(attempts - 1))
  {
    calc {
      baseMs * Power2(attempts);
      baseMs * (2 * Power2(attempts - 1));
      2 * (baseMs * Power2(attempts - 1));
    }
  }

  lemma {:induction false} BackoffGrows(baseMs: int, fewer: nat, more: nat)
    requires baseMs >= 0 && fewer <= more
    ensures 0 <= Backoff(baseMs, fewer) <= Backoff(baseMs, more) <= DAY_MS
    decreases more
  {
    PowerIsPositive(baseMs, if fewer == 0 then 0 else fewer - 1);
    if fewer < more {
      BackoffGrows(baseMs, fewer, more - 1);
      if more >= 2 {
        BackoffStep(baseMs, more - 1);
      }
    }
  }

  lemma PowerIsPositive(baseMs: int, n: nat)
    requires baseMs >= 0
    ensures Power2(n) >= 1 && baseMs * Power2(n) >= 0
  {
  }

  /** Delays never shrink from one attempt to the next exactly when the base delay is not negative. */
  lemma BackoffIsMonotone(baseMs: int)
    ensures (forall fewer: nat, more: nat :: fewer <= more ==> Backoff(baseMs, fewer) <= Backoff(baseMs, more)) <==> baseMs >= 0
  {
    if baseMs >= 0 {
      forall fewer: nat, more: nat | fewer <= more ensures Backoff(baseMs, fewer) <= Backoff(baseMs, more) {
        BackoffGrows(baseMs, fewer, more);
      }
    } else {
      assert Power2(0) == 1 && Power2(1) == 2;
      assert Backoff(baseMs, 1) == baseMs && Backoff(baseMs, 2) == baseMs * 2;
    }
  }

  /** How the handling of a claimed message ends. */
  datatype Ending = Done | Threw(permanent: bool) | Died

  function SettleMessage(m: Message, ending: Ending, now: Instant, baseMs: int, maxAttempts: int): Message {
    match ending
    case Done => m.(status := Sent)
    case Died => m
    case Threw(permanent) =>
      if permanent || m.attempts >= maxAttempts then m.(status := Failed)
      else m.(status := Pending, availableAt := now + Backoff(baseMs, m.attempts), claimedAt := None)
  }

  /** markSent, markFailed and requeueAfterFailure act only under the lease of the claim. */
  function SettleUnderLease(
    messages: map<Id, Message>, id: Id, expectedClaimedAt: Instant, ending: Ending, now: Instant, baseMs: int, maxAttempts: int)
    : map<Id, Message>
  {
    if id in messages && messages[id].status == Processing && messages[id].claimedAt == Some(expectedClaimedAt)
    then messages[id := SettleMessage(messages[id], ending, now, baseMs, maxAttempts)]
    else messages
  }

  /** One claim of a message and how it ended. */
  datatype Attempt = Attempt(claimedAt: Instant, settledAt: Instant, ending: Ending)

  function Handle(m: Message, attempt: Attempt, baseMs: int, maxAttempts: int): Message {
    SettleMessage(Claim(m, attempt.claimedAt), attempt.ending, attempt.settledAt, baseMs, maxAttempts)
  }

  /** The attempts are a possible life of the message: each claims it while it may be claimed. */
  predicate Life(m: Message, attempts: seq<Attempt>, baseMs: int, maxAttempts: int, leaseMs: int)
    decreases attempts
  {
    attempts == []
    || (Claimable(m, attempts[0].claimedAt, leaseMs)
        && Life(Handle(m, attempts[0], baseMs, maxAttempts), attempts[1..], baseMs, maxAttempts, leaseMs))
  }

  /** The message after a life. */
  function Handled(m: Message, attempts: seq<Attempt>, baseMs: int, maxAttempts: int): Message
    decreases attempts
  {
    if attempts == [] then m else Handled(Handle(m, attempts[0], baseMs, maxAttempts), attempts[1..], baseMs, maxAttempts)
  }

  lemma {:induction false} LifeExtends(m: Message, attempts: seq<Attempt>, next: Attempt, baseMs: int, maxAttempts: int, leaseMs: int)
    ensures Life(m, attempts + [next], baseMs, maxAttempts, leaseMs) <==>
            Life(m, attempts, baseMs, maxAttempts, leaseMs)
            && Claimable(Handled(m, attempts, baseMs, maxAttempts), next.claimedAt, leaseMs)
    decreases attempts
  {
    if attempts == [] {
      assert attempts + [next] == [next] && [next][1..] == [];
    } else {
      assert (attempts + [next])[1..] == attempts[1..] + [next];
      LifeExtends(Handle(m, attempts[0], baseMs, maxAttempts), attempts[1..], next, baseMs, maxAttempts, leaseMs);
    }
  }

  /** Every claim counts, and the last ending decides what becomes of the message. */
  lemma {:induction false} LastEndingDecides(m: Message, attempts: seq<Attempt>, baseMs: int, maxAttempts: int)
    requires attempts != []
    ensures var last, h := attempts[|attempts| - 1], Handled(m, attempts, baseMs, maxAttempts);
            && h.attempts == m.attempts + |attempts|
            && match last.ending
               case Done => h.status == Sent
               case Died => h.status == Processing && h.claimedAt == Some(last.claimedAt)
               case Threw(permanent) => h.status == if permanent || h.attempts >= maxAttempts then Failed else Pending
    decreases attempts
  {
    if |attempts| == 1 {
      assert attempts[1..] == [];
    } else {
      LastEndingDecides(Handle(m, attempts[0], baseMs, maxAttempts), attempts[1..], baseMs, maxAttempts);
    }
  }

  /**
    A message is claimed once more exactly if the worker of its last claim died, or
    failed for the moment with fewer than maxAttempts claims made.
  */
  lemma ClaimedOnceMore(m: Message, attempts: seq<Attempt>, baseMs: int, maxAttempts: int, leaseMs: int)
    requires m.attempts == 0 && attempts != [] && Life(m, attempts, baseMs, maxAttempts, leaseMs)
    ensures (exists next :: Life(m, attempts + [next], baseMs, maxAttempts, leaseMs)) <==>
            var last := attempts[|attempts| - 1].ending;
            last == Died || (last == Threw(false) && |attempts| < maxAttempts)
  {
    var last, h := attempts[|attempts| - 1].ending, Handled(m, attempts, baseMs, maxAttempts);
    LastEndingDecides(m, attempts, baseMs, maxAttempts);
    forall next
      ensures Life(m, attempts + [next], baseMs, maxAttempts, leaseMs) <==> Claimable(h, next.claimedAt, leaseMs)
    {
      LifeExtends(m, attempts, next, baseMs, maxAttempts, leaseMs);
    }
    var when := if h.status == Pending then h.availableAt else if h.claimedAt.Some? then h.claimedAt.value + leaseMs else 0;
    var next := Attempt(when, when, Done);
    assert last == Died || (last == Threw(false) && |attempts| < maxAttempts) ==> Claimable(h, next.claimedAt, leaseMs);
    assert Life(m, attempts + [next], baseMs, maxAttempts, leaseMs) <==> Claimable(h, next.claimedAt, leaseMs);
  }

  /** The number of claims after which a failure is final. */
  function ClaimLimit(maxAttempts: int): nat {
    if maxAttempts < 1 then 1 else maxAttempts
  }

  lemma {:induction false} LifePrefix(m: Message, attempts: seq<Attempt>, k: nat, baseMs: int, maxAttempts: int, leaseMs: int)
    requires k <= |attempts| && Life(m, attempts, baseMs, maxAttempts, leaseMs)
    ensures Life(m, attempts[..k], baseMs, maxAttempts, leaseMs)
    decreases attempts
  {
    if k > 0 {
      assert attempts[..k][1..] == attempts[1..][..k - 1];
      LifePrefix(Handle(m, attempts[0], baseMs, maxAttempts), attempts[1..], k - 1, baseMs, maxAttempts, leaseMs);
    }
  }

  /**
    More than maxAttempts claims (one, if maxAttempts is below one) happen only if
    the worker of every claim from that number on, up to the last but one, died: if
    that claim is settled in any way, it is the last.
  */
  lemma ClaimsAreBounded(m: Message, attempts: seq<Attempt>, baseMs: int, maxAttempts: int, leaseMs: int)
    requires m.attempts == 0 && Life(m, attempts, baseMs, maxAttempts, leaseMs)
    ensures forall i :: ClaimLimit(maxAttempts) - 1 <= i < |attempts| - 1 ==> attempts[i].ending == Died
    ensures |attempts| >= ClaimLimit(maxAttempts) && attempts[ClaimLimit(maxAttempts) - 1].ending != Died ==>
              |attempts| == ClaimLimit(maxAttempts)
  {
    forall i | ClaimLimit(maxAttempts) - 1 <= i < |attempts| - 1 ensures attempts[i].ending == Died {
      LifePrefix(m, attempts, i + 1, baseMs, maxAttempts, leaseMs);
      LifePrefix(m, attempts, i + 2, baseMs, maxAttempts, leaseMs);
      assert attempts[..i + 2] == attempts[..i + 1] + [attempts[i + 1]];
      ClaimedOnceMore(m, attempts[..i + 1], baseMs, maxAttempts, leaseMs);
    }
  }

  /** If every worker dies, a new message is claimed any number of times. */
  lemma {:induction false} DeathsExceedMaxAttempts(m: Message, n: nat, baseMs: int, maxAttempts: int, leaseMs: int)
    returns (attempts: seq<Attempt>)
    requires m.status == Pending && m.attempts == 0
    ensures |attempts| == n && Life(m, attempts, baseMs, maxAttempts, leaseMs)
    ensures forall i :: 0 <= i < n ==> attempts[i].ending == Died
    decreases n
  {
    attempts := [];
    if n > 0 {
      attempts := DeathsExceedMaxAttempts(m, n - 1, baseMs, maxAttempts, leaseMs);
      var h := Handled(m, attempts, baseMs, maxAttempts);
      if n > 1 {
        LastEndingDecides(m, attempts, baseMs, maxAttempts);
      }
      var when := if n == 1 then m.availableAt else attempts[n - 2].claimedAt + leaseMs;
      LifeExtends(m, attempts, Attempt(when, when, Died), baseMs, maxAttempts, leaseMs);
      attempts := attempts + [Attempt(when, when, Died)];
    }
  }

  /** The message is not claimed before the deadline of the version it expires. */
  predicate Timely(b: Book, m: Message) {
    m.versionId.Some? && m.versionId.value in b.versions ==>
      && b.versions[m.versionId.value].expiresAt <= m.availableAt
      && (m.claimedAt.Some? ==> m.availableAt <= m.claimedAt.value)
  }

  /** Claiming and requeueing keep a message timely as long as clocks do not run backwards. */
  lemma HandlingKeepsTimely(b: Book, m: Message, attempt: Attempt, baseMs: int, maxAttempts: int, leaseMs: int)
    requires Timely(b, m) && Claimable(m, attempt.claimedAt, leaseMs) && baseMs >= 0 && leaseMs >= 0
    requires attempt.claimedAt <= attempt.settledAt
    ensures Timely(b, Handle(m, attempt, baseMs, maxAttempts))
  {
    BackoffGrows(baseMs, m.attempts + 1, m.attempts + 1);
  }

  /** A timely message handled to the end leaves its version closed, whichever delivery it was. */
  lemma HandledMeansClosed(s: Rows, m: Message, claimAt: Instant, expireAt: Instant, leaseMs: int)
    requires Valid(s) && Timely(s.book, m) && Claimable(m, claimAt, leaseMs) && claimAt <= expireAt && leaseMs >= 0
    requires m.versionId.Some? && m.versionId.value in s.book.versions
    ensures var t := Expire(s, m.versionId.value, expireAt).After(s);
            m.versionId.value in t.book.versions && t.book.versions[m.versionId.value].lifecycle != Active
  {
    ClaimedJobIsDue(s, m.versionId.value, expireAt);
  }

  /** However often a message is claimed and requeued, it stays timely. */
  lemma {:induction false} LifeKeepsTimely(b: Book, m: Message, attempts: seq<Attempt>, baseMs: int, maxAttempts: int, leaseMs: int)
    requires Timely(b, m) && Life(m, attempts, baseMs, maxAttempts, leaseMs) && baseMs >= 0 && leaseMs >= 0
    requires forall i :: 0 <= i < |attempts| ==> attempts[i].claimedAt <= attempts[i].settledAt
    ensures Timely(b, Handled(m, attempts, baseMs, maxAttempts))
    decreases attempts
  {
    hide Timely, Handle;
    if attempts != [] {
      HandlingKeepsTimely(b, m, attempts[0], baseMs, maxAttempts, leaseMs);
      LifeKeepsTimely(b, Handle(m, attempts[0], baseMs, maxAttempts), attempts[1..], baseMs, maxAttempts, leaseMs);
    }
  }

  /** So after any life the next claim that runs the expiry closes the version. */
  lemma AnyClaimCloses(
    s: Rows, m: Message, attempts: seq<Attempt>, claimAt: Instant, expireAt: Instant, baseMs: int, maxAttempts: int, leaseMs: int)
    requires Valid(s) && Timely(s.book, m) && m.versionId.Some? && m.versionId.value in s.book.versions
    requires Life(m, attempts + [Attempt(claimAt, expireAt, Done)], baseMs, maxAttempts, leaseMs)
    requires forall i :: 0 <= i < |attempts| ==> attempts[i].claimedAt <= attempts[i].settledAt
    requires claimAt <= expireAt && baseMs >= 0 && leaseMs >= 0
    ensures var t := Expire(s, m.versionId.value, expireAt).After(s);
            m.versionId.value in t.book.versions && t.book.versions[m.versionId.value].lifecycle != Active
  {
    hide Valid, Timely, Expire, Claimable;
    LifeExtends(m, attempts, Attempt(claimAt, expireAt, Done), baseMs, maxAttempts, leaseMs);
    LifeKeepsTimely(s.book, m, attempts, baseMs, maxAttempts, leaseMs);
    SameVersionThroughout(m, attempts, baseMs, maxAttempts);
    HandledMeansClosed(s, Handled(m, attempts, baseMs, maxAttempts), claimAt, expireAt, leaseMs);
  }

  lemma {:induction false} SameVersionThroughout(m: Message, attempts: seq<Attempt>, baseMs: int, maxAttempts: int)
    ensures Handled(m, attempts, baseMs, maxAttempts).versionId == m.versionId
    decreases attempts
  {
    if attempts != [] {
      SameVersionThroughout(Handle(m, attempts[0], baseMs, maxAttempts), attempts[1..], baseMs, maxAttempts);
    }
  }

  // ---- The worker -------------------------------------------------------------------

  /** What the environment does to one round: nothing, a failing store, or killing the worker. */
  datatype Fault = NoFault | StoreFails | DiesBeforeExpiry | DiesBeforeMark

  /** How a round ends for a message. */
  function EndingOf(m: Message, outcome: Outcome, fault: Fault): Ending {
    match fault
    case DiesBeforeExpiry => Died
    case DiesBeforeMark => Died
    case StoreFails => Threw(m.versionId.None?)
    case NoFault => if m.versionId.None? then Threw(true) else if outcome.Abort? then Threw(false) else Done
  }

  /** The rows after a round: the expiry ran exactly if the payload parsed and no fault came first. */
  function RowsAfter(s: Rows, m: Message, fault: Fault, expireAt: Instant): Rows {
    if m.versionId.Some? && (fault == NoFault || fault == DiesBeforeMark)
    then Expire(s, m.versionId.value, expireAt).After(s)
    else s
  }

  class OfferExpiryWorker {
    const baseBackoffMs: int
    const maxAttempts: int
    const leaseMs: int
    const service: Offers.Service
    var messages: map<Id, Message>

    constructor (service: Offers.Service, messages: map<Id, Message>, baseBackoffMs: int, maxAttempts: int, leaseMs: int)
      ensures this.service == service && this.messages == messages
      ensures this.baseBackoffMs == baseBackoffMs && this.maxAttempts == maxAttempts && this.leaseMs == leaseMs
    {
      this.service := service;
      this.messages := messages;
      this.baseBackoffMs := baseBackoffMs;
      this.maxAttempts := maxAttempts;
      this.leaseMs := leaseMs;
    }

    method ClaimNext(now: Instant) returns (claimed: Option<Id>)
      modifies this`messages
      ensures claimed.None? ==> messages == old(messages) && forall id :: id in messages ==> !Claimable(messages[id], now, leaseMs)
      ensures claimed.Some? ==>
                && IsNext(old(messages), claimed.value, now, leaseMs)
                && messages == old(messages)[claimed.value := Claim(old(messages)[claimed.value], now)]
    {
      claimed := None;
      var pending := messages.Keys;
      while pending != {}
        invariant pending <= messages.Keys && messages == old(messages)
        invariant claimed.Some? ==> claimed.value in messages && Claimable(messages[claimed.value], now, leaseMs)
        invariant forall id :: id in messages && id !in pending && Claimable(messages[id], now, leaseMs) ==>
                                 claimed.Some? && !ClaimedBefore(messages[id], messages[claimed.value])
        decreases pending
      {
        var id := Pick(pending);
        if Claimable(messages[id], now, leaseMs) && (claimed.None? || ClaimedBefore(messages[id], messages[claimed.value])) {
          claimed := Some(id);
        }
        pending := pending - {id};
      }
      if claimed.Some? {
        messages := messages[claimed.value := Claim(messages[claimed.value], now)];
      }
    }

    method SettleClaim(id: Id, expectedClaimedAt: Instant, ending: Ending, now: Instant)
      modifies this`messages
      ensures messages == SettleUnderLease(old(messages), id, expectedClaimedAt, ending, now, baseBackoffMs, maxAttempts)
    {
      if id in messages && messages[id].status == Processing && messages[id].claimedAt == Some(expectedClaimedAt) {
        var m := messages[id];
        match ending
        case Done =>
          messages := messages[id := m.(status := Sent)];
        case Died =>
        case Threw(permanent) =>
          if permanent || m.attempts >= maxAttempts {
            messages := messages[id := m.(status := Failed)];
          } else {
            var backoffMs := Backoff(baseBackoffMs, m.attempts);
            messages := messages[id := m.(status := Pending, availableAt := now + backoffMs, claimedAt := None)];
          }
      }
    }

    method ProcessTenant(claimAt: Instant, expireAt: Instant, settleAt: Instant, fault: Fault)
      returns (processed: bool, ghost handled: Id)
      modifies this`messages, service
      ensures !processed ==> messages == old(messages) && service.Tables() == old(service.Tables())
                             && forall id :: id in messages ==> !Claimable(messages[id], claimAt, leaseMs)
      ensures processed ==>
                && IsNext(old(messages), handled, claimAt, leaseMs)
                && var m := old(messages)[handled];
                && service.Tables() == RowsAfter(old(service.Tables()), m, fault, expireAt)
                && var outcome := if m.versionId.Some? then Expire(old(service.Tables()), m.versionId.value, expireAt)
                                  else Commit(old(service.Tables()));
                messages == old(messages)[handled := Handle(m, Attempt(claimAt, settleAt, EndingOf(m, outcome, fault)),
                                                            baseBackoffMs, maxAttempts)]
    {
      hide Expire, Offers.KeepsRows, IsNext, ClaimKey;
      handled := 0;
      var claimed := ClaimNext(claimAt);
      if claimed.None? {
        return false, handled;
      }
      var id := claimed.value;
      handled := id;
      processed := true;
      var m := messages[id];
      if fault == DiesBeforeExpiry {
        return;
      }
      var failed := m.versionId.None? || fault == StoreFails;
      if !failed {
        var verdict, failure := service.ExpireOfferVersion(m.versionId.value, expireAt);
        failed := failure.Some?;
      }
      if fault == DiesBeforeMark {
        return;
      }
      if failed {
        SettleClaim(id, claimAt, Threw(m.versionId.None?), settleAt);
      } else {
        SettleClaim(id, claimAt, Done, settleAt);
      }
    }
  }
}
