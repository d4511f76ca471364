/**
  Delivering expiry jobs: early, late, repeatedly and in any order. The rows
  after any sequence of deliveries are determined by which versions were open
  and delivered at or after their deadline.
*/
module ExpiryDeliveries {
  import opened Wrappers
  import opened AdmissionRows
  import opened SeatInvariants
  import opened SeatTransactions
  import opened SeatTheorems

  datatype Delivery = Delivery(versionId: Id, at: Instant)

  function DeliverAll(s: Rows, deliveries: seq<Delivery>): Rows
    decreases deliveries
  {
    if deliveries == [] then s
    else DeliverAll(Expire(s, deliveries[0].versionId, deliveries[0].at).After(s), deliveries[1..])
  }

  /** `v` is open and some delivery of its job comes at or after its deadline. */
  predicate IsDue(b: Book, deliveries: seq<Delivery>, v: Id) {
    && v in b.versions && b.versions[v].lifecycle == Active
    && exists i :: 0 <= i < |deliveries| && deliveries[i].versionId == v && b.versions[v].expiresAt <= deliveries[i].at
  }

  /** The open versions that some delivery finds past their deadline. */
  function Due(b: Book, deliveries: seq<Delivery>): set<Id> {
    set v | v in b.versions && IsDue(b, deliveries, v)
  }

  /** The versions in `due` whose seat belongs to the capacity. */
  function FreedAt(b: Book, due: set<Id>, c: Id): set<Id> {
    set v | v in due && v in b.versions && b.versions[v].reservationId in b.reservations
            && b.reservations[b.versions[v].reservationId].capacityId == c
  }

  /** A version apart from the instant it was closed at. */
  function Untimed(v: OfferVersion): OfferVersion {
    match v.terminal
    case None => v
    case Some(terminal) => v.(terminal := Some(terminal.(at := 0)))
  }

  function ExpiredRow(v: OfferVersion): OfferVersion {
    v.(lifecycle := Expired, terminal := Some(Terminal(0, DeadlineExpired)))
  }

  predicate VersionsExpired(b: Book, c: Book, due: set<Id>) {
    && c.versions.Keys == b.versions.Keys
    && forall v :: v in b.versions ==>
         Untimed(c.versions[v]) == if v in due then ExpiredRow(b.versions[v]) else Untimed(b.versions[v])
  }

  predicate SeatsFreed(b: Book, c: Book, due: set<Id>) {
    && c.reservations.Keys == b.reservations.Keys
    && (forall v :: v in b.versions && v in due && b.versions[v].reservationId in b.reservations ==>
          c.reservations[b.versions[v].reservationId]
          == b.reservations[b.versions[v].reservationId].(state := SeatReleased, releaseReason := Some(DeadlineExpired)))
    && (forall v :: v in b.versions && v !in due && b.versions[v].reservationId in b.reservations ==>
          c.reservations[b.versions[v].reservationId] == b.reservations[b.versions[v].reservationId])
  }

  predicate CapacitiesMoved(s: Rows, t: Rows, due: set<Id>) {
    && t.capacities.Keys == s.capacities.Keys
    && forall c :: c in s.capacities ==>
         t.capacities[c] == s.capacities[c].(version := s.capacities[c].version + |FreedAt(s.book, due, c)|)
  }

  /** From `s` to `t` exactly the versions in `due` have expired and exactly their seats are free. */
  predicate ExactlyExpired(s: Rows, t: Rows, due: set<Id>) {
    && VersionsExpired(s.book, t.book, due)
    && SeatsFreed(s.book, t.book, due)
    && CapacitiesMoved(s, t, due)
    && t == s.(book := s.book.(versions := t.book.versions, reservations := t.book.reservations), capacities := t.capacities)
  }

  /** The one version a single delivery expires, if any. */
  function ExpiredNow(s: Rows, v: Id, now: Instant): set<Id> {
    if ExpireVerdict(s, v, now) == VersionExpired then {v} else {}
  }

  lemma SettledBook(b: Book, v: Id, now: Instant)
    requires VersionsLinked(b) && SeatsOwnedOnce(b) && v in b.versions && b.versions[v].reservationId in b.reservations
    ensures var c := SettleInBook(b, v, Expired, Terminal(now, DeadlineExpired));
            VersionsExpired(b, c, {v}) && SeatsFreed(b, c, {v})
  {
  }

  lemma SettledCapacities(s: Rows, v: Id, now: Instant)
    requires v in s.book.versions && s.book.versions[v].reservationId in s.book.reservations
    requires s.book.reservations[s.book.versions[v].reservationId].capacityId in s.capacities
    ensures CapacitiesMoved(s, Settle(s, v, Expired, Terminal(now, DeadlineExpired)), {v})
  {
    var owner := s.book.reservations[s.book.versions[v].reservationId].capacityId;
    forall c ensures |FreedAt(s.book, {v}, c)| == if c == owner then 1 else 0 {
      assert FreedAt(s.book, {v}, c) == if c == owner then {v} else {};
    }
  }

  /** One delivery frees at most the seat of its own version. */
  lemma OneDelivery(s: Rows, v: Id, now: Instant)
    requires Valid(s)
    ensures ExactlyExpired(s, Expire(s, v, now).After(s), ExpiredNow(s, v, now))
  {
    if ExpireVerdict(s, v, now) == VersionExpired {
      hide EntriesLinked, DecisionsLinked, WithdrawalsQuiescent, SeatsWithinCapacity, CapacitiesInRange;
      ReleaseIsSettle(s, v, Expired, Terminal(now, DeadlineExpired));
      SettledBook(s.book, v, now);
      SettledCapacities(s, v, now);
      hide BookValid, VersionsExpired, SeatsFreed, CapacitiesMoved, SettleInBook;
      assert Expire(s, v, now).After(s) == Settle(s, v, Expired, Terminal(now, DeadlineExpired));
    } else {
      NothingDue(s);
    }
  }

  lemma OpenMeansCurrent(s: Rows, v: Id, now: Instant)
    requires Valid(s)
    ensures ExpireVerdict(s, v, now) == VersionExpired
            <==> v in s.book.versions && s.book.versions[v].lifecycle == Active && s.book.versions[v].expiresAt <= now
  {
  }

  lemma StillDue(b: Book, c: Book, deliveries: seq<Delivery>, expired: set<Id>, w: Id)
    requires deliveries != [] && VersionsExpired(b, c, expired)
    requires forall v :: v in expired <==> v == deliveries[0].versionId && v in b.versions && b.versions[v].lifecycle == Active
                                           && b.versions[v].expiresAt <= deliveries[0].at
    ensures IsDue(b, deliveries, w) <==> w in expired || IsDue(c, deliveries[1..], w)
    ensures w in expired ==> !IsDue(c, deliveries[1..], w)
  {
    var rest := deliveries[1..];
    if w in b.versions {
      assert Untimed(c.versions[w]).lifecycle == c.versions[w].lifecycle;
      assert Untimed(b.versions[w]).lifecycle == b.versions[w].lifecycle;
      assert Untimed(c.versions[w]).expiresAt == c.versions[w].expiresAt == b.versions[w].expiresAt;
    }
    if i :| 0 <= i < |deliveries| && deliveries[i].versionId == w && w in b.versions && b.versions[w].expiresAt <= deliveries[i].at {
      assert i == 0 || rest[i - 1] == deliveries[i];
    }
    if i :| 0 <= i < |rest| && rest[i].versionId == w && w in b.versions && b.versions[w].expiresAt <= rest[i].at {
      assert deliveries[i + 1] == rest[i];
    }
  }

  lemma InDue(b: Book, deliveries: seq<Delivery>, w: Id)
    ensures w in Due(b, deliveries) <==> IsDue(b, deliveries, w)
  {
  }

  /** Deliveries after the first find every other due version as it was. */
  lemma DueSplits(s: Rows, deliveries: seq<Delivery>)
    requires Valid(s) && deliveries != []
    ensures var v, now := deliveries[0].versionId, deliveries[0].at;
            var t := Expire(s, v, now).After(s);
            && ExpiredNow(s, v, now) !! Due(t.book, deliveries[1..])
            && Due(s.book, deliveries) == ExpiredNow(s, v, now) + Due(t.book, deliveries[1..])
  {
    hide Valid, Expire, ExpireVerdict, VersionsExpired, SeatsFreed, CapacitiesMoved, IsDue, Due;
    var v, now, rest := deliveries[0].versionId, deliveries[0].at, deliveries[1..];
    var t := Expire(s, v, now).After(s);
    OneDelivery(s, v, now);
    OpenMeansCurrent(s, v, now);
    forall w
      ensures w in Due(s.book, deliveries) <==> w in ExpiredNow(s, v, now) || w in Due(t.book, rest)
      ensures w in ExpiredNow(s, v, now) ==> w !in Due(t.book, rest)
    {
      StillDue(s.book, t.book, deliveries, ExpiredNow(s, v, now), w);
      InDue(s.book, deliveries, w);
      InDue(t.book, rest, w);
    }
  }

  lemma VersionsExpiredCompose(b: Book, c: Book, d: Book, first: set<Id>, second: set<Id>)
    requires VersionsExpired(b, c, first) && VersionsExpired(c, d, second) && first !! second
    ensures VersionsExpired(b, d, first + second)
  {
    forall v | v in b.versions
      ensures Untimed(d.versions[v]) == if v in first + second then ExpiredRow(b.versions[v]) else Untimed(b.versions[v])
    {
      assert ExpiredRow(Untimed(b.versions[v])) == ExpiredRow(b.versions[v]);
      assert ExpiredRow(c.versions[v]) == ExpiredRow(Untimed(c.versions[v]));
    }
  }

  lemma SameSeatIds(b: Book, c: Book, due: set<Id>)
    requires VersionsExpired(b, c, due) && SeatsFreed(b, c, due) && VersionsLinked(b)
    ensures forall v :: v in b.versions ==>
              && c.versions[v].reservationId == b.versions[v].reservationId
              && c.versions[v].reservationId in c.reservations
              && c.reservations[c.versions[v].reservationId].capacityId == b.reservations[b.versions[v].reservationId].capacityId
  {
    forall v | v in b.versions ensures c.versions[v].reservationId == b.versions[v].reservationId {
      assert Untimed(c.versions[v]).reservationId == c.versions[v].reservationId;
    }
  }

  lemma CapacitiesMovedCompose(s: Rows, t: Rows, u: Rows, first: set<Id>, second: set<Id>)
    requires VersionsExpired(s.book, t.book, first) && SeatsFreed(s.book, t.book, first) && VersionsLinked(s.book)
    requires CapacitiesMoved(s, t, first) && CapacitiesMoved(t, u, second) && first !! second
    ensures CapacitiesMoved(s, u, first + second)
  {
    SameSeatIds(s.book, t.book, first);
    forall c | c in s.capacities
      ensures |FreedAt(s.book, first + second, c)| == |FreedAt(s.book, first, c)| + |FreedAt(t.book, second, c)|
    {
      forall v | v in s.book.versions ensures v in FreedAt(t.book, second, c) <==> v in FreedAt(s.book, second, c) {
        assert v in t.book.versions && t.book.versions[v].reservationId == s.book.versions[v].reservationId;
      }
      assert t.book.versions.Keys == s.book.versions.Keys;
      assert FreedAt(t.book, second, c) == FreedAt(s.book, second, c);
      assert FreedAt(s.book, first + second, c) == FreedAt(s.book, first, c) + FreedAt(s.book, second, c);
    }
  }

  lemma ExactlyExpiredCompose(s: Rows, t: Rows, u: Rows, first: set<Id>, second: set<Id>)
    requires ExactlyExpired(s, t, first) && ExactlyExpired(t, u, second) && first !! second && VersionsLinked(s.book)
    ensures ExactlyExpired(s, u, first + second)
  {
    VersionsExpiredCompose(s.book, t.book, u.book, first, second);
    CapacitiesMovedCompose(s, t, u, first, second);
    SameSeatIds(s.book, t.book, first);
  }

  /** Any sequence of deliveries expires exactly the due versions and frees exactly their seats. */
  lemma {:induction false} DeliveriesExpireTheDue(s: Rows, deliveries: seq<Delivery>)
    requires Valid(s)
    ensures Valid(DeliverAll(s, deliveries))
    ensures ExactlyExpired(s, DeliverAll(s, deliveries), Due(s.book, deliveries))
    decreases deliveries
  {
    if deliveries == [] {
      NothingDue(s);
    } else {
      var v, now := deliveries[0].versionId, deliveries[0].at;
      var t := Expire(s, v, now).After(s);
      OneDelivery(s, v, now);
      ExpireKeepsValid(s, v, now);
      DeliveriesExpireTheDue(t, deliveries[1..]);
      DueSplits(s, deliveries);
      hide ExactlyExpired, Due, Expire, ExpiredNow;
      ExactlyExpiredCompose(s, t, DeliverAll(s, deliveries), ExpiredNow(s, v, now), Due(t.book, deliveries[1..]));
    }
  }

  lemma NothingDue(s: Rows)
    ensures Due(s.book, []) == {} && ExactlyExpired(s, s, {})
  {
    assert forall c :: FreedAt(s.book, {}, c) == {};
  }

  /** The offer tables without the instants versions were closed at. */
  function UntimedVersions(b: Book): map<Id, OfferVersion> {
    map v | v in b.versions :: Untimed(b.versions[v])
  }

  /** Sequences that find the same versions due leave the same rows, up to the instant a version was closed at. */
  lemma DueVersionsDetermineRows(s: Rows, once: seq<Delivery>, often: seq<Delivery>)
    requires Valid(s) && Due(s.book, once) == Due(s.book, often)
    ensures var t, u := DeliverAll(s, once), DeliverAll(s, often);
            && UntimedVersions(t.book) == UntimedVersions(u.book)
            && t.book.reservations == u.book.reservations
            && t.capacities == u.capacities
            && t == u.(book := u.book.(versions := t.book.versions))
  {
    DeliveriesExpireTheDue(s, once);
    DeliveriesExpireTheDue(s, often);
    SameRows(s, DeliverAll(s, once), DeliverAll(s, often), Due(s.book, once));
  }

  lemma SameSeats(b: Book, c: Book, d: Book, due: set<Id>)
    requires VersionsLinked(b) && SeatsOwnedOnce(b) && SeatsFreed(b, c, due) && SeatsFreed(b, d, due)
    ensures c.reservations == d.reservations
  {
    hide VersionsLinked;
    forall r | r in b.reservations ensures c.reservations[r] == d.reservations[r] {
      var v :| OwnedBy(b, r, v);
      assert v in due || v !in due;
    }
  }

  lemma SameVersions(b: Book, c: Book, d: Book, due: set<Id>)
    requires VersionsExpired(b, c, due) && VersionsExpired(b, d, due)
    ensures UntimedVersions(c) == UntimedVersions(d)
  {
    hide Untimed, ExpiredRow;
    assert UntimedVersions(c).Keys == UntimedVersions(d).Keys;
    forall v | v in b.versions ensures UntimedVersions(c)[v] == UntimedVersions(d)[v] {
    }
  }

  lemma SameCapacities(s: Rows, t: Rows, u: Rows, due: set<Id>)
    requires CapacitiesMoved(s, t, due) && CapacitiesMoved(s, u, due)
    ensures t.capacities == u.capacities
  {
    hide FreedAt;
    assert t.capacities.Keys == u.capacities.Keys;
    forall c | c in s.capacities ensures t.capacities[c] == u.capacities[c] {
    }
  }

  lemma SameRows(s: Rows, t: Rows, u: Rows, due: set<Id>)
    requires Valid(s) && ExactlyExpired(s, t, due) && ExactlyExpired(s, u, due)
    ensures UntimedVersions(t.book) == UntimedVersions(u.book)
    ensures t.book.reservations == u.book.reservations && t.capacities == u.capacities
  {
    hide Placed, EntriesLinked, DecisionsLinked, WithdrawalsQuiescent, SeatsWithinCapacity, CapacitiesInRange;
    hide VersionsLinked, SeatsOwnedOnce, SeatsFreed, VersionsExpired, CapacitiesMoved, UntimedVersions;
    SameSeats(s.book, t.book, u.book, due);
    SameVersions(s.book, t.book, u.book, due);
    SameCapacities(s, t, u, due);
  }

  lemma ExpiryIsTerminal(s: Rows, v: Id, now: Instant)
    requires Valid(s) && ExpireVerdict(s, v, now) == VersionExpired
    ensures var t := Expire(s, v, now).After(s); v in t.book.versions && t.book.versions[v].lifecycle == Expired
  {
    OneDelivery(s, v, now);
    OpenMeansCurrent(s, v, now);
    hide Valid, Expire, SeatsFreed, CapacitiesMoved;
    var t := Expire(s, v, now).After(s);
    assert Untimed(t.book.versions[v]).lifecycle == t.book.versions[v].lifecycle;
  }

  lemma TerminalIsNoop(s: Rows, v: Id, now: Instant)
    requires v in s.book.versions && s.book.versions[v].lifecycle != Active
    ensures Expire(s, v, now).After(s) == s
  {
  }

  /** A job that has taken effect is spent: whatever happens later, delivering it again changes nothing. */
  lemma RedeliveryIsSpent(s: Rows, v: Id, first: Instant, later: seq<Command>, again: Instant)
    requires Valid(s) && ExpireVerdict(s, v, first) == VersionExpired
    ensures var t := Run(Expire(s, v, first).After(s), later); Expire(t, v, again).After(t) == t
  {
    hide Valid, Expire, ExpireVerdict, Run;
    var expired := Expire(s, v, first).After(s);
    ExpiryIsTerminal(s, v, first);
    ExpireKeepsValid(s, v, first);
    TerminalVersionsNeverChange(expired, v, later);
    TerminalIsNoop(Run(expired, later), v, again);
  }

  /** A job claimed once it is available is never refused as not yet due. */
  lemma ClaimedJobIsDue(s: Rows, v: Id, now: Instant)
    requires Valid(s) && v in s.book.jobs && s.book.jobs[v].expiresAt <= now
    ensures ExpireVerdict(s, v, now) != NoopNotDue
    ensures ExpireVerdict(s, v, now) == VersionExpired <==> s.book.versions[v].lifecycle == Active
    ensures var t := Expire(s, v, now).After(s);
            v in t.book.versions && t.book.versions[v].lifecycle != Active
  {
    OneDelivery(s, v, now);
    OpenMeansCurrent(s, v, now);
    hide Valid, Expire;
    var t := Expire(s, v, now).After(s);
    assert Untimed(t.book.versions[v]).lifecycle == t.book.versions[v].lifecycle;
  }
}
