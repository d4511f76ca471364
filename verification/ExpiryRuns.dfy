/**
  The expiry workers at work: any number of workers that claim messages, run the
  expiry and settle their claims in any interleaving with each other and with all
  other transactions. A worker may stop at any point and its lease may run out
  while it is still at work.
*/
module ExpiryRuns {
  import opened Wrappers
  import opened AdmissionRows
  import opened SeatInvariants
  import opened SeatRuns
  import opened ExpiryDeliveries
  import opened ExpiryWorker

  // ---- Deliveries among other transactions ---------------------------------------------

  datatype Act = Deliver(versionId: Id, at: Instant) | Other(command: Command)

  ghost function Apply(s: Rows, act: Act): Rows {
    match act
    case Deliver(v, at) => Expire(s, v, at).After(s)
    case Other(command) => Step(s, command)
  }

  ghost function ApplyAll(s: Rows, acts: seq<Act>): Rows
    decreases acts
  {
    if acts == [] then s else ApplyAll(Apply(s, acts[0]), acts[1..])
  }

  /** Every delivery finds its version at or after its deadline. */
  ghost predicate OnTime(s: Rows, acts: seq<Act>)
    decreases acts
  {
    acts == [] || (ActOnTime(s, acts[0]) && OnTime(Apply(s, acts[0]), acts[1..]))
  }

  predicate ActOnTime(s: Rows, act: Act) {
    act.Deliver? ==> act.versionId in s.book.versions && s.book.versions[act.versionId].expiresAt <= act.at
  }

  /** The acts with only the first delivery of each version that is not among the seen ones. */
  function OncePerVersion(acts: seq<Act>, seen: set<Id>): seq<Act>
    decreases acts
  {
    if acts == [] then []
    else if acts[0].Deliver? && acts[0].versionId in seen then OncePerVersion(acts[1..], seen)
    else [acts[0]] + OncePerVersion(acts[1..], if acts[0].Deliver? then seen + {acts[0].versionId} else seen)
  }

  predicate Closed(b: Book, v: Id) {
    v in b.versions && b.versions[v].lifecycle != Active
  }

  lemma ApplyKeeps(s: Rows, act: Act)
    requires Valid(s)
    ensures Valid(Apply(s, act)) && Evolves(s, Apply(s, act))
  {
    hide Valid, Evolves;
    var command := if act.Deliver? then ExpireCmd(act.versionId, act.at) else act.command;
    assert Apply(s, act) == Step(s, command);
    StepKeepsValid(s, command);
    StepEvolves(s, command);
  }

  lemma ClosedStays(s: Rows, t: Rows, v: Id)
    requires Evolves(s, t) && v in s.book.versions
    ensures v in t.book.versions && t.book.versions[v].expiresAt == s.book.versions[v].expiresAt
    ensures Closed(s.book, v) ==> Closed(t.book, v)
  {
    assert Identity(t.book.versions[v]).expiresAt == t.book.versions[v].expiresAt;
    assert Identity(s.book.versions[v]).expiresAt == s.book.versions[v].expiresAt;
  }

  lemma DeliveryCloses(s: Rows, v: Id, at: Instant)
    requires Valid(s) && v in s.book.versions && s.book.versions[v].expiresAt <= at
    ensures Expire(s, v, at).Commit? && Closed(Expire(s, v, at).After(s).book, v)
  {
    hide EntriesLinked, Placed, DecisionsLinked, WithdrawalsQuiescent, SeatsWithinCapacity, CapacitiesInRange;
    assert s.book.jobs[v].expiresAt == s.book.versions[v].expiresAt && v in s.book.jobs;
    assert Expire(s, v, at).Commit?;
    hide Expire, BookValid;
    ClaimedJobIsDue(s, v, at);
  }

  /**
    Deliveries on time, repeated and interleaved with any other transactions, leave
    exactly the rows that the first delivery of each version alone would leave.
  */
  lemma {:induction false} AtLeastOnceIsExactlyOnce(s: Rows, acts: seq<Act>, seen: set<Id>)
    requires Valid(s) && OnTime(s, acts) && forall v :: v in seen ==> Closed(s.book, v)
    ensures ApplyAll(s, acts) == ApplyAll(s, OncePerVersion(acts, seen))
    decreases acts
  {
    hide Valid, Evolves, Expire, Step;
    if acts != [] {
      var act, rest := acts[0], acts[1..];
      var t := Apply(s, act);
      ApplyKeeps(s, act);
      forall v | v in seen ensures Closed(t.book, v) {
        ClosedStays(s, t, v);
      }
      if act.Deliver? && act.versionId in seen {
        TerminalIsNoop(s, act.versionId, act.at);
        AtLeastOnceIsExactlyOnce(t, rest, seen);
      } else {
        if act.Deliver? {
          DeliveryCloses(s, act.versionId, act.at);
        }
        var later := if act.Deliver? then seen + {act.versionId} else seen;
        AtLeastOnceIsExactlyOnce(t, rest, later);
        assert OncePerVersion(acts, seen)[1..] == OncePerVersion(rest, later);
      }
    }
  }

  // ---- Workers and messages ---------------------------------------------------------------

  /** A worker that claimed a message; `ran` once its expiry has committed. */
  datatype Worker = Worker(messageId: Id, claimedAt: Instant, ran: bool)

  datatype World = World(rows: Rows, messages: map<Id, Message>, workers: seq<Worker>)

  datatype Move =
    | Enqueues(messageId: Id, versionId: Id, createdAt: Instant)
    | Claims(messageId: Id, now: Instant)
    | Expires(worker: nat, now: Instant)
    | Settles(worker: nat, ending: Ending, now: Instant)
    | Transacts(command: Command)

  datatype Config = Config(baseMs: int, maxAttempts: int, leaseMs: int)

  /** The message an issue enqueues: available at the deadline of its version. */
  function Enqueued(b: Book, v: Id, createdAt: Instant): Message
    requires v in b.jobs
  {
    Message(Some(v), createdAt, b.jobs[v].expiresAt, Pending, None, 0)
  }

  predicate Enabled(w: World, move: Move, config: Config) {
    match move
    case Enqueues(id, v, _) => id !in w.messages && v in w.rows.book.jobs
    case Claims(id, now) => id in w.messages && Claimable(w.messages[id], now, config.leaseMs)
    case Expires(i, now) =>
      && i < |w.workers| && w.workers[i].claimedAt <= now
      && w.workers[i].messageId in w.messages && w.messages[w.workers[i].messageId].versionId.Some?
    case Settles(i, ending, now) =>
      && i < |w.workers| && w.workers[i].claimedAt <= now
      && (ending == Done ==> w.workers[i].ran)
    case Transacts(_) => true
  }

  /** What an enabled move does to the rows, if it touches them. */
  function ActOf(w: World, move: Move, config: Config): seq<Act>
    requires Enabled(w, move, config)
  {
    match move
    case Expires(i, now) => [Deliver(w.messages[w.workers[i].messageId].versionId.value, now)]
    case Transacts(command) => [Other(command)]
    case _ => []
  }

  /** The acts of one move. */
  function ActsOfMove(w: World, move: Move, config: Config): seq<Act> {
    if Enabled(w, move, config) then ActOf(w, move, config) else []
  }

  ghost function Make(w: World, move: Move, config: Config): World {
    if !Enabled(w, move, config) then w
    else
      match move
      case Enqueues(id, v, createdAt) => w.(messages := w.messages[id := Enqueued(w.rows.book, v, createdAt)])
      case Claims(id, now) =>
        w.(messages := w.messages[id := Claim(w.messages[id], now)], workers := w.workers + [Worker(id, now, false)])
      case Expires(i, now) =>
        var outcome := Expire(w.rows, w.messages[w.workers[i].messageId].versionId.value, now);
        w.(rows := outcome.After(w.rows),
        workers := w.workers[i := w.workers[i].(ran := w.workers[i].ran || outcome.Commit?)])
      case Settles(i, ending, now) =>
        w.(messages := SettleUnderLease(w.messages, w.workers[i].messageId, w.workers[i].claimedAt, ending, now,
                                        config.baseMs, config.maxAttempts))
      case Transacts(command) => w.(rows := Step(w.rows, command))
  }

  ghost function MakeAll(w: World, moves: seq<Move>, config: Config): World
    decreases moves
  {
    if moves == [] then w else MakeAll(Make(w, moves[0], config), moves[1..], config)
  }

  /** The acts of a run on the rows, in order. */
  ghost function ActsOf(w: World, moves: seq<Move>, config: Config): seq<Act>
    decreases moves
  {
    if moves == [] then []
    else
      ActsOfMove(w, moves[0], config) + ActsOf(Make(w, moves[0], config), moves[1..], config)
  }

  // ---- What every move keeps ------------------------------------------------------------------

  /** The message waits for the deadline of its version, and once SENT its version is closed. */
  predicate SoundMessage(b: Book, m: Message) {
    m.versionId.Some? ==>
      && m.versionId.value in b.versions
      && Timely(b, m)
      && (m.status == Processing ==> m.claimedAt.Some?)
      && (m.status == Sent ==> Closed(b, m.versionId.value))
  }

  /** The worker claimed its message no earlier than the deadline, and if its expiry ran the version is closed. */
  predicate SoundWorker(b: Book, messages: map<Id, Message>, k: Worker) {
    && k.messageId in messages
    && match messages[k.messageId].versionId
       case None => !k.ran
       case Some(v) => v in b.versions && b.versions[v].expiresAt <= k.claimedAt && (k.ran ==> Closed(b, v))
  }

  ghost predicate Sound(w: World) {
    && Valid(w.rows)
    && (forall id :: id in w.messages ==> SoundMessage(w.rows.book, w.messages[id]))
    && (forall i :: 0 <= i < |w.workers| ==> SoundWorker(w.rows.book, w.messages, w.workers[i]))
  }

  /** An enqueued message waits for the deadline of its version. */
  lemma EnqueuedIsSound(s: Rows, v: Id, createdAt: Instant)
    requires Valid(s) && v in s.book.jobs
    ensures SoundMessage(s.book, Enqueued(s.book, v, createdAt)) && Timely(s.book, Enqueued(s.book, v, createdAt))
  {
  }

  lemma RowsMoveOn(w: World, t: Rows)
    requires Sound(w) && Valid(t) && Evolves(w.rows, t)
    ensures Sound(w.(rows := t))
  {
    hide Valid, Evolves, Closed;
    forall id | id in w.messages ensures SoundMessage(t.book, w.messages[id]) {
      var m := w.messages[id];
      if m.versionId.Some? {
        ClosedStays(w.rows, t, m.versionId.value);
      }
    }
    forall i | 0 <= i < |w.workers| ensures SoundWorker(t.book, w.messages, w.workers[i]) {
      var v := w.messages[w.workers[i].messageId].versionId;
      if v.Some? {
        ClosedStays(w.rows, t, v.value);
      }
    }
  }

  lemma ClaimKeepsSound(w: World, id: Id, now: Instant, config: Config)
    requires Sound(w) && config.leaseMs >= 0 && Enabled(w, Claims(id, now), config)
    ensures Sound(Make(w, Claims(id, now), config))
  {
    hide Valid, Closed;
    var u := Make(w, Claims(id, now), config);
    forall i | 0 <= i < |u.workers| ensures SoundWorker(u.rows.book, u.messages, u.workers[i]) {
      if i < |w.workers| {
        assert SoundWorker(w.rows.book, w.messages, w.workers[i]);
      } else {
        assert SoundMessage(w.rows.book, w.messages[id]);
      }
    }
    forall j | j in u.messages ensures SoundMessage(u.rows.book, u.messages[j]) {
      assert SoundMessage(w.rows.book, w.messages[j]);
    }
  }

  lemma ExpiresKeepsSound(w: World, i: nat, now: Instant, config: Config)
    requires Sound(w) && Enabled(w, Expires(i, now), config)
    ensures Sound(Make(w, Expires(i, now), config))
    ensures ActOnTime(w.rows, ActOf(w, Expires(i, now), config)[0])
  {
    hide Valid, Evolves, Expire, Closed;
    var k := w.workers[i];
    assert SoundWorker(w.rows.book, w.messages, k);
    var v := w.messages[k.messageId].versionId.value;
    DeliveryCloses(w.rows, v, now);
    ApplyKeeps(w.rows, Deliver(v, now));
    var t := Expire(w.rows, v, now).After(w.rows);
    RowsMoveOn(w, t);
    var u := Make(w, Expires(i, now), config);
    forall j | 0 <= j < |u.workers| ensures SoundWorker(u.rows.book, u.messages, u.workers[j]) {
      assert SoundWorker(t.book, w.messages, w.workers[j]);
    }
  }

  lemma SettleKeepsSound(w: World, i: nat, ending: Ending, now: Instant, config: Config)
    requires Sound(w) && config.baseMs >= 0 && Enabled(w, Settles(i, ending, now), config)
    ensures Sound(Make(w, Settles(i, ending, now), config))
  {
    hide Valid, Closed;
    var k := w.workers[i];
    var u := Make(w, Settles(i, ending, now), config);
    assert SoundWorker(w.rows.book, w.messages, k);
    assert SoundMessage(w.rows.book, w.messages[k.messageId]);
    BackoffGrows(config.baseMs, w.messages[k.messageId].attempts, w.messages[k.messageId].attempts);
    assert SoundMessage(u.rows.book, u.messages[k.messageId]);
    forall j | j in u.messages ensures SoundMessage(u.rows.book, u.messages[j]) {
      assert SoundMessage(w.rows.book, w.messages[j]);
    }
    forall j | 0 <= j < |u.workers| ensures SoundWorker(u.rows.book, u.messages, u.workers[j]) {
      assert SoundWorker(w.rows.book, w.messages, w.workers[j]);
    }
  }

  lemma EnqueueKeepsSound(w: World, id: Id, v: Id, createdAt: Instant, config: Config)
    requires Sound(w) && Enabled(w, Enqueues(id, v, createdAt), config)
    ensures Sound(Make(w, Enqueues(id, v, createdAt), config))
  {
    EnqueuedIsSound(w.rows, v, createdAt);
    hide Valid, Closed, Enqueued;
    var u := Make(w, Enqueues(id, v, createdAt), config);
    forall j | 0 <= j < |u.workers| ensures SoundWorker(u.rows.book, u.messages, u.workers[j]) {
      assert SoundWorker(w.rows.book, w.messages, w.workers[j]);
    }
  }

  predicate Configured(config: Config) {
    config.baseMs >= 0 && config.leaseMs >= 0
  }

  lemma MoveKeepsSound(w: World, move: Move, config: Config)
    requires Sound(w) && Configured(config)
    ensures Sound(Make(w, move, config))
    ensures Enabled(w, move, config) && ActOf(w, move, config) != [] ==> ActOnTime(w.rows, ActOf(w, move, config)[0])
  {
    if Enabled(w, move, config) {
      match move
      case Enqueues(id, v, createdAt) => EnqueueKeepsSound(w, id, v, createdAt, config);
      case Claims(id, now) => ClaimKeepsSound(w, id, now, config);
      case Expires(i, now) => ExpiresKeepsSound(w, i, now, config);
      case Settles(i, ending, now) => SettleKeepsSound(w, i, ending, now, config);
      case Transacts(command) =>
        hide Valid, Evolves, Step;
        ApplyKeeps(w.rows, Other(command));
        RowsMoveOn(w, Step(w.rows, command));
    }
  }

  // ---- Whole runs ----------------------------------------------------------------------------------

  lemma {:induction false} RunKeepsSound(w: World, moves: seq<Move>, config: Config)
    requires Sound(w) && Configured(config)
    ensures Sound(MakeAll(w, moves, config))
    decreases moves
  {
    hide Sound, Make;
    if moves != [] {
      MoveKeepsSound(w, moves[0], config);
      RunKeepsSound(Make(w, moves[0], config), moves[1..], config);
    }
  }

  /** Before any message is enqueued. */
  function Idle(s: Rows): World {
    World(s, map[], [])
  }

  /** However the workers fare, the version of a message that ends SENT is closed. */
  lemma SentMeansClosed(s: Rows, moves: seq<Move>, config: Config, id: Id)
    requires Valid(s) && Configured(config)
    requires var w := MakeAll(Idle(s), moves, config); id in w.messages && w.messages[id].status == Sent
    ensures var w := MakeAll(Idle(s), moves, config);
            w.messages[id].versionId.Some? ==> Closed(w.rows.book, w.messages[id].versionId.value)
  {
    hide Valid, MakeAll;
    RunKeepsSound(Idle(s), moves, config);
    var w := MakeAll(Idle(s), moves, config);
    assert SoundMessage(w.rows.book, w.messages[id]);
  }

  lemma MoveIsItsActs(w: World, move: Move, config: Config)
    ensures var acts := ActsOfMove(w, move, config);
            |acts| <= 1 && Make(w, move, config).rows == if acts == [] then w.rows else Apply(w.rows, acts[0])
  {
    hide Expire, Step, Claimable, SettleUnderLease;
  }

  lemma MoveFollowsActs(w: World, move: Move, config: Config, rest: seq<Act>)
    requires Sound(w) && Configured(config)
    ensures ApplyAll(w.rows, ActsOfMove(w, move, config) + rest) == ApplyAll(Make(w, move, config).rows, rest)
    ensures OnTime(Make(w, move, config).rows, rest) ==> OnTime(w.rows, ActsOfMove(w, move, config) + rest)
  {
    hide Sound, Apply, Make, ActOf, Enabled, ActOnTime;
    MoveKeepsSound(w, move, config);
    MoveIsItsActs(w, move, config);
    var acts := ActsOfMove(w, move, config);
    if acts == [] {
      assert acts + rest == rest;
    } else {
      assert (acts + rest)[1..] == rest && (acts + rest)[0] == acts[0];
    }
  }

  lemma {:induction false} RowsFollowActs(w: World, moves: seq<Move>, config: Config)
    requires Sound(w) && Configured(config)
    ensures MakeAll(w, moves, config).rows == ApplyAll(w.rows, ActsOf(w, moves, config))
    ensures OnTime(w.rows, ActsOf(w, moves, config))
    decreases moves
  {
    hide Sound, Make, ActsOfMove, Apply, ActOnTime;
    if moves != [] {
      var u := Make(w, moves[0], config);
      MoveKeepsSound(w, moves[0], config);
      RowsFollowActs(u, moves[1..], config);
      MoveFollowsActs(w, moves[0], config, ActsOf(u, moves[1..], config));
    }
  }

  /**
    Retrying, overlapping and dying workers leave exactly the rows of a run in which
    the first delivery of each version is the only one.
  */
  lemma WorkersDeliverExactlyOnce(s: Rows, moves: seq<Move>, config: Config)
    requires Valid(s) && Configured(config)
    ensures MakeAll(Idle(s), moves, config).rows == ApplyAll(s, OncePerVersion(ActsOf(Idle(s), moves, config), {}))
  {
    hide Valid, MakeAll, ActsOf, ApplyAll, OncePerVersion;
    RowsFollowActs(Idle(s), moves, config);
    AtLeastOnceIsExactlyOnce(s, ActsOf(Idle(s), moves, config), {});
  }

  // ---- One uninterrupted round -------------------------------------------------------------------------

  /** The moves of one worker that handles a message in one go. */
  function RoundMoves(w: World, id: Id, claimAt: Instant, expireAt: Instant, settleAt: Instant, fault: Fault): seq<Move>
    requires id in w.messages
  {
    var m, k := w.messages[id], |w.workers|;
    [Claims(id, claimAt)]
    + (if m.versionId.Some? && (fault == NoFault || fault == DiesBeforeMark) then [Expires(k, expireAt)] else [])
    + (match fault
       case DiesBeforeExpiry => []
       case DiesBeforeMark => []
       case StoreFails => [Settles(k, Threw(m.versionId.None?), settleAt)]
       case NoFault => [Settles(k, if m.versionId.None? then Threw(true) else Done, settleAt)])
  }

  lemma MakeTwo(w: World, x: Move, y: Move, config: Config)
    ensures MakeAll(w, [x], config) == Make(w, x, config)
    ensures MakeAll(w, [x, y], config) == Make(Make(w, x, config), y, config)
  {
    hide Make;
    assert [x, y][1..] == [y] && [y][1..] == [] && [x][1..] == [];
    assert MakeAll(w, [x], config) == MakeAll(Make(w, x, config), [], config);
    assert MakeAll(Make(w, x, config), [y], config) == MakeAll(Make(Make(w, x, config), y, config), [], config);
  }

  lemma MakeThree(w: World, x: Move, y: Move, z: Move, config: Config)
    ensures MakeAll(w, [x, y, z], config) == Make(Make(Make(w, x, config), y, config), z, config)
  {
    hide Make;
    assert [x, y, z][1..] == [y, z];
    MakeTwo(Make(w, x, config), y, z, config);
  }

  /** A round of the worker loop is one such run: claim, expiry and settlement without anything in between. */
  lemma RoundIsARun(w: World, id: Id, claimAt: Instant, expireAt: Instant, settleAt: Instant, fault: Fault, config: Config)
    requires Sound(w) && id in w.messages && Claimable(w.messages[id], claimAt, config.leaseMs)
    requires claimAt <= expireAt && claimAt <= settleAt && config.leaseMs >= 0
    ensures var m := w.messages[id];
            var u := MakeAll(w, RoundMoves(w, id, claimAt, expireAt, settleAt, fault), config);
            var outcome := if m.versionId.Some? then Expire(w.rows, m.versionId.value, expireAt) else Commit(w.rows);
            && u.rows == RowsAfter(w.rows, m, fault, expireAt)
            && u.messages == w.messages[id := Handle(m, Attempt(claimAt, settleAt, EndingOf(m, outcome, fault)),
                                                     config.baseMs, config.maxAttempts)]
  {
    hide Valid, Expire, MakeAll;
    var m, k := w.messages[id], |w.workers|;
    var claimed := Make(w, Claims(id, claimAt), config);
    assert claimed.workers[k] == Worker(id, claimAt, false) && claimed.messages[id] == Claim(m, claimAt);
    var moves := RoundMoves(w, id, claimAt, expireAt, settleAt, fault);
    if m.versionId.Some? {
      assert SoundMessage(w.rows.book, m);
      DeliveryCloses(w.rows, m.versionId.value, expireAt);
    }
    if |moves| == 1 {
      MakeTwo(w, moves[0], moves[0], config);
      assert moves == [moves[0]];
    } else if |moves| == 2 {
      MakeTwo(w, moves[0], moves[1], config);
      assert moves == [moves[0], moves[1]];
    } else {
      MakeThree(w, moves[0], moves[1], moves[2], config);
      assert moves == [moves[0], moves[1], moves[2]];
    }
  }
}
