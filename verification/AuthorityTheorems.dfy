/**
  What every run of declarations and reviews keeps, and how the guard of critical
  actions answers as time passes.
*/
module AuthorityTheorems {
  import opened Wrappers
  import opened CivilDates
  import opened IsoDates
  import opened StudentAge
  import opened Authority
  import LocalTime

  // ---- The history -----------------------------------------------------------------------

  /** One entry: numbered by its place, starting where the one before ended, along an allowed edge. */
  predicate LegalEntry(h: seq<Entry>, i: int)
    requires 0 <= i < |h|
  {
    && h[i].sequence == i + 1
    && h[i].version == i + 1
    && h[i].from == (if i == 0 then NotDeclared else h[i - 1].to)
    && (h[i].to == Declared || h[i].to in AllowedTransitions(h[i].from))
  }

  /** A review started at `u` and nothing was declared anew from there up to `i`. */
  predicate ReviewStartedAt(h: seq<Entry>, u: int, i: int) {
    && 0 <= u <= i < |h|
    && h[u].to == UnderReview
    && forall t :: u < t <= i ==> h[t].to != Declared
  }

  /** What an entry reaches: a verdict rests on a review started since the latest declaration. */
  ghost predicate RestsOnReview(h: seq<Entry>, i: int)
    requires 0 <= i < |h|
  {
    h[i].to in {UnderReview, Verified, Disputed, Rejected} ==> exists u :: ReviewStartedAt(h, u, i)
  }

  ghost predicate LegalHistory(h: seq<Entry>) {
    && (forall i :: 0 <= i < |h| ==> LegalEntry(h, i))
    && (forall i :: 0 <= i < |h| ==> RestsOnReview(h, i))
  }

  ghost predicate ValidRecord(r: Record) {
    && LegalHistory(r.history)
    && |r.history| == r.version && r.version >= 1
    && r.history[r.version - 1].to == r.status
    && (forall i, j :: 0 <= i < j < |r.evidence| ==> r.evidence[i] != r.evidence[j])
    && (r.status == Verified && NeedsEvidence(r.basis) ==> |r.evidence| >= 1)
    && (r.status == Verified ==> r.verifiedAt.Some?)
    && Adult(r.birthSnapshot, r.declaredAt).Some?
    && ModeFits(r.mode, r.relationship, r.basis, Adult(r.birthSnapshot, r.declaredAt).value)
  }

  ghost predicate Valid(c: Case) {
    c.authority.Some? ==> ValidRecord(c.authority.value)
  }

  lemma {:induction false} MaxOfNumbered(h: seq<Entry>)
    requires forall i :: 0 <= i < |h| ==> h[i].sequence == i + 1
    ensures MaxSequence(h) == |h|
  {
    if h != [] {
      MaxOfNumbered(h[..|h| - 1]);
    }
  }

  lemma HistoryIsNumbered(h: seq<Entry>)
    requires LegalHistory(h)
    ensures MaxSequence(h) == |h|
  {
    forall i | 0 <= i < |h| ensures h[i].sequence == i + 1 {
      assert LegalEntry(h, i);
    }
    MaxOfNumbered(h);
  }

  lemma AppendIsLegal(h: seq<Entry>, e: Entry)
    requires LegalHistory(h)
    requires e.sequence == e.version == |h| + 1 && e.from == (if h == [] then NotDeclared else h[|h| - 1].to)
    requires e.to == Declared || e.to in AllowedTransitions(e.from)
    ensures LegalHistory(h + [e])
  {
    var longer := h + [e];
    forall i | 0 <= i < |longer| ensures LegalEntry(longer, i) {
      if i < |h| {
        assert LegalEntry(h, i);
      }
    }
    forall i | 0 <= i < |longer| ensures RestsOnReview(longer, i) {
      if i < |h| {
        assert RestsOnReview(h, i);
        ReviewCarries(h, e, i);
      } else {
        LastRestsOnReview(h, e);
      }
    }
  }

  lemma ReviewCarries(h: seq<Entry>, e: Entry, i: int)
    requires 0 <= i < |h| && RestsOnReview(h, i)
    ensures RestsOnReview(h + [e], i)
  {
    if h[i].to in {UnderReview, Verified, Disputed, Rejected} {
      var u :| ReviewStartedAt(h, u, i);
      assert ReviewStartedAt(h + [e], u, i);
    }
  }

  /** Before a verdict other than UNDER_REVIEW stands a state that already rests on a review. */
  lemma LastRestsOnReview(h: seq<Entry>, e: Entry)
    requires LegalHistory(h)
    requires e.from == (if h == [] then NotDeclared else h[|h| - 1].to)
    requires e.to == Declared || e.to in AllowedTransitions(e.from)
    ensures RestsOnReview(h + [e], |h|)
  {
    var n, longer := |h|, h + [e];
    if e.to == UnderReview {
      assert ReviewStartedAt(longer, n, n);
    } else if e.to in {Verified, Disputed, Rejected} {
      assert e.from in {UnderReview, Verified, Disputed};
      assert RestsOnReview(h, n - 1);
      var u :| ReviewStartedAt(h, u, n - 1);
      assert ReviewStartedAt(longer, u, n);
    }
  }

  // ---- Evidence ------------------------------------------------------------------------------

  predicate Distinct(s: seq<Id>) {
    forall i, j :: 0 <= i < j < |s| ==> s[i] != s[j]
  }

  /** Linking appends exactly the documents not linked before, each once. */
  lemma {:induction false} LinkingIsAUnion(evidence: seq<Id>, documents: seq<Id>)
    requires Distinct(evidence)
    ensures Distinct(Linked(evidence, documents)) && evidence <= Linked(evidence, documents)
    ensures forall d :: d in Linked(evidence, documents) <==> d in evidence || d in documents
  {
    if documents != [] {
      var before, last := documents[..|documents| - 1], documents[|documents| - 1];
      LinkingIsAUnion(evidence, before);
      assert documents == before + [last];
      assert last !in Linked(evidence, before) ==> Distinct(Linked(evidence, before) + [last]);
    }
  }

  /** Linking the same documents again changes nothing. */
  lemma {:induction false} LinkingTwiceIsOnce(evidence: seq<Id>, documents: seq<Id>)
    requires forall d :: d in documents ==> d in evidence
    ensures Linked(evidence, documents) == evidence
  {
    if documents != [] {
      LinkingTwiceIsOnce(evidence, documents[..|documents| - 1]);
    }
  }

  // ---- Every transaction ------------------------------------------------------------------------

  lemma DeclareKeepsValid(c: Case, input: Declaration, now: Instant)
    requires Valid(c)
    ensures Valid(Declare(c, input, now).After(c))
  {
    hide Adult, LegalHistory;
    if Declare(c, input, now).Commit? {
      match c.authority
      case None =>
        FirstEntryIsLegal(input.basis);
      case Some(r) =>
        HistoryIsNumbered(r.history);
        AppendIsLegal(r.history, Entry(|r.history| + 1, r.status, Declared, r.version + 1, input.basis));
    }
  }

  lemma FirstEntryIsLegal(basis: Basis)
    ensures LegalHistory([Entry(1, NotDeclared, Declared, 1, basis)])
  {
  }

  lemma ReviewKeepsValid(c: Case, input: Review, usable: set<Id>, now: Instant)
    requires Valid(c)
    ensures Valid(ReviewAuthority(c, input, usable, now).After(c))
  {
    hide Adult, LegalHistory, Linked;
    if ReviewAuthority(c, input, usable, now).Commit? {
      var r := c.authority.value;
      HistoryIsNumbered(r.history);
      AppendIsLegal(r.history, Entry(|r.history| + 1, r.status, input.to, r.version + 1, r.basis));
      LinkingIsAUnion(r.evidence, input.evidence);
    }
  }

  lemma StepKeepsValid(c: Case, command: Command)
    requires Valid(c)
    ensures Valid(Step(c, command))
  {
    hide ValidRecord, Declare, ReviewAuthority;
    match command
    case DeclareCmd(input, now) => DeclareKeepsValid(c, input, now);
    case ReviewCmd(review, usable, now) => ReviewKeepsValid(c, review, usable, now);
    case SubmitCmd(_, _) =>
    case WithdrawCmd =>
    case SetDateOfBirthCmd(_) =>
  }

  lemma {:induction false} RunKeepsValid(c: Case, commands: seq<Command>)
    requires Valid(c)
    ensures Valid(Run(c, commands))
    decreases commands
  {
    if commands != [] {
      hide Step, Valid;
      RunKeepsValid(c, commands[..|commands| - 1]);
      StepKeepsValid(Run(c, commands[..|commands| - 1]), commands[|commands| - 1]);
    }
  }

  /**
    In every reachable case the history is numbered 1..n with n the version, leads
    from NOT_DECLARED to the current status along allowed edges, and a VERIFIED
    authority rests on a review started after its latest declaration and, unless
    its basis is the parent's or the student's own, on linked evidence.
  */
  lemma HistoryIsALegalPath(start: Case, commands: seq<Command>)
    requires Opened(start)
    ensures var c := Run(start, commands);
            c.authority.Some? ==>
              var r := c.authority.value;
              && |r.history| == r.version >= 1
              && (forall i :: 0 <= i < |r.history| ==> LegalEntry(r.history, i))
              && r.history[|r.history| - 1].to == r.status
              && (forall i :: 0 <= i < |r.history| && r.history[i].to == Verified ==> exists u :: ReviewStartedAt(r.history, u, i) && u < i)
              && (r.status == Verified ==> r.basis == Parent || r.basis == OwnRight || |r.evidence| >= 1)
  {
    hide Run, Adult, LegalEntry, ReviewStartedAt, LegalHistory, ModeFits;
    RunKeepsValid(start, commands);
    var c := Run(start, commands);
    if c.authority.Some? {
      var h := c.authority.value.history;
      EntriesAreLegal(h);
      forall i | 0 <= i < |h| && h[i].to == Verified ensures exists u :: ReviewStartedAt(h, u, i) && u < i {
        VerdictFollowsReview(h, i);
      }
    }
  }

  lemma EntriesAreLegal(h: seq<Entry>)
    requires LegalHistory(h)
    ensures forall i :: 0 <= i < |h| ==> LegalEntry(h, i)
  {
  }

  lemma VerdictFollowsReview(h: seq<Entry>, i: int)
    requires LegalHistory(h) && 0 <= i < |h| && h[i].to == Verified
    ensures exists u :: ReviewStartedAt(h, u, i) && u < i
  {
    assert RestsOnReview(h, i);
    var u :| ReviewStartedAt(h, u, i);
    assert u < i;
  }

  // ---- The history only grows ----------------------------------------------------------------------

  /** The later case extends the earlier one's history and evidence and keeps its principal. */
  predicate Extends(before: Case, after: Case) {
    before.authority.Some? ==>
      && after.authority.Some?
      && before.authority.value.history <= after.authority.value.history
      && before.authority.value.evidence <= after.authority.value.evidence
      && before.authority.value.userId == after.authority.value.userId
  }

  lemma StepExtends(c: Case, command: Command)
    requires Valid(c)
    ensures Extends(c, Step(c, command))
  {
    hide Adult, LegalHistory, Linked, MaxSequence;
    if command.ReviewCmd? && Execute(c, command).Commit? {
      LinkingIsAUnion(c.authority.value.evidence, command.review.evidence);
    }
  }

  lemma {:induction false} NothingIsErased(start: Case, commands: seq<Command>, k: nat)
    requires Valid(start) && k <= |commands|
    ensures Extends(Run(start, commands[..k]), Run(start, commands))
    decreases |commands|
  {
    if k == |commands| {
      assert commands[..k] == commands;
    } else {
      var before := commands[..|commands| - 1];
      assert before[..k] == commands[..k];
      NothingIsErased(start, before, k);
      RunKeepsValid(start, before);
      StepExtends(Run(start, before), commands[|commands| - 1]);
    }
  }

  // ---- Declaring after submission ---------------------------------------------------------------

  /** The application leaves DRAFT only through the guard, so with an authority. */
  predicate SubmittedWithAuthority(c: Case) {
    c.application != Draft ==> c.authority.Some?
  }

  lemma StepKeepsAuthority(c: Case, command: Command)
    requires SubmittedWithAuthority(c)
    ensures SubmittedWithAuthority(Step(c, command))
  {
    hide Adult, Linked, MaxSequence, Iso, ModeFits, AllowedTransitions;
  }

  lemma {:induction false} SubmittedHasAuthority(start: Case, commands: seq<Command>)
    requires Opened(start)
    ensures SubmittedWithAuthority(Run(start, commands))
    decreases commands
  {
    if commands != [] {
      hide Step, SubmittedWithAuthority;
      SubmittedHasAuthority(start, commands[..|commands| - 1]);
      StepKeepsAuthority(Run(start, commands[..|commands| - 1]), commands[|commands| - 1]);
    } else {
      assert SubmittedWithAuthority(start);
    }
  }

  /** A committed declaration, first or anew, once the application has left DRAFT. */
  predicate DeclaresLate(c: Case, command: Command) {
    && command.DeclareCmd?
    && c.application != Draft
    && Execute(c, command).Commit?
  }

  predicate AdultAfterSubmission(c: Case) {
    c.application != Draft && c.authority.Some? && c.authority.value.mode == AdultStudentSelf
  }

  lemma LateDeclarationIsAdult(c: Case, command: Command)
    requires SubmittedWithAuthority(c)
    ensures DeclaresLate(c, command) ==> !AdultAfterSubmission(c) && AdultAfterSubmission(Step(c, command))
    ensures AdultAfterSubmission(c) ==> AdultAfterSubmission(Step(c, command))
  {
    hide Adult, Linked, MaxSequence;
  }

  lemma {:induction false} AdultPersists(start: Case, commands: seq<Command>, k: nat)
    requires Opened(start) && k <= |commands| && AdultAfterSubmission(Run(start, commands[..k]))
    ensures AdultAfterSubmission(Run(start, commands))
    decreases |commands|
  {
    hide Step, AdultAfterSubmission, SubmittedWithAuthority;
    if k == |commands| {
      assert commands[..k] == commands;
    } else {
      var before := commands[..|commands| - 1];
      assert before[..k] == commands[..k];
      AdultPersists(start, before, k);
      SubmittedHasAuthority(start, before);
      LateDeclarationIsAdult(Run(start, before), commands[|commands| - 1]);
    }
  }

  /** In any run at most one declaration, first or anew, commits after the application left DRAFT. */
  lemma OneLateDeclaration(start: Case, commands: seq<Command>, i: nat, j: nat)
    requires Opened(start) && i < j < |commands|
    requires DeclaresLate(Run(start, commands[..i]), commands[i])
    ensures !DeclaresLate(Run(start, commands[..j]), commands[j])
  {
    hide Step, DeclaresLate, AdultAfterSubmission, SubmittedWithAuthority;
    SubmittedHasAuthority(start, commands[..i]);
    SubmittedHasAuthority(start, commands[..j]);
    assert commands[..i + 1][..i] == commands[..i];
    LateDeclarationIsAdult(Run(start, commands[..i]), commands[i]);
    assert commands[..j][..i + 1] == commands[..i + 1];
    AdultPersists(start, commands[..j], i + 1);
    LateDeclarationIsAdult(Run(start, commands[..j]), commands[j]);
  }

  // ---- The guard across time -------------------------------------------------------------------------------

  function UtcDate(now: Instant): int {
    now / LocalTime.DAY_MS
  }

  lemma AdultByDays(dateOfBirth: int, now: Instant)
    requires InRange(dateOfBirth)
    ensures Adult(dateOfBirth, now)
            == if InRange(UtcDate(now)) then Some(ComesOfAge(DateOf(dateOfBirth)) <= UtcDate(now)) else None
  {
    hide IsAdultStudent, Iso, InRange, ComesOfAge, ValidateIsoCivilDate, DateOf;
    FormattedIsValid(dateOfBirth);
    FormattedIsValid(UtcDate(now));
    AgeNeedsDates(Iso(dateOfBirth), Iso(UtcDate(now)));
    if InRange(UtcDate(now)) {
      AdultFromAnniversary(Iso(dateOfBirth), Iso(UtcDate(now)));
      DayOfIso(UtcDate(now));
    }
  }

  /** The conditions of the guard that do not depend on the time. */
  predicate Settled(c: Case, expectedUser: Option<Id>) {
    && c.dateOfBirth.Some? && c.authority.Some?
    && var r := c.authority.value;
    && r.status == Verified && c.dateOfBirth.value == r.birthSnapshot && r.userId == c.familyUser
    && (expectedUser.Some? ==> r.userId == expectedUser.value)
  }

  lemma SnapshotInRange(r: Record)
    requires ValidRecord(r)
    ensures InRange(r.birthSnapshot) && InRange(UtcDate(r.declaredAt))
  {
    hide IsAdultStudent, Iso, InRange, ValidateIsoCivilDate;
    AgeNeedsDates(Iso(r.birthSnapshot), CalendarDate(r.declaredAt));
    FormattedIsValid(r.birthSnapshot);
    FormattedIsValid(UtcDate(r.declaredAt));
  }

  lemma SameTextSameDay(m: int, n: int)
    requires InRange(m) && Iso(m) == Iso(n)
    ensures m == n
  {
    hide InRange, Iso, ValidateIsoCivilDate, DayOf;
    FormattedIsValid(n);
    DayOfIso(m);
    DayOfIso(n);
  }

  /** The guard lets a critical action through exactly if the case is settled and the mode fits the age. */
  lemma GuardByAge(c: Case, expectedUser: Option<Id>, now: Instant)
    requires Valid(c) && InRange(UtcDate(now))
    ensures Guard(c, expectedUser, now) == None <==>
            Settled(c, expectedUser)
            && (c.authority.value.mode == AdultStudentSelf <==> ComesOfAge(DateOf(c.dateOfBirth.value)) <= UtcDate(now))
  {
    hide Iso, InRange, ComesOfAge, LegalHistory, Adult, DateOf;
    if c.dateOfBirth.Some? && c.authority.Some? {
      var r := c.authority.value;
      SnapshotInRange(r);
      if Iso(c.dateOfBirth.value) == Iso(r.birthSnapshot) {
        SameTextSameDay(r.birthSnapshot, c.dateOfBirth.value);
        AdultByDays(r.birthSnapshot, now);
        AdultByDays(r.birthSnapshot, r.declaredAt);
      }
    }
  }

  /** With nothing changed, an adult student's own authority that passes the guard passes it ever after. */
  lemma AdultAuthorityKeepsPassing(c: Case, expectedUser: Option<Id>, now: Instant, later: Instant)
    requires Valid(c) && Guard(c, expectedUser, now) == None && c.authority.value.mode == AdultStudentSelf
    requires InRange(UtcDate(now)) && now <= later && InRange(UtcDate(later))
    ensures Guard(c, expectedUser, later) == None
  {
    hide Guard, ComesOfAge, DateOf, Valid;
    GuardByAge(c, expectedUser, now);
    GuardByAge(c, expectedUser, later);
    LaterDate(now, later);
  }

  lemma LaterDate(now: Instant, later: Instant)
    requires now <= later
    ensures UtcDate(now) <= UtcDate(later)
  {
  }

  /** A representative's authority that passes fails from the 18th birthday on, exactly from there, and by the mode check. */
  lemma RepresentativeFailsFromAnniversary(c: Case, expectedUser: Option<Id>, now: Instant, later: Instant)
    requires Valid(c) && Guard(c, expectedUser, now) == None && c.authority.value.mode == MinorRepresentative
    requires InRange(UtcDate(now)) && now <= later && InRange(UtcDate(later))
    ensures Guard(c, expectedUser, later)
            == if UtcDate(later) < ComesOfAge(DateOf(c.dateOfBirth.value)) then None else Some(ModeInvalid)
  {
    hide Iso, InRange, ComesOfAge, LegalHistory, Adult, DateOf;
    GuardByAge(c, expectedUser, now);
    GuardByAge(c, expectedUser, later);
    SnapshotInRange(c.authority.value);
    AdultByDays(c.dateOfBirth.value, later);
  }

  /** Changing the date of birth blocks every critical action until the authority is declared anew. */
  lemma ChangedBirthDateBlocks(c: Case, dateOfBirth: int, expectedUser: Option<Id>, now: Instant)
    requires Valid(c) && c.authority.Some? && c.authority.value.status == Verified
    requires dateOfBirth != c.authority.value.birthSnapshot
    ensures Guard(Step(c, SetDateOfBirthCmd(dateOfBirth)), expectedUser, now) == Some(StudentDataChanged)
  {
    hide Iso, InRange, LegalHistory, Adult;
    SnapshotInRange(c.authority.value);
    if Iso(dateOfBirth) == Iso(c.authority.value.birthSnapshot) {
      SameTextSameDay(c.authority.value.birthSnapshot, dateOfBirth);
    }
  }
}
