/**
  What a declaration and a review of the authority over an application do: exactly
  when each commits, by age, relationship and basis, and the record it then leaves.
*/
module AuthorityEffects {
  import opened Wrappers
  import opened CivilDates
  import opened IsoDates
  import opened StudentAge
  import opened Authority
  import opened AuthorityTheorems

  // ---- Age ---------------------------------------------------------------------------------

  /** By the calendar: born at least eighteen years before, counting the birthday itself. */
  predicate Eighteen(birth: CivilDate, today: CivilDate) {
    || today.year - birth.year > 18
    || (today.year - birth.year == 18 && today.month > birth.month)
    || (today.year - birth.year == 18 && today.month == birth.month && today.day >= birth.day)
  }

  lemma EighteenFromAnniversary(dateOfBirth: int, today: int)
    ensures Eighteen(DateOf(dateOfBirth), DateOf(today)) <==> ComesOfAge(DateOf(dateOfBirth)) <= today
  {
    hide ComesOfAge, DateOf, RealDate, DayNumber;
    AgeByDays(DateOf(dateOfBirth), DateOf(today));
  }

  lemma AdultExactly(dateOfBirth: int, now: Instant)
    ensures Adult(dateOfBirth, now).Some? <==> InRange(dateOfBirth) && InRange(UtcDate(now))
    ensures Adult(dateOfBirth, now).Some? ==> (Adult(dateOfBirth, now).value <==> ComesOfAge(DateOf(dateOfBirth)) <= UtcDate(now))
  {
    hide IsAdultStudent, Iso, InRange, ComesOfAge, ValidateIsoCivilDate, DateOf;
    FormattedIsValid(dateOfBirth);
    AgeNeedsDates(Iso(dateOfBirth), CalendarDate(now));
    if InRange(dateOfBirth) {
      AdultByDays(dateOfBirth, now);
    }
  }

  // ---- Declarations ------------------------------------------------------------------------

  /** The student's own right from the 18th birthday on; before it, anybody else's. */
  predicate FitsAge(mode: Mode, relationship: Relationship, basis: Basis, dateOfBirth: int, today: int) {
    || (&& mode == AdultStudentSelf && relationship == Oneself && basis == OwnRight
        && ComesOfAge(DateOf(dateOfBirth)) <= today)
    || (&& mode == MinorRepresentative && relationship in {Mother, Father, OtherRelative, OtherPerson}
        && basis in {Parent, LegalRepresentative, PersonalCareHolder, AuthorizedByHolder}
        && today < ComesOfAge(DateOf(dateOfBirth)))
  }

  /** The active family user declares for a student whose date of birth is known, as the age of the day asks for. */
  predicate MayDeclare(c: Case, input: Declaration, now: Instant) {
    && input.actor == c.familyUser && input.userActive
    && c.dateOfBirth.Some? && InRange(c.dateOfBirth.value) && InRange(UtcDate(now))
    && FitsAge(input.mode, input.relationship, input.basis, c.dateOfBirth.value, UtcDate(now))
  }

  lemma FitsLikeMode(mode: Mode, relationship: Relationship, basis: Basis, dateOfBirth: int, now: Instant)
    requires Adult(dateOfBirth, now).Some?
    ensures ModeFits(mode, relationship, basis, Adult(dateOfBirth, now).value)
            <==> FitsAge(mode, relationship, basis, dateOfBirth, UtcDate(now))
  {
    hide Adult, ComesOfAge, DateOf, InRange;
    AdultExactly(dateOfBirth, now);
  }

  /** A first declaration names no version; it leaves a DECLARED record with a history of one entry. */
  lemma FirstDeclarationExactly(c: Case, input: Declaration, now: Instant)
    requires c.authority == None
    ensures Declare(c, input, now).Commit? <==> MayDeclare(c, input, now) && input.expected == None
    ensures Declare(c, input, now).Commit? ==>
              Declare(c, input, now).c == c.(authority := Some(Record(
                c.familyUser, input.mode, input.relationship, input.basis, Declared, c.dateOfBirth.value, now, None, None, None, 1, [],
                [Entry(1, NotDeclared, Declared, 1, input.basis)])))
  {
    hide Adult, ComesOfAge, DateOf, InRange, FitsAge, ModeFits;
    if c.dateOfBirth.Some? {
      AdultExactly(c.dateOfBirth.value, now);
      if Adult(c.dateOfBirth.value, now).Some? {
        FitsLikeMode(input.mode, input.relationship, input.basis, c.dateOfBirth.value, now);
      }
    }
  }

  lemma NextEntry(r: Record)
    requires ValidRecord(r)
    ensures MaxSequence(r.history) == r.version >= 1 && Distinct(r.evidence)
  {
    hide Adult, ModeFits, RestsOnReview, LegalEntry;
    HistoryIsNumbered(r.history);
  }

  /**
    A declaration anew names the current version and comes in DRAFT, or once the
    submitted application of a minor is taken over by the adult student. It keeps the
    evidence and the history, and takes every verdict back.
  */
  lemma RedeclarationExactly(c: Case, input: Declaration, now: Instant)
    requires Valid(c) && c.authority.Some?
    ensures var r := c.authority.value;
            && (Declare(c, input, now).Commit? <==>
                && MayDeclare(c, input, now) && input.expected == Some(r.version)
                && (c.application == Draft
                    || (c.application == Submitted && r.mode == MinorRepresentative && input.mode == AdultStudentSelf)))
            && (Declare(c, input, now).Commit? ==>
                Declare(c, input, now).c == c.(authority := Some(Record(
                  r.userId, input.mode, input.relationship, input.basis, Declared, c.dateOfBirth.value, now, None, None, None,
                  r.version + 1, r.evidence, r.history + [Entry(r.version + 1, r.status, Declared, r.version + 1, input.basis)]))))
  {
    hide Adult, ComesOfAge, DateOf, InRange, FitsAge, ValidRecord, MaxSequence;
    NextEntry(c.authority.value);
    if c.dateOfBirth.Some? {
      AdultExactly(c.dateOfBirth.value, now);
      if Adult(c.dateOfBirth.value, now).Some? {
        FitsLikeMode(input.mode, input.relationship, input.basis, c.dateOfBirth.value, now);
      }
    }
  }

  /** Every authority a run can leave fits the age of the student on the day it was declared. */
  lemma RecordsFitTheirAge(start: Case, commands: seq<Command>)
    requires Opened(start) && Run(start, commands).authority.Some?
    ensures var r := Run(start, commands).authority.value;
            && InRange(r.birthSnapshot) && InRange(UtcDate(r.declaredAt))
            && FitsAge(r.mode, r.relationship, r.basis, r.birthSnapshot, UtcDate(r.declaredAt))
  {
    hide Run, Adult, LegalHistory, ModeFits, FitsAge, InRange;
    RunKeepsValid(start, commands);
    var r := Run(start, commands).authority.value;
    SnapshotInRange(r);
    FitsLikeMode(r.mode, r.relationship, r.basis, r.birthSnapshot, r.declaredAt);
  }

  // ---- Reviews -----------------------------------------------------------------------------------

  /** The steps a reviewer may take. */
  const REVIEW_EDGES := {
    (Declared, EvidencePending), (Declared, UnderReview), (EvidencePending, UnderReview),
    (UnderReview, Verified), (UnderReview, EvidencePending), (UnderReview, Disputed), (UnderReview, Rejected),
    (Verified, Disputed), (Disputed, UnderReview), (Disputed, Verified), (Disputed, Rejected)
  }

  /** All documents are usable, and a verdict on a basis other than the parent's or the student's own has evidence. */
  predicate EvidenceSuffices(r: Record, input: Review, usable: set<Id>) {
    && (forall d :: d in input.evidence ==> d in usable)
    && (input.to == Verified && r.basis in {LegalRepresentative, PersonalCareHolder, AuthorizedByHolder} ==>
          r.evidence != [] || input.evidence != [])
  }

  lemma LinkingKeepsSome(evidence: seq<Id>, documents: seq<Id>)
    requires Distinct(evidence)
    ensures Linked(evidence, documents) == [] <==> evidence == [] && documents == []
  {
    LinkingIsAUnion(evidence, documents);
    if documents != [] {
      assert documents[0] in documents;
    }
  }

  /**
    A review takes one step from the current status with a reason, on the current
    version and on usable evidence; it stamps VERIFIED, DISPUTED and REJECTED only,
    links each document once and appends one entry to the history.
  */
  lemma ReviewExactly(c: Case, input: Review, usable: set<Id>, now: Instant)
    requires Valid(c)
    ensures var outcome := ReviewAuthority(c, input, usable, now);
            && (outcome.Commit? <==>
                && c.authority.Some? && input.reasonGiven && input.expected == c.authority.value.version
                && (c.authority.value.status, input.to) in REVIEW_EDGES
                && EvidenceSuffices(c.authority.value, input, usable))
            && (outcome.Commit? ==>
                && outcome.c.authority.Some?
                && var r, after := c.authority.value, outcome.c.authority.value;
                && outcome.c == c.(authority := Some(after))
                && after == Record(
                     r.userId, r.mode, r.relationship, r.basis, input.to, r.birthSnapshot, r.declaredAt,
                     if input.to == Verified then Some(now) else r.verifiedAt,
                     if input.to == Disputed then Some(now) else r.disputedAt,
                     if input.to == Rejected then Some(now) else r.rejectedAt,
                     r.version + 1, after.evidence, r.history + [Entry(r.version + 1, r.status, input.to, r.version + 1, r.basis)])
                && r.evidence <= after.evidence && Distinct(after.evidence)
                && forall d :: d in after.evidence <==> d in r.evidence || d in input.evidence)
  {
    hide ValidRecord, MaxSequence, Linked, AllowedTransitions, REVIEW_EDGES, Distinct, EvidenceSuffices, AllUsable, NeedsEvidence;
    if c.authority.Some? {
      var r := c.authority.value;
      NextEntry(r);
      LinkingIsAUnion(r.evidence, input.evidence);
      EdgesAreAllowed(r.status, input.to);
      SufficesLikeChecks(r, input, usable);
    }
  }

  lemma SufficesLikeChecks(r: Record, input: Review, usable: set<Id>)
    requires Distinct(r.evidence)
    ensures EvidenceSuffices(r, input, usable) <==>
            AllUsable(input.evidence, usable) && !(input.to == Verified && NeedsEvidence(r.basis) && Linked(r.evidence, input.evidence) == [])
  {
    hide Linked;
    LinkingKeepsSome(r.evidence, input.evidence);
    AllUsableMeans(input.evidence, usable);
  }

  lemma EdgesAreAllowed(from: Status, to: Status)
    ensures (from, to) in REVIEW_EDGES <==> to in AllowedTransitions(from)
  {
  }

  /** Why a review with a reason is refused: another version, no such step, or evidence that does not suffice. */
  lemma RefusedReviews(c: Case, input: Review, usable: set<Id>, now: Instant)
    requires Valid(c) && c.authority.Some? && input.reasonGiven && input.expected >= 1
    ensures var r, outcome := c.authority.value, ReviewAuthority(c, input, usable, now);
            var current, step := input.expected == r.version, (r.status, input.to) in REVIEW_EDGES;
            && (outcome == Abort(VersionChanged) <==> !current)
            && (outcome == Abort(InvalidTransition) <==> current && !step)
            && (outcome == Abort(EvidenceInvalid) <==> current && step && exists d :: d in input.evidence && d !in usable)
            && (outcome == Abort(EvidenceRequired) <==>
                current && step && (forall d :: d in input.evidence ==> d in usable) && !EvidenceSuffices(r, input, usable))
  {
    hide ValidRecord, Linked, AllowedTransitions, REVIEW_EDGES, Distinct, EvidenceSuffices, AllUsable, NeedsEvidence;
    var r := c.authority.value;
    NextEntry(r);
    EdgesAreAllowed(r.status, input.to);
    SufficesLikeChecks(r, input, usable);
    AllUsableMeans(input.evidence, usable);
  }

  lemma AllUsableMeans(documents: seq<Id>, usable: set<Id>)
    ensures AllUsable(documents, usable) <==> forall d :: d in documents ==> d in usable
  {
    if forall d :: d in documents ==> d in usable {
      assert forall i :: 0 <= i < |documents| ==> documents[i] in documents;
    }
  }
}
