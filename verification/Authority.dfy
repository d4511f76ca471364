/**
  The authority over an application: declaration, review with an append-only
  history, evidence, and the guard of critical actions, after
  packages/database/src/application-authority.ts. A transaction either commits
  or leaves the case as it was.
*/
module Authority {
  import opened Wrappers
  import opened IsoDates
  import opened StudentAge
  import LocalTime

  type Id = int
  type Instant = int

  datatype Mode = MinorRepresentative | AdultStudentSelf
  datatype Relationship = Mother | Father | OtherRelative | OtherPerson | Oneself
  datatype Basis = Parent | LegalRepresentative | PersonalCareHolder | AuthorizedByHolder | OwnRight
  datatype Status = NotDeclared | Declared | EvidencePending | UnderReview | Verified | Disputed | Rejected

  datatype Entry = Entry(sequence: int, from: Status, to: Status, version: int, basis: Basis)

  datatype Record = Record(
    userId: Id, mode: Mode, relationship: Relationship, basis: Basis, status: Status, birthSnapshot: int,
    declaredAt: Instant, verifiedAt: Option<Instant>, disputedAt: Option<Instant>, rejectedAt: Option<Instant>,
    version: int, evidence: seq<Id>, history: seq<Entry>)

  datatype ApplicationStatus = Draft | Submitted | Withdrawn

  /** The application with its family user, the student's date of birth (a day number) and its authority. */
  datatype Case = Case(application: ApplicationStatus, familyUser: Id, dateOfBirth: Option<int>, authority: Option<Record>)

  datatype Code =
    | NotFound
    | Forbidden
    | InvalidInput
    | DateOfBirthRequired
    | AuthorityNotDeclared
    | AuthorityNotVerified
    | VersionChanged
    | InvalidTransition
    | EvidenceInvalid
    | EvidenceRequired
    | StudentDataChanged
    | PrincipalMismatch
    | ModeInvalid

  datatype Outcome = Commit(c: Case) | Abort(code: Code) {
    function After(before: Case): Case {
      if Commit? then c else before
    }
  }

  /** The UTC calendar date of an instant. */
  function CalendarDate(now: Instant): string {
    Iso(now / LocalTime.DAY_MS)
  }

  function Adult(dateOfBirth: int, now: Instant): Option<bool> {
    IsAdultStudent(Iso(dateOfBirth), CalendarDate(now))
  }

  // ---- Declaration -----------------------------------------------------------------------

  datatype Declaration = Declaration(
    actor: Id, userActive: bool, mode: Mode, relationship: Relationship, basis: Basis, expected: Option<int>)

  predicate ModeFits(mode: Mode, relationship: Relationship, basis: Basis, adult: bool) {
    if mode == AdultStudentSelf then adult && relationship == Oneself && basis == OwnRight
    else !adult && relationship != Oneself && basis != OwnRight
  }

  function MaxSequence(history: seq<Entry>): int {
    if history == [] then 0
    else
      var rest, last := MaxSequence(history[..|history| - 1]), history[|history| - 1].sequence;
      if last > rest then last else rest
  }

  function Append(r: Record, from: Status): seq<Entry> {
    r.history + [Entry(MaxSequence(r.history) + 1, from, r.status, r.version, r.basis)]
  }

  function Redeclared(r: Record, input: Declaration, dateOfBirth: int, now: Instant): Record {
    var updated := r.(basis := input.basis, version := r.version + 1, birthSnapshot := dateOfBirth, declaredAt := now,
    disputedAt := None, rejectedAt := None, relationship := input.relationship, status := Declared,
    mode := input.mode, verifiedAt := None);
    updated.(history := Append(updated, r.status))
  }

  function FirstRecord(c: Case, input: Declaration, dateOfBirth: int, now: Instant): Record {
    Record(c.familyUser, input.mode, input.relationship, input.basis, Declared, dateOfBirth, now, None, None, None, 1, [],
           [Entry(1, NotDeclared, Declared, 1, input.basis)])
  }

  function Declare(c: Case, input: Declaration, now: Instant): Outcome {
    if input.actor != c.familyUser then Abort(NotFound)
    else if c.dateOfBirth.None? then Abort(DateOfBirthRequired)
    else if !input.userActive then Abort(Forbidden)
    else
      var adult := Adult(c.dateOfBirth.value, now);
      if adult.None? || !ModeFits(input.mode, input.relationship, input.basis, adult.value) then Abort(InvalidInput)
      else
        match c.authority
        case Some(current) =>
          if input.expected.None? || input.expected.value < 1 then Abort(InvalidInput)
          else if current.version != input.expected.value then Abort(VersionChanged)
          else if c.application != Draft
                  && !(c.application == Submitted && current.mode == MinorRepresentative && adult.value && input.mode == AdultStudentSelf) then
            Abort(InvalidTransition)
          else Commit(c.(authority := Some(Redeclared(current, input, c.dateOfBirth.value, now))))
        case None =>
          if input.expected.Some? then Abort(VersionChanged)
          else Commit(c.(authority := Some(FirstRecord(c, input, c.dateOfBirth.value, now))))
  }

  // ---- Review -----------------------------------------------------------------------------

  function AllowedTransitions(from: Status): set<Status> {
    match from
    case NotDeclared => {}
    case Declared => {EvidencePending, UnderReview}
    case EvidencePending => {UnderReview}
    case UnderReview => {Verified, EvidencePending, Disputed, Rejected}
    case Verified => {Disputed}
    case Disputed => {UnderReview, Verified, Rejected}
    case Rejected => {}
  }

  /** The links after adding the documents that are not linked yet; each document is linked once. */
  function Linked(evidence: seq<Id>, documents: seq<Id>): seq<Id> {
    if documents == [] then evidence
    else
      var before, last := Linked(evidence, documents[..|documents| - 1]), documents[|documents| - 1];
      if last in before then before else before + [last]
  }

  predicate AllUsable(documents: seq<Id>, usable: set<Id>) {
    forall i :: 0 <= i < |documents| ==> documents[i] in usable
  }

  datatype Review = Review(to: Status, evidence: seq<Id>, expected: int, reasonGiven: bool)

  predicate NeedsEvidence(basis: Basis) {
    basis != Parent && basis != OwnRight
  }

  function Reviewed(r: Record, input: Review, now: Instant): Record {
    var updated := r.(version := r.version + 1, status := input.to, evidence := Linked(r.evidence, input.evidence),
    verifiedAt := if input.to == Verified then Some(now) else r.verifiedAt,
    disputedAt := if input.to == Disputed then Some(now) else r.disputedAt,
    rejectedAt := if input.to == Rejected then Some(now) else r.rejectedAt);
    updated.(history := Append(updated, r.status))
  }

  /** `usable` are the documents of the application that are clean and ready for review. */
  function ReviewAuthority(c: Case, input: Review, usable: set<Id>, now: Instant): Outcome {
    if input.expected < 1 || !input.reasonGiven then Abort(InvalidInput)
    else if c.authority.None? then Abort(AuthorityNotDeclared)
    else
      var current := c.authority.value;
      if current.version != input.expected then Abort(VersionChanged)
      else if input.to !in AllowedTransitions(current.status) then Abort(InvalidTransition)
      else if !AllUsable(input.evidence, usable) then Abort(EvidenceInvalid)
      else if input.to == Verified && NeedsEvidence(current.basis) && Linked(current.evidence, input.evidence) == [] then
        Abort(EvidenceRequired)
      else Commit(c.(authority := Some(Reviewed(current, input, now))))
  }

  // ---- The guard ------------------------------------------------------------------------------

  /** assertApplicationAuthorityForCriticalAction: None if the action may go on. */
  function Guard(c: Case, expectedUser: Option<Id>, now: Instant): Option<Code> {
    if c.dateOfBirth.None? then Some(DateOfBirthRequired)
    else if c.authority.None? then Some(AuthorityNotDeclared)
    else
      var r := c.authority.value;
      if r.status != Verified then Some(AuthorityNotVerified)
      else if Iso(c.dateOfBirth.value) != Iso(r.birthSnapshot) then Some(StudentDataChanged)
      else if r.userId != c.familyUser then Some(PrincipalMismatch)
      else if expectedUser.Some? && r.userId != expectedUser.value then Some(PrincipalMismatch)
      else
        var adult := Adult(c.dateOfBirth.value, now);
        if adult.None? then Some(InvalidInput)
        else if !ModeFits(r.mode, r.relationship, r.basis, adult.value) then Some(ModeInvalid)
        else None
  }

  // ---- Runs ---------------------------------------------------------------------------------------

  datatype Command =
    | DeclareCmd(input: Declaration, now: Instant)
    | ReviewCmd(review: Review, usable: set<Id>, now: Instant)
    | SubmitCmd(submitter: Id, now: Instant)
    | WithdrawCmd
    | SetDateOfBirthCmd(dateOfBirth: int)

  /** The final submission, as far as it concerns the authority. */
  function Submit(c: Case, submitter: Id, now: Instant): Outcome {
    if c.application != Draft then Abort(InvalidTransition)
    else
      var denied := Guard(c, Some(submitter), now);
      if denied.Some? then Abort(denied.value) else Commit(c.(application := Submitted))
  }

  function Execute(c: Case, command: Command): Outcome {
    match command
    case DeclareCmd(input, now) => Declare(c, input, now)
    case ReviewCmd(review, usable, now) => ReviewAuthority(c, review, usable, now)
    case SubmitCmd(submitter, now) => Submit(c, submitter, now)
    case WithdrawCmd => if c.application == Submitted then Commit(c.(application := Withdrawn)) else Abort(InvalidTransition)
    case SetDateOfBirthCmd(dateOfBirth) => Commit(c.(dateOfBirth := Some(dateOfBirth)))
  }

  function Step(c: Case, command: Command): Case {
    Execute(c, command).After(c)
  }

  function Run(c: Case, commands: seq<Command>): Case {
    if commands == [] then c else Step(Run(c, commands[..|commands| - 1]), commands[|commands| - 1])
  }

  predicate Opened(c: Case) {
    c.application == Draft && c.authority == None
  }
}
