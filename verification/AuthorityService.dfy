/**
  The authority of an application as the service works on it: an object whose
  methods update the case step by step. Each method is tied to the transition of
  the same name in Authority and keeps the invariant of AuthorityTheorems.
*/
module AuthorityService {
  import opened Wrappers
  import opened IsoDates
  import opened StudentAge
  import opened Authority
  import opened AuthorityTheorems
  import AuthorityEffects

  lemma TransactionKeeps(c: Case, command: Command)
    ensures Valid(c) ==> Valid(Execute(c, command).After(c)) && Extends(c, Execute(c, command).After(c))
  {
    hide Valid, Extends, Execute;
    if Valid(c) {
      StepKeepsValid(c, command);
      StepExtends(c, command);
    }
  }

  /** assertAndLinkEvidence: all documents are linked, or none if one is not usable. */
  method AssertAndLinkEvidence(evidence: seq<Id>, documents: seq<Id>, usable: set<Id>) returns (r: Result<seq<Id>, Code>)
    ensures r == if AllUsable(documents, usable) then Ok(Linked(evidence, documents)) else Err(EvidenceInvalid)
  {
    var links := evidence;
    for i := 0 to |documents|
      invariant links == Linked(evidence, documents[..i])
      invariant AllUsable(documents[..i], usable)
    {
      assert documents[..i + 1][..i] == documents[..i];
      if documents[i] !in usable {
        return Err(EvidenceInvalid);
      }
      if documents[i] !in links {
        links := links + [documents[i]];
      }
    }
    assert documents[..|documents|] == documents;
    return Ok(links);
  }

  class ApplicationAuthorityService {
    var application: ApplicationStatus
    var familyUser: Id
    var dateOfBirth: Option<int>
    var authority: Option<Record>

    function Value(): Case
      reads this
    {
      Case(application, familyUser, dateOfBirth, authority)
    }

    constructor (familyUser: Id, dateOfBirth: Option<int>)
      ensures Opened(Value()) && this.familyUser == familyUser && this.dateOfBirth == dateOfBirth
    {
      application, this.familyUser, this.dateOfBirth, authority := Draft, familyUser, dateOfBirth, None;
    }

    ghost predicate Follows(outcome: Outcome, before: Case, failure: Option<Code>)
      reads this
    {
      && Value() == outcome.After(before)
      && failure == if outcome.Commit? then None else Some(outcome.code)
    }

    /** A valid case stays valid, and its history and evidence only grow. */
    ghost predicate Keeps(before: Case)
      reads this
    {
      Valid(before) ==> Valid(Value()) && Extends(before, Value())
    }

    method NextSequenceNumber(history: seq<Entry>) returns (next: int)
      ensures next == MaxSequence(history) + 1
    {
      var max := 0;
      for i := 0 to |history|
        invariant max == MaxSequence(history[..i])
      {
        assert history[..i + 1][..i] == history[..i];
        if history[i].sequence > max {
          max := history[i].sequence;
        }
      }
      assert history[..|history|] == history;
      next := max + 1;
    }

    method DeclareApplicationAuthority(input: Declaration, now: Instant) returns (failure: Option<Code>)
      modifies this`authority
      ensures Follows(Declare(old(Value()), input, now), old(Value()), failure)
      ensures Keeps(old(Value()))
      ensures old(authority) == None ==> (failure.None? <==> AuthorityEffects.MayDeclare(old(Value()), input, now) && input.expected == None)
    {
      hide IsAdultStudent, Iso, Valid, Extends, AuthorityEffects.MayDeclare;
      if authority == None {
        AuthorityEffects.FirstDeclarationExactly(Value(), input, now);
      }
      TransactionKeeps(Value(), DeclareCmd(input, now));
      if input.actor != familyUser {
        return Some(NotFound);
      }
      if dateOfBirth.None? {
        return Some(DateOfBirthRequired);
      }
      if !input.userActive {
        return Some(Forbidden);
      }
      var adult := Adult(dateOfBirth.value, now);
      if adult.None? || !ModeFits(input.mode, input.relationship, input.basis, adult.value) {
        return Some(InvalidInput);
      }
      if authority.Some? {
        var current := authority.value;
        if input.expected.None? || input.expected.value < 1 {
          return Some(InvalidInput);
        }
        if current.version != input.expected.value {
          return Some(VersionChanged);
        }
        var permittedAfterSubmission :=
          application == Submitted && current.mode == MinorRepresentative && adult.value && input.mode == AdultStudentSelf;
        if application != Draft && !permittedAfterSubmission {
          return Some(InvalidTransition);
        }
        var next := NextSequenceNumber(current.history);
        var updated := current.(
        basis := input.basis, version := current.version + 1, birthSnapshot := dateOfBirth.value, declaredAt := now,
        disputedAt := None, rejectedAt := None, relationship := input.relationship, status := Declared,
        mode := input.mode, verifiedAt := None);
        authority := Some(updated.(history := current.history + [Entry(next, current.status, Declared, updated.version, updated.basis)]));
        return None;
      }
      if input.expected.Some? {
        return Some(VersionChanged);
      }
      authority := Some(Record(familyUser, input.mode, input.relationship, input.basis, Declared, dateOfBirth.value, now,
                               None, None, None, 1, [], [Entry(1, NotDeclared, Declared, 1, input.basis)]));
      return None;
    }

    method ReviewApplicationAuthority(input: Review, usable: set<Id>, now: Instant) returns (failure: Option<Code>)
      modifies this`authority
      ensures Follows(ReviewAuthority(old(Value()), input, usable, now), old(Value()), failure)
      ensures Keeps(old(Value()))
    {
      hide Valid, Extends;
      TransactionKeeps(Value(), ReviewCmd(input, usable, now));
      if input.expected < 1 || !input.reasonGiven {
        return Some(InvalidInput);
      }
      if authority.None? {
        return Some(AuthorityNotDeclared);
      }
      var current := authority.value;
      if current.version != input.expected {
        return Some(VersionChanged);
      }
      if input.to !in AllowedTransitions(current.status) {
        return Some(InvalidTransition);
      }
      var linked := AssertAndLinkEvidence(current.evidence, input.evidence, usable);
      if linked.Err? {
        return Some(linked.error);
      }
      if input.to == Verified && NeedsEvidence(current.basis) && |linked.value| < 1 {
        return Some(EvidenceRequired);
      }
      var next := NextSequenceNumber(current.history);
      var updated := current.(version := current.version + 1, status := input.to, evidence := linked.value);
      if input.to == Verified {
        updated := updated.(verifiedAt := Some(now));
      } else if input.to == Disputed {
        updated := updated.(disputedAt := Some(now));
      } else if input.to == Rejected {
        updated := updated.(rejectedAt := Some(now));
      }
      authority := Some(updated.(history := current.history + [Entry(next, current.status, input.to, updated.version, updated.basis)]));
      return None;
    }
  }
}
