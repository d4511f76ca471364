/**
  Accepting an offer under the authority guard: the acceptance transaction of
  packages/database/src/capacity-offer.ts with the check it makes through
  packages/database/src/application-authority.ts.
*/
module GuardedAcceptance {
  import opened Wrappers
  import opened AdmissionRows
  import Authority
  import AuthorityTheorems
  import CivilDates
  import IsoDates
  import SeatInvariants
  import StudentAge

  function AcceptOffer(s: Rows, c: Authority.Case, applicationId: Id, expectedVersionId: Id, actor: Id, now: Instant): Outcome {
    Respond(s, applicationId, expectedVersionId, Accept, Authority.Guard(c, Some(actor), now) == None, now)
  }

  /** The current version is the expected one, open and not past its deadline. */
  predicate OpenFor(b: Book, a: Id, expected: Id, now: Instant)
    requires a in b.offers
  {
    && expected == b.offers[a].currentVersionId && expected in b.versions
    && b.versions[expected].lifecycle == Active
    && now < b.versions[expected].expiresAt
  }

  /** The mode of the authority is the one the student's age on that day calls for. */
  predicate ModeOfAge(c: Authority.Case, now: Instant)
    requires c.dateOfBirth.Some? && c.authority.Some?
  {
    c.authority.value.mode == Authority.AdultStudentSelf <==>
    StudentAge.ComesOfAge(CivilDates.DateOf(c.dateOfBirth.value)) <= AuthorityTheorems.UtcDate(now)
  }

  /**
    An offer not yet accepted becomes accepted exactly if its current version is
    open in time, and the actor holds a verified authority that still matches the
    family, the date of birth and the student's age.
  */
  lemma AcceptedExactlyWithAuthority(s: Rows, c: Authority.Case, a: Id, expected: Id, actor: Id, now: Instant)
    requires SeatInvariants.Valid(s) && AuthorityTheorems.Valid(c) && IsoDates.InRange(AuthorityTheorems.UtcDate(now))
    requires a in s.book.offers && a !in s.book.acceptances
    ensures a in AcceptOffer(s, c, a, expected, actor, now).After(s).book.acceptances <==>
            OpenFor(s.book, a, expected, now) && AuthorityTheorems.Settled(c, Some(actor)) && ModeOfAge(c, now)
  {
    hide AuthorityTheorems.Valid, Authority.Guard, AuthorityTheorems.Settled, ModeOfAge;
    GuardIsMode(c, actor, now);
    if OpenFor(s.book, a, expected, now) {
      OpenOfferCanBeAccepted(s, a, expected, now);
    }
  }

  lemma GuardIsMode(c: Authority.Case, actor: Id, now: Instant)
    requires AuthorityTheorems.Valid(c) && IsoDates.InRange(AuthorityTheorems.UtcDate(now))
    ensures AuthorityTheorems.Settled(c, Some(actor)) ==> c.dateOfBirth.Some? && c.authority.Some?
    ensures Authority.Guard(c, Some(actor), now) == None <==>
            AuthorityTheorems.Settled(c, Some(actor)) && ModeOfAge(c, now)
  {
    hide AuthorityTheorems.Valid, Authority.Guard;
    AuthorityTheorems.GuardByAge(c, Some(actor), now);
  }

  lemma OpenOfferCanBeAccepted(s: Rows, a: Id, expected: Id, now: Instant)
    requires SeatInvariants.Valid(s) && a in s.book.offers && a !in s.book.acceptances && OpenFor(s.book, a, expected, now)
    ensures a in s.applications && s.applications[a].status != Withdrawn
    ensures s.book.versions[expected].reservationId in s.book.reservations
    ensures s.book.reservations[s.book.versions[expected].reservationId].state == SeatActive
  {
  }
}
