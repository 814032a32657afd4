/** The legal moves of a claim and who may make them
    (backend/src/main/java/com/claimguard/workflow/ClaimTransitions.java:19-72). */
module Transitions {

  datatype Status = Submitted | UnderReview | Flagged | Approved | Denied
  datatype Role = Adjuster | Investigator | Auditor | System

  const ALLOWED_ROLES: map<(Status, Status), set<Role>> := map[
    (Submitted, UnderReview) := {Adjuster, System},
    (Submitted, Flagged) := {System},
    (UnderReview, Flagged) := {Adjuster},
    (UnderReview, Approved) := {Adjuster},
    (UnderReview, Denied) := {Adjuster},
    (Flagged, UnderReview) := {Investigator},
    (Flagged, Denied) := {Investigator},
    (Flagged, Approved) := {Investigator}
  ]

  const REQUIRES_REASON: set<(Status, Status)> := {(Flagged, Approved)}

  predicate IsDefined(from: Status, to: Status) {
    (from, to) in ALLOWED_ROLES
  }

  predicate IsAllowed(from: Status, to: Status, role: Role) {
    (from, to) in ALLOWED_ROLES && role in ALLOWED_ROLES[(from, to)]
  }

  predicate RequiresReason(from: Status, to: Status) {
    (from, to) in REQUIRES_REASON
  }

  /** Nothing more can happen to the status of such a claim. */
  predicate Terminal(s: Status) { s == Approved || s == Denied }

  /** What each role may do: an adjuster starts a review and decides it or flags the claim; an
      investigator settles a flag, in any of three ways; the system starts a review or flags what was
      just submitted; an auditor does nothing. */
  lemma MovesByRole(from: Status, to: Status)
    ensures IsAllowed(from, to, Adjuster) <==>
      (from == Submitted && to == UnderReview) || (from == UnderReview && to in {Flagged, Approved, Denied})
    ensures IsAllowed(from, to, Investigator) <==> from == Flagged && to in {UnderReview, Approved, Denied}
    ensures IsAllowed(from, to, System) <==> from == Submitted && to in {UnderReview, Flagged}
    ensures !IsAllowed(from, to, Auditor)
    ensures IsDefined(from, to) <==> exists role :: IsAllowed(from, to, role)
    ensures Terminal(from) ==> !IsDefined(from, to)
    ensures !Terminal(from) ==> IsDefined(from, UnderReview) || IsDefined(from, Flagged)
  {
    assert forall r :: IsAllowed(from, to, r) <==> (from, to) in ALLOWED_ROLES && r in ALLOWED_ROLES[(from, to)];
    if IsDefined(from, to) {
      assert IsAllowed(from, to, Adjuster) || IsAllowed(from, to, System) || IsAllowed(from, to, Investigator);
    }
  }

  /** The shape of the relation the whole-run results rest on: approval only after review or a
      flag, flags lifted only by an investigator, no auditor moves anything, no move leaves a
      decision or returns to the start, and exactly one move needs a reason. */
  lemma TransitionShape(from: Status, to: Status, role: Role)
    ensures IsAllowed(from, to, role) ==>
      && IsDefined(from, to) && from != to && !Terminal(from) && to != Submitted && role != Auditor
      && (to == Approved ==> from == UnderReview || from == Flagged)
      && (from == Flagged <==> role == Investigator)
    ensures IsDefined(from, to) ==> exists r :: IsAllowed(from, to, r)
    ensures RequiresReason(from, to) <==> from == Flagged && to == Approved
  {
    assert forall r :: IsAllowed(from, to, r) <==> (from, to) in ALLOWED_ROLES && r in ALLOWED_ROLES[(from, to)];
    if IsDefined(from, to) {
      assert IsAllowed(from, to, Adjuster) || IsAllowed(from, to, System) || IsAllowed(from, to, Investigator);
    }
  }
}
