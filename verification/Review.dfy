/**
 Four-eyes review of one candidate: the append-only log of decisions and the status columns it
 projects to.
 */
module Review {
  import opened Options

  datatype VerificationEvent = VerificationEvent(
    searchCandidateId: string,
    reviewer: string,
    reviewerName: string,
    decision: string,
    reason: Option<string>,
    notes: Option<string>,
    requestId: string)

  /** The status columns of a search candidate. */
  datatype Current = Current(status: string, reviewedBy: Option<string>, reviewedByName: Option<string>)

  const PENDING: string := "pending"
  const NEEDS_SECOND: string := "needs_second_review"

  predicate Finalizing(decision: string) {
    decision == "confirmed" || decision == "rejected"
  }

  /** The status a decision leads to; None when the same reviewer may not decide twice. */
  function TargetStatus(twoReviews: bool, current: Current, decision: string, reviewer: string): Option<string> {
    if !twoReviews || !Finalizing(decision) then Some(decision)
    else if current.status == NEEDS_SECOND then
      if current.reviewedBy == Some(reviewer) then None else Some(decision)
    else Some(NEEDS_SECOND)
  }

  /** A log in which every decision was allowed by the decisions before it, and the columns it leads to. */
  function Replay(twoReviews: bool, log: seq<VerificationEvent>): Option<Current> {
    if log == [] then Some(Current(PENDING, None, None))
    else
      var e := log[|log| - 1];
      match Replay(twoReviews, log[..|log| - 1])
      case None => None
      case Some(before) =>
        match TargetStatus(twoReviews, before, e.decision, e.reviewer)
        case None => None
        case Some(status) => Some(Current(status, Some(e.reviewer), Some(e.reviewerName)))
  }

  /** The last two decisions are finalizing ones by different reviewers, the last of them the status. */
  ghost predicate FourEyes(status: string, log: seq<VerificationEvent>) {
    && |log| >= 2
    && Finalizing(log[|log| - 2].decision)
    && log[|log| - 1].decision == status
    && log[|log| - 2].reviewer != log[|log| - 1].reviewer
  }

  lemma ReplayStep(twoReviews: bool, log: seq<VerificationEvent>)
    requires log != [] && Replay(twoReviews, log).Some?
    ensures
      var before := Replay(twoReviews, log[..|log| - 1]);
      var e := log[|log| - 1];
      && before.Some?
      && TargetStatus(twoReviews, before.value, e.decision, e.reviewer) == Some(Replay(twoReviews, log).value.status)
      && Replay(twoReviews, log).value.reviewedBy == Some(e.reviewer)
      && Replay(twoReviews, log).value.reviewedByName == Some(e.reviewerName)
  {
  }

  lemma ReplayOfNothing()
    ensures Replay(true, []) == Some(Current(PENDING, None, None))
  {
  }

  lemma StatusTexts()
    ensures !Finalizing(NEEDS_SECOND) && !Finalizing(PENDING) && PENDING != NEEDS_SECOND
  {
  }

  /**
   A finalized status always rests on two decisions by different reviewers. The first of them is a
   finalizing one exactly when it is not the literal status text "needs_second_review", which the
   function accepts as a decision but its only caller never passes.
   */
  lemma FinalStatusHasTwoReviewers(log: seq<VerificationEvent>)
    requires Replay(true, log).Some? && Finalizing(Replay(true, log).value.status)
    ensures
      && |log| >= 2
      && log[|log| - 1].decision == Replay(true, log).value.status
      && log[|log| - 2].reviewer != log[|log| - 1].reviewer
    ensures FourEyes(Replay(true, log).value.status, log) <==> log[|log| - 2].decision != NEEDS_SECOND
  {
    StatusTexts();
    ReplayOfNothing();
    hide Replay, Finalizing, PENDING, NEEDS_SECOND;
    ReplayStep(true, log);
    var earlier := log[..|log| - 1];
    if earlier != [] {
      ReplayStep(true, earlier);
    }
  }

  predicate DecidesWith(log: seq<VerificationEvent>, decisions: set<string>) {
    forall e :: e in log ==> e.decision in decisions
  }

  ghost predicate AlwaysFourEyes(decisions: set<string>) {
    forall log: seq<VerificationEvent> ::
      DecidesWith(log, decisions) && Replay(true, log).Some? && Finalizing(Replay(true, log).value.status)
      ==> FourEyes(Replay(true, log).value.status, log)
  }

  /** Which decision texts callers may use for the four-eyes law to hold of every log. */
  lemma FourEyesIff(decisions: set<string>)
    ensures AlwaysFourEyes(decisions) <==>
            NEEDS_SECOND !in decisions || ("confirmed" !in decisions && "rejected" !in decisions)
  {
    if NEEDS_SECOND in decisions && exists d :: d in decisions && Finalizing(d) {
      var d :| d in decisions && Finalizing(d);
      BypassingLog(d);
    } else {
      forall log: seq<VerificationEvent> |
        DecidesWith(log, decisions) && Replay(true, log).Some? && Finalizing(Replay(true, log).value.status)
        ensures FourEyes(Replay(true, log).value.status, log)
      {
        FinalStatusHasTwoReviewers(log);
        assert log[|log| - 1] in log && log[|log| - 2] in log;
      }
    }
  }

  function Decide(reviewer: string, decision: string): VerificationEvent {
    VerificationEvent("c", reviewer, "", decision, None, None, "")
  }

  /** Passing the status text itself as a first decision lets the second reviewer finalize alone. */
  lemma BypassingLog(d: string)
    requires Finalizing(d)
    ensures
      var log := [Decide("a", NEEDS_SECOND), Decide("b", d)];
      && Replay(true, log) == Some(Current(d, Some("b"), Some("")))
      && !FourEyes(d, log)
      && DecidesWith(log, {NEEDS_SECOND, d})
  {
    var log := [Decide("a", NEEDS_SECOND), Decide("b", d)];
    assert log[..1] == [Decide("a", NEEDS_SECOND)];
    assert log[..1][..0] == [];
    assert Replay(true, log[..1]) == Some(Current(NEEDS_SECOND, Some("a"), Some("")));
  }

  /** One reviewer alone never finalizes a candidate, whatever decisions they enter. */
  lemma OneReviewerNeverFinalizes(log: seq<VerificationEvent>, reviewer: string)
    requires forall i :: 0 <= i < |log| ==> log[i].reviewer == reviewer
    requires Replay(true, log).Some?
    ensures !Finalizing(Replay(true, log).value.status)
  {
    if Finalizing(Replay(true, log).value.status) {
      FinalStatusHasTwoReviewers(log);
    }
  }

  // ----- the projection in closed form -----

  /** How many decisions at the end of the log are finalizing ones. */
  function FinalizingTail(log: seq<VerificationEvent>): (n: nat)
    ensures n <= |log|
    ensures forall i :: |log| - n <= i < |log| ==> Finalizing(log[i].decision)
    ensures n < |log| ==> !Finalizing(log[|log| - n - 1].decision)
  {
    if log == [] || !Finalizing(log[|log| - 1].decision) then 0
    else 1 + FinalizingTail(log[..|log| - 1])
  }

  /** The last decision before the finalizing tail leaves the candidate waiting for a second review. */
  predicate TailStartsWaiting(log: seq<VerificationEvent>) {
    var n := FinalizingTail(log);
    n < |log| && log[|log| - n - 1].decision == NEEDS_SECOND
  }

  lemma {:induction false} EveryLogIsAccepted(log: seq<VerificationEvent>)
    ensures Replay(false, log).Some?
  {
    if log != [] {
      EveryLogIsAccepted(log[..|log| - 1]);
    }
  }

  /** Without the second review every log is accepted and its columns are those of the last decision. */
  lemma StatusIsLastDecision(log: seq<VerificationEvent>)
    ensures
      Replay(false, log) == Some(
        if log == [] then Current(PENDING, None, None)
        else
          var e := log[|log| - 1];
          Current(e.decision, Some(e.reviewer), Some(e.reviewerName)))
  {
    EveryLogIsAccepted(log);
    if log != [] {
      EveryLogIsAccepted(log[..|log| - 1]);
    }
  }

  lemma TailStep(log: seq<VerificationEvent>)
    requires log != []
    ensures
      var earlier := log[..|log| - 1];
      if Finalizing(log[|log| - 1].decision) then
        FinalizingTail(log) == 1 + FinalizingTail(earlier) && TailStartsWaiting(log) == TailStartsWaiting(earlier)
      else
        FinalizingTail(log) == 0 && TailStartsWaiting(log) == (log[|log| - 1].decision == NEEDS_SECOND)
  {
    hide Finalizing, NEEDS_SECOND;
  }

  /** The closed form: what the end of a log says about the status under the second review. */
  function StatusFromEnd(log: seq<VerificationEvent>): string {
    if log == [] then PENDING
    else
      var n := FinalizingTail(log) + if TailStartsWaiting(log) then 1 else 0;
      if Finalizing(log[|log| - 1].decision) && n % 2 == 1 then NEEDS_SECOND else log[|log| - 1].decision
  }

  /**
   With the second review the status is read off the end of the log: after an odd number of
   consecutive finalizing decisions the candidate waits, after an even number it has the last
   decision, counting one more when the tail follows a literal "needs_second_review".
   */
  lemma {:induction false} StatusByParity(log: seq<VerificationEvent>)
    requires Replay(true, log).Some?
    ensures Replay(true, log).value.status == StatusFromEnd(log)
  {
    StatusTexts();
    ReplayOfNothing();
    StatusOfNothing();
    hide Replay, Finalizing, StatusFromEnd, PENDING, NEEDS_SECOND;
    if log != [] {
      var earlier := log[..|log| - 1];
      ReplayStep(true, log);
      StatusByParity(earlier);
      StatusFromEndStep(log);
    }
  }

  lemma StatusOfNothing()
    ensures StatusFromEnd([]) == PENDING
  {
  }

  lemma StatusFromEndStep(log: seq<VerificationEvent>)
    requires log != []
    ensures
      var e := log[|log| - 1];
      StatusFromEnd(log) == if Finalizing(e.decision)
        && StatusFromEnd(log[..|log| - 1]) != NEEDS_SECOND then NEEDS_SECOND else e.decision
  {
    hide Finalizing, FinalizingTail, TailStartsWaiting, PENDING, NEEDS_SECOND;
    TailStep(log);
    WaitingIffOdd(log[..|log| - 1]);
  }

  /** In the closed form a candidate waits exactly when the weighted tail is odd. */
  lemma WaitingIffOdd(log: seq<VerificationEvent>)
    ensures StatusFromEnd(log) == NEEDS_SECOND <==>
      (FinalizingTail(log) + if TailStartsWaiting(log) then 1 else 0) % 2 == 1
  {
    StatusTexts();
    if log != [] {
      hide Finalizing, PENDING, NEEDS_SECOND, FinalizingTail, TailStartsWaiting;
      TailStep(log);
    }
  }
}
