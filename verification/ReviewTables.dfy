/** The review tables: candidates of searches with their status columns, and the shared decision log. */
module ReviewTables {
  import opened Options
  import opened Backends
  import opened Review

  /** A candidate row is found by its search and its candidate; events refer to it by its own id. */
  type Key = (string, string)

  datatype CandidateRow = CandidateRow(id: string, current: Current)

  datatype Tables = Tables(rows: map<Key, CandidateRow>, events: seq<VerificationEvent>)

  datatype Environment = Environment(
    backend: Backend,
    parseUuid: string -> Option<string>,
    people: set<string>,
    twoReviews: bool)

  datatype Request = Request(
    searchId: string,
    candidateId: string,
    decision: string,
    reviewedBy: string,
    reviewedByName: string,
    reason: Option<string>,
    notes: Option<string>,
    requestId: string)

  datatype Outcome = Applied(row: CandidateRow) | NotFound | SameReviewerForbidden

  function Resolve(env: Environment, id: string): Option<string> {
    if env.backend == Postgres then env.parseUuid(id) else Some(id)
  }

  /** What the transaction will do with a request. */
  datatype Verdict = Unknown | Forbidden | Accepted(key: Key, reviewer: string, status: string)

  function Judge(env: Environment, rows: map<Key, CandidateRow>, r: Request): Verdict {
    match (Resolve(env, r.searchId), Resolve(env, r.candidateId), Resolve(env, r.reviewedBy))
    case (Some(search), Some(candidate), Some(reviewer)) =>
      if (search, candidate) !in rows then Unknown
      else
        (match TargetStatus(env.twoReviews, rows[(search, candidate)].current, r.decision, reviewer)
         case None => Forbidden
         case Some(status) => Accepted((search, candidate), reviewer, status))
    case _ => Unknown
  }

  function Logged(t: Tables, r: Request, key: Key, reviewer: string, status: string): Tables
    requires key in t.rows
  {
    var row := t.rows[key];
    Tables(
      t.rows[key := row.(current := Current(status, Some(reviewer), Some(r.reviewedByName)))],
      t.events + [VerificationEvent(row.id, reviewer, r.reviewedByName, r.decision, r.reason, r.notes, r.requestId)])
  }

  /** Re-reads the row for the response: joined with the candidates and compared with the id as the caller wrote it. */
  function ReadBack(env: Environment, t: Tables, r: Request): Outcome {
    match Resolve(env, r.searchId)
    case Some(search) =>
      if (search, r.candidateId) in t.rows
        && r.candidateId in env.people then Applied(t.rows[(search, r.candidateId)]) else NotFound
    case None => NotFound
  }

  function AfterReview(env: Environment, t: Tables, r: Request): Tables {
    match Judge(env, t.rows, r)
    case Accepted(key, reviewer, status) => Logged(t, r, key, reviewer, status)
    case _ => t
  }

  function ReviewOutcome(env: Environment, t: Tables, r: Request): Outcome {
    match Judge(env, t.rows, r)
    case Unknown => NotFound
    case Forbidden => SameReviewerForbidden
    case Accepted(_, _, _) => ReadBack(env, AfterReview(env, t, r), r)
  }

  class ReviewStore {
    const env: Environment
    var rows: map<Key, CandidateRow>
    var events: seq<VerificationEvent>

    function Contents(): Tables
      reads this
    {
      Tables(rows, events)
    }

    constructor (env: Environment)
      ensures this.env == env && Contents() == Tables(map[], [])
    {
      this.env := env;
      rows := map[];
      events := [];
    }

    /** The row is locked while the decision is judged, logged and projected, so each call is one step. */
    method RecordReviewDecision(r: Request) returns (outcome: Outcome)
      modifies this
      ensures Contents() == AfterReview(env, old(Contents()), r)
      ensures outcome == ReviewOutcome(env, old(Contents()), r)
    {
      var search, candidate, reviewer := Resolve(env, r.searchId), Resolve(env, r.candidateId),
        Resolve(env, r.reviewedBy);
      if search.None? || candidate.None? || reviewer.None? {
        return NotFound;
      }
      var key := (search.value, candidate.value);
      if key !in rows {
        return NotFound;
      }
      var row := rows[key];
      var finalizing := Finalizing(r.decision);
      var target := r.decision;
      if env.twoReviews && finalizing {
        if row.current.status == NEEDS_SECOND {
          if row.current.reviewedBy == reviewer {
            return SameReviewerForbidden;
          }
        } else {
          target := NEEDS_SECOND;
        }
      }
      events := events + [VerificationEvent(row.id, reviewer.value, r.reviewedByName, r.decision, r.reason, r.notes,
        r.requestId)];
      rows := rows[key := row.(current := Current(target, reviewer, Some(r.reviewedByName)))];
      outcome := ReadBack(env, Contents(), r);
    }
  }

  // ----- the projection -----

  function LogOf(events: seq<VerificationEvent>, id: string): seq<VerificationEvent> {
    if events == [] then []
    else
      var e := events[|events| - 1];
      LogOf(events[..|events| - 1], id) + if e.searchCandidateId == id then [e] else []
  }

  lemma {:induction false} LogOfOnlyHas(events: seq<VerificationEvent>, id: string)
    ensures forall e :: e in LogOf(events, id) ==> e in events && e.searchCandidateId == id
    ensures (forall e :: e in events ==> e.searchCandidateId != id) ==> LogOf(events, id) == []
  {
    if events != [] {
      LogOfOnlyHas(events[..|events| - 1], id);
      assert events[|events| - 1] in events;
    }
  }

  /** The status columns of every row are what its log of decisions replays to. */
  ghost predicate Projects(env: Environment, t: Tables, key: Key)
    requires key in t.rows
  {
    Replay(env.twoReviews, LogOf(t.events, t.rows[key].id)) == Some(t.rows[key].current)
  }

  ghost predicate Consistent(env: Environment, t: Tables) {
    && (forall j, k :: j in t.rows && k in t.rows && t.rows[j].id == t.rows[k].id ==> j == k)
    && (forall key :: key in t.rows ==> Projects(env, t, key))
  }

  datatype Action = Add(key: Key, id: string) | Review(request: Request)

  /** A finished search adds its candidates as pending rows under fresh ids. */
  function AfterAdd(t: Tables, key: Key, id: string): Tables {
    if key in t.rows || (exists k :: k in t.rows && t.rows[k].id == id)
      || (exists e :: e in t.events && e.searchCandidateId == id) then t
    else t.(rows := t.rows[key := CandidateRow(id, Current(PENDING, None, None))])
  }

  function After(env: Environment, t: Tables, action: Action): Tables {
    match action
    case Add(key, id) => AfterAdd(t, key, id)
    case Review(r) => AfterReview(env, t, r)
  }

  function Run(env: Environment, t: Tables, actions: seq<Action>): Tables
    decreases actions
  {
    if actions == [] then t else Run(env, After(env, t, actions[0]), actions[1..])
  }

  lemma AddKeepsConsistent(env: Environment, t: Tables, key: Key, id: string)
    requires Consistent(env, t)
    ensures Consistent(env, AfterAdd(t, key, id))
  {
    hide Replay;
    LogOfOnlyHas(t.events, id);
    ReplayOfEmptyLog(env.twoReviews);
    forall k | k in AfterAdd(t, key, id).rows ensures Projects(env, AfterAdd(t, key, id), k) {
      assert k in t.rows ==> Projects(env, t, k);
    }
  }

  lemma ReplayOfEmptyLog(twoReviews: bool)
    ensures Replay(twoReviews, []) == Some(Current(PENDING, None, None))
  {
  }

  /** A permitted decision appended to a log moves its replay to the target status. */
  lemma ReplayAppends(twoReviews: bool, log: seq<VerificationEvent>, before: Current, e: VerificationEvent)
    requires Replay(twoReviews, log) == Some(before)
    ensures Replay(twoReviews, log + [e]) ==
            match TargetStatus(twoReviews, before, e.decision, e.reviewer)
            case None => None
            case Some(status) => Some(Current(status, Some(e.reviewer), Some(e.reviewerName)))
  {
    assert (log + [e])[..|log + [e]| - 1] == log;
  }

  lemma LoggedKeepsConsistent(env: Environment, t: Tables, r: Request)
    requires Consistent(env, t)
    ensures Consistent(env, AfterReview(env, t, r))
  {
    hide Replay, TargetStatus;
    if Judge(env, t.rows, r).Accepted? {
      var Accepted(key, reviewer, status) := Judge(env, t.rows, r);
      var after := Logged(t, r, key, reviewer, status);
      var e := after.events[|t.events|];
      assert after.events[..|after.events| - 1] == t.events;
      assert Projects(env, t, key);
      ReplayAppends(env.twoReviews, LogOf(t.events, t.rows[key].id), t.rows[key].current, e);
      forall k | k in after.rows ensures Projects(env, after, k) {
        assert Projects(env, t, k);
        if k == key {
          assert LogOf(after.events, after.rows[k].id) == LogOf(t.events, t.rows[k].id) + [e];
        } else {
          assert LogOf(after.events, after.rows[k].id) == LogOf(t.events, t.rows[k].id);
        }
      }
    }
  }

  /** In every run the status and reviewer columns equal the replay of the row's log, under either policy. */
  lemma {:induction false} RunKeepsConsistent(env: Environment, t: Tables, actions: seq<Action>)
    requires Consistent(env, t)
    ensures Consistent(env, Run(env, t, actions))
    decreases actions
  {
    if actions != [] {
      match actions[0] {
        case Add(key, id) => AddKeepsConsistent(env, t, key, id);
        case Review(r) => LoggedKeepsConsistent(env, t, r);
      }
      RunKeepsConsistent(env, After(env, t, actions[0]), actions[1..]);
    }
  }

  lemma {:induction false} RunOnlyAppends(env: Environment, t: Tables, actions: seq<Action>)
    ensures t.events <= Run(env, t, actions).events
    ensures forall e :: e in Run(env, t, actions).events[|t.events|..] ==>
              exists a :: a in actions && a.Review? && e.decision == a.request.decision
                && Resolve(env, a.request.reviewedBy) == Some(e.reviewer)
    decreases actions
  {
    if actions != [] {
      var next := After(env, t, actions[0]);
      var last := Run(env, t, actions);
      RunOnlyAppends(env, next, actions[1..]);
      assert t.events <= next.events;
      forall e | e in last.events[|t.events|..]
        ensures exists a ::
          a in actions && a.Review? && e.decision == a.request.decision
          && Resolve(env, a.request.reviewedBy) == Some(e.reviewer)
      {
        var i :| |t.events| <= i < |last.events| && last.events[i] == e;
        if i < |next.events| {
          assert next.events[i] == e;
          assert actions[0] in actions;
        } else {
          assert last.events[|next.events|..][i - |next.events|] == e;
          var a :| a in actions[1..] && a.Review? && e.decision == a.request.decision
            && Resolve(env, a.request.reviewedBy) == Some(e.reviewer);
          assert a in actions;
        }
      }
    }
  }

  /**
   With the second review on for the whole run and no caller passing "needs_second_review" as a
   decision, a confirmed or rejected candidate has two finalizing decisions by different reviewers
   at the end of its log, the last one being its status.
   */
  lemma FourEyesInEveryRun(env: Environment, actions: seq<Action>, key: Key)
    requires env.twoReviews
    requires forall a :: a in actions && a.Review? ==> a.request.decision != NEEDS_SECOND
    ensures
      var t := Run(env, Tables(map[], []), actions);
      key in t.rows && Finalizing(t.rows[key].current.status)
      ==> FourEyes(t.rows[key].current.status, LogOf(t.events, t.rows[key].id))
  {
    hide Replay, Finalizing, FourEyes, NEEDS_SECOND;
    var t := Run(env, Tables(map[], []), actions);
    RunKeepsConsistent(env, Tables(map[], []), actions);
    RunOnlyAppends(env, Tables(map[], []), actions);
    assert t.events[0..] == t.events;
    if key in t.rows && Finalizing(t.rows[key].current.status) {
      var log := LogOf(t.events, t.rows[key].id);
      LogOfOnlyHas(t.events, t.rows[key].id);
      assert Projects(env, t, key);
      FinalStatusHasTwoReviewers(log);
      assert log[|log| - 2] in log;
    }
  }

  /** A run in which only one reviewer acts finalizes nothing, whatever decisions are passed. */
  lemma OneReviewerFinalizesNothing(env: Environment, actions: seq<Action>, reviewer: string, key: Key)
    requires env.twoReviews
    requires forall a :: a in actions && a.Review? && Resolve(env, a.request.reviewedBy).Some? ==>
      Resolve(env, a.request.reviewedBy) == Some(reviewer)
    ensures
      var t := Run(env, Tables(map[], []), actions);
      key in t.rows ==> !Finalizing(t.rows[key].current.status)
  {
    hide Replay, Finalizing, NEEDS_SECOND;
    var t := Run(env, Tables(map[], []), actions);
    RunKeepsConsistent(env, Tables(map[], []), actions);
    RunOnlyAppends(env, Tables(map[], []), actions);
    assert t.events[0..] == t.events;
    if key in t.rows {
      var log := LogOf(t.events, t.rows[key].id);
      LogOfOnlyHas(t.events, t.rows[key].id);
      assert Projects(env, t, key);
      forall i | 0 <= i < |log| ensures log[i].reviewer == reviewer {
        assert log[i] in log;
      }
      OneReviewerNeverFinalizes(log, reviewer);
    }
  }

  // ----- accepted decisions -----

  /**
   A decision on a known candidate is applied unless the second review forbids it: the log gains one
   event with everything the request said, the columns become the decision's or, for a first finalizing
   decision under the second review, those of a waiting candidate, and the answer is the new row.
   */
  lemma PermittedDecisionIsApplied(
    env: Environment, t: Tables, r: Request, search: string, candidate: string, reviewer: string)
    requires env.backend == Sqlite ==> (search, candidate, reviewer) == (r.searchId, r.candidateId, r.reviewedBy)
    requires env.backend == Postgres ==>
      && env.parseUuid(r.searchId) == Some(search) && env.parseUuid(r.candidateId) == Some(candidate)
      && env.parseUuid(r.reviewedBy) == Some(reviewer)
    requires (search, candidate) in t.rows
    requires !(env.twoReviews && (r.decision == "confirmed" || r.decision == "rejected")
               && t.rows[(search, candidate)].current.status == "needs_second_review"
               && t.rows[(search, candidate)].current.reviewedBy == Some(reviewer))
    ensures
      var (row, after) := (t.rows[(search, candidate)], AfterReview(env, t, r));
      var first := env.twoReviews && (r.decision == "confirmed" || r.decision == "rejected")
        && row.current.status != "needs_second_review";
      var status := if first then "needs_second_review" else r.decision;
      && after.events == t.events +
           [VerificationEvent(row.id, reviewer, r.reviewedByName, r.decision, r.reason, r.notes, r.requestId)]
      && after.rows == t.rows[(search, candidate) :=
           CandidateRow(row.id, Current(status, Some(reviewer), Some(r.reviewedByName)))]
      && (candidate == r.candidateId && candidate in env.people ==>
            ReviewOutcome(env, t, r) == Applied(after.rows[(search, candidate)]))
  {
  }

  // ----- refusals -----

  ghost predicate CanonicalKeys(env: Environment, rows: map<Key, CandidateRow>) {
    forall key: Key :: key in rows ==> Resolve(env, key.1) == Some(key.1)
  }

  /**
   A decision is refused as the same reviewer's exactly when the requested candidate waits for its
   second review and its last reviewer sends a finalizing decision; the refusal leaves no trace.
   */
  lemma ForbiddenIff(env: Environment, t: Tables, r: Request)
    ensures
      var search, candidate, reviewer := Resolve(env, r.searchId), Resolve(env, r.candidateId),
        Resolve(env, r.reviewedBy);
      ReviewOutcome(env, t, r).SameReviewerForbidden? <==>
        && env.twoReviews && Finalizing(r.decision)
        && search.Some? && candidate.Some? && reviewer.Some?
        && (search.value, candidate.value) in t.rows
        && var current := t.rows[(search.value, candidate.value)].current;
           current.status == NEEDS_SECOND && current.reviewedBy == reviewer
    ensures ReviewOutcome(env, t, r).SameReviewerForbidden? ==> AfterReview(env, t, r) == t
  {
  }

  /**
   NotFound leaves no trace exactly when the decision was not accepted. It does leave one when the
   id was not written canonically or the candidate's record is gone: the decision is committed
   and only the read after it fails.
   */
  lemma NotFoundLeavesATraceIff(env: Environment, t: Tables, r: Request)
    requires CanonicalKeys(env, t.rows)
    ensures
      ReviewOutcome(env, t, r).NotFound? && AfterReview(env, t, r) != t <==>
        && Judge(env, t.rows, r).Accepted?
        && (Resolve(env, r.candidateId) != Some(r.candidateId) || r.candidateId !in env.people)
  {
    if Judge(env, t.rows, r).Accepted? {
      var Accepted(key, reviewer, status) := Judge(env, t.rows, r);
      assert |Logged(t, r, key, reviewer, status).events| == |t.events| + 1;
    }
  }

  /** A parser to which `upper` is another spelling of `lower`. */
  function Spelling(upper: string, lower: string): string -> Option<string> {
    (s: string) => if s == upper then Some(lower) else Some(s)
  }

  /** Such a request exists: a pending candidate is confirmed by an id in upper case, and the answer is NotFound. */
  lemma HiddenReview(upper: string, lower: string)
    requires upper != lower && upper != "s" && upper != "u"
    ensures
      var env := Environment(Postgres, Spelling(upper, lower), {lower}, false);
      var t := Tables(map[("s", lower) := CandidateRow("row", Current(PENDING, None, None))], []);
      var r := Request("s", upper, "confirmed", "u", "U", None, None, "q");
      CanonicalKeys(env, t.rows) && ReviewOutcome(env, t, r).NotFound? && AfterReview(env, t, r) != t
  {
    var env := Environment(Postgres, Spelling(upper, lower), {lower}, false);
    var t := Tables(map[("s", lower) := CandidateRow("row", Current(PENDING, None, None))], []);
    var r := Request("s", upper, "confirmed", "u", "U", None, None, "q");
    assert CanonicalKeys(env, t.rows);
    NotFoundLeavesATraceIff(env, t, r);
    assert Judge(env, t.rows, r).Accepted?;
  }
}
