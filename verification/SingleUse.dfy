/**
 Single-use links: registration approvals and password resets share one table. The class runs whole
 requests; the runs below interleave their statements.
 */
module SingleUse {
  import opened Options
  import opened Sessions

  const RESET_PURPOSE: string := "password_reset"

  datatype TokenRow = TokenRow(
    id: string,
    userId: string,
    tokenHash: string,
    purpose: string,
    expiresAt: int,
    consumedAt: Option<int>,
    result: Option<string>)

  type TokenRows = map<string, TokenRow>

  /** Who presents a token: an approval link names its user, a reset names nobody and is told by its purpose. */
  datatype Presenter = ApprovalLink(userId: string) | ResetForm

  /** The checks made on the row that was read, before anything is written. */
  predicate Usable(row: TokenRow, presenter: Presenter, now: int) {
    && (match presenter
        case ApprovalLink(userId) => row.userId == userId
        case ResetForm => row.purpose == RESET_PURPOSE)
    && row.consumedAt.None?
    && row.expiresAt >= now
  }

  predicate Unconsumed(rows: TokenRows, id: string) {
    id in rows && rows[id].consumedAt.None?
  }

  /** UPDATE approval_tokens SET consumed_at, result WHERE id = ... AND consumed_at IS NULL */
  function Consumed(rows: TokenRows, id: string, result: string, now: int): TokenRows {
    if Unconsumed(rows, id) then rows[id := rows[id].(consumedAt := Some(now), result := Some(result))] else rows
  }

  function PurgeTokens(rows: TokenRows, now: int): TokenRows {
    map id | id in rows && rows[id].expiresAt >= now :: rows[id]
  }

  ghost predicate IsFound(rows: TokenRows, tokenHash: string, found: Option<string>) {
    match found
    case Some(id) => id in rows && rows[id].tokenHash == tokenHash
    case None => forall id :: id in rows ==> rows[id].tokenHash != tokenHash
  }

  class AccountStore {
    var tokens: TokenRows
    var passwords: map<string, string>
    var sessions: Rows

    constructor ()
      ensures tokens == map[] && passwords == map[] && sessions == map[]
    {
      tokens, passwords, sessions := map[], map[], map[];
    }

    method FindByHash(tokenHash: string) returns (found: Option<string>)
      ensures IsFound(tokens, tokenHash, found)
    {
      var rest := tokens.Keys;
      while rest != {}
        invariant rest <= tokens.Keys
        invariant forall id :: id in tokens.Keys - rest ==> tokens[id].tokenHash != tokenHash
        decreases |rest|
      {
        var id :| id in rest;
        if tokens[id].tokenHash == tokenHash {
          return Some(id);
        }
        rest := rest - {id};
      }
      found := None;
    }

    /** Consumes an approval link for the user it names; None when it is unknown, foreign, expired or used. */
    method ConsumeApprovalToken(
      tokenHash: string, userId: string, result: string, now: int)
      returns (user: Option<string>, ghost id: Option<string>)
      modifies this`tokens
      ensures IsFound(old(tokens), tokenHash, id)
      ensures
        var usable := id.Some? &&
          var row := old(tokens)[id.value];
          row.userId == userId && row.consumedAt.None? && row.expiresAt >= now;
        && user == (if usable then Some(userId) else None)
        && (usable ==> tokens == old(tokens)[id.value :=
              old(tokens)[id.value].(consumedAt := Some(now), result := Some(result))])
        && (!usable ==> tokens == old(tokens))
    {
      user := None;
      var found := FindByHash(tokenHash);
      id := found;
      if found.Some? && Usable(tokens[found.value], ApprovalLink(userId), now) {
        tokens := Consumed(tokens, found.value, result, now);
        user := Some(userId);
      }
    }

    /** Shows a pending request without consuming its link. */
    method PeekApprovalToken(
      tokenHash: string, userId: string, now: int) returns (user: Option<string>, ghost id: Option<string>)
      ensures IsFound(tokens, tokenHash, id)
      ensures
        var usable := id.Some? &&
          var row := tokens[id.value];
          row.userId == userId && row.consumedAt.None? && row.expiresAt >= now;
        user == if usable then Some(userId) else None
    {
      user := None;
      var found := FindByHash(tokenHash);
      id := found;
      if found.Some? && Usable(tokens[found.value], ApprovalLink(userId), now) {
        user := Some(userId);
      }
    }

    /** Consumes the token first, then sets the password, then revokes every session of the account. */
    method ResetPassword(tokenHash: string, password: string, now: int) returns (done: bool, ghost id: Option<string>)
      modifies this
      ensures IsFound(old(tokens), tokenHash, id)
      ensures
        var usable := id.Some? &&
          var row := old(tokens)[id.value];
          row.purpose == "password_reset" && row.consumedAt.None? && row.expiresAt >= now;
        && (done <==> usable && old(tokens)[id.value].userId in old(passwords))
        && (usable ==> tokens == old(tokens)[id.value :=
              old(tokens)[id.value].(consumedAt := Some(now), result := Some("reset"))])
        && (!usable ==> tokens == old(tokens))
      ensures done ==>
        var user := old(tokens)[id.value].userId;
        && passwords == old(passwords)[user := password]
        && sessions.Keys == old(sessions).Keys
        && forall f :: f in sessions ==>
             var s := old(sessions)[f];
             sessions[f] == if s.userId == user then s.(revokedAt := Some(s.revokedAt.GetOr(now))) else s
      ensures !done ==> passwords == old(passwords) && sessions == old(sessions)
    {
      done := false;
      var found := FindByHash(tokenHash);
      id := found;
      if found.Some? && Usable(tokens[found.value], ResetForm, now) {
        var user := tokens[found.value].userId;
        tokens := Consumed(tokens, found.value, "reset", now);
        if user in passwords {
          passwords := passwords[user := password];
          RevokeEffect(sessions, ByUser(user), now);
          sessions := RevokeWhere(sessions, ByUser(user), now);
          done := true;
        }
      }
    }

    /** Removes what has expired, sessions and single-use tokens alike, and nothing else. */
    method PurgeExpiredRecords(now: int)
      modifies this`tokens, this`sessions
      ensures forall id :: id in tokens <==> id in old(tokens) && old(tokens)[id].expiresAt >= now
      ensures forall id :: id in tokens ==> tokens[id] == old(tokens)[id]
      ensures forall f :: f in sessions <==> f in old(sessions) && old(sessions)[f].expiresAt >= now
      ensures forall f :: f in sessions ==> sessions[f] == old(sessions)[f]
    {
      sessions := Purge(sessions, now);
      tokens := PurgeTokens(tokens, now);
    }
  }
}

/** Any interleaving of requests that present single-use tokens. */
module SingleUseRuns {
  import opened Options
  import opened SingleUse

  type Worker = nat

  datatype Stage = Idle | Passed(id: string)

  /** A request that consumed a token, and the result it recorded. */
  datatype Grant = Grant(id: string, result: string)

  datatype State = State(rows: TokenRows, ids: set<string>, stages: map<Worker, Stage>, grants: seq<Grant>) {
    function StageOf(w: Worker): Stage {
      if w in stages then stages[w] else Idle
    }
  }

  datatype Action =
    | Create(id: string, userId: string, tokenHash: string, purpose: string, expiresAt: int)
    | Present(w: Worker, tokenHash: string, id: string, presenter: Presenter, now: int)
    | Consume(w: Worker, result: string, now: int)
    | Purge(now: int)

  /** One statement: creating a row, reading and checking it, the guarded update, or the purge. */
  function Step(s: State, action: Action): State {
    match action
    case Create(id, userId, tokenHash, purpose, expiresAt) =>
      if id in s.ids then s
      else s.(rows := s.rows[id := TokenRow(id, userId, tokenHash, purpose, expiresAt, None, None)],
        ids := s.ids + {id})
    case Present(w, tokenHash, id, presenter, now) =>
      if s.StageOf(w) == Idle && id in s.rows && s.rows[id].tokenHash == tokenHash
        && Usable(s.rows[id], presenter, now) then
        s.(stages := s.stages[w := Passed(id)])
      else s
    case Consume(w, result, now) =>
      (match s.StageOf(w)
       case Idle => s
       case Passed(id) =>
         s.(rows := Consumed(s.rows, id, result, now),
            stages := s.stages[w := Idle],
            grants := if Unconsumed(s.rows, id) then s.grants + [Grant(id, result)] else s.grants))
    case Purge(now) => s.(rows := PurgeTokens(s.rows, now))
  }

  /** A request passes the checks exactly on a found, unconsumed, unexpired token meant for its presenter. */
  lemma PassesIff(s: State, w: Worker, tokenHash: string, id: string, presenter: Presenter, now: int)
    requires s.StageOf(w) == Idle
    ensures
      Step(s, Present(w, tokenHash, id, presenter, now)).StageOf(w) == Passed(id) <==>
        && id in s.rows && s.rows[id].tokenHash == tokenHash
        && s.rows[id].consumedAt.None? && s.rows[id].expiresAt >= now
        && (presenter.ApprovalLink? ==> s.rows[id].userId == presenter.userId)
        && (presenter.ResetForm? ==> s.rows[id].purpose == "password_reset")
  {
  }

  function Run(s: State, actions: seq<Action>): State
    decreases actions
  {
    if actions == [] then s else Run(Step(s, actions[0]), actions[1..])
  }

  const Empty: State := State(map[], {}, map[], [])

  /** While a row exists it is consumed exactly when some request was granted it, with that request's result. */
  ghost predicate RowSound(s: State, id: string)
    requires id in s.rows
  {
    && id in s.ids
    && (s.rows[id].consumedAt.Some? <==> s.rows[id].result.Some?)
    && (forall result :: Grant(id, result) in s.grants <==>
      s.rows[id].consumedAt.Some? && s.rows[id].result == Some(result))
  }

  /** No token is granted twice. */
  ghost predicate GrantedOnce(grants: seq<Grant>) {
    forall i, j :: 0 <= i < j < |grants| ==> grants[i].id != grants[j].id
  }

  ghost predicate Sound(s: State) {
    && (forall id :: id in s.rows ==> RowSound(s, id))
    && GrantedOnce(s.grants)
    && (forall g :: g in s.grants ==> g.id in s.ids)
  }

  lemma ConsumeKeepsSound(s: State, w: Worker, result: string, now: int)
    requires Sound(s)
    ensures Sound(Step(s, Consume(w, result, now)))
  {
    var after := Step(s, Consume(w, result, now));
    if s.StageOf(w).Passed? && Unconsumed(s.rows, s.StageOf(w).id) {
      var id := s.StageOf(w).id;
      assert RowSound(s, id);
      forall i | 0 <= i < |s.grants| ensures s.grants[i].id != id {
        assert s.grants[i] == Grant(s.grants[i].id, s.grants[i].result);
        assert s.grants[i] in s.grants;
      }
      forall k | k in after.rows ensures RowSound(after, k) {
        assert RowSound(s, k);
      }
    }
  }

  lemma StepKeepsSound(s: State, action: Action)
    requires Sound(s)
    ensures Sound(Step(s, action))
  {
    if action.Consume? {
      ConsumeKeepsSound(s, action.w, action.result, action.now);
    } else {
      var after := Step(s, action);
      forall id | id in after.rows ensures RowSound(after, id) {
        if id in s.rows {
          assert RowSound(s, id);
        }
      }
    }
  }

  lemma {:induction false} RunKeepsSound(s: State, actions: seq<Action>)
    requires Sound(s)
    ensures Sound(Run(s, actions))
    decreases actions
  {
    if actions != [] {
      StepKeepsSound(s, actions[0]);
      RunKeepsSound(Step(s, actions[0]), actions[1..]);
    }
  }

  /**
   In every interleaving each token is granted to one request at most, also after its row was
   purged, and a row that still exists records the result of the request that was granted it.
   */
  lemma EachTokenIsGrantedOnce(actions: seq<Action>)
    ensures
      var s := Run(Empty, actions);
      && GrantedOnce(s.grants)
      && forall id, result :: id in s.rows && s.rows[id].result == Some(result) ==> Grant(id, result) in s.grants
  {
    RunKeepsSound(Empty, actions);
    var s := Run(Empty, actions);
    forall id, result | id in s.rows && s.rows[id].result == Some(result) ensures Grant(id, result) in s.grants {
      assert RowSound(s, id);
    }
  }

  lemma {:induction false} GrantsStay(s: State, actions: seq<Action>)
    ensures s.grants <= Run(s, actions).grants
    decreases actions
  {
    if actions != [] {
      GrantsStay(Step(s, actions[0]), actions[1..]);
    }
  }

  /**
   Of all the requests that passed the checks on an unconsumed token, whichever writes first is granted
   it with its result, and whatever follows nobody else ever is.
   */
  lemma FirstWriterWins(s: State, v: Worker, id: string, result: string, now: int, rest: seq<Action>)
    requires Sound(s) && s.StageOf(v) == Passed(id) && Unconsumed(s.rows, id)
    ensures
      var end := Run(Step(s, Consume(v, result, now)), rest);
      && (forall r :: Grant(id, r) in end.grants <==> r == result)
      && (id in end.rows ==> end.rows[id].result == Some(result))
  {
    var next := Step(s, Consume(v, result, now));
    var end := Run(next, rest);
    StepKeepsSound(s, Consume(v, result, now));
    RunKeepsSound(next, rest);
    GrantsStay(next, rest);
    assert next.grants[|next.grants| - 1] == Grant(id, result);
    assert Grant(id, result) in end.grants;
    forall r | Grant(id, r) in end.grants ensures r == result {
      var i :| 0 <= i < |end.grants| && end.grants[i] == Grant(id, r);
      var j :| 0 <= j < |end.grants| && end.grants[j] == Grant(id, result);
      assert i == j;
    }
    if id in end.rows {
      assert RowSound(end, id);
    }
  }
}
