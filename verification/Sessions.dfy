/**
 Refresh-token sessions: one row per token family, rotated in place. The statements are those of
 the session table; the class runs the requests that use them one after another.
 */
module Sessions {
  import opened Options

  /** A signed refresh token. Its serial makes every signature unique; its hash is what is stored. */
  datatype Token = Token(family: string, subject: string, serial: string)

  ghost predicate Injective(hash: Token -> string) {
    forall s, t :: hash(s) == hash(t) ==> s == t
  }

  datatype Session = Session(
    id: string,
    userId: string,
    family: string,
    tokenHash: string,
    expiresAt: int,
    revokedAt: Option<int>,
    rotations: nat)

  /** The session table by token family; families and ids are generated afresh, so neither repeats. */
  type Rows = map<string, Session>

  // ----- statements -----

  datatype Selector =
    | ById(id: string)
    | ByFamily(family: string)
    | ByUser(userId: string)
    | ByIdAndUser(id: string, userId: string)

  predicate Selects(sel: Selector, s: Session) {
    match sel
    case ById(id) => s.id == id
    case ByFamily(family) => s.family == family
    case ByUser(userId) => s.userId == userId
    case ByIdAndUser(id, userId) => s.id == id && s.userId == userId
  }

  /** UPDATE sessions SET revoked_at = now WHERE ... AND revoked_at IS NULL */
  function RevokeWhere(rows: Rows, sel: Selector, now: int): Rows {
    map f | f in rows ::
      if Selects(sel, rows[f]) && rows[f].revokedAt.None? then rows[f].(revokedAt := Some(now)) else rows[f]
  }

  /** UPDATE sessions SET token hash, expiry, counter + 1 WHERE id = ... AND revoked_at IS NULL */
  function Rotate(rows: Rows, id: string, tokenHash: string, expiresAt: int): Rows {
    map f | f in rows ::
      if rows[f].id == id && rows[f].revokedAt.None? then
        rows[f].(tokenHash := tokenHash, expiresAt := expiresAt, rotations := rows[f].rotations + 1)
      else rows[f]
  }

  /** DELETE FROM sessions WHERE expires_at < now */
  function Purge(rows: Rows, now: int): Rows {
    map f | f in rows && rows[f].expiresAt >= now :: rows[f]
  }

  // ----- requests -----

  datatype Verdict = Reuse | Expired | Current

  /** What a refresh concludes from the row it looked up. */
  function Judge(hash: Token -> string, token: Token, row: Session, now: int): Verdict {
    if row.revokedAt.Some? || row.tokenHash != hash(token) then Reuse
    else if row.expiresAt < now then Expired
    else Current
  }

  datatype UserState = Unreadable | Barred | Active

  /** Session ids are the table's primary key. */
  ghost predicate UniqueSessionIds(rows: Rows) {
    forall f, g :: f in rows && g in rows && rows[f].id == rows[g].id ==> f == g
  }

  /** A refresh succeeds exactly for the current token of a live session of an active user. */
  predicate Renews(hash: Token -> string, rows: Rows, token: Token, now: int, user: UserState) {
    token.family in rows && Judge(hash, token, rows[token.family], now) == Current && user == Active
  }

  /** The table after a refresh that runs alone. */
  function Refreshed(
    hash: Token -> string, rows: Rows, token: Token, now: int, user: UserState, renewed: Token, expiresAt: int): Rows {
    if token.family !in rows then rows
    else
      var row := rows[token.family];
      match Judge(hash, token, row, now)
      case Reuse => RevokeWhere(rows, ByFamily(token.family), now)
      case Expired => RevokeWhere(rows, ById(row.id), now)
      case Current =>
        match user
        case Unreadable => rows
        case Barred => RevokeWhere(rows, ById(row.id), now)
        case Active => Rotate(rows, row.id, hash(renewed), expiresAt)
  }

  lemma RevokeEffect(rows: Rows, sel: Selector, now: int)
    ensures
      var after := RevokeWhere(rows, sel, now);
      && after.Keys == rows.Keys
      && (forall f :: f in rows ==>
            after[f] ==
              if Selects(sel, rows[f]) then rows[f].(revokedAt := Some(rows[f].revokedAt.GetOr(now))) else rows[f])
      && (forall f :: f in rows ==> (Selects(sel, after[f]) <==> Selects(sel, rows[f])))
      && (after != rows <==> exists f :: f in rows && Selects(sel, rows[f]) && rows[f].revokedAt.None?)
  {
    var after := RevokeWhere(rows, sel, now);
    if f :| f in rows && Selects(sel, rows[f]) && rows[f].revokedAt.None? {
      assert after[f] != rows[f];
    } else {
      assert after == rows;
    }
  }

  /** Rows stand under their family, and ids are the table's primary key. */
  ghost predicate KeptInOrder(rows: Rows) {
    UniqueSessionIds(rows) && forall f :: f in rows ==> rows[f].family == f
  }

  lemma RefreshEffect(
    hash: Token -> string, rows: Rows, token: Token, now: int, user: UserState, renewed: Token, expiresAt: int)
    ensures
      var after := Refreshed(hash, rows, token, now, user, renewed, expiresAt);
      var answered := Renews(hash, rows, token, now, user);
      && after.Keys == rows.Keys
      && (KeptInOrder(rows) ==> forall g :: g in rows && g != token.family ==> after[g] == rows[g])
      && (KeptInOrder(rows) && token.family in rows ==>
            var before := rows[token.family];
            var current := before.revokedAt.None? && before.tokenHash == hash(token) && before.expiresAt >= now;
            && (answered <==> current && user == Active)
            && (answered ==>
                  after[token.family] ==
                    before.(tokenHash := hash(renewed), expiresAt := expiresAt, rotations := before.rotations + 1))
            && (!answered && current && user == Unreadable ==> after[token.family] == before)
            && (!answered && !(current && user == Unreadable) ==>
                  after[token.family] == before.(revokedAt := Some(before.revokedAt.GetOr(now)))))
  {
  }

  lemma RevokedNeverRenews(hash: Token -> string, rows: Rows)
    ensures forall t: Token, now: int, user: UserState ::
      t.family in rows && rows[t.family].revokedAt.Some? ==> !Renews(hash, rows, t, now, user)
  {
  }

  class SessionStore {
    const hash: Token -> string
    var rows: Rows

    constructor (hash: Token -> string)
      ensures this.hash == hash && rows == map[]
    {
      this.hash := hash;
      rows := map[];
    }

    /** From now until it expires the issued token, and no other token of its family, renews the session. */
    method IssueSession(id: string, userId: string, token: Token, expiresAt: int)
      requires token.family !in rows
      modifies this
      ensures rows.Keys == old(rows).Keys + {token.family}
      ensures forall f :: f in old(rows) ==> rows[f] == old(rows)[f]
      ensures rows[token.family].id == id && rows[token.family].userId == userId
        && rows[token.family].family == token.family
      ensures rows[token.family].expiresAt == expiresAt && rows[token.family].rotations == 0
      ensures forall t: Token, now: int, user: UserState :: t.family == token.family ==>
        (Renews(hash, rows, t, now, user) <==> hash(t) == hash(token) && now <= expiresAt && user == Active)
    {
      rows := rows[token.family := Session(id, userId, token.family, hash(token), expiresAt, None, 0)];
    }

    /**
     A whole refresh without anything in between; `renewed` is the token signed for the answer. It
     succeeds exactly for the current token of a live, unexpired session of an active user. The session
     then lasts until the new expiry and only the new token renews it. A refused refresh revokes the
     session, unless its token was right and the user could not be read. No other session changes.
     */
    method Refresh(
      token: Token, now: int, user: UserState, renewed: Token, expiresAt: int) returns (answer: Option<Token>)
      modifies this
      ensures rows == Refreshed(hash, old(rows), token, now, user, renewed, expiresAt)
      ensures answer == if Renews(hash, old(rows), token, now, user) then Some(renewed) else None
      ensures rows.Keys == old(rows).Keys
      ensures KeptInOrder(old(rows)) ==> forall g :: g in rows && g != token.family ==> rows[g] == old(rows)[g]
      ensures KeptInOrder(old(rows)) && token.family in old(rows) ==>
        var (before, after) := (old(rows)[token.family], rows[token.family]);
        var current := before.revokedAt.None? && before.tokenHash == hash(token) && before.expiresAt >= now;
        && (answer.Some? <==> current && user == Active)
        && (answer.Some? ==>
              after == before.(tokenHash := hash(renewed), expiresAt := expiresAt, rotations := before.rotations + 1))
        && (answer.None? && current && user == Unreadable ==> after == before)
        && (answer.None? && !(current && user == Unreadable) ==>
              after == before.(revokedAt := Some(before.revokedAt.GetOr(now))))
        && (answer.Some? ==> forall t: Token, later: int :: t.family == token.family ==>
              (Renews(hash, rows, t, later, Active) <==> hash(t) == hash(renewed) && later <= expiresAt))
    {
      RefreshEffect(hash, rows, token, now, user, renewed, expiresAt);
      hide RevokeWhere, Rotate, KeptInOrder;
      if token.family !in rows {
        return None;
      }
      var row := rows[token.family];
      if row.revokedAt.Some? || row.tokenHash != hash(token) {
        rows := RevokeWhere(rows, ByFamily(token.family), now);
        return None;
      }
      if row.expiresAt < now {
        rows := RevokeWhere(rows, ById(row.id), now);
        return None;
      }
      if user == Unreadable {
        return None;
      }
      if user == Barred {
        rows := RevokeWhere(rows, ById(row.id), now);
        return None;
      }
      rows := Rotate(rows, row.id, hash(renewed), expiresAt);
      answer := Some(renewed);
    }

    /** After a logout no token of the shown token's family renews; nothing else changes while ids are unique. */
    method Logout(token: Token, now: int)
      modifies this
      ensures rows.Keys == old(rows).Keys
      ensures forall t: Token, later: int, user: UserState :: t.family == token.family ==>
        !Renews(hash, rows, t, later, user)
      ensures UniqueSessionIds(old(rows)) ==> forall f :: f in rows && f != token.family ==> rows[f] == old(rows)[f]
      ensures token.family in rows ==>
        rows[token.family] == old(rows)[token.family].(revokedAt := Some(old(rows)[token.family].revokedAt.GetOr(now)))
    {
      if token.family in rows {
        rows := RevokeWhere(rows, ById(rows[token.family].id), now);
      }
    }

    /**
     Revokes what the selector picks and says whether anything was live: no token of a picked
     session renews afterwards, earlier revocations keep their instant, all other rows stay.
     */
    method RevokeSessions(sel: Selector, now: int) returns (any: bool)
      modifies this
      ensures rows.Keys == old(rows).Keys
      ensures forall f :: f in rows && !Selects(sel, old(rows)[f]) ==> rows[f] == old(rows)[f]
      ensures forall f :: f in rows && Selects(sel, old(rows)[f]) ==>
        rows[f] == old(rows)[f].(revokedAt := Some(old(rows)[f].revokedAt.GetOr(now)))
      ensures forall t: Token, later: int, user: UserState :: t.family in rows && Selects(sel, rows[t.family]) ==>
        !Renews(hash, rows, t, later, user)
      ensures any <==> rows != old(rows)
    {
      hide RevokeWhere, Selects, Renews;
      any := exists f :: f in rows && Selects(sel, rows[f]) && rows[f].revokedAt.None?;
      RevokeEffect(rows, sel, now);
      RevokedNeverRenews(hash, RevokeWhere(rows, sel, now));
      rows := RevokeWhere(rows, sel, now);
    }

    /** Signs one of the user's own sessions out; another user's session is not touched. */
    method RevokeOwnSession(id: string, userId: string, now: int) returns (revoked: bool)
      modifies this
      ensures rows.Keys == old(rows).Keys
      ensures forall f :: f in rows ==>
        var s := old(rows)[f];
        rows[f] == if s.id == id && s.userId == userId then s.(revokedAt := Some(s.revokedAt.GetOr(now))) else s
      ensures revoked <==> rows != old(rows)
    {
      revoked := RevokeSessions(ByIdAndUser(id, userId), now);
    }

    method PurgeExpired(now: int)
      modifies this
      ensures forall f :: f in rows <==> f in old(rows) && old(rows)[f].expiresAt >= now
      ensures forall f :: f in rows ==> rows[f] == old(rows)[f]
    {
      rows := Purge(rows, now);
    }
  }
}

/**
 Interleaved requests on the session table. Each SQL statement is one step; a refresh looks up its
 row, then revokes or reads the user, then revokes or rotates.
 */
module SessionRuns {
  import opened Options
  import opened Sessions

  type Worker = nat

  datatype Stage =
    | Idle
    | Looked(token: Token, row: Session)
    | Blocked(token: Token, row: Session)
    | Cleared(token: Token, row: Session)

  /**
   The table, the tokens signed so far, the requests in flight, and for every family ever created
   the tokens that were stored in its row, oldest first.
   */
  datatype Db = Db(
    rows: Rows,
    issued: set<Token>,
    ids: set<string>,
    lineage: map<string, seq<Token>>,
    stages: map<Worker, Stage>)
  {
    function StageOf(w: Worker): Stage {
      if w in stages then stages[w] else Idle
    }

    function To(w: Worker, stage: Stage): Db {
      this.(stages := stages[w := stage])
    }
  }

  datatype Action =
    | Login(id: string, userId: string, token: Token, expiresAt: int)
    | Lookup(w: Worker, token: Token)
    | Act(w: Worker, now: int, user: UserState)
    | Finish(w: Worker, now: int, renewed: Token, expiresAt: int)
    | Revoke(sel: Selector, now: int)
    | PurgeExpired(now: int)

  /** One statement; a step out of turn, with an unsigned token or with a value that is not new, does nothing. */
  function Step(hash: Token -> string, db: Db, action: Action): Db {
    match action
    case Login(id, userId, token, expiresAt) =>
      if token in db.issued || token.family in db.lineage || id in db.ids then db
      else
        db.(rows := db.rows[token.family := Session(id, userId, token.family, hash(token), expiresAt, None, 0)],
            issued := db.issued + {token},
            ids := db.ids + {id},
            lineage := db.lineage[token.family := [token]])
    case Lookup(w, token) =>
      if db.StageOf(w) != Idle || token !in db.issued || token.family !in db.rows then db
      else db.To(w, Looked(token, db.rows[token.family]))
    case Act(w, now, user) =>
      (match db.StageOf(w)
       case Looked(token, row) =>
         (match Judge(hash, token, row, now)
          case Reuse => db.To(w, Idle).(rows := RevokeWhere(db.rows, ByFamily(token.family), now))
          case Expired => db.To(w, Idle).(rows := RevokeWhere(db.rows, ById(row.id), now))
          case Current =>
            match user
            case Unreadable => db.To(w, Idle)
            case Barred => db.To(w, Blocked(token, row))
            case Active => db.To(w, Cleared(token, row)))
       case _ => db)
    case Finish(w, now, renewed, expiresAt) =>
      (match db.StageOf(w)
       case Blocked(token, row) => db.To(w, Idle).(rows := RevokeWhere(db.rows, ById(row.id), now))
       case Cleared(token, row) =>
         if Signable(db, token, renewed) then Rotated(hash, db, w, token, row, renewed, expiresAt) else db
       case _ => db)
    case Revoke(sel, now) => db.(rows := RevokeWhere(db.rows, sel, now))
    case PurgeExpired(now) => db.(rows := Purge(db.rows, now))
  }

  predicate Signable(db: Db, token: Token, renewed: Token) {
    renewed !in db.issued && renewed.family == token.family
  }

  /** The rotating statement, which may find its row revoked or gone and then changes no row. */
  function Rotated(
    hash: Token -> string, db: Db, w: Worker, token: Token, row: Session, renewed: Token, expiresAt: int): Db {
    var f := token.family;
    var stored := f in db.rows && db.rows[f].revokedAt.None? && f in db.lineage;
    db.To(w, Idle).(
      rows := Rotate(db.rows, row.id, hash(renewed), expiresAt),
      issued := db.issued + {renewed},
      lineage := if stored then db.lineage[f := db.lineage[f] + [renewed]] else db.lineage)
  }

  /** The token a step answers with: a refresh that reaches its last statement succeeds whatever that finds. */
  function Answer(db: Db, action: Action): Option<Token> {
    if action.Finish? && db.StageOf(action.w).Cleared?
      && Signable(db, db.StageOf(action.w).token, action.renewed) then Some(action.renewed)
    else None
  }

  function Run(hash: Token -> string, db: Db, actions: seq<Action>): Db
    decreases actions
  {
    if actions == [] then db else Run(hash, Step(hash, db, actions[0]), actions[1..])
  }

  const Empty: Db := Db(map[], {}, {}, map[], map[])

  // ----- what every state keeps -----

  /** The row stores the hash of the newest token of its family and counts the rotations. */
  ghost predicate RowAgrees(hash: Token -> string, db: Db, f: string)
    requires f in db.rows
  {
    var s := db.rows[f];
    && s.family == f
    && s.id in db.ids
    && f in db.lineage
    && |db.lineage[f]| == s.rotations + 1
    && s.tokenHash == hash(db.lineage[f][s.rotations])
  }

  /** A family's stored tokens are distinct signed tokens of that family. */
  ghost predicate LineageAgrees(db: Db, f: string)
    requires f in db.lineage
  {
    var tokens := db.lineage[f];
    && tokens != []
    && (forall t :: t in tokens ==> t in db.issued && t.family == f)
    && (forall i, j :: 0 <= i < j < |tokens| ==> tokens[i] != tokens[j])
  }

  ghost predicate IdsAgree(db: Db, id: string, f: string) {
    && id in db.ids
    && (f in db.rows ==> db.rows[f].id == id)
    && (forall g :: g in db.rows && db.rows[g].id == id ==> g == f)
  }

  ghost predicate StageAgrees(db: Db, w: Worker) {
    var stage := db.StageOf(w);
    stage != Idle ==>
      && stage.token in db.issued
      && stage.token.family in db.lineage
      && IdsAgree(db, stage.row.id, stage.token.family)
  }

  ghost predicate Consistent(hash: Token -> string, db: Db) {
    && (forall f :: f in db.rows ==> RowAgrees(hash, db, f) && IdsAgree(db, db.rows[f].id, f))
    && (forall f :: f in db.lineage ==> LineageAgrees(db, f))
    && (forall t :: t in db.issued ==> t.family in db.lineage)
    && (forall w: Worker :: StageAgrees(db, w))
  }

  lemma RevokeKeepsConsistent(hash: Token -> string, db: Db, sel: Selector, now: int)
    requires Consistent(hash, db)
    ensures Consistent(hash, db.(rows := RevokeWhere(db.rows, sel, now)))
  {
    var after := db.(rows := RevokeWhere(db.rows, sel, now));
    forall f | f in after.rows ensures RowAgrees(hash, after, f) && IdsAgree(after, after.rows[f].id, f) {
      assert RowAgrees(hash, db, f) && IdsAgree(db, db.rows[f].id, f);
    }
    forall f | f in after.lineage ensures LineageAgrees(after, f) {
      assert LineageAgrees(db, f);
    }
    forall w: Worker ensures StageAgrees(after, w) {
      assert StageAgrees(db, w);
    }
  }

  lemma PurgeKeepsConsistent(hash: Token -> string, db: Db, now: int)
    requires Consistent(hash, db)
    ensures Consistent(hash, db.(rows := Purge(db.rows, now)))
  {
    var after := db.(rows := Purge(db.rows, now));
    forall f | f in after.rows ensures RowAgrees(hash, after, f) && IdsAgree(after, after.rows[f].id, f) {
      assert RowAgrees(hash, db, f) && IdsAgree(db, db.rows[f].id, f);
    }
    forall f | f in after.lineage ensures LineageAgrees(after, f) {
      assert LineageAgrees(db, f);
    }
    forall w: Worker ensures StageAgrees(after, w) {
      assert StageAgrees(db, w);
    }
  }

  lemma StageChangeKeepsConsistent(hash: Token -> string, db: Db, w: Worker, stage: Stage)
    requires Consistent(hash, db) && StageAgrees(db.To(w, stage), w)
    ensures Consistent(hash, db.To(w, stage))
  {
    var after := db.To(w, stage);
    forall f | f in after.rows ensures RowAgrees(hash, after, f) && IdsAgree(after, after.rows[f].id, f) {
      assert RowAgrees(hash, db, f) && IdsAgree(db, db.rows[f].id, f);
    }
    forall f | f in after.lineage ensures LineageAgrees(after, f) {
      assert LineageAgrees(db, f);
    }
    forall v: Worker ensures StageAgrees(after, v) {
      assert StageAgrees(db, v);
    }
  }

  lemma LoginKeepsConsistent(hash: Token -> string, db: Db, action: Action)
    requires Consistent(hash, db) && action.Login?
    ensures Consistent(hash, Step(hash, db, action))
  {
    var after := Step(hash, db, action);
    if after != db {
      forall f | f in after.rows ensures RowAgrees(hash, after, f) && IdsAgree(after, after.rows[f].id, f) {
        if f in db.rows {
          assert RowAgrees(hash, db, f) && IdsAgree(db, db.rows[f].id, f);
        }
        assert forall g :: g in db.rows ==> RowAgrees(hash, db, g);
      }
      forall f | f in after.lineage ensures LineageAgrees(after, f) {
        assert f in db.lineage ==> LineageAgrees(db, f);
      }
      forall w: Worker ensures StageAgrees(after, w) {
        assert StageAgrees(db, w);
        assert after.StageOf(w) == db.StageOf(w);
      }
    }
  }

  lemma RotationKeepsConsistent(
    hash: Token -> string, db: Db, w: Worker, token: Token, row: Session, renewed: Token, expiresAt: int)
    requires Consistent(hash, db) && db.StageOf(w) == Cleared(token, row) && Signable(db, token, renewed)
    ensures Consistent(hash, Rotated(hash, db, w, token, row, renewed, expiresAt))
  {
    var after := Rotated(hash, db, w, token, row, renewed, expiresAt);
    forall f | f in after.rows ensures RowAgrees(hash, after, f) && IdsAgree(after, after.rows[f].id, f) {
      RotatedRowAgrees(hash, db, w, token, row, renewed, expiresAt, f);
    }
    hide RowAgrees;
    assert StageAgrees(db, w);
    forall f | f in after.lineage ensures LineageAgrees(after, f) {
      assert LineageAgrees(db, f);
    }
    hide LineageAgrees;
    forall v: Worker ensures StageAgrees(after, v) {
      RotationKeepsStage(hash, db, w, token, row, renewed, expiresAt, v);
    }
  }

  lemma RotationKeepsStage(
    hash: Token -> string, db: Db, w: Worker, token: Token, row: Session, renewed: Token, expiresAt: int, v: Worker)
    requires StageAgrees(db, v)
    ensures StageAgrees(Rotated(hash, db, w, token, row, renewed, expiresAt), v)
  {
  }

  lemma RotatedRowAgrees(
    hash: Token -> string, db: Db, w: Worker, token: Token, row: Session, renewed: Token, expiresAt: int, f: string)
    requires Consistent(hash, db) && db.StageOf(w) == Cleared(token, row) && Signable(db, token, renewed)
      && f in db.rows
    ensures
      var after := Rotated(hash, db, w, token, row, renewed, expiresAt);
      f in after.rows && RowAgrees(hash, after, f) && IdsAgree(after, after.rows[f].id, f)
  {
    hide LineageAgrees;
    assert StageAgrees(db, w);
    assert RowAgrees(hash, db, f) && IdsAgree(db, db.rows[f].id, f);
  }

  lemma StepKeepsConsistent(hash: Token -> string, db: Db, action: Action)
    requires Consistent(hash, db)
    ensures Consistent(hash, Step(hash, db, action))
  {
    hide Consistent;
    match action {
      case Login(_, _, _, _) => LoginKeepsConsistent(hash, db, action);
      case Lookup(w, token) => LookupKeepsConsistent(hash, db, w, token);
      case Act(w, now, user) =>
        if db.StageOf(w).Looked? {
          var Looked(token, row) := db.StageOf(w);
          StagesFollow(hash, db, w);
          RevokeKeepsConsistent(hash, db.To(w, Idle), ByFamily(token.family), now);
          RevokeKeepsConsistent(hash, db.To(w, Idle), ById(row.id), now);
        }
      case Finish(w, now, renewed, expiresAt) =>
        match db.StageOf(w) {
          case Blocked(token, row) =>
            StagesFollow(hash, db, w);
            RevokeKeepsConsistent(hash, db.To(w, Idle), ById(row.id), now);
          case Cleared(token, row) =>
            if Signable(db, token, renewed) {
              RotationKeepsConsistent(hash, db, w, token, row, renewed, expiresAt);
            }
          case _ =>
        }
      case Revoke(sel, now) => RevokeKeepsConsistent(hash, db, sel, now);
      case PurgeExpired(now) => PurgeKeepsConsistent(hash, db, now);
    }
  }

  lemma LookupKeepsConsistent(hash: Token -> string, db: Db, w: Worker, token: Token)
    requires Consistent(hash, db)
    ensures Consistent(hash, Step(hash, db, Lookup(w, token)))
  {
    if db.StageOf(w) == Idle && token in db.issued && token.family in db.rows {
      assert RowAgrees(hash, db, token.family) && IdsAgree(db, db.rows[token.family].id, token.family);
      StageChangeKeepsConsistent(hash, db, w, Looked(token, db.rows[token.family]));
    }
  }

  /** A request in flight may end, or move on with the row it looked up. */
  lemma StagesFollow(hash: Token -> string, db: Db, w: Worker)
    requires Consistent(hash, db) && db.StageOf(w) != Idle
    ensures Consistent(hash, db.To(w, Idle))
    ensures Consistent(hash, db.To(w, Blocked(db.StageOf(w).token, db.StageOf(w).row)))
    ensures Consistent(hash, db.To(w, Cleared(db.StageOf(w).token, db.StageOf(w).row)))
  {
    assert StageAgrees(db, w);
    StageChangeKeepsConsistent(hash, db, w, Idle);
    StageChangeKeepsConsistent(hash, db, w, Blocked(db.StageOf(w).token, db.StageOf(w).row));
    StageChangeKeepsConsistent(hash, db, w, Cleared(db.StageOf(w).token, db.StageOf(w).row));
  }

  lemma {:induction false} RunKeepsConsistent(hash: Token -> string, db: Db, actions: seq<Action>)
    requires Consistent(hash, db)
    ensures Consistent(hash, Run(hash, db, actions))
    decreases actions
  {
    if actions != [] {
      StepKeepsConsistent(hash, db, actions[0]);
      RunKeepsConsistent(hash, Step(hash, db, actions[0]), actions[1..]);
    }
  }

  // ----- acceptable tokens -----

  /** A refresh with this token would pass the revocation and hash checks. */
  ghost predicate Acceptable(hash: Token -> string, db: Db, t: Token) {
    && t in db.issued
    && t.family in db.rows
    && db.rows[t.family].revokedAt.None?
    && db.rows[t.family].tokenHash == hash(t)
  }

  /** The only acceptable token of a family is the one stored last, as long as the session is not revoked. */
  lemma OnlyNewestIsAcceptable(hash: Token -> string, db: Db, t: Token)
    requires Injective(hash) && Consistent(hash, db)
    ensures Acceptable(hash, db, t) <==>
            t.family in db.rows && db.rows[t.family].revokedAt.None?
              && t == db.lineage[t.family][db.rows[t.family].rotations]
  {
    if t.family in db.rows {
      assert RowAgrees(hash, db, t.family) && LineageAgrees(db, t.family);
      var newest := db.lineage[t.family][db.rows[t.family].rotations];
      assert newest in db.lineage[t.family];
    }
  }

  /**
   In every run at most one token of a family is acceptable: the one stored last, and only while
   the session is not revoked. The row's counter says how many tokens it replaced.
   */
  lemma AcceptableInEveryRun(hash: Token -> string, actions: seq<Action>, t: Token)
    requires Injective(hash)
    ensures
      var db := Run(hash, Empty, actions);
      var f := t.family;
      && (f in db.rows ==> f in db.lineage && |db.lineage[f]| == db.rows[f].rotations + 1)
      && (Acceptable(hash, db, t) <==>
        f in db.rows && db.rows[f].revokedAt.None? && t == db.lineage[f][db.rows[f].rotations])
  {
    hide Run, Acceptable;
    var db := Run(hash, Empty, actions);
    RunKeepsConsistent(hash, Empty, actions);
    OnlyNewestIsAcceptable(hash, db, t);
    assert t.family in db.rows ==> RowAgrees(hash, db, t.family);
  }

  /** A login with newly generated values creates a session whose token is acceptable until it expires. */
  lemma LoginIsAcceptable(hash: Token -> string, db: Db, id: string, userId: string, token: Token, expiresAt: int)
    requires token !in db.issued && token.family !in db.lineage && id !in db.ids
    ensures
      var after := Step(hash, db, Login(id, userId, token, expiresAt));
      && Acceptable(hash, after, token)
      && after.rows[token.family].expiresAt == expiresAt && after.rows[token.family].userId == userId
      && after.lineage[token.family] == [token]
  {
  }

  /** The steps of a refresh with nothing in between are the refresh that runs alone. */
  lemma UndisturbedRefresh(
    hash: Token -> string, db: Db, w: Worker, token: Token, now: int, user: UserState, renewed: Token, expiresAt: int)
    requires db.StageOf(w) == Idle && token in db.issued && Signable(db, token, renewed)
    ensures
      var looked := Step(hash, db, Lookup(w, token));
      var acted := Step(hash, looked, Act(w, now, user));
      var finish := Finish(w, now, renewed, expiresAt);
      && Step(hash, acted, finish).rows == Refreshed(hash, db.rows, token, now, user, renewed, expiresAt)
      && Answer(acted, finish) == (if Renews(hash, db.rows, token, now, user) then Some(renewed) else None)
  {
    hide RevokeWhere, Rotate;
  }

  /** Where a row's token hash can come from: the row before, or a token that had not been signed. */
  ghost predicate HashFollows(hash: Token -> string, db: Db, after: Db, f: string) {
    f in after.rows && after.rows[f].revokedAt.None? ==>
      || (f in db.rows && db.rows[f].revokedAt.None? && after.rows[f].tokenHash == db.rows[f].tokenHash)
      || exists renewed :: renewed !in db.issued && after.rows[f].tokenHash == hash(renewed)
  }

  lemma StepHashFollows(hash: Token -> string, db: Db, action: Action, f: string)
    ensures HashFollows(hash, db, Step(hash, db, action), f)
    ensures db.issued <= Step(hash, db, action).issued
  {
    if action.Login? {
      assert action.token !in db.issued || Step(hash, db, action) == db;
    }
  }

  lemma StepNeverRevives(hash: Token -> string, db: Db, action: Action, t: Token)
    requires Injective(hash) && t in db.issued && !Acceptable(hash, db, t)
    ensures t in Step(hash, db, action).issued && !Acceptable(hash, Step(hash, db, action), t)
  {
    hide Step;
    StepHashFollows(hash, db, action, t.family);
  }

  /** Once a signed token is not acceptable, whether replaced or revoked, no interleaving makes it acceptable again. */
  lemma {:induction false} NeverAcceptableAgain(hash: Token -> string, db: Db, actions: seq<Action>, t: Token)
    requires Injective(hash) && Consistent(hash, db) && t in db.issued && !Acceptable(hash, db, t)
    ensures t in Run(hash, db, actions).issued && !Acceptable(hash, Run(hash, db, actions), t)
    decreases actions
  {
    if actions != [] {
      StepNeverRevives(hash, db, actions[0], t);
      StepKeepsConsistent(hash, db, actions[0]);
      NeverAcceptableAgain(hash, Step(hash, db, actions[0]), actions[1..], t);
    }
  }

  // ----- revocation -----

  /** The family exists and its row is revoked or purged. */
  ghost predicate Dead(db: Db, f: string) {
    f in db.lineage && (f in db.rows ==> db.rows[f].revokedAt.Some?)
  }

  lemma StepKeepsDead(hash: Token -> string, db: Db, action: Action, f: string)
    requires Dead(db, f)
    ensures Dead(Step(hash, db, action), f)
    ensures f in Step(hash, db, action).rows ==> f in db.rows && Step(hash, db, action).rows[f] == db.rows[f]
  {
  }

  /** Revocation is permanent, and a revoked row never changes again: it stays as it is until it is purged. */
  lemma {:induction false} RevocationIsFinal(hash: Token -> string, db: Db, actions: seq<Action>, f: string)
    requires Dead(db, f)
    ensures Dead(Run(hash, db, actions), f)
    ensures f in Run(hash, db, actions).rows ==> f in db.rows && Run(hash, db, actions).rows[f] == db.rows[f]
    decreases actions
  {
    if actions != [] {
      StepKeepsDead(hash, db, actions[0], f);
      RevocationIsFinal(hash, Step(hash, db, actions[0]), actions[1..], f);
    }
  }

  lemma {:induction false} RunInTwo(hash: Token -> string, db: Db, first: seq<Action>, second: seq<Action>)
    ensures Run(hash, db, first + second) == Run(hash, Run(hash, db, first), second)
    decreases first
  {
    if first == [] {
      assert first + second == second;
    } else {
      assert (first + second)[1..] == first[1..] + second;
      RunInTwo(hash, Step(hash, db, first[0]), first[1..], second);
    }
  }

  predicate ByOthers(actions: seq<Action>, w: Worker) {
    forall a :: a in actions ==> !((a.Lookup? || a.Act? || a.Finish?) && a.w == w)
  }

  lemma StepKeepsOtherStages(hash: Token -> string, db: Db, action: Action, w: Worker)
    requires !((action.Lookup? || action.Act? || action.Finish?) && action.w == w)
    ensures Step(hash, db, action).StageOf(w) == db.StageOf(w)
  {
  }

  lemma {:induction false} OthersKeepStage(hash: Token -> string, db: Db, actions: seq<Action>, w: Worker)
    requires ByOthers(actions, w)
    ensures Run(hash, db, actions).StageOf(w) == db.StageOf(w)
    decreases actions
  {
    if actions != [] {
      assert actions[0] in actions;
      StepKeepsOtherStages(hash, db, actions[0], w);
      hide Step;
      OthersKeepStage(hash, Step(hash, db, actions[0]), actions[1..], w);
    }
  }

  lemma {:induction false} FamiliesStay(hash: Token -> string, db: Db, actions: seq<Action>, f: string)
    requires f in db.lineage
    ensures f in Run(hash, db, actions).lineage
    decreases actions
  {
    if actions != [] {
      FamiliesStay(hash, Step(hash, db, actions[0]), actions[1..], f);
    }
  }

  /**
   Presenting a superseded or revoked token kills its family: whatever other requests do between
   the two statements of that refresh and ever after, no token of the family is acceptable again.
   */
  lemma ReplayKillsFamily(
    hash: Token -> string, db: Db, w: Worker, token: Token, between: seq<Action>, now: int, user: UserState,
      rest: seq<Action>, t: Token)
    requires Injective(hash) && Consistent(hash, db) && db.StageOf(w) == Idle
    requires token in db.issued && !Acceptable(hash, db, token)
    requires ByOthers(between, w) && t.family == token.family
    ensures
      var end := Run(hash, db, [Lookup(w, token)] + between + [Act(w, now, user)] + rest);
      Dead(end, token.family) && !Acceptable(hash, end, t)
  {
    hide Consistent, Acceptable, Step, Injective;
    var looked := Step(hash, db, Lookup(w, token));
    var acting := Run(hash, looked, between);
    var acted := Step(hash, acting, Act(w, now, user));
    StepKeepsConsistent(hash, db, Lookup(w, token));
    RunKeepsConsistent(hash, looked, between);
    StepKeepsConsistent(hash, acting, Act(w, now, user));
    ReplayDies(hash, db, w, token, between, now, user);
    RevocationIsFinal(hash, acted, rest, token.family);
    RunSplits(hash, db, Lookup(w, token), between, Act(w, now, user), rest);
    DeadAcceptsNothing(hash, Run(hash, acted, rest), t);
  }

  lemma DeadAcceptsNothing(hash: Token -> string, db: Db, t: Token)
    requires Dead(db, t.family)
    ensures !Acceptable(hash, db, t)
  {
  }

  lemma RunSplits(hash: Token -> string, db: Db, first: Action, between: seq<Action>, second: Action, rest: seq<Action>)
    ensures Run(hash, db, [first] + between + [second] + rest)
         == Run(hash, Step(hash, Run(hash, Step(hash, db, first), between), second), rest)
  {
    hide Step;
    assert [first] + between + [second] + rest == [first] + (between + ([second] + rest));
    RunOne(hash, db, first, between + ([second] + rest));
    RunInTwo(hash, Step(hash, db, first), between, [second] + rest);
    RunOne(hash, Run(hash, Step(hash, db, first), between), second, rest);
  }

  lemma RunOne(hash: Token -> string, db: Db, first: Action, rest: seq<Action>)
    ensures Run(hash, db, [first] + rest) == Run(hash, Step(hash, db, first), rest)
  {
    assert ([first] + rest)[1..] == rest;
  }

  lemma ReplayDies(
    hash: Token -> string, db: Db, w: Worker, token: Token, between: seq<Action>, now: int, user: UserState)
    requires Consistent(hash, db) && db.StageOf(w) == Idle
    requires token in db.issued && !Acceptable(hash, db, token)
    requires ByOthers(between, w)
    ensures
      var acting := Run(hash, Step(hash, db, Lookup(w, token)), between);
      Dead(Step(hash, acting, Act(w, now, user)), token.family)
  {
    var f := token.family;
    var looked := Step(hash, db, Lookup(w, token));
    var acting := Run(hash, looked, between);
    assert f in db.lineage && f in looked.lineage;
    OthersKeepStage(hash, looked, between, w);
    FamiliesStay(hash, looked, between, f);
    if f in db.rows {
      assert looked.StageOf(w) == Looked(token, db.rows[f]);
      StepKeepsConsistent(hash, db, Lookup(w, token));
      RunKeepsConsistent(hash, looked, between);
      ReuseRevokes(hash, acting, w, token, db.rows[f], now, user);
    } else {
      hide Step, Run;
      assert looked == db by {
        LookupOfUnknown(hash, db, w, token);
      }
      RevocationIsFinal(hash, looked, between, f);
      StepKeepsDead(hash, acting, Act(w, now, user), f);
    }
  }

  lemma LookupOfUnknown(hash: Token -> string, db: Db, w: Worker, token: Token)
    requires token.family !in db.rows
    ensures Step(hash, db, Lookup(w, token)) == db
  {
  }

  /** The second statement of a refresh that saw a stale or revoked row revokes the whole family. */
  lemma ReuseRevokes(hash: Token -> string, db: Db, w: Worker, token: Token, row: Session, now: int, user: UserState)
    requires Consistent(hash, db) && db.StageOf(w) == Looked(token, row) && token.family in db.lineage
    requires Judge(hash, token, row, now) == Reuse
    ensures Dead(Step(hash, db, Act(w, now, user)), token.family)
  {
    assert token.family in db.rows ==> RowAgrees(hash, db, token.family);
  }

  // ----- which refreshes succeed -----

  /** The state in which a refresh reaches its last statement, others acting between its statements. */
  function Reached(
    hash: Token -> string, db: Db, w: Worker, token: Token, x: seq<Action>, now: int, user: UserState,
      y: seq<Action>): Db
  {
    Run(hash, Step(hash, Run(hash, Step(hash, db, Lookup(w, token)), x), Act(w, now, user)), y)
  }

  /**
   Under every interleaving a refresh answers with a token exactly when its own token was acceptable
   in the state of its lookup, unexpired, and its user active: nothing that happens later stops it.
   */
  lemma LookupDecides(
    hash: Token -> string, db: Db, w: Worker, token: Token, x: seq<Action>, now: int, user: UserState, y: seq<Action>,
    finish: Action)
    requires db.StageOf(w) == Idle && token in db.issued && ByOthers(x, w) && ByOthers(y, w)
    requires finish.Finish? && finish.w == w && finish.renewed !in Reached(hash, db, w, token, x, now, user, y).issued
    requires finish.renewed.family == token.family
    ensures
      Answer(Reached(hash, db, w, token, x, now, user, y), finish) ==
        if Acceptable(hash, db, token) && db.rows[token.family].expiresAt >= now
          && user == Active then Some(finish.renewed)
        else None
  {
    var looked := Step(hash, db, Lookup(w, token));
    var acting := Run(hash, looked, x);
    var acted := Step(hash, acting, Act(w, now, user));
    OthersKeepStage(hash, looked, x, w);
    OthersKeepStage(hash, acted, y, w);
    hide Run;
  }

  /**
   Finishing a cleared refresh leaves its own token unacceptable, whether or not the row was still
   live; if it was, the new token is the one acceptable token of the family.
   */
  lemma FinishSupersedes(hash: Token -> string, db: Db, v: Worker, finish: Action)
    requires Injective(hash) && Consistent(hash, db) && finish.Finish? && finish.w == v
    requires db.StageOf(v).Cleared? && Signable(db, db.StageOf(v).token, finish.renewed)
    ensures Answer(db, finish) == Some(finish.renewed)
    ensures
      var after := Step(hash, db, finish);
      var t := db.StageOf(v).token;
      && Consistent(hash, after) && t in after.issued && !Acceptable(hash, after, t)
      && (t.family in db.rows && db.rows[t.family].revokedAt.None? ==>
            && t.family in after.rows && after.rows[t.family].expiresAt == finish.expiresAt
            && forall s: Token :: s.family == t.family ==> (Acceptable(hash, after, s) <==> s == finish.renewed))
  {
    StepKeepsConsistent(hash, db, finish);
    assert StageAgrees(db, v);
    hide Consistent;
    RotationTakesOver(hash, db, v, finish);
  }

  lemma RotationTakesOver(hash: Token -> string, db: Db, v: Worker, finish: Action)
    requires Injective(hash) && finish.Finish? && finish.w == v
    requires db.StageOf(v).Cleared? && Signable(db, db.StageOf(v).token, finish.renewed) && StageAgrees(db, v)
    ensures
      var after := Step(hash, db, finish);
      var t := db.StageOf(v).token;
      if t.family in db.rows && db.rows[t.family].revokedAt.None? then
        && t.family in after.rows && after.rows[t.family].expiresAt == finish.expiresAt
        && forall s: Token :: s.family == t.family ==> (Acceptable(hash, after, s) <==> s == finish.renewed)
      else !Acceptable(hash, after, t)
  {
  }

  /** A second refresh with the same token that looked up before the first one finished succeeds as well. */
  lemma LookedUpBeforeSucceeds(
    hash: Token -> string, db: Db, v: Worker, w: Worker, t: Token, x: seq<Action>, finishV: Action, y: seq<Action>,
    now: int, z: seq<Action>, finishW: Action)
    requires v != w && db.StageOf(w) == Idle && finishV.Finish? && finishV.w == v && finishW.Finish? && finishW.w == w
    requires ByOthers(x, w) && ByOthers(y, w) && ByOthers(z, w)
    requires Acceptable(hash, db, t) && db.rows[t.family].expiresAt >= now
    requires finishW.renewed !in Reached(hash, db, w, t, x + [finishV] + y, now, Active, z).issued
    requires finishW.renewed.family == t.family
    ensures Answer(Reached(hash, db, w, t, x + [finishV] + y, now, Active, z), finishW) == Some(finishW.renewed)
  {
    LookupDecides(hash, db, w, t, x + [finishV] + y, now, Active, z, finishW);
  }

  /** One that looks up after it is refused. */
  lemma LookedUpAfterFails(
    hash: Token -> string, db: Db, v: Worker, w: Worker, finishV: Action, x: seq<Action>, y: seq<Action>,
    now: int, z: seq<Action>, finishW: Action)
    requires Injective(hash) && Consistent(hash, db) && v != w
    requires db.StageOf(w) == Idle && finishV.Finish? && finishV.w == v && finishW.Finish? && finishW.w == w
    requires db.StageOf(v).Cleared? && Signable(db, db.StageOf(v).token, finishV.renewed)
    requires ByOthers(x, w) && ByOthers(y, w) && ByOthers(z, w)
    requires
      var later := Run(hash, Step(hash, db, finishV), x);
      finishW.renewed !in Reached(hash, later, w, db.StageOf(v).token, y, now, Active, z).issued
    requires finishW.renewed.family == db.StageOf(v).token.family
    ensures
      var later := Run(hash, Step(hash, db, finishV), x);
      Answer(Reached(hash, later, w, db.StageOf(v).token, y, now, Active, z), finishW) == None
  {
    hide Consistent, Run, Acceptable, Reached, Injective;
    var t := db.StageOf(v).token;
    var finished := Step(hash, db, finishV);
    FinishSupersedes(hash, db, v, finishV);
    NeverAcceptableAgain(hash, finished, x, t);
    OthersKeepStage(hash, finished, x, w);
    LookupDecides(hash, Run(hash, finished, x), w, t, y, now, Active, z, finishW);
  }
}
