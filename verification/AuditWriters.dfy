/**
 Concurrent audit writers. Every SQL statement of an insert is one atomic step; rows and tip
 become visible at commit. On PostgreSQL the tip is read FOR UPDATE; on SQLite reading takes
 no lock and the first write fails when another writer holds the lock or has moved the tip.
 */
module AuditWriters {
  import opened Options
  import opened AuditChain
  import opened AuditLog
  import opened Backends

  type Writer = nat

  datatype Phase =
    | Idle
    | TipRead(lastSequence: int, lastHash: string)
    | RowInserted(row: AuditRow)
    | TipAdvanced(row: AuditRow, sequence: int, hash: string)

  datatype Database = Database(
    rows: seq<AuditRow>,
    lastSequence: int,
    lastHash: string,
    lock: Option<Writer>,
    phases: map<Writer, Phase>)
  {
    function PhaseOf(w: Writer): Phase {
      if w in phases then phases[w] else Idle
    }

    function To(w: Writer, phase: Phase): Database {
      this.(phases := phases[w := phase])
    }

    /** Ends `w`'s transaction, releasing the lock if `w` holds it. */
    function Ended(w: Writer): Database {
      To(w, Idle).(lock := if lock == Some(w) then None else lock)
    }
  }

  datatype Action =
    | ReadTip(w: Writer)
    | InsertRow(w: Writer, id: string, event: AuditEvent, now: int)
    | AdvanceTip(w: Writer)
    | Commit(w: Writer)
    | Rollback(w: Writer)

  /** One atomic step; a step that is blocked or out of turn changes nothing. */
  function Step(lib: Library, backend: Backend, db: Database, action: Action): Database {
    match action
    case ReadTip(w) =>
      if db.PhaseOf(w) != Idle || (backend == Postgres && db.lock != None) then db
      else db.To(w, TipRead(db.lastSequence, db.lastHash)).(lock := if backend == Postgres then Some(w) else db.lock)
    case InsertRow(w, id, event, now) =>
      (match db.PhaseOf(w)
       case TipRead(lastSequence, lastHash) =>
         if backend == Sqlite && (db.lock != None || (lastSequence, lastHash) != (db.lastSequence, db.lastHash)) then
           db.Ended(w)
         else
           db.To(w, RowInserted(NewRow(lib, lastSequence, lastHash, id, event, now))).(lock := Some(w))
       case _ => db)
    case AdvanceTip(w) =>
      (match db.PhaseOf(w)
       case RowInserted(row) => db.To(w, TipAdvanced(row, row.sequence.GetOr(0), row.entry.Hash()))
       case _ => db)
    case Commit(w) =>
      (match db.PhaseOf(w)
       case TipAdvanced(row, sequence, hash) =>
         db.Ended(w).(rows := db.rows + [row], lastSequence := sequence, lastHash := hash)
       case _ => db)
    case Rollback(w) => db.Ended(w)
  }

  function Run(lib: Library, backend: Backend, db: Database, actions: seq<Action>): Database
    decreases actions
  {
    if actions == [] then db else Run(lib, backend, Step(lib, backend, db, actions[0]), actions[1..])
  }

  /** A writer that nobody disturbs appends its event over the tip and releases the lock. */
  lemma UndisturbedInsert(lib: Library, backend: Backend, db: Database, w: Writer, id: string, e: AuditEvent, now: int)
    requires db.lock == None && db.PhaseOf(w) == Idle
    ensures
      var a := Step(lib, backend, db, ReadTip(w));
      var b := Step(lib, backend, a, InsertRow(w, id, e, now));
      var c := Step(lib, backend, b, AdvanceTip(w));
      var d := Step(lib, backend, c, Commit(w));
      var row := NewRow(lib, db.lastSequence, db.lastHash, id, e, now);
      && a.rows == b.rows == c.rows == db.rows
      && d.rows == db.rows + [row] && d.lastSequence == db.lastSequence + 1 && Some(d.lastHash) == row.entry.eventHash
      && d.lock == None && d.PhaseOf(w) == Idle
  {
  }

  function Migrated(legacy: seq<AuditRow>): Database {
    Database(legacy, 0, GenesisHash(), None, map[])
  }

  ghost predicate PhaseAgrees(lib: Library, backend: Backend, db: Database, w: Writer) {
    match db.PhaseOf(w)
    case Idle => db.lock != Some(w)
    case TipRead(lastSequence, lastHash) =>
      && (backend == Postgres <==> db.lock == Some(w))
      && (backend == Postgres ==> (lastSequence, lastHash) == (db.lastSequence, db.lastHash))
    case RowInserted(row) => db.lock == Some(w) && FitsTip(AuditScheme(lib), db.lastSequence, db.lastHash, row)
    case TipAdvanced(row, sequence, hash) =>
      db.lock == Some(w) && FitsTip(AuditScheme(lib), db.lastSequence, db.lastHash, row)
        && sequence == db.lastSequence + 1 && hash == row.entry.Hash()
  }

  ghost predicate Consistent(lib: Library, backend: Backend, db: Database) {
    && Honest(AuditScheme(lib), db.rows, db.lastSequence, db.lastHash)
    && forall w: Writer :: PhaseAgrees(lib, backend, db, w)
  }

  /** Every step of every writer keeps the committed tables honest. */
  lemma StepKeepsConsistent(lib: Library, backend: Backend, db: Database, action: Action)
    requires LawfulClock(lib) && Consistent(lib, backend, db)
    ensures Consistent(lib, backend, Step(lib, backend, db, action))
  {
    var after := Step(lib, backend, db, action);
    assert PhaseAgrees(lib, backend, db, action.w);
    StepKeepsTables(lib, backend, db, action);
    StepKeepsOwnPhase(lib, backend, db, action);
    forall w: Writer ensures PhaseAgrees(lib, backend, after, w) {
      if w != action.w {
        assert PhaseAgrees(lib, backend, db, w);
        assert after.PhaseOf(w) == db.PhaseOf(w);
      }
    }
  }

  lemma StepKeepsTables(lib: Library, backend: Backend, db: Database, action: Action)
    requires Honest(AuditScheme(lib), db.rows, db.lastSequence, db.lastHash) && PhaseAgrees(lib, backend, db, action.w)
    ensures var after := Step(lib, backend, db, action);
            Honest(AuditScheme(lib), after.rows, after.lastSequence, after.lastHash)
  {
    if action.Commit? && db.PhaseOf(action.w).TipAdvanced? {
      AppendKeepsHonest(AuditScheme(lib), db.rows, db.lastSequence, db.lastHash, db.PhaseOf(action.w).row);
    }
  }

  lemma StepKeepsOwnPhase(lib: Library, backend: Backend, db: Database, action: Action)
    requires LawfulClock(lib) && PhaseAgrees(lib, backend, db, action.w)
    ensures PhaseAgrees(lib, backend, Step(lib, backend, db, action), action.w)
  {
    if action.InsertRow? && db.PhaseOf(action.w).TipRead? {
      var TipRead(lastSequence, lastHash) := db.PhaseOf(action.w);
      NewRowFitsTip(lib, lastSequence, lastHash, action.id, action.event, action.now);
    }
  }

  /** From the migrated tables, whatever steps are interleaved, the chain is honest in every state. */
  lemma {:induction false} RunKeepsConsistent(lib: Library, backend: Backend, db: Database, actions: seq<Action>)
    requires LawfulClock(lib) && Consistent(lib, backend, db)
    ensures Consistent(lib, backend, Run(lib, backend, db, actions))
    decreases actions
  {
    if actions != [] {
      StepKeepsConsistent(lib, backend, db, actions[0]);
      RunKeepsConsistent(lib, backend, Step(lib, backend, db, actions[0]), actions[1..]);
    }
  }

  lemma MigratedIsConsistent(lib: Library, backend: Backend, legacy: seq<AuditRow>)
    requires forall row :: row in legacy ==> row.sequence.None?
    ensures Consistent(lib, backend, Migrated(legacy))
  {
    MigratedIsHonest(AuditScheme(lib), legacy);
  }

  /**
   Under any interleaving of writers the committed rows form one intact chain numbered
   1, 2, ..., the tip is the last row's, and the verifier reports no break.
   */
  lemma AnyInterleavingVerifies(lib: Library, backend: Backend, legacy: seq<AuditRow>, actions: seq<Action>)
    requires LawfulClock(lib)
    requires forall row :: row in legacy ==> row.sequence.None?
    ensures
      var db := Run(lib, backend, Migrated(legacy), actions);
      && Honest(AuditScheme(lib), db.rows, db.lastSequence, db.lastHash)
      && |Selected(db.rows)| == db.lastSequence
      && Breaks(AuditScheme(lib), Selected(db.rows), |Selected(db.rows)|) == []
  {
    MigratedIsConsistent(lib, backend, legacy);
    RunKeepsConsistent(lib, backend, Migrated(legacy), actions);
    var db := Run(lib, backend, Migrated(legacy), actions);
    HonestTablesVerify(AuditScheme(lib), db.rows, db.lastSequence, db.lastHash);
  }
}
