/**
 What the verifier reads back. SQLite returns the texts that were hashed; PostgreSQL keeps an actor
 id only when it parses as a UUID, in canonical spelling, and re-renders metadata through jsonb.
 */
module AuditStorage {
  import opened Options
  import opened Backends
  import opened Sorting
  import opened HashChain
  import opened AuditChain
  import opened AuditLog
  import opened AuditWriters

  /** The two conversions, as PostgreSQL performs them. */
  datatype Conversions = Conversions(parseUuid: string -> Option<string>, render: string -> string)

  function StoredEvent(backend: Backend, conv: Conversions, e: AuditEvent): AuditEvent {
    if backend == Sqlite then e
    else
      e.(actorUserId := if e.actorUserId.Some? then conv.parseUuid(e.actorUserId.value) else None,
         metadata := if e.metadata.Some? then Some(conv.render(e.metadata.value)) else None)
  }

  function StoredRow(backend: Backend, conv: Conversions, row: AuditRow): AuditRow {
    row.(entry := row.entry.(event := StoredEvent(backend, conv, row.entry.event)))
  }

  function ReadBack(backend: Backend, conv: Conversions, rows: seq<AuditRow>): seq<AuditRow> {
    if rows == [] then [] else [StoredRow(backend, conv, rows[0])] + ReadBack(backend, conv, rows[1..])
  }

  lemma {:induction false} ReadBackAt(backend: Backend, conv: Conversions, rows: seq<AuditRow>)
    ensures |ReadBack(backend, conv, rows)| == |rows|
    ensures forall i :: 0 <= i < |rows| ==> ReadBack(backend, conv, rows)[i] == StoredRow(backend, conv, rows[i])
  {
    if rows != [] {
      ReadBackAt(backend, conv, rows[1..]);
    }
  }

  lemma StoredKeepsLinks(backend: Backend, conv: Conversions, row: AuditRow)
    ensures
      var stored := StoredRow(backend, conv, row);
      && stored.sequence == row.sequence && stored.entry.timestamp == row.entry.timestamp
      && stored.entry.Hash() == row.entry.Hash() && stored.entry.Previous() == row.entry.Previous()
  {
  }

  lemma ReadBackHead(backend: Backend, conv: Conversions, row: AuditRow, rest: seq<AuditRow>)
    ensures ReadBack(backend, conv, [row] + rest) == [StoredRow(backend, conv, row)] + ReadBack(backend, conv, rest)
    ensures Numbered([row] + rest) == (if row.sequence.Some? then [row] else []) + Numbered(rest)
  {
    assert ([row] + rest)[1..] == rest;
  }

  lemma {:induction false} NumberedReadBack(backend: Backend, conv: Conversions, rows: seq<AuditRow>)
    ensures Numbered(ReadBack(backend, conv, rows)) == ReadBack(backend, conv, Numbered(rows))
  {
    hide Numbered, ReadBack, StoredRow;
    if rows == [] {
      NothingReadBack(backend, conv);
    } else {
      var row, rest := rows[0], rows[1..];
      var stored := StoredRow(backend, conv, row);
      assert rows == [row] + rest;
      NumberedReadBack(backend, conv, rest);
      StoredKeepsLinks(backend, conv, row);
      ReadBackHead(backend, conv, row, rest);
      ReadBackHead(backend, conv, row, Numbered(rest));
      ReadBackHead(backend, conv, stored, ReadBack(backend, conv, rest));
      assert [] + Numbered(rest) == Numbered(rest);
    }
  }

  lemma NothingReadBack(backend: Backend, conv: Conversions)
    ensures Numbered(ReadBack(backend, conv, [])) == ReadBack(backend, conv, Numbered([]))
  {
  }

  /** The verifier selects the stored form of the honest chain, in order. */
  lemma SelectedReadBack(
    s: AuditReading, backend: Backend, conv: Conversions, rows: seq<AuditRow>, lastSequence: int, lastHash: string)
    requires Honest(s, rows, lastSequence, lastHash)
    ensures Selected(ReadBack(backend, conv, rows)) == ReadBack(backend, conv, Numbered(rows))
  {
    var chain := Numbered(rows);
    var read := ReadBack(backend, conv, chain);
    NumberedReadBack(backend, conv, rows);
    ReadBackAt(backend, conv, chain);
    hide StoredRow, ReadBack, Numbered, Intact;
    forall i | 0 <= i < |read| ensures read[i].sequence == Some(i + 1) {
      StoredKeepsLinks(backend, conv, chain[i]);
    }
    SortOfSorted(read, BySequence());
  }

  /** The canonical text of the row is the same before and after storage. */
  ghost predicate TextSurvives(lib: Library, backend: Backend, conv: Conversions, row: AuditRow) {
    var stored := StoredRow(backend, conv, row);
    match lib.parse(row.entry.timestamp)
    case None => false
    case Some(t) =>
      CanonicalEventString(lib, row.entry.Previous(), t, stored.entry.event)
      == CanonicalEventString(lib, row.entry.Previous(), t, row.entry.event)
  }

  /** A consistent row is read back consistent exactly when its canonical text survives storage. */
  lemma StoredRowIsConsistentIff(lib: Library, backend: Backend, conv: Conversions, row: AuditRow)
    requires LawfulHash(lib.hash) && SelfConsistent(lib, row.entry)
    ensures SelfConsistent(lib, StoredRow(backend, conv, row).entry) <==> TextSurvives(lib, backend, conv, row)
  {
    hide HashedFields;
  }

  /** In the stored form of an intact chain a row holds exactly when its canonical text survived. */
  lemma StoredRowHoldsIff(lib: Library, backend: Backend, conv: Conversions, chain: seq<AuditRow>, i: nat)
    requires LawfulHash(lib.hash) && i < |chain| && RowHolds(AuditScheme(lib), Entries(chain), i)
    ensures |ReadBack(backend, conv, chain)| == |chain|
    ensures RowHolds(AuditScheme(lib), Entries(ReadBack(backend, conv, chain)), i)
        <==> TextSurvives(lib, backend, conv, chain[i])
  {
    ReadBackAt(backend, conv, chain);
    StoredRowIsConsistentIff(lib, backend, conv, chain[i]);
    StoredKeepsLinks(backend, conv, chain[i]);
    if i > 0 {
      StoredKeepsLinks(backend, conv, chain[i - 1]);
    }
    hide StoredRow, ReadBack, SelfConsistent, TextSurvives;
  }

  /** Honestly written tables are reported intact after storage exactly when every row's canonical text survives it. */
  lemma ReadBackVerifiesIff(
    lib: Library, backend: Backend, conv: Conversions, rows: seq<AuditRow>, lastSequence: int, lastHash: string)
    requires LawfulHash(lib.hash) && Honest(AuditScheme(lib), rows, lastSequence, lastHash)
    ensures
      var read := Selected(ReadBack(backend, conv, rows));
      && |read| == lastSequence
      && (Breaks(AuditScheme(lib), read, |read|) == [] <==>
            forall row :: row in Numbered(rows) ==> TextSurvives(lib, backend, conv, row))
  {
    hide SelfConsistent, TextSurvives, StoredRow, ReadBack, Numbered, Selected, Breaks, RowHolds, Entries;
    var s, chain := AuditScheme(lib), Numbered(rows);
    var read := ReadBack(backend, conv, chain);
    SelectedReadBack(s, backend, conv, rows, lastSequence, lastHash);
    ReadBackAt(backend, conv, chain);
    AuditReadingIsReadable(lib);
    NoBreaksIffRowsHold(s, read, |read|);
    forall i | 0 <= i < |chain|
      ensures RowHolds(s, Entries(read), i) <==> TextSurvives(lib, backend, conv, chain[i])
    {
      assert RowHolds(s, Entries(chain), i);
      StoredRowHoldsIff(lib, backend, conv, chain, i);
    }
  }

  /**
   For an event without separators that means: on PostgreSQL a present actor id parses to itself, or is
   empty text that does not parse, and present metadata re-renders to itself.
   */
  ghost predicate FieldsSurvive(backend: Backend, conv: Conversions, e: AuditEvent) {
    backend == Sqlite ||
    (&& (e.actorUserId.Some? ==> conv.parseUuid(e.actorUserId.value).GetOr("") == e.actorUserId.value)
     && (e.metadata.Some? ==> conv.render(e.metadata.value) == e.metadata.value))
  }

  lemma TextSurvivesIffFieldsDo(lib: Library, backend: Backend, conv: Conversions, row: AuditRow)
    requires EventSeparatorFree(row.entry.event) && lib.parse(row.entry.timestamp).Some?
    ensures TextSurvives(lib, backend, conv, row) <==> FieldsSurvive(backend, conv, row.entry.event)
  {
    hide HashedFields, CanonicalEventString;
    var e := row.entry.event;
    var stored := StoredEvent(backend, conv, e);
    var previous, t := row.entry.Previous(), lib.parse(row.entry.timestamp).value;
    CanonicalTextSplits(lib, previous, t, e);
    CanonicalTextSplits(lib, previous, t, stored);
    var head := Join([previous, lib.format(t)]) + [SEPARATOR];
    SamePrefix(head, Join(EventFields(stored)), Join(EventFields(e)));
    SeparatorFreeFields(e);
    if TextSurvives(lib, backend, conv, row) {
      JoinInjective(EventFields(e), EventFields(stored));
      assert EventFields(e)[0] == EventFields(stored)[0] && EventFields(e)[12] == EventFields(stored)[12];
    }
    if FieldsSurvive(backend, conv, e) {
      assert EventFields(stored) == EventFields(e);
    }
  }

  /**
   After any interleaving of writers of separator-free events the verifier, reading what the engine
   stored, reports no break exactly when every event's actor id and metadata survive storage. On
   SQLite they always do.
   */
  lemma InterleavingVerifiesIffFieldsSurvive(
    lib: Library, backend: Backend, conv: Conversions, legacy: seq<AuditRow>, actions: seq<Action>)
    requires Lawful(lib)
    requires forall row :: row in legacy ==> row.sequence.None?
    requires Clean(Entries(Numbered(Run(lib, backend, Migrated(legacy), actions).rows)))
    ensures
      var rows := Run(lib, backend, Migrated(legacy), actions).rows;
      var read := Selected(ReadBack(backend, conv, rows));
      && (Breaks(AuditScheme(lib), read, |read|) == [] <==>
            forall row :: row in Numbered(rows) ==> FieldsSurvive(backend, conv, row.entry.event))
      && (backend == Sqlite ==> Breaks(AuditScheme(lib), read, |read|) == [])
  {
    hide TextSurvives, FieldsSurvive, Run, ReadBack, Selected, Breaks, Numbered;
    AnyInterleavingVerifies(lib, backend, legacy, actions);
    var db := Run(lib, backend, Migrated(legacy), actions);
    ReadBackVerifiesIff(lib, backend, conv, db.rows, db.lastSequence, db.lastHash);
    forall row | row in Numbered(db.rows)
      ensures TextSurvives(lib, backend, conv, row) <==> FieldsSurvive(backend, conv, row.entry.event)
    {
      HonestTextSurvivesIff(lib, backend, conv, Numbered(db.rows), row);
    }
    SqliteKeepsFields(conv);
  }

  lemma HonestTextSurvivesIff(lib: Library, backend: Backend, conv: Conversions, chain: seq<AuditRow>, row: AuditRow)
    requires Intact(AuditScheme(lib), Entries(chain)) && Clean(Entries(chain)) && row in chain
    ensures TextSurvives(lib, backend, conv, row) <==> FieldsSurvive(backend, conv, row.entry.event)
  {
    hide TextSurvives, FieldsSurvive;
    var i :| 0 <= i < |chain| && chain[i] == row;
    assert RowHolds(AuditScheme(lib), Entries(chain), i);
    assert EventSeparatorFree(Entries(chain)[i].event);
    TextSurvivesIffFieldsDo(lib, backend, conv, row);
  }

  lemma SqliteKeepsFields(conv: Conversions)
    ensures forall e :: FieldsSurvive(Sqlite, conv, e)
  {
  }
}
