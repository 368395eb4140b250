/** The audit tables: appending an event under the chain tip, and the verifier's report. */
module AuditLog {
  import opened Options
  import opened Sorting
  import opened HashChain
  import opened AuditChain

  datatype AuditRow = AuditRow(id: string, sequence: Option<int>, entry: Entry)

  datatype BreakReason = PreviousHashMismatch | TimestampUnparseable | EventHashMismatch

  datatype ChainBreak = ChainBreak(sequence: int, eventId: string, reason: BreakReason)

  datatype Report = Report(eventsChecked: nat, intact: bool, breaks: seq<ChainBreak>)

  // ----- rows of the chain -----

  /** The row one insert writes on top of the tip (`lastSequence`, `lastHash`). */
  function NewRow(lib: Library, lastSequence: int, lastHash: string, id: string, e: AuditEvent, now: int): AuditRow {
    var timestamp := TruncateToMicros(now);
    var eventHash := lib.hash(CanonicalEventString(lib, lastHash, timestamp, e));
    AuditRow(id, Some(lastSequence + 1), Entry(lib.format(timestamp), e, Some(lastHash), Some(eventHash)))
  }

  /** Rows written before chaining existed carry no sequence and are skipped. */
  function Numbered(rows: seq<AuditRow>): (r: seq<AuditRow>)
    ensures forall row :: row in r ==> row.sequence.Some? && row in rows
  {
    if rows == [] then []
    else (if rows[0].sequence.Some? then [rows[0]] else []) + Numbered(rows[1..])
  }

  function BySequence(): (AuditRow, AuditRow) -> bool {
    (a: AuditRow, b: AuditRow) => a.sequence.GetOr(0) <= b.sequence.GetOr(0)
  }

  function Selected(rows: seq<AuditRow>): seq<AuditRow> {
    Sort(Numbered(rows), BySequence())
  }

  function Entries(rows: seq<AuditRow>): (r: seq<Entry>)
    ensures |r| == |rows| && forall i :: 0 <= i < |r| ==> r[i] == rows[i].entry
  {
    seq(|rows|, i requires 0 <= i < |rows| => rows[i].entry)
  }

  /** The numbered rows are one intact chain with sequences 1, 2, ... ending at the stored tip. */
  ghost predicate Honest(s: AuditReading, rows: seq<AuditRow>, lastSequence: int, lastHash: string) {
    var chain := Numbered(rows);
    && (forall i :: 0 <= i < |chain| ==> chain[i].sequence == Some(i + 1))
    && Intact(s, Entries(chain))
    && lastSequence == |chain|
    && lastHash == EndHash(s, Entries(chain))
  }

  lemma {:induction false} NumberedConcat(rows: seq<AuditRow>, row: AuditRow)
    ensures Numbered(rows + [row]) == Numbered(rows) + (if row.sequence.Some? then [row] else [])
  {
    if rows == [] {
      assert rows + [row] == [row];
      assert [row][1..] == [];
    } else {
      assert (rows + [row])[1..] == rows[1..] + [row];
      NumberedConcat(rows[1..], row);
    }
  }

  /** `row` may be appended on top of the tip (`lastSequence`, `lastHash`). */
  predicate FitsTip(s: AuditReading, lastSequence: int, lastHash: string, row: AuditRow) {
    && row.sequence == Some(lastSequence + 1)
    && s.previous(row.entry) == lastHash
    && s.consistent(row.entry)
  }

  lemma NewRowFitsTip(lib: Library, lastSequence: int, lastHash: string, id: string, e: AuditEvent, now: int)
    requires LawfulClock(lib)
    ensures FitsTip(AuditScheme(lib), lastSequence, lastHash, NewRow(lib, lastSequence, lastHash, id, e, now))
  {
    var timestamp := TruncateToMicros(now);
    assert lib.parse(lib.format(timestamp)) == Some(timestamp);
  }

  lemma AppendKeepsHonest(s: AuditReading, rows: seq<AuditRow>, lastSequence: int, lastHash: string, row: AuditRow)
    requires Honest(s, rows, lastSequence, lastHash) && FitsTip(s, lastSequence, lastHash, row)
    ensures Honest(s, rows + [row], lastSequence + 1, s.hash(row.entry))
  {
    var chain := Numbered(rows);
    var longer := chain + [row];
    NumberedConcat(rows, row);
    AppendEntry(s, chain, row);
    forall i | 0 <= i < |longer| ensures longer[i].sequence == Some(i + 1) {
      assert i < |chain| ==> longer[i] == chain[i];
    }
  }

  lemma AppendEntry(s: AuditReading, chain: seq<AuditRow>, row: AuditRow)
    requires Intact(s, Entries(chain))
    requires s.consistent(row.entry) && s.previous(row.entry) == EndHash(s, Entries(chain))
    ensures Intact(s, Entries(chain + [row])) && EndHash(s, Entries(chain + [row])) == s.hash(row.entry)
  {
    assert Entries(chain + [row]) == Entries(chain) + [row.entry];
    ExtendIntact(s, Entries(chain), row.entry);
  }

  lemma {:induction false} NoneNumbered(rows: seq<AuditRow>)
    requires forall row :: row in rows ==> row.sequence.None?
    ensures Numbered(rows) == []
  {
    if rows != [] {
      assert rows[0] in rows;
      assert forall row :: row in rows[1..] ==> row in rows;
      NoneNumbered(rows[1..]);
    }
  }

  lemma MigratedIsHonest(s: AuditReading, legacy: seq<AuditRow>)
    requires forall row :: row in legacy ==> row.sequence.None?
    ensures Honest(s, legacy, 0, s.genesis)
  {
    NoneNumbered(legacy);
  }

  /** The verifier's ORDER BY leaves an honest table in insertion order. */
  lemma HonestIsSorted(s: AuditReading, rows: seq<AuditRow>, lastSequence: int, lastHash: string)
    requires Honest(s, rows, lastSequence, lastHash)
    ensures Selected(rows) == Numbered(rows)
  {
    SortOfSorted(Numbered(rows), BySequence());
  }

  // ----- what the verifier reports -----

  function BreaksOf(s: AuditReading, row: AuditRow, expected: string): seq<ChainBreak> {
    var sequence := row.sequence.GetOr(0);
    (if s.previous(row.entry) != expected then [ChainBreak(sequence, row.id, PreviousHashMismatch)] else [])
    + (if s.content(row.entry).None? then [ChainBreak(sequence, row.id, TimestampUnparseable)]
       else if !s.consistent(row.entry) then [ChainBreak(sequence, row.id, EventHashMismatch)]
       else [])
  }

  /** All breaks of the first `n` rows, in row order. */
  function Breaks(s: AuditReading, rows: seq<AuditRow>, n: nat): seq<ChainBreak>
    requires n <= |rows|
  {
    if n == 0 then []
    else Breaks(s, rows, n - 1) + BreaksOf(s, rows[n - 1], LinkAt(s, Entries(rows), n - 1))
  }

  /** An inconsistent row never reads as consistent just because its timestamp is unreadable. */
  ghost predicate ReadableWhenConsistent(s: AuditReading) {
    forall e: Entry :: s.consistent(e) ==> s.content(e).Some?
  }

  lemma {:induction false} NoBreaksIffRowsHold(s: AuditReading, rows: seq<AuditRow>, n: nat)
    requires n <= |rows| && ReadableWhenConsistent(s)
    ensures Breaks(s, rows, n) == [] <==> forall i :: 0 <= i < n ==> RowHolds(s, Entries(rows), i)
  {
    if n > 0 {
      NoBreaksIffRowsHold(s, rows, n - 1);
      var before := Breaks(s, rows, n - 1);
      var here := BreaksOf(s, rows[n - 1], LinkAt(s, Entries(rows), n - 1));
      assert |before + here| == |before| + |here|;
      assert here == [] <==> RowHolds(s, Entries(rows), n - 1);
    }
  }

  /** The breaks of a row are about that row and give each reason once, a broken link first. */
  ghost predicate AboutRow(row: AuditRow, breaks: seq<ChainBreak>) {
    && (forall b :: b in breaks ==> b.sequence == row.sequence.GetOr(0) && b.eventId == row.id)
    && (forall i, j :: 0 <= i < j < |breaks| ==>
          breaks[i].reason != breaks[j].reason && breaks[j].reason != PreviousHashMismatch)
  }

  predicate Gives(breaks: seq<ChainBreak>, reason: BreakReason) {
    exists b :: b in breaks && b.reason == reason
  }

  /**
   Exactly the right reasons: the link is broken iff the stored predecessor is not the earlier row's
   stored hash, or for the first row the genesis value; the timestamp iff it does not parse; the hash
   iff the timestamp parses and the canonical text of the stored fields hashes to something else.
   */
  ghost predicate ExplainsRow(lib: Library, rows: seq<AuditRow>, i: nat, breaks: seq<ChainBreak>)
    requires i < |rows|
  {
    var entry := rows[i].entry;
    var expected := if i == 0 then GenesisHash() else rows[i - 1].entry.eventHash.GetOr("");
    var timestamp := lib.parse(entry.timestamp);
    && AboutRow(rows[i], breaks)
    && (Gives(breaks, PreviousHashMismatch) <==> entry.previousHash.GetOr("") != expected)
    && (Gives(breaks, TimestampUnparseable) <==> timestamp.None?)
    && (Gives(breaks, EventHashMismatch) <==>
          && timestamp.Some?
          && lib.hash(CanonicalEventString(lib, entry.previousHash.GetOr(""), timestamp.value, entry.event))
             != entry.eventHash.GetOr(""))
  }

  /** One list of breaks for every row, in row order. */
  ghost predicate IsExplanation(lib: Library, rows: seq<AuditRow>, parts: seq<seq<ChainBreak>>) {
    |parts| == |rows| && forall i :: 0 <= i < |rows| ==> ExplainsRow(lib, rows, i, parts[i])
  }

  function Concat<T>(parts: seq<seq<T>>): seq<T> {
    if parts == [] then [] else Concat(parts[..|parts| - 1]) + parts[|parts| - 1]
  }

  /** The breaks of the first `n` rows, row by row. */
  lemma {:induction false} Explain(lib: Library, rows: seq<AuditRow>, n: nat) returns (parts: seq<seq<ChainBreak>>)
    requires n <= |rows|
    ensures |parts| == n && forall i :: 0 <= i < n ==> ExplainsRow(lib, rows, i, parts[i])
    ensures Breaks(AuditScheme(lib), rows, n) == Concat(parts)
  {
    hide ExplainsRow, BreaksOf, LinkAt, Entries;
    parts := [];
    if n > 0 {
      var earlier := Explain(lib, rows, n - 1);
      var here := BreaksOf(AuditScheme(lib), rows[n - 1], LinkAt(AuditScheme(lib), Entries(rows), n - 1));
      BreaksExplainRow(lib, rows, n - 1);
      parts := earlier + [here];
      assert parts[..n - 1] == earlier;
    }
  }

  lemma BreaksExplainRow(lib: Library, rows: seq<AuditRow>, i: nat)
    requires i < |rows|
    ensures ExplainsRow(lib, rows, i, BreaksOf(AuditScheme(lib), rows[i], LinkAt(AuditScheme(lib), Entries(rows), i)))
  {
    var row, expected := rows[i], LinkAt(AuditScheme(lib), Entries(rows), i);
    var breaks := BreaksOf(AuditScheme(lib), row, expected);
    assert expected == if i == 0 then GenesisHash() else rows[i - 1].entry.eventHash.GetOr("");
    var n := row.sequence.GetOr(0);
    assert forall b :: b in breaks ==> b == ChainBreak(n, row.id, b.reason);
  }

  /** The verifier takes every numbered row as often as it is stored, and only those, by rising sequence. */
  lemma SelectedRows(rows: seq<AuditRow>)
    ensures forall row :: multiset(Selected(rows))[row] == if row.sequence.Some? then multiset(rows)[row] else 0
    ensures forall i, j :: 0 <= i < j < |Selected(rows)| ==>
      Selected(rows)[i].sequence.GetOr(0) <= Selected(rows)[j].sequence.GetOr(0)
  {
    forall row ensures multiset(Numbered(rows))[row] == if row.sequence.Some? then multiset(rows)[row] else 0 {
      NumberedCounts(rows, row);
    }
    SortSorts(Numbered(rows), BySequence());
    var selected := Selected(rows);
    forall i, j | 0 <= i < j < |selected| ensures selected[i].sequence.GetOr(0) <= selected[j].sequence.GetOr(0) {
      assert BySequence()(selected[i], selected[j]);
    }
  }

  lemma {:induction false} NumberedCounts(rows: seq<AuditRow>, row: AuditRow)
    ensures multiset(Numbered(rows))[row] == if row.sequence.Some? then multiset(rows)[row] else 0
  {
    if rows != [] {
      NumberedCounts(rows[1..], row);
      assert rows == [rows[0]] + rows[1..];
    }
  }

  class AuditTables {
    var rows: seq<AuditRow>
    var lastSequence: int
    var lastHash: string

    /** The state after migration: possibly some older, unnumbered rows, and the genesis tip. */
    constructor (lib: Library, legacy: seq<AuditRow>)
      requires forall row :: row in legacy ==> row.sequence.None?
      ensures rows == legacy && lastSequence == 0 && lastHash == GenesisHash()
      ensures Honest(AuditScheme(lib), rows, lastSequence, lastHash)
    {
      rows, lastSequence, lastHash := legacy, 0, GenesisHash();
      MigratedIsHonest(AuditScheme(lib), legacy);
    }

    method InsertAuditEvent(lib: Library, id: string, e: AuditEvent, now: int)
      requires LawfulClock(lib) && Honest(AuditScheme(lib), rows, lastSequence, lastHash)
      modifies this
      ensures rows == old(rows) + [NewRow(lib, old(lastSequence), old(lastHash), id, e, now)]
      ensures
        var row := rows[|old(rows)|];
        && row.id == id && row.sequence == Some(old(lastSequence) + 1) && row.entry.event == e
        && lib.parse(row.entry.timestamp) == Some(now - now % 1000)
        && row.entry.previousHash == Some(old(lastHash)) && row.entry.eventHash == Some(lastHash)
        && lastSequence == old(lastSequence) + 1
        && lastHash == lib.hash(CanonicalEventString(lib, old(lastHash), now - now % 1000, e))
      ensures Honest(AuditScheme(lib), rows, lastSequence, lastHash)
    {
      hide Honest, CanonicalEventString;
      var timestamp := TruncateToMicros(now);
      var sequence := lastSequence + 1;
      var eventHash := lib.hash(CanonicalEventString(lib, lastHash, timestamp, e));
      NewRowFitsTip(lib, lastSequence, lastHash, id, e, now);
      AppendKeepsHonest(AuditScheme(lib), rows, lastSequence, lastHash,
        NewRow(lib, lastSequence, lastHash, id, e, now));
      rows := rows + [AuditRow(id, Some(sequence), Entry(lib.format(timestamp), e, Some(lastHash), Some(eventHash)))];
      lastSequence := sequence;
      lastHash := eventHash;
    }

    /** One turn of the verifier's loop: the breaks pushed for one row. */
    static method CheckRow(lib: Library, row: AuditRow, expected: string) returns (breaks: seq<ChainBreak>)
      ensures breaks == BreaksOf(AuditScheme(lib), row, expected)
    {
      breaks := [];
      var sequence := row.sequence.GetOr(0);
      if row.entry.Previous() != expected {
        breaks := breaks + [ChainBreak(sequence, row.id, PreviousHashMismatch)];
      }
      match lib.parse(row.entry.timestamp) {
        case None =>
          breaks := breaks + [ChainBreak(sequence, row.id, TimestampUnparseable)];
        case Some(timestamp) =>
          var recomputed := lib.hash(CanonicalEventString(lib, row.entry.Previous(), timestamp, row.entry.event));
          if recomputed != row.entry.Hash() {
            breaks := breaks + [ChainBreak(sequence, row.id, EventHashMismatch)];
          }
      }
    }

    static method ScanRows(lib: Library, selected: seq<AuditRow>) returns (breaks: seq<ChainBreak>)
      ensures breaks == Breaks(AuditScheme(lib), selected, |selected|)
    {
      breaks := [];
      var expected := GenesisHash();
      for n := 0 to |selected|
        invariant breaks == Breaks(AuditScheme(lib), selected, n)
        invariant expected == LinkAt(AuditScheme(lib), Entries(selected), n)
      {
        var found := CheckRow(lib, selected[n], expected);
        breaks := breaks + found;
        expected := selected[n].entry.Hash();
      }
    }

    /** Never reads the tip: the report depends on `rows` alone. */
    method VerifyChain(lib: Library) returns (report: Report)
      ensures report.eventsChecked == |Selected(rows)|
      ensures report.breaks == Breaks(AuditScheme(lib), Selected(rows), |Selected(rows)|)
      ensures report.intact <==> report.breaks == []
      ensures report.intact <==> Intact(AuditScheme(lib), Entries(Selected(rows)))
      ensures exists parts :: IsExplanation(lib, Selected(rows), parts) && report.breaks == Concat(parts)
    {
      var selected := Selected(rows);
      var breaks := ScanRows(lib, selected);
      var parts := Explain(lib, selected, |selected|);
      NoBreaksIffRowsHold(AuditScheme(lib), selected, |selected|);
      report := Report(|selected|, breaks == [], breaks);
    }
  }

  /** On honestly written tables the verifier's verdict is intact, with every numbered event checked. */
  lemma HonestTablesVerify(s: AuditReading, rows: seq<AuditRow>, lastSequence: int, lastHash: string)
    requires Honest(s, rows, lastSequence, lastHash) && ReadableWhenConsistent(s)
    ensures |Selected(rows)| == lastSequence
    ensures Breaks(s, Selected(rows), |Selected(rows)|) == []
  {
    HonestIsSorted(s, rows, lastSequence, lastHash);
    NoBreaksIffRowsHold(s, Selected(rows), |Selected(rows)|);
    assert forall i :: 0 <= i < |Selected(rows)| ==> RowHolds(s, Entries(Selected(rows)), i);
  }

  lemma AuditReadingIsReadable(lib: Library)
    ensures ReadableWhenConsistent(AuditScheme(lib))
  {
  }

  /**
   The stored tip pins the whole history: a table that verifies and ends in the hash the
   tip holds has every event of the honest table, with the same hashed content.
   */
  lemma StoredTipCommits(lib: Library, rows: seq<AuditRow>, lastSequence: int, lastHash: string, other: seq<AuditRow>)
    requires Lawful(lib) && Honest(AuditScheme(lib), rows, lastSequence, lastHash) && Clean(Entries(Numbered(rows)))
    requires Breaks(AuditScheme(lib), Selected(other), |Selected(other)|) == []
    requires EndHash(AuditScheme(lib), Entries(Selected(other))) == lastHash
    ensures |Selected(other)| == lastSequence
    ensures forall i :: 0 <= i < lastSequence ==>
      Content(lib, Selected(other)[i].entry) == Content(lib, Numbered(rows)[i].entry)
  {
    var s := AuditScheme(lib);
    var honest, found := Entries(Numbered(rows)), Entries(Selected(other));
    AuditReadingIsReadable(lib);
    NoBreaksIffRowsHold(s, Selected(other), |Selected(other)|);
    CleanChainIsCommitted(lib, honest);
    TipCommits(s, honest, found);
    forall i | 0 <= i < lastSequence
      ensures Content(lib, Selected(other)[i].entry) == Content(lib, Numbered(rows)[i].entry)
    {
      assert s.content(honest[i]) == s.content(found[i]);
    }
  }

  /**
   A table holding only entries of an honest one, in whatever order and number, verifies
   exactly when what it holds is an initial part of the honest history.
   */
  lemma PartialTableVerifiesIffPrefix(
    lib: Library, rows: seq<AuditRow>, lastSequence: int, lastHash: string, other: seq<AuditRow>)
    requires Lawful(lib) && Honest(AuditScheme(lib), rows, lastSequence, lastHash) && Clean(Entries(Numbered(rows)))
    requires forall e :: e in Entries(Selected(other)) ==> e in Entries(Numbered(rows))
    ensures Breaks(AuditScheme(lib), Selected(other), |Selected(other)|) == [] <==>
            Entries(Selected(other)) <= Entries(Numbered(rows))
  {
    AuditReadingIsReadable(lib);
    NoBreaksIffRowsHold(AuditScheme(lib), Selected(other), |Selected(other)|);
    CleanChainIsCommitted(lib, Entries(Numbered(rows)));
    RearrangementIntactIffPrefix(AuditScheme(lib), Entries(Numbered(rows)), Entries(Selected(other)));
  }
}
