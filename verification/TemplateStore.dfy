/** The table of biometric templates under enrolment and revocation, and searches over it. */
module TemplateStore {
  import opened Options
  import opened Backends
  import opened RealMath
  import opened Embedding
  import opened Ranking
  import opened Templates

  /** What an insert depends on besides the rows: the engine and its constraints. */
  datatype Schema = Schema(
    backend: Backend,
    parseUuid: string -> Option<string>,
    candidates: set<string>,
    vectorColumn: bool)

  datatype Enrolment = Enrolment(
    candidateId: string,
    modelName: string,
    modelVersion: string,
    embedding: Vector,
    qualityScore: real,
    sourceReference: Option<string>,
    pgvectorReady: bool)

  datatype InsertResult = Inserted(row: Template) | NotAUuid | Refused

  function Ids(rows: seq<Template>): set<string> {
    set t | t in rows :: t.id
  }

  /**
   What inserting a template under the generated key `id` does. PostgreSQL always names the vector
   column, so without that column the insert is refused even though no vector would be stored.
   */
  function InsertOutcome(schema: Schema, rows: seq<Template>, id: string, e: Enrolment): InsertResult {
    match schema.backend
    case Postgres =>
      (match schema.parseUuid(e.candidateId)
       case None => NotAUuid
       case Some(candidate) =>
         if !schema.vectorColumn || candidate !in schema.candidates || id in Ids(rows) then Refused
         else
           var vector := if |e.embedding| == EMBEDDING_DIM && e.pgvectorReady then Some(e.embedding) else None;
           Inserted(Template(id, candidate, e.modelName, e.modelVersion, e.embedding, e.qualityScore, e.sourceReference,
             vector, None)))
    case Sqlite =>
      if id in Ids(rows) then Refused
      else
        Inserted(Template(id, e.candidateId, e.modelName, e.modelVersion, e.embedding, e.qualityScore,
          e.sourceReference,
          None, None))
  }

  function AfterInsert(schema: Schema, rows: seq<Template>, id: string, e: Enrolment): seq<Template> {
    match InsertOutcome(schema, rows, id, e)
    case Inserted(row) => rows + [row]
    case _ => rows
  }

  function RevokeTarget(schema: Schema, templateId: string): Option<string> {
    if schema.backend == Postgres then schema.parseUuid(templateId) else Some(templateId)
  }

  predicate Revocable(t: Template, target: Option<string>) {
    target == Some(t.id) && t.revokedAt.None?
  }

  function RevokedIf(t: Template, target: Option<string>, now: string): Template {
    if Revocable(t, target) then t.(revokedAt := Some(now)) else t
  }

  function AfterRevoke(schema: Schema, rows: seq<Template>, templateId: string, now: string): (after: seq<Template>)
    ensures |after| == |rows|
    ensures forall i :: 0 <= i < |rows| ==> after[i] == RevokedIf(rows[i], RevokeTarget(schema, templateId), now)
  {
    seq(|rows|, i requires 0 <= i < |rows| => RevokedIf(rows[i], RevokeTarget(schema, templateId), now))
  }

  /** The vector column holds vectors of one dimension. */
  ghost predicate ColumnTyped(rows: seq<Template>) {
    forall t :: t in rows && t.vector.Some? ==> |t.vector.value| == EMBEDDING_DIM
  }

  ghost predicate UniqueIds(rows: seq<Template>) {
    forall i, j :: 0 <= i < j < |rows| ==> rows[i].id != rows[j].id
  }

  lemma {:induction false} ActiveConcat(rows: seq<Template>, row: Template, name: string, version: string)
    ensures Active(rows + [row], name, version) == Active(rows, name, version) + Active([row], name, version)
  {
    if rows == [] {
      assert rows + [row] == [row];
    } else {
      assert (rows + [row])[1..] == rows[1..] + [row];
      ActiveConcat(rows[1..], row, name, version);
    }
  }

  lemma ActiveWithOneMore(rows: seq<Template>, row: Template)
    requires row.revokedAt.None?
    ensures forall name, version ::
      Active(rows + [row], name, version) ==
        Active(rows, name, version) + if name == row.modelName && version == row.modelVersion then [row] else []
  {
    forall name, version
      ensures Active(rows + [row], name, version) ==
        Active(rows, name, version) + if name == row.modelName && version == row.modelVersion then [row] else []
    {
      ActiveConcat(rows, row, name, version);
    }
  }

  /**
   Without its vector column PostgreSQL refuses exactly the enrolments it would otherwise store; every
   other outcome, on either engine, is the one with the column.
   */
  lemma MissingColumnRefusesIff(schema: Schema, rows: seq<Template>, id: string, e: Enrolment)
    ensures
      var complete := InsertOutcome(schema.(vectorColumn := true), rows, id, e);
      InsertOutcome(schema, rows, id, e) ==
        if schema.backend == Postgres && !schema.vectorColumn && complete.Inserted? then Refused else complete
    ensures
      schema.backend == Postgres && schema.parseUuid(e.candidateId).Some?
      && schema.parseUuid(e.candidateId).value in schema.candidates && id !in Ids(rows)
      ==> (InsertOutcome(schema, rows, id, e).Refused? <==> !schema.vectorColumn)
  {
  }

  function AnyText(): string -> Option<string> {
    (s: string) => Some(s)
  }

  /** A first enrolment of a known candidate that asks for no vector at all fails without the column. */
  lemma NoFallbackWithoutColumn(e: Enrolment, id: string)
    requires !e.pgvectorReady
    ensures InsertOutcome(Schema(Postgres, AnyText(), {e.candidateId}, false), [], id, e).Refused?
    ensures InsertOutcome(Schema(Postgres, AnyText(), {e.candidateId}, true), [], id, e).Inserted?
  {
    MissingColumnRefusesIff(Schema(Postgres, AnyText(), {e.candidateId}, false), [], id, e);
  }

  class Store {
    const schema: Schema
    var rows: seq<Template>

    constructor (schema: Schema)
      ensures this.schema == schema && rows == []
    {
      this.schema := schema;
      rows := [];
    }

    /**
     A stored enrolment is one new last row: active, under the generated key, with the enrolment's
     data and a copy of its embedding in the vector column only on a ready PostgreSQL at full
     dimension. Whatever the outcome, every earlier row stays, and so do the table's invariants.
     */
    method InsertTemplate(id: string, e: Enrolment) returns (result: InsertResult)
      modifies this
      ensures result == InsertOutcome(schema, old(rows), id, e)
      ensures rows == old(rows) + (if result.Inserted? then [result.row] else [])
      ensures
        var candidate := if schema.backend == Postgres then schema.parseUuid(e.candidateId) else Some(e.candidateId);
        && (result.Inserted? <==>
              && id !in Ids(old(rows)) && candidate.Some?
              && (schema.backend == Postgres ==> schema.vectorColumn && candidate.value in schema.candidates))
        && (result.Inserted? ==>
              && result.row.id == id && Some(result.row.candidateId) == candidate
              && result.row.revokedAt.None? && result.row.embedding == e.embedding
              && (result.row.modelName, result.row.modelVersion) == (e.modelName, e.modelVersion)
              && (result.row.qualityScore, result.row.sourceReference) == (e.qualityScore, e.sourceReference)
              && (result.row.vector.Some? <==>
                    schema.backend == Postgres && e.pgvectorReady && |e.embedding| == EMBEDDING_DIM))
      ensures UniqueIds(old(rows)) ==> UniqueIds(rows)
      ensures FaithfulIndex(old(rows)) && ColumnTyped(old(rows)) ==> FaithfulIndex(rows) && ColumnTyped(rows)
      ensures forall name, version ::
        Active(rows, name, version) ==
          Active(old(rows), name, version)
          + if result.Inserted? && name == e.modelName && version == e.modelVersion then [result.row] else []
    {
      assert forall i :: 0 <= i < |rows| ==> rows[i].id in Ids(rows);
      var candidate := e.candidateId;
      if schema.backend == Postgres {
        var parsed := schema.parseUuid(e.candidateId);
        if parsed.None? {
          return NotAUuid;
        }
        candidate := parsed.value;
        if !schema.vectorColumn || candidate !in schema.candidates {
          return Refused;
        }
      }
      if id in Ids(rows) {
        return Refused;
      }
      var vector := None;
      if schema.backend == Postgres && |e.embedding| == EMBEDDING_DIM && e.pgvectorReady {
        vector := Some(e.embedding);
      }
      var row := Template(id, candidate, e.modelName, e.modelVersion, e.embedding, e.qualityScore, e.sourceReference,
        vector, None);
      ActiveWithOneMore(rows, row);
      rows := rows + [row];
      result := Inserted(row);
    }

    /** The guarded UPDATE, row by row; reports whether it touched anything. */
    method RevokeTemplate(templateId: string, now: string) returns (revoked: bool)
      modifies this
      ensures rows == AfterRevoke(schema, old(rows), templateId, now)
      ensures
        var key := if schema.backend == Postgres then schema.parseUuid(templateId) else Some(templateId);
        && |rows| == |old(rows)|
        && (forall i :: 0 <= i < |rows| ==>
              var t := old(rows)[i];
              rows[i] == if Some(t.id) == key && t.revokedAt.None? then t.(revokedAt := Some(now)) else t)
        && (revoked <==> exists t :: t in old(rows) && Some(t.id) == key && t.revokedAt.None?)
        && forall t, name, version :: t in Active(rows, name, version) ==> Some(t.id) != key
      ensures UniqueIds(old(rows)) ==> UniqueIds(rows)
      ensures UniqueIds(old(rows)) ==>
        forall i, j :: 0 <= i < |rows| && 0 <= j < |rows| && rows[i] != old(rows)[i] && rows[j] != old(rows)[j] ==>
          i == j
    {
      revoked := false;
      var target := RevokeTarget(schema, templateId);
      for i := 0 to |rows|
        invariant |rows| == |old(rows)|
        invariant forall j :: 0 <= j < i ==> rows[j] == RevokedIf(old(rows)[j], target, now)
        invariant forall j :: i <= j < |rows| ==> rows[j] == old(rows)[j]
        invariant revoked <==> exists j :: 0 <= j < i && Revocable(old(rows)[j], target)
      {
        if Revocable(rows[i], target) {
          rows := rows[i := rows[i].(revokedAt := Some(now))];
          revoked := true;
        }
      }
    }

    /** Chooses the indexed query on a ready PostgreSQL with a full-dimension probe, the scan otherwise. */
    method SearchTopK(
      sqrt: real -> real, modelName: string, modelVersion: string, probe: Vector, k: nat, pgvectorReady: bool)
      returns (ranked: seq<CandidateMatch>)
      requires ColumnTyped(rows)
      ensures schema.backend == Postgres && pgvectorReady && |probe| == EMBEDDING_DIM ==>
        SameDimension(Active(rows, modelName, modelVersion), probe)
      ensures
        if schema.backend == Postgres && pgvectorReady && |probe| == EMBEDDING_DIM then
          IsIndexAnswer(sqrt, Active(rows, modelName, modelVersion), probe, k, ranked)
        else IsScanAnswer(sqrt, Active(rows, modelName, modelVersion), probe, k, ranked)
    {
      if UsesIndex(schema, probe, pgvectorReady) {
        ranked := SearchTopKIndexed(sqrt, Active(rows, modelName, modelVersion), probe, k);
      } else {
        ranked := TopKMatches(sqrt, Active(rows, modelName, modelVersion), probe, k);
      }
    }
  }

  predicate UsesIndex(schema: Schema, probe: Vector, pgvectorReady: bool) {
    schema.backend == Postgres && pgvectorReady && |probe| == EMBEDDING_DIM
  }

  // ----- runs -----

  datatype Change = Enrol(id: string, enrolment: Enrolment) | Revoke(templateId: string, now: string)

  function Changed(schema: Schema, rows: seq<Template>, change: Change): seq<Template> {
    match change
    case Enrol(id, e) => AfterInsert(schema, rows, id, e)
    case Revoke(templateId, now) => AfterRevoke(schema, rows, templateId, now)
  }

  function Run(schema: Schema, rows: seq<Template>, changes: seq<Change>): seq<Template>
    decreases changes
  {
    if changes == [] then rows else Run(schema, Changed(schema, rows, changes[0]), changes[1..])
  }

  /** Rows are only ever appended, and an existing row changes only by being revoked once. */
  ghost predicate Grown(before: seq<Template>, after: seq<Template>) {
    && |before| <= |after|
    && forall i :: 0 <= i < |before| ==>
         && after[i] == before[i].(revokedAt := after[i].revokedAt)
         && (before[i].revokedAt.Some? ==> after[i] == before[i])
  }

  lemma ChangeGrows(schema: Schema, rows: seq<Template>, change: Change)
    requires UniqueIds(rows)
    ensures UniqueIds(Changed(schema, rows, change)) && Grown(rows, Changed(schema, rows, change))
  {
    assert forall i :: 0 <= i < |rows| ==> rows[i].id in Ids(rows);
  }

  /** In every run keys stay unique, no enrolment is lost or altered, and revocation is permanent. */
  lemma {:induction false} RunGrows(schema: Schema, rows: seq<Template>, changes: seq<Change>)
    requires UniqueIds(rows)
    ensures UniqueIds(Run(schema, rows, changes)) && Grown(rows, Run(schema, rows, changes))
    decreases changes
  {
    if changes != [] {
      var next := Changed(schema, rows, changes[0]);
      ChangeGrows(schema, rows, changes[0]);
      RunGrows(schema, next, changes[1..]);
    }
  }

  /** A template once revoked is found by no search after any further run. */
  lemma RevokedIsNeverFound(
    schema: Schema, rows: seq<Template>, templateId: string, now: string, changes: seq<Change>, id: string,
    modelName: string, modelVersion: string)
    requires UniqueIds(rows) && id in Ids(rows)
    requires Some(id) == if schema.backend == Postgres then schema.parseUuid(templateId) else Some(templateId)
    ensures
      var after := Run(schema, AfterRevoke(schema, rows, templateId, now), changes);
      forall t :: t in Active(after, modelName, modelVersion) ==> t.id != id
  {
    hide Run;
    var revoked := AfterRevoke(schema, rows, templateId, now);
    var after := Run(schema, revoked, changes);
    ChangeGrows(schema, rows, Revoke(templateId, now));
    RunGrows(schema, revoked, changes);
    var i :| 0 <= i < |rows| && rows[i].id == id;
    assert revoked[i].revokedAt.Some? && after[i] == revoked[i];
    forall t | t in Active(after, modelName, modelVersion) ensures t.id != id {
      var j :| 0 <= j < |after| && after[j] == t;
      assert j != i;
    }
  }

  /** An enrolment whose embedding the index can take. */
  ghost predicate Indexable(sqrt: real -> real, change: Change) {
    change.Enrol? ==>
      && change.enrolment.pgvectorReady
      && |change.enrolment.embedding| == EMBEDDING_DIM
      && Norm(sqrt, change.enrolment.embedding) > NORM_FLOOR
  }

  ghost predicate FullyIndexed(sqrt: real -> real, rows: seq<Template>) {
    forall t :: t in rows ==>
      t.vector == Some(t.embedding) && |t.embedding| == EMBEDDING_DIM && Norm(sqrt, t.embedding) > NORM_FLOOR
  }

  lemma {:induction false} RunStaysIndexed(
    sqrt: real -> real, schema: Schema, rows: seq<Template>, changes: seq<Change>)
    requires schema.backend == Postgres && FullyIndexed(sqrt, rows)
    requires forall change :: change in changes ==> Indexable(sqrt, change)
    ensures FullyIndexed(sqrt, Run(schema, rows, changes))
    decreases changes
  {
    hide Norm;
    if changes != [] {
      var next := Changed(schema, rows, changes[0]);
      assert changes[0] in changes;
      forall t | t in next
        ensures t.vector == Some(t.embedding) && |t.embedding| == EMBEDDING_DIM
          && Norm(sqrt, t.embedding) > NORM_FLOOR {
        var i :| 0 <= i < |next| && next[i] == t;
        if i < |rows| {
          assert rows[i] in rows;
        }
      }
      RunStaysIndexed(sqrt, schema, next, changes[1..]);
    }
  }

  /** With the index ready throughout, the query and the scan agree after any run of enrolments and revocations. */
  lemma IndexAgreesWithScan(
    sqrt: real -> real, schema: Schema, changes: seq<Change>, modelName: string, modelVersion: string,
    probe: Vector, k: nat, scanned: seq<CandidateMatch>, indexed: seq<CandidateMatch>)
    requires LawfulSqrt(sqrt) && schema.backend == Postgres
    requires forall change :: change in changes ==> Indexable(sqrt, change)
    requires |probe| == EMBEDDING_DIM && Norm(sqrt, probe) > NORM_FLOOR
    ensures
      var active := Active(Run(schema, [], changes), modelName, modelVersion);
      && SameDimension(active, probe)
      && (IsScanAnswer(sqrt, active, probe, k, scanned) && IsIndexAnswer(sqrt, active, probe, k, indexed)
          ==> SameRanking(scanned, indexed))
  {
    hide Norm, IsScanAnswer, IsIndexAnswer, SameRanking, LawfulSqrt, Score, Distance;
    RunStaysIndexed(sqrt, schema, [], changes);
    var active := Active(Run(schema, [], changes), modelName, modelVersion);
    forall t | t in active && t.vector.Some? ensures |t.vector.value| == |probe| && ScoreAgrees(sqrt, t, probe) {
      ScoreAgreesIff(sqrt, t, probe);
    }
    if IsScanAnswer(sqrt, active, probe, k, scanned) && IsIndexAnswer(sqrt, active, probe, k, indexed) {
      CoveredAnswersAgree(sqrt, active, probe, k, scanned, indexed);
    }
  }

  /** Every row of any run carries its own embedding, at full dimension, in the index or no vector at all. */
  lemma {:induction false} RunKeepsIndexFaithful(schema: Schema, rows: seq<Template>, changes: seq<Change>)
    requires FaithfulIndex(rows) && ColumnTyped(rows)
    ensures FaithfulIndex(Run(schema, rows, changes)) && ColumnTyped(Run(schema, rows, changes))
    decreases changes
  {
    if changes != [] {
      var next := Changed(schema, rows, changes[0]);
      forall t | t in next && t.vector.Some? ensures t.vector.value == t.embedding && |t.embedding| == EMBEDDING_DIM {
        var i :| 0 <= i < |next| && next[i] == t;
        if i < |rows| {
          assert rows[i] in rows;
        }
      }
      RunKeepsIndexFaithful(schema, next, changes[1..]);
    }
  }
}
