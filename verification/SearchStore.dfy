/** Finalising a queued search: one transaction under the unique (search, candidate) index. */
module SearchStore {
  import opened Options
  import opened Backends
  import opened Ranking

  datatype SearchStatus = Queued | Processing | Completed | Failed

  datatype SearchCandidate = SearchCandidate(searchId: string, candidateId: string, score: Similarity)

  datatype FinalizeResult = Finalized | NoSuchSearch | DatabaseError

  function Pairs(found: seq<SearchCandidate>): set<(string, string)> {
    set row | row in found :: (row.searchId, row.candidateId)
  }

  ghost predicate UniquePairs(found: seq<SearchCandidate>) {
    forall i, j :: 0 <= i < j < |found| ==>
      (found[i].searchId, found[i].candidateId) != (found[j].searchId, found[j].candidateId)
  }

  function Rows(searchId: string, ms: seq<CandidateMatch>): (rows: seq<SearchCandidate>)
    ensures |rows| == |ms|
    ensures forall i :: 0 <= i < |ms| ==> rows[i] == SearchCandidate(searchId, ms[i].candidateId, ms[i].score)
  {
    seq(|ms|, i requires 0 <= i < |ms| => SearchCandidate(searchId, ms[i].candidateId, ms[i].score))
  }

  /** What one result inserts: PostgreSQL skips a candidate whose id is not a UUID. */
  function EntryOf(backend: Backend, parseUuid: string -> Option<string>, m: CandidateMatch): seq<CandidateMatch> {
    if backend == Sqlite then [m]
    else
      match parseUuid(m.candidateId)
      case None => []
      case Some(candidate) => [m.(candidateId := candidate)]
  }

  /** The results that are inserted, in order. */
  function Insertable(
    backend: Backend, parseUuid: string -> Option<string>, scored: seq<CandidateMatch>): seq<CandidateMatch> {
    if scored == [] then []
    else Insertable(backend, parseUuid, scored[..|scored| - 1]) + EntryOf(backend, parseUuid, scored[|scored| - 1])
  }

  lemma {:induction false} InsertableHas(
    backend: Backend, parseUuid: string -> Option<string>, scored: seq<CandidateMatch>, m: CandidateMatch)
    ensures m in Insertable(backend, parseUuid, scored) <==>
      exists n :: n in scored && n.score == m.score
        && (if backend == Postgres then parseUuid(n.candidateId) else Some(n.candidateId)) == Some(m.candidateId)
  {
    if scored != [] {
      var earlier, last := scored[..|scored| - 1], scored[|scored| - 1];
      InsertableHas(backend, parseUuid, earlier, m);
      assert forall n :: n in scored <==> n in earlier || n == last;
    }
  }

  function Key(backend: Backend, parseUuid: string -> Option<string>, searchId: string): Option<string> {
    if backend == Postgres then parseUuid(searchId) else Some(searchId)
  }

  /** `ms` can be added under `searchId` without repeating a candidate. */
  ghost predicate Fits(found: seq<SearchCandidate>, searchId: string, ms: seq<CandidateMatch>) {
    && Distinct(ms)
    && forall m :: m in ms ==> (searchId, m.candidateId) !in Pairs(found)
  }

  class Store {
    const backend: Backend
    const parseUuid: string -> Option<string>
    var searches: map<string, SearchStatus>
    var found: seq<SearchCandidate>

    constructor (backend: Backend, parseUuid: string -> Option<string>)
      ensures this.backend == backend && this.parseUuid == parseUuid && searches == map[] && found == []
    {
      this.backend := backend;
      this.parseUuid := parseUuid;
      searches := map[];
      found := [];
    }

    /**
     Marks the search processing, inserts every result and marks the search completed, or rolls
     back. For an unknown search PostgreSQL fails at the final UPDATE ... RETURNING, while SQLite
     commits the rows it inserted and reports no search.
     */
    method FinalizeQueuedSearch(searchId: string, scored: seq<CandidateMatch>) returns (result: FinalizeResult)
      modifies this
      ensures
        var key := if backend == Postgres then parseUuid(searchId) else Some(searchId);
        var ms := Insertable(backend, parseUuid, scored);
        if key.None? then result.NoSuchSearch? && found == old(found) && searches == old(searches)
        else if !Fits(old(found), key.value, ms) then result.DatabaseError? && found == old(found)
          && searches == old(searches)
        else if key.value in old(searches) then
          result.Finalized? && found == old(found) + Rows(key.value, ms)
            && searches == old(searches)[key.value := Completed]
        else
          && searches == old(searches)
          && if backend == Postgres then result.DatabaseError? && found == old(found)
             else result.NoSuchSearch? && found == old(found) + Rows(key.value, ms)
    {
      hide Fits;
      var key := Key(backend, parseUuid, searchId);
      if key.None? {
        return NoSuchSearch;
      }
      var search := key.value;
      var txSearches := if search in searches then searches[search := Processing] else searches;
      var ok, txFound := InsertAll(backend, parseUuid, found, search, scored);
      if !ok || (backend == Postgres && search !in txSearches) {
        return DatabaseError;
      }
      result := NoSuchSearch;
      if search in txSearches {
        txSearches := txSearches[search := Completed];
        result := Finalized;
      }
      searches, found := txSearches, txFound;
    }
  }

  /** Inserts the results one by one inside the transaction, stopping at the first index violation. */
  method InsertAll(
    backend: Backend,
    parseUuid: string -> Option<string>, found: seq<SearchCandidate>, search: string, scored: seq<CandidateMatch>)
    returns (ok: bool, after: seq<SearchCandidate>)
    ensures ok <==> Fits(found, search, Insertable(backend, parseUuid, scored))
    ensures ok ==> after == found + Rows(search, Insertable(backend, parseUuid, scored))
  {
    hide Pairs, Fits, Insertable;
    after := found;
    FitsNothing(found, search);
    NothingInsertable(backend, parseUuid);
    for i := 0 to |scored|
      invariant after == found + Rows(search, Insertable(backend, parseUuid, scored[..i]))
      invariant Fits(found, search, Insertable(backend, parseUuid, scored[..i]))
    {
      ghost var before := Insertable(backend, parseUuid, scored[..i]);
      InsertableStep(backend, parseUuid, scored, i);
      if backend == Postgres && parseUuid(scored[i].candidateId).None? {
        assert before + [] == before;
        continue;
      }
      var candidate := if backend == Postgres then parseUuid(scored[i].candidateId).value else scored[i].candidateId;
      ghost var m := CandidateMatch(candidate, scored[i].score);
      assert Insertable(backend, parseUuid, scored[..i + 1]) == before + [m];
      FitsWithOneMore(found, search, before, m);
      if (search, candidate) in Pairs(after) {
        InsertablePrefix(backend, parseUuid, scored, i + 1);
        FitsPrefix(found, search, before + [m], Insertable(backend, parseUuid, scored));
        return false, after;
      }
      assert Rows(search, before + [m]) == Rows(search, before) + [SearchCandidate(search, candidate, scored[i].score)];
      after := after + [SearchCandidate(search, candidate, scored[i].score)];
    }
    assert scored[..|scored|] == scored;
    ok := true;
  }

  lemma NothingInsertable(backend: Backend, parseUuid: string -> Option<string>)
    ensures Insertable(backend, parseUuid, []) == []
  {
  }

  lemma InsertableStep(backend: Backend, parseUuid: string -> Option<string>, scored: seq<CandidateMatch>, i: nat)
    requires i < |scored|
    ensures Insertable(backend, parseUuid, scored[..i + 1])
      == Insertable(backend, parseUuid, scored[..i]) + EntryOf(backend, parseUuid, scored[i])
  {
    assert scored[..i + 1][..i] == scored[..i];
  }

  lemma {:induction false} InsertablePrefix(
    backend: Backend, parseUuid: string -> Option<string>, scored: seq<CandidateMatch>, n: nat)
    requires n <= |scored|
    ensures Insertable(backend, parseUuid, scored[..n]) <= Insertable(backend, parseUuid, scored)
  {
    if n == |scored| {
      assert scored[..n] == scored;
    } else {
      assert scored[..|scored| - 1][..n] == scored[..n];
      InsertablePrefix(backend, parseUuid, scored[..|scored| - 1], n);
    }
  }

  lemma FitsPrefix(found: seq<SearchCandidate>, search: string, ms: seq<CandidateMatch>, all: seq<CandidateMatch>)
    requires ms <= all
    ensures Fits(found, search, all) ==> Fits(found, search, ms)
  {
  }

  lemma FitsNothing(found: seq<SearchCandidate>, search: string)
    ensures Fits(found, search, []) && found + Rows(search, []) == found
  {
  }

  lemma PairInserted(found: seq<SearchCandidate>, search: string, ms: seq<CandidateMatch>, c: string)
    ensures (search, c) in Pairs(found + Rows(search, ms)) <==> (search, c) in Pairs(found) || c in Candidates(ms)
  {
    var rows := Rows(search, ms);
    if c in Candidates(ms) {
      var i :| 0 <= i < |ms| && ms[i].candidateId == c;
      assert rows[i] in found + rows;
    }
  }

  lemma DistinctWithOneMore(ms: seq<CandidateMatch>, m: CandidateMatch)
    ensures Distinct(ms + [m]) <==> Distinct(ms) && m.candidateId !in Candidates(ms)
  {
    if Distinct(ms + [m]) {
      var more := ms + [m];
      assert forall i :: 0 <= i < |ms| ==> more[i] == ms[i];
      assert forall i :: 0 <= i < |ms| ==> more[i].candidateId != more[|ms|].candidateId;
    } else {
      var i, j :| 0 <= i < j < |ms + [m]| && (ms + [m])[i].candidateId == (ms + [m])[j].candidateId;
      assert j == |ms| ==> ms[i].candidateId in Candidates(ms);
    }
  }

  /** One more result fits exactly when its pair is not in the table yet. */
  lemma FitsWithOneMore(found: seq<SearchCandidate>, search: string, ms: seq<CandidateMatch>, m: CandidateMatch)
    ensures Fits(found, search, ms + [m]) <==>
      Fits(found, search, ms) && (search, m.candidateId) !in Pairs(found + Rows(search, ms))
  {
    PairInserted(found, search, ms, m.candidateId);
    DistinctWithOneMore(ms, m);
    assert m in ms + [m];
  }

  lemma UniqueWithOneMore(found: seq<SearchCandidate>, row: SearchCandidate)
    ensures UniquePairs(found + [row]) <==> UniquePairs(found) && (row.searchId, row.candidateId) !in Pairs(found)
  {
    if UniquePairs(found + [row]) {
      var more := found + [row];
      assert forall i :: 0 <= i < |found| ==> more[i] == found[i];
      assert forall i :: 0 <= i < |found| ==>
        (more[i].searchId, more[i].candidateId) != (more[|found|].searchId, more[|found|].candidateId);
    } else {
      var i, j :| 0 <= i < j < |found + [row]|
        && ((found + [row])[i].searchId, (found + [row])[i].candidateId)
          == ((found + [row])[j].searchId, (found + [row])[j].candidateId);
      assert j == |found| ==> found[i] in found;
    }
  }

  /** Fitting is exactly what keeps the unique index intact. */
  lemma {:induction false} FitsIffIndexHolds(found: seq<SearchCandidate>, search: string, ms: seq<CandidateMatch>)
    requires UniquePairs(found)
    ensures UniquePairs(found + Rows(search, ms)) <==> Fits(found, search, ms)
  {
    hide UniquePairs, Fits, Pairs;
    if ms == [] {
      FitsNothing(found, search);
    } else {
      var n := |ms| - 1;
      var row := SearchCandidate(search, ms[n].candidateId, ms[n].score);
      FitsIffIndexHolds(found, search, ms[..n]);
      assert ms == ms[..n] + [ms[n]];
      FitsWithOneMore(found, search, ms[..n], ms[n]);
      assert found + Rows(search, ms) == (found + Rows(search, ms[..n])) + [row];
      UniqueWithOneMore(found + Rows(search, ms[..n]), row);
    }
  }

  /** The canonical text of a UUID parses to itself. */
  ghost predicate CanonicalUuid(parseUuid: string -> Option<string>, id: string) {
    parseUuid(id) == Some(id)
  }

  lemma {:induction false} CanonicalIsInsertable(
    backend: Backend, parseUuid: string -> Option<string>, ms: seq<CandidateMatch>)
    requires backend == Postgres ==> forall m :: m in ms ==> CanonicalUuid(parseUuid, m.candidateId)
    ensures Insertable(backend, parseUuid, ms) == ms
  {
    if ms != [] {
      var n := |ms| - 1;
      assert ms[n] in ms;
      CanonicalIsInsertable(backend, parseUuid, ms[..n]);
      assert ms == ms[..n] + [ms[n]];
    }
  }

  /**
   A Top-K answer written to a search without results never violates the unique index, and every
   one of its entries is stored. On PostgreSQL candidate ids come out of UUID columns.
   */
  lemma TopKFillsFreshSearch(
    backend: Backend, parseUuid: string -> Option<string>, best: map<string, Similarity>, k: nat,
      ms: seq<CandidateMatch>,
    found: seq<SearchCandidate>, search: string)
    requires IsTopK(best, k, ms)
    requires backend == Postgres ==> forall c :: c in best ==> CanonicalUuid(parseUuid, c)
    requires forall row :: row in found ==> row.searchId != search
    ensures Insertable(backend, parseUuid, ms) == ms && Fits(found, search, ms)
    ensures UniquePairs(found) ==> UniquePairs(found + Rows(search, ms))
  {
    CanonicalIsInsertable(backend, parseUuid, ms);
    if UniquePairs(found) {
      FitsIffIndexHolds(found, search, ms);
    }
  }

  /** Finalising the same search again is refused as soon as one result repeats. */
  lemma RepeatedResultDoesNotFit(
    found: seq<SearchCandidate>, search: string, first: seq<CandidateMatch>, second: seq<CandidateMatch>)
    requires Candidates(first) * Candidates(second) != {}
    ensures !Fits(found + Rows(search, first), search, second)
  {
    var c :| c in Candidates(first) * Candidates(second);
    PairInserted(found, search, first, c);
    var m :| m in second && m.candidateId == c;
  }
}
