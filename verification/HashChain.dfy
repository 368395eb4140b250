/**
 Hash chains in general: each row names the hash of the row before it and is checked
 against its own hash. What such a chain proves depends only on the hash committing to
 the row's content, not on how that content is written down.
 */
module HashChain {

  /** How a row is read: its predecessor's hash, its own hash, the hashed content, and the row's own check. */
  datatype Scheme<!Row, !Content> = Scheme(
    genesis: string,
    previous: Row -> string,
    hash: Row -> string,
    content: Row -> Content,
    consistent: Row -> bool)

  /** The hash that row `n` must name as its predecessor. */
  function LinkAt<Row, Content>(s: Scheme<Row, Content>, chain: seq<Row>, n: nat): string
    requires n <= |chain|
  {
    if n == 0 then s.genesis else s.hash(chain[n - 1])
  }

  function EndHash<Row, Content>(s: Scheme<Row, Content>, chain: seq<Row>): string {
    LinkAt(s, chain, |chain|)
  }

  /** Row `i` passes its own check and names its predecessor. */
  predicate RowHolds<Row, Content>(s: Scheme<Row, Content>, chain: seq<Row>, i: nat)
    requires i < |chain|
  {
    s.consistent(chain[i]) && s.previous(chain[i]) == LinkAt(s, chain, i)
  }

  ghost predicate Intact<Row, Content>(s: Scheme<Row, Content>, chain: seq<Row>) {
    forall i :: 0 <= i < |chain| ==> RowHolds(s, chain, i)
  }

  /** No other consistent row has this row's hash, unless it has the same content and predecessor. */
  ghost predicate Commits<Row(!new), Content>(s: Scheme<Row, Content>, row: Row) {
    forall other :: s.consistent(other) && s.hash(other) == s.hash(row) ==>
      s.content(other) == s.content(row) && s.previous(other) == s.previous(row)
  }

  ghost predicate AvoidsGenesis<Row(!new), Content>(s: Scheme<Row, Content>) {
    forall row :: s.consistent(row) ==> s.hash(row) != s.genesis
  }

  /** An intact chain of rows whose hashes commit to them. */
  ghost predicate Committed<Row(!new), Content>(s: Scheme<Row, Content>, chain: seq<Row>) {
    && Intact(s, chain)
    && AvoidsGenesis(s)
    && forall i :: 0 <= i < |chain| ==> Commits(s, chain[i])
  }

  lemma PrefixIsIntact<Row, Content>(s: Scheme<Row, Content>, chain: seq<Row>, n: nat)
    requires Intact(s, chain) && n <= |chain|
    ensures Intact(s, chain[..n])
  {
    forall i | 0 <= i < n ensures RowHolds(s, chain[..n], i) {
      assert RowHolds(s, chain, i);
    }
  }

  lemma ExtendIntact<Row, Content>(s: Scheme<Row, Content>, chain: seq<Row>, row: Row)
    requires Intact(s, chain)
    ensures Intact(s, chain + [row]) <==> s.consistent(row) && s.previous(row) == EndHash(s, chain)
  {
    var longer := chain + [row];
    var n := |chain|;
    assert RowHolds(s, longer, n) <==> s.consistent(row) && s.previous(row) == EndHash(s, chain);
    forall i | 0 <= i < n ensures RowHolds(s, longer, i) {
      assert RowHolds(s, chain, i);
    }
  }

  /**
   The last hash commits to the whole history: an intact chain ending in the same hash as
   a committed chain has the same length and the same content in every row.
   */
  lemma TipCommits<Row(!new), Content>(s: Scheme<Row, Content>, chain: seq<Row>, other: seq<Row>)
    requires Committed(s, chain) && Intact(s, other)
    requires EndHash(s, chain) == EndHash(s, other)
    ensures |chain| == |other|
    ensures forall i :: 0 <= i < |chain| ==>
      s.content(chain[i]) == s.content(other[i]) && s.hash(chain[i]) == s.hash(other[i])
  {
    LinkCommits(s, chain, |chain|, other, |other|);
  }

  lemma {:induction false} LinkCommits<Row(!new), Content>(
    s: Scheme<Row, Content>, chain: seq<Row>, n: nat, other: seq<Row>, m: nat)
    requires Committed(s, chain) && Intact(s, other)
    requires n <= |chain| && m <= |other| && LinkAt(s, chain, n) == LinkAt(s, other, m)
    ensures n == m
    ensures forall i :: 0 <= i < n ==>
      s.content(chain[i]) == s.content(other[i]) && s.hash(chain[i]) == s.hash(other[i])
    decreases n
  {
    if n > 0 {
      assert RowHolds(s, chain, n - 1);
    }
    if m > 0 {
      assert RowHolds(s, other, m - 1);
    }
    if n > 0 && m > 0 {
      assert RowHolds(s, other, m - 1) && RowHolds(s, chain, n - 1) && Commits(s, chain[n - 1]);
      LinkCommits(s, chain, n - 1, other, m - 1);
    }
  }

  /** No two rows of a committed chain share their hash. */
  lemma {:induction false} HashesAreDistinct<Row(!new), Content>(
    s: Scheme<Row, Content>, chain: seq<Row>, i: nat, j: nat)
    requires Committed(s, chain) && i < j < |chain|
    ensures s.hash(chain[i]) != s.hash(chain[j])
    decreases i
  {
    assert RowHolds(s, chain, i) && RowHolds(s, chain, j) && RowHolds(s, chain, j - 1) && Commits(s, chain[i]);
    if i > 0 {
      HashesAreDistinct(s, chain, i - 1, j - 1);
    }
  }

  /** A row's stored predecessor hash fixes its position. */
  lemma PositionFollowsLink<Row(!new), Content>(s: Scheme<Row, Content>, chain: seq<Row>, n: nat, k: nat)
    requires Committed(s, chain) && n <= |chain| && k < |chain|
    ensures s.previous(chain[k]) == LinkAt(s, chain, n) ==> k == n
  {
    assert RowHolds(s, chain, k);
    assert k > 0 ==> RowHolds(s, chain, k - 1);
    assert n > 0 ==> RowHolds(s, chain, n - 1);
    if 0 < k < n {
      HashesAreDistinct(s, chain, k - 1, n - 1);
    } else if 0 < n < k {
      HashesAreDistinct(s, chain, n - 1, k - 1);
    }
  }

  /**
   Any reordering, deletion or duplication of a committed chain's rows passes
   verification exactly when it is a prefix of the original chain.
   */
  lemma RearrangementIntactIffPrefix<Row(!new), Content>(s: Scheme<Row, Content>, chain: seq<Row>, other: seq<Row>)
    requires Committed(s, chain)
    requires forall row :: row in other ==> row in chain
    ensures Intact(s, other) <==> other <= chain
  {
    if Intact(s, other) {
      RowsInOriginalPlace(s, chain, other, |other|);
    }
    if other <= chain {
      assert chain[..|other|] == other;
      PrefixIsIntact(s, chain, |other|);
    }
  }

  lemma {:induction false} RowsInOriginalPlace<Row(!new), Content>(
    s: Scheme<Row, Content>, chain: seq<Row>, other: seq<Row>, n: nat)
    requires Committed(s, chain) && Intact(s, other)
    requires forall row :: row in other ==> row in chain
    requires n <= |other|
    ensures n <= |chain| && forall i :: 0 <= i < n ==> other[i] == chain[i]
  {
    if n > 0 {
      RowsInOriginalPlace(s, chain, other, n - 1);
      assert other[n - 1] in chain;
      var k :| 0 <= k < |chain| && chain[k] == other[n - 1];
      assert RowHolds(s, other, n - 1) && LinkAt(s, other, n - 1) == LinkAt(s, chain, n - 1);
      PositionFollowsLink(s, chain, n - 1, k);
    }
  }

  /** Deleting a block of rows is detected exactly when the block does not reach the end. */
  lemma DeletedBlockDetected<Row(!new), Content>(s: Scheme<Row, Content>, chain: seq<Row>, from: nat, to: nat)
    requires Committed(s, chain) && from < to <= |chain|
    ensures Intact(s, chain[..from] + chain[to..]) <==> to == |chain|
  {
    var other := chain[..from] + chain[to..];
    RearrangementIntactIffPrefix(s, chain, other);
    if to < |chain| {
      assert other[from] == chain[to];
      HashesAreDistinct(s, chain, from, to);
    } else {
      assert other == chain[..from];
    }
  }

  /** Exchanging two rows is always detected. */
  lemma SwappedRowsDetected<Row(!new), Content>(s: Scheme<Row, Content>, chain: seq<Row>, i: nat, j: nat)
    requires Committed(s, chain) && i < j < |chain|
    ensures !Intact(s, chain[i := chain[j]][j := chain[i]])
  {
    var other := chain[i := chain[j]][j := chain[i]];
    RearrangementIntactIffPrefix(s, chain, other);
    HashesAreDistinct(s, chain, i, j);
    assert other[i] == chain[j];
  }

  lemma EditKeepsLinks<Row, Content>(s: Scheme<Row, Content>, chain: seq<Row>, i: nat, edited: Row)
    requires i < |chain|
    ensures forall k :: 0 <= k <= |chain| && k != i + 1 ==> LinkAt(s, chain[i := edited], k) == LinkAt(s, chain, k)
    ensures LinkAt(s, chain[i := edited], i + 1) == s.hash(edited) && LinkAt(s, chain, i + 1) == s.hash(chain[i])
  {
  }

  /** A row that passes its own check in the place of `row`. */
  ghost predicate Rehashed<Row, Content>(s: Scheme<Row, Content>, edited: Row, row: Row) {
    s.consistent(edited) && s.previous(edited) == s.previous(row)
  }

  /**
   Replacing one row by anything else passes verification exactly when the replacement is
   consistent, keeps the predecessor, and either keeps content and hash or is the last row.
   */
  lemma ReplacedRowIntactIff<Row(!new), Content>(s: Scheme<Row, Content>, chain: seq<Row>, i: nat, edited: Row)
    requires Committed(s, chain) && i < |chain|
    ensures Intact(s, chain[i := edited]) <==>
      && Rehashed(s, edited, chain[i])
      && (i == |chain| - 1 || (s.content(edited) == s.content(chain[i]) && s.hash(edited) == s.hash(chain[i])))
  {
    var other := chain[i := edited];
    EditKeepsLinks(s, chain, i, edited);
    assert RowHolds(s, chain, i);
    if Intact(s, other) {
      assert RowHolds(s, other, i);
      if i < |chain| - 1 {
        assert RowHolds(s, other, i + 1) && RowHolds(s, chain, i + 1) && Commits(s, chain[i]);
      }
    }
    if Rehashed(s, edited, chain[i]) && (s.hash(edited) == s.hash(chain[i]) || i == |chain| - 1) {
      forall k | 0 <= k < |other| ensures RowHolds(s, other, k) {
        assert RowHolds(s, chain, k);
      }
    }
  }
}
