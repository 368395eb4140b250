/** Ranked candidate lists: what a Top-K answer is, and when two answers must agree. */
module Ranking {
  import opened Sorting

  /** A score as a database ranks it: the undefined one stands above every number. */
  datatype Similarity = Number(value: real) | NaN {
    predicate AtMost(other: Similarity) {
      other.NaN? || (Number? && value <= other.value)
    }
  }

  datatype CandidateMatch = CandidateMatch(candidateId: string, score: Similarity)

  function Candidates(ms: seq<CandidateMatch>): set<string> {
    set m | m in ms :: m.candidateId
  }

  ghost predicate Distinct(ms: seq<CandidateMatch>) {
    forall i, j :: 0 <= i < j < |ms| ==> ms[i].candidateId != ms[j].candidateId
  }

  ghost predicate NonIncreasing(ms: seq<CandidateMatch>) {
    forall i, j :: 0 <= i < j < |ms| ==> ms[j].score.AtMost(ms[i].score)
  }

  /** `ms` carries every entry of `best` exactly once, in some order. */
  ghost predicate Lists(best: map<string, Similarity>, ms: seq<CandidateMatch>) {
    && Distinct(ms)
    && Candidates(ms) == best.Keys
    && forall m :: m in ms ==> m.candidateId in best && m.score == best[m.candidateId]
  }

  function Min(a: nat, b: nat): nat {
    if a <= b then a else b
  }

  /** The k best entries of `best`, best first; ties are broken arbitrarily. */
  ghost predicate IsTopK(best: map<string, Similarity>, k: nat, ms: seq<CandidateMatch>) {
    && |ms| == Min(k, |best|)
    && Distinct(ms)
    && NonIncreasing(ms)
    && (forall m :: m in ms ==> m.candidateId in best && m.score == best[m.candidateId])
    && (forall c, m :: c in best && c !in Candidates(ms) && m in ms ==> best[c].AtMost(m.score))
  }

  lemma {:induction false} DistinctCount(ms: seq<CandidateMatch>)
    requires Distinct(ms)
    ensures |Candidates(ms)| == |ms|
  {
    if ms != [] {
      DistinctCount(ms[1..]);
      assert Candidates(ms) == {ms[0].candidateId} + Candidates(ms[1..]);
      assert ms[0].candidateId !in Candidates(ms[1..]);
    }
  }

  /** What a cut ranking leaves out is no better than what it keeps. */
  lemma CutKeepsTheBest(best: map<string, Similarity>, ms: seq<CandidateMatch>, n: nat, c: string, m: CandidateMatch)
    requires Lists(best, ms) && NonIncreasing(ms) && n <= |ms|
    requires c in best && c !in Candidates(ms[..n]) && m in ms[..n]
    ensures best[c].AtMost(m.score)
  {
    assert forall i :: 0 <= i < n ==> ms[..n][i].candidateId in Candidates(ms[..n]);
    assert c in Candidates(ms);
    var j :| 0 <= j < |ms| && ms[j].candidateId == c;
    assert j >= n;
    assert ms[j] in ms;
  }

  /** Cutting a full ranking after k entries gives a Top-K answer. */
  lemma TruncatedIsTopK(best: map<string, Similarity>, ms: seq<CandidateMatch>, k: nat)
    requires Lists(best, ms) && NonIncreasing(ms)
    ensures IsTopK(best, k, ms[..Min(k, |ms|)])
  {
    hide Candidates;
    DistinctCount(ms);
    assert |best.Keys| == |best|;
    var n := Min(k, |ms|);
    forall c, m | c in best && c !in Candidates(ms[..n]) && m in ms[..n] ensures best[c].AtMost(m.score) {
      CutKeepsTheBest(best, ms, n, c, m);
    }
  }

  ghost predicate SameRanking(a: seq<CandidateMatch>, b: seq<CandidateMatch>) {
    && |a| == |b|
    && (forall i :: 0 <= i < |a| ==> a[i].score == b[i].score)
    && (forall m :: m in a && !m.score.AtMost(a[|a| - 1].score) ==> m.candidateId in Candidates(b))
    && (forall m :: m in b && !m.score.AtMost(b[|b| - 1].score) ==> m.candidateId in Candidates(a))
  }

  /** An entry scoring above position i of another answer stands before i in that answer. */
  lemma BetterEntryStandsEarlier(best: map<string, Similarity>, k: nat, b: seq<CandidateMatch>, i: nat, c: string)
    requires IsTopK(best, k, b) && i < |b| && c in best && !best[c].AtMost(b[i].score)
    ensures c in Candidates(b[..i])
  {
    assert b[i] in b;
    assert c in Candidates(b);
    var n :| 0 <= n < |b| && b[n].candidateId == c;
    assert b[n] in b;
    assert n < i;
    assert b[n] in b[..i];
  }

  /** No entry of one answer can be better than the same position of another answer. */
  lemma PositionsAgree(best: map<string, Similarity>, k: nat, a: seq<CandidateMatch>, b: seq<CandidateMatch>, i: nat)
    requires IsTopK(best, k, a) && IsTopK(best, k, b) && i < |a|
    ensures a[i].score.AtMost(b[i].score)
  {
    if !a[i].score.AtMost(b[i].score) {
      forall c | c in Candidates(a[..i + 1]) ensures c in Candidates(b[..i]) {
        var j :| 0 <= j <= i && a[j].candidateId == c;
        assert a[j] in a;
        BetterEntryStandsEarlier(best, k, b, i, c);
      }
      DistinctCount(a[..i + 1]);
      DistinctCount(b[..i]);
      SubsetSize(Candidates(a[..i + 1]), Candidates(b[..i]));
    }
  }

  lemma SubsetSize<T>(a: set<T>, b: set<T>)
    requires a <= b
    ensures |a| <= |b|
  {
    assert b == a + (b - a);
  }

  /** Two Top-K answers over the same scores differ at most in how they break ties at the last score. */
  lemma TopKAnswersAgree(best: map<string, Similarity>, k: nat, a: seq<CandidateMatch>, b: seq<CandidateMatch>)
    requires IsTopK(best, k, a) && IsTopK(best, k, b)
    ensures SameRanking(a, b)
  {
    forall i | 0 <= i < |a| ensures a[i].score == b[i].score {
      PositionsAgree(best, k, a, b, i);
      PositionsAgree(best, k, b, a, i);
    }
    if a != [] {
      assert a[|a| - 1] in a && b[|b| - 1] in b;
    }
  }

  // ----- ordering by descending score -----

  function BetterFirst(): (CandidateMatch, CandidateMatch) -> bool {
    (a: CandidateMatch, b: CandidateMatch) => b.score.AtMost(a.score)
  }

  /** Sorting a listing of `best` by descending score and truncating it answers the Top-K query. */
  lemma SortedListingIsTopK(best: map<string, Similarity>, listed: seq<CandidateMatch>, k: nat)
    requires Lists(best, listed)
    ensures var ranked := Sort(listed, BetterFirst()); IsTopK(best, k, ranked[..Min(k, |ranked|)])
  {
    var ranked := Sort(listed, BetterFirst());
    SortSorts(listed, BetterFirst());
    SameElements(ranked, listed);
    DistinctKept(listed, ranked);
    assert Candidates(ranked) == Candidates(listed);
    assert NonIncreasing(ranked) by {
      forall i, j | 0 <= i < j < |ranked| ensures ranked[j].score.AtMost(ranked[i].score) {
        assert BetterFirst()(ranked[i], ranked[j]);
      }
    }
    TruncatedIsTopK(best, ranked, k);
  }

  lemma DistinctKept(xs: seq<CandidateMatch>, ys: seq<CandidateMatch>)
    requires Distinct(xs) && multiset(xs) == multiset(ys)
    ensures Distinct(ys)
  {
    SameElements(xs, ys);
    forall i, j | 0 <= i < j < |ys| ensures ys[i].candidateId != ys[j].candidateId {
      if ys[i].candidateId == ys[j].candidateId {
        assert ys[i] in xs && ys[j] in xs;
        assert ys[i] == ys[j];
        TwiceInMultiset(ys, i, j);
        NotTwiceInMultiset(xs, ys[i]);
      }
    }
  }

  lemma TwiceInMultiset<T>(ys: seq<T>, i: nat, j: nat)
    requires i < j < |ys| && ys[i] == ys[j]
    ensures multiset(ys)[ys[i]] >= 2
  {
    assert ys == ys[..j] + ys[j..];
    assert ys[i] in multiset(ys[..j]) && ys[j] in multiset(ys[j..]);
  }

  lemma {:induction false} NotTwiceInMultiset(xs: seq<CandidateMatch>, x: CandidateMatch)
    requires Distinct(xs)
    ensures multiset(xs)[x] <= 1
  {
    if xs != [] {
      NotTwiceInMultiset(xs[1..], x);
      assert xs == [xs[0]] + xs[1..];
      if x == xs[0] {
        assert x !in xs[1..];
        assert x !in multiset(xs[1..]);
      }
    }
  }

  lemma ListingGrows(ms: seq<CandidateMatch>, m: CandidateMatch)
    requires Distinct(ms) && m.candidateId !in Candidates(ms)
    ensures Distinct(ms + [m])
    ensures Candidates(ms + [m]) == Candidates(ms) + {m.candidateId}
  {
    assert forall i :: 0 <= i < |ms| ==> ms[i].candidateId in Candidates(ms);
  }

  /** Collects the entries of a hash map in whatever order it iterates, then sorts and truncates them. */
  method RankAndTruncate(best: map<string, Similarity>, k: nat) returns (ranked: seq<CandidateMatch>)
    ensures IsTopK(best, k, ranked)
    ensures |ranked| <= k && |ranked| <= |best| && (|ranked| == k || |ranked| == |best|)
  {
    hide IsTopK;
    ranked := [];
    var rest := best.Keys;
    while rest != {}
      invariant rest <= best.Keys && Candidates(ranked) == best.Keys - rest
      invariant Distinct(ranked)
      invariant forall m :: m in ranked ==> m.candidateId in best && m.score == best[m.candidateId]
      decreases |rest|
    {
      hide Distinct, Candidates;
      var c :| c in rest;
      ListingGrows(ranked, CandidateMatch(c, best[c]));
      ranked := ranked + [CandidateMatch(c, best[c])];
      rest := rest - {c};
    }
    SortedListingIsTopK(best, ranked, k);
    ranked := Sort(ranked, BetterFirst());
    ranked := ranked[..Min(k, |ranked|)];
    TopKSize(best, k, ranked);
  }

  lemma TopKSize(best: map<string, Similarity>, k: nat, ms: seq<CandidateMatch>)
    requires IsTopK(best, k, ms)
    ensures |ms| <= k && |ms| <= |best| && (|ms| == k || |ms| == |best|)
  {
  }
}
