/**
 Biometric templates: enrolment, revocation, and the two ways of searching them, the in-memory
 scan over cosine similarity and the query over the vector index.
 */
module Templates {
  import opened Options
  import opened RealMath
  import opened Embedding
  import opened Ranking

  datatype Template = Template(
    id: string,
    candidateId: string,
    modelName: string,
    modelVersion: string,
    embedding: Vector,
    qualityScore: real,
    sourceReference: Option<string>,
    vector: Option<Vector>,
    revokedAt: Option<string>)

  // ----- the scan -----

  function Score(sqrt: real -> real, t: Template, probe: Vector): real {
    CosineSimilarity(sqrt, t.embedding, probe)
  }

  function Active(rows: seq<Template>, modelName: string, modelVersion: string): (active: seq<Template>)
    ensures forall t :: t in active <==>
      t in rows && t.modelName == modelName && t.modelVersion == modelVersion && t.revokedAt.None?
  {
    if rows == [] then []
    else
      var rest := Active(rows[1..], modelName, modelVersion);
      var t := rows[0];
      assert rows == [t] + rows[1..];
      if t.modelName == modelName && t.modelVersion == modelVersion && t.revokedAt.None? then [t] + rest else rest
  }

  /** `best` gives every candidate with a template the largest score of its templates. */
  ghost predicate IsBestScore(best: map<string, real>, sqrt: real -> real, templates: seq<Template>, probe: Vector) {
    && (forall t :: t in templates ==> t.candidateId in best && Score(sqrt, t, probe) <= best[t.candidateId])
    && (forall c :: c in best ==> Attains(sqrt, templates, probe, c, best[c]))
  }

  ghost predicate Attains(sqrt: real -> real, templates: seq<Template>, probe: Vector, c: string, score: real) {
    exists t :: t in templates && t.candidateId == c && Score(sqrt, t, probe) == score
  }

  function Numbers(best: map<string, real>): map<string, Similarity> {
    map c | c in best :: Number(best[c])
  }

  ghost predicate IsScanAnswer(
    sqrt: real -> real, templates: seq<Template>, probe: Vector, k: nat, answer: seq<CandidateMatch>) {
    exists best :: IsBestScore(best, sqrt, templates, probe) && IsTopK(Numbers(best), k, answer)
  }

  /** Merges one template's score into the table of best scores. */
  function Merged(best: map<string, real>, c: string, score: real): map<string, real> {
    if c in best && score <= best[c] then best else best[c := score]
  }

  lemma MergedIsBest(best: map<string, real>, sqrt: real -> real, templates: seq<Template>, t: Template, probe: Vector)
    requires IsBestScore(best, sqrt, templates, probe)
    ensures IsBestScore(Merged(best, t.candidateId, Score(sqrt, t, probe)), sqrt, templates + [t], probe)
  {
    hide Score;
    var after := Merged(best, t.candidateId, Score(sqrt, t, probe));
    assert t in templates + [t];
    forall c | c in after ensures Attains(sqrt, templates + [t], probe, c, after[c]) {
      if c in best && after[c] == best[c] {
        assert Attains(sqrt, templates, probe, c, best[c]);
        var u :| u in templates && u.candidateId == c && Score(sqrt, u, probe) == best[c];
        assert u in templates + [t];
      }
    }
  }

  lemma NothingIsBest(sqrt: real -> real, probe: Vector)
    ensures IsBestScore(map[], sqrt, [], probe)
  {
  }

  method TopKMatches(
    sqrt: real -> real, templates: seq<Template>, probe: Vector, k: nat) returns (ranked: seq<CandidateMatch>)
    ensures IsScanAnswer(sqrt, templates, probe, k, ranked)
  {
    hide IsBestScore, IsTopK, Score;
    var best: map<string, real> := map[];
    NothingIsBest(sqrt, probe);
    for i := 0 to |templates|
      invariant IsBestScore(best, sqrt, templates[..i], probe)
    {
      var t := templates[i];
      var score := Score(sqrt, t, probe);
      MergedIsBest(best, sqrt, templates[..i], t, probe);
      assert templates[..i + 1] == templates[..i] + [t];
      if t.candidateId in best {
        if score > best[t.candidateId] {
          best := best[t.candidateId := score];
        }
      } else {
        best := best[t.candidateId := score];
      }
    }
    assert templates[..|templates|] == templates;
    ranked := RankAndTruncate(Numbers(best), k);
  }

  // ----- what a scan answer says -----

  /** `x` is the largest similarity of the probe to a template of candidate `c`, whatever is indexed. */
  ghost predicate IsBestCosine(
    sqrt: real -> real, templates: seq<Template>, probe: Vector, c: string, x: real)
  {
    && (exists t :: t in templates && t.candidateId == c && IsCosine(sqrt, t.embedding, probe, x))
    && (forall t, y :: t in templates && t.candidateId == c && IsCosine(sqrt, t.embedding, probe, y) ==> y <= x)
  }

  lemma BestScoreIsBestCosine(
    sqrt: real -> real, templates: seq<Template>, probe: Vector, best: map<string, real>, c: string)
    requires LawfulSqrt(sqrt) && IsBestScore(best, sqrt, templates, probe) && c in best
    ensures IsBestCosine(sqrt, templates, probe, c, best[c])
  {
    hide IsCosine, CosineSimilarity;
    assert Attains(sqrt, templates, probe, c, best[c]);
    var t :| t in templates && t.candidateId == c && Score(sqrt, t, probe) == best[c];
    CosineIsExact(sqrt, t.embedding, probe, best[c]);
    forall u, y | u in templates && u.candidateId == c && IsCosine(sqrt, u.embedding, probe, y) ensures y <= best[c] {
      CosineIsExact(sqrt, u.embedding, probe, y);
    }
  }

  /**
   In words: min(k, number of candidates) different candidates by falling score, each with the largest
   cosine of its templates to the probe, and no candidate left out has a template more similar than the
   score of one that is listed. Only the embeddings matter, not what the vector column holds.
   */
  lemma ScanAnswerMeaning(
    sqrt: real -> real, templates: seq<Template>, probe: Vector, k: nat, answer: seq<CandidateMatch>)
    requires LawfulSqrt(sqrt) && IsScanAnswer(sqrt, templates, probe, k, answer)
    ensures
      var candidates := set t | t in templates :: t.candidateId;
      && |answer| == (if k <= |candidates| then k else |candidates|)
      && (forall i, j :: 0 <= i < j < |answer| ==> answer[i].candidateId != answer[j].candidateId)
    ensures forall m :: m in answer ==>
      m.score.Number? && IsBestCosine(sqrt, templates, probe, m.candidateId, m.score.value)
    ensures forall i, j :: 0 <= i < j < |answer| && answer[i].score.Number? && answer[j].score.Number? ==>
      answer[j].score.value <= answer[i].score.value
    ensures forall t, m, y ::
      (t in templates && t.candidateId !in Candidates(answer) && IsCosine(sqrt, t.embedding, probe, y))
      && (m in answer && m.score.Number?)
      ==> y <= m.score.value
  {
    var best :| IsBestScore(best, sqrt, templates, probe) && IsTopK(Numbers(best), k, answer);
    ScannedCandidates(sqrt, templates, probe, best);
    hide IsBestScore, Score, IsBestCosine, IsCosine;
    TopKSize(Numbers(best), k, answer);
    assert |Numbers(best)| == |best.Keys| by {
      assert Numbers(best).Keys == best.Keys;
      assert |Numbers(best)| == |Numbers(best).Keys|;
    }
    forall m | m in answer
      ensures m.score.Number? && IsBestCosine(sqrt, templates, probe, m.candidateId, m.score.value)
    {
      BestScoreIsBestCosine(sqrt, templates, probe, best, m.candidateId);
    }
    forall t, m, y | t in templates && t.candidateId !in Candidates(answer) && m in answer
      && IsCosine(sqrt, t.embedding, probe, y) && m.score.Number?
      ensures y <= m.score.value
    {
      BestScoreIsBestCosine(sqrt, templates, probe, best, t.candidateId);
      BestCosineBounds(sqrt, templates, probe, best[t.candidateId], t, y);
      assert Numbers(best)[t.candidateId].AtMost(m.score);
    }
  }

  lemma BestCosineBounds(sqrt: real -> real, templates: seq<Template>, probe: Vector, x: real, t: Template, y: real)
    requires IsBestCosine(sqrt, templates, probe, t.candidateId, x)
    requires t in templates && IsCosine(sqrt, t.embedding, probe, y)
    ensures y <= x
  {
  }

  lemma ScannedCandidates(sqrt: real -> real, templates: seq<Template>, probe: Vector, best: map<string, real>)
    requires IsBestScore(best, sqrt, templates, probe)
    ensures best.Keys == set t | t in templates :: t.candidateId
  {
    hide Score;
    forall c | c in best ensures exists t :: t in templates && t.candidateId == c {
      assert Attains(sqrt, templates, probe, c, best[c]);
    }
  }

  /**
   A candidate enrolled with a positive multiple of the probe is a perfect match: the first answer
   scores 1, nothing scores more, and the candidate is listed unless k others score 1 as well.
   */
  lemma ScanFindsTheProbe(
    sqrt: real -> real, templates: seq<Template>, probe: Vector, k: nat, answer: seq<CandidateMatch>,
    t: Template, c: real)
    requires LawfulSqrt(sqrt) && IsScanAnswer(sqrt, templates, probe, k, answer) && k > 0
    requires t in templates && c > 0.0 && |probe| > 0 && t.embedding == Scaled(probe, c)
    requires Norm(sqrt, probe) > NORM_FLOOR && Norm(sqrt, t.embedding) > NORM_FLOOR
    ensures answer != [] && answer[0].score == Number(1.0)
    ensures forall m :: m in answer ==> m.score.Number? && m.score.value <= 1.0
    ensures forall m :: m in answer && m.candidateId == t.candidateId ==> m.score == Number(1.0)
    ensures t.candidateId in Candidates(answer) || forall m :: m in answer ==> m.score == Number(1.0)
  {
    hide Norm, CosineSimilarity;
    MultipleScoresOne(sqrt, probe, c);
    var best :| IsBestScore(best, sqrt, templates, probe) && IsTopK(Numbers(best), k, answer);
    forall b | b in best ensures best[b] <= 1.0 {
      assert Attains(sqrt, templates, probe, b, best[b]);
      var u :| u in templates && u.candidateId == b && Score(sqrt, u, probe) == best[b];
      CosineWithinOne(sqrt, u.embedding, probe);
    }
    assert Score(sqrt, t, probe) == 1.0 && best[t.candidateId] == 1.0;
    hide IsBestScore, Score;
    PerfectMatchLeads(best, k, answer, t.candidateId);
  }

  lemma PerfectMatchLeads(best: map<string, real>, k: nat, answer: seq<CandidateMatch>, c: string)
    requires IsTopK(Numbers(best), k, answer) && k > 0 && c in best && best[c] == 1.0
    requires forall b :: b in best ==> best[b] <= 1.0
    ensures answer != [] && answer[0].score == Number(1.0)
    ensures forall m :: m in answer ==> m.score.Number? && m.score.value <= 1.0
    ensures forall m :: m in answer && m.candidateId == c ==> m.score == Number(1.0)
    ensures c in Candidates(answer) || forall m :: m in answer ==> m.score == Number(1.0)
  {
    assert c in Numbers(best);
    assert |Numbers(best)| > 0;
    assert answer[0] in answer;
    if c in Candidates(answer) {
      var i :| 0 <= i < |answer| && answer[i].candidateId == c;
      assert answer[i] in answer;
      assert answer[i].score.AtMost(answer[0].score);
    } else {
      assert Numbers(best)[c].AtMost(answer[0].score);
    }
  }

  // ----- the vector index -----

  /**
   Cosine distance as the vector index defines it. It is undefined next to a zero vector, and unlike
   the scan it knows no floor for small ones.
   */
  function Distance(sqrt: real -> real, v: Vector, probe: Vector): Similarity
    requires |v| == |probe|
  {
    var norms := Norm(sqrt, v) * Norm(sqrt, probe);
    if norms == 0.0 then NaN else Number(1.0 - Dot(v, probe) / norms)
  }

  function OneMinus(d: Similarity): Similarity {
    match d
    case Number(x) => Number(1.0 - x)
    case NaN => NaN
  }

  /** The vector column has one dimension, and the probe has it too. */
  ghost predicate SameDimension(rows: seq<Template>, probe: Vector) {
    forall t :: t in rows && t.vector.Some? ==> |t.vector.value| == |probe|
  }

  /** DISTINCT ON (candidate) ORDER BY candidate, distance: one nearest indexed row per candidate. */
  ghost predicate IsDistinctOn(picks: map<string, Template>, sqrt: real -> real, rows: seq<Template>, probe: Vector)
    requires SameDimension(rows, probe)
  {
    && (forall c :: c in picks ==> picks[c] in rows && picks[c].vector.Some? && picks[c].candidateId == c)
    && (forall t :: t in rows && t.vector.Some? ==>
      t.candidateId in picks && NoFarther(picks[t.candidateId], sqrt, rows, t, probe))
  }

  ghost predicate NoFarther(pick: Template, sqrt: real -> real, rows: seq<Template>, t: Template, probe: Vector)
    requires SameDimension(rows, probe) && t in rows && t.vector.Some?
  {
    pick in rows && pick.vector.Some?
      && Distance(sqrt, pick.vector.value, probe).AtMost(Distance(sqrt, t.vector.value, probe))
  }

  /** The similarity the query reports for each picked row. */
  function IndexScores(picks: map<string, Template>, sqrt: real -> real, probe: Vector): map<string, Similarity>
    requires forall c :: c in picks ==> picks[c].vector.Some? && |picks[c].vector.value| == |probe|
  {
    map c | c in picks :: OneMinus(Distance(sqrt, picks[c].vector.value, probe))
  }

  ghost predicate IsIndexAnswer(
    sqrt: real -> real, rows: seq<Template>, probe: Vector, k: nat, answer: seq<CandidateMatch>)
    requires SameDimension(rows, probe)
  {
    exists picks :: IsDistinctOn(picks, sqrt, rows, probe) && IsTopK(IndexScores(picks, sqrt, probe), k, answer)
  }

  function Picked(picks: map<string, Template>, sqrt: real -> real, t: Template, probe: Vector): map<string, Template>
    requires t.vector.Some? && |t.vector.value| == |probe|
    requires forall c :: c in picks ==> picks[c].vector.Some? && |picks[c].vector.value| == |probe|
  {
    var c := t.candidateId;
    if c in picks
      && Distance(sqrt, picks[c].vector.value, probe).AtMost(Distance(sqrt, t.vector.value, probe)) then picks
    else picks[c := t]
  }

  lemma PickedIsDistinctOn(
    picks: map<string, Template>, sqrt: real -> real, rows: seq<Template>, t: Template, probe: Vector)
    requires SameDimension(rows + [t], probe)
    requires SameDimension(rows, probe) && IsDistinctOn(picks, sqrt, rows, probe)
    ensures t.vector.None? ==> IsDistinctOn(picks, sqrt, rows + [t], probe)
    ensures t.vector.Some? ==> t in rows + [t] && IsDistinctOn(Picked(picks, sqrt, t, probe), sqrt, rows + [t], probe)
  {
    hide Distance;
    assert t in rows + [t];
    forall u | u in rows && u.vector.Some? ensures NoFarther(picks[u.candidateId], sqrt, rows + [t], u, probe) {
      assert NoFarther(picks[u.candidateId], sqrt, rows, u, probe);
    }
  }

  /** The indexed query, evaluated row by row. */
  method SearchTopKIndexed(
    sqrt: real -> real, rows: seq<Template>, probe: Vector, k: nat) returns (answer: seq<CandidateMatch>)
    requires SameDimension(rows, probe)
    ensures IsIndexAnswer(sqrt, rows, probe, k, answer)
  {
    hide Distance, IsTopK;
    var picks: map<string, Template> := map[];
    for i := 0 to |rows|
      invariant SameDimension(rows[..i], probe) && IsDistinctOn(picks, sqrt, rows[..i], probe)
    {
      assert rows[..i + 1] == rows[..i] + [rows[i]];
      assert SameDimension(rows[..i + 1], probe);
      PickedIsDistinctOn(picks, sqrt, rows[..i], rows[i], probe);
      if rows[i].vector.Some? {
        picks := Picked(picks, sqrt, rows[i], probe);
      }
    }
    assert rows[..|rows|] == rows;
    answer := RankAndTruncate(IndexScores(picks, sqrt, probe), k);
  }

  /** `s` is the query's score of a stored vector: the exact quotient, undefined next to a zero vector. */
  ghost predicate IsIndexScore(sqrt: real -> real, v: Vector, probe: Vector, s: Similarity)
    requires |v| == |probe|
  {
    var norms := sqrt(Dot(v, v)) * sqrt(Dot(probe, probe));
    if norms == 0.0 then s.NaN? else s.Number? && s.value * norms == Dot(v, probe)
  }

  lemma IndexScoreIsExact(sqrt: real -> real, v: Vector, probe: Vector, s: Similarity)
    requires |v| == |probe|
    ensures IsIndexScore(sqrt, v, probe, s) <==> s == OneMinus(Distance(sqrt, v, probe))
  {
    var norms := sqrt(Dot(v, v)) * sqrt(Dot(probe, probe));
    DistanceOf(sqrt, v, probe, norms);
    if norms != 0.0 && s.Number? {
      ExactQuotient(s.value, Dot(v, probe), norms);
    }
  }

  lemma ExactQuotient(x: real, a: real, n: real)
    requires n != 0.0
    ensures x * n == a <==> x == a / n
  {
    var q := a / n;
    assert q * n == a;
    if x * n == a {
      Quotient(x, n, a);
    }
  }

  /**
   Every match the query reports is an indexed template of its candidate with that exact score; a
   defined score of the candidate's other indexed templates is no larger, and the score is undefined
   only if all of theirs are.
   */
  lemma IndexAnswerMeaning(
    sqrt: real -> real, rows: seq<Template>, probe: Vector, k: nat, answer: seq<CandidateMatch>, m: CandidateMatch)
    requires SameDimension(rows, probe) && IsIndexAnswer(sqrt, rows, probe, k, answer) && m in answer
    ensures exists t ::
      && t in rows && t.vector.Some? && t.candidateId == m.candidateId
      && IsIndexScore(sqrt, t.vector.value, probe, m.score)
    ensures forall u, s ::
      u in rows && u.vector.Some? && u.candidateId == m.candidateId && IsIndexScore(sqrt, u.vector.value, probe, s)
      ==> s.NaN? || (m.score.Number? && s.value <= m.score.value)
  {
    hide IsIndexScore, Distance, IsTopK;
    var picks: map<string, Template> :| IsDistinctOn(picks, sqrt, rows, probe)
      && IsTopK(IndexScores(picks, sqrt, probe), k, answer);
    TopKHas(IndexScores(picks, sqrt, probe), k, answer, m);
    var t: Template := picks[m.candidateId];
    IndexScoreIsExact(sqrt, t.vector.value, probe, m.score);
    forall u, s | u in rows && u.vector.Some? && u.candidateId == m.candidateId
      && IsIndexScore(sqrt, u.vector.value, probe, s)
      ensures s.NaN? || (m.score.Number? && s.value <= m.score.value)
    {
      IndexScoreIsExact(sqrt, u.vector.value, probe, s);
      assert NoFarther(t, sqrt, rows, u, probe);
    }
  }

  lemma TopKHas(best: map<string, Similarity>, k: nat, answer: seq<CandidateMatch>, m: CandidateMatch)
    requires IsTopK(best, k, answer) && m in answer
    ensures m.candidateId in best && m.score == best[m.candidateId]
  {
  }

  // ----- scan against index -----

  /** The index only holds copies of the embeddings. */
  ghost predicate FaithfulIndex(rows: seq<Template>) {
    forall t :: t in rows && t.vector.Some? ==> t.vector.value == t.embedding
  }

  /** Both paths give this indexed row the same score. */
  ghost predicate ScoreAgrees(sqrt: real -> real, t: Template, probe: Vector)
    requires t.vector.Some? && |t.vector.value| == |probe|
  {
    OneMinus(Distance(sqrt, t.vector.value, probe)) == Number(Score(sqrt, t, probe))
  }

  ghost predicate ScoresAgree(sqrt: real -> real, rows: seq<Template>, probe: Vector) {
    && SameDimension(rows, probe)
    && forall t :: t in rows && t.vector.Some? ==> ScoreAgrees(sqrt, t, probe)
  }

  /** Neither vector is negligible to the scan. */
  ghost predicate Measurable(sqrt: real -> real, v: Vector, probe: Vector) {
    Norm(sqrt, v) > NORM_FLOOR && Norm(sqrt, probe) > NORM_FLOOR
  }

  /**
   The scores of a row agree exactly when both norms exceed the scan's floor, or the vectors are
   orthogonal and neither is zero. Next to a zero vector the query reports an undefined score.
   */
  lemma ScoreAgreesIff(sqrt: real -> real, t: Template, probe: Vector)
    requires LawfulSqrt(sqrt) && t.vector == Some(t.embedding) && |t.embedding| == |probe| > 0
    ensures ScoreAgrees(sqrt, t, probe) <==>
      || Measurable(sqrt, t.embedding, probe)
      || (Norm(sqrt, t.embedding) != 0.0 && Norm(sqrt, probe) != 0.0 && Dot(t.embedding, probe) == 0.0)
  {
    var v := t.embedding;
    NormSquared(sqrt, v);
    NormSquared(sqrt, probe);
    hide Dot, Norm, CosineSimilarity;
    var n, m, x := Norm(sqrt, v), Norm(sqrt, probe), Dot(v, probe);
    ProductSign(n, m);
    if Measurable(sqrt, v, probe) {
      ClampIsNoOp(sqrt, v, probe);
    } else {
      BelowFloorScoresZero(sqrt, v, probe);
    }
    if n * m != 0.0 {
      ZeroQuotient(x, n * m);
    }
    DistanceOf(sqrt, v, probe, n * m);
  }

  lemma BelowFloorScoresZero(sqrt: real -> real, v: Vector, probe: Vector)
    requires !Measurable(sqrt, v, probe) && |v| == |probe| > 0
    ensures CosineSimilarity(sqrt, v, probe) == 0.0
  {
  }

  lemma ZeroQuotient(x: real, n: real)
    requires n != 0.0
    ensures x / n == 0.0 <==> x == 0.0
  {
    var q := x / n;
    assert q * n == x;
  }

  lemma DistanceOf(sqrt: real -> real, v: Vector, probe: Vector, norms: real)
    requires |v| == |probe| && norms == Norm(sqrt, v) * Norm(sqrt, probe)
    ensures OneMinus(Distance(sqrt, v, probe)) == if norms == 0.0 then NaN else Number(Dot(v, probe) / norms)
  {
  }

  /** Every row missing from the index is matched by an indexed row of the same candidate that scores no less. */
  ghost predicate IndexCovers(sqrt: real -> real, rows: seq<Template>, probe: Vector) {
    forall t :: t in rows && t.vector.None? ==> Matched(sqrt, rows, probe, t)
  }

  ghost predicate Matched(sqrt: real -> real, rows: seq<Template>, probe: Vector, t: Template) {
    exists u ::
      && u in rows && u.vector.Some? && u.candidateId == t.candidateId
      && Score(sqrt, t, probe) <= Score(sqrt, u, probe)
  }

  /** The query's nearest row per candidate carries that candidate's best score among indexed rows. */
  lemma PickScores(sqrt: real -> real, rows: seq<Template>, probe: Vector, picks: map<string, Template>)
    requires ScoresAgree(sqrt, rows, probe) && IsDistinctOn(picks, sqrt, rows, probe)
    ensures forall c :: c in picks ==> IndexScores(picks, sqrt, probe)[c] == Number(Score(sqrt, picks[c], probe))
    ensures forall t :: t in rows && t.vector.Some? ==>
      t.candidateId in picks && Score(sqrt, t, probe) <= Score(sqrt, picks[t.candidateId], probe)
  {
    hide Score, Distance;
    forall c | c in picks ensures IndexScores(picks, sqrt, probe)[c] == Number(Score(sqrt, picks[c], probe)) {
      assert ScoreAgrees(sqrt, picks[c], probe);
    }
    forall t | t in rows && t.vector.Some?
      ensures t.candidateId in picks && Score(sqrt, t, probe) <= Score(sqrt, picks[t.candidateId], probe)
    {
      assert NoFarther(picks[t.candidateId], sqrt, rows, t, probe);
      assert ScoreAgrees(sqrt, t, probe) && ScoreAgrees(sqrt, picks[t.candidateId], probe);
    }
  }

  /** Equal best scores mean that the index covers every row it misses. */
  lemma EqualScoresMeanCovered(
    sqrt: real -> real, rows: seq<Template>, probe: Vector, best: map<string, real>, picks: map<string, Template>)
    requires ScoresAgree(sqrt, rows, probe)
    requires IsBestScore(best, sqrt, rows, probe) && IsDistinctOn(picks, sqrt, rows, probe)
    requires IndexScores(picks, sqrt, probe) == Numbers(best)
    ensures IndexCovers(sqrt, rows, probe)
  {
    PickScores(sqrt, rows, probe, picks);
    hide Score, Distance, NoFarther, ScoreAgrees;
    forall t | t in rows && t.vector.None? ensures Matched(sqrt, rows, probe, t) {
      assert t.candidateId in Numbers(best);
      var u := picks[t.candidateId];
      assert u in rows && u.vector.Some? && u.candidateId == t.candidateId;
      assert Number(best[t.candidateId]) == Number(Score(sqrt, u, probe));
    }
  }

  lemma CoveredScoreIsBest(
    sqrt: real -> real, rows: seq<Template>, probe: Vector, best: map<string, real>, picks: map<string, Template>,
    c: string)
    requires ScoresAgree(sqrt, rows, probe)
    requires IsBestScore(best, sqrt, rows, probe) && IsDistinctOn(picks, sqrt, rows, probe)
    requires IndexCovers(sqrt, rows, probe) && c in best
    ensures c in picks && Score(sqrt, picks[c], probe) == best[c]
  {
    PickScores(sqrt, rows, probe, picks);
    hide Score, Distance, NoFarther, IndexScores, ScoreAgrees;
    assert Attains(sqrt, rows, probe, c, best[c]);
    var t :| t in rows && t.candidateId == c && Score(sqrt, t, probe) == best[c];
    if t.vector.None? {
      assert Matched(sqrt, rows, probe, t);
      var u :| u in rows && u.vector.Some? && u.candidateId == c && Score(sqrt, t, probe) <= Score(sqrt, u, probe);
    }
    assert picks[c] in rows;
  }

  /** Index and scan see the same best scores exactly when the index covers the rows it misses. */
  lemma IndexScoresIffCovered(
    sqrt: real -> real, rows: seq<Template>, probe: Vector, best: map<string, real>, picks: map<string, Template>)
    requires ScoresAgree(sqrt, rows, probe)
    requires IsBestScore(best, sqrt, rows, probe) && IsDistinctOn(picks, sqrt, rows, probe)
    ensures IndexScores(picks, sqrt, probe) == Numbers(best) <==> IndexCovers(sqrt, rows, probe)
  {
    var indexed := IndexScores(picks, sqrt, probe);
    if indexed == Numbers(best) {
      EqualScoresMeanCovered(sqrt, rows, probe, best, picks);
    }
    if IndexCovers(sqrt, rows, probe) {
      hide Attains, Matched, NoFarther, Score, Distance, ScoreAgrees;
      PickScores(sqrt, rows, probe, picks);
      forall c | c in best ensures c in indexed && indexed[c] == Number(best[c]) {
        CoveredScoreIsBest(sqrt, rows, probe, best, picks, c);
      }
      assert forall c :: c in picks ==> picks[c] in rows && c in best;
      assert indexed == Numbers(best);
    }
  }

  /** When the index covers everything, its answer and the scan's agree up to ties at the last score. */
  lemma CoveredAnswersAgree(
    sqrt: real -> real, rows: seq<Template>, probe: Vector, k: nat,
    scanned: seq<CandidateMatch>, indexed: seq<CandidateMatch>)
    requires ScoresAgree(sqrt, rows, probe) && IndexCovers(sqrt, rows, probe)
    requires IsScanAnswer(sqrt, rows, probe, k, scanned) && IsIndexAnswer(sqrt, rows, probe, k, indexed)
    ensures SameRanking(scanned, indexed)
  {
    hide IsBestScore, IsTopK, IndexCovers;
    var best :| IsBestScore(best, sqrt, rows, probe) && IsTopK(Numbers(best), k, scanned);
    var picks :| IsDistinctOn(picks, sqrt, rows, probe) && IsTopK(IndexScores(picks, sqrt, probe), k, indexed);
    IndexScoresIffCovered(sqrt, rows, probe, best, picks);
    TopKAnswersAgree(Numbers(best), k, scanned, indexed);
  }
}
