/** The equal error rate: the observed score at which FAR and FRR are closest. */
module EqualError {
  import opened Options
  import opened Calibration
  import opened RealMath
  import Sums

  function Gap(pairs: seq<ScoredPair>, t: Threshold): real {
    var d := FarAtThreshold(pairs, t) - FrrAtThreshold(pairs, t);
    if d < 0.0 then -d else d
  }

  /** `score` is observed, has the least gap of all observed scores, and is the lowest such score. */
  ghost predicate IsEqualErrorPoint(pairs: seq<ScoredPair>, score: real) {
    && (exists p :: p in pairs && p.score == score)
    && forall q :: q in pairs ==>
      && Gap(pairs, Finite(score)) <= Gap(pairs, Finite(q.score))
      && (Gap(pairs, Finite(score)) == Gap(pairs, Finite(q.score)) ==> score <= q.score)
  }

  /**
   `score` is observed; FAR and FRR differ in square at no observed score by less, at none below it by
   as little, and at no real threshold whatever by less when a genuine pair exists.
   */
  ghost predicate HasLeastDifference(pairs: seq<ScoredPair>, score: real) {
    var x := FarAtThreshold(pairs, Finite(score)) - FrrAtThreshold(pairs, Finite(score));
    && (exists p :: p in pairs && p.score == score)
    && (forall q :: q in pairs ==>
          var y := FarAtThreshold(pairs, Finite(q.score)) - FrrAtThreshold(pairs, Finite(q.score));
          x * x <= y * y && (x * x == y * y ==> score <= q.score))
    && ((exists g :: g in pairs && g.isGenuine) ==>
          forall r: real ::
            var y := FarAtThreshold(pairs, Finite(r)) - FrrAtThreshold(pairs, Finite(r));
            x * x <= y * y)
  }

  /**
   The lowest observed score at which FAR and FRR differ least, in square, among all observed scores,
   and among all real thresholds whatever when a genuine pair exists; with the mean of the two rates.
   */
  method EqualErrorRate(pairs: seq<ScoredPair>) returns (eer: Option<(real, real)>)
    ensures eer == None <==> pairs == []
    ensures eer.Some? ==>
      var (score, rate) := eer.value;
      && IsEqualErrorPoint(pairs, score) && HasLeastDifference(pairs, score)
      && rate == (FarAtThreshold(pairs, Finite(score)) + FrrAtThreshold(pairs, Finite(score))) / 2.0
  {
    hide HasLeastDifference;
    var curve := RocCurve(pairs);
    var best: Option<RocPoint> := None;
    for n := 0 to |curve|
      invariant BestSoFar(pairs, curve, n, best)
    {
      var gap := Gap(pairs, curve[n].threshold);
      KeepingTheBest(pairs, curve, n, best);
      if curve[n].threshold.Finite? && (best.None? || gap < Gap(pairs, best.value.threshold)) {
        best := Some(curve[n]);
      }
    }
    BestIsEqualErrorPoint(pairs, curve, best);
    if best.None? {
      return None;
    }
    LeastDifference(pairs, best.value.threshold.value);
    eer := Some((best.value.threshold.value, (best.value.far + best.value.frr) / 2.0));
  }

  /** The gap orders thresholds as the squared difference of the two rates does. */
  lemma GapOrdersDifferences(pairs: seq<ScoredPair>, s: real, r: real)
    ensures
      var x := FarAtThreshold(pairs, Finite(s)) - FrrAtThreshold(pairs, Finite(s));
      var y := FarAtThreshold(pairs, Finite(r)) - FrrAtThreshold(pairs, Finite(r));
      && (Gap(pairs, Finite(s)) <= Gap(pairs, Finite(r)) <==> x * x <= y * y)
      && (Gap(pairs, Finite(s)) == Gap(pairs, Finite(r)) <==> x * x == y * y)
  {
    var x := FarAtThreshold(pairs, Finite(s)) - FrrAtThreshold(pairs, Finite(s));
    var y := FarAtThreshold(pairs, Finite(r)) - FrrAtThreshold(pairs, Finite(r));
    hide FarAtThreshold, FrrAtThreshold;
    var g, h := Gap(pairs, Finite(s)), Gap(pairs, Finite(r));
    SquareOfGap(x, g);
    SquareOfGap(y, h);
    SquaresInOrder(g, h);
    SquaresInOrder(h, g);
  }

  lemma SquareOfGap(d: real, gap: real)
    requires gap == if d < 0.0 then -d else d
    ensures gap >= 0.0 && gap * gap == d * d
  {
  }

  lemma SquaresInOrder(g: real, h: real)
    requires g >= 0.0 && h >= 0.0
    ensures g <= h <==> g * g <= h * h
  {
    assert (h - g) * (h + g) == h * h - g * g;
    if g <= h {
      ProductSign(h - g, h + g);
    } else {
      ProductSign(g - h, g + h);
      assert (g - h) * (g + h) == g * g - h * h;
    }
  }

  lemma LeastDifference(pairs: seq<ScoredPair>, score: real)
    requires IsEqualErrorPoint(pairs, score)
    ensures HasLeastDifference(pairs, score)
  {
    hide FarAtThreshold, FrrAtThreshold, Gap;
    forall q | q in pairs
      ensures
        var x := FarAtThreshold(pairs, Finite(score)) - FrrAtThreshold(pairs, Finite(score));
        var y := FarAtThreshold(pairs, Finite(q.score)) - FrrAtThreshold(pairs, Finite(q.score));
        x * x <= y * y && (x * x == y * y ==> score <= q.score)
    {
      GapOrdersDifferences(pairs, score, q.score);
    }
    if exists g :: g in pairs && g.isGenuine {
      Counts(pairs);
      ObservedScoresSufficeIffGenuine(pairs, score);
      forall r: real
        ensures
          var x := FarAtThreshold(pairs, Finite(score)) - FrrAtThreshold(pairs, Finite(score));
          var y := FarAtThreshold(pairs, Finite(r)) - FrrAtThreshold(pairs, Finite(r));
          x * x <= y * y
      {
        GapOrdersDifferences(pairs, score, r);
      }
    }
  }

  /** `best` is the first finite point of least gap among the first `n` points of the curve. */
  ghost predicate BestSoFar(pairs: seq<ScoredPair>, curve: seq<RocPoint>, n: nat, best: Option<RocPoint>)
    requires n <= |curve|
  {
    && (best.Some? ==> best.value.threshold.Finite? && exists b :: 0 <= b < n && curve[b] == best.value)
    && forall i :: 0 <= i < n && curve[i].threshold.Finite? ==>
      && best.Some?
      && Gap(pairs, best.value.threshold) <= Gap(pairs, curve[i].threshold)
      && (Gap(pairs, best.value.threshold) == Gap(pairs, curve[i].threshold) ==>
            best.value.threshold.AtMost(curve[i].threshold))
  }

  lemma KeepingTheBest(pairs: seq<ScoredPair>, curve: seq<RocPoint>, n: nat, best: Option<RocPoint>)
    requires IsRocCurve(pairs, curve) && n < |curve| && BestSoFar(pairs, curve, n, best)
    ensures
      var better := curve[n].threshold.Finite? &&
                    (best.None? || Gap(pairs, curve[n].threshold) < Gap(pairs, best.value.threshold));
      BestSoFar(pairs, curve, n + 1, if better then Some(curve[n]) else best)
  {
    var ts := Thresholds(curve);
    if best.Some? {
      var b :| 0 <= b < n && curve[b] == best.value;
      assert ts[b].Below(ts[n]);
    }
  }

  lemma BestIsEqualErrorPoint(pairs: seq<ScoredPair>, curve: seq<RocPoint>, best: Option<RocPoint>)
    requires IsRocCurve(pairs, curve) && BestSoFar(pairs, curve, |curve|, best)
    ensures best.None? <==> pairs == []
    ensures best.Some? ==> best.value.threshold.Finite? && IsEqualErrorPoint(pairs, best.value.threshold.value)
    ensures best.Some? ==> best.value == PointAt(pairs, best.value.threshold)
  {
    var ts := Thresholds(curve);
    forall q | q in pairs
      ensures best.Some? && Gap(pairs, best.value.threshold) <= Gap(pairs, Finite(q.score))
      ensures Gap(pairs, best.value.threshold) == Gap(pairs, Finite(q.score)) ==> best.value.threshold.value <= q.score
    {
      assert IsCandidate(pairs, Finite(q.score));
      var i :| 0 <= i < |ts| && ts[i] == Finite(q.score);
      assert curve[i].threshold == Finite(q.score);
    }
    if pairs != [] {
      assert pairs[0] in pairs;
    }
    if best.Some? {
      var b :| 0 <= b < |curve| && curve[b] == best.value;
      assert ts[b] in ts;
      assert IsCandidate(pairs, best.value.threshold);
    }
  }

  /** A score that is at least every score in `pairs`. */
  lemma {:induction false} Highest(pairs: seq<ScoredPair>) returns (top: ScoredPair)
    requires pairs != []
    ensures top in pairs && forall p :: p in pairs ==> p.score <= top.score
  {
    top := pairs[0];
    if |pairs| > 1 {
      var rest := Highest(pairs[1..]);
      if rest.score > top.score {
        top := rest;
      }
      assert forall p :: p in pairs ==> p == pairs[0] || p in pairs[1..];
    }
  }

  /** The lowest observed score that a threshold lets through has the same rates as that threshold. */
  lemma SameRatesAtAnObservedScore(pairs: seq<ScoredPair>, r: real) returns (q: ScoredPair)
    requires exists p :: p in pairs && p.score >= r
    ensures q in pairs && Gap(pairs, Finite(q.score)) == Gap(pairs, Finite(r))
  {
    var p :| p in pairs && p.score >= r;
    q := p;
    for n := 0 to |pairs|
      invariant q in pairs && q.score >= r
      invariant forall i :: 0 <= i < n && pairs[i].score >= r ==> q.score <= pairs[i].score
    {
      if r <= pairs[n].score < q.score {
        q := pairs[n];
      }
    }
    Sums.SumEqual(pairs, AcceptedImpostor(Finite(r)), AcceptedImpostor(Finite(q.score)));
    Sums.SumEqual(pairs, RejectedGenuine(Finite(r)), RejectedGenuine(Finite(q.score)));
  }

  /**
   Searching the observed scores alone finds the smallest gap over every real threshold
   exactly when at least one genuine pair was supplied.
   */
  lemma ObservedScoresSufficeIffGenuine(pairs: seq<ScoredPair>, score: real)
    requires IsEqualErrorPoint(pairs, score)
    ensures (forall r: real :: Gap(pairs, Finite(score)) <= Gap(pairs, Finite(r))) <==> GenuineCount(pairs) > 0
  {
    Counts(pairs);
    var top := Highest(pairs);
    if GenuineCount(pairs) > 0 {
      forall r: real ensures Gap(pairs, Finite(score)) <= Gap(pairs, Finite(r)) {
        if exists p :: p in pairs && p.score >= r {
          var q := SameRatesAtAnObservedScore(pairs, r);
        } else {
          AboveEveryScore(pairs, r);
          RatesAreFractions(pairs, Finite(score));
        }
      }
    } else {
      AboveEveryScore(pairs, top.score + 1.0);
      var p :| p in pairs && p.score == score;
      ZeroRates(pairs, Finite(score));
      assert Finite(score).Accepts(p.score);
      assert FarAtThreshold(pairs, Finite(score)) != 0.0;
      assert Gap(pairs, Finite(top.score + 1.0)) < Gap(pairs, Finite(score));
    }
  }

  lemma AboveEveryScore(pairs: seq<ScoredPair>, r: real)
    requires forall p :: p in pairs ==> p.score < r
    ensures Gap(pairs, Finite(r)) == if GenuineCount(pairs) > 0 then 1.0 else 0.0
  {
    RatesAtInfinity(pairs);
    Counts(pairs);
    Sums.SumEqual(pairs, AcceptedImpostor(Finite(r)), AcceptedImpostor(PosInfinity));
    Sums.SumEqual(pairs, RejectedGenuine(Finite(r)), RejectedGenuine(PosInfinity));
  }

  ghost predicate Separated(pairs: seq<ScoredPair>) {
    forall g, i :: g in pairs && i in pairs && g.isGenuine && !i.isGenuine ==> i.score < g.score
  }

  /** With both classes present the reported rate is zero exactly for perfectly separated scores. */
  lemma ZeroRateIffSeparated(pairs: seq<ScoredPair>, score: real)
    requires IsEqualErrorPoint(pairs, score)
    requires GenuineCount(pairs) > 0 && ImpostorCount(pairs) > 0
    ensures (FarAtThreshold(pairs, Finite(score)) + FrrAtThreshold(pairs, Finite(score))) / 2.0 == 0.0 <==>
      Separated(pairs)
  {
    RatesAreFractions(pairs, Finite(score));
    ZeroRates(pairs, Finite(score));
    Counts(pairs);
    if Separated(pairs) {
      var g :| g in pairs && g.isGenuine;
      var low := LowestGenuine(pairs, g);
      ZeroRates(pairs, Finite(low.score));
      assert Gap(pairs, Finite(score)) <= Gap(pairs, Finite(low.score)) == 0.0;
    }
  }

  lemma LowestGenuine(pairs: seq<ScoredPair>, g: ScoredPair) returns (low: ScoredPair)
    requires g in pairs && g.isGenuine
    ensures low in pairs && low.isGenuine && forall p :: p in pairs && p.isGenuine ==> low.score <= p.score
  {
    low := g;
    for n := 0 to |pairs|
      invariant low in pairs && low.isGenuine
      invariant forall i :: 0 <= i < n && pairs[i].isGenuine ==> low.score <= pairs[i].score
    {
      if pairs[n].isGenuine && pairs[n].score < low.score {
        low := pairs[n];
      }
    }
  }
}
