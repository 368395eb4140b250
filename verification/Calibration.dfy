/**
 Threshold calibration: false accept and false reject rates, the exact ROC curve, the
 equal error rate and the area under the curve, over exact reals.
 */
module Calibration {
  import opened Sums
  import opened Sorting

  datatype ScoredPair = ScoredPair(score: real, isGenuine: bool)

  /** A decision threshold: a real number or one of the two infinities. */
  datatype Threshold = NegInfinity | Finite(value: real) | PosInfinity {
    predicate Accepts(score: real) {
      match this
      case NegInfinity => true
      case Finite(v) => score >= v
      case PosInfinity => false
    }

    predicate AtMost(other: Threshold) {
      NegInfinity? || other.PosInfinity? || (Finite? && other.Finite? && value <= other.value)
    }

    predicate Below(other: Threshold) {
      this != other && AtMost(other)
    }
  }

  datatype RocPoint = RocPoint(threshold: Threshold, far: real, frr: real)

  // ----- counting -----

  function Impostor(): ScoredPair -> int {
    (p: ScoredPair) => if p.isGenuine then 0 else 1
  }

  function Genuine(): ScoredPair -> int {
    (p: ScoredPair) => if p.isGenuine then 1 else 0
  }

  function AcceptedImpostor(t: Threshold): ScoredPair -> int {
    (p: ScoredPair) => if !p.isGenuine && t.Accepts(p.score) then 1 else 0
  }

  function RejectedGenuine(t: Threshold): ScoredPair -> int {
    (p: ScoredPair) => if p.isGenuine && !t.Accepts(p.score) then 1 else 0
  }

  function ImpostorCount(pairs: seq<ScoredPair>): int {
    Sum(pairs, Impostor())
  }

  function GenuineCount(pairs: seq<ScoredPair>): int {
    Sum(pairs, Genuine())
  }

  lemma {:induction false} SumOfIndicator(pairs: seq<ScoredPair>, f: ScoredPair -> int)
    requires forall p :: p in pairs ==> f(p) == 0 || f(p) == 1
    ensures 0 <= Sum(pairs, f) <= |pairs|
    ensures Sum(pairs, f) == 0 <==> forall p :: p in pairs ==> f(p) == 0
  {
    if pairs != [] {
      assert pairs[0] in pairs;
      assert forall p :: p in pairs[1..] ==> p in pairs;
      assert forall p :: p in pairs ==> p == pairs[0] || p in pairs[1..];
      SumOfIndicator(pairs[1..], f);
    }
  }

  lemma Counts(pairs: seq<ScoredPair>)
    ensures ImpostorCount(pairs) >= 0 && GenuineCount(pairs) >= 0
    ensures ImpostorCount(pairs) == 0 <==> forall p :: p in pairs ==> p.isGenuine
    ensures GenuineCount(pairs) == 0 <==> forall p :: p in pairs ==> !p.isGenuine
  {
    SumOfIndicator(pairs, Impostor());
    SumOfIndicator(pairs, Genuine());
    assert forall p :: Impostor()(p) == 0 <==> p.isGenuine;
    assert forall p :: Genuine()(p) == 0 <==> !p.isGenuine;
  }

  // ----- rates -----

  function FarAtThreshold(pairs: seq<ScoredPair>, threshold: Threshold): real {
    var impostors := ImpostorCount(pairs);
    if impostors == 0 then 0.0
    else Sum(pairs, AcceptedImpostor(threshold)) as real / impostors as real
  }

  function FrrAtThreshold(pairs: seq<ScoredPair>, threshold: Threshold): real {
    var genuine := GenuineCount(pairs);
    if genuine == 0 then 0.0
    else Sum(pairs, RejectedGenuine(threshold)) as real / genuine as real
  }

  lemma DivideMonotone(a: int, b: int, n: int)
    requires a <= b && n > 0
    ensures a as real / n as real <= b as real / n as real
    ensures n as real / n as real == 1.0
  {
  }

  /** A stricter threshold accepts no more impostors and rejects no fewer genuine pairs. */
  lemma RatesAreMonotone(pairs: seq<ScoredPair>, lo: Threshold, hi: Threshold)
    requires lo.AtMost(hi)
    ensures FarAtThreshold(pairs, hi) <= FarAtThreshold(pairs, lo)
    ensures FrrAtThreshold(pairs, lo) <= FrrAtThreshold(pairs, hi)
  {
    Counts(pairs);
    SumBounds(pairs, AcceptedImpostor(hi), AcceptedImpostor(lo));
    SumBounds(pairs, RejectedGenuine(lo), RejectedGenuine(hi));
    if ImpostorCount(pairs) > 0 {
      DivideMonotone(Sum(pairs, AcceptedImpostor(hi)), Sum(pairs, AcceptedImpostor(lo)), ImpostorCount(pairs));
    }
    if GenuineCount(pairs) > 0 {
      DivideMonotone(Sum(pairs, RejectedGenuine(lo)), Sum(pairs, RejectedGenuine(hi)), GenuineCount(pairs));
    }
  }

  lemma RatesAtInfinity(pairs: seq<ScoredPair>)
    ensures FarAtThreshold(pairs, PosInfinity) == 0.0 && FrrAtThreshold(pairs, NegInfinity) == 0.0
    ensures ImpostorCount(pairs) > 0 ==> FarAtThreshold(pairs, NegInfinity) == 1.0
    ensures GenuineCount(pairs) > 0 ==> FrrAtThreshold(pairs, PosInfinity) == 1.0
  {
    SumZero(pairs, AcceptedImpostor(PosInfinity));
    SumZero(pairs, RejectedGenuine(NegInfinity));
    SumEqual(pairs, AcceptedImpostor(NegInfinity), Impostor());
    SumEqual(pairs, RejectedGenuine(PosInfinity), Genuine());
    Counts(pairs);
    if ImpostorCount(pairs) > 0 {
      DivideMonotone(0, 0, ImpostorCount(pairs));
    }
    if GenuineCount(pairs) > 0 {
      DivideMonotone(0, 0, GenuineCount(pairs));
    }
  }

  lemma RatesAreFractions(pairs: seq<ScoredPair>, t: Threshold)
    ensures 0.0 <= FarAtThreshold(pairs, t) <= 1.0 && 0.0 <= FrrAtThreshold(pairs, t) <= 1.0
  {
    RatesAreMonotone(pairs, NegInfinity, t);
    RatesAreMonotone(pairs, t, PosInfinity);
    RatesAtInfinity(pairs);
    Counts(pairs);
  }

  /** FAR is zero exactly when no impostor is accepted, FRR exactly when no genuine pair is rejected. */
  lemma ZeroRates(pairs: seq<ScoredPair>, t: Threshold)
    ensures FarAtThreshold(pairs, t) == 0.0 <==> forall p :: p in pairs && !p.isGenuine ==> !t.Accepts(p.score)
    ensures FrrAtThreshold(pairs, t) == 0.0 <==> forall p :: p in pairs && p.isGenuine ==> t.Accepts(p.score)
  {
    Counts(pairs);
    SumOfIndicator(pairs, AcceptedImpostor(t));
    SumOfIndicator(pairs, RejectedGenuine(t));
    assert forall p :: AcceptedImpostor(t)(p) == 0 <==> p.isGenuine || !t.Accepts(p.score);
    assert forall p :: RejectedGenuine(t)(p) == 0 <==> !p.isGenuine || t.Accepts(p.score);
  }

  function Indices(pairs: seq<ScoredPair>, f: ScoredPair -> int): set<int> {
    set i | 0 <= i < |pairs| && f(pairs[i]) == 1
  }

  lemma {:induction false} SumCountsIndices(pairs: seq<ScoredPair>, f: ScoredPair -> int)
    requires forall p :: f(p) == 0 || f(p) == 1
    ensures Sum(pairs, f) == |Indices(pairs, f)|
  {
    if pairs != [] {
      var n := |pairs| - 1;
      SumCountsIndices(pairs[..n], f);
      assert pairs == pairs[..n] + [pairs[n]];
      SumConcat(pairs[..n], [pairs[n]], f);
      assert Indices(pairs, f) == Indices(pairs[..n], f) + if f(pairs[n]) == 1 then {n} else {};
    }
  }

  /**
   The rates are shares of pairs: of the impostor pairs those scoring at the threshold or above, of the
   genuine pairs those scoring below it.
   */
  lemma RatesAreShares(pairs: seq<ScoredPair>, t: real)
    ensures
      var impostors := set i | 0 <= i < |pairs| && !pairs[i].isGenuine;
      var accepted := set i | 0 <= i < |pairs| && !pairs[i].isGenuine && pairs[i].score >= t;
      && ImpostorCount(pairs) == |impostors|
      && FarAtThreshold(pairs, Finite(t)) == if impostors == {} then 0.0 else |accepted| as real / |impostors| as real
    ensures
      var genuine := set i | 0 <= i < |pairs| && pairs[i].isGenuine;
      var rejected := set i | 0 <= i < |pairs| && pairs[i].isGenuine && pairs[i].score < t;
      && GenuineCount(pairs) == |genuine|
      && FrrAtThreshold(pairs, Finite(t)) == if genuine == {} then 0.0 else |rejected| as real / |genuine| as real
  {
    SumCountsIndices(pairs, Impostor());
    SumCountsIndices(pairs, AcceptedImpostor(Finite(t)));
    SumCountsIndices(pairs, Genuine());
    SumCountsIndices(pairs, RejectedGenuine(Finite(t)));
    assert Indices(pairs, Impostor()) == set i | 0 <= i < |pairs| && !pairs[i].isGenuine;
    assert Indices(pairs, AcceptedImpostor(Finite(t)))
        == set i | 0 <= i < |pairs| && !pairs[i].isGenuine && pairs[i].score >= t;
    assert Indices(pairs, Genuine()) == set i | 0 <= i < |pairs| && pairs[i].isGenuine;
    assert Indices(pairs, RejectedGenuine(Finite(t)))
        == set i | 0 <= i < |pairs| && pairs[i].isGenuine && pairs[i].score < t;
  }

  // ----- the ROC curve -----

  function PointAt(pairs: seq<ScoredPair>, t: Threshold): RocPoint {
    RocPoint(t, FarAtThreshold(pairs, t), FrrAtThreshold(pairs, t))
  }

  ghost predicate Ascending(ts: seq<Threshold>) {
    forall i, j :: 0 <= i < j < |ts| ==> ts[i].Below(ts[j])
  }

  ghost predicate IsCandidate(pairs: seq<ScoredPair>, t: Threshold) {
    t.NegInfinity? || t.PosInfinity? || exists p :: p in pairs && t == Finite(p.score)
  }

  function Thresholds(curve: seq<RocPoint>): (r: seq<Threshold>)
    ensures |r| == |curve|
    ensures forall i :: 0 <= i < |r| ==> r[i] == curve[i].threshold
  {
    seq(|curve|, i requires 0 <= i < |curve| => curve[i].threshold)
  }

  /** The curve holds one exact point for every distinct score and both infinities, thresholds ascending. */
  ghost predicate IsRocCurve(pairs: seq<ScoredPair>, curve: seq<RocPoint>) {
    && Ascending(Thresholds(curve))
    && (forall t :: t in Thresholds(curve) <==> IsCandidate(pairs, t))
    && (forall i :: 0 <= i < |curve| ==> curve[i] == PointAt(pairs, curve[i].threshold))
  }

  /** Removes adjacent equal elements, as `dedup_by` does. */
  method Dedup(ts: seq<Threshold>) returns (kept: seq<Threshold>)
    requires forall i, j :: 0 <= i < j < |ts| ==> ts[i].AtMost(ts[j])
    ensures Ascending(kept)
    ensures forall t :: t in kept <==> t in ts
  {
    kept := [];
    for n := 0 to |ts|
      invariant Ascending(kept)
      invariant forall t :: t in kept <==> t in ts[..n]
      invariant n > 0 ==> kept != [] && kept[|kept| - 1] == ts[n - 1]
    {
      assert ts[..n + 1] == ts[..n] + [ts[n]];
      if n == 0 || kept[|kept| - 1] != ts[n] {
        forall i | 0 <= i < |kept| ensures kept[i].Below(ts[n]) {
          assert kept[i] in ts[..n];
        }
        kept := kept + [ts[n]];
      }
    }
    assert ts[..|ts|] == ts;
  }

  function AtMostOrder(): (Threshold, Threshold) -> bool {
    (a: Threshold, b: Threshold) => a.AtMost(b)
  }

  function ObservedThresholds(pairs: seq<ScoredPair>): seq<Threshold> {
    seq(|pairs|, i requires 0 <= i < |pairs| => Finite(pairs[i].score))
  }

  lemma CandidatesAreListed(pairs: seq<ScoredPair>, ts: seq<Threshold>)
    requires ts == ObservedThresholds(pairs) + [NegInfinity, PosInfinity]
    ensures forall t :: t in ts <==> IsCandidate(pairs, t)
  {
    assert ts[|pairs|] == NegInfinity && ts[|pairs| + 1] == PosInfinity;
    forall t ensures t in ts <==> IsCandidate(pairs, t) {
      if IsCandidate(pairs, t) && t.Finite? {
        var p :| p in pairs && t == Finite(p.score);
        var k :| 0 <= k < |pairs| && pairs[k] == p;
        assert ts[k] == t;
      }
    }
  }

  lemma CurveFromThresholds(pairs: seq<ScoredPair>, kept: seq<Threshold>, curve: seq<RocPoint>)
    requires Ascending(kept) && forall t :: t in kept <==> IsCandidate(pairs, t)
    requires |curve| == |kept| && forall i :: 0 <= i < |kept| ==> curve[i] == PointAt(pairs, kept[i])
    ensures IsRocCurve(pairs, curve)
  {
    assert Thresholds(curve) == kept;
  }

  method RocCurve(pairs: seq<ScoredPair>) returns (curve: seq<RocPoint>)
    ensures IsRocCurve(pairs, curve)
    ensures |curve| >= 2
  {
    var thresholds := ObservedThresholds(pairs);
    thresholds := thresholds + [NegInfinity];
    thresholds := thresholds + [PosInfinity];
    CandidatesAreListed(pairs, thresholds);
    var sorted := Sort(thresholds, AtMostOrder());
    SortSorts(thresholds, AtMostOrder());
    SameElements(sorted, thresholds);
    var kept := Dedup(sorted);
    curve := seq(|kept|, i requires 0 <= i < |kept| => PointAt(pairs, kept[i]));
    CurveFromThresholds(pairs, kept, curve);
    EndsOfCurve(pairs, curve);
  }

  lemma EndsOfCurve(pairs: seq<ScoredPair>, curve: seq<RocPoint>)
    requires IsRocCurve(pairs, curve)
    ensures |curve| >= 2 && curve[0].threshold == NegInfinity && curve[|curve| - 1].threshold == PosInfinity
  {
    var ts := Thresholds(curve);
    assert IsCandidate(pairs, NegInfinity) && IsCandidate(pairs, PosInfinity);
    var i :| 0 <= i < |ts| && ts[i] == NegInfinity;
    var j :| 0 <= j < |ts| && ts[j] == PosInfinity;
    assert i > 0 ==> ts[0].Below(ts[i]);
    assert j < |ts| - 1 ==> ts[j].Below(ts[|ts| - 1]);
  }

  /** No score separates two neighbouring thresholds of the curve. */
  lemma NeighboursLeaveNoGap(pairs: seq<ScoredPair>, curve: seq<RocPoint>, k: nat, p: ScoredPair)
    requires IsRocCurve(pairs, curve) && k + 1 < |curve| && p in pairs
    ensures curve[k].threshold.Accepts(p.score) <==>
            curve[k + 1].threshold.Accepts(p.score) || curve[k].threshold == Finite(p.score)
  {
    var ts := Thresholds(curve);
    assert IsCandidate(pairs, Finite(p.score));
    var i :| 0 <= i < |ts| && ts[i] == Finite(p.score);
    assert ts[k].Below(ts[k + 1]);
    if i < k {
      assert ts[i].Below(ts[k]);
    } else if i > k + 1 {
      assert ts[k + 1].Below(ts[i]);
    }
  }

  /** Both error rates are monotone along the curve. */
  lemma CurveIsMonotone(pairs: seq<ScoredPair>, curve: seq<RocPoint>, i: nat, j: nat)
    requires IsRocCurve(pairs, curve) && i < j < |curve|
    ensures curve[j].far <= curve[i].far && curve[i].frr <= curve[j].frr
  {
    assert Thresholds(curve)[i].Below(Thresholds(curve)[j]);
    RatesAreMonotone(pairs, curve[i].threshold, curve[j].threshold);
  }

  /** Every threshold whatever produces the error rates of some point on the curve. */
  lemma CurveIsComplete(pairs: seq<ScoredPair>, curve: seq<RocPoint>, t: Threshold) returns (k: nat)
    requires IsRocCurve(pairs, curve)
    ensures k < |curve| && t.AtMost(curve[k].threshold)
    ensures curve[k].far == FarAtThreshold(pairs, t) && curve[k].frr == FrrAtThreshold(pairs, t)
  {
    EndsOfCurve(pairs, curve);
    k := 0;
    while !t.AtMost(curve[k].threshold)
      invariant k < |curve|
      invariant forall i :: 0 <= i < k ==> !t.AtMost(curve[i].threshold)
      decreases |curve| - k
    {
      k := k + 1;
    }
    var ts := Thresholds(curve);
    forall p | p in pairs ensures t.Accepts(p.score) <==> curve[k].threshold.Accepts(p.score) {
      assert IsCandidate(pairs, Finite(p.score));
      var i :| 0 <= i < |ts| && ts[i] == Finite(p.score);
      if i < k {
        assert !t.AtMost(curve[i].threshold);
        assert ts[i].Below(ts[k]);
      } else if k < i {
        assert ts[k].Below(ts[i]);
      }
    }
    SumEqual(pairs, AcceptedImpostor(t), AcceptedImpostor(curve[k].threshold));
    SumEqual(pairs, RejectedGenuine(t), RejectedGenuine(curve[k].threshold));
  }

  /** The specification leaves one curve only. */
  lemma {:induction false} CurveIsUnique(pairs: seq<ScoredPair>, a: seq<RocPoint>, b: seq<RocPoint>)
    requires IsRocCurve(pairs, a) && IsRocCurve(pairs, b)
    ensures a == b
  {
    AscendingIsUnique(Thresholds(a), Thresholds(b));
    assert forall i :: 0 <= i < |a| ==> Thresholds(a)[i] == Thresholds(b)[i];
  }

  lemma HeadNotInTail(ts: seq<Threshold>)
    requires Ascending(ts) && ts != []
    ensures ts[0] !in ts[1..]
  {
    assert forall j :: 0 < j < |ts| ==> ts[0].Below(ts[j]);
  }

  lemma {:induction false} AscendingIsUnique(a: seq<Threshold>, b: seq<Threshold>)
    requires Ascending(a) && Ascending(b)
    requires forall t :: t in a <==> t in b
    ensures a == b
  {
    if a == [] {
      assert forall t :: t in multiset(b) ==> t in b;
      assert |multiset(b)| == 0;
    } else {
      assert a[0] in b;
      assert b[0] in a;
      assert a[0] == b[0];
      HeadNotInTail(a);
      HeadNotInTail(b);
      forall t ensures t in a[1..] <==> t in b[1..] {
        assert t in a <==> t == a[0] || t in a[1..];
        assert t in b <==> t == b[0] || t in b[1..];
      }
      AscendingIsUnique(a[1..], b[1..]);
    }
  }
}
