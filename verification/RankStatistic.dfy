/**
 The trapezoidal area under the ROC curve is the Mann-Whitney rank statistic: the share of
 (genuine, impostor) couples ranked correctly, ties counting one half.
 */
module RankStatistic {
  import opened Sums
  import opened RealMath
  import opened Calibration

  /** Twice the credit of one couple: 2 when the genuine score is higher, 1 on a tie. */
  function Credit(g: ScoredPair, i: ScoredPair): int {
    if !g.isGenuine || i.isGenuine then 0
    else if g.score > i.score then 2
    else if g.score == i.score then 1
    else 0
  }

  function CreditWith(i: ScoredPair): ScoredPair -> int {
    (g: ScoredPair) => Credit(g, i)
  }

  function CreditAgainst(pairs: seq<ScoredPair>): ScoredPair -> int {
    (i: ScoredPair) => Sum(pairs, CreditWith(i))
  }

  /** Twice the Mann-Whitney U statistic. */
  function TwiceU(pairs: seq<ScoredPair>): int {
    Sum(pairs, CreditAgainst(pairs))
  }

  function MannWhitney(pairs: seq<ScoredPair>): real
    requires GenuineCount(pairs) > 0 && ImpostorCount(pairs) > 0
  {
    AreaOfCredit(TwiceU(pairs), GenuineCount(pairs), ImpostorCount(pairs))
  }

  /** Half the credit, as a share of all `n * m` couples. */
  function AreaOfCredit(credit: int, n: int, m: int): real
    requires n > 0 && m > 0
  {
    credit as real / (2.0 * (n as real * m as real))
  }

  /** The value of `auc` on every input, the two one-class cases included. */
  function AucValue(pairs: seq<ScoredPair>): real {
    if ImpostorCount(pairs) == 0 then 0.0
    else if GenuineCount(pairs) == 0 then 1.0
    else Counts(pairs); MannWhitney(pairs)
  }

  // ----- the loop -----

  function AcceptedGenuine(t: Threshold): ScoredPair -> int {
    (p: ScoredPair) => if p.isGenuine && t.Accepts(p.score) then 1 else 0
  }

  /** The credit collected by the impostors a threshold accepts. */
  function CollectedCredit(pairs: seq<ScoredPair>, t: Threshold): ScoredPair -> int {
    (i: ScoredPair) => if !i.isGenuine && t.Accepts(i.score) then CreditAgainst(pairs)(i) else 0
  }

  /** A genuine pair's credit against an impostor at the lower of two neighbouring thresholds. */
  lemma CreditAtBoundary(pairs: seq<ScoredPair>, lo: Threshold, hi: Threshold, i: ScoredPair)
    requires !i.isGenuine && lo == Finite(i.score) && !hi.Accepts(i.score)
    requires forall p :: p in pairs ==> (lo.Accepts(p.score) <==> hi.Accepts(p.score) || lo == Finite(p.score))
    ensures CreditAgainst(pairs)(i) == Sum(pairs, AcceptedGenuine(lo)) + Sum(pairs, AcceptedGenuine(hi))
  {
    SumLinear(pairs, AcceptedGenuine(lo), AcceptedGenuine(hi), CreditWith(i), 1);
  }

  function NewlyAccepted(lo: Threshold, hi: Threshold): ScoredPair -> int {
    (p: ScoredPair) => if !p.isGenuine && lo.Accepts(p.score) && !hi.Accepts(p.score) then 1 else 0
  }

  lemma CreditStep(pairs: seq<ScoredPair>, lo: Threshold, hi: Threshold, p: ScoredPair, height: int)
    requires p in pairs && lo.Below(hi)
    requires forall p :: p in pairs ==> (lo.Accepts(p.score) <==> hi.Accepts(p.score) || lo == Finite(p.score))
    requires height == Sum(pairs, AcceptedGenuine(lo)) + Sum(pairs, AcceptedGenuine(hi))
    ensures CollectedCredit(pairs, lo)(p) == CollectedCredit(pairs, hi)(p) + height * NewlyAccepted(lo, hi)(p)
  {
    assert lo.Accepts(p.score) <==> hi.Accepts(p.score) || lo == Finite(p.score);
    if !p.isGenuine && lo == Finite(p.score) {
      CreditAtBoundary(pairs, lo, hi, p);
      assert NewlyAccepted(lo, hi)(p) == 1;
    } else {
      assert NewlyAccepted(lo, hi)(p) == 0;
    }
  }

  /** Moving one threshold down the curve adds exactly the trapezoid between the two points. */
  lemma TrapezoidStep(pairs: seq<ScoredPair>, lo: Threshold, hi: Threshold)
    requires forall p :: p in pairs ==> (lo.Accepts(p.score) <==> hi.Accepts(p.score) || lo == Finite(p.score))
    requires lo.Below(hi)
    ensures Sum(pairs, CollectedCredit(pairs, lo)) - Sum(pairs, CollectedCredit(pairs, hi)) ==
            (Sum(pairs, AcceptedImpostor(lo)) - Sum(pairs, AcceptedImpostor(hi)))
            * (Sum(pairs, AcceptedGenuine(lo)) + Sum(pairs, AcceptedGenuine(hi)))
  {
    var height := Sum(pairs, AcceptedGenuine(lo)) + Sum(pairs, AcceptedGenuine(hi));
    forall p | p in pairs
      ensures CollectedCredit(pairs, lo)(p) == CollectedCredit(pairs, hi)(p) + height * NewlyAccepted(lo, hi)(p)
    {
      CreditStep(pairs, lo, hi, p, height);
    }
    SumLinear(pairs, CollectedCredit(pairs, hi), NewlyAccepted(lo, hi), CollectedCredit(pairs, lo), height);
    SumLinear(pairs, AcceptedImpostor(lo), AcceptedImpostor(hi), NewlyAccepted(lo, hi), -1);
    Factor(Sum(pairs, CollectedCredit(pairs, lo)), Sum(pairs, CollectedCredit(pairs, hi)), height,
           Sum(pairs, NewlyAccepted(lo, hi)), Sum(pairs, AcceptedImpostor(lo)), Sum(pairs, AcceptedImpostor(hi)));
  }

  lemma Factor(after: int, before: int, height: int, width: int, right: int, left: int)
    requires after == before + height * width && width == right + -1 * left
    ensures after - before == (right - left) * height
  {
  }

  lemma ComplementaryShares(a: real, b: real, n: real)
    requires a + b == n && n > 0.0
    ensures 1.0 - a / n == b / n
  {
    var share := b / n;
    assert share * n == b;
    assert (1.0 - share) * n == a;
    Quotient(1.0 - share, n, a);
  }

  /** The true accept rate, the vertical axis of the plotted curve. */
  function TarAtThreshold(pairs: seq<ScoredPair>, t: Threshold): real {
    1.0 - FrrAtThreshold(pairs, t)
  }

  lemma TrueAcceptRate(pairs: seq<ScoredPair>, t: Threshold)
    requires GenuineCount(pairs) > 0
    ensures TarAtThreshold(pairs, t) == Sum(pairs, AcceptedGenuine(t)) as real / GenuineCount(pairs) as real
  {
    SumLinear(pairs, RejectedGenuine(t), AcceptedGenuine(t), Genuine(), 1);
    ComplementaryShares(Sum(pairs, RejectedGenuine(t)) as real, Sum(pairs, AcceptedGenuine(t)) as real,
      GenuineCount(pairs) as real);
  }

  function Trapezoid(x0: real, y0: real, x1: real, y1: real): real {
    (x1 - x0) * (y0 + y1) / 2.0
  }

  lemma ProductOfShares(a: real, b: real, m: real, n: real)
    requires m > 0.0 && n > 0.0
    ensures (a / m) * (b / n) == (a * b) / (n * m)
  {
    var p, q := a / m, b / n;
    assert a == p * m && b == q * n;
    assert a * b == (p * q) * (n * m);
  }

  /** The trapezoid between two curve points, in terms of the underlying counts. */
  lemma TrapezoidFromCounts(c1: int, c0: int, x1: int, x0: int, y1: int, y0: int, m: int, n: int)
    requires m > 0 && n > 0
    requires c1 - c0 == (x1 - x0) * (y1 + y0)
    ensures AreaOfCredit(c1, n, m) == AreaOfCredit(c0, n, m)
            + Trapezoid(x0 as real / m as real, y0 as real / n as real, x1 as real / m as real, y1 as real / n as real)
  {
    var dx, height := (x1 - x0) as real, (y1 + y0) as real;
    var nm := n as real * m as real;
    ProductAsReal(x1 - x0, y1 + y0);
    ProductOfShares(dx, height, m as real, n as real);
    assert x1 as real / m as real - x0 as real / m as real == dx / m as real;
    assert y0 as real / n as real + y1 as real / n as real == height / n as real;
    Halve(c1 as real, c0 as real, dx * height, nm);
  }

  lemma Halve(c1: real, c0: real, d: real, nm: real)
    requires nm > 0.0 && c1 - c0 == d
    ensures c1 / (2.0 * nm) - c0 / (2.0 * nm) == d / nm / 2.0
  {
  }

  /** The exact area collected so far, when the walk has reached threshold `t`. */
  function AreaDownTo(pairs: seq<ScoredPair>, t: Threshold): real {
    if ImpostorCount(pairs) == 0 then 0.0
    else if GenuineCount(pairs) == 0 then FarAtThreshold(pairs, t)
    else Counts(pairs); AreaOfCredit(Sum(pairs, CollectedCredit(pairs, t)), GenuineCount(pairs), ImpostorCount(pairs))
  }

  lemma AreaStepBothClasses(pairs: seq<ScoredPair>, lo: Threshold, hi: Threshold)
    requires ImpostorCount(pairs) > 0 && GenuineCount(pairs) > 0
    requires forall p :: p in pairs ==> (lo.Accepts(p.score) <==> hi.Accepts(p.score) || lo == Finite(p.score))
    requires lo.Below(hi)
    ensures AreaDownTo(pairs, lo) == AreaDownTo(pairs, hi)
            + Trapezoid(FarAtThreshold(pairs, hi), TarAtThreshold(pairs, hi),
                        FarAtThreshold(pairs, lo), TarAtThreshold(pairs, lo))
  {
    var m, n := ImpostorCount(pairs), GenuineCount(pairs);
    var x1, x0 := Sum(pairs, AcceptedImpostor(lo)), Sum(pairs, AcceptedImpostor(hi));
    var y1, y0 := Sum(pairs, AcceptedGenuine(lo)), Sum(pairs, AcceptedGenuine(hi));
    var c1, c0 := Sum(pairs, CollectedCredit(pairs, lo)), Sum(pairs, CollectedCredit(pairs, hi));
    TrapezoidStep(pairs, lo, hi);
    TrueAcceptRate(pairs, lo);
    TrueAcceptRate(pairs, hi);
    TrapezoidFromCounts(c1, c0, x1, x0, y1, y0, m, n);
  }

  lemma AreaStep(pairs: seq<ScoredPair>, lo: Threshold, hi: Threshold)
    requires forall p :: p in pairs ==> (lo.Accepts(p.score) <==> hi.Accepts(p.score) || lo == Finite(p.score))
    requires lo.Below(hi)
    ensures AreaDownTo(pairs, lo) == AreaDownTo(pairs, hi)
            + Trapezoid(FarAtThreshold(pairs, hi), TarAtThreshold(pairs, hi),
                        FarAtThreshold(pairs, lo), TarAtThreshold(pairs, lo))
  {
    Counts(pairs);
    if ImpostorCount(pairs) > 0 && GenuineCount(pairs) > 0 {
      AreaStepBothClasses(pairs, lo, hi);
    }
  }

  lemma ProductAsReal(a: int, b: int)
    ensures (a * b) as real == a as real * b as real
  {
  }

  lemma AreaAtTheEnds(pairs: seq<ScoredPair>)
    ensures AreaDownTo(pairs, PosInfinity) == 0.0
    ensures AreaDownTo(pairs, NegInfinity) == AucValue(pairs)
  {
    forall i | i in pairs
      ensures CollectedCredit(pairs, PosInfinity)(i) == 0
      ensures CollectedCredit(pairs, NegInfinity)(i) == CreditAgainst(pairs)(i)
    {
      assert !PosInfinity.Accepts(i.score) && NegInfinity.Accepts(i.score);
      if i.isGenuine {
        SumZero(pairs, CreditWith(i));
      }
    }
    SumZero(pairs, CollectedCredit(pairs, PosInfinity));
    SumEqual(pairs, CollectedCredit(pairs, NegInfinity), CreditAgainst(pairs));
    RatesAtInfinity(pairs);
    Counts(pairs);
  }

  /** The curve as plotted: (FAR, true accept rate), strictest threshold first. */
  function PlottedPoints(curve: seq<RocPoint>): (points: seq<(real, real)>)
    ensures |points| == |curve|
    ensures forall k :: 0 <= k < |points| ==>
      points[k] == (curve[|curve| - 1 - k].far, 1.0 - curve[|curve| - 1 - k].frr)
  {
    seq(|curve|, k requires 0 <= k < |curve| => (curve[|curve| - 1 - k].far, 1.0 - curve[|curve| - 1 - k].frr))
  }

  lemma AreaAlongCurve(pairs: seq<ScoredPair>, curve: seq<RocPoint>, k: nat, strip: real)
    requires IsRocCurve(pairs, curve) && k + 1 < |curve|
    requires var (x0, y0) := PlottedPoints(curve)[k];
             var (x1, y1) := PlottedPoints(curve)[k + 1];
             strip == Trapezoid(x0, y0, x1, y1)
    ensures AreaDownTo(pairs, curve[|curve| - 2 - k].threshold) ==
            AreaDownTo(pairs, curve[|curve| - 1 - k].threshold) + strip
  {
    var lower := |curve| - 2 - k;
    var lo, hi := curve[lower].threshold, curve[lower + 1].threshold;
    forall p | p in pairs ensures lo.Accepts(p.score) <==> hi.Accepts(p.score) || lo == Finite(p.score) {
      NeighboursLeaveNoGap(pairs, curve, lower, p);
    }
    assert Thresholds(curve)[lower].Below(Thresholds(curve)[lower + 1]);
    AreaStep(pairs, lo, hi);
    assert curve[lower] == PointAt(pairs, lo) && curve[lower + 1] == PointAt(pairs, hi);
    assert PlottedPoints(curve)[k] == (FarAtThreshold(pairs, hi), TarAtThreshold(pairs, hi));
    assert PlottedPoints(curve)[k + 1] == (FarAtThreshold(pairs, lo), TarAtThreshold(pairs, lo));
  }

  method Auc(pairs: seq<ScoredPair>) returns (area: real)
    ensures area == AucValue(pairs)
  {
    hide AreaDownTo, AucValue, IsRocCurve;
    var curve := RocCurve(pairs);
    var points := PlottedPoints(curve);
    area := 0.0;
    EndsOfCurve(pairs, curve);
    AreaAtTheEnds(pairs);
    for k := 0 to |points| - 1
      invariant area == AreaDownTo(pairs, curve[|curve| - 1 - k].threshold)
    {
      var (x0, y0) := points[k];
      var (x1, y1) := points[k + 1];
      var strip := (x1 - x0) * (y0 + y1) / 2.0;
      AreaAlongCurve(pairs, curve, k, strip);
      area := area + strip;
    }
  }

  // ----- the statistic as a count of couples -----

  function Win(i: ScoredPair): ScoredPair -> int {
    (g: ScoredPair) => if g.isGenuine && !i.isGenuine && g.score > i.score then 1 else 0
  }

  function Tie(i: ScoredPair): ScoredPair -> int {
    (g: ScoredPair) => if g.isGenuine && !i.isGenuine && g.score == i.score then 1 else 0
  }

  function RowCount(pairs: seq<ScoredPair>, rel: ScoredPair -> ScoredPair -> int): ScoredPair -> int {
    (i: ScoredPair) => Sum(pairs, rel(i))
  }

  /** The couples of indices related by `rel`, the second of them below `n`. */
  function Couples(pairs: seq<ScoredPair>, n: int, rel: ScoredPair -> ScoredPair -> int): set<(int, int)>
    requires 0 <= n <= |pairs|
  {
    set g, i | 0 <= g < |pairs| && 0 <= i < n && rel(pairs[i])(pairs[g]) == 1 :: (g, i)
  }

  function Column<T>(indices: set<T>, n: int): set<(T, int)> {
    set g | g in indices :: (g, n)
  }

  lemma {:induction false} ColumnSize<T>(indices: set<T>, n: int)
    ensures |Column(indices, n)| == |indices|
    decreases |indices|
  {
    if |indices| > 0 {
      var x :| x in indices;
      ColumnSize(indices - {x}, n);
      assert Column(indices, n) == Column(indices - {x}, n) + {(x, n)};
    } else {
      assert Column(indices, n) == {};
    }
  }

  lemma LastColumn(pairs: seq<ScoredPair>, n: int, rel: ScoredPair -> ScoredPair -> int)
    requires 0 < n <= |pairs|
    ensures |Couples(pairs, n, rel)| == |Couples(pairs, n - 1, rel)| + |Indices(pairs, rel(pairs[n - 1]))|
  {
    var indices := Indices(pairs, rel(pairs[n - 1]));
    var before, column := Couples(pairs, n - 1, rel), Column(indices, n - 1);
    forall c | c in Couples(pairs, n, rel) ensures c in before + column {
      assert c.1 < n - 1 || c.0 in indices;
    }
    forall c | c in before + column ensures c in Couples(pairs, n, rel) {
    }
    assert Couples(pairs, n, rel) == before + column;
    assert before !! column;
    ColumnSize(indices, n - 1);
  }

  lemma {:induction false} SumCountsCouples(pairs: seq<ScoredPair>, n: int, rel: ScoredPair -> ScoredPair -> int)
    requires 0 <= n <= |pairs|
    requires forall i, g :: rel(i)(g) == 0 || rel(i)(g) == 1
    ensures Sum(pairs[..n], RowCount(pairs, rel)) == |Couples(pairs, n, rel)|
  {
    if n == 0 {
      assert Couples(pairs, n, rel) == {};
    } else {
      hide Couples, Indices, Sum;
      var last := pairs[n - 1];
      SumCountsCouples(pairs, n - 1, rel);
      assert pairs[..n] == pairs[..n - 1] + [last];
      SumConcat(pairs[..n - 1], [last], RowCount(pairs, rel));
      SumOfOne(last, RowCount(pairs, rel));
      SumCountsIndices(pairs, rel(last));
      LastColumn(pairs, n, rel);
    }
  }

  lemma SumOfOne(x: ScoredPair, f: ScoredPair -> int)
    ensures Sum([x], f) == f(x)
  {
  }

  lemma CreditIsWinsAndTies(pairs: seq<ScoredPair>)
    ensures TwiceU(pairs) == Sum(pairs, RowCount(pairs, Tie)) + 2 * Sum(pairs, RowCount(pairs, Win))
  {
    forall i | i in pairs
      ensures CreditAgainst(pairs)(i) == RowCount(pairs, Tie)(i) + 2 * RowCount(pairs, Win)(i)
    {
      SumLinear(pairs, Tie(i), Win(i), CreditWith(i), 2);
    }
    SumLinear(pairs, RowCount(pairs, Tie), RowCount(pairs, Win), CreditAgainst(pairs), 2);
  }

  /**
   With both classes present the area is the share of (genuine, impostor) couples in which the genuine
   pair scores higher, couples with equal scores counting one half.
   */
  lemma AucCountsCouples(pairs: seq<ScoredPair>)
    requires (exists g :: g in pairs && g.isGenuine) && (exists i :: i in pairs && !i.isGenuine)
    ensures
      var genuine := set g | 0 <= g < |pairs| && pairs[g].isGenuine;
      var impostors := set i | 0 <= i < |pairs| && !pairs[i].isGenuine;
      var wins := set g, i | 0 <= g < |pairs| && 0 <= i < |pairs|
        && g in genuine && i in impostors && pairs[g].score > pairs[i].score :: (g, i);
      var ties := set g, i | 0 <= g < |pairs| && 0 <= i < |pairs|
        && g in genuine && i in impostors && pairs[g].score == pairs[i].score :: (g, i);
      && |genuine| > 0 && |impostors| > 0
      && AucValue(pairs) * (2.0 * (|genuine| as real * |impostors| as real)) == (2 * |wins| + |ties|) as real
  {
    hide *;
    TwiceUCountsCouples(pairs);
    CouplesSpelledOut(pairs);
    AucTimesAll(pairs);
    RatesAreShares(pairs, 0.0);
  }

  lemma TwiceUCountsCouples(pairs: seq<ScoredPair>)
    ensures TwiceU(pairs) == 2 * |Couples(pairs, |pairs|, Win)| + |Couples(pairs, |pairs|, Tie)|
  {
    hide Couples, Sum;
    CreditIsWinsAndTies(pairs);
    assert pairs[..|pairs|] == pairs;
    SumCountsCouples(pairs, |pairs|, Win);
    SumCountsCouples(pairs, |pairs|, Tie);
  }

  lemma AucTimesAll(pairs: seq<ScoredPair>)
    requires (exists g :: g in pairs && g.isGenuine) && (exists i :: i in pairs && !i.isGenuine)
    ensures GenuineCount(pairs) > 0 && ImpostorCount(pairs) > 0
    ensures
      AucValue(pairs) * (2.0 * (GenuineCount(pairs) as real * ImpostorCount(pairs) as real)) == TwiceU(pairs) as real
  {
    hide TwiceU, GenuineCount, ImpostorCount, AreaOfCredit;
    Counts(pairs);
    ShareTimesAll(TwiceU(pairs), GenuineCount(pairs), ImpostorCount(pairs));
  }

  lemma CouplesSpelledOut(pairs: seq<ScoredPair>)
    ensures
      var genuine := set g | 0 <= g < |pairs| && pairs[g].isGenuine;
      var impostors := set i | 0 <= i < |pairs| && !pairs[i].isGenuine;
      && Couples(pairs, |pairs|, Win) == (set g, i | 0 <= g < |pairs| && 0 <= i < |pairs|
           && g in genuine && i in impostors && pairs[g].score > pairs[i].score :: (g, i))
      && Couples(pairs, |pairs|, Tie) == (set g, i | 0 <= g < |pairs| && 0 <= i < |pairs|
           && g in genuine && i in impostors && pairs[g].score == pairs[i].score :: (g, i))
  {
  }

  lemma ShareTimesAll(credit: int, n: int, m: int)
    requires n > 0 && m > 0
    ensures AreaOfCredit(credit, n, m) * (2.0 * (n as real * m as real)) == credit as real
  {
    var all := 2.0 * (n as real * m as real);
    ProductSign(n as real, m as real);
    assert all > 0.0 && AreaOfCredit(credit, n, m) == credit as real / all;
  }

  // ----- what the statistic means -----

  /** Every couple earns between none and all of its credit. */
  lemma CreditBounds(pairs: seq<ScoredPair>)
    ensures 0 <= TwiceU(pairs) <= 2 * GenuineCount(pairs) * ImpostorCount(pairs)
    ensures TwiceU(pairs) == 2 * GenuineCount(pairs) * ImpostorCount(pairs) <==>
            forall g, i :: g in pairs && i in pairs && g.isGenuine && !i.isGenuine ==> i.score < g.score
  {
    var full := (i: ScoredPair) => 2 * GenuineCount(pairs) * Impostor()(i);
    var none := (i: ScoredPair) => 0;
    forall i | i in pairs
      ensures 0 <= CreditAgainst(pairs)(i) <= full(i)
      ensures CreditAgainst(pairs)(i) == full(i) <==>
              forall g :: g in pairs && g.isGenuine && !i.isGenuine ==> i.score < g.score
    {
      CreditAgainstBounds(pairs, i);
    }
    SumZero(pairs, none);
    SumBounds(pairs, none, CreditAgainst(pairs));
    SumBounds(pairs, CreditAgainst(pairs), full);
    SumLinear(pairs, none, Impostor(), full, 2 * GenuineCount(pairs));
    if forall i :: i in pairs ==> CreditAgainst(pairs)(i) == full(i) {
      SumEqual(pairs, CreditAgainst(pairs), full);
    }
  }

  lemma CreditAgainstBounds(pairs: seq<ScoredPair>, i: ScoredPair)
    ensures 0 <= CreditAgainst(pairs)(i) <= 2 * GenuineCount(pairs) * Impostor()(i)
    ensures CreditAgainst(pairs)(i) == 2 * GenuineCount(pairs) * Impostor()(i) <==>
            forall g :: g in pairs && g.isGenuine && !i.isGenuine ==> i.score < g.score
  {
    var credit := CreditWith(i);
    var none := (g: ScoredPair) => 0;
    SumZero(pairs, none);
    SumBounds(pairs, none, credit);
    if i.isGenuine {
      SumZero(pairs, credit);
      return;
    }
    var full := (g: ScoredPair) => 2 * Genuine()(g);
    forall g | g in pairs ensures credit(g) <= full(g) {
      assert Genuine()(g) == if g.isGenuine then 1 else 0;
    }
    SumBounds(pairs, credit, full);
    SumLinear(pairs, none, Genuine(), full, 2);
    if forall g :: g in pairs && g.isGenuine && !i.isGenuine ==> i.score < g.score {
      SumEqual(pairs, credit, full);
    }
  }

  lemma AucInUnitInterval(pairs: seq<ScoredPair>)
    ensures 0.0 <= AucValue(pairs) <= 1.0
  {
    Counts(pairs);
    if ImpostorCount(pairs) > 0 && GenuineCount(pairs) > 0 {
      CreditBounds(pairs);
      ShareOfAll(TwiceU(pairs), GenuineCount(pairs), ImpostorCount(pairs));
    }
  }

  lemma ShareOfAll(credit: int, n: int, m: int)
    requires n > 0 && m > 0 && 0 <= credit <= 2 * n * m
    ensures 0.0 <= AreaOfCredit(credit, n, m) <= 1.0
    ensures AreaOfCredit(credit, n, m) == 1.0 <==> credit == 2 * n * m
    ensures AreaOfCredit(2 * n * m - credit, n, m) == 1.0 - AreaOfCredit(credit, n, m)
  {
    var all := 2.0 * (n as real * m as real);
    ProductAsReal(n, m);
    assert all == (2 * n * m) as real;
    var share := credit as real / all;
    assert share * all == credit as real;
    Quotient(1.0 - share, all, (2 * n * m - credit) as real);
  }

  /** The area is one exactly when every genuine score exceeds every impostor score. */
  lemma AucOneIffSeparated(pairs: seq<ScoredPair>)
    requires GenuineCount(pairs) > 0 && ImpostorCount(pairs) > 0
    ensures AucValue(pairs) == 1.0 <==>
            forall g, i :: g in pairs && i in pairs && g.isGenuine && !i.isGenuine ==> i.score < g.score
  {
    CreditBounds(pairs);
    ShareOfAll(TwiceU(pairs), GenuineCount(pairs), ImpostorCount(pairs));
  }

  lemma AucIgnoresOrder(pairs: seq<ScoredPair>, other: seq<ScoredPair>)
    requires multiset(pairs) == multiset(other)
    ensures AucValue(pairs) == AucValue(other)
  {
    SumPermutation(pairs, other, Genuine());
    SumPermutation(pairs, other, Impostor());
    forall i: ScoredPair ensures CreditAgainst(pairs)(i) == CreditAgainst(other)(i) {
      SumPermutation(pairs, other, CreditWith(i));
    }
    SumEqual(pairs, CreditAgainst(pairs), CreditAgainst(other));
    SumPermutation(pairs, other, CreditAgainst(other));
  }

  function MapPairs(pairs: seq<ScoredPair>, f: ScoredPair -> ScoredPair): (r: seq<ScoredPair>)
    ensures |r| == |pairs|
    ensures forall k :: 0 <= k < |r| ==> r[k] == f(pairs[k])
  {
    seq(|pairs|, k requires 0 <= k < |pairs| => f(pairs[k]))
  }

  function Compose(h: ScoredPair -> int, f: ScoredPair -> ScoredPair): ScoredPair -> int {
    (p: ScoredPair) => h(f(p))
  }

  lemma {:induction false} SumOfMapped(pairs: seq<ScoredPair>, f: ScoredPair -> ScoredPair, h: ScoredPair -> int)
    ensures Sum(MapPairs(pairs, f), h) == Sum(pairs, Compose(h, f))
  {
    if pairs != [] {
      assert MapPairs(pairs, f)[1..] == MapPairs(pairs[1..], f);
      SumOfMapped(pairs[1..], f, h);
    }
  }

  function Rescored(f: real -> real): ScoredPair -> ScoredPair {
    (p: ScoredPair) => ScoredPair(f(p.score), p.isGenuine)
  }

  ghost predicate StrictlyIncreasing(f: real -> real) {
    forall x, y :: x < y ==> f(x) < f(y)
  }

  lemma RescoredCredit(pairs: seq<ScoredPair>, f: real -> real, i: ScoredPair)
    requires StrictlyIncreasing(f)
    ensures CreditAgainst(MapPairs(pairs, Rescored(f)))(Rescored(f)(i)) == CreditAgainst(pairs)(i)
  {
    var credit := CreditWith(Rescored(f)(i));
    SumOfMapped(pairs, Rescored(f), credit);
    forall g: ScoredPair ensures CreditWith(i)(g) == Compose(credit, Rescored(f))(g) {
      RescoredCouple(f, g, i);
    }
    SumEqual(pairs, CreditWith(i), Compose(credit, Rescored(f)));
  }

  lemma RescoredCouple(f: real -> real, g: ScoredPair, i: ScoredPair)
    requires StrictlyIncreasing(f)
    ensures Credit(Rescored(f)(g), Rescored(f)(i)) == Credit(g, i)
  {
    assert g.score < i.score ==> f(g.score) < f(i.score);
    assert i.score < g.score ==> f(i.score) < f(g.score);
  }

  lemma RescoredCounts(pairs: seq<ScoredPair>, f: real -> real)
    ensures GenuineCount(MapPairs(pairs, Rescored(f))) == GenuineCount(pairs)
    ensures ImpostorCount(MapPairs(pairs, Rescored(f))) == ImpostorCount(pairs)
  {
    SumOfMapped(pairs, Rescored(f), Genuine());
    SumEqual(pairs, Genuine(), Compose(Genuine(), Rescored(f)));
    SumOfMapped(pairs, Rescored(f), Impostor());
    SumEqual(pairs, Impostor(), Compose(Impostor(), Rescored(f)));
  }

  /** Only the order of the scores matters. */
  lemma AucIgnoresMonotoneRescoring(pairs: seq<ScoredPair>, f: real -> real)
    requires StrictlyIncreasing(f)
    ensures AucValue(MapPairs(pairs, Rescored(f))) == AucValue(pairs)
  {
    var mapped := MapPairs(pairs, Rescored(f));
    RescoredCounts(pairs, f);
    SumOfMapped(pairs, Rescored(f), CreditAgainst(mapped));
    forall i: ScoredPair ensures CreditAgainst(mapped)(Rescored(f)(i)) == CreditAgainst(pairs)(i) {
      RescoredCredit(pairs, f, i);
    }
    SumEqual(pairs, CreditAgainst(pairs), Compose(CreditAgainst(mapped), Rescored(f)));
  }

  function Relabelled(): ScoredPair -> ScoredPair {
    (p: ScoredPair) => ScoredPair(p.score, !p.isGenuine)
  }

  /** Swapping the labels turns the area into its complement, on every input but the empty one. */
  lemma AucOfSwappedLabels(pairs: seq<ScoredPair>)
    ensures AucValue(MapPairs(pairs, Relabelled())) == 1.0 - AucValue(pairs) <==> pairs != []
  {
    Counts(pairs);
    SwappedCounts(pairs);
    if pairs != [] {
      assert pairs[0] in pairs;
      if GenuineCount(pairs) > 0 && ImpostorCount(pairs) > 0 {
        SwappedCredit(pairs);
        SumOfFullCredit(pairs);
        CreditBounds(pairs);
        ShareOfAll(TwiceU(pairs), GenuineCount(pairs), ImpostorCount(pairs));
        AreaIsSymmetric(2 * GenuineCount(pairs) * ImpostorCount(pairs) - TwiceU(pairs), GenuineCount(pairs),
          ImpostorCount(pairs));
      }
    }
  }

  lemma AreaIsSymmetric(credit: int, n: int, m: int)
    requires n > 0 && m > 0
    ensures AreaOfCredit(credit, n, m) == AreaOfCredit(credit, m, n)
  {
    assert n as real * m as real == m as real * n as real;
  }

  lemma SwappedCounts(pairs: seq<ScoredPair>)
    ensures GenuineCount(MapPairs(pairs, Relabelled())) == ImpostorCount(pairs)
    ensures ImpostorCount(MapPairs(pairs, Relabelled())) == GenuineCount(pairs)
  {
    SumOfMapped(pairs, Relabelled(), Genuine());
    SumEqual(pairs, Impostor(), Compose(Genuine(), Relabelled()));
    SumOfMapped(pairs, Relabelled(), Impostor());
    SumEqual(pairs, Genuine(), Compose(Impostor(), Relabelled()));
  }

  function CreditFrom(g: ScoredPair): ScoredPair -> int {
    (i: ScoredPair) => Credit(g, i)
  }

  /** The credit `i`, taken as the genuine side, earns against every impostor. */
  function CreditFor(pairs: seq<ScoredPair>): ScoredPair -> int {
    (i: ScoredPair) => Sum(pairs, CreditFrom(i))
  }

  /** The credit of `g` against `i` when both labels are swapped. */
  function SwappedCreditWith(i: ScoredPair): ScoredPair -> int {
    (g: ScoredPair) => Credit(Relabelled()(g), Relabelled()(i))
  }

  function SwappedCreditOf(pairs: seq<ScoredPair>): ScoredPair -> int {
    (i: ScoredPair) => Sum(pairs, SwappedCreditWith(i))
  }

  lemma TwiceUByGenuine(pairs: seq<ScoredPair>)
    ensures TwiceU(pairs) == Sum(pairs, CreditFor(pairs))
  {
    var k := (g: ScoredPair, i: ScoredPair) => Credit(g, i);
    SumExchange(pairs, pairs, k);
    forall y | y in pairs ensures ColumnSums(k, pairs)(y) == CreditAgainst(pairs)(y) {
      SumEqual(pairs, FixSecond(k, y), CreditWith(y));
    }
    SumEqual(pairs, ColumnSums(k, pairs), CreditAgainst(pairs));
    forall x | x in pairs ensures RowSums(k, pairs)(x) == CreditFor(pairs)(x) {
      SumEqual(pairs, FixFirst(k, x), CreditFrom(x));
    }
    SumEqual(pairs, RowSums(k, pairs), CreditFor(pairs));
  }

  lemma TwiceUOfSwapped(pairs: seq<ScoredPair>)
    ensures TwiceU(MapPairs(pairs, Relabelled())) == Sum(pairs, SwappedCreditOf(pairs))
  {
    var swap := Relabelled();
    var mapped := MapPairs(pairs, swap);
    SumOfMapped(pairs, swap, CreditAgainst(mapped));
    forall i: ScoredPair ensures CreditAgainst(mapped)(swap(i)) == SwappedCreditOf(pairs)(i) {
      SumOfMapped(pairs, swap, CreditWith(swap(i)));
      SumEqual(pairs, SwappedCreditWith(i), Compose(CreditWith(swap(i)), swap));
    }
    SumEqual(pairs, SwappedCreditOf(pairs), Compose(CreditAgainst(mapped), swap));
  }

  lemma CreditsAddUp(pairs: seq<ScoredPair>, i: ScoredPair)
    ensures SwappedCreditOf(pairs)(i) + CreditFor(pairs)(i) == if i.isGenuine then 2 * ImpostorCount(pairs) else 0
  {
    var swapped, plain := SwappedCreditWith(i), CreditFrom(i);
    if i.isGenuine {
      var all, none := (g: ScoredPair) => 2 * Impostor()(g), (g: ScoredPair) => 0;
      forall g | g in pairs ensures all(g) == swapped(g) + 1 * plain(g) {
        assert Impostor()(g) == if g.isGenuine then 0 else 1;
        assert Relabelled()(g) == ScoredPair(g.score, !g.isGenuine) && Relabelled()(i) == ScoredPair(i.score, false);
      }
      SumLinear(pairs, swapped, plain, all, 1);
      SumZero(pairs, none);
      SumLinear(pairs, none, Impostor(), all, 2);
    } else {
      forall g | g in pairs ensures swapped(g) == 0 {
        assert Relabelled()(g) == ScoredPair(g.score, !g.isGenuine) && Relabelled()(i) == ScoredPair(i.score, true);
      }
      SumZero(pairs, swapped);
      SumZero(pairs, plain);
    }
  }

  function FullCredit(pairs: seq<ScoredPair>): ScoredPair -> int {
    (i: ScoredPair) => if i.isGenuine then 2 * ImpostorCount(pairs) else 0
  }

  lemma SumOfFullCredit(pairs: seq<ScoredPair>)
    ensures Sum(pairs, FullCredit(pairs)) == 2 * GenuineCount(pairs) * ImpostorCount(pairs)
  {
    var none := (i: ScoredPair) => 0;
    var m := 2 * ImpostorCount(pairs);
    SumZero(pairs, none);
    forall i | i in pairs ensures FullCredit(pairs)(i) == none(i) + m * Genuine()(i) {
      assert Genuine()(i) == if i.isGenuine then 1 else 0;
    }
    SumLinear(pairs, none, Genuine(), FullCredit(pairs), m);
  }

  /** Each couple's credit and its credit with the labels swapped add up to two. */
  lemma SwappedCredit(pairs: seq<ScoredPair>)
    ensures TwiceU(MapPairs(pairs, Relabelled())) + TwiceU(pairs) == Sum(pairs, FullCredit(pairs))
  {
    TwiceUByGenuine(pairs);
    TwiceUOfSwapped(pairs);
    forall i | i in pairs ensures FullCredit(pairs)(i) == SwappedCreditOf(pairs)(i) + 1 * CreditFor(pairs)(i) {
      CreditsAddUp(pairs, i);
    }
    SumLinear(pairs, SwappedCreditOf(pairs), CreditFor(pairs), FullCredit(pairs), 1);
  }
}
