/**
 The similarity transform that maps detected landmarks onto the reference template:
 the closed form of the least-squares fit, over exact reals.
 */
module Alignment {
  import opened RealMath
  import opened Geometry

  /** A 2x3 affine transform `[a b tx; c d ty]`. */
  datatype AffineTransform = AffineTransform(a: real, b: real, c: real, d: real, tx: real, ty: real) {
    function Apply(p: Point): Point {
      Point(a * p.x + b * p.y + tx, c * p.x + d * p.y + ty)
    }
  }

  /** A rotation by any angle, scaled by any non-negative factor, then a translation. */
  function Similarity(p: real, q: real, tx: real, ty: real): AffineTransform {
    AffineTransform(p, -q, q, p, tx, ty)
  }

  /** The mathematical library: only these laws of its functions are used. */
  datatype Trigonometry = Trigonometry(sqrt: real -> real, atan2: (real, real) -> real, sin: real -> real,
    cos: real -> real)

  ghost predicate Lawful(m: Trigonometry) {
    && LawfulSqrt(m.sqrt)
    && (forall t :: m.sin(t) * m.sin(t) + m.cos(t) * m.cos(t) == 1.0)
    && (forall y, x ::
          && m.sqrt(x * x + y * y) * m.cos(m.atan2(y, x)) == x
          && m.sqrt(x * x + y * y) * m.sin(m.atan2(y, x)) == y)
  }

  // ----- moments of the point pairs -----

  /**
   Sums over point pairs, each point taken relative to a reference point of its side:
   the number of pairs, squared distances, dot and cross products, and plain sums.
   */
  datatype Moments = Moments(n: real, dstVar: real, srcVar: real, dot: real, cross: real,
                             srcX: real, srcY: real, dstX: real, dstY: real)
  {
    function Plus(o: Moments): Moments {
      Moments(n + o.n, dstVar + o.dstVar, srcVar + o.srcVar, dot + o.dot, cross + o.cross,
              srcX + o.srcX, srcY + o.srcY, dstX + o.dstX, dstY + o.dstY)
    }
  }

  function PairMoments(sx: real, sy: real, dx: real, dy: real): Moments {
    Moments(1.0, dx * dx + dy * dy, sx * sx + sy * sy, dx * sx + dy * sy, dy * sx - dx * sy, sx, sy, dx, dy)
  }

  function MomentsOf(src: seq<Point>, dst: seq<Point>, ms: Point, md: Point): Moments
    requires |src| == |dst|
  {
    if src == [] then Moments(0.0, 0.0, 0.0, 0.0, 0.0, 0.0, 0.0, 0.0, 0.0)
    else PairMoments(src[0].x - ms.x, src[0].y - ms.y, dst[0].x - md.x, dst[0].y - md.y)
         .Plus(MomentsOf(src[1..], dst[1..], ms, md))
  }

  /** The squared residual of a transform on the point pairs. */
  function Residual(t: AffineTransform, src: seq<Point>, dst: seq<Point>): real
    requires |src| == |dst|
  {
    if src == [] then 0.0 else SquaredError(t, src[0], dst[0]) + Residual(t, src[1..], dst[1..])
  }

  function SquaredError(t: AffineTransform, s: Point, d: Point): real {
    var image := t.Apply(s);
    (d.x - image.x) * (d.x - image.x) + (d.y - image.y) * (d.y - image.y)
  }

  // ----- the residual as a quadratic -----

  /** How far the image of `ms` misses `md`. */
  function Miss(t: AffineTransform, ms: Point, md: Point): Point {
    Point(md.x - t.Apply(ms).x, md.y - t.Apply(ms).y)
  }

  /** The residual of a similarity (p, q) that misses by (ex, ey), in terms of the moments. */
  function Expanded(p: real, q: real, ex: real, ey: real, m: Moments): real {
    m.dstVar + (p * p + q * q) * m.srcVar - 2.0 * p * m.dot - 2.0 * q * m.cross
    + (ex * ex + ey * ey) * m.n
    + 2.0 * ex * (m.dstX - p * m.srcX + q * m.srcY)
    + 2.0 * ey * (m.dstY - q * m.srcX - p * m.srcY)
  }

  lemma ExpandedIsAdditive(p: real, q: real, ex: real, ey: real, a: Moments, b: Moments)
    ensures Expanded(p, q, ex, ey, a.Plus(b)) == Expanded(p, q, ex, ey, a) + Expanded(p, q, ex, ey, b)
  {
  }

  lemma PairErrorExpands(p: real, q: real, ex: real, ey: real, sx: real, sy: real, dx: real, dy: real)
    ensures
      (dx - (p * sx - q * sy) + ex) * (dx - (p * sx - q * sy) + ex)
      + (dy - (q * sx + p * sy) + ey) * (dy - (q * sx + p * sy) + ey)
      == Expanded(p, q, ex, ey, PairMoments(sx, sy, dx, dy))
  {
  }

  lemma SquaredErrorExpands(p: real, q: real, tx: real, ty: real, s: Point, d: Point, ms: Point, md: Point)
    ensures
      var t := Similarity(p, q, tx, ty);
      SquaredError(t, s, d) ==
      Expanded(p, q, Miss(t, ms, md).x, Miss(t, ms, md).y, PairMoments(s.x - ms.x, s.y - ms.y, d.x - md.x, d.y - md.y))
  {
    var t := Similarity(p, q, tx, ty);
    var e := Miss(t, ms, md);
    PairErrorExpands(p, q, e.x, e.y, s.x - ms.x, s.y - ms.y, d.x - md.x, d.y - md.y);
    assert d.x - t.Apply(s).x == (d.x - md.x) - (p * (s.x - ms.x) - q * (s.y - ms.y)) + e.x;
    assert d.y - t.Apply(s).y == (d.y - md.y) - (q * (s.x - ms.x) + p * (s.y - ms.y)) + e.y;
  }

  lemma {:induction false} ResidualExpands(
    p: real, q: real, tx: real, ty: real, src: seq<Point>, dst: seq<Point>, ms: Point, md: Point)
    requires |src| == |dst|
    ensures
      var t := Similarity(p, q, tx, ty);
      Residual(t, src, dst) == Expanded(p, q, Miss(t, ms, md).x, Miss(t, ms, md).y, MomentsOf(src, dst, ms, md))
  {
    if src != [] {
      var e := Miss(Similarity(p, q, tx, ty), ms, md);
      ResidualExpands(p, q, tx, ty, src[1..], dst[1..], ms, md);
      SquaredErrorExpands(p, q, tx, ty, src[0], dst[0], ms, md);
      ExpandedIsAdditive(p, q, e.x, e.y,
                         PairMoments(src[0].x - ms.x, src[0].y - ms.y, dst[0].x - md.x, dst[0].y - md.y),
                         MomentsOf(src[1..], dst[1..], ms, md));
    }
  }

  // ----- means -----

  function SumX(ps: seq<Point>): real {
    if ps == [] then 0.0 else ps[0].x + SumX(ps[1..])
  }

  function SumY(ps: seq<Point>): real {
    if ps == [] then 0.0 else ps[0].y + SumY(ps[1..])
  }

  function Mean(ps: seq<Point>): Point
    requires ps != []
  {
    Point(SumX(ps) / |ps| as real, SumY(ps) / |ps| as real)
  }

  lemma {:induction false} PlainSums(src: seq<Point>, dst: seq<Point>, ms: Point, md: Point)
    requires |src| == |dst|
    ensures
      var m := MomentsOf(src, dst, ms, md);
      && m.n == |src| as real
      && m.srcX == SumX(src) - m.n * ms.x && m.srcY == SumY(src) - m.n * ms.y
      && m.dstX == SumX(dst) - m.n * md.x && m.dstY == SumY(dst) - m.n * md.y
  {
    hide PairMoments;
    if src != [] {
      PlainSums(src[1..], dst[1..], ms, md);
      var head := PairMoments(src[0].x - ms.x, src[0].y - ms.y, dst[0].x - md.x, dst[0].y - md.y);
      PlainPart(src[0].x - ms.x, src[0].y - ms.y, dst[0].x - md.x, dst[0].y - md.y);
      var m, rest := MomentsOf(src, dst, ms, md), MomentsOf(src[1..], dst[1..], ms, md);
      assert m == head.Plus(rest);
      OneMore(src[0].x, ms.x, rest.n, m.n);
      OneMore(src[0].y, ms.y, rest.n, m.n);
      OneMore(dst[0].x, md.x, rest.n, m.n);
      OneMore(dst[0].y, md.y, rest.n, m.n);
    }
  }

  lemma PlainPart(sx: real, sy: real, dx: real, dy: real)
    ensures var m := PairMoments(sx, sy, dx, dy);
            m.n == 1.0 && m.srcX == sx && m.srcY == sy && m.dstX == dx && m.dstY == dy
  {
  }

  lemma OneMore(x: real, c: real, n: real, n1: real)
    requires n1 == 1.0 + n
    ensures (x - c) - n * c == x - n1 * c
  {
  }

  /** The moments around the two means. */
  function Centred(src: seq<Point>, dst: seq<Point>): Moments
    requires |src| == |dst| > 0
  {
    MomentsOf(src, dst, Mean(src), Mean(dst))
  }

  lemma CentredSumsVanish(src: seq<Point>, dst: seq<Point>)
    requires |src| == |dst| > 0
    ensures var m := Centred(src, dst);
            m.n == |src| as real && m.srcX == 0.0 && m.srcY == 0.0 && m.dstX == 0.0 && m.dstY == 0.0
  {
    hide MomentsOf;
    PlainSums(src, dst, Mean(src), Mean(dst));
    var n := |src| as real;
    MeanTimesCount(SumX(src), n);
    MeanTimesCount(SumY(src), n);
    MeanTimesCount(SumX(dst), n);
    MeanTimesCount(SumY(dst), n);
  }

  lemma MeanTimesCount(total: real, n: real)
    requires n > 0.0
    ensures n * (total / n) == total
  {
  }

  /** Coinciding source points have no variance, and then nothing correlates with them. */
  lemma {:induction false} VarianceVanishes(src: seq<Point>, dst: seq<Point>, ms: Point, md: Point)
    requires |src| == |dst|
    ensures var m := MomentsOf(src, dst, ms, md);
            m.srcVar >= 0.0 && (m.srcVar == 0.0 ==> m.dot == 0.0 && m.cross == 0.0)
  {
    hide PairMoments;
    if src != [] {
      var sx, sy, dx, dy := src[0].x - ms.x, src[0].y - ms.y, dst[0].x - md.x, dst[0].y - md.y;
      VarianceVanishes(src[1..], dst[1..], ms, md);
      PairVarianceVanishes(sx, sy, dx, dy);
      assert MomentsOf(src, dst, ms, md) == PairMoments(sx, sy, dx, dy).Plus(MomentsOf(src[1..], dst[1..], ms, md));
    }
  }

  lemma PairVarianceVanishes(sx: real, sy: real, dx: real, dy: real)
    ensures var m := PairMoments(sx, sy, dx, dy);
            m.srcVar >= 0.0 && (m.srcVar == 0.0 ==> m.dot == 0.0 && m.cross == 0.0)
  {
    SumOfSquares(sx, sy);
  }

  // ----- the least-squares optimum -----

  function MissOf(t: AffineTransform, src: seq<Point>, dst: seq<Point>): Point
    requires |src| == |dst| > 0
  {
    Miss(t, Mean(src), Mean(dst))
  }

  /** The normal equations of the fit. */
  ghost predicate Normal(p: real, q: real, tx: real, ty: real, src: seq<Point>, dst: seq<Point>)
    requires |src| == |dst| > 0
  {
    var m := Centred(src, dst);
    && p * m.srcVar == m.dot
    && q * m.srcVar == m.cross
    && MissOf(Similarity(p, q, tx, ty), src, dst) == Point(0.0, 0.0)
  }

  /** How much worse a similarity is than one that solves the normal equations: a sum of squares. */
  function Excess(v: real, n: real, p: real, q: real, p0: real, q0: real, ex: real, ey: real): real {
    v * ((p - p0) * (p - p0) + (q - q0) * (q - q0)) + n * (ex * ex + ey * ey)
  }

  lemma QuadraticGap(p: real, q: real, p0: real, q0: real, ex: real, ey: real, m: Moments)
    requires p0 * m.srcVar == m.dot && q0 * m.srcVar == m.cross
    requires m.srcX == 0.0 && m.srcY == 0.0 && m.dstX == 0.0 && m.dstY == 0.0
    ensures Expanded(p, q, ex, ey, m) - Expanded(p0, q0, 0.0, 0.0, m) == Excess(m.srcVar, m.n, p, q, p0, q0, ex, ey)
  {
    assert m.dot * p == p0 * p * m.srcVar && m.dot * p0 == p0 * p0 * m.srcVar;
    assert m.cross * q == q0 * q * m.srcVar && m.cross * q0 == q0 * q0 * m.srcVar;
  }

  lemma ResidualGap(
    p: real, q: real, tx: real, ty: real, p0: real, q0: real, tx0: real, ty0: real, src: seq<Point>, dst: seq<Point>)
    requires |src| == |dst| > 0 && Normal(p0, q0, tx0, ty0, src, dst)
    ensures
      var m := Centred(src, dst);
      var e := MissOf(Similarity(p, q, tx, ty), src, dst);
      Residual(Similarity(p, q, tx, ty), src, dst) - Residual(Similarity(p0, q0, tx0, ty0), src, dst)
      == Excess(m.srcVar, m.n, p, q, p0, q0, e.x, e.y)
  {
    hide Expanded, Excess, Residual, MomentsOf, Mean;
    var e := MissOf(Similarity(p, q, tx, ty), src, dst);
    ResidualExpands(p, q, tx, ty, src, dst, Mean(src), Mean(dst));
    ResidualExpands(p0, q0, tx0, ty0, src, dst, Mean(src), Mean(dst));
    CentredSumsVanish(src, dst);
    QuadraticGap(p, q, p0, q0, e.x, e.y, Centred(src, dst));
  }

  lemma ExcessSign(v: real, n: real, p: real, q: real, p0: real, q0: real, ex: real, ey: real)
    requires v >= 0.0 && n > 0.0
    ensures Excess(v, n, p, q, p0, q0, ex, ey) >= 0.0
    ensures Excess(v, n, p, q, p0, q0, ex, ey) == 0.0 ==>
      ex == 0.0 && ey == 0.0 && (v == 0.0 || (p == p0 && q == q0))
  {
    SumOfSquares(p - p0, q - q0);
    SumOfSquares(ex, ey);
    ProductSign(v, (p - p0) * (p - p0) + (q - q0) * (q - q0));
    ProductSign(n, ex * ex + ey * ey);
  }

  /** No rotation, scale and translation whatever has a smaller squared residual. */
  ghost predicate IsBest(p: real, q: real, tx: real, ty: real, src: seq<Point>, dst: seq<Point>)
    requires |src| == |dst|
  {
    forall p', q', tx', ty' ::
      Residual(Similarity(p, q, tx, ty), src, dst) <= Residual(Similarity(p', q', tx', ty'), src, dst)
  }

  /** The translation that carries one mean onto the other. */
  lemma NormalTranslation(p: real, q: real, src: seq<Point>, dst: seq<Point>) returns (tx: real, ty: real)
    requires |src| == |dst| > 0
    ensures MissOf(Similarity(p, q, tx, ty), src, dst) == Point(0.0, 0.0)
  {
    var ms, md := Mean(src), Mean(dst);
    tx := md.x - (p * ms.x - q * ms.y);
    ty := md.y - (q * ms.x + p * ms.y);
  }

  /** Least squares and the normal equations say the same. */
  lemma BestIffNormal(p: real, q: real, tx: real, ty: real, src: seq<Point>, dst: seq<Point>)
    requires |src| == |dst| > 0
    ensures IsBest(p, q, tx, ty, src, dst) <==> Normal(p, q, tx, ty, src, dst)
  {
    hide Excess, Residual, Miss, Mean, MomentsOf;
    var m := Centred(src, dst);
    var e := MissOf(Similarity(p, q, tx, ty), src, dst);
    VarianceVanishes(src, dst, Mean(src), Mean(dst));
    CentredSumsVanish(src, dst);
    if Normal(p, q, tx, ty, src, dst) {
      forall p', q', tx', ty'
        ensures Residual(Similarity(p, q, tx, ty), src, dst) <= Residual(Similarity(p', q', tx', ty'), src, dst)
      {
        var e' := MissOf(Similarity(p', q', tx', ty'), src, dst);
        ResidualGap(p', q', tx', ty', p, q, tx, ty, src, dst);
        ExcessSign(m.srcVar, m.n, p', q', p, q, e'.x, e'.y);
      }
    }
    if IsBest(p, q, tx, ty, src, dst) {
      var p0 := if m.srcVar == 0.0 then p else m.dot / m.srcVar;
      var q0 := if m.srcVar == 0.0 then q else m.cross / m.srcVar;
      var tx0, ty0 := NormalTranslation(p0, q0, src, dst);
      ResidualGap(p, q, tx, ty, p0, q0, tx0, ty0, src, dst);
      ExcessSign(m.srcVar, m.n, p, q, p0, q0, e.x, e.y);
      assert Residual(Similarity(p, q, tx, ty), src, dst) <= Residual(Similarity(p0, q0, tx0, ty0), src, dst);
    }
  }

  /** Unless all source points coincide there is only one best similarity. */
  lemma BestIsUnique(
    p: real, q: real, tx: real, ty: real, p': real, q': real, tx': real, ty': real, src: seq<Point>, dst: seq<Point>)
    requires |src| == |dst| > 0 && Centred(src, dst).srcVar > 0.0
    requires IsBest(p, q, tx, ty, src, dst) && IsBest(p', q', tx', ty', src, dst)
    ensures p == p' && q == q' && tx == tx' && ty == ty'
  {
    hide MomentsOf, Mean, IsBest;
    var m := Centred(src, dst);
    BestIffNormal(p, q, tx, ty, src, dst);
    BestIffNormal(p', q', tx', ty', src, dst);
    Quotient(p, m.srcVar, m.dot);
    Quotient(p', m.srcVar, m.dot);
    Quotient(q, m.srcVar, m.cross);
    Quotient(q', m.srcVar, m.cross);
  }

  // ----- the closed form -----

  const VARIANCE_FLOOR: real := 0.000000000001

  /** What `similarity_transform` returns, by its properties. */
  ghost predicate IsClosedForm(m: Trigonometry, t: AffineTransform, src: seq<Point>, dst: seq<Point>)
    requires |src| == |dst| > 0
  {
    var c := Centred(src, dst);
    && t == Similarity(t.a, t.c, t.tx, t.ty)
    && MissOf(t, src, dst) == Point(0.0, 0.0)
    && TurnFits(m, c.dot, c.cross, c.srcVar, t.a, t.c)
  }

  method SimilarityTransform(m: Trigonometry, src: seq<Point>, dst: seq<Point>) returns (t: AffineTransform)
    requires Lawful(m)
    requires |src| == |dst| == 5
    ensures IsClosedForm(m, t, src, dst)
  {
    hide Miss, Mean, MomentsOf, PairMoments, TurnFits, Lawful;
    var srcMean, dstMean := Mean(src), Mean(dst);
    var a, b, srcVar := 0.0, 0.0, 0.0;
    ghost var total := Centred(src, dst);
    NoPairsLeft(src, dst, srcMean, dstMean);
    for i := 0 to |src|
      invariant var rest := MomentsOf(src[i..], dst[i..], srcMean, dstMean);
        a + rest.dot == total.dot && b + rest.cross == total.cross && srcVar + rest.srcVar == total.srcVar
    {
      var sx := src[i].x - srcMean.x;
      var sy := src[i].y - srcMean.y;
      var dx := dst[i].x - dstMean.x;
      var dy := dst[i].y - dstMean.y;
      PeelPair(src, dst, srcMean, dstMean, i);
      PairProducts(sx, sy, dx, dy);
      a := a + (dx * sx + dy * sy);
      b := b + (dy * sx - dx * sy);
      srcVar := srcVar + (sx * sx + sy * sy);
    }
    var theta := m.atan2(b, a);
    var sinT, cosT := m.sin(theta), m.cos(theta);
    var hypot := m.sqrt(a * a + b * b);
    var scale := if srcVar > VARIANCE_FLOOR then hypot / srcVar else 1.0;
    var r00, r01, r10, r11 := cosT, -sinT, sinT, cosT;
    var tx := dstMean.x - scale * (r00 * srcMean.x + r01 * srcMean.y);
    var ty := dstMean.y - scale * (r10 * srcMean.x + r11 * srcMean.y);
    t := AffineTransform(scale * r00, scale * r01, scale * r10, scale * r11, tx, ty);
    MeansMatch(t, scale, cosT, sinT, srcMean, dstMean);
    FitsMoments(m, a, b, srcVar, t);
    assert a == total.dot && b == total.cross && srcVar == total.srcVar;
  }

  lemma PeelPair(src: seq<Point>, dst: seq<Point>, ms: Point, md: Point, i: nat)
    requires |src| == |dst| && i < |src|
    ensures MomentsOf(src[i..], dst[i..], ms, md) ==
            PairMoments(src[i].x - ms.x, src[i].y - ms.y, dst[i].x - md.x, dst[i].y - md.y)
            .Plus(MomentsOf(src[i + 1..], dst[i + 1..], ms, md))
  {
    hide PairMoments;
    assert src[i..][1..] == src[i + 1..] && dst[i..][1..] == dst[i + 1..];
  }

  lemma PairProducts(sx: real, sy: real, dx: real, dy: real)
    ensures var m := PairMoments(sx, sy, dx, dy);
            m.dot == dx * sx + dy * sy && m.cross == dy * sx - dx * sy && m.srcVar == sx * sx + sy * sy
  {
  }

  lemma NoPairsLeft(src: seq<Point>, dst: seq<Point>, ms: Point, md: Point)
    requires |src| == |dst|
    ensures var m := MomentsOf(src[|src|..], dst[|src|..], ms, md);
            m.dot == 0.0 && m.cross == 0.0 && m.srcVar == 0.0
    ensures src[0..] == src && dst[0..] == dst
  {
  }

  /** The scaled rotation solves the first two normal equations, or is a plain rotation. */
  ghost predicate TurnFits(m: Trigonometry, a: real, b: real, v: real, p: real, q: real) {
    && (v > VARIANCE_FLOOR ==> p * v == a && q * v == b)
    && (v <= VARIANCE_FLOOR ==>
          p * p + q * q == 1.0 && m.sqrt(a * a + b * b) * p == a && m.sqrt(a * a + b * b) * q == b)
  }

  lemma FitsMoments(m: Trigonometry, a: real, b: real, v: real, t: AffineTransform)
    requires Lawful(m)
    requires
      var theta := m.atan2(b, a);
      var scale := if v > VARIANCE_FLOOR then m.sqrt(a * a + b * b) / v else 1.0;
      t.a == scale * m.cos(theta) && t.c == scale * m.sin(theta)
    ensures TurnFits(m, a, b, v, t.a, t.c)
  {
    var theta := m.atan2(b, a);
    if v > VARIANCE_FLOOR {
      ScaledTurn(m.sqrt(a * a + b * b), v, m.cos(theta));
      ScaledTurn(m.sqrt(a * a + b * b), v, m.sin(theta));
    }
  }

  lemma ScaledTurn(hypot: real, v: real, turn: real)
    requires v > 0.0
    ensures (hypot / v * turn) * v == hypot * turn
  {
  }

  lemma MeansMatch(t: AffineTransform, scale: real, cosT: real, sinT: real, ms: Point, md: Point)
    requires t.a == scale * cosT && t.b == scale * -sinT && t.c == scale * sinT && t.d == scale * cosT
    requires t.tx == md.x - scale * (cosT * ms.x + -sinT * ms.y)
    requires t.ty == md.y - scale * (sinT * ms.x + cosT * ms.y)
    ensures t == Similarity(t.a, t.c, t.tx, t.ty) && Miss(t, ms, md) == Point(0.0, 0.0)
  {
  }

  /**
   The closed form is the least-squares optimum exactly when the source variance clears
   the floor, or the fitted scale is one anyway.
   */
  lemma ClosedFormIsBestIff(m: Trigonometry, t: AffineTransform, src: seq<Point>, dst: seq<Point>)
    requires Lawful(m) && |src| == |dst| > 0 && IsClosedForm(m, t, src, dst)
    ensures
      var c := Centred(src, dst);
      IsBest(t.a, t.c, t.tx, t.ty, src, dst) <==>
      c.srcVar > VARIANCE_FLOOR || c.dot * c.dot + c.cross * c.cross == c.srcVar * c.srcVar
  {
    hide IsBest, Mean, MomentsOf, Miss, TurnFits, Lawful;
    var c := Centred(src, dst);
    BestIffNormal(t.a, t.c, t.tx, t.ty, src, dst);
    VarianceVanishes(src, dst, Mean(src), Mean(dst));
    TurnSolvesIff(m, c.dot, c.cross, c.srcVar, t.a, t.c);
  }

  lemma TurnSolvesIff(m: Trigonometry, a: real, b: real, v: real, p: real, q: real)
    requires Lawful(m) && v >= 0.0 && TurnFits(m, a, b, v, p, q)
    ensures (p * v == a && q * v == b) <==> v > VARIANCE_FLOOR || a * a + b * b == v * v
  {
    if v <= VARIANCE_FLOOR {
      SumOfSquares(a, b);
      var hypot := m.sqrt(a * a + b * b);
      UnitTurnFits(hypot, v, p, q, a, b);
    }
  }

  lemma UnitTurnFits(hypot: real, v: real, p: real, q: real, dot: real, cross: real)
    requires v >= 0.0 && hypot >= 0.0 && hypot * hypot == dot * dot + cross * cross
    requires p * p + q * q == 1.0 && hypot * p == dot && hypot * q == cross
    ensures (p * v == dot && q * v == cross) <==> dot * dot + cross * cross == v * v
  {
    if p * v == dot && q * v == cross {
      assert (p * v) * (p * v) + (q * v) * (q * v) == (p * p + q * q) * (v * v);
    }
    if hypot * hypot == v * v {
      EqualSquares(hypot, v);
    }
  }

  /** If the targets are an exact similarity image of the sources, that similarity is recovered. */
  lemma ExactImageIsRecovered(m: Trigonometry, t: AffineTransform, src: seq<Point>, dst: seq<Point>,
                              p: real, q: real, tx: real, ty: real)
    requires Lawful(m) && |src| == |dst| > 0 && IsClosedForm(m, t, src, dst)
    requires Centred(src, dst).srcVar > VARIANCE_FLOOR
    requires forall i :: 0 <= i < |src| ==> dst[i] == Similarity(p, q, tx, ty).Apply(src[i])
    ensures t == Similarity(p, q, tx, ty)
  {
    ZeroResidual(Similarity(p, q, tx, ty), src, dst);
    forall p', q', tx', ty'
      ensures Residual(Similarity(p, q, tx, ty), src, dst) <= Residual(Similarity(p', q', tx', ty'), src, dst)
    {
      ResidualIsNonNegative(Similarity(p', q', tx', ty'), src, dst);
    }
    ClosedFormIsBestIff(m, t, src, dst);
    BestIsUnique(t.a, t.c, t.tx, t.ty, p, q, tx, ty, src, dst);
  }

  lemma {:induction false} ZeroResidual(t: AffineTransform, src: seq<Point>, dst: seq<Point>)
    requires |src| == |dst|
    requires forall i :: 0 <= i < |src| ==> dst[i] == t.Apply(src[i])
    ensures Residual(t, src, dst) == 0.0
  {
    if src != [] {
      assert dst[0] == t.Apply(src[0]);
      ZeroResidual(t, src[1..], dst[1..]);
    }
  }

  lemma {:induction false} ResidualIsNonNegative(t: AffineTransform, src: seq<Point>, dst: seq<Point>)
    requires |src| == |dst|
    ensures Residual(t, src, dst) >= 0.0
  {
    if src != [] {
      var image := t.Apply(src[0]);
      SumOfSquares(dst[0].x - image.x, dst[0].y - image.y);
      ResidualIsNonNegative(t, src[1..], dst[1..]);
    }
  }

  // ----- a face too small to be fitted -----

  const ORIGIN: Point := Point(0.0, 0.0)

  /** Two landmarks at distance 2 * e, the other three midway between them. */
  function TinyFace(e: real): seq<Point> {
    [Point(e, 0.0)] + ([Point(-e, 0.0)] + [ORIGIN, ORIGIN, ORIGIN])
  }

  lemma MomentsCons(s: Point, d: Point, src: seq<Point>, dst: seq<Point>)
    requires |src| == |dst|
    ensures MomentsOf([s] + src, [d] + dst, ORIGIN, ORIGIN)
         == PairMoments(s.x, s.y, d.x, d.y).Plus(MomentsOf(src, dst, ORIGIN, ORIGIN))
  {
    assert ([s] + src)[1..] == src && ([d] + dst)[1..] == dst;
  }

  lemma NoMoments()
    ensures MomentsOf([], [], ORIGIN, ORIGIN) == Moments(0.0, 0.0, 0.0, 0.0, 0.0, 0.0, 0.0, 0.0, 0.0)
    ensures SumX([]) == 0.0 && SumY([]) == 0.0
  {
  }

  lemma OriginsHaveNoMoments()
    ensures
      var o := [ORIGIN, ORIGIN, ORIGIN];
      MomentsOf(o, o, ORIGIN, ORIGIN) == Moments(3.0, 0.0, 0.0, 0.0, 0.0, 0.0, 0.0, 0.0, 0.0)
  {
    hide MomentsOf;
    assert [ORIGIN, ORIGIN, ORIGIN] == [ORIGIN] + ([ORIGIN] + ([ORIGIN] + []));
    NoMoments();
    MomentsCons(ORIGIN, ORIGIN, [], []);
    MomentsCons(ORIGIN, ORIGIN, [ORIGIN] + [], [ORIGIN] + []);
    MomentsCons(ORIGIN, ORIGIN, [ORIGIN] + ([ORIGIN] + []), [ORIGIN] + ([ORIGIN] + []));
  }

  lemma OriginsHaveNoSums()
    ensures SumX([ORIGIN, ORIGIN, ORIGIN]) == 0.0 && SumY([ORIGIN, ORIGIN, ORIGIN]) == 0.0
  {
    hide SumX, SumY;
    assert [ORIGIN, ORIGIN, ORIGIN] == [ORIGIN] + ([ORIGIN] + ([ORIGIN] + []));
    NoMoments();
    SumsCons(ORIGIN, []);
    SumsCons(ORIGIN, [ORIGIN] + []);
    SumsCons(ORIGIN, [ORIGIN] + ([ORIGIN] + []));
  }

  lemma TinyMean(e: real)
    ensures |TinyFace(e)| == 5 && Mean(TinyFace(e)) == ORIGIN
  {
    hide SumX, SumY;
    OriginsHaveNoSums();
    var o := [ORIGIN, ORIGIN, ORIGIN];
    SumsCons(Point(-e, 0.0), o);
    SumsCons(Point(e, 0.0), [Point(-e, 0.0)] + o);
    assert SumX(TinyFace(e)) == 0.0 && SumY(TinyFace(e)) == 0.0;
  }

  lemma SumsCons(s: Point, ps: seq<Point>)
    ensures SumX([s] + ps) == s.x + SumX(ps) && SumY([s] + ps) == s.y + SumY(ps)
  {
    assert ([s] + ps)[1..] == ps;
  }

  lemma TinyMoments(e: real, f: real)
    ensures |TinyFace(e)| == |TinyFace(f)|
    ensures
      var m := MomentsOf(TinyFace(e), TinyFace(f), ORIGIN, ORIGIN);
      m.srcVar == e * e + e * e && m.dot == f * e + f * e && m.cross == 0.0
  {
    hide MomentsOf;
    OriginsHaveNoMoments();
    var o := [ORIGIN, ORIGIN, ORIGIN];
    MomentsCons(Point(-e, 0.0), Point(-f, 0.0), o, o);
    MomentsCons(Point(e, 0.0), Point(f, 0.0), [Point(-e, 0.0)] + o, [Point(-f, 0.0)] + o);
    assert -e * -e == e * e && -f * -e == f * e;
  }

  /**
   The fallback to scale one does fail: for landmarks a ten-millionth apart and a target exactly
   twice their size, the returned transform is not the best one.
   */
  lemma TinyFaceIsMisfitted(m: Trigonometry, t: AffineTransform)
    requires Lawful(m) && |TinyFace(0.0000001)| == |TinyFace(0.0000002)|
    requires IsClosedForm(m, t, TinyFace(0.0000001), TinyFace(0.0000002))
    ensures !IsBest(t.a, t.c, t.tx, t.ty, TinyFace(0.0000001), TinyFace(0.0000002))
  {
    hide IsBest, IsClosedForm, Lawful, Mean, MomentsOf;
    TinyMean(0.0000001);
    TinyMean(0.0000002);
    TinyMoments(0.0000001, 0.0000002);
    ClosedFormIsBestIff(m, t, TinyFace(0.0000001), TinyFace(0.0000002));
  }
}
