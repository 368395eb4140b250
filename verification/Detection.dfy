/** Overlap of face boxes, greedy non-maximum suppression and the tail of the detector, over exact reals. */
module Detection {
  import opened RealMath
  import opened Geometry
  import opened Sorting

  datatype FaceBox = FaceBox(x: real, y: real, width: real, height: real, score: real, landmarks: seq<Point>)

  const INPUT_SIZE: real := 640.0
  const NMS_IOU_THRESHOLD: real := 0.3
  const PRE_NMS_TOP_K: nat := 5000

  function Max(a: real, b: real): real {
    if a >= b then a else b
  }

  function Min(a: real, b: real): real {
    if a <= b then a else b
  }

  /** Length of the overlap of [p, p + m] and [q, q + n]. */
  function Overlap(p: real, m: real, q: real, n: real): real {
    Max(Min(p + m, q + n) - Max(p, q), 0.0)
  }

  function Intersection(a: FaceBox, b: FaceBox): real {
    Overlap(a.x, a.width, b.x, b.width) * Overlap(a.y, a.height, b.y, b.height)
  }

  function Area(a: FaceBox): real {
    a.width * a.height
  }

  function Iou(a: FaceBox, b: FaceBox): real {
    var union := Area(a) + Area(b) - Intersection(a, b);
    if union <= 0.0 then 0.0 else Intersection(a, b) / union
  }

  // ----- overlap -----

  lemma IouSymmetric(a: FaceBox, b: FaceBox)
    ensures Iou(a, b) == Iou(b, a)
  {
    assert Intersection(a, b) == Intersection(b, a);
  }

  lemma OverlapWithin(p: real, m: real, q: real, n: real)
    requires m >= 0.0 && n >= 0.0
    ensures 0.0 <= Overlap(p, m, q, n) <= m && Overlap(p, m, q, n) <= n
  {
  }

  lemma IntersectionWithin(a: FaceBox, b: FaceBox)
    requires a.width >= 0.0 && a.height >= 0.0 && b.width >= 0.0 && b.height >= 0.0
    ensures 0.0 <= Intersection(a, b) <= Area(a) && Intersection(a, b) <= Area(b)
  {
    OverlapWithin(a.x, a.width, b.x, b.width);
    OverlapWithin(a.y, a.height, b.y, b.height);
    hide Overlap;
    var w, h := Overlap(a.x, a.width, b.x, b.width), Overlap(a.y, a.height, b.y, b.height);
    ProductWithin(w, h, a.width, a.height);
    ProductWithin(w, h, b.width, b.height);
  }

  lemma ProductWithin(x: real, y: real, m: real, n: real)
    requires 0.0 <= x <= m && 0.0 <= y <= n
    ensures 0.0 <= x * y <= m * n
  {
    ProductSign(x, y);
    MulMonotone(x, m, y);
    MulMonotone(y, n, m);
  }

  /** The overlap ratio is a share: between 0 and 1, and 1 for a box of positive area against itself. */
  lemma IouIsShare(a: FaceBox, b: FaceBox)
    requires a.width >= 0.0 && a.height >= 0.0 && b.width >= 0.0 && b.height >= 0.0
    ensures 0.0 <= Iou(a, b) <= 1.0
    ensures Area(a) > 0.0 ==> Iou(a, a) == 1.0
  {
    IntersectionWithin(a, b);
    SelfIntersection(a);
    hide Intersection, Area;
    var i, union := Intersection(a, b), Area(a) + Area(b) - Intersection(a, b);
    if union > 0.0 {
      ShareOfLarger(i, union);
    }
    if Area(a) > 0.0 {
      Quotient(1.0, Area(a), Area(a));
    }
  }

  lemma SelfIntersection(a: FaceBox)
    requires a.width >= 0.0 && a.height >= 0.0
    ensures Intersection(a, a) == Area(a)
  {
    assert Overlap(a.x, a.width, a.x, a.width) == a.width;
    assert Overlap(a.y, a.height, a.y, a.height) == a.height;
  }

  lemma ShareOfLarger(i: real, n: real)
    requires 0.0 <= i <= n && n > 0.0
    ensures 0.0 <= i / n <= 1.0
  {
    var q := i / n;
    assert q * n == i;
    if q < 0.0 {
      ProductSign(-q, n);
    } else if q > 1.0 {
      ProductSign(q - 1.0, n);
    }
  }

  predicate InBoth(x: real, p: real, m: real, q: real, n: real) {
    p <= x <= p + m && q <= x <= q + n
  }

  /** The points common to [p, p + m] and [q, q + n] fill exactly a length of `len`. */
  ghost predicate IsCommonLength(p: real, m: real, q: real, n: real, len: real) {
    if len == 0.0 then forall x, y :: InBoth(x, p, m, q, n) && InBoth(y, p, m, q, n) ==> x == y
    else len > 0.0 && exists lo: real :: FromTo(lo, len, p, m, q, n)
  }

  ghost predicate FromTo(lo: real, len: real, p: real, m: real, q: real, n: real) {
    forall x :: InBoth(x, p, m, q, n) <==> lo <= x <= lo + len
  }

  lemma OverlapIsCommonLength(p: real, m: real, q: real, n: real)
    ensures IsCommonLength(p, m, q, n, Overlap(p, m, q, n))
  {
    if Overlap(p, m, q, n) > 0.0 {
      assert FromTo(Max(p, q), Overlap(p, m, q, n), p, m, q, n);
    }
  }

  /** The ratio is the area the two boxes share over the area they cover together. */
  lemma IouIsSharedOverCovered(a: FaceBox, b: FaceBox) returns (w: real, h: real)
    ensures IsCommonLength(a.x, a.width, b.x, b.width, w) && IsCommonLength(a.y, a.height, b.y, b.height, h)
    ensures
      var covered := a.width * a.height + b.width * b.height - w * h;
      if covered > 0.0 then Iou(a, b) * covered == w * h else Iou(a, b) == 0.0
  {
    w, h := Overlap(a.x, a.width, b.x, b.width), Overlap(a.y, a.height, b.y, b.height);
    OverlapIsCommonLength(a.x, a.width, b.x, b.width);
    OverlapIsCommonLength(a.y, a.height, b.y, b.height);
    IntersectionIs(a, b, w, h);
    AreaIs(a);
    AreaIs(b);
    IouTimesUnion(a, b);
    hide *;
    var covered := a.width * a.height + b.width * b.height - w * h;
    SameRatio(Iou(a, b), Area(a) + Area(b) - Intersection(a, b), covered, Intersection(a, b), w * h);
  }

  lemma AreaIs(a: FaceBox)
    ensures Area(a) == a.width * a.height
  {
  }

  lemma IouTimesUnion(a: FaceBox, b: FaceBox)
    ensures
      var union := Area(a) + Area(b) - Intersection(a, b);
      if union > 0.0 then Iou(a, b) * union == Intersection(a, b) else Iou(a, b) == 0.0
  {
    hide Area, Intersection;
    var union := Area(a) + Area(b) - Intersection(a, b);
    if union > 0.0 {
      QuotientTimes(Intersection(a, b), union);
    }
  }

  lemma SameRatio(ratio: real, n: real, n': real, x: real, x': real)
    requires n == n' && x == x' && if n > 0.0 then ratio * n == x else ratio == 0.0
    ensures if n' > 0.0 then ratio * n' == x' else ratio == 0.0
  {
  }

  lemma QuotientTimes(x: real, n: real)
    requires n != 0.0
    ensures (x / n) * n == x
  {
  }

  function ScalePoint(p: Point, sx: real, sy: real): Point {
    Point(p.x * sx, p.y * sy)
  }

  function ScalePoints(ps: seq<Point>, sx: real, sy: real): (r: seq<Point>)
    ensures |r| == |ps| && forall i :: 0 <= i < |ps| ==> r[i] == ScalePoint(ps[i], sx, sy)
  {
    seq(|ps|, i requires 0 <= i < |ps| => ScalePoint(ps[i], sx, sy))
  }

  function Scaled(b: FaceBox, sx: real, sy: real): FaceBox {
    FaceBox(b.x * sx, b.y * sy, b.width * sx, b.height * sy, b.score, ScalePoints(b.landmarks, sx, sy))
  }

  lemma OverlapScales(p: real, m: real, q: real, n: real, s: real, p': real, m': real, q': real, n': real)
    requires s > 0.0 && p' == p * s && m' == m * s && q' == q * s && n' == n * s
    ensures Overlap(p', m', q', n') == Overlap(p, m, q, n) * s
  {
    var a, b := p + m, q + n;
    assert p' + m' == a * s && q' + n' == b * s;
    MaxMinScale(p, q, s);
    MaxMinScale(a, b, s);
    hide Max, Min;
    var hi, lo := Min(a, b), Max(p, q);
    var length := hi - lo;
    assert hi * s - lo * s == length * s;
    MaxMinScale(length, 0.0, s);
  }

  lemma MaxMinScale(a: real, b: real, s: real)
    requires s > 0.0
    ensures Max(a * s, b * s) == Max(a, b) * s && Min(a * s, b * s) == Min(a, b) * s
  {
    if a <= b {
      MulMonotone(a, b, s);
    } else {
      MulMonotone(b, a, s);
    }
  }

  lemma IntersectionScales(a: FaceBox, b: FaceBox, sx: real, sy: real)
    requires sx > 0.0 && sy > 0.0
    ensures Intersection(Scaled(a, sx, sy), Scaled(b, sx, sy)) == Intersection(a, b) * (sx * sy)
  {
    hide Overlap, Intersection;
    var a', b' := Scaled(a, sx, sy), Scaled(b, sx, sy);
    var u, v := Overlap(a.x, a.width, b.x, b.width), Overlap(a.y, a.height, b.y, b.height);
    OverlapScales(a.x, a.width, b.x, b.width, sx, a'.x, a'.width, b'.x, b'.width);
    OverlapScales(a.y, a.height, b.y, b.height, sy, a'.y, a'.height, b'.y, b'.height);
    var u', v' := Overlap(a'.x, a'.width, b'.x, b'.width), Overlap(a'.y, a'.height, b'.y, b'.height);
    IntersectionIs(a, b, u, v);
    IntersectionIs(a', b', u', v');
    Regroup(u, v, sx, sy, u', v', Intersection(a, b));
  }

  lemma IntersectionIs(a: FaceBox, b: FaceBox, u: real, v: real)
    requires u == Overlap(a.x, a.width, b.x, b.width) && v == Overlap(a.y, a.height, b.y, b.height)
    ensures Intersection(a, b) == u * v
  {
  }

  lemma AreaScales(a: FaceBox, sx: real, sy: real)
    ensures Area(Scaled(a, sx, sy)) == Area(a) * (sx * sy)
  {
    Regroup(a.width, a.height, sx, sy, a.width * sx, a.height * sy, Area(a));
  }

  lemma Regroup(u: real, v: real, s: real, t: real, u': real, v': real, product: real)
    requires u' == u * s && v' == v * t && product == u * v
    ensures u' * v' == product * (s * t)
  {
  }

  /** Scaling x and y independently by positive factors does not change the overlap ratio. */
  lemma IouScaleInvariant(a: FaceBox, b: FaceBox, sx: real, sy: real)
    requires sx > 0.0 && sy > 0.0
    ensures Iou(Scaled(a, sx, sy), Scaled(b, sx, sy)) == Iou(a, b)
  {
    hide Intersection, Area, Scaled;
    IntersectionScales(a, b, sx, sy);
    AreaScales(a, sx, sy);
    AreaScales(b, sx, sy);
    ProductSign(sx, sy);
    var c := sx * sy;
    RatioScales(Intersection(a, b), Area(a), Area(b), c);
  }

  lemma RatioScales(i: real, a: real, b: real, c: real)
    requires c > 0.0
    ensures
      var union, scaledUnion := a + b - i, a * c + b * c - i * c;
      && (union <= 0.0 <==> scaledUnion <= 0.0)
      && (union > 0.0 ==> (i * c) / scaledUnion == i / union)
  {
    var union := a + b - i;
    assert a * c + b * c - i * c == union * c;
    if union <= 0.0 {
      ProductSign(-union, c);
    } else {
      ProductSign(union, c);
      var q := i / union;
      assert q * union == i;
      assert q * (union * c) == (q * union) * c;
      Quotient(q, union * c, i * c);
    }
  }

  // ----- greedy suppression -----

  /** A box is kept exactly when it overlaps no earlier kept box by the threshold or more. */
  ghost predicate KeptRight(boxes: seq<FaceBox>, t: real, keep: seq<bool>, i: nat)
    requires |keep| == |boxes| && i < |boxes|
  {
    keep[i] <==> forall j :: 0 <= j < i && keep[j] ==> Iou(boxes[i], boxes[j]) < t
  }

  ghost predicate IsGreedy(boxes: seq<FaceBox>, t: real, keep: seq<bool>) {
    |keep| == |boxes| && forall i :: 0 <= i < |boxes| ==> KeptRight(boxes, t, keep, i)
  }

  function Select<T>(xs: seq<T>, keep: seq<bool>): seq<T>
    requires |keep| == |xs|
  {
    if xs == [] then []
    else
      var n := |xs| - 1;
      Select(xs[..n], keep[..n]) + if keep[n] then [xs[n]] else []
  }

  lemma GreedyPrefix(boxes: seq<FaceBox>, t: real, keep: seq<bool>, n: nat)
    requires IsGreedy(boxes, t, keep) && n <= |boxes|
    ensures IsGreedy(boxes[..n], t, keep[..n])
  {
    hide Iou;
    forall i | 0 <= i < n ensures KeptRight(boxes[..n], t, keep[..n], i) {
      assert KeptRight(boxes, t, keep, i);
    }
  }

  /** There is only one way to be greedy. */
  lemma {:induction false} GreedyIsUnique(boxes: seq<FaceBox>, t: real, keep: seq<bool>, keep': seq<bool>)
    requires IsGreedy(boxes, t, keep) && IsGreedy(boxes, t, keep')
    ensures keep == keep'
  {
    hide Iou;
    if boxes != [] {
      var n := |boxes| - 1;
      GreedyPrefix(boxes, t, keep, n);
      GreedyPrefix(boxes, t, keep', n);
      GreedyIsUnique(boxes[..n], t, keep[..n], keep'[..n]);
      assert KeptRight(boxes, t, keep, n) && KeptRight(boxes, t, keep', n);
      assert forall j :: 0 <= j < n ==> keep[j] == keep[..n][j] && keep'[j] == keep'[..n][j];
      assert keep == keep[..n] + [keep[n]] && keep' == keep'[..n] + [keep'[n]];
    }
  }

  /** Every selected element stands in the sequence, and every kept index is selected. */
  lemma {:induction false} SelectHas<T>(xs: seq<T>, keep: seq<bool>)
    requires |keep| == |xs|
    ensures forall i :: 0 <= i < |xs| && keep[i] ==> xs[i] in Select(xs, keep)
    ensures forall x :: x in Select(xs, keep) ==> exists i :: 0 <= i < |xs| && keep[i] && xs[i] == x
  {
    if xs != [] {
      var n := |xs| - 1;
      SelectHas(xs[..n], keep[..n]);
      assert forall i :: 0 <= i < n ==> xs[i] == xs[..n][i] && keep[i] == keep[..n][i];
    }
  }

  method OverlapsAny(candidate: FaceBox, kept: seq<FaceBox>, threshold: real) returns (overlaps: bool)
    ensures overlaps <==> exists k :: k in kept && Iou(candidate, k) >= threshold
  {
    hide Iou;
    for m := 0 to |kept|
      invariant forall k :: 0 <= k < m ==> Iou(candidate, kept[k]) < threshold
    {
      if Iou(candidate, kept[m]) >= threshold {
        return true;
      }
    }
    overlaps := false;
  }

  /** Which boxes greedy suppression keeps. */
  ghost function Keep(boxes: seq<FaceBox>, t: real): (keep: seq<bool>)
    ensures IsGreedy(boxes, t, keep)
  {
    if boxes == [] then []
    else
      var n := |boxes| - 1;
      var keep := Keep(boxes[..n], t);
      var flag := forall k :: k in Select(boxes[..n], keep) ==> Iou(boxes[n], k) < t;
      GreedyStep(boxes[..n], t, keep, boxes[n], flag);
      assert boxes == boxes[..n] + [boxes[n]];
      keep + [flag]
  }

  method NonMaxSuppression(boxes: seq<FaceBox>, threshold: real) returns (kept: seq<FaceBox>)
    ensures kept == Select(boxes, Keep(boxes, threshold))
  {
    hide Iou, Keep;
    kept := [];
    ghost var keep: seq<bool> := [];
    for n := 0 to |boxes|
      invariant |keep| == n && IsGreedy(boxes[..n], threshold, keep)
      invariant kept == Select(boxes[..n], keep)
    {
      var candidate := boxes[n];
      var overlaps := OverlapsAny(candidate, kept, threshold);
      GreedyStep(boxes[..n], threshold, keep, candidate, !overlaps);
      SelectStep(boxes[..n], keep, candidate, !overlaps);
      assert boxes[..n + 1] == boxes[..n] + [candidate];
      keep := keep + [!overlaps];
      if !overlaps {
        kept := kept + [candidate];
      }
    }
    assert boxes[..|boxes|] == boxes;
    GreedyIsUnique(boxes, threshold, keep, Keep(boxes, threshold));
  }

  lemma SelectStep<T>(xs: seq<T>, keep: seq<bool>, x: T, flag: bool)
    requires |keep| == |xs|
    ensures Select(xs + [x], keep + [flag]) == Select(xs, keep) + if flag then [x] else []
  {
    assert (xs + [x])[..|xs|] == xs && (keep + [flag])[..|xs|] == keep;
  }

  lemma GreedyStep(boxes: seq<FaceBox>, t: real, keep: seq<bool>, b: FaceBox, flag: bool)
    requires IsGreedy(boxes, t, keep)
    requires flag <==> forall k :: k in Select(boxes, keep) ==> Iou(b, k) < t
    ensures IsGreedy(boxes + [b], t, keep + [flag])
  {
    hide Iou;
    SelectHas(boxes, keep);
    var n, more, flags := |boxes|, boxes + [b], keep + [flag];
    assert forall i :: 0 <= i < n ==> more[i] == boxes[i] && flags[i] == keep[i];
    forall i | 0 <= i < n ensures KeptRight(more, t, flags, i) {
      assert KeptRight(boxes, t, keep, i);
    }
    assert KeptRight(more, t, flags, n) by {
      assert flag <==> forall j :: 0 <= j < n && keep[j] ==> Iou(b, boxes[j]) < t;
    }
  }

  ghost predicate PairwiseBelow(boxes: seq<FaceBox>, t: real) {
    forall i, j :: 0 <= i < j < |boxes| ==> Iou(boxes[j], boxes[i]) < t
  }

  /** No two kept boxes overlap by the threshold or more. */
  lemma {:induction false} KeptArePairwiseBelow(boxes: seq<FaceBox>, t: real, keep: seq<bool>)
    requires IsGreedy(boxes, t, keep)
    ensures PairwiseBelow(Select(boxes, keep), t)
  {
    hide Iou;
    if boxes != [] {
      var n := |boxes| - 1;
      GreedyPrefix(boxes, t, keep, n);
      KeptArePairwiseBelow(boxes[..n], t, keep[..n]);
      SelectHas(boxes[..n], keep[..n]);
      assert KeptRight(boxes, t, keep, n);
      var earlier := Select(boxes[..n], keep[..n]);
      forall i | 0 <= i < |earlier| && keep[n] ensures Iou(boxes[n], earlier[i]) < t {
        assert earlier[i] in earlier;
      }
    }
  }

  /** Every dropped box overlaps an earlier kept one by the threshold or more. */
  lemma DroppedOverlapsKept(boxes: seq<FaceBox>, t: real, keep: seq<bool>, i: nat)
    requires IsGreedy(boxes, t, keep) && i < |boxes| && !keep[i]
    ensures exists j :: 0 <= j < i && keep[j] && Iou(boxes[i], boxes[j]) >= t
  {
    assert KeptRight(boxes, t, keep, i);
  }

  /** Suppression keeps everything exactly when no pair overlaps; so suppressing twice changes nothing. */
  lemma {:induction false} KeepsAllIffPairwiseBelow(boxes: seq<FaceBox>, t: real, keep: seq<bool>)
    requires IsGreedy(boxes, t, keep)
    ensures Select(boxes, keep) == boxes <==> PairwiseBelow(boxes, t)
  {
    hide Iou;
    if Select(boxes, keep) == boxes {
      KeptArePairwiseBelow(boxes, t, keep);
    }
    if PairwiseBelow(boxes, t) {
      forall i | 0 <= i < |boxes| ensures keep[i] {
        assert KeptRight(boxes, t, keep, i);
      }
      SelectAll(boxes, keep);
    }
  }

  lemma {:induction false} SelectAll<T>(xs: seq<T>, keep: seq<bool>)
    requires |keep| == |xs| && forall i :: 0 <= i < |xs| ==> keep[i]
    ensures Select(xs, keep) == xs
  {
    if xs != [] {
      SelectAll(xs[..|xs| - 1], keep[..|xs| - 1]);
    }
  }

  lemma SuppressionIsIdempotent(boxes: seq<FaceBox>, t: real, keep: seq<bool>, again: seq<bool>)
    requires IsGreedy(boxes, t, keep) && IsGreedy(Select(boxes, keep), t, again)
    ensures Select(Select(boxes, keep), again) == Select(boxes, keep)
  {
    KeptArePairwiseBelow(boxes, t, keep);
    KeepsAllIffPairwiseBelow(Select(boxes, keep), t, again);
  }

  // ----- rescaling -----

  function ScaleAll(boxes: seq<FaceBox>, sx: real, sy: real): (r: seq<FaceBox>)
    ensures |r| == |boxes| && forall i :: 0 <= i < |boxes| ==> r[i] == Scaled(boxes[i], sx, sy)
  {
    seq(|boxes|, i requires 0 <= i < |boxes| => Scaled(boxes[i], sx, sy))
  }

  lemma {:induction false} SelectOfScaled(boxes: seq<FaceBox>, keep: seq<bool>, sx: real, sy: real)
    requires |keep| == |boxes|
    ensures Select(ScaleAll(boxes, sx, sy), keep) == ScaleAll(Select(boxes, keep), sx, sy)
  {
    hide Scaled;
    if boxes != [] {
      var n := |boxes| - 1;
      SelectOfScaled(boxes[..n], keep[..n], sx, sy);
      assert ScaleAll(boxes, sx, sy)[..n] == ScaleAll(boxes[..n], sx, sy);
    }
  }

  /** The same boxes are greedy before and after rescaling, so rescaling and suppression commute. */
  lemma SuppressionCommutesWithScaling(boxes: seq<FaceBox>, t: real, keep: seq<bool>, sx: real, sy: real)
    requires IsGreedy(boxes, t, keep) && sx > 0.0 && sy > 0.0
    ensures IsGreedy(ScaleAll(boxes, sx, sy), t, keep)
    ensures Select(ScaleAll(boxes, sx, sy), keep) == ScaleAll(Select(boxes, keep), sx, sy)
  {
    hide Iou, Scaled;
    var scaled := ScaleAll(boxes, sx, sy);
    forall i | 0 <= i < |boxes| ensures KeptRight(scaled, t, keep, i) {
      assert KeptRight(boxes, t, keep, i);
      forall j | 0 <= j < i ensures Iou(scaled[i], scaled[j]) == Iou(boxes[i], boxes[j]) {
        IouScaleInvariant(boxes[i], boxes[j], sx, sy);
      }
    }
    SelectOfScaled(boxes, keep, sx, sy);
  }

  // ----- the tail of detection -----

  function BetterFirst(): (FaceBox, FaceBox) -> bool {
    (a: FaceBox, b: FaceBox) => a.score >= b.score
  }

  /** The candidates that reach suppression: best scores first, at most PRE_NMS_TOP_K of them. */
  function Strongest(candidates: seq<FaceBox>): seq<FaceBox> {
    var sorted := Sort(candidates, BetterFirst());
    if |sorted| <= PRE_NMS_TOP_K then sorted else sorted[..PRE_NMS_TOP_K]
  }

  /** The boxes that survive suppression, still in model coordinates. */
  ghost function Surviving(candidates: seq<FaceBox>): seq<FaceBox> {
    Select(Strongest(candidates), Keep(Strongest(candidates), NMS_IOU_THRESHOLD))
  }

  method DetectTail(candidates: seq<FaceBox>, width: nat, height: nat) returns (faces: seq<FaceBox>)
    ensures faces == ScaleAll(Surviving(candidates), width as real / INPUT_SIZE, height as real / INPUT_SIZE)
    ensures |faces| == |Surviving(candidates)|
    ensures forall i :: 0 <= i < |faces| ==> IsRescaled(Surviving(candidates)[i], faces[i], width, height)
  {
    hide Keep, Select, Scaled, IsRescaled;
    var sorted := Sort(candidates, BetterFirst());
    if |sorted| > PRE_NMS_TOP_K {
      sorted := sorted[..PRE_NMS_TOP_K];
    }
    faces := NonMaxSuppression(sorted, NMS_IOU_THRESHOLD);
    var sx, sy := width as real / INPUT_SIZE, height as real / INPUT_SIZE;
    ghost var kept := faces;
    for i := 0 to |faces|
      invariant |faces| == |kept|
      invariant forall j :: 0 <= j < i ==> faces[j] == Scaled(kept[j], sx, sy)
      invariant forall j :: i <= j < |faces| ==> faces[j] == kept[j]
    {
      faces := faces[i := Scaled(faces[i], sx, sy)];
    }
    forall i | 0 <= i < |faces| ensures IsRescaled(kept[i], faces[i], width, height) {
      ScaledIsRescaled(kept[i], width, height);
    }
  }

  /** `face` is `box` carried from the 640 x 640 model input to an image of `width` x `height`. */
  ghost predicate IsRescaled(box: FaceBox, face: FaceBox, width: nat, height: nat) {
    && face.x * 640.0 == box.x * width as real && face.width * 640.0 == box.width * width as real
    && face.y * 640.0 == box.y * height as real && face.height * 640.0 == box.height * height as real
    && face.score == box.score && |face.landmarks| == |box.landmarks|
    && forall n :: 0 <= n < |box.landmarks| ==>
         && face.landmarks[n].x * 640.0 == box.landmarks[n].x * width as real
         && face.landmarks[n].y * 640.0 == box.landmarks[n].y * height as real
  }

  lemma ScaledIsRescaled(box: FaceBox, width: nat, height: nat)
    ensures IsRescaled(box, Scaled(box, width as real / INPUT_SIZE, height as real / INPUT_SIZE), width, height)
  {
    Unscaled(box.x, width as real);
    Unscaled(box.y, height as real);
    Unscaled(box.width, width as real);
    Unscaled(box.height, height as real);
    forall n | 0 <= n < |box.landmarks|
      ensures box.landmarks[n].x * (width as real / INPUT_SIZE) * 640.0 == box.landmarks[n].x * width as real
      ensures box.landmarks[n].y * (height as real / INPUT_SIZE) * 640.0 == box.landmarks[n].y * height as real
    {
      Unscaled(box.landmarks[n].x, width as real);
      Unscaled(box.landmarks[n].y, height as real);
    }
  }

  lemma Unscaled(x: real, size: real)
    ensures x * (size / INPUT_SIZE) * 640.0 == x * size
  {
    var ratio := size / INPUT_SIZE;
    assert ratio * 640.0 == size;
    assert x * ratio * 640.0 == x * (ratio * 640.0);
  }

  /**
   The candidates that reach suppression are the 5000 best, or all of them, best first: nothing is made
   up, and what is left out scores no more than what is kept.
   */
  lemma StrongestAreTheBest(candidates: seq<FaceBox>)
    ensures
      var strongest := Strongest(candidates);
      && |strongest| == (if |candidates| <= 5000 then |candidates| else 5000)
      && multiset(strongest) <= multiset(candidates)
      && (|candidates| <= 5000 ==> multiset(strongest) == multiset(candidates))
      && (forall i, j :: 0 <= i < j < |strongest| ==> strongest[j].score <= strongest[i].score)
      && forall kept, dropped :: kept in strongest && dropped in multiset(candidates) - multiset(strongest) ==>
           dropped.score <= kept.score
  {
    hide *;
    var sorted, n := SortedThenCut(candidates);
    CutLeavesTheRest(sorted, n, multiset(candidates));
  }

  lemma SortedThenCut(candidates: seq<FaceBox>) returns (sorted: seq<FaceBox>, n: nat)
    ensures multiset(sorted) == multiset(candidates) && |sorted| == |candidates|
    ensures n == (if |candidates| <= 5000 then |candidates| else 5000) && Strongest(candidates) == sorted[..n]
    ensures forall i, j :: 0 <= i < j < |sorted| ==> sorted[j].score <= sorted[i].score
  {
    sorted := Sort(candidates, BetterFirst());
    SortSorts(candidates, BetterFirst());
    SameElements(sorted, candidates);
    n := if |sorted| <= PRE_NMS_TOP_K then |sorted| else PRE_NMS_TOP_K;
    forall i, j | 0 <= i < j < |sorted| ensures sorted[j].score <= sorted[i].score {
      assert BetterFirst()(sorted[i], sorted[j]);
    }
  }

  lemma CutLeavesTheRest(sorted: seq<FaceBox>, n: nat, all: multiset<FaceBox>)
    requires n <= |sorted| && multiset(sorted) == all
    requires forall i, j :: 0 <= i < j < |sorted| ==> sorted[j].score <= sorted[i].score
    ensures multiset(sorted[..n]) <= all
    ensures n == |sorted| ==> multiset(sorted[..n]) == all
    ensures forall kept, dropped :: kept in sorted[..n] && dropped in all - multiset(sorted[..n]) ==>
      dropped.score <= kept.score
  {
    var strongest, rest := sorted[..n], sorted[n..];
    assert sorted == strongest + rest;
    assert all == multiset(strongest) + multiset(rest);
    assert all - multiset(strongest) == multiset(rest);
    forall kept: FaceBox, dropped: FaceBox | kept in strongest && dropped in multiset(rest)
      ensures dropped.score <= kept.score
    {
      var i :| 0 <= i < n && sorted[i] == kept;
      var j :| 0 <= j < |rest| && rest[j] == dropped;
      assert sorted[n + j] == dropped;
    }
    assert n == |sorted| ==> strongest == sorted;
  }

  /**
   What a caller of the detector gets, in the coordinates of the original image: no two faces
   overlap by the threshold, faces come by falling score, and every candidate, if there are no more
   than 5000 or it is among the best 5000, is either returned or overlapped by a returned face that
   scores at least as much.
   */
  lemma DetectedFaces(candidates: seq<FaceBox>, sx: real, sy: real, c: FaceBox)
    requires sx > 0.0 && sy > 0.0 && c in candidates
    ensures
      var faces := ScaleAll(Surviving(candidates), sx, sy);
      var candidate := Scaled(c, sx, sy);
      && (forall i, j :: 0 <= i < j < |faces| ==>
            Iou(faces[j], faces[i]) < 0.3 && faces[j].score <= faces[i].score)
      && (|candidates| <= 5000 || c in Strongest(candidates) ==>
            candidate in faces || exists f :: f in faces && f.score >= candidate.score && Iou(candidate, f) >= 0.3)
  {
    StrongestAreTheBest(candidates);
    if |candidates| <= 5000 || c in Strongest(candidates) {
      assert c in multiset(candidates);
      assert c in multiset(Strongest(candidates));
      var i :| 0 <= i < |Strongest(candidates)| && Strongest(candidates)[i] == c;
      hide Iou, Keep, Scaled, Strongest;
      StrongCandidateIsCovered(candidates, sx, sy, i);
      CoveredFaces(ScaleAll(Surviving(candidates), sx, sy));
    } else {
      var i := 0;
      hide Iou, Keep, Scaled, Strongest;
      StrongCandidateIsCovered(candidates, sx, sy, i);
      CoveredFaces(ScaleAll(Surviving(candidates), sx, sy));
    }
  }

  lemma CoveredFaces(faces: seq<FaceBox>)
    requires PairwiseBelow(faces, NMS_IOU_THRESHOLD) && SortedBy(faces, BetterFirst())
    ensures forall i, j :: 0 <= i < j < |faces| ==> Iou(faces[j], faces[i]) < 0.3 && faces[j].score <= faces[i].score
  {
    hide Iou;
    forall i, j | 0 <= i < j < |faces| ensures Iou(faces[j], faces[i]) < 0.3 && faces[j].score <= faces[i].score {
      assert BetterFirst()(faces[i], faces[j]);
    }
  }

  lemma StrongCandidateIsCovered(candidates: seq<FaceBox>, sx: real, sy: real, i: nat)
    requires sx > 0.0 && sy > 0.0
    requires i < |Strongest(candidates)|
    ensures
      var faces := ScaleAll(Surviving(candidates), sx, sy);
      var candidate := Scaled(Strongest(candidates)[i], sx, sy);
      && PairwiseBelow(faces, NMS_IOU_THRESHOLD)
      && SortedBy(faces, BetterFirst())
      && (candidate in faces
        || exists f :: f in faces && f.score >= candidate.score && Iou(candidate, f) >= NMS_IOU_THRESHOLD)
  {
    hide Iou, Keep, NMS_IOU_THRESHOLD, INPUT_SIZE;
    var strongest := Strongest(candidates);
    var keep := Keep(strongest, NMS_IOU_THRESHOLD);
    var scaled := ScaleAll(strongest, sx, sy);
    SuppressionCommutesWithScaling(strongest, NMS_IOU_THRESHOLD, keep, sx, sy);
    KeptArePairwiseBelow(scaled, NMS_IOU_THRESHOLD, keep);
    StrongestSorted(candidates);
    assert SortedBy(scaled, BetterFirst());
    SelectKeepsSorted(scaled, keep, BetterFirst());
    SelectHas(scaled, keep);
    if !keep[i] {
      DroppedOverlapsKept(scaled, NMS_IOU_THRESHOLD, keep, i);
      var j :| 0 <= j < i && keep[j] && Iou(scaled[i], scaled[j]) >= NMS_IOU_THRESHOLD;
      assert BetterFirst()(scaled[j], scaled[i]);
    }
  }

  lemma StrongestSorted(candidates: seq<FaceBox>)
    ensures SortedBy(Strongest(candidates), BetterFirst())
  {
    SortSorts(candidates, BetterFirst());
  }

  lemma {:induction false} SelectKeepsSorted(xs: seq<FaceBox>, keep: seq<bool>, le: (FaceBox, FaceBox) -> bool)
    requires |keep| == |xs| && SortedBy(xs, le)
    ensures SortedBy(Select(xs, keep), le)
  {
    if xs != [] {
      var n := |xs| - 1;
      SelectKeepsSorted(xs[..n], keep[..n], le);
      SelectHas(xs[..n], keep[..n]);
      forall x | x in Select(xs[..n], keep[..n]) ensures le(x, xs[n]) {
        var i :| 0 <= i < n && xs[..n][i] == x;
        assert le(xs[i], xs[n]);
      }
    }
  }
}
