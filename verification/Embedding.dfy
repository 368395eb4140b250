/** Embedding vectors: L2 normalisation and cosine similarity, over exact reals. */
module Embedding {
  import opened RealMath

  const EMBEDDING_DIM: nat := 128
  const NORM_FLOOR: real := 0.000000000001

  type Vector = seq<real>

  function Dot(a: Vector, b: Vector): real
    requires |a| == |b|
  {
    if a == [] then 0.0 else a[0] * b[0] + Dot(a[1..], b[1..])
  }

  function Norm(sqrt: real -> real, a: Vector): real {
    sqrt(Dot(a, a))
  }

  function Clamp(x: real): (r: real)
    ensures -1.0 <= r <= 1.0 && (-1.0 <= x <= 1.0 ==> r == x)
  {
    if x < -1.0 then -1.0 else if x > 1.0 then 1.0 else x
  }

  function CosineSimilarity(sqrt: real -> real, a: Vector, b: Vector): real {
    if |a| != |b| || |a| == 0 then 0.0
    else
      var normA, normB := Norm(sqrt, a), Norm(sqrt, b);
      if normA <= NORM_FLOOR || normB <= NORM_FLOOR then 0.0
      else FloorGuards(sqrt, a, b); Clamp(Dot(a, b) / (normA * normB))
  }

  /** Above the norm floor the quotient is well defined. */
  lemma FloorGuards(sqrt: real -> real, a: Vector, b: Vector)
    requires Norm(sqrt, a) > NORM_FLOOR && Norm(sqrt, b) > NORM_FLOOR
    ensures Norm(sqrt, a) * Norm(sqrt, b) > 0.0
  {
    ProductSign(Norm(sqrt, a), Norm(sqrt, b));
  }

  function Scaled(a: Vector, c: real): (r: Vector)
    ensures |r| == |a| && forall i :: 0 <= i < |a| ==> r[i] == a[i] * c
  {
    seq(|a|, i requires 0 <= i < |a| => a[i] * c)
  }

  function Combined(a: Vector, b: Vector, p: real, q: real): (r: Vector)
    requires |a| == |b|
    ensures |r| == |a| && forall i :: 0 <= i < |a| ==> r[i] == p * a[i] + q * b[i]
  {
    seq(|a|, i requires 0 <= i < |a| => p * a[i] + q * b[i])
  }

  // ----- the dot product -----

  lemma {:induction false} DotSymmetric(a: Vector, b: Vector)
    requires |a| == |b|
    ensures Dot(a, b) == Dot(b, a)
  {
    if a != [] {
      DotSymmetric(a[1..], b[1..]);
    }
  }

  lemma {:induction false} DotScaled(a: Vector, b: Vector, c: real)
    requires |a| == |b|
    ensures Dot(Scaled(a, c), b) == c * Dot(a, b)
  {
    if a != [] {
      forall i | 0 <= i < |a| - 1 ensures Scaled(a, c)[1..][i] == Scaled(a[1..], c)[i] {
        assert a[1..][i] == a[i + 1];
      }
      assert Scaled(a, c)[1..] == Scaled(a[1..], c);
      DotScaled(a[1..], b[1..], c);
      assert (a[0] * c) * b[0] == c * (a[0] * b[0]);
    }
  }

  lemma {:induction false} DotNonNegative(a: Vector)
    ensures Dot(a, a) >= 0.0
    ensures Dot(a, a) == 0.0 ==> forall i :: 0 <= i < |a| ==> a[i] == 0.0
  {
    if a != [] {
      DotNonNegative(a[1..]);
      SquareSign(a[0]);
      assert forall i :: 0 < i < |a| ==> a[i] == a[1..][i - 1];
    }
  }

  lemma {:induction false} DotOfCombined(a: Vector, b: Vector, p: real, q: real)
    requires |a| == |b|
    ensures var c := Combined(a, b, p, q);
            Dot(c, c) == Quadratic(p, q, Dot(a, a), Dot(a, b), Dot(b, b))
  {
    hide Quadratic, Dot;
    if a == [] {
      DotEmpty();
      QuadraticStep(p, q, 0.0, 0.0, 0.0, 0.0, 0.0, 0.0);
    } else {
      var c := Combined(a, b, p, q);
      forall i | 0 <= i < |a| - 1 ensures c[1..][i] == Combined(a[1..], b[1..], p, q)[i] {
        assert a[1..][i] == a[i + 1] && b[1..][i] == b[i + 1];
      }
      assert c[1..] == Combined(a[1..], b[1..], p, q);
      DotOfCombined(a[1..], b[1..], p, q);
      var x, y, aa, ab, bb := a[0], b[0], Dot(a[1..], a[1..]), Dot(a[1..], b[1..]), Dot(b[1..], b[1..]);
      var z := p * x + q * y;
      DotHead(c, c, z, z);
      DotHead(a, a, x, x);
      DotHead(a, b, x, y);
      DotHead(b, b, y, y);
      QuadraticStep(p, q, x, y, aa, ab, bb, z);
    }
  }

  lemma DotHead(a: Vector, b: Vector, x: real, y: real)
    requires |a| == |b| > 0 && a[0] == x && b[0] == y
    ensures Dot(a, b) == x * y + Dot(a[1..], b[1..])
  {
  }

  lemma DotEmpty()
    ensures Dot([], []) == 0.0
  {
  }

  /** The value of |p a + q b| squared in terms of the three dot products. */
  function Quadratic(p: real, q: real, aa: real, ab: real, bb: real): real {
    p * p * aa + 2.0 * p * q * ab + q * q * bb
  }

  lemma QuadraticStep(p: real, q: real, x: real, y: real, aa: real, ab: real, bb: real, z: real)
    requires z == p * x + q * y
    ensures z * z + Quadratic(p, q, aa, ab, bb) == Quadratic(p, q, x * x + aa, x * y + ab, y * y + bb)
    ensures Quadratic(p, q, 0.0, 0.0, 0.0) == 0.0
  {
  }

  lemma {:induction false} DotWithZero(a: Vector, b: Vector)
    requires |a| == |b| && forall i :: 0 <= i < |b| ==> b[i] == 0.0
    ensures Dot(a, b) == 0.0
  {
    if a != [] {
      DotWithZero(a[1..], b[1..]);
    }
  }

  lemma CauchySchwarz(a: Vector, b: Vector)
    requires |a| == |b|
    ensures Dot(a, b) * Dot(a, b) <= Dot(a, a) * Dot(b, b)
  {
    var aa, ab, bb := Dot(a, a), Dot(a, b), Dot(b, b);
    DotNonNegative(b);
    if bb == 0.0 {
      DotWithZero(a, b);
    } else {
      DotOfCombined(a, b, bb, -ab);
      DotNonNegative(Combined(a, b, bb, -ab));
      Discriminant(aa, ab, bb);
    }
  }

  lemma Discriminant(aa: real, ab: real, bb: real)
    requires bb > 0.0
    requires Quadratic(bb, -ab, aa, ab, bb) >= 0.0
    ensures ab * ab <= aa * bb
  {
    var slack := aa * bb - ab * ab;
    assert bb * slack >= 0.0;
    if slack < 0.0 {
      ProductSign(bb, -slack);
    }
  }

  // ----- cosine similarity -----

  lemma NormSquared(sqrt: real -> real, a: Vector)
    requires LawfulSqrt(sqrt)
    ensures Norm(sqrt, a) >= 0.0 && Norm(sqrt, a) * Norm(sqrt, a) == Dot(a, a)
  {
    DotNonNegative(a);
  }

  /** The dot product never exceeds the product of the norms in magnitude. */
  lemma DotWithinNorms(sqrt: real -> real, a: Vector, b: Vector)
    requires LawfulSqrt(sqrt) && |a| == |b|
    ensures -(Norm(sqrt, a) * Norm(sqrt, b)) <= Dot(a, b) <= Norm(sqrt, a) * Norm(sqrt, b)
  {
    hide Dot, Norm;
    NormSquared(sqrt, a);
    NormSquared(sqrt, b);
    CauchySchwarz(a, b);
    var n, m := Norm(sqrt, a), Norm(sqrt, b);
    ProductSign(n, m);
    assert (n * m) * (n * m) == (n * n) * (m * m);
    SquaresOrder(Dot(a, b), n * m);
  }

  lemma SquaresOrder(x: real, y: real)
    requires y >= 0.0 && x * x <= y * y
    ensures -y <= x <= y
  {
    if x > y {
      ProductSign(x - y, x + y);
    } else if x < -y {
      ProductSign(-x - y, y - x);
    }
  }

  /** For vectors above the norm floor the exact quotient already lies in [-1, 1]: clamping changes nothing. */
  lemma ClampIsNoOp(sqrt: real -> real, a: Vector, b: Vector)
    requires LawfulSqrt(sqrt) && |a| == |b| > 0
    requires Norm(sqrt, a) > NORM_FLOOR && Norm(sqrt, b) > NORM_FLOOR
    ensures Norm(sqrt, a) * Norm(sqrt, b) > 0.0
    ensures CosineSimilarity(sqrt, a, b) == Dot(a, b) / (Norm(sqrt, a) * Norm(sqrt, b))
    ensures -1.0 <= CosineSimilarity(sqrt, a, b) <= 1.0
  {
    FloorGuards(sqrt, a, b);
    DotWithinNorms(sqrt, a, b);
    QuotientWithin(Dot(a, b), Norm(sqrt, a) * Norm(sqrt, b));
  }

  lemma QuotientWithin(x: real, y: real)
    requires y > 0.0 && -y <= x <= y
    ensures -1.0 <= x / y <= 1.0
  {
    var q := x / y;
    assert q * y == x;
    if q > 1.0 {
      ProductSign(q - 1.0, y);
    } else if q < -1.0 {
      ProductSign(-1.0 - q, y);
    }
  }

  /**
   `x` is the similarity of the two vectors: their dot product over the product of their norms, or 0
   when the lengths differ, there is nothing to compare, or a norm is negligible.
   */
  ghost predicate IsCosine(sqrt: real -> real, a: Vector, b: Vector, x: real) {
    if |a| != |b| || |a| == 0 || sqrt(Dot(a, a)) <= 0.000000000001 || sqrt(Dot(b, b)) <= 0.000000000001 then x == 0.0
    else x * (sqrt(Dot(a, a)) * sqrt(Dot(b, b))) == Dot(a, b)
  }

  /** The value computed is the similarity, and the only one. */
  lemma CosineIsExact(sqrt: real -> real, a: Vector, b: Vector, x: real)
    requires LawfulSqrt(sqrt)
    ensures IsCosine(sqrt, a, b, x) <==> x == CosineSimilarity(sqrt, a, b)
  {
    if |a| == |b| > 0 && Norm(sqrt, a) > NORM_FLOOR && Norm(sqrt, b) > NORM_FLOOR {
      ClampIsNoOp(sqrt, a, b);
      hide Dot;
      QuotientIff(x, Dot(a, b), Norm(sqrt, a) * Norm(sqrt, b));
    }
  }

  lemma QuotientIff(x: real, a: real, n: real)
    requires n > 0.0
    ensures x * n == a <==> x == a / n
  {
    var q := a / n;
    assert q * n == a;
    if x * n == a {
      Quotient(x, n, a);
    }
  }

  /** A positive multiple of a vector is as similar to it as can be. */
  lemma MultipleScoresOne(sqrt: real -> real, v: Vector, c: real)
    requires LawfulSqrt(sqrt) && c > 0.0 && |v| > 0
    requires Norm(sqrt, v) > NORM_FLOOR && Norm(sqrt, Scaled(v, c)) > NORM_FLOOR
    ensures CosineSimilarity(sqrt, Scaled(v, c), v) == 1.0
  {
    hide Dot, Norm, CosineSimilarity;
    CosineScaleInvariant(sqrt, v, v, c);
    ClampIsNoOp(sqrt, v, v);
    NormSquared(sqrt, v);
    Quotient(1.0, Norm(sqrt, v) * Norm(sqrt, v), Dot(v, v));
  }

  lemma CosineWithinOne(sqrt: real -> real, a: Vector, b: Vector)
    requires LawfulSqrt(sqrt)
    ensures -1.0 <= CosineSimilarity(sqrt, a, b) <= 1.0
  {
    if |a| == |b| > 0 && Norm(sqrt, a) > NORM_FLOOR && Norm(sqrt, b) > NORM_FLOOR {
      ClampIsNoOp(sqrt, a, b);
    }
  }

  function Unit(n: nat, i: nat): (e: Vector)
    requires i < n
    ensures |e| == n && forall j :: 0 <= j < n ==> e[j] == if j == i then 1.0 else 0.0
  {
    seq(n, j => if j == i then 1.0 else 0.0)
  }

  /** The dot product weighs every coordinate alike: against a unit vector it is that coordinate. */
  lemma {:induction false} DotWithUnit(a: Vector, i: nat)
    requires i < |a|
    ensures Dot(a, Unit(|a|, i)) == a[i]
  {
    var e := Unit(|a|, i);
    if i == 0 {
      DotWithZero(a[1..], e[1..]);
    } else {
      DotWithUnit(a[1..], i - 1);
      assert e[1..] == Unit(|a| - 1, i - 1);
    }
  }

  lemma CosineSymmetric(sqrt: real -> real, a: Vector, b: Vector)
    ensures CosineSimilarity(sqrt, a, b) == CosineSimilarity(sqrt, b, a)
  {
    if |a| == |b| {
      DotSymmetric(a, b);
      assert Norm(sqrt, a) * Norm(sqrt, b) == Norm(sqrt, b) * Norm(sqrt, a);
    }
  }

  lemma NormScaled(sqrt: real -> real, a: Vector, c: real)
    requires LawfulSqrt(sqrt) && c >= 0.0
    ensures Norm(sqrt, Scaled(a, c)) == c * Norm(sqrt, a)
  {
    var scaled := Scaled(a, c);
    NormSquared(sqrt, a);
    NormSquared(sqrt, scaled);
    DotScaled(a, scaled, c);
    DotSymmetric(a, scaled);
    DotScaled(a, a, c);
    var n := Norm(sqrt, a);
    assert (c * n) * (c * n) == c * (c * (n * n));
    ProductSign(c, n);
    EqualSquares(Norm(sqrt, scaled), c * n);
  }

  /** Positive scaling does not change the similarity, as long as the scaled vector stays above the floor. */
  lemma CosineScaleInvariant(sqrt: real -> real, a: Vector, b: Vector, c: real)
    requires LawfulSqrt(sqrt) && |a| == |b| > 0 && c > 0.0
    requires Norm(sqrt, a) > NORM_FLOOR && Norm(sqrt, b) > NORM_FLOOR && Norm(sqrt, Scaled(a, c)) > NORM_FLOOR
    ensures CosineSimilarity(sqrt, Scaled(a, c), b) == CosineSimilarity(sqrt, a, b)
  {
    hide Dot, Norm, CosineSimilarity;
    ClampIsNoOp(sqrt, a, b);
    ClampIsNoOp(sqrt, Scaled(a, c), b);
    DotScaled(a, b, c);
    NormScaled(sqrt, a, c);
    CancelFactor(Dot(a, b), Norm(sqrt, a), Norm(sqrt, b), c);
  }

  lemma CancelFactor(x: real, n: real, m: real, c: real)
    requires c > 0.0 && n * m > 0.0 && (c * n) * m > 0.0
    ensures (c * x) / ((c * n) * m) == x / (n * m)
  {
    var q := x / (n * m);
    assert q * (n * m) == x;
    assert q * ((c * n) * m) == c * (q * (n * m));
    Quotient(q, (c * n) * m, c * x);
  }

  // ----- normalisation -----

  /** What `l2_normalize` leaves in the vector. */
  function Normalized(sqrt: real -> real, v: Vector): Vector {
    var norm := Norm(sqrt, v);
    if norm > NORM_FLOOR then Scaled(v, 1.0 / norm) else v
  }

  method L2Normalize(sqrt: real -> real, v: array<real>)
    modifies v
    ensures v[..] == Normalized(sqrt, old(v[..]))
    ensures IsDividedByNorm(sqrt, old(v[..]), v[..])
  {
    hide Norm, IsDividedByNorm;
    var norm := Norm(sqrt, v[..]);
    ghost var target := Normalized(sqrt, v[..]);
    if norm > NORM_FLOOR {
      for i := 0 to v.Length
        invariant forall k :: 0 <= k < i ==> v[k] == target[k]
        invariant forall k :: i <= k < v.Length ==> v[k] == old(v[k])
      {
        DivideIsScale(v[i], norm);
        v[i] := v[i] / norm;
      }
    }
    NormalizedIsDivided(sqrt, old(v[..]));
    assert v[..] == target;
  }

  /** `r` is `v` divided by its length, or `v` itself when its length is negligible. */
  ghost predicate IsDividedByNorm(sqrt: real -> real, v: Vector, r: Vector) {
    && |r| == |v|
    && (sqrt(Dot(v, v)) > 0.000000000001 ==> forall i :: 0 <= i < |v| ==> r[i] * sqrt(Dot(v, v)) == v[i])
    && (sqrt(Dot(v, v)) <= 0.000000000001 ==> r == v)
  }

  lemma NormalizedIsDivided(sqrt: real -> real, v: Vector)
    ensures IsDividedByNorm(sqrt, v, Normalized(sqrt, v))
  {
    var norm := sqrt(Dot(v, v));
    assert norm == Norm(sqrt, v);
    hide Dot, Norm;
    if norm > NORM_FLOOR {
      var r := Normalized(sqrt, v);
      assert r == Scaled(v, 1.0 / norm);
      hide Normalized;
      forall i | 0 <= i < |v| ensures r[i] * norm == v[i] {
        ScaleUndone(v[i], norm);
      }
    }
  }

  lemma ScaleUndone(x: real, norm: real)
    requires norm > 0.0
    ensures (x * (1.0 / norm)) * norm == x
  {
    var inverse := 1.0 / norm;
    assert inverse * norm == 1.0;
    assert (x * inverse) * norm == x * (inverse * norm);
  }

  lemma DivideIsScale(x: real, norm: real)
    requires norm != 0.0
    ensures x / norm == x * (1.0 / norm)
  {
    Quotient(x * (1.0 / norm), norm, x);
  }

  /** A normalised vector has length one. */
  lemma NormalizedHasUnitNorm(sqrt: real -> real, v: Vector)
    requires LawfulSqrt(sqrt) && Norm(sqrt, v) > NORM_FLOOR
    ensures Norm(sqrt, Normalized(sqrt, v)) == 1.0
  {
    var norm := Norm(sqrt, v);
    Quotient(1.0, norm, norm);
    NormScaled(sqrt, v, 1.0 / norm);
    assert (1.0 / norm) * norm == 1.0;
  }

  /** For normalised vectors the similarity is the plain dot product, and it is that of the originals. */
  lemma CosineOfNormalizedIsDot(sqrt: real -> real, a: Vector, b: Vector)
    requires LawfulSqrt(sqrt) && |a| == |b| > 0
    requires Norm(sqrt, a) > NORM_FLOOR && Norm(sqrt, b) > NORM_FLOOR
    ensures
      var a', b' := Normalized(sqrt, a), Normalized(sqrt, b);
      && |a'| == |b'|
      && CosineSimilarity(sqrt, a', b') == Dot(a', b')
      && CosineSimilarity(sqrt, a', b') == CosineSimilarity(sqrt, a, b)
  {
    var a', b' := Normalized(sqrt, a), Normalized(sqrt, b);
    NormalizedHasUnitNorm(sqrt, a);
    NormalizedHasUnitNorm(sqrt, b);
    ClampIsNoOp(sqrt, a', b');
    CosineScaleInvariant(sqrt, a, b, 1.0 / Norm(sqrt, a));
    CosineSymmetric(sqrt, a', b);
    CosineScaleInvariant(sqrt, b, a', 1.0 / Norm(sqrt, b));
    CosineSymmetric(sqrt, b', a');
  }
}
