/**
 Bilinear sampling of interleaved RGB buffers: the resize in front of the detector and
 the inverse warp onto the 112x112 aligned crop, over exact reals.
 */
module Imaging {
  import opened RealMath
  import opened Geometry
  import opened Alignment

  type Byte = x: int | 0 <= x < 256

  const ALIGNED_SIZE: nat := 112
  const CHANNELS: nat := 3
  const DETERMINANT_FLOOR: real := 0.000000000001

  // ----- interpolation of one channel -----

  function Interpolate(p00: real, p10: real, p01: real, p11: real, fx: real, fy: real): real {
    var top := p00 + (p10 - p00) * fx;
    var bottom := p01 + (p11 - p01) * fx;
    top + (bottom - top) * fy
  }

  /** Rounds to the nearest integer, halves away from zero. */
  function Round(v: real): int {
    if v >= 0.0 then (v + 0.5).Floor else -((-v + 0.5).Floor)
  }

  function ClampToByte(v: int): (b: Byte)
    ensures 0 <= v < 256 ==> b == v
  {
    if v < 0 then 0 else if v > 255 then 255 else v
  }

  lemma Between(a: real, b: real, f: real, lo: real, hi: real)
    requires lo <= a <= hi && lo <= b <= hi && 0.0 <= f <= 1.0
    ensures lo <= a + (b - a) * f <= hi
  {
    ProductSign(1.0 - f, a - lo);
    ProductSign(f, b - lo);
    ProductSign(1.0 - f, hi - a);
    ProductSign(f, hi - b);
  }

  /** The rounded value stays between any integer bounds of the four samples, so clamping changes nothing. */
  lemma InterpolationStaysBetween(p00: int, p10: int, p01: int, p11: int, fx: real, fy: real, lo: int, hi: int)
    requires lo <= p00 <= hi && lo <= p10 <= hi && lo <= p01 <= hi && lo <= p11 <= hi
    requires 0.0 <= fx <= 1.0 && 0.0 <= fy <= 1.0
    ensures lo <= Round(Interpolate(p00 as real, p10 as real, p01 as real, p11 as real, fx, fy)) <= hi
  {
    var a, b, c, d := p00 as real, p10 as real, p01 as real, p11 as real;
    Between(a, b, fx, lo as real, hi as real);
    Between(c, d, fx, lo as real, hi as real);
    Between(a + (b - a) * fx, c + (d - c) * fx, fy, lo as real, hi as real);
  }

  // ----- addressing -----

  function Index(w: nat, x: nat, y: nat, ch: nat): nat {
    (y * w + x) * CHANNELS + ch
  }

  lemma IndexInRange(w: nat, h: nat, x: nat, y: nat, ch: nat)
    requires x < w && y < h && ch < CHANNELS
    ensures Index(w, x, y, ch) < w * h * CHANNELS
  {
    assert y * w <= (h - 1) * w;
    assert (h - 1) * w + w == h * w;
  }

  /** Row, column and channel of a buffer position. */
  function RowOf(w: nat, k: nat): nat
    requires w > 0
  {
    (k / CHANNELS) / w
  }

  function ColumnOf(w: nat, k: nat): nat
    requires w > 0
  {
    (k / CHANNELS) % w
  }

  lemma IndexDecomposes(w: nat, x: nat, y: nat, ch: nat)
    requires x < w && ch < CHANNELS
    ensures var k := Index(w, x, y, ch);
            k % CHANNELS == ch && ColumnOf(w, k) == x && RowOf(w, k) == y
  {
    var k := Index(w, x, y, ch);
    var cell := y * w + x;
    assert k / CHANNELS == cell && k % CHANNELS == ch;
    DivisionIsUnique(cell, w, y, x);
  }

  lemma DivisionIsUnique(n: nat, w: nat, q: nat, r: nat)
    requires n == q * w + r && r < w
    ensures n / w == q && n % w == r
  {
    var q', r' := n / w, n % w;
    assert n == q' * w + r';
    if q' < q {
      Scaled(q' + 1, q, w);
    } else if q < q' {
      Scaled(q + 1, q', w);
    }
  }

  lemma Scaled(a: nat, b: nat, w: nat)
    requires a <= b
    ensures a * w <= b * w
    ensures a > 0 ==> a * w == (a - 1) * w + w
  {
  }

  lemma PositionInRange(w: nat, h: nat, k: nat)
    requires w > 0 && k < w * h * CHANNELS
    ensures ColumnOf(w, k) < w && RowOf(w, k) < h && k % CHANNELS < CHANNELS
    ensures Index(w, ColumnOf(w, k), RowOf(w, k), k % CHANNELS) == k
  {
    var cell := k / CHANNELS;
    assert cell < w * h;
    assert cell == (cell / w) * w + cell % w;
    if cell / w >= h {
      assert (cell / w) * w >= h * w;
    }
  }

  function Min(a: nat, b: nat): nat {
    if a < b then a else b
  }

  /** One channel sampled at column x0+fx and row y0+fy, the right and lower neighbours held inside the image. */
  function SampleAt(src: seq<Byte>, w: nat, h: nat, x0: nat, y0: nat, fx: real, fy: real, ch: nat): Byte
    requires |src| == w * h * CHANNELS && x0 < w && y0 < h && ch < CHANNELS
  {
    var x1, y1 := Min(x0 + 1, w - 1), Min(y0 + 1, h - 1);
    IndexInRange(w, h, x0, y0, ch);
    IndexInRange(w, h, x1, y0, ch);
    IndexInRange(w, h, x0, y1, ch);
    IndexInRange(w, h, x1, y1, ch);
    var p00, p10 := src[Index(w, x0, y0, ch)], src[Index(w, x1, y0, ch)];
    var p01, p11 := src[Index(w, x0, y1, ch)], src[Index(w, x1, y1, ch)];
    ClampToByte(Round(Interpolate(p00 as real, p10 as real, p01 as real, p11 as real, fx, fy)))
  }

  /**
   A sampled channel lies between any bounds of its four source pixels, and rounding alone
   produces it: the clamp never acts.
   */
  lemma SampleStaysBetween(
    src: seq<Byte>, w: nat, h: nat, x0: nat, y0: nat, fx: real, fy: real, ch: nat, lo: int, hi: int)
    requires |src| == w * h * CHANNELS && x0 < w && y0 < h && ch < CHANNELS
    requires 0.0 <= fx <= 1.0 && 0.0 <= fy <= 1.0
    requires forall x, y :: x in {x0, Min(x0 + 1, w - 1)} && y in {y0, Min(y0 + 1, h - 1)} ==>
      Index(w, x, y, ch) < |src| && lo <= src[Index(w, x, y, ch)] <= hi
    ensures lo <= SampleAt(src, w, h, x0, y0, fx, fy, ch) <= hi
    ensures
      var x1, y1 := Min(x0 + 1, w - 1), Min(y0 + 1, h - 1);
      SampleAt(src, w, h, x0, y0, fx, fy, ch) ==
      Round(Interpolate(src[Index(w, x0, y0, ch)] as real, src[Index(w, x1, y0, ch)] as real,
                        src[Index(w, x0, y1, ch)] as real, src[Index(w, x1, y1, ch)] as real, fx, fy))
  {
    var x1, y1 := Min(x0 + 1, w - 1), Min(y0 + 1, h - 1);
    var p00, p10 := src[Index(w, x0, y0, ch)], src[Index(w, x1, y0, ch)];
    var p01, p11 := src[Index(w, x0, y1, ch)], src[Index(w, x1, y1, ch)];
    InterpolationStaysBetween(p00, p10, p01, p11, fx, fy, lo, hi);
    InterpolationStaysBetween(p00, p10, p01, p11, fx, fy, 0, 255);
  }

  lemma ChannelStaysBetween(
    src: seq<Byte>, w: nat, h: nat, x0: nat, y0: nat, fx: real, fy: real, ch: nat, lo: int, hi: int)
    requires |src| == w * h * CHANNELS && x0 < w && y0 < h && ch < CHANNELS
    requires 0.0 <= fx <= 1.0 && 0.0 <= fy <= 1.0
    requires forall k :: 0 <= k < |src| && k % CHANNELS == ch ==> lo <= src[k] <= hi
    ensures lo <= SampleAt(src, w, h, x0, y0, fx, fy, ch) <= hi
  {
    hide SampleAt, Index;
    forall x, y | x in {x0, Min(x0 + 1, w - 1)} && y in {y0, Min(y0 + 1, h - 1)}
      ensures Index(w, x, y, ch) < |src| && lo <= src[Index(w, x, y, ch)] <= hi
    {
      ChannelValue(src, w, h, x, y, ch, lo, hi);
    }
    SampleStaysBetween(src, w, h, x0, y0, fx, fy, ch, lo, hi);
  }

  lemma ChannelValue(src: seq<Byte>, w: nat, h: nat, x: nat, y: nat, ch: nat, lo: int, hi: int)
    requires |src| == w * h * CHANNELS && x < w && y < h && ch < CHANNELS
    requires forall k :: 0 <= k < |src| && k % CHANNELS == ch ==> lo <= src[k] <= hi
    ensures Index(w, x, y, ch) < |src| && lo <= src[Index(w, x, y, ch)] <= hi
  {
    IndexInRange(w, h, x, y, ch);
    IndexDecomposes(w, x, y, ch);
  }

  // ----- what a sample means -----

  /**
   `value` is the nearest integer to the four pixels around column x, row y, each weighted by the
   distance of (x, y) from the opposite corner; beyond the last column or row the last one repeats.
   */
  ghost predicate IsWeightedSample(src: seq<Byte>, w: nat, h: nat, x: real, y: real, ch: nat, value: int)
    requires |src| == w * h * CHANNELS && 0 <= x.Floor < w && 0 <= y.Floor < h && ch < CHANNELS
  {
    var x0, y0 := x.Floor, y.Floor;
    var x1, y1 := if x0 + 1 < w then x0 + 1 else x0, if y0 + 1 < h then y0 + 1 else y0;
    var fx, fy := x - x0 as real, y - y0 as real;
    IndexInRange(w, h, x0, y0, ch);
    IndexInRange(w, h, x1, y0, ch);
    IndexInRange(w, h, x0, y1, ch);
    IndexInRange(w, h, x1, y1, ch);
    IsNearest(src[(y0 * w + x0) * 3 + ch], src[(y0 * w + x1) * 3 + ch],
              src[(y1 * w + x0) * 3 + ch], src[(y1 * w + x1) * 3 + ch], fx, fy, value)
  }

  /** Nearest to the mean of the upper left, upper right, lower left and lower right pixel, halves rounding up. */
  ghost predicate IsNearest(p00: Byte, p10: Byte, p01: Byte, p11: Byte, fx: real, fy: real, value: int) {
    var mean :=
      (1.0 - fx) * (1.0 - fy) * p00 as real + fx * (1.0 - fy) * p10 as real
      + (1.0 - fx) * fy * p01 as real + fx * fy * p11 as real;
    value as real - 0.5 <= mean < value as real + 0.5
  }

  lemma RoundedIsNearest(p00: Byte, p10: Byte, p01: Byte, p11: Byte, fx: real, fy: real)
    requires 0.0 <= fx <= 1.0 && 0.0 <= fy <= 1.0
    ensures
      var v := Interpolate(p00 as real, p10 as real, p01 as real, p11 as real, fx, fy);
      IsNearest(p00, p10, p01, p11, fx, fy, ClampToByte(Round(v)))
  {
    var a, b, c, d := p00 as real, p10 as real, p01 as real, p11 as real;
    InterpolationIsNonNegative(a, b, c, d, fx, fy);
    WeightsOfCorners(a, b, c, d, fx, fy);
    RoundIsNearest(Interpolate(a, b, c, d, fx, fy));
    hide Interpolate, Round;
  }

  lemma WeightsOfCorners(p00: real, p10: real, p01: real, p11: real, fx: real, fy: real)
    ensures Interpolate(p00, p10, p01, p11, fx, fy)
      == (1.0 - fx) * (1.0 - fy) * p00 + fx * (1.0 - fy) * p10 + (1.0 - fx) * fy * p01 + fx * fy * p11
  {
  }

  lemma RoundIsNearest(v: real)
    requires v >= 0.0
    ensures Round(v) as real - 0.5 <= v < Round(v) as real + 0.5
  {
  }

  lemma InterpolationIsNonNegative(p00: real, p10: real, p01: real, p11: real, fx: real, fy: real)
    requires 0.0 <= p00 <= 255.0 && 0.0 <= p10 <= 255.0 && 0.0 <= p01 <= 255.0 && 0.0 <= p11 <= 255.0
    requires 0.0 <= fx <= 1.0 && 0.0 <= fy <= 1.0
    ensures 0.0 <= Interpolate(p00, p10, p01, p11, fx, fy) <= 255.0
  {
    Between(p00, p10, fx, 0.0, 255.0);
    Between(p01, p11, fx, 0.0, 255.0);
    Between(p00 + (p10 - p00) * fx, p01 + (p11 - p01) * fx, fy, 0.0, 255.0);
  }

  lemma SampleIsWeighted(src: seq<Byte>, w: nat, h: nat, x: real, y: real, ch: nat)
    requires |src| == w * h * CHANNELS && 0 <= x.Floor < w && 0 <= y.Floor < h && ch < CHANNELS
    ensures
      IsWeightedSample(src, w, h, x, y, ch,
        SampleAt(src, w, h, x.Floor, y.Floor, x - x.Floor as real, y - y.Floor as real, ch))
  {
    var x0, y0 := x.Floor, y.Floor;
    var x1, y1 := Min(x0 + 1, w - 1), Min(y0 + 1, h - 1);
    var fx, fy := x - x0 as real, y - y0 as real;
    IndexInRange(w, h, x0, y0, ch);
    IndexInRange(w, h, x1, y0, ch);
    IndexInRange(w, h, x0, y1, ch);
    IndexInRange(w, h, x1, y1, ch);
    RoundedIsNearest(src[Index(w, x0, y0, ch)], src[Index(w, x1, y0, ch)],
                     src[Index(w, x0, y1, ch)], src[Index(w, x1, y1, ch)], fx, fy);
    hide Interpolate, Round, ClampToByte, IsNearest;
  }

  // ----- resize -----

  /** Where destination cell `d` of `dstN` falls among `srcN` source cells. */
  function SourceCoordinate(d: nat, srcN: nat, dstN: nat): real
    requires d < dstN
  {
    var c := (d as real + 0.5) * (srcN as real / dstN as real) - 0.5;
    if c < 0.0 then 0.0 else c
  }

  lemma SourceCoordinateInRange(d: nat, srcN: nat, dstN: nat)
    requires d < dstN && srcN > 0
    ensures 0 <= SourceCoordinate(d, srcN, dstN).Floor < srcN
    ensures var c := SourceCoordinate(d, srcN, dstN); 0.0 <= c - c.Floor as real < 1.0
  {
    var ratio := srcN as real / dstN as real;
    var c := (d as real + 0.5) * ratio - 0.5;
    assert ratio > 0.0 && dstN as real * ratio == srcN as real;
    MulMonotone(d as real + 0.5, dstN as real, ratio);
  }

  /** The value of buffer position `k` of the resized image. */
  function ResizedByte(src: seq<Byte>, srcW: nat, srcH: nat, dstW: nat, dstH: nat, k: nat): Byte
    requires srcW > 0 && srcH > 0 && |src| == srcW * srcH * CHANNELS
    requires dstW > 0 && k < dstW * dstH * CHANNELS
  {
    PositionInRange(dstW, dstH, k);
    var sx, sy := SourceCoordinate(ColumnOf(dstW, k), srcW, dstW), SourceCoordinate(RowOf(dstW, k), srcH, dstH);
    SourceCoordinateInRange(ColumnOf(dstW, k), srcW, dstW);
    SourceCoordinateInRange(RowOf(dstW, k), srcH, dstH);
    SampleAt(src, srcW, srcH, sx.Floor, sy.Floor, sx - sx.Floor as real, sy - sy.Floor as real, k % CHANNELS)
  }

  lemma ResizedCell(src: seq<Byte>, srcW: nat, srcH: nat, dstW: nat, dstH: nat, dx: nat, dy: nat, ch: nat)
    requires srcW > 0 && srcH > 0 && |src| == srcW * srcH * CHANNELS
    requires dx < dstW && dy < dstH && ch < CHANNELS
    ensures
      var sx, sy := SourceCoordinate(dx, srcW, dstW), SourceCoordinate(dy, srcH, dstH);
      var k := Index(dstW, dx, dy, ch);
      && 0 <= sx.Floor < srcW && 0 <= sy.Floor < srcH && k < dstW * dstH * CHANNELS
      && ResizedByte(src, srcW, srcH, dstW, dstH, k)
         == SampleAt(src, srcW, srcH, sx.Floor, sy.Floor, sx - sx.Floor as real, sy - sy.Floor as real, ch)
  {
    hide SampleAt, SourceCoordinate;
    SourceCoordinateInRange(dx, srcW, dstW);
    SourceCoordinateInRange(dy, srcH, dstH);
    IndexInRange(dstW, dstH, dx, dy, ch);
    IndexDecomposes(dstW, dx, dy, ch);
  }

  /** `c` is where the centre of destination cell `d` falls in the source, or the first cell before that. */
  ghost predicate IsSourceOf(d: nat, srcN: nat, dstN: nat, c: real) {
    if (2 * d + 1) * srcN < dstN then c == 0.0
    else (c + 0.5) * dstN as real == (d as real + 0.5) * srcN as real
  }

  lemma SourceIsExact(d: nat, srcN: nat, dstN: nat)
    requires d < dstN
    ensures IsSourceOf(d, srcN, dstN, SourceCoordinate(d, srcN, dstN))
  {
    var ratio := srcN as real / dstN as real;
    assert ratio * dstN as real == srcN as real;
    CentreStretched(d as real + 0.5, ratio, srcN as real, dstN as real);
    assert ((2 * d + 1) * srcN) as real == 2.0 * ((d as real + 0.5) * srcN as real);
  }

  lemma CentreStretched(x: real, ratio: real, m: real, n: real)
    requires n > 0.0 && ratio * n == m
    ensures (x * ratio) * n == x * m
    ensures x * ratio < 0.5 <==> 2.0 * (x * m) < n
  {
    assert (x * ratio) * n == x * (ratio * n);
    if x * ratio < 0.5 {
      ProductSign(0.5 - x * ratio, n);
    } else {
      ProductSign(x * ratio - 0.5, n);
    }
  }

  /** Each channel of pixel (dx, dy) of the result is the weighted sample at that pixel's place in the source. */
  lemma ResizedPixel(src: seq<Byte>, srcW: nat, srcH: nat, dstW: nat, dstH: nat, dx: nat, dy: nat, ch: nat)
    returns (x: real, y: real)
    requires srcW > 0 && srcH > 0 && |src| == srcW * srcH * CHANNELS
    requires dx < dstW && dy < dstH && ch < CHANNELS
    ensures IsSourceOf(dx, srcW, dstW, x) && IsSourceOf(dy, srcH, dstH, y)
    ensures 0 <= x.Floor < srcW && 0 <= y.Floor < srcH
    ensures
      var k := (dy * dstW + dx) * 3 + ch;
      && k < dstW * dstH * CHANNELS
      && IsWeightedSample(src, srcW, srcH, x, y, ch, ResizedByte(src, srcW, srcH, dstW, dstH, k))
  {
    x, y := SourceCoordinate(dx, srcW, dstW), SourceCoordinate(dy, srcH, dstH);
    SourceIsExact(dx, srcW, dstW);
    SourceIsExact(dy, srcH, dstH);
    SourceCoordinateInRange(dx, srcW, dstW);
    SourceCoordinateInRange(dy, srcH, dstH);
    ResizedCell(src, srcW, srcH, dstW, dstH, dx, dy, ch);
    SampleIsWeighted(src, srcW, srcH, x, y, ch);
    assert Index(dstW, dx, dy, ch) == (dy * dstW + dx) * 3 + ch;
    hide SampleAt, IsWeightedSample, SourceCoordinate, ResizedByte;
  }

  /** Positions before `n` hold their resized value. */
  ghost predicate ResizedUpTo(src: seq<Byte>, srcW: nat, srcH: nat, dstW: nat, dstH: nat, out: seq<Byte>, n: nat) {
    && srcW > 0 && srcH > 0 && |src| == srcW * srcH * CHANNELS
    && n <= |out| == dstW * dstH * CHANNELS
    && forall k :: 0 <= k < n ==> dstW > 0 && out[k] == ResizedByte(src, srcW, srcH, dstW, dstH, k)
  }

  lemma WriteResized(src: seq<Byte>, srcW: nat, srcH: nat, dstW: nat, dstH: nat, out: seq<Byte>, n: nat, value: Byte)
    requires ResizedUpTo(src, srcW, srcH, dstW, dstH, out, n)
    requires n < |out| && dstW > 0 && value == ResizedByte(src, srcW, srcH, dstW, dstH, n)
    ensures ResizedUpTo(src, srcW, srcH, dstW, dstH, out[n := value], n + 1)
  {
    hide ResizedByte;
  }

  /** The loops visit the buffer in order. */
  lemma IndexSteps(w: nat, x: nat, y: nat, ch: nat)
    ensures Index(w, x, y, ch + 1) == Index(w, x, y, ch) + 1
    ensures Index(w, x + 1, y, 0) == Index(w, x, y, CHANNELS)
    ensures Index(w, 0, y + 1, 0) == Index(w, w, y, 0)
    ensures Index(w, 0, y, 0) == y * w * CHANNELS
  {
    Scaled(y + 1, y + 1, w);
  }

  /** The body of the innermost loop: one channel of one pixel. */
  method WriteCell(
    src: seq<Byte>, srcW: nat, srcH: nat, dstW: nat, dstH: nat, out: array<Byte>, dx: nat, dy: nat, ch: nat)
    requires dx < dstW && dy < dstH && ch < CHANNELS
    requires ResizedUpTo(src, srcW, srcH, dstW, dstH, out[..], Index(dstW, dx, dy, ch))
    modifies out
    ensures ResizedUpTo(src, srcW, srcH, dstW, dstH, out[..], Index(dstW, dx, dy, ch + 1))
  {
    hide SampleAt, SourceCoordinate, ResizedByte, Index;
    var sx, sy := SourceCoordinate(dx, srcW, dstW), SourceCoordinate(dy, srcH, dstH);
    ResizedCell(src, srcW, srcH, dstW, dstH, dx, dy, ch);
    IndexSteps(dstW, dx, dy, ch);
    var k := Index(dstW, dx, dy, ch);
    var value := SampleAt(src, srcW, srcH, sx.Floor, sy.Floor, sx - sx.Floor as real, sy - sy.Floor as real, ch);
    WriteResized(src, srcW, srcH, dstW, dstH, out[..], k, value);
    ghost var written := out[..][k := value];
    out[k] := value;
    assert out[..] == written;
  }

  method ResizeBilinearRgb(src: seq<Byte>, srcW: nat, srcH: nat, dstW: nat, dstH: nat) returns (out: array<Byte>)
    requires srcW > 0 && srcH > 0 && |src| == srcW * srcH * CHANNELS
    ensures fresh(out) && ResizedUpTo(src, srcW, srcH, dstW, dstH, out[..], out.Length)
  {
    hide *;
    var size := dstW * dstH * CHANNELS;
    out := new Byte[size](_ => 0);
    NothingWritten(src, srcW, srcH, dstW, dstH, out[..]);
    for dy := 0 to dstH
      invariant ResizedUpTo(src, srcW, srcH, dstW, dstH, out[..], Index(dstW, 0, dy, 0))
    {
      for dx := 0 to dstW
        invariant ResizedUpTo(src, srcW, srcH, dstW, dstH, out[..], Index(dstW, dx, dy, 0))
      {
        for ch := 0 to CHANNELS
          invariant ResizedUpTo(src, srcW, srcH, dstW, dstH, out[..], Index(dstW, dx, dy, ch))
        {
          WriteCell(src, srcW, srcH, dstW, dstH, out, dx, dy, ch);
        }
        IndexSteps(dstW, dx, dy, 0);
      }
      IndexSteps(dstW, 0, dy, 0);
    }
    IndexAtTheEnd(dstW, dstH);
  }

  lemma NothingWritten(src: seq<Byte>, srcW: nat, srcH: nat, dstW: nat, dstH: nat, out: seq<Byte>)
    requires srcW > 0 && srcH > 0 && |src| == srcW * srcH * CHANNELS && |out| == dstW * dstH * CHANNELS
    ensures ResizedUpTo(src, srcW, srcH, dstW, dstH, out, Index(dstW, 0, 0, 0))
  {
    IndexSteps(dstW, 0, 0, 0);
  }

  lemma IndexAtTheEnd(w: nat, h: nat)
    ensures Index(w, 0, h, 0) == w * h * CHANNELS
  {
    IndexSteps(w, 0, h, 0);
    assert h * w == w * h;
  }

  /** A channel that is uniform in the source is uniform, at the same value, in the result. */
  lemma UniformStaysUniform(src: seq<Byte>, srcW: nat, srcH: nat, dstW: nat, dstH: nat, k: nat, value: int)
    requires srcW > 0 && srcH > 0 && |src| == srcW * srcH * CHANNELS && dstW > 0 && k < dstW * dstH * CHANNELS
    requires forall j :: 0 <= j < |src| && j % CHANNELS == k % CHANNELS ==> src[j] == value
    ensures ResizedByte(src, srcW, srcH, dstW, dstH, k) == value
  {
    ResizedStaysBetween(src, srcW, srcH, dstW, dstH, k, value, value);
  }

  lemma ResizedStaysBetween(src: seq<Byte>, srcW: nat, srcH: nat, dstW: nat, dstH: nat, k: nat, lo: int, hi: int)
    requires srcW > 0 && srcH > 0 && |src| == srcW * srcH * CHANNELS && dstW > 0 && k < dstW * dstH * CHANNELS
    requires forall j :: 0 <= j < |src| && j % CHANNELS == k % CHANNELS ==> lo <= src[j] <= hi
    ensures lo <= ResizedByte(src, srcW, srcH, dstW, dstH, k) <= hi
  {
    hide SampleAt, SourceCoordinate;
    PositionInRange(dstW, dstH, k);
    var sx, sy := SourceCoordinate(ColumnOf(dstW, k), srcW, dstW), SourceCoordinate(RowOf(dstW, k), srcH, dstH);
    SourceCoordinateInRange(ColumnOf(dstW, k), srcW, dstW);
    SourceCoordinateInRange(RowOf(dstW, k), srcH, dstH);
    ChannelStaysBetween(src, srcW, srcH, sx.Floor, sy.Floor, sx - sx.Floor as real, sy - sy.Floor as real, k % CHANNELS,
      lo, hi);
  }

  /** Resizing to the size an image already has returns the image. */
  lemma ResizeToSameSizeIsIdentity(src: seq<Byte>, w: nat, h: nat, k: nat)
    requires w > 0 && h > 0 && |src| == w * h * CHANNELS && k < |src|
    ensures ResizedByte(src, w, h, w, h, k) == src[k]
  {
    hide SampleAt, SourceCoordinate;
    PositionInRange(w, h, k);
    var x, y := ColumnOf(w, k), RowOf(w, k);
    SameCoordinate(x, w);
    SameCoordinate(y, h);
    SampleAtPixel(src, w, h, x, y, k % CHANNELS);
  }

  lemma SameCoordinate(d: nat, n: nat)
    requires d < n
    ensures SourceCoordinate(d, n, n) == d as real && (d as real).Floor == d
  {
    Quotient(1.0, n as real, n as real);
  }

  lemma SampleAtPixel(src: seq<Byte>, w: nat, h: nat, x: nat, y: nat, ch: nat)
    requires |src| == w * h * CHANNELS && x < w && y < h && ch < CHANNELS
    ensures Index(w, x, y, ch) < |src| && SampleAt(src, w, h, x, y, 0.0, 0.0, ch) == src[Index(w, x, y, ch)]
  {
    IndexInRange(w, h, x, y, ch);
    var p := src[Index(w, x, y, ch)] as real;
    assert forall a, b, c :: Interpolate(p, a, b, c, 0.0, 0.0) == p;
  }

  // ----- inverse warp -----

  function Determinant(t: AffineTransform): real {
    t.a * t.d - t.b * t.c
  }

  function Inverse(t: AffineTransform): AffineTransform
    requires Determinant(t) != 0.0
  {
    var det := Determinant(t);
    var a, b, c, d := t.d / det, -t.b / det, -t.c / det, t.a / det;
    AffineTransform(a, b, c, d, -(a * t.tx + b * t.ty), -(c * t.tx + d * t.ty))
  }

  /** The inverse coefficients undo the transform on every point, in both orders. */
  lemma InverseUndoes(t: AffineTransform, p: Point)
    requires Determinant(t) != 0.0
    ensures Inverse(t).Apply(t.Apply(p)) == p
    ensures t.Apply(Inverse(t).Apply(p)) == p
  {
    hide Inverse, Determinant;
    InverseCoefficients(t);
    var i, r := Inverse(t), 1.0 / Determinant(t);
    UndoneAfter(t, i, r, p, t.Apply(p));
    UndoneBefore(t, i, r, p, i.Apply(p));
  }

  ghost predicate Inverts(t: AffineTransform, i: AffineTransform, r: real) {
    && Determinant(t) * r == 1.0
    && i.a == t.d * r && i.b == -t.b * r && i.c == -t.c * r && i.d == t.a * r
    && i.tx == -(i.a * t.tx + i.b * t.ty) && i.ty == -(i.c * t.tx + i.d * t.ty)
  }

  lemma InverseCoefficients(t: AffineTransform)
    requires Determinant(t) != 0.0
    ensures Inverts(t, Inverse(t), 1.0 / Determinant(t))
  {
    hide Determinant;
    var det := Determinant(t);
    Reciprocal(t.d, det);
    Reciprocal(-t.b, det);
    Reciprocal(-t.c, det);
    Reciprocal(t.a, det);
  }

  lemma Reciprocal(x: real, det: real)
    requires det != 0.0
    ensures x / det == x * (1.0 / det) && det * (1.0 / det) == 1.0
  {
    Quotient(x * (1.0 / det), det, x);
  }

  lemma UndoneAfter(t: AffineTransform, i: AffineTransform, r: real, p: Point, image: Point)
    requires Inverts(t, i, r)
    requires image.x == t.a * p.x + t.b * p.y + t.tx && image.y == t.c * p.x + t.d * p.y + t.ty
    ensures i.Apply(image) == p
  {
    var one := t.a * t.d * r - t.b * t.c * r;
    assert one == 1.0;
    assert one * p.x == p.x && one * p.y == p.y && one * t.tx == t.tx && one * t.ty == t.ty;
  }

  lemma UndoneBefore(t: AffineTransform, i: AffineTransform, r: real, p: Point, preimage: Point)
    requires Inverts(t, i, r)
    requires preimage.x == i.a * p.x + i.b * p.y + i.tx && preimage.y == i.c * p.x + i.d * p.y + i.ty
    ensures t.Apply(preimage) == p
  {
    var one := t.a * t.d * r - t.b * t.c * r;
    assert one == 1.0;
    assert one * p.x == p.x && one * p.y == p.y && one * t.tx == t.tx && one * t.ty == t.ty;
  }

  /** Samples one channel; points outside the image, and on its last row or column, are black. */
  function SampleBilinear(src: seq<Byte>, w: nat, h: nat, x: real, y: real, ch: nat): Byte
    requires w > 0 && h > 0 && |src| == w * h * CHANNELS && ch < CHANNELS
  {
    if x < 0.0 || y < 0.0 || x >= (w - 1) as real || y >= (h - 1) as real then 0
    else SampleAt(src, w, h, x.Floor, y.Floor, x - x.Floor as real, y - y.Floor as real, ch)
  }

  /** The value of buffer position `k` of the aligned crop: its source point, sampled. */
  function AlignedByte(src: seq<Byte>, w: nat, h: nat, t: AffineTransform, k: nat): Byte
    requires w > 0 && h > 0 && |src| == w * h * CHANNELS
  {
    if -DETERMINANT_FLOOR < Determinant(t) < DETERMINANT_FLOOR then 0
    else
      var s := Inverse(t).Apply(Point(ColumnOf(ALIGNED_SIZE, k) as real, RowOf(ALIGNED_SIZE, k) as real));
      SampleBilinear(src, w, h, s.x, s.y, k % CHANNELS)
  }

  ghost predicate AlignedUpTo(src: seq<Byte>, w: nat, h: nat, t: AffineTransform, out: seq<Byte>, n: nat) {
    && w > 0 && h > 0 && |src| == w * h * CHANNELS
    && n <= |out| == ALIGNED_SIZE * ALIGNED_SIZE * CHANNELS
    && forall k :: 0 <= k < n ==> out[k] == AlignedByte(src, w, h, t, k)
  }

  method WarpToAligned(src: seq<Byte>, w: nat, h: nat, t: AffineTransform) returns (out: array<Byte>)
    requires w > 0 && h > 0 && |src| == w * h * CHANNELS
    ensures fresh(out) && AlignedUpTo(src, w, h, t, out[..], out.Length)
  {
    hide SampleBilinear, Inverse;
    var size := ALIGNED_SIZE;
    out := new Byte[size * size * CHANNELS](_ => 0);
    var det := Determinant(t);
    if -DETERMINANT_FLOOR < det < DETERMINANT_FLOOR {
      return;
    }
    var inverse := Inverse(t);
    for dy := 0 to size
      invariant AlignedUpTo(src, w, h, t, out[..], Index(size, 0, dy, 0))
    {
      for dx := 0 to size
        invariant AlignedUpTo(src, w, h, t, out[..], Index(size, dx, dy, 0))
      {
        var s := inverse.Apply(Point(dx as real, dy as real));
        for ch := 0 to CHANNELS
          invariant AlignedUpTo(src, w, h, t, out[..], Index(size, dx, dy, ch))
        {
          IndexDecomposes(size, dx, dy, ch);
          out[Index(size, dx, dy, ch)] := SampleBilinear(src, w, h, s.x, s.y, ch);
        }
      }
    }
  }

  /**
   Each aligned pixel shows the source point that the transform carries onto it: when that
   point lies strictly inside the image, the pixel is within the channel's range there.
   */
  lemma AlignedPixelShowsItsPreimage(
    src: seq<Byte>, w: nat, h: nat, t: AffineTransform, k: nat, p: Point, lo: int, hi: int)
    requires w > 0 && h > 0 && |src| == w * h * CHANNELS
    requires Determinant(t) >= DETERMINANT_FLOOR || Determinant(t) <= -DETERMINANT_FLOOR
    requires t.Apply(p) == Point(ColumnOf(ALIGNED_SIZE, k) as real, RowOf(ALIGNED_SIZE, k) as real)
    requires forall j :: 0 <= j < |src| && j % CHANNELS == k % CHANNELS ==> lo <= src[j] <= hi
    ensures AlignedByte(src, w, h, t, k) == SampleBilinear(src, w, h, p.x, p.y, k % CHANNELS)
    ensures 0.0 <= p.x < (w - 1) as real && 0.0 <= p.y < (h - 1) as real ==> lo <= AlignedByte(src, w, h, t, k) <= hi
  {
    hide SampleAt, Inverse;
    InverseUndoes(t, p);
    if 0.0 <= p.x < (w - 1) as real && 0.0 <= p.y < (h - 1) as real {
      ChannelStaysBetween(src, w, h, p.x.Floor, p.y.Floor, p.x - p.x.Floor as real, p.y - p.y.Floor as real,
        k % CHANNELS, lo, hi);
    }
  }

  /**
   Pixel (dx, dy) of the crop is the weighted sample at the source point that the transform carries onto
   it, or black when that point is not inside the last row and column.
   */
  lemma AlignedPixel(src: seq<Byte>, w: nat, h: nat, t: AffineTransform, dx: nat, dy: nat, ch: nat, p: Point)
    requires w > 0 && h > 0 && |src| == w * h * CHANNELS && dx < 112 && ch < 3
    requires Determinant(t) >= DETERMINANT_FLOOR || Determinant(t) <= -DETERMINANT_FLOOR
    requires t.Apply(p) == Point(dx as real, dy as real)
    ensures
      var value := AlignedByte(src, w, h, t, (dy * 112 + dx) * 3 + ch);
      if 0.0 <= p.x < (w - 1) as real && 0.0 <= p.y < (h - 1) as real then
        IsWeightedSample(src, w, h, p.x, p.y, ch, value)
      else value == 0
  {
    hide SampleAt, Inverse, IsWeightedSample, Determinant;
    InverseUndoes(t, p);
    IndexDecomposes(112, dx, dy, ch);
    if 0.0 <= p.x < (w - 1) as real && 0.0 <= p.y < (h - 1) as real {
      SampleIsWeighted(src, w, h, p.x, p.y, ch);
    }
  }

  /** A degenerate transform gives a black crop. */
  lemma DegenerateIsBlack(src: seq<Byte>, w: nat, h: nat, t: AffineTransform, k: nat)
    requires w > 0 && h > 0 && |src| == w * h * CHANNELS
    requires -0.000000000001 < t.a * t.d - t.b * t.c < 0.000000000001
    ensures AlignedByte(src, w, h, t, k) == 0
  {
    hide SampleBilinear, Inverse;
  }
}
