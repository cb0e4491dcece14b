/**
  The per-pixel dissimilarity metric and the normalised score of a pair of
  frames (`diff_rgba3` and the body of the inner loop of `fill_percents`).
 */
module Pixels {
  import opened Scores

  type Byte = x: int | 0 <= x < 256

  /** One RGBA sample: channels 0, 1, 2 and 3 of an `Rgba<u8>`. */
  datatype Rgba = Rgba(r: Byte, g: Byte, b: Byte, a: Byte)

  /** A decoded frame: its dimensions and its pixels in row-major order. */
  datatype Frame = Frame(width: nat, height: nat, pixels: seq<Rgba>)

  /** The largest value of the metric: three channels differing by 255. */
  const MaxDiff: nat := 765

  /** A frame as the image decoder hands it over: exactly one pixel per grid cell. */
  predicate ValidFrame(f: Frame) {
    |f.pixels| == f.width * f.height
  }

  predicate SameRgb(p: Rgba, q: Rgba) {
    p.r == q.r && p.g == q.g && p.b == q.b
  }

  function AbsDiff(x: Byte, y: Byte): nat {
    if x < y then y - x else x - y
  }

  /** Sum of the absolute red, green and blue differences; alpha plays no part. */
  function DiffRgba3(p: Rgba, q: Rgba): (d: nat)
    ensures d <= MaxDiff
    ensures d == 0 <==> SameRgb(p, q)
  {
    AbsDiff(p.r, q.r) + AbsDiff(p.g, q.g) + AbsDiff(p.b, q.b)
  }

  /** The metric is symmetric and blind to the alpha channel of either pixel. */
  lemma DiffRgba3SymmetricAlphaBlind(p: Rgba, q: Rgba, a1: Byte, a2: Byte)
    ensures DiffRgba3(p, q) == DiffRgba3(q, p)
    ensures DiffRgba3(p.(a := a1), q.(a := a2)) == DiffRgba3(p, q)
  {
  }

  function Min(x: nat, y: nat): nat {
    if x < y then x else y
  }

  /** All pairs of the zip of two pixel lists have equal RGB channels. */
  predicate ZipSameRgb(p1: seq<Rgba>, p2: seq<Rgba>) {
    forall i :: 0 <= i < |p1| && i < |p2| ==> SameRgb(p1[i], p2[i])
  }

  /**
    The accumulator of the inner loop of `fill_percents` after the first `k`
    pairs of the zip: the metric summed over them, in unbounded integers.
   */
  function AccumUpTo(p1: seq<Rgba>, p2: seq<Rgba>, k: nat): (s: nat)
    requires k <= |p1| && k <= |p2|
    ensures s <= MaxDiff * k
  {
    if k == 0 then 0 else AccumUpTo(p1, p2, k - 1) + DiffRgba3(p1[k - 1], p2[k - 1])
  }

  /** The metric accumulated over the whole zip, which stops at the end of the shorter list. */
  function Accum(p1: seq<Rgba>, p2: seq<Rgba>): (s: nat)
    ensures s <= MaxDiff * Min(|p1|, |p2|)
  {
    AccumUpTo(p1, p2, Min(|p1|, |p2|))
  }

  lemma {:induction false} AccumUpToSymmetric(p1: seq<Rgba>, p2: seq<Rgba>, k: nat)
    requires k <= |p1| && k <= |p2|
    ensures AccumUpTo(p1, p2, k) == AccumUpTo(p2, p1, k)
  {
    if k > 0 {
      AccumUpToSymmetric(p1, p2, k - 1);
      DiffRgba3SymmetricAlphaBlind(p1[k - 1], p2[k - 1], 0, 0);
    }
  }

  lemma AccumSymmetric(p1: seq<Rgba>, p2: seq<Rgba>)
    ensures Accum(p1, p2) == Accum(p2, p1)
  {
    AccumUpToSymmetric(p1, p2, Min(|p1|, |p2|));
  }

  lemma {:induction false} AccumUpToZeroIff(p1: seq<Rgba>, p2: seq<Rgba>, k: nat)
    requires k <= |p1| && k <= |p2|
    ensures AccumUpTo(p1, p2, k) == 0 <==> forall i :: 0 <= i < k ==> SameRgb(p1[i], p2[i])
  {
    if k > 0 {
      AccumUpToZeroIff(p1, p2, k - 1);
    }
  }

  /** The accumulated metric is zero exactly when every zipped pair agrees on RGB. */
  lemma AccumZeroIffSameRgb(p1: seq<Rgba>, p2: seq<Rgba>)
    ensures Accum(p1, p2) == 0 <==> ZipSameRgb(p1, p2)
  {
    AccumUpToZeroIff(p1, p2, Min(|p1|, |p2|));
  }

  /**
    The score of a pair of frames: `100 * accum / (765 * w * h)`, where `w`
    and `h` are the dimensions of the first frame. With no pixels this is
    0/0, which is NaN in `f64`. The NaN clause matches `f64` for frames as
    the decoder delivers them (`ValidFrame`, so no area means no pixels):
    a zero-area frame that still carried pixels would give a positive total
    over 0, which is +inf in `f64`, where this definition gives NaN.
   */
  function Percent(f1: Frame, f2: Frame): (s: Score)
    ensures !s.Max?
    ensures s.NaN? <==> f1.width * f1.height == 0
    ensures ValidFrame(f1) && !s.NaN? ==>
              s.Value? && 0.0 <= s.v <= 100.0
    ensures !s.NaN? ==> (s == Value(0.0) <==> ZipSameRgb(f1.pixels, f2.pixels))
  {
    var area := f1.width * f1.height;
    if area == 0 then NaN
    else
      var accum := Accum(f1.pixels, f2.pixels);
      AccumZeroIffSameRgb(f1.pixels, f2.pixels);
      ScoreBound(accum, area, Min(|f1.pixels|, |f2.pixels|));
      Value((100 * accum) as real / (MaxDiff * area) as real)
  }

  /** Normalising an accumulated metric bounded by `765 * n <= 765 * area` gives at most 100. */
  lemma ScoreBound(accum: nat, area: nat, n: nat)
    requires area > 0 && accum <= MaxDiff * n
    ensures 0.0 <= (100 * accum) as real / (MaxDiff * area) as real
    ensures n <= area ==> (100 * accum) as real / (MaxDiff * area) as real <= 100.0
  {
    var d := (MaxDiff * area) as real;
    assert d > 0.0;
    DivMonotone(0.0, (100 * accum) as real, d);
    if n <= area {
      assert MaxDiff * n <= MaxDiff * area;
      assert (100 * accum) as real <= 100.0 * d;
      DivMonotone((100 * accum) as real, 100.0 * d, d);
      assert 100.0 * d / d == 100.0;
    }
  }

  /** Dividing by a positive real keeps the order. */
  lemma DivMonotone(x: real, y: real, d: real)
    requires d > 0.0 && x <= y
    ensures x / d <= y / d
  {
  }

  /** Frames of equal size score the same whichever comes first. */
  lemma PercentSymmetric(f1: Frame, f2: Frame)
    requires f1.width == f2.width && f1.height == f2.height
    ensures Percent(f1, f2) == Percent(f2, f1)
  {
    AccumSymmetric(f1.pixels, f2.pixels);
  }
}
