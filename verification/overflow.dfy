/**
  The width of the accumulator in `fill_percents`.

  `accum` starts at the literal `0` and only ever has `diff_rgba3` results
  (`i32`) added to it, so it is an `i32`. Its largest possible value is
  `765 * pixels`, which leaves the `i32` range once a frame has more than
  2,807,168 pixels: a 2560 x 1440 frame already does. Release builds then
  wrap around (debug builds panic). This module models the accumulator as
  written, exhibits a pair of frames whose score wraps to a negative value,
  and shows that below the limit the as-written score is the unbounded one
  the rest of the model uses (`Pixels.Percent`).
 */
module Overflow {
  import opened Scores
  import opened Pixels

  const I32Modulus: int := 0x1_0000_0000
  const I32Min: int := -0x8000_0000
  const I32Max: int := 0x7fff_ffff

  /** Two's-complement wrap-around of an integer into the `i32` range. */
  function WrapI32(x: int): (r: int)
    ensures I32Min <= r <= I32Max
    ensures I32Min <= x <= I32Max ==> r == x
  {
    (x - I32Min) % I32Modulus + I32Min
  }

  /** Adding a multiple of 2^32 does not change the wrapped value. */
  lemma {:induction false} WrapI32Periodic(x: int, q: int)
    ensures WrapI32(x + q * I32Modulus) == WrapI32(x)
    decreases if q < 0 then -q else q
  {
    if q > 0 {
      WrapI32Periodic(x, q - 1);
      assert x + q * I32Modulus == (x + (q - 1) * I32Modulus) + I32Modulus;
      ModShiftByModulus(x + (q - 1) * I32Modulus - I32Min);
    } else if q < 0 {
      WrapI32Periodic(x, q + 1);
      assert x + (q + 1) * I32Modulus == (x + q * I32Modulus) + I32Modulus;
      ModShiftByModulus(x + q * I32Modulus - I32Min);
    }
  }

  lemma ModShiftByModulus(y: int)
    ensures (y + I32Modulus) % I32Modulus == y % I32Modulus
  {
  }

  /** Wrapping an intermediate sum and wrapping only at the end agree. */
  lemma WrapI32Add(a: int, d: int)
    ensures WrapI32(WrapI32(a) + d) == WrapI32(a + d)
  {
    var q := (a - I32Min) / I32Modulus;
    assert WrapI32(a) == a - q * I32Modulus;
    WrapI32Periodic(a + d, -q);
    assert WrapI32(a) + d == (a + d) + (-q) * I32Modulus;
  }

  /**
    The accumulator as written: after each pair of the zip the `i32`
    addition wraps around (the behaviour of a release build).
   */
  function AccumUpToAsWritten(p1: seq<Rgba>, p2: seq<Rgba>, k: nat): (s: int)
    requires k <= |p1| && k <= |p2|
    ensures I32Min <= s <= I32Max
  {
    if k == 0 then 0 else WrapI32(AccumUpToAsWritten(p1, p2, k - 1) + DiffRgba3(p1[k - 1], p2[k - 1]))
  }

  /** The wrapped running sum is the wrap of the true running sum. */
  lemma {:induction false} AccumAsWrittenIsWrapped(p1: seq<Rgba>, p2: seq<Rgba>, k: nat)
    requires k <= |p1| && k <= |p2|
    ensures AccumUpToAsWritten(p1, p2, k) == WrapI32(AccumUpTo(p1, p2, k))
  {
    if k > 0 {
      AccumAsWrittenIsWrapped(p1, p2, k - 1);
      WrapI32Add(AccumUpTo(p1, p2, k - 1), DiffRgba3(p1[k - 1], p2[k - 1]));
    }
  }

  /** The score of a pair of frames with the accumulator as written. */
  function PercentAsWritten(f1: Frame, f2: Frame): (s: Score)
    ensures s.NaN? <==> f1.width * f1.height == 0
    ensures 765 * Min(|f1.pixels|, |f2.pixels|) <= I32Max ==> s == Percent(f1, f2)
  {
    var area := f1.width * f1.height;
    if area == 0 then NaN
    else
      var n := Min(|f1.pixels|, |f2.pixels|);
      AccumAsWrittenIsWrapped(f1.pixels, f2.pixels, n);
      var accum := AccumUpToAsWritten(f1.pixels, f2.pixels, n);
      Value((100 * accum) as real / (MaxDiff * area) as real)
  }

  /** Between two uniform pixel lists the accumulated metric grows by the same amount at every pair. */
  lemma {:induction false} UniformAccum(p: Rgba, q: Rgba, n: nat, k: nat)
    requires k <= n
    ensures AccumUpTo(seq(n, _ => p), seq(n, _ => q), k) == k * DiffRgba3(p, q)
  {
    if k > 0 {
      var d := DiffRgba3(p, q);
      UniformAccum(p, q, n, k - 1);
      assert seq(n, _ => p)[k - 1] == p && seq(n, _ => q)[k - 1] == q;
      assert (k - 1) * d + d == k * d;
    }
  }

  /** A uniform frame of the given size. */
  function Solid(width: nat, height: nat, colour: Rgba): (f: Frame)
    ensures ValidFrame(f)
    ensures forall i :: 0 <= i < |f.pixels| ==> f.pixels[i] == colour
  {
    Frame(width, height, seq(width * height, _ => colour))
  }

  /** 765 * 3,686,400 = 2,820,096,000 exceeds `i32::MAX` and wraps to -1,474,871,296. */
  lemma QhdSumWraps()
    ensures WrapI32(765 * 3686400) == -1474871296
  {
    assert 765 * 3686400 == 2820096000;
    assert (2820096000 - I32Min) % I32Modulus == 672612352;
  }

  /** Over two uniform frames of `n` pixels each, the true and the as-written accumulators. */
  lemma UniformFrames(p: Rgba, q: Rgba, w: nat, h: nat)
    ensures Accum(Solid(w, h, p).pixels, Solid(w, h, q).pixels) == w * h * DiffRgba3(p, q)
    ensures AccumUpToAsWritten(Solid(w, h, p).pixels, Solid(w, h, q).pixels, w * h)
            == WrapI32(w * h * DiffRgba3(p, q))
  {
    var n := w * h;
    UniformAccum(p, q, n, n);
    AccumAsWrittenIsWrapped(seq(n, _ => p), seq(n, _ => q), n);
  }

  /**
    A black and a white 2560 x 1440 frame: the true score is 100, the
    highest possible, but the wrapped accumulator is negative, so the pair
    scores about -52.3 and looks more alike than two identical frames.
   */
  lemma QhdBlackWhiteWraps()
    ensures Percent(Solid(2560, 1440, Rgba(0, 0, 0, 255)), Solid(2560, 1440, Rgba(255, 255, 255, 255)))
            == Value(100.0)
    ensures PercentAsWritten(Solid(2560, 1440, Rgba(0, 0, 0, 255)), Solid(2560, 1440, Rgba(255, 255, 255, 255)))
            == Value((100 * -1474871296) as real / (765 * 3686400) as real)
    ensures (100 * -1474871296) as real / (765 * 3686400) as real < 0.0
  {
    var black := Rgba(0, 0, 0, 255);
    var white := Rgba(255, 255, 255, 255);
    assert DiffRgba3(black, white) == 765;
    assert 2560 * 1440 == 3686400;
    UniformFrames(black, white, 2560, 1440);
    QhdSumWraps();
  }
}
