/**
 * The coordinate mapper of sortimages.py: the linear min-max remap of a colour pair onto
 * the canvas (`normal_offset`) and the snap of a coordinate to the step grid (`stepxy`).
 * Python's floating-point division is modelled by exact `real` division.
 */
module CoordinateMapper {

  /** The default margin of `normal_offset`. */
  const DefaultPadding: int := 16

  /** The `remap` lambda: carries `v` linearly from [oldMin, oldMax] to [newMin, newMax]. */
  function Remap(v: real, oldMin: real, oldMax: real, newMin: real, newMax: real): real
    requires oldMax != oldMin
  {
    (v - oldMin) * (newMax - newMin) / (oldMax - oldMin) + newMin
  }

  /** The remap carries the ends of the old range to the ends of the new range. */
  lemma RemapEnds(oldMin: real, oldMax: real, newMin: real, newMax: real)
    requires oldMax != oldMin
    ensures Remap(oldMin, oldMin, oldMax, newMin, newMax) == newMin
    ensures Remap(oldMax, oldMin, oldMax, newMin, newMax) == newMax
  {
    var d := oldMax - oldMin;
    assert d * (newMax - newMin) / d == newMax - newMin;
  }

  /** Remapping back from the new range to the old one recovers the value. */
  lemma RemapInverse(v: real, oldMin: real, oldMax: real, newMin: real, newMax: real)
    requires oldMax != oldMin && newMax != newMin
    ensures Remap(Remap(v, oldMin, oldMax, newMin, newMax), newMin, newMax, oldMin, oldMax) == v
  {
    var a, b := oldMax - oldMin, newMax - newMin;
    var w := Remap(v, oldMin, oldMax, newMin, newMax);
    assert w - newMin == (v - oldMin) * b / a;
    assert (w - newMin) * a / b == v - oldMin;
  }

  /** With increasing ranges on both sides, the remap is strictly increasing. */
  lemma RemapStrictlyIncreasing(v: real, w: real, oldMin: real, oldMax: real, newMin: real, newMax: real)
    requires oldMin < oldMax && newMin < newMax && v < w
    ensures Remap(v, oldMin, oldMax, newMin, newMax) < Remap(w, oldMin, oldMax, newMin, newMax)
  {
    var a, b := oldMax - oldMin, newMax - newMin;
    assert (v - oldMin) * b < (w - oldMin) * b;
  }

  /** A value of the old range lands in the new range. */
  lemma RemapInRange(v: real, oldMin: real, oldMax: real, newMin: real, newMax: real)
    requires oldMin < oldMax && newMin <= newMax && oldMin <= v <= oldMax
    ensures newMin <= Remap(v, oldMin, oldMax, newMin, newMax) <= newMax
  {
    var a, b := oldMax - oldMin, newMax - newMin;
    assert 0.0 <= (v - oldMin) * b <= a * b;
    assert (v - oldMin) * b / a <= a * b / a;
  }

  /**
   * `normal_offset`: each channel of the pair is remapped independently from [0, 255]
   * to [padding, imageSize - 2 * padding].
   */
  function NormalOffset(imageSize: int, xy: (int, int), padding: int): (real, real)
  {
    var newMin := (0 + padding) as real;
    var newMax := (imageSize - padding * 2) as real;
    (Remap(xy.0 as real, 0.0, 255.0, newMin, newMax), Remap(xy.1 as real, 0.0, 255.0, newMin, newMax))
  }

  /** Channel 0 lands on `padding` and channel 255 on `imageSize - 2 * padding`, on either axis. */
  lemma NormalOffsetEnds(imageSize: int, padding: int, other: int)
    ensures NormalOffset(imageSize, (0, other), padding).0 == padding as real
    ensures NormalOffset(imageSize, (255, other), padding).0 == (imageSize - 2 * padding) as real
    ensures NormalOffset(imageSize, (other, 0), padding).1 == padding as real
    ensures NormalOffset(imageSize, (other, 255), padding).1 == (imageSize - 2 * padding) as real
  {
    RemapEnds(0.0, 255.0, padding as real, (imageSize - padding * 2) as real);
  }

  /** The x coordinate depends only on the first channel and y only on the second. */
  lemma NormalOffsetSeparable(imageSize: int, padding: int, a: int, b: int, a': int, b': int)
    ensures NormalOffset(imageSize, (a, b), padding).0 == NormalOffset(imageSize, (a, b'), padding).0
    ensures NormalOffset(imageSize, (a, b), padding).1 == NormalOffset(imageSize, (a', b), padding).1
  {
  }

  /**
   * When the canvas is wider than three paddings (the target range then has width
   * imageSize - 3 * padding > 0), each coordinate strictly increases with its channel.
   */
  lemma NormalOffsetStrictlyIncreasing(imageSize: int, padding: int, a: int, b: int, a': int, b': int)
    requires imageSize > 3 * padding
    ensures a < a' ==> NormalOffset(imageSize, (a, b), padding).0 < NormalOffset(imageSize, (a', b), padding).0
    ensures b < b' ==> NormalOffset(imageSize, (a, b), padding).1 < NormalOffset(imageSize, (a, b'), padding).1
  {
    var newMin, newMax := padding as real, (imageSize - padding * 2) as real;
    if a < a' {
      RemapStrictlyIncreasing(a as real, a' as real, 0.0, 255.0, newMin, newMax);
    }
    if b < b' {
      RemapStrictlyIncreasing(b as real, b' as real, 0.0, 255.0, newMin, newMax);
    }
  }

  /** Channels in [0, 255] land in [padding, imageSize - 2 * padding] on both axes. */
  lemma NormalOffsetInRange(imageSize: int, padding: int, a: int, b: int)
    requires imageSize >= 3 * padding
    requires 0 <= a <= 255 && 0 <= b <= 255
    ensures padding as real <= NormalOffset(imageSize, (a, b), padding).0 <= (imageSize - 2 * padding) as real
    ensures padding as real <= NormalOffset(imageSize, (a, b), padding).1 <= (imageSize - 2 * padding) as real
  {
    var newMin, newMax := padding as real, (imageSize - padding * 2) as real;
    RemapInRange(a as real, 0.0, 255.0, newMin, newMax);
    RemapInRange(b as real, 0.0, 255.0, newMin, newMax);
  }

  /** The channel can be read back from its coordinate when the target range is not empty. */
  lemma NormalOffsetInvertible(imageSize: int, padding: int, a: int, b: int)
    requires imageSize != 3 * padding
    ensures Remap(NormalOffset(imageSize, (a, b), padding).0, padding as real, (imageSize - 2 * padding) as real, 0.0, 255.0) == a as real
    ensures Remap(NormalOffset(imageSize, (a, b), padding).1, padding as real, (imageSize - 2 * padding) as real, 0.0, 255.0) == b as real
  {
    var newMin, newMax := padding as real, (imageSize - padding * 2) as real;
    RemapInverse(a as real, 0.0, 255.0, newMin, newMax);
    RemapInverse(b as real, 0.0, 255.0, newMin, newMax);
  }

  // ---------------------------------------------------------------------------
  // Python's round() and the grid snap

  function Abs(x: real): real { if x < 0.0 then -x else x }

  /** Python 3's `round(x)`: the nearest integer, ties going to the even neighbour. */
  function RoundHalfEven(x: real): int
  {
    var f := x.Floor;
    var frac := x - f as real;
    if frac < 0.5 then f
    else if frac > 0.5 then f + 1
    else if f % 2 == 0 then f
    else f + 1
  }

  lemma FloorBounds(x: real)
    ensures x.Floor as real <= x < x.Floor as real + 1.0
  {
  }

  /** `round` picks an integer at distance at most 1/2, and no integer is nearer. */
  lemma RoundIsNearest(x: real, k: int)
    ensures Abs(x - RoundHalfEven(x) as real) <= 0.5
    ensures Abs(x - RoundHalfEven(x) as real) <= Abs(x - k as real)
  {
    var f := x.Floor;
    FloorBounds(x);
    var n := RoundHalfEven(x);
    assert n == f || n == f + 1;
    if k <= f {
      assert k as real <= f as real;
    } else {
      assert k as real >= f as real + 1.0;
    }
  }

  /** On a tie `round` returns the even neighbour. */
  lemma RoundTiesToEven(x: real)
    requires Abs(x - RoundHalfEven(x) as real) == 0.5
    ensures RoundHalfEven(x) % 2 == 0
  {
    FloorBounds(x);
  }

  /** `round` leaves an integer unchanged. */
  lemma RoundOfInteger(k: int)
    ensures RoundHalfEven(k as real) == k
  {
  }

  /**
   * The `stepxy` lambda on one axis: `int(step * round(a / step))`. A zero step, the
   * default of `make_image`, divides by zero and is excluded.
   */
  function Snap(a: real, step: int): int
    requires step != 0
  {
    step * RoundHalfEven(a / step as real)
  }

  function AbsInt(n: int): nat { if n < 0 then -n else n }

  lemma SmallMultipleIsZero(d: int, k: int)
    requires d > 0 && 0 <= d * k < d
    ensures k == 0
  {
  }

  lemma MultipleMod(d: int, m: int)
    requires d > 0
    ensures (d * m) % d == 0
  {
    var q, r := (d * m) / d, (d * m) % d;
    assert d * m == d * q + r && 0 <= r < d;
    assert d * (m - q) == r;
    SmallMultipleIsZero(d, m - q);
  }

  /** The snapped coordinate is a multiple of the step. */
  lemma SnapIsMultiple(a: real, step: int)
    requires step != 0
    ensures Snap(a, step) % AbsInt(step) == 0
  {
    var n := RoundHalfEven(a / step as real);
    if step > 0 {
      MultipleMod(step, n);
    } else {
      assert step * n == AbsInt(step) * -n;
      MultipleMod(AbsInt(step), -n);
    }
  }

  lemma AbsMul(s: real, t: real)
    ensures Abs(s * t) == Abs(s) * Abs(t)
  {
    if s < 0.0 && t < 0.0 {
      assert s * t == (-s) * (-t);
    } else if s < 0.0 {
      assert -(s * t) == (-s) * t;
    } else if t < 0.0 {
      assert -(s * t) == s * (-t);
    }
  }

  lemma MulMonotone(c: real, u: real, v: real)
    requires c >= 0.0 && u <= v
    ensures c * u <= c * v
  {
    assert c * v - c * u == c * (v - u);
  }

  lemma CastMul(x: int, y: int)
    ensures (x * y) as real == x as real * y as real
  {
  }

  /** The distance between `t * k` and `t * q` is |t| times the distance between `q` and `k`. */
  lemma ScaledDistance(t: real, q: real, k: real)
    ensures Abs(t * k - t * q) == Abs(t) * Abs(q - k)
  {
    assert t * k - t * q == t * (k - q);
    AbsMul(t, k - q);
  }

  /** Scaling by `t` keeps the order of distances to a point. */
  lemma ScaledNearer(t: real, q: real, k: real, m: real)
    requires Abs(q - k) <= Abs(q - m)
    ensures Abs(t * k - t * q) <= Abs(t * m - t * q)
  {
    calc {
      Abs(t * k - t * q);
    == { ScaledDistance(t, q, k); }
      Abs(t) * Abs(q - k);
    <= { MulMonotone(Abs(t), Abs(q - k), Abs(q - m)); }
      Abs(t) * Abs(q - m);
    == { ScaledDistance(t, q, m); }
      Abs(t * m - t * q);
    }
  }

  /** Of two multiples of `s`, the one whose factor is nearer to `a / s` is nearer to `a`. */
  lemma MultiplesCompare(a: real, s: real, k: real, m: real)
    requires s != 0.0
    requires Abs(a / s - k) <= Abs(a / s - m)
    ensures Abs(s * k - a) <= Abs(s * m - a)
  {
    var q := a / s;
    assert s * k - a == s * k - s * q && s * m - a == s * m - s * q;
    ScaledNearer(s, q, k, m);
  }

  /** A multiple of `s` whose factor is within 1/2 of `a / s` is within |s| / 2 of `a`. */
  lemma MultipleWithinHalfStep(a: real, s: real, k: real)
    requires s != 0.0
    requires Abs(a / s - k) <= 0.5
    ensures Abs(s * k - a) <= Abs(s) / 2.0
  {
    var q := a / s;
    assert s * q == a;
    assert s * k - a == s * k - s * q;
    ScaledDistance(s, q, k);
    MulMonotone(Abs(s), Abs(q - k), 0.5);
    assert Abs(s * k - s * q) == Abs(s) * Abs(q - k);
    assert Abs(s) * Abs(q - k) <= Abs(s) * 0.5;
    assert Abs(s) * 0.5 == Abs(s) / 2.0;
  }

  /** The integer form of `MultiplesCompare`, for multiples `step * k` of an integer step. */
  lemma IntMultiplesCompare(a: real, step: int, k: int, m: int)
    requires step != 0
    requires Abs(a / step as real - k as real) <= Abs(a / step as real - m as real)
    ensures Abs((step * k) as real - a) <= Abs((step * m) as real - a)
  {
    CastMul(step, k);
    CastMul(step, m);
    MultiplesCompare(a, step as real, k as real, m as real);
  }

  /** The integer form of `MultipleWithinHalfStep`. */
  lemma IntMultipleWithinHalfStep(a: real, step: int, k: int)
    requires step != 0
    requires Abs(a / step as real - k as real) <= 0.5
    ensures Abs((step * k) as real - a) <= AbsInt(step) as real / 2.0
  {
    CastMul(step, k);
    MultipleWithinHalfStep(a, step as real, k as real);
  }

  /** The snapped coordinate is within half a step of the input. */
  lemma SnapWithinHalfStep(a: real, step: int)
    requires step != 0
    ensures Abs(Snap(a, step) as real - a) <= AbsInt(step) as real / 2.0
  {
    var q := a / step as real;
    RoundIsNearest(q, 0);
    IntMultipleWithinHalfStep(a, step, RoundHalfEven(q));
  }

  /** No multiple of the step is nearer to the input than the snapped coordinate. */
  lemma SnapIsNearest(a: real, step: int, m: int)
    requires step != 0
    ensures Abs(Snap(a, step) as real - a) <= Abs((step * m) as real - a)
  {
    var q := a / step as real;
    RoundIsNearest(q, m);
    IntMultiplesCompare(a, step, RoundHalfEven(q), m);
  }

  /** Snapping an already snapped coordinate with the same step returns it unchanged. */
  lemma SnapIdempotent(a: real, step: int)
    requires step != 0
    ensures Snap(Snap(a, step) as real, step) == Snap(a, step)
  {
    var n := RoundHalfEven(a / step as real);
    var s := step as real;
    assert (step * n) as real == s * n as real;
    assert (step * n) as real / s == n as real;
    RoundOfInteger(n);
  }
}
