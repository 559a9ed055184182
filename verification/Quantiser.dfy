// float_to_uint and uint16_to_float over the reals.

module Quantiser {
  import opened Bits

  function Levels(bits: nat): (n: nat)
    requires bits >= 1
    ensures n >= 1
  {
    Pow2(bits) - 1
  }

  function Clamp(x: real, lo: real, hi: real): real {
    if x > hi then hi else if x < lo then lo else x
  }

  // [lo, hi] to [0, n], and back
  function Scale(x: real, lo: real, hi: real, n: real): real
    requires lo < hi
  {
    (x - lo) * n / (hi - lo)
  }

  function Unscale(u: real, lo: real, hi: real, n: real): real
    requires n > 0.0
  {
    (hi - lo) * u / n + lo
  }

  // The cast to int truncates a non-negative value
  function FloatToUint(x: real, lo: real, hi: real, bits: nat): int
    requires lo < hi && bits >= 1
  {
    Scale(Clamp(x, lo, hi), lo, hi, Levels(bits) as real).Floor
  }

  function UintToFloat(u: int, lo: real, hi: real, bits: nat): real
    requires bits >= 1
  {
    Unscale(u as real, lo, hi, Levels(bits) as real)
  }

  // One quantisation step
  function StepSize(lo: real, hi: real, bits: nat): real
    requires bits >= 1
  {
    (hi - lo) / Levels(bits) as real
  }

  // ---------- real arithmetic ----------

  lemma MulMono(a: real, b: real, c: real)
    requires a <= b && c >= 0.0
    ensures a * c <= b * c
  {
  }

  lemma DivMono(a: real, b: real, c: real)
    requires a <= b && c > 0.0
    ensures a / c <= b / c
  {
  }

  lemma Cancel(a: real, c: real)
    requires c != 0.0
    ensures (a / c) * c == a && (a * c) / c == a
  {
  }

  lemma FloorMono(a: real, b: real)
    requires a <= b
    ensures a.Floor <= b.Floor
  {
  }

  lemma ScaleMono(x: real, y: real, lo: real, hi: real, n: real)
    requires lo < hi && x <= y && n >= 0.0
    ensures Scale(x, lo, hi, n) <= Scale(y, lo, hi, n)
  {
    MulMono(x - lo, y - lo, n);
    DivMono((x - lo) * n, (y - lo) * n, hi - lo);
  }

  lemma ScaleEnds(lo: real, hi: real, n: real)
    requires lo < hi
    ensures Scale(lo, lo, hi, n) == 0.0 && Scale(hi, lo, hi, n) == n
  {
    Cancel(n, hi - lo);
    assert (hi - lo) * n == n * (hi - lo);
  }

  lemma ScaleOfUnscale(u: real, lo: real, hi: real, n: real)
    requires lo < hi && n > 0.0
    ensures Scale(Unscale(u, lo, hi, n), lo, hi, n) == u
  {
    Cancel((hi - lo) * u, n);
    Cancel(u, hi - lo);
    assert (hi - lo) * u == u * (hi - lo);
  }

  lemma UnscaleOfScale(x: real, lo: real, hi: real, n: real)
    requires lo < hi && n > 0.0
    ensures Unscale(Scale(x, lo, hi, n), lo, hi, n) == x
  {
    Cancel((x - lo) * n, hi - lo);
    Cancel(x - lo, n);
    assert (hi - lo) * Scale(x, lo, hi, n) == Scale(x, lo, hi, n) * (hi - lo);
  }

  lemma UnscaleMono(a: real, b: real, lo: real, hi: real, n: real)
    requires lo < hi && n > 0.0 && a <= b
    ensures Unscale(a, lo, hi, n) <= Unscale(b, lo, hi, n)
  {
    MulMono(a, b, hi - lo);
    DivMono((hi - lo) * a, (hi - lo) * b, n);
  }

  lemma UnscaleEnds(lo: real, hi: real, n: real)
    requires lo < hi && n > 0.0
    ensures Unscale(0.0, lo, hi, n) == lo && Unscale(n, lo, hi, n) == hi
  {
    Cancel(hi - lo, n);
  }

  // Less than one level apart is less than one step apart
  lemma UnscaleStep(u: real, s: real, lo: real, hi: real, n: real)
    requires lo < hi && n > 0.0 && s < u + 1.0
    ensures Unscale(s, lo, hi, n) - (hi - lo) / n < Unscale(u, lo, hi, n)
  {
    var span := hi - lo;
    var d := u + 1.0 - s;
    Positive(span, d, n);
    assert span * d == span * u + span - span * s;
    DivSum(span * u, span, span * s, n);
  }

  lemma Positive(a: real, b: real, c: real)
    requires a > 0.0 && b > 0.0 && c > 0.0
    ensures a * b / c > 0.0
  {
  }

  lemma DivSum(a: real, b: real, c: real, n: real)
    requires n > 0.0
    ensures (a + b - c) / n == a / n + b / n - c / n
  {
  }

  // ---------- what the pair of conversions promises ----------

  lemma ResultInRange(x: real, lo: real, hi: real, bits: nat)
    requires lo < hi && bits >= 1
    ensures 0 <= FloatToUint(x, lo, hi, bits) < Pow2(bits)
  {
    var n := Levels(bits) as real;
    ScaleMono(lo, Clamp(x, lo, hi), lo, hi, n);
    ScaleMono(Clamp(x, lo, hi), hi, lo, hi, n);
    ScaleEnds(lo, hi, n);
    FloorMono(Scale(Clamp(x, lo, hi), lo, hi, n), n);
    assert n.Floor == Levels(bits);
  }

  lemma Monotone(x: real, y: real, lo: real, hi: real, bits: nat)
    requires lo < hi && bits >= 1 && x <= y
    ensures FloatToUint(x, lo, hi, bits) <= FloatToUint(y, lo, hi, bits)
  {
    var n := Levels(bits) as real;
    ScaleMono(Clamp(x, lo, hi), Clamp(y, lo, hi), lo, hi, n);
    FloorMono(Scale(Clamp(x, lo, hi), lo, hi, n), Scale(Clamp(y, lo, hi), lo, hi, n));
  }

  // The level in numbers, for the 16 bits the frames use: 0 at and below the
  // lower limit, 65535 at and above the upper, and in between the last of 65535
  // equal parts that x has reached.
  lemma LevelInNumbers(x: real, lo: real, hi: real)
    requires lo < hi
    ensures var u := FloatToUint(x, lo, hi, 16);
            && (x <= lo ==> u == 0) && (x >= hi ==> u == 65535)
            && (lo <= x <= hi ==> 0.0 <= (x - lo) * 65535.0 - u as real * (hi - lo) < hi - lo)
  {
    SixteenBits();
    ScaleEnds(lo, hi, 65535.0);
    assert 65535.0.Floor == 65535 && 0.0.Floor == 0;
    if lo <= x <= hi {
      var s := Scale(x, lo, hi, 65535.0);
      Quotient((x - lo) * 65535.0, hi - lo, s);
      PartReached((x - lo) * 65535.0, hi - lo, s, s.Floor as real);
    }
  }

  lemma LowestLevel(lo: real, hi: real)
    requires lo < hi
    ensures FloatToUint(lo, lo, hi, 16) == 0
  {
    LevelInNumbers(lo, lo, hi);
  }

  // Zero in a symmetric range is the level below the middle of the scale
  lemma MiddleLevel(h: real)
    requires h > 0.0
    ensures FloatToUint(0.0, -h, h, 16) == 32767
  {
    SixteenBits();
    HalfOfDouble(h, 65535.0, h + h);
    assert 32767.5.Floor == 32767;
  }

  lemma HalfOfDouble(h: real, n: real, w: real)
    requires h > 0.0 && w == h + h
    ensures h * n / w == n / 2.0
  {
    Cancel(n / 2.0, w);
    assert h * n == (n / 2.0) * w;
  }

  lemma SixteenBits()
    ensures Levels(16) == 65535
  {
    Pow2Sum(8, 8);
    assert Pow2(8) == 0x100;
  }

  // What is left above u parts is less than one
  lemma PartReached(a: real, b: real, q: real, u: real)
    requires b > 0.0 && q * b == a && u <= q < u + 1.0
    ensures 0.0 <= a - u * b < b
  {
    var d := q - u;
    Difference(q, u, b);
    MulMono(0.0, d, b);
    BelowOne(d, b);
    assert d * b == (q - u) * b;
    assert d * b == a - u * b;
  }

  lemma Quotient(a: real, b: real, q: real)
    requires b != 0.0 && q == a / b
    ensures q * b == a
  {
  }

  lemma Difference(q: real, u: real, b: real)
    ensures (q - u) * b == q * b - u * b
  {
  }

  lemma BelowOne(d: real, b: real)
    requires d < 1.0 && b > 0.0
    ensures d * b < b
  {
  }

  // The value of a level, and the step between two
  lemma ValueInNumbers(u: int, lo: real, hi: real)
    requires lo < hi
    ensures (UintToFloat(u, lo, hi, 16) - lo) * 65535.0 == u as real * (hi - lo)
    ensures StepSize(lo, hi, 16) * 65535.0 == hi - lo
  {
    SixteenBits();
    Cancel((hi - lo) * u as real, 65535.0);
    Cancel(hi - lo, 65535.0);
  }

  // A level sent to a motor and read back is the same level
  lemma LevelRoundTrip(u: int, lo: real, hi: real, bits: nat)
    requires lo < hi && bits >= 1 && 0 <= u < Pow2(bits)
    ensures lo <= UintToFloat(u, lo, hi, bits) <= hi
    ensures FloatToUint(UintToFloat(u, lo, hi, bits), lo, hi, bits) == u
  {
    var n := Levels(bits) as real;
    UnscaleMono(0.0, u as real, lo, hi, n);
    UnscaleMono(u as real, n, lo, hi, n);
    UnscaleEnds(lo, hi, n);
    ScaleOfUnscale(u as real, lo, hi, n);
  }

  // A value sent and read back is at most the clamped value and less than one
  // step below it
  lemma ValueRoundTrip(x: real, lo: real, hi: real, bits: nat)
    requires lo < hi && bits >= 1
    ensures var y := UintToFloat(FloatToUint(x, lo, hi, bits), lo, hi, bits);
            Clamp(x, lo, hi) - StepSize(lo, hi, bits) < y <= Clamp(x, lo, hi)
  {
    var n, c := Levels(bits) as real, Clamp(x, lo, hi);
    var s := Scale(c, lo, hi, n);
    UnscaleOfScale(c, lo, hi, n);
    UnscaleMono(s.Floor as real, s, lo, hi, n);
    UnscaleStep(s.Floor as real, s, lo, hi, n);
  }
}
