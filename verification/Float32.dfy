// The real number an IEEE 754 single-precision word stands for.
//
// Infinities are given the value the finite formula would give them, 2^128 in
// size, which clamps as the infinity itself does.  A NaN stands for no number:
// what is said of values excludes it.

module Float32 {
  import opened ByteWords

  function Exp2(k: int): (x: real)
    ensures x > 0.0
    decreases if k < 0 then -k else k
  {
    if k == 0 then 1.0 else if k > 0 then 2.0 * Exp2(k - 1) else Exp2(k + 1) / 2.0
  }

  function Exponent(w: Word): nat { (w.b3 as nat % 128) * 2 + w.b2 as nat / 128 }

  function Fraction(w: Word): nat { (w.b2 as nat % 128) * 0x1_0000 + w.b1 as nat * 0x100 + w.b0 as nat }

  function Magnitude(exponent: nat, fraction: nat): real {
    if exponent == 0 then fraction as real * Exp2(-149)
    else (0x80_0000 + fraction) as real * Exp2(exponent - 150)
  }

  function FloatOf(w: Word): real {
    if w.b3 >= 0x80 then -Magnitude(Exponent(w), Fraction(w)) else Magnitude(Exponent(w), Fraction(w))
  }

  // Not a number: the largest exponent with a fraction
  predicate IsNaN(w: Word) { Exponent(w) == 255 && Fraction(w) != 0 }

  // Which words those are, byte by byte
  lemma NaNBytes(w: Word)
    ensures IsNaN(w) <==>
            (w.b3 == 0x7F || w.b3 == 0xFF) && w.b2 >= 0x80 && !(w.b2 == 0x80 && w.b1 == 0 && w.b0 == 0)
  {
    TopBits(w.b3);
    TopBits(w.b2);
  }

  lemma TopBits(b: Byte)
    ensures b as nat % 128 == 127 <==> b == 0x7F || b == 0xFF
    ensures b as nat / 128 == 1 <==> b >= 0x80
    ensures b as nat % 128 == 0 <==> b == 0 || b == 0x80
    ensures b as nat == 0 <==> b == 0
  {
  }

  // The two infinities stand for values of 2^128
  lemma InfinityIsHuge(w: Word)
    requires Exponent(w) == 255 && Fraction(w) == 0
    ensures FloatOf(w) == Exp2(128) || FloatOf(w) == -Exp2(128)
  {
    PowerMagnitude(255);
  }

  // No fraction: a power of two
  lemma PowerMagnitude(exponent: nat)
    requires exponent > 0
    ensures Magnitude(exponent, 0) == Exp2(exponent - 127)
  {
    ShiftBy23(exponent - 150);
  }

  lemma Exp2Step(k: int)
    ensures Exp2(k + 1) == 2.0 * Exp2(k)
  {
  }

  lemma ShiftBy4(k: int)
    ensures Exp2(k + 4) == 16.0 * Exp2(k)
  {
    Exp2Step(k);
    Exp2Step(k + 1);
    Exp2Step(k + 2);
    Exp2Step(k + 3);
  }

  lemma ShiftBy23(k: int)
    ensures Exp2(k + 23) == 8388608.0 * Exp2(k)
  {
    ShiftBy4(k);
    ShiftBy4(k + 4);
    ShiftBy4(k + 8);
    ShiftBy4(k + 12);
    ShiftBy4(k + 16);
    Exp2Step(k + 20);
    Exp2Step(k + 21);
    Exp2Step(k + 22);
  }

  // ---------- what a word stands for, apart from the formula ----------

  // The sign bit negates
  lemma SignNegates(w: Word)
    ensures FloatOf(w.(b3 := w.b3 ^ 0x80)) == -FloatOf(w)
  {
    FlippedSign(w.b3);
    var v := w.(b3 := w.b3 ^ 0x80);
    assert Exponent(v) == Exponent(w) && Fraction(v) == Fraction(w);
  }

  lemma FlippedSign(b: Byte)
    ensures (b ^ 0x80) as nat % 128 == b as nat % 128
    ensures b ^ 0x80 >= 0x80 <==> b < 0x80
  {
  }

  // A word without the sign is its exponent and its fraction
  lemma NumberParts(w: Word)
    requires w.b3 < 0x80
    ensures Number(w) == 0x80_0000 * Exponent(w) + Fraction(w) && Fraction(w) < 0x80_0000
    ensures Exponent(w) == Number(w) / 0x80_0000 && FloatOf(w) == Magnitude(Exponent(w), Fraction(w))
  {
    SignClear(w.b3);
    ByteRange(w.b0);
    ByteRange(w.b1);
    ByteRange(w.b2);
    PartsSum(w.b0 as nat, w.b1 as nat, w.b2 as nat, w.b3 as nat, Exponent(w), Fraction(w));
  }

  lemma SignClear(b: Byte)
    ensures b < 0x80 <==> b as nat < 128
  {
  }

  lemma ByteRange(b: Byte)
    ensures b as nat < 256
  {
  }

  lemma PartsSum(p0: nat, p1: nat, p2: nat, p3: nat, e: nat, f: nat)
    requires p0 < 256 && p1 < 256 && p2 < 256 && p3 < 128
    requires e == (p3 % 128) * 2 + p2 / 128 && f == (p2 % 128) * 0x1_0000 + p1 * 0x100 + p0
    ensures var n := p0 + 0x100 * p1 + 0x1_0000 * p2 + 0x100_0000 * p3;
            n == 0x80_0000 * e + f && f < 0x80_0000 && e == n / 0x80_0000
  {
    assert p2 == 128 * (p2 / 128) + p2 % 128 && p3 % 128 == p3;
  }

  lemma {:induction false} Exp2Grows(k: int, n: nat)
    ensures Exp2(k + n) >= Exp2(k)
    decreases n
  {
    if n > 0 {
      Exp2Grows(k, n - 1);
      Exp2Step(k + n - 1);
    }
  }

  // What one more in the fraction adds
  function Ulp(exponent: nat): (u: real)
    ensures u > 0.0
  {
    if exponent == 0 then Exp2(-149) else Exp2(exponent - 150)
  }

  lemma FractionSteps(exponent: nat, f: nat, g: nat)
    requires f <= g
    ensures Magnitude(exponent, g) - Magnitude(exponent, f) == (g - f) as real * Ulp(exponent)
  {
    Distributes(f as real, g as real, Ulp(exponent));
    Distributes((0x80_0000 + f) as real, (0x80_0000 + g) as real, Ulp(exponent));
  }

  lemma Distributes(a: real, b: real, u: real)
    ensures b * u - a * u == (b - a) * u
  {
  }

  // The fractions of an exponent end where the next exponent starts
  lemma NextExponent(exponent: nat)
    ensures Magnitude(exponent + 1, 0) == Magnitude(exponent, 0x7F_FFFF) + Ulp(exponent)
    ensures Ulp(exponent + 1) >= Ulp(exponent)
  {
    FractionSteps(exponent, 0, 0x7F_FFFF);
    if exponent > 0 { Exp2Step(exponent - 150); }
  }

  lemma PositiveProduct(a: real, u: real)
    requires a > 0.0 && u > 0.0
    ensures a * u > 0.0
  {
  }

  lemma FractionGrows(exponent: nat, f: nat, g: nat)
    requires f < g
    ensures Magnitude(exponent, f) < Magnitude(exponent, g)
  {
    FractionSteps(exponent, f, g);
    PositiveProduct((g - f) as real, Ulp(exponent));
  }

  lemma {:induction false} ExponentGrows(e: nat, f: nat, e': nat, f': nat)
    requires e < e' && f < 0x80_0000
    ensures Magnitude(e, f) < Magnitude(e', f')
    decreases e'
  {
    if f' > 0 { FractionGrows(e', 0, f'); }
    NextExponent(e' - 1);
    if e == e' - 1 {
      if f < 0x7F_FFFF { FractionGrows(e, f, 0x7F_FFFF); }
    } else {
      ExponentGrows(e, f, e' - 1, 0x7F_FFFF);
    }
  }

  // Without the sign, a larger word stands for a larger value
  lemma StrictlyIncreasing(a: Word, b: Word)
    requires a.b3 < 0x80 && b.b3 < 0x80 && !IsNaN(a) && !IsNaN(b)
    ensures Number(a) < Number(b) <==> FloatOf(a) < FloatOf(b)
  {
    NumberParts(a);
    NumberParts(b);
    SameOrder(Number(a), Exponent(a), Fraction(a), Number(b), Exponent(b), Fraction(b));
  }

  lemma SameOrder(n: nat, e: nat, f: nat, n': nat, e': nat, f': nat)
    requires n == 0x80_0000 * e + f && n' == 0x80_0000 * e' + f' && f < 0x80_0000 && f' < 0x80_0000
    ensures n < n' <==> Magnitude(e, f) < Magnitude(e', f')
  {
    if n < n' {
      LargerIsLarger(e, f, e', f');
    } else if n' < n {
      LargerIsLarger(e', f', e, f);
    } else {
      assert e == e' && f == f';
    }
  }

  lemma LargerIsLarger(e: nat, f: nat, e': nat, f': nat)
    requires f < 0x80_0000 && f' < 0x80_0000 && 0x80_0000 * e + f < 0x80_0000 * e' + f'
    ensures Magnitude(e, f) < Magnitude(e', f')
  {
    if e < e' {
      ExponentGrows(e, f, e', f');
    } else {
      FractionGrows(e, f, f');
    }
  }

  // One more in the exponent of a normal word doubles
  lemma ExponentDoubles(a: Word, b: Word)
    requires a.b3 < 0x80 && b.b3 < 0x80 && Number(a) >= 0x80_0000 && Number(b) == Number(a) + 0x80_0000 && !IsNaN(b)
    ensures FloatOf(b) == 2.0 * FloatOf(a)
  {
    NumberParts(a);
    NumberParts(b);
    SameFraction(Number(a), Exponent(a), Fraction(a), Exponent(b), Fraction(b));
    MagnitudeDoubles(Exponent(a), Fraction(a));
  }

  lemma SameFraction(n: nat, e: nat, f: nat, e': nat, f': nat)
    requires n == 0x80_0000 * e + f && n + 0x80_0000 == 0x80_0000 * e' + f' && f < 0x80_0000 && f' < 0x80_0000
    ensures e' == e + 1 && f' == f
  {
  }

  lemma MagnitudeDoubles(e: nat, f: nat)
    requires e > 0
    ensures Magnitude(e + 1, f) == 2.0 * Magnitude(e, f)
  {
    Exp2Step(e - 150);
    DoubledProduct((0x80_0000 + f) as real, Exp2(e - 150), Exp2(e - 149));
  }

  lemma DoubledProduct(a: real, u: real, v: real)
    requires v == 2.0 * u
    ensures a * v == 2.0 * (a * u)
  {
    assert a * (2.0 * u) == 2.0 * (a * u);
  }

  // Words of one exponent are equally spaced, and so is the step into the next
  lemma EquallySpaced(a: Word, b: Word, c: Word)
    requires a.b3 < 0x80 && b.b3 < 0x80 && c.b3 < 0x80 && Number(a) / 0x80_0000 == Number(b) / 0x80_0000
    requires Number(b) == Number(a) + 1 && Number(c) == Number(b) + 1
    ensures FloatOf(c) - FloatOf(b) == FloatOf(b) - FloatOf(a)
  {
    NumberParts(a);
    NumberParts(b);
    NumberParts(c);
    OneStep(Number(a), Exponent(a), Fraction(a), Exponent(b), Fraction(b));
    OneStep(Number(b), Exponent(b), Fraction(b), Exponent(c), Fraction(c));
  }

  // The next word is one step of its exponent larger
  lemma OneStep(n: nat, e: nat, f: nat, e': nat, f': nat)
    requires n == 0x80_0000 * e + f && n + 1 == 0x80_0000 * e' + f' && f < 0x80_0000 && f' < 0x80_0000
    ensures Magnitude(e', f') - Magnitude(e, f) == Ulp(e)
  {
    if f == 0x7F_FFFF {
      assert e' == e + 1 && f' == 0;
      NextExponent(e);
    } else {
      assert e' == e && f' == f + 1;
      FractionSteps(e, f, f + 1);
    }
  }

  // 0x3F800000
  lemma OneIsOne()
    ensures FloatOf(Word(0, 0, 0x80, 0x3F)) == 1.0
  {
    var one := Word(0, 0, 0x80, 0x3F);
    assert Exponent(one) == 127 && Fraction(one) == 0;
    PowerMagnitude(127);
  }

  // The two constants the firmware stores: 0 and 2.0f
  lemma Constants()
    ensures FloatOf(Word(0, 0, 0, 0)) == 0.0
    ensures FloatOf(Word(0, 0, 0, 0x40)) == 2.0
  {
    var two := Word(0, 0, 0, 0x40);
    assert Exponent(two) == 128 && Fraction(two) == 0;
    PowerMagnitude(128);
    var zero := Word(0, 0, 0, 0);
    assert Exponent(zero) == 0 && Fraction(zero) == 0;
  }
}
