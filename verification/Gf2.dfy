// Polynomials over GF(2) as bit strings, highest power first, and division by
// the generator of section 3.2.9 of IEEE 802.3.

module Gf2 {
  type Bits = seq<bool>

  // G(x) = x^32 + x^26 + x^23 + x^22 + x^16 + x^12 + x^11 + x^10 + x^8 + x^7
  //        + x^5 + x^4 + x^2 + x + 1, without its leading term
  predicate HasTerm(power: int) {
    || power == 26 || power == 23 || power == 22 || power == 16 || power == 12 || power == 11 || power == 10
    || power == 8 || power == 7 || power == 5 || power == 4 || power == 2 || power == 1 || power == 0
  }

  // The coefficients of the powers below k
  function Terms(k: nat): (g: Bits)
    ensures |g| == k
  {
    seq(k, j => HasTerm(k - 1 - j))
  }

  function Generator(): (g: Bits)
    ensures |g| == 32 && g[31]
  {
    assert Terms(32)[31] == HasTerm(0);
    Terms(32)
  }

  function Ones(n: nat): (o: Bits)
    ensures |o| == n
  {
    seq(n, _ => true)
  }

  function Zeros(n: nat): (z: Bits)
    ensures |z| == n
  {
    seq(n, _ => false)
  }

  function Xor(a: Bits, b: Bits): (c: Bits)
    requires |a| == |b|
    ensures |c| == |a|
    ensures forall i | 0 <= i < |c| :: c[i] == (a[i] != b[i])
  {
    seq(|a|, i requires 0 <= i < |a| => a[i] != b[i])
  }

  // ---------- words as coefficient strings ----------

  // The n lowest bits of a word, lowest first, for a word type given by its low
  // bit and its halving
  function Spell<T>(odd: T -> bool, half: T -> T, c: T, n: nat): (bits: Bits)
    ensures |bits| == n
  {
    if n == 0 then [] else [odd(c)] + Spell(odd, half, half(c), n - 1)
  }

  function Halved<T>(half: T -> T, c: T, n: nat): T {
    if n == 0 then c else Halved(half, half(c), n - 1)
  }

  lemma {:induction false} HalvedTwice<T>(half: T -> T, c: T, m: nat, n: nat)
    ensures Halved(half, c, m + n) == Halved(half, Halved(half, c, m), n)
    decreases m
  {
    if m > 0 { HalvedTwice(half, half(c), m - 1, n); }
  }

  lemma HalvedFour<T(!new)>(half: T -> T, byte: T -> T, c: T)
    requires forall x :: Halved(half, x, 8) == byte(x)
    ensures Halved(half, c, 32) == byte(byte(byte(byte(c))))
  {
    HalvedTwice(half, c, 8, 24);
    HalvedTwice(half, byte(c), 8, 16);
    HalvedTwice(half, byte(byte(c)), 8, 8);
  }

  lemma {:induction false} SpellSplit<T>(odd: T -> bool, half: T -> T, c: T, m: nat, n: nat)
    ensures Spell(odd, half, c, m + n) == Spell(odd, half, c, m) + Spell(odd, half, Halved(half, c, m), n)
    decreases m
  {
    if m > 0 { SpellSplit(odd, half, half(c), m - 1, n); }
  }

  ghost predicate HalfAdditive<T(!new)>(half: T -> T, plus: (T, T) -> T) {
    forall a, b :: half(plus(a, b)) == plus(half(a), half(b))
  }

  ghost predicate OddAdditive<T(!new)>(odd: T -> bool, plus: (T, T) -> T) {
    forall a, b :: odd(plus(a, b)) <==> (odd(a) != odd(b))
  }

  lemma {:induction false} SpellXor<T(!new)>(odd: T -> bool, half: T -> T, plus: (T, T) -> T, a: T, b: T, n: nat)
    requires HalfAdditive(half, plus) && OddAdditive(odd, plus)
    ensures Spell(odd, half, plus(a, b), n) == Xor(Spell(odd, half, a, n), Spell(odd, half, b, n))
    decreases n
  {
    if n > 0 { SpellXor(odd, half, plus, half(a), half(b), n - 1); }
  }

  ghost predicate Determined<T(!new)>(odd: T -> bool, half: T -> T) {
    forall a, b :: odd(a) == odd(b) && half(a) == half(b) ==> a == b
  }

  lemma {:induction false} SpellInjective<T(!new)>(odd: T -> bool, half: T -> T, a: T, b: T, n: nat)
    requires Determined(odd, half)
    requires Spell(odd, half, a, n) == Spell(odd, half, b, n) && Halved(half, a, n) == Halved(half, b, n)
    ensures a == b
    decreases n
  {
    if n > 0 {
      var x, y := Spell(odd, half, a, n), Spell(odd, half, b, n);
      assert x[0] == y[0] && x[1..] == y[1..];
      SpellInjective(odd, half, half(a), half(b), n - 1);
    }
  }

  lemma {:induction false} SpellZero<T>(odd: T -> bool, half: T -> T, zero: T, n: nat)
    requires !odd(zero) && half(zero) == zero
    ensures Spell(odd, half, zero, n) == Zeros(n)
    decreases n
  {
    if n > 0 { SpellZero(odd, half, zero, n - 1); }
  }

  // Long division: cancel the leading term until 32 coefficients are left
  function Remainder(p: Bits): (r: Bits)
    requires |p| >= 32
    ensures |r| == 32
    decreases |p|
  {
    if |p| == 32 then p
    else if p[0] then Remainder(AddFront(p[1..], Generator()))
    else Remainder(p[1..])
  }

  // Add s to the 32 highest coefficients of p
  function AddFront(p: Bits, s: Bits): (r: Bits)
    requires |p| >= 32 && |s| == 32
    ensures |r| == |p|
    ensures forall i | 0 <= i < |r| :: r[i] == if i < 32 then p[i] != s[i] else p[i]
  {
    Xor(p[..32], s) + p[32..]
  }

  // ---------- the shift register ----------

  // One message bit enters the register
  function Next(s: Bits, bit: bool): (r: Bits)
    requires |s| == 32
    ensures |r| == 32
  {
    var shifted := s[1..] + [false];
    if s[0] != bit then Xor(shifted, Generator()) else shifted
  }

  function Feed(s: Bits, bits: Bits): (r: Bits)
    requires |s| == 32
    ensures |r| == 32
    decreases |bits|
  {
    if bits == [] then s else Feed(Next(s, bits[0]), bits[1..])
  }

  lemma {:induction false} FeedConcat(s: Bits, a: Bits, b: Bits)
    requires |s| == 32
    ensures Feed(s, a + b) == Feed(Feed(s, a), b)
    decreases |a|
  {
    if a == [] {
      assert a + b == b;
    } else {
      assert (a + b)[1..] == a[1..] + b;
      FeedConcat(Next(s, a[0]), a[1..], b);
    }
  }

  lemma NextDivides(s: Bits, bit: bool, rest: Bits)
    requires |s| == 32 && |rest| >= 32
    ensures var p := AddFront([bit] + rest, s);
            AddFront(rest, Next(s, bit)) == if p[0] then AddFront(p[1..], Generator()) else p[1..]
  {
    var p, q := AddFront([bit] + rest, s), AddFront(rest, Next(s, bit));
    forall i | 0 <= i < |rest|
      ensures q[i] == if p[0] then AddFront(p[1..], Generator())[i] else p[1..][i]
    {
      assert p[1..][i] == p[i + 1];
    }
  }

  lemma DivisionStep(s: Bits, bits: Bits)
    requires |s| == 32 && bits != []
    ensures Remainder(AddFront(bits + Zeros(32), s)) == Remainder(AddFront(bits[1..] + Zeros(32), Next(s, bits[0])))
  {
    var rest := bits[1..] + Zeros(32);
    assert bits + Zeros(32) == [bits[0]] + rest;
    NextDivides(s, bits[0], rest);
  }

  lemma DivisionEnd(s: Bits)
    requires |s| == 32
    ensures Remainder(AddFront([] + Zeros(32), s)) == s
  {
    assert AddFront([] + Zeros(32), s) == s;
  }

  // The register holds the remainder of everything fed so far, multiplied by
  // x^32, with the initial register added to the 32 highest coefficients.
  lemma {:induction false} FeedIsRemainder(s: Bits, bits: Bits)
    requires |s| == 32
    ensures Feed(s, bits) == Remainder(AddFront(bits + Zeros(32), s))
    decreases |bits|
  {
    if bits == [] {
      DivisionEnd(s);
    } else {
      DivisionStep(s, bits);
      FeedIsRemainder(Next(s, bits[0]), bits[1..]);
    }
  }

  // ---------- feeding zeros ----------

  lemma NextLinear(s: Bits, t: Bits)
    requires |s| == |t| == 32
    ensures Next(Xor(s, t), false) == Xor(Next(s, false), Next(t, false))
  {
  }

  lemma {:induction false} FeedZerosLinear(s: Bits, t: Bits, n: nat)
    requires |s| == |t| == 32
    ensures Feed(Xor(s, t), Zeros(n)) == Xor(Feed(s, Zeros(n)), Feed(t, Zeros(n)))
    decreases n
  {
    if n > 0 {
      assert Zeros(n)[1..] == Zeros(n - 1);
      NextLinear(s, t);
      FeedZerosLinear(Next(s, false), Next(t, false), n - 1);
    }
  }

  lemma FeedZero(s: Bits, n: nat)
    requires |s| == 32
    ensures Feed(s, Zeros(n + 1)) == Feed(Next(s, false), Zeros(n))
  {
    assert Zeros(n + 1)[1..] == Zeros(n);
  }

  // Eight register steps on words feed eight zeros
  lemma EightSteps<T(!new)>(step: T -> T, coeffs: T -> Bits, c: T)
    requires forall w :: |coeffs(w)| == 32 && |coeffs(step(w))| == 32
    requires forall w :: coeffs(step(w)) == Next(coeffs(w), false)
    ensures coeffs(step(step(step(step(step(step(step(step(c))))))))) == Feed(coeffs(c), Zeros(8))
  {
    var c4 := step(step(step(step(c))));
    FourSteps(step, coeffs, c, 4);
    FourSteps(step, coeffs, c4, 0);
  }

  lemma FourSteps<T(!new)>(step: T -> T, coeffs: T -> Bits, c: T, n: nat)
    requires forall w :: |coeffs(w)| == 32 && |coeffs(step(w))| == 32
    requires forall w :: coeffs(step(w)) == Next(coeffs(w), false)
    ensures Feed(coeffs(c), Zeros(n + 4)) == Feed(coeffs(step(step(step(step(c))))), Zeros(n))
  {
    FeedZero(coeffs(c), n + 3);
    FeedZero(coeffs(step(c)), n + 2);
    FeedZero(coeffs(step(step(c))), n + 1);
    FeedZero(coeffs(step(step(step(c)))), n);
  }

  // A register whose next n coefficients are zero is only shifted
  lemma {:induction false} FeedZerosShifts(s: Bits, n: nat)
    requires |s| == 32 && n <= 32 && s[..n] == Zeros(n)
    ensures Feed(s, Zeros(n)) == s[n..] + Zeros(n)
    decreases n
  {
    if n > 0 {
      assert Zeros(n)[1..] == Zeros(n - 1);
      assert s[0] == s[..n][0];
      var r := Next(s, false);
      assert r[..n - 1] == s[1..n] == s[..n][1..];
      FeedZerosShifts(r, n - 1);
      assert r[n - 1..] + Zeros(n - 1) == s[n..] + Zeros(n);
    }
  }

  // ---------- error detection ----------

  // The lowest coefficient of G is 1, so a step can be undone
  lemma NextInjective(s: Bits, t: Bits, bit: bool)
    requires |s| == |t| == 32 && Next(s, bit) == Next(t, bit)
    ensures s == t
  {
    var r := Next(s, bit);
    assert r[31] == (s[0] != bit) && r[31] == (t[0] != bit);
    forall i | 0 < i < 32 ensures s[i] == t[i] {
      assert r[i - 1] == if r[31] then s[i] != Generator()[i - 1] else s[i];
      assert r[i - 1] == if r[31] then t[i] != Generator()[i - 1] else t[i];
    }
  }

  lemma {:induction false} FeedInjective(s: Bits, t: Bits, bits: Bits)
    requires |s| == |t| == 32 && Feed(s, bits) == Feed(t, bits)
    ensures s == t
    decreases |bits|
  {
    if bits != [] {
      FeedInjective(Next(s, bits[0]), Next(t, bits[0]), bits[1..]);
      NextInjective(s, t, bits[0]);
    }
  }

  // Up to 32 message bits have the same effect as adding them to the register
  // first and then feeding as many zeros
  lemma WindowFoldsIn(s: Bits, w: Bits)
    requires |s| == 32 && |w| <= 32
    ensures Feed(s, w) == Feed(Xor(s, w + Zeros(32 - |w|)), Zeros(|w|))
  {
    FeedIsRemainder(s, w);
    FeedIsRemainder(Xor(s, w + Zeros(32 - |w|)), Zeros(|w|));
    FrontFoldsIn(s, w);
  }

  lemma FrontFoldsIn(s: Bits, w: Bits)
    requires |s| == 32 && |w| <= 32
    ensures AddFront(w + Zeros(32), s) == AddFront(Zeros(|w|) + Zeros(32), Xor(s, w + Zeros(32 - |w|)))
  {
  }

  lemma WindowInjective(s: Bits, v: Bits, w: Bits)
    requires |s| == |v| == |w| == 32 && Feed(s, v) == Feed(s, w)
    ensures v == w
  {
    WindowFoldsIn(s, v);
    WindowFoldsIn(s, w);
    assert v + Zeros(0) == v && w + Zeros(0) == w;
    FeedInjective(Xor(s, v), Xor(s, w), Zeros(32));
    forall i | 0 <= i < 32 ensures v[i] == w[i] {
      assert Xor(s, v)[i] == Xor(s, w)[i];
    }
  }

  lemma Cut(a: Bits, at: nat)
    requires at + 32 <= |a|
    ensures a == a[..at] + (a[at..at + 32] + a[at + 32..])
  {
  }

  lemma WindowDetected(s: Bits, head: Bits, v: Bits, w: Bits, tail: Bits)
    requires |s| == |v| == |w| == 32 && v != w
    ensures Feed(s, head + (v + tail)) != Feed(s, head + (w + tail))
  {
    var c := Feed(s, head);
    FeedConcat(s, head, v + tail);
    FeedConcat(s, head, w + tail);
    FeedConcat(c, v, tail);
    FeedConcat(c, w, tail);
    if Feed(Feed(c, v), tail) == Feed(Feed(c, w), tail) {
      FeedInjective(Feed(c, v), Feed(c, w), tail);
      WindowInjective(c, v, w);
      assert false;
    }
  }

  // Two messages that differ, and differ only inside 32 consecutive bits, never
  // leave the same register.
  lemma BurstDetected(s: Bits, a: Bits, b: Bits, at: nat)
    requires |s| == 32 && |a| == |b| && at + 32 <= |a|
    requires a != b && a[..at] == b[..at] && a[at + 32..] == b[at + 32..]
    ensures Feed(s, a) != Feed(s, b)
  {
    var v, w, tail := a[at..at + 32], b[at..at + 32], a[at + 32..];
    Cut(a, at);
    Cut(b, at);
    WindowDetected(s, a[..at], v, w, tail);
  }
}
