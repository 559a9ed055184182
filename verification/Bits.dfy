// Unsigned 32-bit arithmetic and bitwise operators on naturals.
//
// The C code masks free-running uint32 indices with `size - 1` and keeps a
// 32-bit set of motors.  Both uses are stated here on naturals, bit by bit,
// so that the arithmetic meaning of a mask is a theorem and not a definition.

module Bits {
  const TWO32: int := 0x1_0000_0000

  type uint32 = x: int | 0 <= x < TWO32

  // a + b and a - b as the C compiler computes them on uint32_t
  function Add32(a: int, b: int): uint32 { (a + b) % TWO32 }
  function Sub32(a: int, b: int): uint32 { (a - b) % TWO32 }

  function Pow2(k: nat): (p: nat)
    ensures p > 0
  {
    if k == 0 then 1 else 2 * Pow2(k - 1)
  }

  ghost predicate IsPow2(n: int) {
    exists k: nat :: n == Pow2(k)
  }

  // The operators & and |
  function BitAnd(x: nat, y: nat): nat
    decreases x
  {
    if x == 0 then 0
    else (if x % 2 == 1 && y % 2 == 1 then 1 else 0) + 2 * BitAnd(x / 2, y / 2)
  }

  function BitOr(x: nat, y: nat): nat
    decreases x + y
  {
    if x == 0 && y == 0 then 0
    else (if x % 2 == 1 || y % 2 == 1 then 1 else 0) + 2 * BitOr(x / 2, y / 2)
  }

  // Bit i of x
  predicate Bit(x: nat, i: nat) {
    if i == 0 then x % 2 == 1 else Bit(x / 2, i - 1)
  }

  // ---------- masks ----------

  lemma {:induction false} MaskIsMod(x: nat, k: nat)
    ensures BitAnd(x, Pow2(k) - 1) == x % Pow2(k)
    decreases k
  {
    if k == 0 {
      AndZero(x);
    } else if x != 0 {
      var p := Pow2(k - 1);
      MaskIsMod(x / 2, k - 1);
      assert (2 * p - 1) / 2 == p - 1 && (2 * p - 1) % 2 == 1;
      ModDouble(x, p);
    }
  }

  lemma {:induction false} AndZero(x: nat)
    ensures BitAnd(x, 0) == 0
    decreases x
  {
    if x != 0 { AndZero(x / 2); }
  }

  lemma ModDouble(x: nat, p: nat)
    requires p > 0
    ensures x % (2 * p) == x % 2 + 2 * ((x / 2) % p)
  {
    var q, r := (x / 2) / p, (x / 2) % p;
    assert x / 2 == p * q + r;
    assert x == (2 * p) * q + (2 * r + x % 2);
    ModUnique(x, 2 * p, q, 2 * r + x % 2);
  }

  lemma ModUnique(x: int, m: int, q: int, r: int)
    requires m > 0 && 0 <= r < m && x == m * q + r
    ensures x % m == r && x / m == q
  {
    QuotientsAgree(m, x / m, x % m, q, r);
  }

  lemma DivMod(x: int, m: int) returns (q: int, r: int)
    requires m > 0
    ensures x == m * q + r && 0 <= r < m && x % m == r
  {
    q, r := x / m, x % m;
  }

  lemma ModShift(x: int, m: int, k: int)
    requires m > 0
    ensures (x + m * k) % m == x % m
  {
    var q, r := DivMod(x, m);
    assert m * (q + k) == m * q + m * k;
    ModUnique(x + m * k, m, q + k, r);
  }

  // Reducing the operands first does not change a sum or difference modulo m
  lemma ModOfSum(x: int, y: int, m: int)
    requires m > 0
    ensures (x % m + y) % m == (x + y) % m
    ensures (x % m - y) % m == (x - y) % m
    ensures (x - y % m) % m == (x - y) % m
  {
    var q, r := DivMod(x, m);
    var q', r' := DivMod(y, m);
    ModShift(r + y, m, q);
    ModShift(r - y, m, q);
    ModShift(x - y, m, q');
  }

  lemma ModAdd(x: int, k: nat, m: int)
    requires k < m
    ensures (x + k) % m == if k < m - x % m then x % m + k else x % m + k - m
  {
    var q, b := DivMod(x, m);
    if k < m - b {
      ModUnique(x + k, m, q, b + k);
    } else {
      assert m * (q + 1) == m * q + m;
      ModUnique(x + k, m, q + 1, b + k - m);
    }
  }

  lemma ModComplement(x: int, m: int)
    requires m > 0
    ensures (-x - 1) % m == m - 1 - x % m
  {
    var q, b := DivMod(x, m);
    assert m * (-q - 1) == -(m * q) - m;
    ModUnique(-x - 1, m, -q - 1, m - 1 - b);
  }

  lemma QuotientsAgree(m: int, q: int, r: int, q': int, r': int)
    requires 0 <= r < m && 0 <= r' < m && m * q + r == m * q' + r'
    ensures q == q' && r == r'
  {
    var d := q - q';
    assert m * d == r' - r;
    if d >= 1 { MulAtLeast(m, d); } else if d <= -1 { MulAtLeast(m, -d); }
  }

  lemma MulAtLeast(m: int, d: int)
    requires m > 0 && d >= 1
    ensures m * d >= m
  {
  }

  lemma {:induction false} ZeroPow2Test(n: nat)
    requires n > 0
    ensures BitAnd(n, n - 1) == 0 <==> IsPow2(n)
    decreases n
  {
    if n == 1 {
      assert n == Pow2(0);
    } else if n % 2 == 1 {
      // n - 1 is even and shares every higher bit with n
      assert (n - 1) / 2 == n / 2;
      AndSelf(n / 2);
      forall k: nat ensures n != Pow2(k) { assert k > 0 ==> Pow2(k) == 2 * Pow2(k - 1); }
    } else {
      var h := n / 2;
      assert (n - 1) / 2 == h - 1 && (n - 1) % 2 == 1;
      ZeroPow2Test(h);
      assert BitAnd(n, n - 1) == 2 * BitAnd(h, h - 1);
      if IsPow2(h) {
        var k: nat :| h == Pow2(k);
        assert n == Pow2(k + 1);
      }
      if IsPow2(n) {
        var k: nat :| n == Pow2(k);
        assert h == Pow2(k - 1);
      }
    }
  }

  lemma {:induction false} AndSelf(x: nat)
    ensures BitAnd(x, x) == x
    decreases x
  {
    if x != 0 { AndSelf(x / 2); }
  }

  lemma {:induction false} Pow2Monotone(a: nat, b: nat)
    requires a < b
    ensures Pow2(a) < Pow2(b)
    decreases b
  {
    if a < b - 1 { Pow2Monotone(a, b - 1); }
  }

  lemma {:induction false} Pow2Sum(a: nat, b: nat)
    ensures Pow2(a + b) == Pow2(a) * Pow2(b)
    decreases a
  {
    if a != 0 {
      Pow2Sum(a - 1, b);
      assert Pow2(a + b) == 2 * Pow2(a + b - 1);
      assert 2 * (Pow2(a - 1) * Pow2(b)) == (2 * Pow2(a - 1)) * Pow2(b);
    }
  }

  // Every power of two that fits in a uint32 divides 2^32
  lemma Pow2Divides(size: uint32) returns (k: nat)
    requires IsPow2(size)
    ensures size == Pow2(k) && k < 32 && TWO32 == size * Pow2(32 - k)
  {
    k :| size == Pow2(k);
    TwoToThe32();
    if k > 32 { Pow2Monotone(32, k); }
    if k < 32 { Pow2Sum(k, 32 - k); }
  }

  lemma TwoToThe32()
    ensures Pow2(32) == TWO32
  {
    Pow2Sum(16, 16);
    Pow2Sum(8, 8);
    assert Pow2(8) == 256;
  }

  // ---------- single bits ----------

  lemma {:induction false} BitOfPow2(i: nat, j: nat)
    ensures Bit(Pow2(i), j) <==> i == j
    decreases i
  {
    if i == 0 {
      if j > 0 { BitOfZero(j - 1); }
    } else if j > 0 {
      BitOfPow2(i - 1, j - 1);
    }
  }

  lemma {:induction false} BitOfZero(j: nat)
    ensures !Bit(0, j)
    decreases j
  {
    if j > 0 { BitOfZero(j - 1); }
  }

  lemma {:induction false} BitOfOr(x: nat, y: nat, j: nat)
    ensures Bit(BitOr(x, y), j) <==> Bit(x, j) || Bit(y, j)
    decreases j
  {
    OrHalves(x, y);
    if j > 0 { BitOfOr(x / 2, y / 2, j - 1); }
  }

  lemma OrHalves(x: nat, y: nat)
    ensures BitOr(x, y) / 2 == BitOr(x / 2, y / 2)
    ensures BitOr(x, y) % 2 == 1 <==> x % 2 == 1 || y % 2 == 1
  {
  }

  // The C test `(m & (1U << i)) == 0`
  lemma {:induction false} MaskTest(m: nat, i: nat)
    ensures BitAnd(m, Pow2(i)) != 0 <==> Bit(m, i)
    decreases i
  {
    if m == 0 {
      BitOfZero(i);
    } else if i == 0 {
      AndZero(m / 2);
    } else {
      MaskTest(m / 2, i - 1);
    }
  }

  // The C update `m |= (1U << i)` adds exactly bit i
  lemma SetBit(m: nat, i: nat, j: nat)
    ensures Bit(BitOr(m, Pow2(i)), j) <==> Bit(m, j) || i == j
  {
    BitOfOr(m, Pow2(i), j);
    BitOfPow2(i, j);
  }
}
