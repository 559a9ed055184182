// Index arithmetic of the lock-free ring.
//
// `writeIndex` and `readIndex` are free-running uint32 counters.  The lemmas
// relate what the C code computes from them to the unbounded counts W and R of
// bytes ever published and ever retired.

module RingIndex {
  import opened Bits

  // A ring size that gateway_ringbuf_init accepts, other than 0
  ghost predicate RingSize(size: int) {
    0 < size < TWO32 && IsPow2(size)
  }

  // (read_idx - write_idx - 1) & mask
  function FreeOf(r: uint32, w: uint32, size: uint32): nat
    requires size > 0
  {
    BitAnd(Sub32(Sub32(r, w), 1), size - 1)
  }

  // (write_idx - read_idx) & mask
  function AvailableOf(w: uint32, r: uint32, size: uint32): nat
    requires size > 0
  {
    BitAnd(Sub32(w, r), size - 1)
  }

  // Byte k of a transfer starting at index idx: memcpy up to the end of the
  // data array, the rest from its start.
  function Slot(idx: uint32, k: nat, size: uint32): nat
    requires size > 0
  {
    var base := BitAnd(idx, size - 1);
    var firstPart := size - base;
    if k < firstPart then base + k else k - firstPart
  }

  lemma MaskOfIndex(x: uint32, size: uint32)
    requires RingSize(size)
    ensures BitAnd(x, size - 1) == x % size
  {
    var k := Pow2Divides(size);
    MaskIsMod(x, k);
  }

  lemma ModOfMod(x: int, size: uint32)
    requires RingSize(size)
    ensures (x % TWO32) % size == x % size
  {
    var k := Pow2Divides(size);
    var c := Pow2(32 - k);
    var q, y := x / TWO32, x % TWO32;
    var q', r := y / size, y % size;
    assert x == size * (c * q + q') + r by {
      assert x == TWO32 * q + y;
      assert TWO32 * q == size * c * q == size * (c * q);
      assert y == size * q' + r;
      assert size * (c * q) + size * q' == size * (c * q + q');
    }
    ModUnique(x, size, c * q + q', r);
  }

  lemma MaskOfCount(x: int, size: uint32)
    requires RingSize(size)
    ensures BitAnd(x % TWO32, size - 1) == x % size
  {
    MaskOfIndex(x % TWO32, size);
    ModOfMod(x, size);
  }

  lemma SubSub(r: int, w: int)
    ensures Sub32(Sub32(r % TWO32, w % TWO32), 1) == (r - w - 1) % TWO32
    ensures Sub32(w % TWO32, r % TWO32) == (w - r) % TWO32
  {
    ModOfSum(r, w % TWO32, TWO32);
    ModOfSum(r, w, TWO32);
    ModOfSum(r - w, 1, TWO32);
    ModOfSum(w, r % TWO32, TWO32);
    ModOfSum(w, r, TWO32);
  }

  // FreeOf and AvailableOf without the masks
  lemma MaskedDifferences(r: int, w: int, size: uint32)
    requires RingSize(size)
    ensures FreeOf(r % TWO32, w % TWO32, size) == (r - w - 1) % size
    ensures AvailableOf(w % TWO32, r % TWO32, size) == (w - r) % size
  {
    SubSub(r, w);
    MaskOfCount(r - w - 1, size);
    MaskOfCount(w - r, size);
  }

  // Free space seen with a possibly stale read count R
  lemma FreeIsExact(R: nat, W: nat, size: uint32)
    requires RingSize(size) && R <= W <= R + size - 1
    ensures FreeOf(R % TWO32, W % TWO32, size) == size - 1 - (W - R)
  {
    MaskedDifferences(R, W, size);
    ModUnique(R - W - 1, size, -1, R - W - 1 + size);
  }

  lemma AvailableIsExact(W: nat, R: nat, size: uint32)
    requires RingSize(size) && R <= W <= R + size - 1
    ensures AvailableOf(W % TWO32, R % TWO32, size) == W - R
  {
    MaskedDifferences(R, W, size);
    ModUnique(W - R, size, 0, W - R);
  }

  // For an accepted size, whatever the two indices are, free and available
  // space together are one byte short of the buffer.
  lemma FreePlusAvailable(w: uint32, r: uint32, size: uint32)
    requires RingSize(size)
    ensures FreeOf(r, w, size) + AvailableOf(w, r, size) == size - 1
  {
    assert r % TWO32 == r && w % TWO32 == w;
    MaskedDifferences(r, w, size);
    ModComplement(w - r, size);
    assert -(w - r) - 1 == r - w - 1;
  }

  lemma SlotIsMod(X: nat, k: nat, size: uint32)
    requires RingSize(size) && k < size
    ensures Slot(X % TWO32, k, size) == (X + k) % size
  {
    MaskOfCount(X, size);
    ModAdd(X, k, size);
  }

  // Stream positions less than one buffer apart never share a slot
  lemma SlotsDistinct(i: nat, j: nat, size: uint32)
    requires size > 0 && i < j < i + size
    ensures i % size != j % size
  {
    if i % size == j % size {
      var d := j / size - i / size;
      assert j - i == size * d;
      if d >= 1 { MulAtLeast(size, d); } else if d <= -1 { MulAtLeast(size, -d); }
      assert false;
    }
  }

  // The size test of gateway_ringbuf_init, `(size & (size - 1)) != 0`.
  // At size 0 the C subtraction wraps and the test still accepts.
  predicate SizeRejected(size: uint32) {
    BitAnd(size, Sub32(size, 1)) != 0
  }

  lemma SizeTestIsPowerOfTwo(size: uint32)
    ensures !SizeRejected(size) <==> size == 0 || RingSize(size)
  {
    if size > 0 {
      assert Sub32(size, 1) == size - 1;
      ZeroPow2Test(size);
    } else {
      assert BitAnd(0, Sub32(0, 1)) == 0;
    }
  }
}
