// memcpy, and the two shapes in which the circular buffers of both cores use
// it: one copy, or two when the bytes pass the end of the array.

module Memory {
  // n elements of src from position `from` land in dst at `at`
  method CopyIn<T>(dst: array<T>, at: nat, src: seq<T>, from: nat, n: nat)
    requires at + n <= dst.Length && from + n <= |src|
    modifies dst
    ensures dst[..] == old(dst[..at]) + src[from..from + n] + old(dst[at + n..])
  {
    for k := 0 to n
      invariant dst[..at] == old(dst[..at]) && dst[at + n..] == old(dst[at + n..])
      invariant dst[at..at + k] == src[from..from + k]
    {
      dst[at + k] := src[from + k];
    }
    assert dst[..] == dst[..at] + dst[at..at + n] + dst[at + n..];
  }

  lemma TwoFirst<T>(a: seq<T>, b: seq<T>, c: seq<T>)
    ensures (a + b + c)[..|a| + |b|] == a + b
  {
  }

  // `before` with src written from position `base`, wrapping at the end
  function Wrapped<T>(before: seq<T>, base: nat, src: seq<T>): (after: seq<T>)
    requires base <= |before| && |src| <= |before|
    ensures |after| == |before|
  {
    var firstPart := |before| - base;
    if |src| <= firstPart then before[..base] + src + before[base + |src|..]
    else src[firstPart..] + before[|src| - firstPart..base] + src[..firstPart]
  }

  // n elements of data from position `base`, wrapping at the end
  function Unwrapped<T>(data: seq<T>, base: nat, n: nat): (r: seq<T>)
    requires base <= |data| && n <= |data|
    ensures |r| == n
  {
    var firstPart := |data| - base;
    if n <= firstPart then data[base..base + n] else data[base..] + data[..n - firstPart]
  }

  method CopyToSlots<T>(data: array<T>, base: nat, src: seq<T>)
    requires base < data.Length && |src| < data.Length
    modifies data
    ensures data[..] == Wrapped(old(data[..]), base, src)
  {
    var firstPart := data.Length - base;
    ghost var before := data[..];
    if |src| <= firstPart {
      CopyIn(data, base, src, 0, |src|);
      assert src[..|src|] == src;
    } else {
      CopyIn(data, base, src, 0, firstPart);
      ghost var mid := data[..];
      CopyIn(data, 0, src, firstPart, |src| - firstPart);
      assert data[..] == Wrapped(before, base, src) by { TwoCopies(before, mid, base, src, data[..]); }
    }
  }

  lemma TwoCopies<T>(before: seq<T>, mid: seq<T>, base: nat, src: seq<T>, after: seq<T>)
    requires base < |before| && |src| < |before| && |src| > |before| - base
    requires mid == before[..base] + src[..|before| - base] + []
    requires after == [] + src[|before| - base..] + mid[|src| - (|before| - base)..]
    ensures after == Wrapped(before, base, src)
  {
    var firstPart := |before| - base;
    var rest := |src| - firstPart;
    assert mid[rest..] == before[rest..base] + src[..firstPart];
  }

  method CopyFromSlots<T>(dst: array<T>, data: array<T>, base: nat, n: nat)
    requires base < data.Length && n < data.Length && n <= dst.Length && dst != data
    modifies dst
    ensures dst[..] == Unwrapped(data[..], base, n) + old(dst[n..])
  {
    var firstPart := data.Length - base;
    if n <= firstPart {
      CopyIn(dst, 0, data[..], base, n);
    } else {
      ghost var before := dst[..];
      CopyIn(dst, 0, data[..], base, firstPart);
      ghost var mid := dst[..];
      CopyIn(dst, firstPart, data[..], 0, n - firstPart);
      TwoReads(before, mid, data[..], base, n, dst[..]);
    }
  }

  lemma TwoReads<T>(before: seq<T>, mid: seq<T>, data: seq<T>, base: nat, n: nat, after: seq<T>)
    requires base < |data| && |data| - base < n < |data| && n <= |before|
    requires mid == [] + data[base..base + (|data| - base)] + before[|data| - base..]
    requires after == mid[..|data| - base] + data[0..0 + (n - (|data| - base))] + mid[n..]
    ensures after == Unwrapped(data, base, n) + before[n..]
  {
    assert mid[..|data| - base] == data[base..] && mid[n..] == before[n..];
  }

  lemma Associative<T>(a: seq<T>, b: seq<T>, c: seq<T>)
    ensures (a + b) + c == a + (b + c)
  {
  }

  lemma SliceOfPrefix<T>(s: seq<T>, n: nat, lo: nat, hi: nat)
    requires lo <= hi <= n <= |s|
    ensures s[..n][lo..hi] == s[lo..hi]
  {
  }

  lemma Halves<T>(a: seq<T>, b: seq<T>)
    ensures (a + b)[..|a|] == a && (a + b)[|a|..] == b
  {
  }
}
