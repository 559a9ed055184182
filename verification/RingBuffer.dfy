// The ring operations of gateway_shared.c as one core runs them between two
// steps of the other: an object updated in place, proved against the queue of
// unread bytes that RingProtocol shows every interleaving to implement.

module RingBuffer {
  import opened Bits
  import opened ByteWords
  import opened Memory
  import opened RingIndex
  import P = RingProtocol

  datatype Code = OK | FULL | EMPTY | INVALID_PARAM

  class RingBuf {
    const size: uint32
    const mask: uint32
    const data: array<Byte>
    var writeIndex: uint32
    var readIndex: uint32
    ghost var sent: seq<Byte>   // every byte ever published
    ghost var taken: seq<Byte>  // every byte ever retired

    ghost predicate Valid()
      reads this, data
    {
      && size == data.Length && mask == size - 1
      && P.Indices(data.Length, writeIndex, readIndex, |sent|, |taken|)
      && P.Unread(data[..], sent, |taken|)
      && taken <= sent
    }

    // The unread bytes, oldest first
    ghost function Contents(): seq<Byte>
      requires Valid()
      reads this, data
    {
      sent[|taken|..]
    }

    constructor (data: array<Byte>)
      requires RingSize(data.Length)
      ensures Valid() && Contents() == [] && this.data == data
      ensures writeIndex == 0 && readIndex == 0 && sent == [] && taken == []
    {
      this.data := data;
      size := data.Length;
      mask := data.Length - 1;
      writeIndex := 0;
      readIndex := 0;
      sent := [];
      taken := [];
    }

    method GetFree() returns (free: uint32)
      requires Valid()
      ensures free == mask - |Contents()|
    {
      var w := writeIndex;
      var r := readIndex;
      FreeIsExact(|taken|, |sent|, size);
      free := BitAnd(Sub32(Sub32(r, w), 1), mask);
    }

    method GetAvailable() returns (available: uint32)
      requires Valid()
      ensures available == |Contents()|
    {
      var w := writeIndex;
      var r := readIndex;
      AvailableIsExact(|sent|, |taken|, size);
      available := BitAnd(Sub32(w, r), mask);
    }

    method Write(src: seq<Byte>) returns (ret: Code, bytesWritten: nat)
      requires Valid() && |src| < TWO32
      modifies this`writeIndex, this`sent, data
      ensures Valid()
      ensures ret == if |src| == 0 then INVALID_PARAM
                     else if |old(Contents())| + |src| <= mask then OK else FULL
      ensures Contents() == if ret == OK then old(Contents()) + src else old(Contents())
      ensures bytesWritten == if ret == OK then |src| else 0
      ensures sent == if ret == OK then old(sent) + src else old(sent)
      ensures writeIndex == if ret == OK then Add32(old(writeIndex), |src|) else old(writeIndex)
      ensures data[..] == if ret == OK then Wrapped(old(data[..]), |old(sent)| % data.Length, src) else old(data[..])
    {
      if |src| == 0 {
        return INVALID_PARAM, 0;
      }
      var free := GetFree();
      if free < |src| {
        return FULL, 0;
      }
      Append(src);
      return OK, |src|;
    }

    // Copy, then rb->ctrl.write_index = (write_idx + size)
    method Append(src: seq<Byte>)
      requires Valid() && 0 < |src| && |Contents()| + |src| <= mask
      modifies this`writeIndex, this`sent, data
      ensures Valid() && sent == old(sent) + src && Contents() == old(Contents()) + src
      ensures writeIndex == Add32(old(writeIndex), |src|)
      ensures data[..] == Wrapped(old(data[..]), |old(sent)| % data.Length, src)
    {
      var w := writeIndex;
      var base := BitAnd(w, mask);
      assert base == |sent| % data.Length by { MaskOfCount(|sent|, size); }
      WrapPlacesAll(data[..], sent, |taken|, src);
      P.CountAdd(|sent|, |src|);
      CopyToSlots(data, base, src);
      writeIndex := Add32(w, |src|);
      sent := sent + src;
    }

    // The copy loop of read and peek
    method CopyOut(dst: array<Byte>, n: nat)
      requires Valid() && 0 < n <= |Contents()| && n <= dst.Length && dst != data
      modifies dst
      ensures dst[..] == Contents()[..n] + old(dst[n..])
    {
      StreamSpelled(data[..], sent, |taken|, n);
      var base := BitAnd(readIndex, mask);
      CopyFromSlots(dst, data, base, n);
    }

    method Peek(dst: array<Byte>, n: uint32) returns (ret: Code, bytesRead: nat)
      requires Valid() && n <= dst.Length && dst != data
      modifies dst
      ensures ret == if n == 0 then INVALID_PARAM else if n <= |Contents()| then OK else EMPTY
      ensures dst[..] == if ret == OK then Contents()[..n] + old(dst[n..]) else old(dst[..])
      ensures bytesRead == if ret == OK then n else 0
    {
      if n == 0 {
        return INVALID_PARAM, 0;
      }
      var available := GetAvailable();
      if available < n {
        return EMPTY, 0;
      }
      CopyOut(dst, n);
      return OK, n;
    }

    method Skip(n: uint32) returns (ret: Code)
      requires Valid()
      modifies this`readIndex, this`taken
      ensures Valid()
      ensures ret == if n == 0 then INVALID_PARAM else if n <= |old(Contents())| then OK else EMPTY
      ensures Contents() == if ret == OK then old(Contents())[n..] else old(Contents())
      ensures taken == if ret == OK then old(taken) + old(Contents())[..n] else old(taken)
      ensures readIndex == if ret == OK then Add32(old(readIndex), n) else old(readIndex)
    {
      if n == 0 {
        return INVALID_PARAM;
      }
      var available := GetAvailable();
      if available < n {
        return EMPTY;
      }
      Retire(n);
      return OK;
    }

    method Read(dst: array<Byte>, n: uint32) returns (ret: Code, bytesRead: nat)
      requires Valid() && n <= dst.Length && dst != data
      modifies this`readIndex, this`taken, dst
      ensures Valid()
      ensures ret == if n == 0 then INVALID_PARAM else if n <= |old(Contents())| then OK else EMPTY
      ensures dst[..] == if ret == OK then old(Contents())[..n] + old(dst[n..]) else old(dst[..])
      ensures Contents() == if ret == OK then old(Contents())[n..] else old(Contents())
      ensures taken == if ret == OK then old(taken) + old(Contents())[..n] else old(taken)
      ensures readIndex == if ret == OK then Add32(old(readIndex), n) else old(readIndex)
      ensures bytesRead == if ret == OK then n else 0
    {
      if n == 0 {
        return INVALID_PARAM, 0;
      }
      var available := GetAvailable();
      if available < n {
        return EMPTY, 0;
      }
      CopyOut(dst, n);
      Retire(n);
      return OK, n;
    }

    // rb->ctrl.read_index = (read_idx + size)
    method Retire(n: uint32)
      requires Valid() && n <= |Contents()|
      modifies this`readIndex, this`taken
      ensures Valid()
      ensures taken == old(taken) + old(Contents())[..n] && Contents() == old(Contents())[n..]
      ensures readIndex == Add32(old(readIndex), n)
    {
      P.CountAdd(|taken|, n);
      P.UnreadShrinks(data[..], sent, |taken|, n);
      assert taken == sent[..|taken|];
      assert sent[..|taken| + n] == taken + sent[|taken|..][..n];
      readIndex := Add32(readIndex, n);
      taken := sent[..|taken| + n];
    }
  }

  // gateway_ringbuf_init: a power of two makes an empty ring.  Size 0 passes the
  // bit test as well, but its mask of 2^32 - 1 fits no array: no ring results.
  method Init(data: array<Byte>) returns (ret: int, rb: RingBuf?)
    requires data.Length < TWO32
    ensures ret == if data.Length == 0 || IsPow2(data.Length) then 0 else -1
    ensures rb != null <==> IsPow2(data.Length)
    ensures rb != null ==> fresh(rb) && rb.Valid() && rb.Contents() == [] && rb.data == data
    ensures rb != null ==> rb.sent == rb.taken == []
  {
    SizeTestIsPowerOfTwo(data.Length);
    if BitAnd(data.Length, Sub32(data.Length, 1)) != 0 {
      return -1, null;
    }
    if data.Length == 0 {
      forall k: nat ensures 0 != Pow2(k) {}
      return 0, null;
    }
    rb := new RingBuf(data);
    ret := 0;
  }

  lemma WrappedAt(before: seq<Byte>, X: nat, src: seq<Byte>, i: nat)
    requires RingSize(|before|) && |src| < |before| && X <= i < X + |before|
    ensures Wrapped(before, X % |before|, src)[i % |before|] ==
            if i < X + |src| then src[i - X] else before[i % |before|]
  {
    ModAdd(X, i - X, |before|);
  }

  lemma WrapKeeps(before: seq<Byte>, W: nat, src: seq<Byte>, i: nat, b: Byte)
    requires RingSize(|before|) && |src| < |before| && i < W && W + |src| <= i + |before|
    requires P.Holds(before, i, b)
    ensures P.Holds(Wrapped(before, W % |before|, src), i, b)
  {
    WrappedAt(before, W, src, i + |before|);
    ModPlus(i, |before|);
  }

  lemma WrapPuts(before: seq<Byte>, W: nat, src: seq<Byte>, k: nat)
    requires RingSize(|before|) && k < |src| < |before|
    ensures P.Holds(Wrapped(before, W % |before|, src), W + k, src[k])
  {
    WrappedAt(before, W, src, W + k);
  }

  // The copies put byte k of the source into the slot of stream position W + k
  // and change no slot that holds an unread byte.
  lemma WrapPlacesAll(before: seq<Byte>, sent: seq<Byte>, R: nat, src: seq<Byte>)
    requires RingSize(|before|) && R <= |sent| && |sent| + |src| <= R + |before| - 1
    requires P.Unread(before, sent, R)
    ensures P.Unread(Wrapped(before, |sent| % |before|, src), sent + src, R)
  {
    var W, after := |sent|, Wrapped(before, |sent| % |before|, src);
    forall i: nat | R <= i < |sent + src| ensures P.Holds(after, i, (sent + src)[i]) {
      if i < W {
        assert P.Holds(before, i, sent[i]);
        WrapKeeps(before, W, src, i, sent[i]);
      } else {
        WrapPuts(before, W, src, i - W);
      }
    }
  }

  lemma StreamSpelled(data: seq<Byte>, sent: seq<Byte>, R: nat, n: nat)
    requires RingSize(|data|) && n < |data| && R + n <= |sent| && P.Unread(data, sent, R)
    ensures BitAnd(R % TWO32, |data| - 1) == R % |data|
    ensures Unwrapped(data, R % |data|, n) == sent[R..R + n]
  {
    MaskOfCount(R, |data|);
    forall k | 0 <= k < n ensures Unwrapped(data, R % |data|, n)[k] == sent[R + k] {
      assert P.Holds(data, R + k, sent[R + k]);
      ModAdd(R, k, |data|);
    }
  }

  lemma ModPlus(i: nat, n: nat)
    requires n > 0
    ensures (i + n) % n == i % n
  {
    var q, r := DivMod(i, n);
    assert n * (q + 1) == n * q + n;
    ModUnique(i + n, n, q + 1, r);
  }
}
