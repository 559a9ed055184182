// The object of RingBuffer against the steps of RingProtocol: an operation on
// the object is the sequence of its steps with none of the other core between.

module RingRefinement {
  import opened Bits
  import opened ByteWords
  import opened RingBuffer
  import opened RingIndex
  import Memory
  import P = RingProtocol

  // The object is the shared memory of s, with both cores between two calls
  ghost predicate Shows(rb: RingBuf, s: P.Sys)
    reads rb, rb.data
  {
    && rb.Valid() && P.Inv(s) && s.p.PIdle? && s.c.CIdle?
    && s.data == rb.data[..] && s.writeIndex == rb.writeIndex && s.readIndex == rb.readIndex
    && s.sent == rb.sent && s.taken == rb.taken
  }

  function ResultOf(code: Code): P.Result {
    match code
    case OK => P.Ok
    case FULL => P.Full
    case EMPTY => P.Empty
    case INVALID_PARAM => P.InvalidParam
  }

  lemma ConsumerAlone(s: P.Sys, call: P.ConsumerCall)
    requires P.Inv(s) && s.c.CIdle? && !call.GetAvailable? && P.Need(call) < TWO32
    ensures P.CallAlone(s, call) ==
            if P.Need(call) == 0 then s.(cResult := P.InvalidParam)
            else if P.Need(call) <= |P.Queue(s)| then P.AfterCall(s, call)
            else s.(cResult := P.Empty)
    ensures P.Inv(P.CallAlone(s, call))
  {
    if 0 < P.Need(call) <= |P.Queue(s)| { P.CallAloneServed(s, call); } else { P.CallAloneRefused(s, call); }
  }

  // ---------- the consumer's operations ----------

  method ReadSteps(rb: RingBuf, dst: array<Byte>, n: uint32, ghost s: P.Sys)
    returns (ret: Code, bytesRead: nat, ghost after: P.Sys)
    requires Shows(rb, s) && n <= dst.Length && dst != rb.data
    modifies rb`readIndex, rb`taken, dst
    ensures after == P.CallAlone(s, P.Read(n)) && Shows(rb, after) && after.cResult == ResultOf(ret)
    ensures s.taken <= after.taken && bytesRead <= n
    ensures dst[..] == after.taken[|s.taken|..] + old(dst[bytesRead..])
  {
    ConsumerAlone(s, P.Read(n));
    after := P.CallAlone(s, P.Read(n));
    ret, bytesRead := rb.Read(dst, n);
  }

  method SkipSteps(rb: RingBuf, n: uint32, ghost s: P.Sys) returns (ret: Code, ghost after: P.Sys)
    requires Shows(rb, s)
    modifies rb`readIndex, rb`taken
    ensures after == P.CallAlone(s, P.Skip(n)) && Shows(rb, after) && after.cResult == ResultOf(ret)
  {
    ConsumerAlone(s, P.Skip(n));
    after := P.CallAlone(s, P.Skip(n));
    ret := rb.Skip(n);
  }

  // A peek leaves in dst what the steps note of it
  method PeekSteps(rb: RingBuf, dst: array<Byte>, n: uint32, ghost s: P.Sys)
    returns (ret: Code, bytesRead: nat, ghost after: P.Sys)
    requires Shows(rb, s) && n <= dst.Length && dst != rb.data
    modifies dst
    ensures after == P.CallAlone(s, P.Peek(n)) && Shows(rb, after) && after.cResult == ResultOf(ret)
    ensures ret == OK ==> after.peeks == s.peeks + [(|s.taken|, dst[..n])]
    ensures bytesRead <= n && dst[bytesRead..] == old(dst[bytesRead..])
  {
    ConsumerAlone(s, P.Peek(n));
    after := P.CallAlone(s, P.Peek(n));
    ret, bytesRead := rb.Peek(dst, n);
  }

  method AvailableSteps(rb: RingBuf, ghost s: P.Sys) returns (n: uint32, ghost after: P.Sys)
    requires Shows(rb, s)
    ensures after == P.CallAlone(s, P.GetAvailable) && Shows(rb, after)
    ensures P.CallAlone(s, P.GetAvailable).cResult == P.Count(n)
  {
    AvailableAlone(s);
    after := P.CallAlone(s, P.GetAvailable);
    n := rb.GetAvailable();
  }

  lemma AvailableAlone(s: P.Sys)
    requires P.Inv(s) && s.c.CIdle?
    ensures var n := |P.Queue(s)|; P.CallAlone(s, P.GetAvailable) == s.(cResult := P.Count(n), knownAvailable := n)
    ensures P.Inv(P.CallAlone(s, P.GetAvailable))
  {
    P.DoInv(s, P.CCall(P.GetAvailable));
    var sa := P.Do(s, P.CCall(P.GetAvailable));
    P.DoInv(sa, P.CLoadWrite);
    P.CLoadReadInv(P.Do(sa, P.CLoadWrite));
  }

  // ---------- the producer's write ----------

  function CopyInto(s: P.Sys, k: nat): (s': P.Sys)
    requires 0 < |s.data| < TWO32
    ensures |s'.data| == |s.data|
    decreases if s.p.PCopying? && |s.p.src| > k then |s.p.src| - k else 0
  {
    if !s.p.PCopying? || k >= |s.p.src| then s else CopyInto(P.Do(s, P.PCopy(k)), k + 1)
  }

  function WriteEntered(s: P.Sys, src: seq<Byte>): (s': P.Sys)
    requires 0 < |s.data| < TWO32
    ensures s'.data == s.data
  {
    P.Do(P.Do(P.Do(s, P.PCall(P.Write(src))), P.PLoadWrite), P.PLoadRead)
  }

  // A write with no step of the other core in between
  function WriteAlone(s: P.Sys, src: seq<Byte>): P.Sys
    requires 0 < |s.data| < TWO32
  {
    P.Do(CopyInto(WriteEntered(s, src), 0), P.PPublish)
  }

  // The bytes placed by the copy steps from k on
  function PlacedFrom(data: seq<Byte>, w: uint32, src: seq<Byte>, k: nat): (after: seq<Byte>)
    requires 0 < |data| < TWO32
    ensures |after| == |data|
    decreases |src| - k
  {
    if k >= |src| then data else PlacedFrom(P.Place(data, Slot(w, k, |data|), src[k]), w, src, k + 1)
  }

  lemma {:induction false} CopyIntoAll(s: P.Sys, k: nat)
    requires 0 < |s.data| < TWO32 && s.p.PCopying? && forall j: nat | j < k :: j in s.p.done
    ensures var s' := CopyInto(s, k);
            && s'.p.PCopying? && P.AllCopied(s'.p.done, |s.p.src|)
            && s' == s.(data := PlacedFrom(s.data, s.p.w, s.p.src, k), p := s.p.(done := s'.p.done))
    decreases if |s.p.src| > k then |s.p.src| - k else 0
  {
    if k < |s.p.src| { CopyIntoAll(P.Do(s, P.PCopy(k)), k + 1); }
  }

  // Position i of the buffer's worth from X on holds source byte i - X if the
  // copy has placed it, and what it held otherwise
  lemma {:induction false} PlacedAt(data: seq<Byte>, X: nat, src: seq<Byte>, k: nat, i: nat)
    requires RingSize(|data|) && |src| < |data| && k <= |src| && X <= i < X + |data|
    ensures PlacedFrom(data, X % TWO32, src, k)[i % |data|] ==
            if X + k <= i < X + |src| then src[i - X] else data[i % |data|]
    decreases |src| - k
  {
    if k < |src| {
      var slot := Slot(X % TWO32, k, |data|);
      SlotIsMod(X, k, |data|);
      PlacedAt(P.Place(data, slot, src[k]), X, src, k + 1, i);
      if i < X + k { SlotsDistinct(i, X + k, |data|); }
      if X + k < i { SlotsDistinct(X + k, i, |data|); }
    }
  }

  // Every slot is that of one such position
  lemma PositionOf(size: nat, X: nat, slot: nat) returns (i: nat)
    requires slot < size
    ensures X <= i < X + size && i % size == slot
  {
    var base := X % size;
    i := if slot >= base then X + (slot - base) else X + size - (base - slot);
    var q := X / size;
    assert X == q * size + base;
    if slot >= base { ModUnique(i, size, q, slot); } else { ModUnique(i, size, q + 1, slot); }
  }

  lemma PlacedIsWrapped(data: seq<Byte>, X: nat, src: seq<Byte>)
    requires RingSize(|data|) && |src| < |data|
    ensures PlacedFrom(data, X % TWO32, src, 0) == Memory.Wrapped(data, X % |data|, src)
  {
    var after, wrapped := PlacedFrom(data, X % TWO32, src, 0), Memory.Wrapped(data, X % |data|, src);
    forall slot | 0 <= slot < |data| ensures after[slot] == wrapped[slot] {
      var i := PositionOf(|data|, X, slot);
      PlacedAt(data, X, src, 0, i);
      WrappedAt(data, X, src, i);
    }
  }

  lemma WriteServed(s: P.Sys, src: seq<Byte>)
    requires P.Inv(s) && s.p.PIdle? && 0 < |src| && |P.Queue(s)| + |src| <= |s.data| - 1
    ensures WriteAlone(s, src) ==
            s.(data := Memory.Wrapped(s.data, |s.sent| % |s.data|, src), writeIndex := Add32(s.writeIndex, |src|),
               sent := s.sent + src, knownFree := P.Less(s.knownFree, |src|), pResult := P.Ok)
  {
    EnteredInv(s, src);
    CopyIntoAll(WriteEntered(s, src), 0);
    PlacedIsWrapped(s.data, |s.sent|, src);
  }

  lemma EnteredInv(s: P.Sys, src: seq<Byte>)
    requires P.Inv(s) && s.p.PIdle? && 0 < |src| < TWO32
    ensures P.Inv(WriteEntered(s, src))
    ensures WriteEntered(s, src) ==
            if |P.Queue(s)| + |src| <= |s.data| - 1 then s.(p := P.PCopying(src, s.writeIndex, {}, |s.taken|))
            else s.(pResult := P.Full)
  {
    P.DoInv(s, P.PCall(P.Write(src)));
    var sa := P.Do(s, P.PCall(P.Write(src)));
    P.DoInv(sa, P.PLoadWrite);
    P.PLoadReadInv(P.Do(sa, P.PLoadWrite));
    P.DoInv(P.Do(sa, P.PLoadWrite), P.PLoadRead);
  }

  lemma WriteRefused(s: P.Sys, src: seq<Byte>)
    requires P.Inv(s) && s.p.PIdle? && |src| < TWO32
    requires |src| == 0 || |P.Queue(s)| + |src| > |s.data| - 1
    ensures WriteAlone(s, src) == s.(pResult := if |src| == 0 then P.InvalidParam else P.Full)
  {
    if |src| > 0 { EnteredInv(s, src); }
  }

  lemma {:induction false} CopyIntoInv(s: P.Sys, k: nat)
    requires P.Inv(s)
    ensures P.Inv(CopyInto(s, k))
    decreases if s.p.PCopying? && |s.p.src| > k then |s.p.src| - k else 0
  {
    if s.p.PCopying? && k < |s.p.src| {
      P.DoInv(s, P.PCopy(k));
      CopyIntoInv(P.Do(s, P.PCopy(k)), k + 1);
    }
  }

  lemma WriteAloneInv(s: P.Sys, src: seq<Byte>)
    requires P.Inv(s)
    ensures P.Inv(WriteAlone(s, src))
  {
    P.DoInv(s, P.PCall(P.Write(src)));
    var sa := P.Do(s, P.PCall(P.Write(src)));
    P.DoInv(sa, P.PLoadWrite);
    P.DoInv(P.Do(sa, P.PLoadWrite), P.PLoadRead);
    CopyIntoInv(WriteEntered(s, src), 0);
    P.DoInv(CopyInto(WriteEntered(s, src), 0), P.PPublish);
  }

  method WriteSteps(rb: RingBuf, src: seq<Byte>, ghost s: P.Sys)
    returns (ret: Code, bytesWritten: nat, ghost after: P.Sys)
    requires Shows(rb, s) && |src| < TWO32
    modifies rb`writeIndex, rb`sent, rb.data
    ensures after == WriteAlone(s, src) && Shows(rb, after) && after.pResult == ResultOf(ret)
  {
    WriteAloneInv(s, src);
    if 0 < |src| && |P.Queue(s)| + |src| <= |s.data| - 1 { WriteServed(s, src); } else { WriteRefused(s, src); }
    after := WriteAlone(s, src);
    ret, bytesWritten := rb.Write(src);
  }

  // gateway_ringbuf_get_free, likewise
  function FreeAlone(s: P.Sys): P.Sys
    requires 0 < |s.data| < TWO32
  {
    P.Do(P.Do(P.Do(s, P.PCall(P.GetFree)), P.PLoadWrite), P.PLoadRead)
  }

  method FreeSteps(rb: RingBuf, ghost s: P.Sys) returns (n: uint32, ghost after: P.Sys)
    requires Shows(rb, s)
    ensures after == FreeAlone(s) && Shows(rb, after) && FreeAlone(s).pResult == P.Count(n)
  {
    FreeAnswer(s);
    after := FreeAlone(s);
    n := rb.GetFree();
  }

  lemma FreeAnswer(s: P.Sys)
    requires P.Inv(s) && s.p.PIdle?
    ensures var n := |s.data| - 1 - |P.Queue(s)|; FreeAlone(s) == s.(pResult := P.Count(n), knownFree := n)
    ensures P.Inv(FreeAlone(s))
  {
    P.DoInv(s, P.PCall(P.GetFree));
    var sa := P.Do(s, P.PCall(P.GetFree));
    P.DoInv(sa, P.PLoadWrite);
    P.PLoadReadInv(P.Do(sa, P.PLoadWrite));
  }
}
