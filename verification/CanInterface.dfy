// CAN frames, the hardware Tx element made from one, and CAN_TransmitBatch:
// the rotation of a batch over the 32 Tx slots of a controller.

module CanInterface {
  import opened Bits

  const TX_SLOTS := 32
  const MAX_DLC := 8
  const ID29 := 0x2000_0000
  const ID11 := 0x800
  const SHIFT18 := 0x4_0000

  type Octet = x: int | 0 <= x < 256
  type Payload = s: seq<Octet> | |s| == 8 witness [0, 0, 0, 0, 0, 0, 0, 0]
  type Batch = s: seq<Frame> | |s| < 0x1_0000

  // can_frame_t
  datatype Frame = Frame(canId: uint32, dlc: Octet, data: Payload, flags: Octet)
  {
    predicate Extended() { flags % 2 == 1 }
    predicate Remote() { (flags / 2) % 2 == 1 }
    predicate Sendable() { dlc <= MAX_DLC }
  }

  // The fields of MCAN_TxBufElement that vary
  datatype Element = Element(id: nat, xtd: nat, rtr: nat, dlc: nat, data: Payload)

  // What a frame must look like in a Tx slot.  Bytes from dlc on are not sent
  // and may be left over from an earlier frame.
  predicate Carries(e: Element, f: Frame) {
    && e.xtd == (if f.Extended() then 1 else 0)
    && e.id == (if f.Extended() then f.canId % ID29 else (f.canId % ID11) * SHIFT18)
    && e.rtr == (if f.Remote() then 1 else 0)
    && e.dlc == f.dlc <= MAX_DLC
    && e.data[..e.dlc] == f.data[..f.dlc]
  }

  // The frames of the first n that the driver puts to the hardware, those the
  // hardware takes, and the number it refuses
  function Requested(frames: Batch, n: nat): seq<Frame>
    requires n <= |frames|
  {
    if n == 0 then []
    else Requested(frames, n - 1) + if frames[n - 1].Sendable() then [frames[n - 1]] else []
  }

  function Accepted(frames: Batch, answers: seq<bool>, n: nat): seq<Frame>
    requires n <= |frames| == |answers|
  {
    if n == 0 then []
    else Accepted(frames, answers, n - 1)
         + if frames[n - 1].Sendable() && answers[n - 1] then [frames[n - 1]] else []
  }

  // What comes of a batch: a bus that never started takes nothing
  function TakenFrames(initialized: bool, frames: Batch, answers: seq<bool>): seq<Frame>
    requires |frames| == |answers|
  {
    if initialized then Accepted(frames, answers, |frames|) else []
  }

  function Refused(frames: Batch, answers: seq<bool>, n: nat): nat
    requires n <= |frames| == |answers|
  {
    if n == 0 then 0
    else Refused(frames, answers, n - 1)
         + if frames[n - 1].Sendable() && !answers[n - 1] then 1 else 0
  }

  // Successes plus errors are the frames with a legal length
  lemma {:induction false} EveryRequestCounted(frames: Batch, answers: seq<bool>, n: nat)
    requires n <= |frames| == |answers|
    ensures |Accepted(frames, answers, n)| + Refused(frames, answers, n) == |Requested(frames, n)| <= n
  {
    if n > 0 { EveryRequestCounted(frames, answers, n - 1); }
  }

  lemma IdMasks(id: nat)
    ensures BitAnd(id, 0x1FFF_FFFF) == id % ID29
    ensures BitAnd(id, 0x7FF) == id % ID11
  {
    Pow2Sum(11, 18);
    Pow2Sum(9, 9);
    assert Pow2(9) == 512 && Pow2(11) == 2048;
    MaskIsMod(id, 29);
    MaskIsMod(id, 11);
  }

  lemma StepProgress(frames: Batch, answers: seq<bool>, n: nat)
    requires n < |frames| == |answers|
    ensures |Accepted(frames, answers, n)| <= |Requested(frames, n)|
    ensures frames[n].dlc > 8 ==>
              Requested(frames, n + 1) == Requested(frames, n) &&
              Accepted(frames, answers, n + 1) == Accepted(frames, answers, n)
    ensures Refused(frames, answers, n + 1) ==
            Refused(frames, answers, n) + if frames[n].dlc <= 8 && !answers[n] then 1 else 0
    ensures frames[n].dlc <= 8 ==>
              |Requested(frames, n + 1)| == |Requested(frames, n)| + 1 &&
              Accepted(frames, answers, n + 1) ==
              Accepted(frames, answers, n) + if answers[n] then [frames[n]] else []
  {
    EveryRequestCounted(frames, answers, n);
  }

  lemma CountOneMore(c: uint32, n: nat)
    ensures Add32(Add32(c, n), 1) == Add32(c, n + 1)
  {
  }

  lemma NextSlot(start: nat, k: nat)
    ensures (SlotOf(start, k) + 1) % TX_SLOTS == SlotOf(start, k + 1)
  {
  }

  function SlotOf(start: nat, k: nat): nat { (start + k) % TX_SLOTS }

  lemma SlotsDiffer(start: nat, j: nat, k: nat)
    requires j < k < j + TX_SLOTS
    ensures SlotOf(start, j) != SlotOf(start, k)
  {
  }

  // Accepted frame k is still in its slot unless 32 further frames were put
  // to the hardware.
  ghost predicate InSlots(slots: seq<Element>, start: nat, accepted: seq<Frame>, requests: nat)
    requires |slots| == TX_SLOTS
  {
    forall k | 0 <= k < |accepted| && requests <= k + TX_SLOTS :: Carries(slots[SlotOf(start, k)], accepted[k])
  }

  // One request: its element goes to the slot after the last accepted frame
  lemma RequestKeepsSlots(slots: seq<Element>, start: nat, accepted: seq<Frame>, requests: nat, f: Frame, e: Element)
    requires |slots| == TX_SLOTS && |accepted| <= requests
    requires InSlots(slots, start, accepted, requests) && Carries(e, f)
    ensures var after := slots[SlotOf(start, |accepted|) := e];
            && InSlots(after, start, accepted, requests + 1)
            && InSlots(after, start, accepted + [f], requests + 1)
  {
    var after := slots[SlotOf(start, |accepted|) := e];
    forall k | 0 <= k < |accepted| && requests + 1 <= k + TX_SLOTS
      ensures Carries(after[SlotOf(start, k)], accepted[k])
    {
      SlotsDiffer(start, k, |accepted|);
    }
  }

  // The Tx side of one bus: its statistics, rotation index, shared element and
  // message RAM
  class Bus {
    const initialized: bool
    var bufIndex: nat
    var txCount: uint32
    var errorCount: uint32
    var element: Element
    const slots: array<Element>
    ghost var submitted: seq<Frame>  // every frame of every batch given to this bus
    ghost var accepted: seq<Frame>   // every frame its controller took

    // CAN_Init for one bus: `started` is whether the controller came up, `blank`
    // what MCAN_initTxBufElement leaves in the shared element
    constructor (started: bool, blank: Element)
      ensures Valid() && fresh(slots)
      ensures initialized == started && bufIndex == 0 && txCount == errorCount == 0
      ensures submitted == accepted == []
    {
      initialized := started;
      bufIndex := 0;
      txCount := 0;
      errorCount := 0;
      element := blank;
      slots := new Element[TX_SLOTS](_ => blank);
      submitted, accepted := [], [];
    }

    ghost predicate Valid()
      reads this
    {
      slots.Length == TX_SLOTS && bufIndex < TX_SLOTS
    }

    // CAN_TransmitBatch.  `answers[i]` is what MCAN_txBufAddReq answers if
    // frame i is put to it.
    method TransmitBatch(frames: Batch, answers: seq<bool>) returns (ret: int)
      requires Valid() && |answers| == |frames|
      modifies this, slots
      ensures Valid() && submitted == old(submitted) + frames
      ensures accepted == old(accepted) + TakenFrames(initialized, frames, answers)
      ensures !initialized ==> ret == -1 && unchanged(this`bufIndex, this`txCount, this`errorCount, slots)
      ensures initialized ==>
                var taken := Accepted(frames, answers, |frames|);
                && ret == |taken|
                && bufIndex == (old(bufIndex) + |taken|) % 32
                && txCount == Add32(old(txCount), |taken|)
                && errorCount == Add32(old(errorCount), Refused(frames, answers, |frames|))
                && InSlots(slots[..], old(bufIndex), taken, |Requested(frames, |frames|)|)
    {
      submitted, accepted := submitted + frames, accepted + TakenFrames(initialized, frames, answers);
      if !initialized {
        return -1;
      }
      if |frames| == 0 {
        return 0;
      }
      var bufIdx, successes := SendAll(frames, answers);
      txCount := Add32(txCount, successes);
      bufIndex := bufIdx;
      return successes;
    }

    // The loop over the frames of a batch
    method SendAll(frames: Batch, answers: seq<bool>) returns (bufIdx: nat, successes: nat)
      requires Valid() && |answers| == |frames|
      modifies this`element, this`errorCount, slots
      ensures Progress(frames, answers, |frames|, bufIdx, successes, old(errorCount))
    {
      bufIdx, successes := bufIndex, 0;
      for i := 0 to |frames|
        invariant Progress(frames, answers, i, bufIdx, successes, old(errorCount))
      {
        bufIdx, successes := SendNext(frames, answers, i, bufIdx, successes, old(errorCount));
      }
    }

    // The body of the loop
    method SendNext(frames: Batch, answers: seq<bool>, i: nat, bufIdx: nat, successes: nat, ghost errors: uint32)
      returns (bufIdx': nat, successes': nat)
      requires i < |frames| == |answers| && Progress(frames, answers, i, bufIdx, successes, errors)
      modifies this`element, this`errorCount, slots
      ensures Progress(frames, answers, i + 1, bufIdx', successes', errors)
    {
      bufIdx', successes' := bufIdx, successes;
      StepProgress(frames, answers, i);
      if frames[i].Sendable() {
        CountOneMore(errors, Refused(frames, answers, i));
        ghost var before := slots[..];
        Fill(frames[i], bufIdx);
        RequestKeepsSlots(before, bufIndex, Accepted(frames, answers, i), |Requested(frames, i)|, frames[i], element);
        if answers[i] {
          NextSlot(bufIndex, successes);
          successes' := successes + 1;
          bufIdx' := (bufIdx + 1) % TX_SLOTS;
        } else {
          errorCount := Add32(errorCount, 1);
        }
      }
    }

    ghost predicate Progress(frames: Batch, answers: seq<bool>, n: nat, bufIdx: nat, successes: nat, errors: uint32)
      requires n <= |frames| == |answers|
      reads this, slots
    {
      && Valid()
      && successes == |Accepted(frames, answers, n)|
      && bufIdx == SlotOf(bufIndex, successes)
      && errorCount == Add32(errors, Refused(frames, answers, n))
      && InSlots(slots[..], bufIndex, Accepted(frames, answers, n), |Requested(frames, n)|)
    }

    // Build the shared Tx element from a frame and write it to a slot
    method Fill(frame: Frame, slot: nat)
      requires Valid() && frame.Sendable() && slot < TX_SLOTS
      modifies this`element, slots
      ensures Carries(element, frame)
      ensures element.xtd == frame.flags % 2 && element.rtr == frame.flags / 2 % 2 && element.dlc == frame.dlc
      ensures element.id == if frame.flags % 2 == 1 then frame.canId % 0x2000_0000 else frame.canId % 0x800 * 0x4_0000
      ensures element.data[..frame.dlc] == frame.data[..frame.dlc]
      ensures slots[..] == old(slots[..])[slot := element]
    {
      IdMasks(frame.canId);
      if frame.flags % 2 == 1 {
        element := element.(id := BitAnd(frame.canId, 0x1FFF_FFFF), xtd := 1);
      } else {
        element := element.(id := BitAnd(frame.canId, 0x7FF) * SHIFT18, xtd := 0);
      }
      element := element.(dlc := frame.dlc, rtr := if (frame.flags / 2) % 2 == 1 then 1 else 0);
      CopyData(frame);
      slots[slot] := element;
    }

    method CopyData(frame: Frame)
      requires frame.Sendable()
      modifies this`element
      ensures element == old(element).(data := element.data)
      ensures element.data[..frame.dlc] == frame.data[..frame.dlc]
    {
      for i := 0 to frame.dlc
        invariant element == old(element).(data := element.data)
        invariant element.data[..i] == frame.data[..i]
      {
        element := element.(data := element.data[i := frame.data[i]]);
      }
    }
  }

  // A batch of at most 32 frames with legal lengths, whatever the hardware
  // answers: the accepted frames lie in consecutive slots in the order they
  // were submitted, and every one of them is still there.
  lemma SmallBatchIntact(slots: seq<Element>, start: nat, frames: Batch, answers: seq<bool>)
    requires |answers| == |frames| <= TX_SLOTS == |slots|
    requires InSlots(slots, start, Accepted(frames, answers, |frames|), |Requested(frames, |frames|)|)
    ensures forall k | 0 <= k < |Accepted(frames, answers, |frames|)| ::
              SlotOf(start, k) == (start + k) % 32 &&
              Carries(slots[SlotOf(start, k)], Accepted(frames, answers, |frames|)[k])
    ensures |Accepted(frames, answers, |frames|)| <= TX_SLOTS
  {
    EveryRequestCounted(frames, answers, |frames|);
  }
}
