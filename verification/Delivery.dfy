// Which of the frames handed to the CAN driver a controller takes, and what
// that means for one-time commands: the code ignores what the driver returns,
// so a command whose frame is not taken is lost.

module Delivery {
  import opened Bits
  import opened CanFrames
  import opened CanInterface
  import opened Core1Runs
  import opened Core1Spec
  import opened MotorCommand
  import MM = MotorMapping

  // ---------- one batch ----------

  // If it is taken, frame p of a batch is the accepted frame that as many were
  // taken before
  lemma {:induction false} AcceptedAt(frames: Batch, answers: seq<bool>, p: nat, n: nat)
    requires p < n <= |frames| == |answers| && frames[p].Sendable() && answers[p]
    ensures var number := |Accepted(frames, answers, p)|;
            number < |Accepted(frames, answers, n)| && Accepted(frames, answers, n)[number] == frames[p]
    decreases n
  {
    if p < n - 1 { AcceptedAt(frames, answers, p, n - 1); }
  }

  lemma {:induction false} AcceptedMore(frames: Batch, answers: seq<bool>, id: nat, n: nat)
    requires 0 < n <= |frames| == |answers|
    ensures var was, got, f := Accepted(frames, answers, n - 1), Accepted(frames, answers, n), frames[n - 1];
            var mine := f.Sendable() && answers[n - 1] && IdMotor(f.canId) == id;
            && FramesTo(got, id) == FramesTo(was, id) + (if mine then 1 else 0)
            && OneTimesTo(got, id) ==
               OneTimesTo(was, id) + (if mine && CommType(f.canId) != MOTION_CONTROL then 1 else 0)
  {
    var was, f := Accepted(frames, answers, n - 1), frames[n - 1];
    if f.Sendable() && answers[n - 1] {
      CountLast(was, f, id);
    } else {
      assert Accepted(frames, answers, n) == was + [] == was;
    }
  }

  // The frames for a motor among those taken of the first n, and the one-time
  // frames among these
  function MineOf(frames: Batch, answers: seq<bool>, id: nat, oneTime: bool, n: nat): nat
    requires n <= |frames| == |answers|
  {
    if n == 0 then 0
    else
      var f := frames[n - 1];
      MineOf(frames, answers, id, oneTime, n - 1)
      + if f.Sendable() && answers[n - 1] && IdMotor(f.canId) == id
           && (oneTime ==> CommType(f.canId) != MOTION_CONTROL) then 1 else 0
  }

  lemma {:induction false} MineIsCounted(frames: Batch, answers: seq<bool>, id: nat, n: nat)
    requires n <= |frames| == |answers|
    ensures FramesTo(Accepted(frames, answers, n), id) == MineOf(frames, answers, id, false, n)
    ensures OneTimesTo(Accepted(frames, answers, n), id) == MineOf(frames, answers, id, true, n)
    decreases n
  {
    if n > 0 {
      MineIsCounted(frames, answers, id, n - 1);
      AcceptedMore(frames, answers, id, n);
    }
  }

  // None of the first n frames is for a motor, or only frame p is
  predicate NoneFor(frames: Batch, id: nat, n: nat)
    requires n <= |frames|
  {
    forall k | 0 <= k < n :: IdMotor(frames[k].canId) != id
  }

  predicate OnlyFor(frames: Batch, id: nat, p: nat, n: nat)
    requires p < n <= |frames|
  {
    IdMotor(frames[p].canId) == id && forall k | 0 <= k < n :: k != p ==> IdMotor(frames[k].canId) != id
  }

  lemma {:induction false} MineIsNone(frames: Batch, answers: seq<bool>, id: nat, oneTime: bool, n: nat)
    requires n <= |frames| == |answers| && NoneFor(frames, id, n)
    ensures MineOf(frames, answers, id, oneTime, n) == 0
    decreases n
  {
    if n > 0 { MineIsNone(frames, answers, id, oneTime, n - 1); }
  }

  lemma {:induction false} MineIsOne(frames: Batch, answers: seq<bool>, id: nat, oneTime: bool, p: nat, n: nat)
    requires p < n <= |frames| == |answers| && OnlyFor(frames, id, p, n) && frames[p].Sendable()
    ensures MineOf(frames, answers, id, oneTime, n) ==
            if answers[p] && (oneTime ==> CommType(frames[p].canId) != MOTION_CONTROL) then 1 else 0
    decreases n
  {
    if p == n - 1 {
      MineIsNone(frames, answers, id, oneTime, n - 1);
    } else {
      MineIsOne(frames, answers, id, oneTime, p, n - 1);
    }
  }

  lemma NoneAccepted(frames: Batch, answers: seq<bool>, id: nat)
    requires |frames| == |answers| && NoneFor(frames, id, |frames|)
    ensures var got := Accepted(frames, answers, |frames|); FramesTo(got, id) == 0 && OneTimesTo(got, id) == 0
  {
    MineIsCounted(frames, answers, id, |frames|);
    MineIsNone(frames, answers, id, false, |frames|);
    MineIsNone(frames, answers, id, true, |frames|);
  }

  lemma OneAccepted(frames: Batch, answers: seq<bool>, id: nat, p: nat)
    requires p < |frames| == |answers| && OnlyFor(frames, id, p, |frames|) && frames[p].Sendable()
    ensures var got := Accepted(frames, answers, |frames|);
            && FramesTo(got, id) == (if answers[p] then 1 else 0)
            && OneTimesTo(got, id) == (if answers[p] && CommType(frames[p].canId) != MOTION_CONTROL then 1 else 0)
  {
    MineIsCounted(frames, answers, id, |frames|);
    MineIsOne(frames, answers, id, false, p, |frames|);
    MineIsOne(frames, answers, id, true, p, |frames|);
  }

  // ---------- one transmission ----------

  // Where in the list of its bus the frame of a selected motor stands
  function PlaceOf(motors: seq<MM.Config>, c: Core, i: nat): nat
    requires MM.TableOk(motors) && i < NUM_MOTORS
  {
    |BusFrames(motors, c, motors[i].canBus, i)|
  }

  // The bus of motor i started, and its controller takes the request made there
  predicate Takes(motors: seq<MM.Config>, up: Buses, c: Core, hw: Answering, i: nat)
    requires MM.TableOk(motors) && i < NUM_MOTORS
  {
    assert MM.InRange(motors[i]);
    up[motors[i].canBus] && hw(motors[i].canBus, PlaceOf(motors, c, i))
  }

  // What the controller of the bus of motor i takes of a transmission, and how
  // many frames it takes before that of motor i
  function GotFor(motors: seq<MM.Config>, up: Buses, c: Core, e: Event, i: nat): seq<Frame>
    requires MM.TableOk(motors) && i < NUM_MOTORS
  {
    assert MM.InRange(motors[i]);
    AcceptedOn(motors, up, c, e, motors[i].canBus)
  }

  function NumberOf(motors: seq<MM.Config>, c: Core, hw: Answering, i: nat): nat
    requires MM.TableOk(motors) && i < NUM_MOTORS && PlaceOf(motors, c, i) <= |BusBatch(motors, c, motors[i].canBus)|
  {
    var list := BusBatch(motors, c, motors[i].canBus);
    |Accepted(list, Answers(hw, motors[i].canBus, |list|), PlaceOf(motors, c, i))|
  }

  // Only the place of motor i holds a frame for it
  lemma OnlyAtPlace(motors: seq<MM.Config>, c: Core, i: nat, k: nat)
    requires MM.TableOk(motors) && MM.DistinctPairs(motors) && i < NUM_MOTORS
    requires k < |BusBatch(motors, c, motors[i].canBus)|
    ensures IdMotor(BusBatch(motors, c, motors[i].canBus)[k].canId) == motors[i].motorId ==>
              Selected(c, i) && k == PlaceOf(motors, c, i)
  {
    var bus := motors[i].canBus;
    var j := PlaceHasMotor(motors, c, bus, NUM_MOTORS, k);
    FrameInList(motors, c, j, NUM_MOTORS);
    MotorFrameAddress(motors, c, j);
    if motors[j].motorId == motors[i].motorId { DistinctIds(motors, i, j); }
  }

  // Of a clear transmission the controller takes exactly one frame for motor i
  // if the motor is selected, its bus started and the request made at its place
  // is taken, and none otherwise.
  lemma TakenExactly(motors: seq<MM.Config>, up: Buses, c: Core, e: Event, i: nat)
    requires MM.TableOk(motors) && MM.DistinctPairs(motors) && i < NUM_MOTORS && Clear(e)
    ensures var got, id, taken := GotFor(motors, up, c, e, i), motors[i].motorId,
              Selected(c, i) && Takes(motors, up, c, e.hw, i);
            && FramesTo(got, id) == (if taken then 1 else 0)
            && OneTimesTo(got, id) == (if taken && c.table[i].OneTime() then 1 else 0)
  {
    var bus, id, place := motors[i].canBus, motors[i].motorId, PlaceOf(motors, c, i);
    var list := BusBatch(motors, c, bus);
    assert MM.InRange(motors[i]);
    forall k | 0 <= k < |list| ensures IdMotor(list[k].canId) == id ==> Selected(c, i) && k == place {
      OnlyAtPlace(motors, c, i, k);
    }
    if Selected(c, i) {
      FrameInList(motors, c, i, NUM_MOTORS);
      FrameIsAddressed(motors[i], c.table[i]);
      MotorFrameAddress(motors, c, i);
      OneAccepted(list, Answers(e.hw, bus, |list|), id, place);
    } else {
      NoneAccepted(list, Answers(e.hw, bus, |list|), id);
    }
  }

  // It is the frame made from the command in the slot, and the one that
  // NumberOf were taken before.
  lemma TakenFrame(motors: seq<MM.Config>, up: Buses, c: Core, e: Event, i: nat)
    requires MM.TableOk(motors) && i < NUM_MOTORS && Clear(e) && Selected(c, i) && Takes(motors, up, c, e.hw, i)
    ensures PlaceOf(motors, c, i) <= |BusBatch(motors, c, motors[i].canBus)|
    ensures var got, number := GotFor(motors, up, c, e, i), NumberOf(motors, c, e.hw, i);
            number < |got| && got[number] == FrameFor(motors[i], c.table[i])
  {
    var bus, place := motors[i].canBus, PlaceOf(motors, c, i);
    var list := BusBatch(motors, c, bus);
    FrameInList(motors, c, i, NUM_MOTORS);
    FrameIsAddressed(motors[i], c.table[i]);
    AcceptedAt(list, Answers(e.hw, bus, |list|), place, |list|);
  }

  // ---------- the ledger of one-time commands ----------

  // One-time frames for motor i that its controller takes over a run
  function TakenOver(motors: seq<MM.Config>, up: Buses, c: Core, es: seq<Event>, i: nat): nat
    requires MM.TableOk(motors) && i < NUM_MOTORS
    decreases |es|
  {
    if es == [] then 0
    else OneTimesTo(GotFor(motors, up, c, es[0], i), motors[i].motorId)
         + TakenOver(motors, up, After(c, es[0]), es[1..], i)
  }

  // A pending command goes into a transmission on a bus that never started, or
  // its request is refused
  predicate OnDeadBus(motors: seq<MM.Config>, up: Buses, c: Core, e: Event, i: nat)
    requires MM.TableOk(motors) && i < NUM_MOTORS
  {
    assert MM.InRange(motors[i]);
    Clear(e) && c.table[i].OneTime() && !up[motors[i].canBus]
  }

  predicate IsRefused(motors: seq<MM.Config>, up: Buses, c: Core, e: Event, i: nat)
    requires MM.TableOk(motors) && i < NUM_MOTORS
  {
    assert MM.InRange(motors[i]);
    Clear(e) && c.table[i].OneTime() && up[motors[i].canBus] && !e.hw(motors[i].canBus, PlaceOf(motors, c, i))
  }

  function DeadBusOver(motors: seq<MM.Config>, up: Buses, c: Core, es: seq<Event>, i: nat): nat
    requires MM.TableOk(motors) && i < NUM_MOTORS
    decreases |es|
  {
    if es == [] then 0
    else (if OnDeadBus(motors, up, c, es[0], i) then 1 else 0) + DeadBusOver(motors, up, After(c, es[0]), es[1..], i)
  }

  function RefusedOver(motors: seq<MM.Config>, up: Buses, c: Core, es: seq<Event>, i: nat): nat
    requires MM.TableOk(motors) && i < NUM_MOTORS
    decreases |es|
  {
    if es == [] then 0
    else (if IsRefused(motors, up, c, es[0], i) then 1 else 0) + RefusedOver(motors, up, After(c, es[0]), es[1..], i)
  }

  lemma TransmitDelivers(motors: seq<MM.Config>, up: Buses, c: Core, e: Event, i: nat)
    requires MM.TableOk(motors) && MM.DistinctPairs(motors) && Inv(c) && i < NUM_MOTORS && e.Transmit?
    ensures Pending(c, i) ==
            OneTimesTo(GotFor(motors, up, c, e, i), motors[i].motorId)
            + (if OnDeadBus(motors, up, c, e, i) then 1 else 0) + (if IsRefused(motors, up, c, e, i) then 1 else 0)
            + Pending(After(c, e), i)
  {
    if !e.stop {
      TakenExactly(motors, up, c, e, i);
      TransmitInv(c);
      if c.table[i].OneTime() { PendingIsSelected(c, i); }
    }
  }

  // Over every run: each one-time command received for a motor is taken by its
  // controller in exactly one frame, lost on a bus that never started, lost to a
  // refusal, overwritten by a later command, or still pending.
  lemma {:induction false} DeliveryLedger(motors: seq<MM.Config>, up: Buses, c: Core, es: seq<Event>, i: nat)
    requires MM.TableOk(motors) && MM.DistinctPairs(motors) && Inv(c) && i < NUM_MOTORS
    ensures Pending(c, i) + Received(es, i) ==
            TakenOver(motors, up, c, es, i) + DeadBusOver(motors, up, c, es, i) + RefusedOver(motors, up, c, es, i)
            + Replaced(c, es, i) + Pending(RunCore(c, es), i)
    decreases |es|
  {
    if es != [] {
      AfterInv(c, es[0]);
      DeliveryLedger(motors, up, After(c, es[0]), es[1..], i);
      match es[0]
      case Drained(cmds) => DrainLedger(c, cmds, i);
      case Transmit(_, _) => TransmitDelivers(motors, up, c, es[0], i);
    }
  }

  // On a bus that started nothing counts as lost to a bus that did not, on one that
  // did not nothing is taken or refused, and nothing is refused by a controller
  // that takes every request.
  lemma {:induction false} LossesByBus(motors: seq<MM.Config>, up: Buses, c: Core, es: seq<Event>, i: nat)
    requires MM.TableOk(motors) && MM.DistinctPairs(motors) && i < NUM_MOTORS
    ensures motors[i].canBus < NUM_BUSES
    ensures up[motors[i].canBus] ==> DeadBusOver(motors, up, c, es, i) == 0
    ensures !up[motors[i].canBus] ==> TakenOver(motors, up, c, es, i) == 0 && RefusedOver(motors, up, c, es, i) == 0
    ensures TakesEverything(es, motors[i].canBus) ==> RefusedOver(motors, up, c, es, i) == 0
    decreases |es|
  {
    assert MM.InRange(motors[i]);
    if es != [] {
      LossesByBus(motors, up, After(c, es[0]), es[1..], i);
      if Clear(es[0]) { TakenExactly(motors, up, c, es[0], i); }
    }
  }

  // The controller of a bus takes every request of a run
  ghost predicate TakesEverything(es: seq<Event>, bus: nat) {
    forall k | 0 <= k < |es| && es[k].Transmit? :: forall place: nat :: es[k].hw(bus, place)
  }

  // Only these losses part delivery from handing over
  lemma {:induction false} HandedIsTakenOrLost(motors: seq<MM.Config>, up: Buses, c: Core, es: seq<Event>, i: nat)
    requires MM.TableOk(motors) && MM.DistinctPairs(motors) && Inv(c) && i < NUM_MOTORS
    ensures SentTo(motors, c, es, i) ==
            TakenOver(motors, up, c, es, i) + DeadBusOver(motors, up, c, es, i) + RefusedOver(motors, up, c, es, i)
  {
    DeliveryLedger(motors, up, c, es, i);
    OneTimeLedger(motors, c, es, i);
  }

  // The frames counted as taken are those in the run's accepted frames
  lemma {:induction false} TakenIsAccepted(motors: seq<MM.Config>, up: Buses, c: Core, es: seq<Event>, i: nat)
    requires MM.TableOk(motors) && i < NUM_MOTORS
    ensures motors[i].canBus < NUM_BUSES
    ensures OneTimesTo(AcceptedInRun(motors, up, c, es, motors[i].canBus), motors[i].motorId) ==
            TakenOver(motors, up, c, es, i)
    decreases |es|
  {
    assert MM.InRange(motors[i]);
    if es != [] {
      TakenIsAccepted(motors, up, After(c, es[0]), es[1..], i);
      var rest := AcceptedInRun(motors, up, After(c, es[0]), es[1..], motors[i].canBus);
      CountConcat(GotFor(motors, up, c, es[0], i), rest, motors[i].motorId);
    }
  }

  // ---------- when a command is transmitted ----------

  // Event m of a run is the first clear transmission after command n of the run
  // was drained
  ghost predicate FirstClearAfter(es: seq<Event>, n: nat, m: nat) {
    && m < |es| && Clear(es[m]) && n < |Consumed(es[..m])|
    && forall j | 0 <= j < m && Clear(es[j]) :: |Consumed(es[..j])| <= n
  }

  function Drawn(e: Event): seq<Cmd> { if e.Drained? then e.cmds else [] }

  lemma ConsumedPrefix(es: seq<Event>, m: nat)
    requires m < |es|
    ensures Consumed(es[..m + 1]) == Drawn(es[0]) + Consumed(es[1..][..m])
  {
    assert es[..m + 1][1..] == es[1..][..m] && es[..m + 1][0] == es[0];
  }

  lemma PrefixStep(c: Core, es: seq<Event>, m: nat)
    requires m < |es|
    ensures RunCore(c, es[..m + 1]) == RunCore(After(c, es[0]), es[1..][..m])
    ensures Consumed(es[..m + 1]) == Drawn(es[0]) + Consumed(es[1..][..m])
  {
    ConsumedPrefix(es, m);
    assert es[..m + 1][1..] == es[1..][..m] && es[..m + 1][0] == es[0];
  }

  lemma FirstClearShifts(es: seq<Event>, n: nat, m: nat)
    requires es != [] && FirstClearAfter(es[1..], n, m)
    ensures FirstClearAfter(es, n + |Drawn(es[0])|, m + 1)
  {
    var own := |Drawn(es[0])|;
    ConsumedPrefix(es, m);
    forall j | 0 <= j < m + 1 && Clear(es[j]) ensures |Consumed(es[..j])| <= n + own {
      if j > 0 {
        assert es[j] == es[1..][j - 1];
        ConsumedPrefix(es, j - 1);
      } else {
        assert es[..0] == [];
      }
    }
  }

  // A command that holds its slot, marked, keeps it until the first clear
  // transmission if no command for its motor is drained.
  lemma {:induction false} HeldUntilClear(c: Core, es: seq<Event>, i: nat, last: nat) returns (m: nat)
    requires Inv(c) && i < NUM_MOTORS && Bit(c.mask, i) && !Addressed(Consumed(es), i)
    requires last < |es| && Clear(es[last])
    ensures m <= last && Clear(es[m]) && forall j | 0 <= j < m :: !Clear(es[j])
    ensures RunCore(c, es[..m]).table[i] == c.table[i] && Bit(RunCore(c, es[..m]).mask, i)
    decreases |es|
  {
    if Clear(es[0]) {
      m := 0;
      assert es[..0] == [];
    } else {
      var after := After(c, es[0]);
      StillHeld(c, es, i);
      AfterInv(c, es[0]);
      m := HeldUntilClear(after, es[1..], i, last - 1);
      PrefixStep(c, es, m);
      forall j | 0 <= j < m + 1 ensures !Clear(es[j]) { if j > 0 { assert es[j] == es[1..][j - 1]; } }
      m := m + 1;
    }
  }

  lemma StillHeld(c: Core, es: seq<Event>, i: nat)
    requires es != [] && !Clear(es[0]) && i < NUM_MOTORS && Bit(c.mask, i) && !Addressed(Consumed(es), i)
    ensures After(c, es[0]).table[i] == c.table[i] && Bit(After(c, es[0]).mask, i) && !Addressed(Consumed(es[1..]), i)
  {
    var own, rest := Drawn(es[0]), Consumed(es[1..]);
    assert Consumed(es) == own + rest;
    forall k | 0 <= k < |rest| ensures rest[k].motorId as nat != i { assert Consumed(es)[|own| + k] == rest[k]; }
    forall k | 0 <= k < |own| ensures own[k].motorId as nat != i { assert Consumed(es)[k] == own[k]; }
    TakeAllMeans(c, own, i);
  }

  // A command is in its slot, and marked
  ghost predicate Holds(c: Core, cmd: Cmd) {
    var i := cmd.motorId as nat;
    Inv(c) && i < NUM_MOTORS && c.table[i] == cmd && Bit(c.mask, i)
  }

  // If a clear transmission comes after command n was drained, and no later
  // command of the run is for its motor, the first one finds the command in its
  // slot, and marked.
  lemma {:induction false} FoundInSlot(c: Core, es: seq<Event>, n: nat, last: nat) returns (m: nat)
    requires Inv(c) && LastForMotor(Consumed(es), n) && Consumed(es)[n].motorId as nat < NUM_MOTORS
    requires last < |es| && Clear(es[last]) && n < |Consumed(es[..last])|
    ensures m <= last && FirstClearAfter(es, n, m)
    ensures Holds(RunCore(c, es[..m]), Consumed(es)[n])
    decreases |es|
  {
    var own, rest := Drawn(es[0]), Consumed(es[1..]);
    assert last > 0 by { assert es[..0] == []; }
    PrefixStep(c, es, last - 1);
    AfterInv(c, es[0]);
    assert Consumed(es) == own + rest;
    if n < |own| {
      m := FoundInDrain(c, es, n, last);
    } else {
      SameFromRest(own, rest, n);
      m := FoundInSlot(After(c, es[0]), es[1..], n - |own|, last - 1);
      PrefixStep(c, es, m);
      FirstClearShifts(es, n - |own|, m);
      m := m + 1;
    }
  }

  lemma SameFromRest(own: seq<Cmd>, rest: seq<Cmd>, n: nat)
    requires |own| <= n && LastForMotor(own + rest, n)
    ensures LastForMotor(rest, n - |own|) && rest[n - |own|] == (own + rest)[n]
  {
    forall j | n - |own| < j < |rest| ensures rest[j].motorId != rest[n - |own|].motorId {
      assert (own + rest)[j + |own|] == rest[j];
    }
  }

  // The first event drains it
  lemma {:induction false} FoundInDrain(c: Core, es: seq<Event>, n: nat, last: nat) returns (m: nat)
    requires Inv(c) && LastForMotor(Consumed(es), n) && Consumed(es)[n].motorId as nat < NUM_MOTORS
    requires last < |es| && Clear(es[last]) && es[0].Drained? && n < |es[0].cmds|
    ensures m <= last && FirstClearAfter(es, n, m)
    ensures Holds(RunCore(c, es[..m]), Consumed(es)[n])
  {
    var own, rest := es[0].cmds, Consumed(es[1..]);
    var i := own[n].motorId as nat;
    LastInDrain(own, rest, n);
    LatestIs(own, n);
    TakeAllMeans(c, own, i);
    TakeAllInv(c, own);
    var k := HeldUntilClear(TakeAll(c, own), es[1..], i, last - 1);
    PrefixStep(c, es, k);
    RunInv(c, es[..k + 1]);
    forall j | 0 <= j < k + 1 ensures !Clear(es[j]) { if j > 0 { assert es[j] == es[1..][j - 1]; } }
    m := k + 1;
  }

  lemma LastInDrain(own: seq<Cmd>, rest: seq<Cmd>, n: nat)
    requires n < |own| && LastForMotor(own + rest, n)
    ensures LastForMotor(own, n) && (own + rest)[n] == own[n] && !Addressed(rest, own[n].motorId as nat)
  {
    forall j | n < j < |own| ensures own[j].motorId != own[n].motorId { assert (own + rest)[j] == own[j]; }
    forall j | 0 <= j < |rest| ensures rest[j].motorId as nat != own[n].motorId as nat {
      assert (own + rest)[|own| + j] == rest[j];
    }
  }

  // A clear transmission that finds command cmd in its slot, and marked, sends
  // its frame unless it is a motion command beside a one-time command, and the
  // controller takes the frame exactly if the bus started and the request at its
  // place is taken.
  predicate Goes(motors: seq<MM.Config>, up: Buses, c: Core, e: Event, cmd: Cmd)
    requires MM.TableOk(motors) && cmd.motorId as nat < NUM_MOTORS && Clear(e)
  {
    !(HasOneTime(c.table) && cmd.mode == MODE_MIT_CONTROL) && Takes(motors, up, c, e.hw, cmd.motorId as nat)
  }

  lemma HeldIsDelivered(motors: seq<MM.Config>, up: Buses, c: Core, e: Event, cmd: Cmd)
    requires MM.TableOk(motors) && MM.DistinctPairs(motors) && Clear(e) && Holds(c, cmd)
    ensures var i := cmd.motorId as nat;
            var got, goes := GotFor(motors, up, c, e, i), Goes(motors, up, c, e, cmd);
            && FramesTo(got, motors[i].motorId) == (if goes then 1 else 0)
            && (goes ==> FrameFor(motors[i], cmd) in got)
  {
    var i := cmd.motorId as nat;
    TakenExactly(motors, up, c, e, i);
    assert Selected(c, i) <==> !(HasOneTime(c.table) && cmd.mode == MODE_MIT_CONTROL);
    if Goes(motors, up, c, e, cmd) {
      TakenFrame(motors, up, c, e, i);
      assert GotFor(motors, up, c, e, i)[NumberOf(motors, c, e.hw, i)] == FrameFor(motors[i], cmd);
    }
  }

  // ---------- after a disable ----------

  // In the cycle after a disable for any motor, if nothing was drained meanwhile,
  // the controller of every motor whose bus started and whose request it takes
  // takes one motion frame for it, which asks for nothing but damping.
  lemma QuietAfterDisable(motors: seq<MM.Config>, up: Buses, c: Core, e: Event, i: nat)
    requires MM.TableOk(motors) && MM.DistinctPairs(motors) && Inv(c) && i < NUM_MOTORS && Clear(e)
    requires exists j :: 0 <= j < NUM_MOTORS && c.table[j].mode == 0
    requires Takes(motors, up, Transmitted(c), e.hw, i)
    ensures var got, id := GotFor(motors, up, Transmitted(c), e, i), motors[i].motorId;
            && FramesTo(got, id) == 1
            && exists f :: f in got && f.canId % 0x100 == id && f.canId / 0x100_0000 == 1 && ReadsRest(motors[i], f)
  {
    var s := Transmitted(c);
    TransmitInv(c);
    NothingNewSendsAll(s, i);
    TakenExactly(motors, up, s, e, i);
    TakenFrame(motors, up, s, e, i);
    ResetByTransmission(c, i);
    RestIsRead(motors[i], s.table[i], c.table[i]);
    FrameInNumbers(motors[i], s.table[i]);
    assert GotFor(motors, up, s, e, i)[NumberOf(motors, s, e.hw, i)] == MotorFrame(motors, s, i);
  }

  // ---------- a disable that is lost ----------

  lemma OneCommand(c: Core, cmd: Cmd)
    ensures TakeAll(c, [cmd]) == Take(c, cmd)
  {
    assert [cmd][..0] == [];
  }

  // A disable for motor i, drained and transmitted, whose frame is not taken:
  // its slot is idle after the cycle, and no one-time frame for the motor is
  // taken in that cycle or in any later run without a new one-time command.
  lemma DisableLost(motors: seq<MM.Config>, up: Buses, c: Core, disable: Cmd, hw: Answering, later: seq<Event>)
    requires MM.TableOk(motors) && MM.DistinctPairs(motors) && Inv(c)
    requires disable.mode == MODE_DISABLE && disable.motorId as nat < NUM_MOTORS
    requires !Takes(motors, up, Take(c, disable), hw, disable.motorId as nat)
    requires Received(later, disable.motorId as nat) == 0
    ensures var i, cycle := disable.motorId as nat, CycleEvents([disable], false, hw);
            && Received(cycle, i) == 1
            && Resting(RunCore(c, cycle).table[i], disable)
            && TakenOver(motors, up, c, cycle + later, i) == 0
  {
    var i, d, e := disable.motorId as nat, Take(c, disable), Transmit(false, hw);
    OneCommand(c, disable);
    TakeInv(c, disable);
    OneCycle(motors, c, [disable], e, 0);
    LostAtOnce(motors, up, d, e, later, i);
    TwoEvents([disable], e, later);
    assert d.table[i].mode == MODE_DISABLE;
    OneDisable(disable, hw);
  }

  lemma OneDisable(disable: Cmd, hw: Answering)
    requires disable.mode == MODE_DISABLE
    ensures Received(CycleEvents([disable], false, hw), disable.motorId as nat) == 1
  {
    var es, i := CycleEvents([disable], false, hw), disable.motorId as nat;
    assert [disable][..0] == [] && OneTimeFor(disable, i) && OneTimes([disable], i) == 1;
    assert es[1..] == [es[1]] && es[1..][1..] == [];
    assert Received(es[1..], i) == 0;
  }

  lemma TwoEvents(cmds: seq<Cmd>, e: Event, later: seq<Event>)
    requires e.Transmit?
    ensures var es := CycleEvents(cmds, e.stop, e.hw) + later;
            es[0] == Drained(cmds) && es[1..] == [e] + later
  {
  }

  lemma {:induction false} LostAtOnce(motors: seq<MM.Config>, up: Buses, d: Core, e: Event, later: seq<Event>, i: nat)
    requires MM.TableOk(motors) && MM.DistinctPairs(motors) && Inv(d) && i < NUM_MOTORS
    requires Clear(e) && !Takes(motors, up, d, e.hw, i) && Received(later, i) == 0
    ensures TakenOver(motors, up, d, [e] + later, i) == 0
  {
    TakenExactly(motors, up, d, e, i);
    TransmitInv(d);
    DeliveryLedger(motors, up, Transmitted(d), later, i);
    assert ([e] + later)[1..] == later;
  }
}
