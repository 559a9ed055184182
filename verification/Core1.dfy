// Core 1's part of the command path as it runs: the receive buffer, the working
// table and the update mask change in place, frames are grouped per bus in a
// fixed buffer and handed to the CAN controllers.

module Core1 {
  import opened Bits
  import opened ByteWords
  import opened CanFrames
  import opened CanInterface
  import opened Core1Runs
  import opened Core1Spec
  import opened Delivery
  import opened Feed
  import opened MotorCommand
  import opened RingBuffer
  import MM = MotorMapping

  const MAX_DRAIN_PER_CYCLE := 10
  const CYCLE_BYTES := BATCH_BYTES * MAX_DRAIN_PER_CYCLE

  // ---------- transmit: the parts on buffers of their own ----------

  ghost predicate BuffersOk(frames: array2<Frame>, frameCount: array<nat>, framesPtr: array<int>) {
    && frames.Length0 == NUM_BUSES && frames.Length1 == NUM_MOTORS
    && frameCount.Length == NUM_BUSES && framesPtr.Length == NUM_BUSES
    && (frameCount as object) != framesPtr
  }

  // Row `bus` of the frame buffer starts with the frames of the first n motors
  ghost predicate RowHolds(frames: array2<Frame>, bus: nat, fs: seq<Frame>)
    requires bus < frames.Length0
    reads frames
  {
    |fs| <= frames.Length1 && forall k | 0 <= k < |fs| :: frames[bus, k] == fs[k]
  }

  // The rows hold the given lists, and every bus with frames has its pointer
  // set, to its own row
  ghost predicate Built(
    lists: seq<seq<Frame>>, frames: array2<Frame>, frameCount: array<nat>, framesPtr: array<int>)
    requires |lists| == NUM_BUSES && BuffersOk(frames, frameCount, framesPtr)
    reads frames, frameCount, framesPtr
  {
    forall bus | 0 <= bus < NUM_BUSES ::
      && frameCount[bus] == |lists[bus]|
      && RowHolds(frames, bus, lists[bus])
      && (frameCount[bus] > 0 ==> framesPtr[bus] == bus)
  }

  // Append to the row of a bus
  method AppendFrame(
    ghost lists: seq<seq<Frame>>, bus: nat, f: Frame,
    frames: array2<Frame>, frameCount: array<nat>, framesPtr: array<int>)
    requires |lists| == NUM_BUSES && BuffersOk(frames, frameCount, framesPtr) && bus < NUM_BUSES
    requires Built(lists, frames, frameCount, framesPtr) && |lists[bus]| < NUM_MOTORS
    modifies frames, frameCount, framesPtr
    ensures Built(lists[bus := lists[bus] + [f]], frames, frameCount, framesPtr)
  {
    var k := frameCount[bus];
    assert RowHolds(frames, bus, lists[bus]);
    frames[bus, k] := f;
    frameCount[bus] := k + 1;
    framesPtr[bus] := bus;
  }

  // A ring that holds whole commands
  ghost predicate RingFramed(ring: RingBuf)
    reads ring, ring.data
  {
    ring.Valid() && |ring.sent| % CMD_SIZE == 0 && |ring.taken| % CMD_SIZE == 0
  }

  function AtMost(n: int, most: int): int { if n > most then most else n }

  // One read takes 552 bytes at most, ten of them 5520
  lemma ReadInNumbers(backlog: nat)
    ensures AtMost(backlog, BATCH_BYTES) == if backlog > 552 then 552 else backlog
    ensures AtMost(backlog, CYCLE_BYTES) == if backlog > 5520 then 5520 else backlog
  {
  }

  ghost function TrafficOf(bus: Bus): Traffic
    reads bus
  {
    Traffic(bus.submitted, bus.accepted)
  }

  // A bus that had seen `before`, with its rotation at `index`, has been given a
  // list of frames; its controller took those it answered for, and they are in
  // consecutive Tx slots in the order of the list
  ghost predicate Sent(bus: Bus, list: seq<Frame>, answers: seq<bool>, before: Traffic, index: nat)
    requires |list| == |answers|
    reads bus, bus.slots
  {
    && bus.slots.Length == TX_SLOTS
    && |list| <= NUM_MOTORS
    && TrafficOf(bus) == before.Plus(Traffic(list, TakenFrames(bus.initialized, list, answers)))
    && (bus.initialized ==>
          forall k | 0 <= k < |Accepted(list, answers, |list|)| ::
            Carries(bus.slots[SlotOf(index, k)], Accepted(list, answers, |list|)[k]))
  }

  // The Tx slot of a frame that was taken: as many after the slot the rotation
  // stood at as frames of the batch were taken before it
  lemma FrameInTxSlot(motors: seq<MM.Config>, c: Core, hw: Answering, bus: Bus, before: Traffic, index: nat, i: nat)
    requires MM.TableOk(motors) && i < NUM_MOTORS && Selected(c, i)
    requires bus.initialized && hw(motors[i].canBus, PlaceOf(motors, c, i))
    requires var list := BusBatch(motors, c, motors[i].canBus);
             Sent(bus, list, Answers(hw, motors[i].canBus, |list|), before, index)
    ensures PlaceOf(motors, c, i) <= |BusBatch(motors, c, motors[i].canBus)|
    ensures var e, f := bus.slots[(index + NumberOf(motors, c, hw, i)) % 32], FrameFor(motors[i], c.table[i]);
            e.id == f.canId && e.xtd == 1 && e.rtr == 0 && e.dlc == 8 && e.data == f.data
  {
    var list, place := BusBatch(motors, c, motors[i].canBus), PlaceOf(motors, c, i);
    FrameInList(motors, c, i, NUM_MOTORS);
    FrameIsAddressed(motors[i], c.table[i]);
    AcceptedAt(list, Answers(hw, motors[i].canBus, |list|), place, |list|);
    CarriesMotorFrame(bus.slots[SlotOf(index, NumberOf(motors, c, hw, i))], FrameFor(motors[i], c.table[i]));
  }

  lemma CarriesMotorFrame(e: Element, f: Frame)
    requires Carries(e, f) && f.dlc == 8 && f.Extended() && !f.Remote() && f.canId < ID29
    ensures e.id == f.canId && e.xtd == 1 && e.rtr == 0 && e.dlc == 8 && e.data == f.data
  {
    assert e.data == e.data[..8] && f.data == f.data[..8];
  }

  // The body of the build loop: one frame from one command
  method BuildFrame(config: MM.Config, cmd: Cmd) returns (frame: Frame)
    requires config.limits.Ordered() && config.motorId < 0x100
    ensures frame == FrameFor(config, cmd)
  {
    var commType, isOneTime;
    if cmd.mode == MODE_ENABLE {
      commType, isOneTime := MOTOR_ENABLE, true;
    } else if cmd.mode == MODE_DISABLE {
      commType, isOneTime := MOTOR_STOP, true;
    } else if cmd.mode == MODE_MECH_ZERO || cmd.mode == MODE_ZERO_STA || cmd.mode == MODE_ZERO_STA_MECH {
      commType, isOneTime := SET_POS_ZERO, true;
    } else {
      commType, isOneTime := MOTION_CONTROL, false;
    }
    if isOneTime {
      OrZero(commType * 0x100_0000);
      IdFields(commType, 0, config.motorId);
      var data: Payload := [0, 0, 0, 0, 0, 0, 0, 0];
      if cmd.mode == 2 || cmd.mode == 4 {
        data := data[0 := 1];
      }
      frame := Frame(BitOr(commType * 0x100_0000, config.motorId), 8, data, EXTENDED);
    } else {
      frame := BuildMotionFrame(config, cmd);
    }
  }

  method BuildMotionFrame(config: MM.Config, cmd: Cmd) returns (frame: Frame)
    requires config.limits.Ordered() && config.motorId < 0x100
    ensures frame == MotionFrame(config.motorId, LevelsFor(config, cmd))
  {
    var torque := LevelFor(config, cmd, Torque);
    var pos := LevelFor(config, cmd, Position);
    var vel := LevelFor(config, cmd, Velocity);
    var kp := LevelFor(config, cmd, Kp);
    var kd := LevelFor(config, cmd, Kd);
    var data: Payload := [High(pos), Low(pos), High(vel), Low(vel), High(kp), Low(kp), High(kd), Low(kd)];
    IdFields(MOTION_CONTROL, torque, config.motorId);
    frame := Frame(FrameId(MOTION_CONTROL, torque, config.motorId), 8, data, EXTENDED);
  }

  method CommandAt(bytes: seq<Byte>, i: nat) returns (c: Cmd)
    requires CMD_SIZE * i + CMD_SIZE <= |bytes|
    ensures i < |DecodeAll(bytes)| && c == DecodeAll(bytes)[i]
  {
    DecodeAt(bytes, i);
    c := Decode(Piece(bytes, i));
  }

  // What one cycle meets: an IPC notification or none, the packets Core 0
  // sends meanwhile, the stop flag, and the answers of the CAN controllers
  datatype CycleInput = CycleInput(notified: bool, feed: seq<seq<Packet>>, stop: bool, hw: Answering)

  class Pipeline {
    const motors: seq<MM.Config>
    const ring: RingBuf
    const buffer: array<Cmd>
    const working: array<Cmd>
    const frames: array2<Frame>
    const buses: seq<Bus>
    var mask: nat
    var ringReady: bool
    var commandsReady: bool

    ghost predicate Shape() {
      && MM.TableOk(motors)
      && buffer.Length == NUM_MOTORS && working.Length == NUM_MOTORS && buffer != working
      && frames.Length0 == NUM_BUSES && frames.Length1 == NUM_MOTORS
      && |buses| == NUM_BUSES
      && (forall a, b | 0 <= a < b < |buses| :: buses[a] != buses[b] && buses[a].slots != buses[b].slots)
      && (forall b | b in buses :: (b.slots as object) != ring.data)
    }

    ghost function State(): Core
      requires Shape()
      reads this, working
    {
      Core(working[..], mask)
    }

    // Core 1 on arrays that hold the defaults, a ring Core 0 has set up and buses
    // that CAN_Init has.  The arrays are the static buffers.
    constructor (motors: seq<MM.Config>, ring: RingBuf, buffer: array<Cmd>, working: array<Cmd>,
                 frames: array2<Frame>, buses: seq<Bus>)
      requires MM.TableOk(motors) && |buses| == NUM_BUSES
      requires buffer.Length == NUM_MOTORS && working.Length == NUM_MOTORS && buffer != working
      requires frames.Length0 == NUM_BUSES && frames.Length1 == NUM_MOTORS
      requires forall a, b | 0 <= a < b < |buses| :: buses[a] != buses[b] && buses[a].slots != buses[b].slots
      requires forall b | b in buses :: b.Valid() && (b.slots as object) != ring.data
      requires RingFramed(ring) && (buffer as object) != ring.data && (working as object) != ring.data
      requires forall i: nat | i < NUM_MOTORS :: working[i] == DefaultCmd(i, working[i])
      ensures Valid() && !ringReady && !commandsReady
      ensures this.working == working && this.buffer == buffer
      ensures this.motors == motors && this.ring == ring && this.frames == frames && this.buses == buses
      ensures State() == Core(working[..], ALL_UPDATED) && !HasOneTime(State().table)
      ensures forall i: nat | i < NUM_MOTORS :: Selected(State(), i)
    {
      this.motors := motors;
      this.ring := ring;
      this.buffer := buffer;
      this.working := working;
      this.frames := frames;
      this.buses := buses;
      mask := ALL_UPDATED;
      ringReady := false;
      commandsReady := false;
      new;
      DefaultsInv(State());
    }

    // gateway_ringbuf_core1_init, which verifies nothing and always succeeds,
    // and the flag set after it
    method StartRing()
      requires Valid()
      modifies this`ringReady
      ensures Valid() && ringReady && State() == old(State())
    {
      ringReady := true;
    }

    ghost predicate BusesValid()
      reads buses
    {
      forall b | b in buses :: b.Valid()
    }

    // ---------- receiving ----------

    // Only whole commands are ever written to or read from the ring
    ghost predicate Framed()
      reads ring, ring.data
    {
      RingFramed(ring)
    }

    // What Core 0 may do between two steps of Core 1: send any packets.  A
    // packet that finds the ring full is refused and changes nothing.
    method Arrivals(packets: seq<Packet>)
      requires Framed()
      modifies ring, ring.data
      ensures Framed() && ring.taken == old(ring.taken) && old(ring.sent) <= ring.sent
      ensures Sends(packets, old(ring.sent), ring.sent)
    {
      SendsNone([], ring.sent);
      for i := 0 to |packets|
        invariant Framed() && ring.taken == old(ring.taken) && old(ring.sent) <= ring.sent
        invariant Sends(packets[..i], old(ring.sent), ring.sent)
      {
        ghost var between := ring.sent;
        Arrive(packets[i]);
        SendsOne(packets[i], between, ring.sent);
        SendsBoth(packets[..i], [packets[i]], old(ring.sent), between, ring.sent);
        assert packets[..i + 1] == packets[..i] + [packets[i]];
      }
      assert packets[..|packets|] == packets;
    }

    method Arrive(packet: Packet)
      requires Framed()
      modifies ring, ring.data
      ensures Framed() && ring.taken == old(ring.taken)
      ensures ring.sent == if packet != [] && |old(ring.Contents())| + CMD_SIZE * |packet| <= ring.mask
                           then old(ring.sent) + EncodeAll(packet) else old(ring.sent)
    {
      WholeMore(ring.sent, packet);
      var _, _ := ring.Write(EncodeAll(packet));
    }

    method CheckAvailable() returns (available: bool)
      requires Framed()
      ensures available <==> ringReady && |ring.taken| < |ring.sent|
    {
      if !ringReady {
        return false;
      }
      var n := ring.GetAvailable();
      WholeBacklog();
      return n >= CMD_SIZE;
    }

    lemma WholeBacklog()
      requires Framed()
      ensures |ring.Contents()| == |ring.sent| - |ring.taken|
      ensures |ring.Contents()| % CMD_SIZE == 0
    {
      WholeSum(|ring.sent|, |ring.taken|);
    }

    // receive_motor_commands.  `meanwhile` is what Core 0 sends between the
    // availability check and the read.
    method Receive(meanwhile: seq<Packet>) returns (count: nat)
      requires Shape() && Framed()
      modifies ring, ring.data, buffer
      ensures Framed() && old(ring.sent) <= ring.sent && old(ring.taken) <= ring.taken
      ensures Sends(meanwhile, old(ring.sent), ring.sent)
      ensures |ring.taken| == |old(ring.taken)| + CMD_SIZE * count
      ensures CMD_SIZE * count == if ringReady then AtMost(|old(ring.sent)| - |old(ring.taken)|, BATCH_BYTES) else 0
      ensures buffer[..count] == DecodeAll(ring.taken[|old(ring.taken)|..])
    {
      SendsNone(meanwhile, ring.sent);
      if !ringReady {
        return 0;
      }
      var available := ring.GetAvailable();
      WholeBacklog();
      if available < CMD_SIZE {
        return 0;
      }
      count := ReadAfter(meanwhile, AtMost(available, BATCH_BYTES));
    }

    method ReadAfter(meanwhile: seq<Packet>, bytesToRead: nat) returns (count: nat)
      requires Shape() && Framed() && bytesToRead % CMD_SIZE == 0
      requires 0 < bytesToRead <= BATCH_BYTES && bytesToRead <= |ring.sent| - |ring.taken|
      modifies ring, ring.data, buffer
      ensures Framed() && old(ring.sent) <= ring.sent && old(ring.taken) <= ring.taken
      ensures Sends(meanwhile, old(ring.sent), ring.sent)
      ensures |ring.taken| == |old(ring.taken)| + bytesToRead && bytesToRead == CMD_SIZE * count
      ensures buffer[..count] == DecodeAll(ring.taken[|old(ring.taken)|..])
    {
      Arrivals(meanwhile);
      count := ReadCommands(bytesToRead);
    }

    // The read itself, into a buffer of 23 commands.  It is never refused.
    method ReadCommands(bytesToRead: nat) returns (count: nat)
      requires Shape() && Framed() && bytesToRead % CMD_SIZE == 0
      requires 0 < bytesToRead <= BATCH_BYTES && bytesToRead <= |ring.sent| - |ring.taken|
      modifies ring, ring.data, buffer
      ensures Framed() && ring.sent == old(ring.sent) && old(ring.taken) <= ring.taken
      ensures |ring.taken| == |old(ring.taken)| + bytesToRead
      ensures bytesToRead == CMD_SIZE * count
      ensures buffer[..count] == DecodeAll(ring.taken[|old(ring.taken)|..])
    {
      var raw := new Byte[BATCH_BYTES];
      count := 0;
      var ret, bytesRead := ReadBytes(raw, bytesToRead);
      if ret == OK && bytesRead > 0 {
        count := bytesRead / CMD_SIZE;
        Unpack(raw, count);
      }
    }

    method ReadBytes(raw: array<Byte>, n: nat) returns (ret: Code, bytesRead: nat)
      requires Framed() && 0 < n <= |ring.sent| - |ring.taken| && n % CMD_SIZE == 0
      requires n <= raw.Length && n < TWO32 && raw != ring.data
      modifies ring, raw
      ensures Framed() && ring.sent == old(ring.sent)
      ensures ret == OK && bytesRead == n == CMD_SIZE * (n / CMD_SIZE)
      ensures old(ring.taken) <= ring.taken && ring.taken[|old(ring.taken)|..] == raw[..n]
    {
      ghost var got := ring.Contents()[..n];
      WholeSum(|ring.taken|, n);
      WholeCount(n);
      ret, bytesRead := ring.Read(raw, n);
      assert raw[..n] == got == ring.taken[|old(ring.taken)|..];
    }

    // The receive buffer is read as an array of commands
    method Unpack(raw: array<Byte>, count: nat)
      requires Shape() && count <= NUM_MOTORS && CMD_SIZE * count <= raw.Length
      modifies buffer
      ensures buffer[..count] == DecodeAll(raw[..CMD_SIZE * count])
    {
      var bytes := raw[..CMD_SIZE * count];
      for i := 0 to count
        invariant forall j | 0 <= j < i :: buffer[j] == DecodeAll(bytes)[j]
      {
        buffer[i] := CommandAt(bytes, i);
      }
    }

    // ---------- copy_motor_commands_to_working ----------

    method CopyToWorking(count: nat)
      requires Shape()
      modifies working, this`mask
      ensures State() == if 0 < count <= NUM_MOTORS then TakeAll(old(State()), buffer[..count]) else old(State())
    {
      if count == 0 || count > NUM_MOTORS {
        return;
      }
      for i := 0 to count
        invariant State() == TakeAll(old(State()), buffer[..i])
      {
        TakeOneMore(old(State()), buffer[..], i);
        assert buffer[..][..i] == buffer[..i] && buffer[..][..i + 1] == buffer[..i + 1];
        var motorIndex := buffer[i].motorId as nat;
        if motorIndex < NUM_MOTORS {
          working[motorIndex] := buffer[i];
          mask := BitOr(mask, Pow2(motorIndex));
        }
      }
    }

    // ---------- transmit_can_frames ----------

    method FindOneTime() returns (found: bool)
      requires Shape()
      ensures found <==> HasOneTime(working[..])
    {
      for i := 0 to NUM_MOTORS
        invariant forall j | 0 <= j < i :: !working[j].OneTime()
      {
        if working[i].mode <= 4 {
          return true;
        }
      }
      return false;
    }

    // The two `continue` tests of the build loop
    method Skipped(i: nat, hasOneTime: bool) returns (skip: bool)
      requires Shape() && i < NUM_MOTORS && hasOneTime == HasOneTime(working[..])
      ensures skip <==> !Selected(State(), i)
    {
      MaskTest(mask, i);
      if mask != 0 && BitAnd(mask, Pow2(i)) == 0 {
        return true;
      }
      return hasOneTime && working[i].mode == MODE_MIT_CONTROL;
    }

    // One pass of the build loop for motor i
    method BuildOne(i: nat, hasOneTime: bool, frameCount: array<nat>, framesPtr: array<int>)
      requires Shape() && BuffersOk(frames, frameCount, framesPtr) && i < NUM_MOTORS
      requires hasOneTime == HasOneTime(working[..]) && working[i].motorId as int == i
      requires Built(BusLists(motors, State(), i), frames, frameCount, framesPtr)
      modifies frames, frameCount, framesPtr
      ensures Built(BusLists(motors, State(), i + 1), frames, frameCount, framesPtr)
    {
      ListsStep(motors, State(), i);
      var skip := Skipped(i, hasOneTime);
      if !skip {
        BuildSelected(i, frameCount, framesPtr);
      }
    }

    method BuildSelected(i: nat, frameCount: array<nat>, framesPtr: array<int>)
      requires Shape() && BuffersOk(frames, frameCount, framesPtr) && i < NUM_MOTORS
      requires working[i].motorId as int == i && Selected(State(), i)
      requires Built(BusLists(motors, State(), i), frames, frameCount, framesPtr)
      modifies frames, frameCount, framesPtr
      ensures Built(BusLists(motors, State(), i + 1), frames, frameCount, framesPtr)
    {
      ListsStep(motors, State(), i);
      var cmd := working[i];
      var motorIndex := cmd.motorId as nat;
      if motorIndex < NUM_MOTORS {
        var config := motors[motorIndex];
        if config.canBus < NUM_BUSES {
          var frame := BuildFrame(config, cmd);
          AppendFrame(BusLists(motors, State(), i), config.canBus, frame, frames, frameCount, framesPtr);
        }
      }
    }

    method BuildFrames(frameCount: array<nat>, framesPtr: array<int>)
      requires Shape() && Inv(State()) && BuffersOk(frames, frameCount, framesPtr)
      requires forall b | 0 <= b < NUM_BUSES :: frameCount[b] == 0
      modifies frames, frameCount, framesPtr
      ensures Built(BusLists(motors, State(), NUM_MOTORS), frames, frameCount, framesPtr)
    {
      var hasOneTime := FindOneTime();
      for i := 0 to NUM_MOTORS
        invariant Built(BusLists(motors, State(), i), frames, frameCount, framesPtr)
      {
        BuildOne(i, hasOneTime, frameCount, framesPtr);
      }
    }

    // ---------- transmission and clean-up ----------

    method SendBatches(
      ghost lists: seq<seq<Frame>>, frameCount: array<nat>, framesPtr: array<int>, hw: Answering)
      returns (totalFrames: nat, totalSent: int)
      requires Shape() && BusesValid() && BuffersOk(frames, frameCount, framesPtr)
      requires |lists| == NUM_BUSES && Built(lists, frames, frameCount, framesPtr)
      modifies buses, set b | b in buses :: b.slots
      ensures BusesValid()
      ensures forall b: nat | b < NUM_BUSES ::
                Sent(buses[b], lists[b], Answers(hw, b, |lists[b]|), old(TrafficOf(buses[b])), old(buses[b].bufIndex))
    {
      totalFrames, totalSent := 0, 0;
      for bus := 0 to NUM_BUSES
        invariant BusesValid()
        invariant forall b | 0 <= b < NUM_BUSES :: frameCount[b] == |lists[b]| <= NUM_MOTORS
        invariant forall b: nat | b < bus ::
          Sent(buses[b], lists[b], Answers(hw, b, |lists[b]|), old(TrafficOf(buses[b])), old(buses[b].bufIndex))
        invariant forall b | bus <= b < NUM_BUSES :: unchanged(buses[b]) && unchanged(buses[b].slots)
      {
        if frameCount[bus] > 0 {
          totalFrames := totalFrames + frameCount[bus];
          label before:
          var answers := Answers(hw, bus, frameCount[bus]);
          var sent := SendOne(lists[bus], buses[bus], framesPtr[bus], frameCount[bus], answers);
          assert forall b | 0 <= b < NUM_BUSES && b != bus ::
              unchanged@before(buses[b]) && unchanged@before(buses[b].slots);
          if sent > 0 {
            totalSent := totalSent + sent;
          }
        } else {
          assert buses[bus].Valid() && lists[bus] == [];
          assert Answers(hw, bus, 0) == [] && TrafficOf(buses[bus]).Plus(Traffic([], [])) == TrafficOf(buses[bus]);
        }
      }
    }

    method SendOne(ghost list: seq<Frame>, bus: Bus, row: int, count: nat, answers: seq<bool>) returns (sent: int)
      requires bus.Valid() && 0 <= row < frames.Length0 && frames.Length1 == NUM_MOTORS
      requires count == |list| == |answers| && RowHolds(frames, row, list)
      modifies bus, bus.slots
      ensures bus.Valid() && Sent(bus, list, answers, old(TrafficOf(bus)), old(bus.bufIndex))
    {
      var batch := seq(count, k requires 0 <= k < count <= frames.Length1 reads frames => frames[row, k]);
      assert batch == list;
      sent := bus.TransmitBatch(batch, answers);
      if bus.initialized {
        SmallBatchIntact(bus.slots[..], old(bus.bufIndex), batch, answers);
      }
    }

    // Reset one slot of a command array to idle
    method ResetSlot(a: array<Cmd>, i: nat)
      requires i < a.Length
      modifies a
      ensures a[..] == old(a[..])[i := Idle(old(a[i]))]
    {
      a[i] := a[i].(mode := MODE_MIT_CONTROL, position := ZERO_F, velocity := ZERO_F, torque := ZERO_F,
                    kp := ZERO_F, kd := TWO_F);
    }

    method ResetAll(a: array<Cmd>)
      modifies a
      ensures a[..] == AllIdle(old(a[..]))
    {
      for j := 0 to a.Length
        invariant forall i | 0 <= i < j :: a[i] == Idle(old(a[i]))
        invariant forall i | j <= i < a.Length :: a[i] == old(a[i])
      {
        ResetSlot(a, j);
      }
    }

    // The loop after transmission.  The two branches of the code differ only in
    // whether they test the mask.
    method Cleanup(useMask: bool)
      requires Shape() && Inv(State()) && useMask == (mask != 0)
      modifies working, buffer
      ensures State() == Core(AfterCleanup(old(State()).table), old(mask))
      ensures buffer[..] == if HasDisable(old(working[..])) then AllIdle(old(buffer[..])) else old(buffer[..])
      ensures Cleared(old(working[..]), working[..])
      ensures if exists j :: 0 <= j < NUM_MOTORS && old(working[j]).mode == 0
              then forall i: nat | i < NUM_MOTORS :: Resting(buffer[i], old(buffer[i]))
              else buffer[..] == old(buffer[..])
    {
      ghost var t := working[..];
      CleanupClears(t);
      for i := 0 to NUM_MOTORS
        invariant working[..] == OneTimesIdle(t, i) && buffer[..] == old(buffer[..])
        invariant forall j | 0 <= j < i :: t[j].mode != MODE_DISABLE
      {
        CleanupStep(t, i);
        var skip := MaskSkips(i, useMask);
        if !skip && working[i].mode <= 4 {
          if working[i].mode == MODE_DISABLE {
            assert t[i].mode == MODE_DISABLE;
            IdleTwice(t, i);
            ResetAll(working);
            ResetAll(buffer);
            return;
          } else {
            ResetSlot(working, i);
          }
        }
        assert Covered(Core(t, mask));
      }
    }

    method MaskSkips(i: nat, useMask: bool) returns (skip: bool)
      requires Shape() && useMask == (mask != 0)
      ensures skip <==> !Updated(mask, i)
    {
      MaskTest(mask, i);
      return useMask && BitAnd(mask, Pow2(i)) == 0;
    }

    // Which buses started, and what each bus has been given and has taken so far
    ghost function Up(): (up: Buses)
      requires |buses| == NUM_BUSES
      ensures forall b: nat | b < NUM_BUSES :: up[b] == buses[b].initialized
    {
      seq(NUM_BUSES, b requires 0 <= b < NUM_BUSES => buses[b].initialized)
    }

    ghost function Handled(): (t: AllTraffic)
      requires |buses| == NUM_BUSES
      reads buses
      ensures forall b: nat | b < NUM_BUSES :: t[b] == TrafficOf(buses[b])
    {
      seq(NUM_BUSES, b requires 0 <= b < NUM_BUSES reads buses => TrafficOf(buses[b]))
    }

    ghost function Indices(): (s: seq<nat>)
      requires |buses| == NUM_BUSES
      reads buses
      ensures |s| == NUM_BUSES && forall b: nat | b < NUM_BUSES :: s[b] == buses[b].bufIndex
    {
      seq(NUM_BUSES, b requires 0 <= b < NUM_BUSES reads buses => buses[b].bufIndex)
    }

    // Every bus has been given its list for c
    ghost predicate AllSent(c: Core, hw: Answering, before: AllTraffic, indices: seq<nat>)
      requires Shape() && |indices| == NUM_BUSES
      reads buses, set b | b in buses :: b.slots
    {
      forall b: nat | b < NUM_BUSES ::
        var list := BusBatch(motors, c, b);
        Sent(buses[b], list, Answers(hw, b, |list|), before[b], indices[b])
    }

    // From the selection of motors to the last batch handed over
    method BuildAndSend(hw: Answering)
      requires Shape() && Inv(State()) && BusesValid()
      modifies frames, buses, set b | b in buses :: b.slots
      ensures BusesValid()
      ensures AllSent(State(), hw, old(Handled()), old(Indices()))
    {
      var framesPtr := new int[NUM_BUSES];
      var frameCount := new nat[NUM_BUSES](_ => 0);
      BuildFrames(frameCount, framesPtr);
      var _, _ := SendBatches(BusLists(motors, State(), NUM_MOTORS), frameCount, framesPtr, hw);
    }

    // transmit_can_frames.  `stop` is what gateway_check_emergency_stop
    // answers, `hw` what the CAN controllers answer.
    method TransmitFrames(stop: bool, hw: Answering)
      requires Shape() && Inv(State()) && BusesValid()
      modifies this`mask, working, buffer, frames, buses, set b | b in buses :: b.slots
      ensures BusesValid() && Inv(State())
      ensures State() == After(old(State()), Transmit(stop, hw))
      ensures AddsOne(motors, Up(), old(State()), Transmit(stop, hw), old(Handled()), Handled())
      ensures stop ==> forall b | b in buses :: unchanged(b) && unchanged(b.slots)
      ensures !stop ==> AllSent(old(State()), hw, old(Handled()), old(Indices()))
    {
      if stop {
        return;
      }
      TransmitInv(State());
      var useMask := mask != 0;
      BuildAndSend(hw);
      Cleanup(useMask);
      mask := 0;
    }

    // ---------- the main loop ----------

    ghost predicate Valid()
      reads this, working, ring, ring.data, buses
    {
      Shape() && Inv(State()) && Framed() && BusesValid()
    }

    // The commands consumed since the ring had retired `since`
    ghost function ConsumedSince(since: seq<Byte>): seq<Cmd>
      requires since <= ring.taken
      reads ring
    {
      DecodeAll(ring.taken[|since|..])
    }

    // One batch: receive, and copy what came
    method DrainOne(meanwhile: seq<Packet>) returns (count: nat)
      requires Shape() && Framed()
      modifies this`mask, ring, ring.data, buffer, working
      ensures Framed() && old(ring.sent) <= ring.sent && old(ring.taken) <= ring.taken
      ensures Sends(meanwhile, old(ring.sent), ring.sent)
      ensures |ring.taken| == |old(ring.taken)| + CMD_SIZE * count
      ensures CMD_SIZE * count == if ringReady then AtMost(|old(ring.sent)| - |old(ring.taken)|, BATCH_BYTES) else 0
      ensures State() == TakeAll(old(State()), ConsumedSince(old(ring.taken)))
    {
      count := Receive(meanwhile);
      CopyReceived(count, ring.taken[|old(ring.taken)|..]);
    }

    // The copy touches nothing of the ring
    method CopyReceived(count: nat, ghost bytes: seq<Byte>)
      requires Shape() && Framed() && |bytes| == CMD_SIZE * count <= BATCH_BYTES && buffer[..count] == DecodeAll(bytes)
      modifies this`mask, working
      ensures Framed() && unchanged(ring) && unchanged(ring.data)
      ensures State() == TakeAll(old(State()), DecodeAll(bytes))
    {
      if count > 0 {
        CopyToWorking(count);
      }
    }

    // The drain loop since the state c0 in which t0 was retired: the table is
    // that of c0 with the commands consumed taken one at a time.
    ghost predicate HasDrained(c0: Core, t0: seq<Byte>)
      reads this, working, ring, ring.data
    {
      && Shape() && Framed()
      && |t0| % CMD_SIZE == 0 && t0 <= ring.taken
      && State() == TakeAll(c0, ConsumedSince(t0))
    }

    method ArriveWhileDraining(ghost c0: Core, ghost t0: seq<Byte>, packets: seq<Packet>)
      requires HasDrained(c0, t0)
      modifies ring, ring.data
      ensures HasDrained(c0, t0) && ring.taken == old(ring.taken) && old(ring.sent) <= ring.sent
      ensures Sends(packets, old(ring.sent), ring.sent)
    {
      Arrivals(packets);
    }

    // One more batch
    method DrainMore(ghost c0: Core, ghost t0: seq<Byte>, before: seq<Packet>, meanwhile: seq<Packet>)
      returns (count: nat)
      requires HasDrained(c0, t0)
      modifies this`mask, ring, ring.data, buffer, working
      ensures HasDrained(c0, t0) && old(ring.sent) <= ring.sent
      ensures Sends(before + meanwhile, old(ring.sent), ring.sent)
      ensures |ring.taken| == |old(ring.taken)| + CMD_SIZE * count
      ensures Taken(ringReady, |old(ring.sent)| - |old(ring.taken)|, count)
    {
      ghost var t1, s1 := ring.taken, ring.sent;
      ArriveWhileDraining(c0, t0, before);
      ghost var between := ring.sent;
      count := DrainOne(meanwhile);
      SendsBoth(before, meanwhile, s1, between, ring.sent);
      TakenOfMore(ringReady, |s1| - |t1|, |between| - |t1|, count);
      TakenTwice(c0, t0, t1, ring.taken);
    }

    ghost predicate Draining(c0: Core, t0: seq<Byte>, s0: seq<Byte>, packets: nat)
      reads this, working, ring, ring.data
    {
      && HasDrained(c0, t0) && s0 <= ring.sent
      && Progress(ringReady, |s0| - |t0|, |ring.taken| - |t0|, packets)
    }

    // The body of the drain loop
    method DrainBody(ghost c0: Core, ghost t0: seq<Byte>, ghost s0: seq<Byte>, packets: nat,
                     before: seq<Packet>, meanwhile: seq<Packet>)
      returns (packets': nat)
      requires Draining(c0, t0, s0, packets)
      modifies this`mask, ring, ring.data, buffer, working
      ensures Draining(c0, t0, s0, packets')
      ensures Sends(before + meanwhile, old(ring.sent), ring.sent)
      ensures packets' == packets || packets' == packets + 1
      ensures packets' == packets && ringReady ==> |s0| - |t0| <= |ring.taken| - |t0|
    {
      ghost var done, waiting := |ring.taken| - |t0|, |ring.sent| - |ring.taken|;
      var count := DrainMore(c0, t0, before, meanwhile);
      ProgressMore(ringReady, |s0| - |t0|, done, packets, waiting, count);
      packets' := if count > 0 then packets + 1 else packets;
    }

    // The test and the body of the drain loop, around gaps `gap` and gap + 1
    method DrainPass(ghost c0: Core, ghost t0: seq<Byte>, ghost s0: seq<Byte>, packets: nat, drainNeeded: bool,
                     feed: seq<seq<Packet>>, gap: nat)
      returns (stop: bool, packets': nat, drainNeeded': bool)
      requires Draining(c0, t0, s0, packets) && Sends(UpTo(feed, gap), s0, ring.sent)
      modifies this`mask, ring, ring.data, buffer, working
      ensures Draining(c0, t0, s0, packets') && Sends(UpTo(feed, gap + 2), s0, ring.sent)
      ensures stop ==> packets' == packets && drainNeeded' == drainNeeded
      ensures stop && ringReady ==> |s0| - |t0| <= |ring.taken| - |t0|
      ensures !stop ==> packets' == packets + 1 || (packets' == packets && drainNeeded && !drainNeeded')
    {
      stop, packets', drainNeeded' := false, packets, drainNeeded;
      ghost var s1 := ring.sent;
      if !drainNeeded {
        var available := CheckAvailable();
        if !available {
          stop := true;
          SendsNone(Gap(feed, gap) + Gap(feed, gap + 1), s1);
          SendsTwoGaps(feed, gap, s0, s1, s1);
          return;
        }
      }
      packets' := DrainBody(c0, t0, s0, packets, Gap(feed, gap), Gap(feed, gap + 1));
      SendsTwoGaps(feed, gap, s0, s1, ring.sent);
      if packets' == packets {
        stop := !drainNeeded;
      }
      drainNeeded' := false;
    }

    // The drain loop of main_loop.  Steps 2k and 2k + 1 of Core 0 in between are
    // feed[2k] and feed[2k + 1]; the flag g_commands_ready may have any value.
    method Drain(feed: seq<seq<Packet>>) returns (packets: nat)
      requires Shape() && Framed()
      modifies this`mask, this`commandsReady, ring, ring.data, buffer, working
      ensures HasDrained(old(State()), old(ring.taken)) && old(ring.sent) <= ring.sent
      ensures CycleTook(ringReady, |old(ring.sent)| - |old(ring.taken)|, |ring.taken| - |old(ring.taken)|)
      ensures |ring.taken| - |old(ring.taken)| <= 5520
      ensures ringReady ==>
                |ring.taken| - |old(ring.taken)| >= 5520 || |old(ring.sent)| <= |ring.taken|
      ensures packets == 0 <==> ring.taken == old(ring.taken)
      ensures commandsReady <==> old(commandsReady) && packets == 0
      ensures Sends(All(feed), old(ring.sent), ring.sent)
    {
      ghost var c0, t0, s0 := State(), ring.taken, ring.sent;
      assert ring.taken[|t0|..] == [];
      packets := DrainLoop(c0, t0, s0, feed);
      LoopDone(ringReady, |s0| - |t0|, |ring.taken| - |t0|, packets);
      if packets > 0 {
        commandsReady := false;
      }
    }

    method DrainLoop(ghost c0: Core, ghost t0: seq<Byte>, ghost s0: seq<Byte>, feed: seq<seq<Packet>>)
      returns (packets: nat)
      requires Draining(c0, t0, s0, 0) && ring.sent == s0
      modifies this`mask, ring, ring.data, buffer, working
      ensures Draining(c0, t0, s0, packets) && packets <= MAX_DRAIN_PER_CYCLE
      ensures packets == MAX_DRAIN_PER_CYCLE || (ringReady ==> |s0| - |t0| <= |ring.taken| - |t0|)
      ensures Sends(All(feed), s0, ring.sent)
    {
      var drainNeeded, stop, gap := commandsReady, false, 0;
      packets := 0;
      SendsNone([], s0);
      while packets < MAX_DRAIN_PER_CYCLE && !stop
        invariant packets <= MAX_DRAIN_PER_CYCLE && Draining(c0, t0, s0, packets)
        invariant stop && ringReady ==> |s0| - |t0| <= |ring.taken| - |t0|
        invariant Sends(UpTo(feed, gap), s0, ring.sent)
        decreases MAX_DRAIN_PER_CYCLE - packets, if drainNeeded then 1 else 0, if stop then 0 else 1
      {
        stop, packets, drainNeeded := DrainPass(c0, t0, s0, packets, drainNeeded, feed, gap);
        gap := gap + 2;
      }
      SendsAll(feed, gap, s0, ring.sent);
    }

    // One cycle of the main loop: drain, then transmit
    method Cycle(input: CycleInput)
      requires Valid()
      modifies this`mask, this`commandsReady, ring, ring.data, buffer, working, frames, buses
      modifies set b | b in buses :: b.slots
      ensures Valid() && old(ring.taken) <= ring.taken && old(ring.sent) <= ring.sent
      ensures var cmds := ConsumedSince(old(ring.taken));
              var drained, e := TakeAll(old(State()), cmds), Transmit(input.stop, input.hw);
              && State() == After(drained, e)
              && AddsOne(motors, Up(), drained, e, old(Handled()), Handled())
              && (!input.stop ==> AllSent(drained, input.hw, old(Handled()), old(Indices())))
      ensures CycleTook(ringReady, |old(ring.sent)| - |old(ring.taken)|, |ring.taken| - |old(ring.taken)|)
      ensures Sends(All(input.feed), old(ring.sent), ring.sent)
    {
      ghost var handled, indices := Handled(), Indices();
      DrainPart(input);
      assert Handled() == handled && Indices() == indices;
      TransmitPart(input);
    }

    method DrainPart(input: CycleInput)
      requires Valid()
      modifies this`mask, this`commandsReady, ring, ring.data, buffer, working
      ensures Valid() && old(ring.taken) <= ring.taken && old(ring.sent) <= ring.sent
      ensures State() == TakeAll(old(State()), ConsumedSince(old(ring.taken)))
      ensures CycleTook(ringReady, |old(ring.sent)| - |old(ring.taken)|, |ring.taken| - |old(ring.taken)|)
      ensures Sends(All(input.feed), old(ring.sent), ring.sent)
    {
      if input.notified {
        commandsReady := true;
      }
      ghost var c0, t0 := State(), ring.taken;
      var _ := Drain(input.feed);
      TakeAllInv(c0, ConsumedSince(t0));
    }

    method TransmitPart(input: CycleInput)
      requires Valid()
      modifies this`mask, buffer, working, frames, buses, set b | b in buses :: b.slots
      ensures Valid() && unchanged(ring) && unchanged(ring.data)
      ensures State() == After(old(State()), Transmit(input.stop, input.hw))
      ensures AddsOne(motors, Up(), old(State()), Transmit(input.stop, input.hw), old(Handled()), Handled())
      ensures !input.stop ==> AllSent(old(State()), input.hw, old(Handled()), old(Indices()))
    {
      label before:
      TransmitFrames(input.stop, input.hw);
      assert unchanged@before(ring) && unchanged@before(ring.data);
    }

    // What a run since the state (c0, t0, traffic0) amounts to
    ghost predicate Ran(c0: Core, t0: seq<Byte>, traffic0: AllTraffic, es: seq<Event>)
      requires Shape()
      reads this, working, ring, buses
    {
      && |t0| % CMD_SIZE == 0 && t0 <= ring.taken
      && State() == RunCore(c0, es)
      && Consumed(es) == ConsumedSince(t0)
      && Adds(motors, Up(), c0, es, traffic0, Handled())
    }

    // One more cycle
    method CycleMore(ghost c0: Core, ghost t0: seq<Byte>, ghost traffic0: AllTraffic, ghost es: seq<Event>,
                     input: CycleInput) returns (ghost cmds: seq<Cmd>)
      requires Valid() && Ran(c0, t0, traffic0, es)
      modifies this`mask, this`commandsReady, ring, ring.data, buffer, working, frames, buses
      modifies set b | b in buses :: b.slots
      ensures Valid() && old(ring.taken) <= ring.taken && old(ring.sent) <= ring.sent
      ensures Ran(c0, t0, traffic0, es + CycleEvents(cmds, input.stop, input.hw))
      ensures Sends(All(input.feed), old(ring.sent), ring.sent)
      ensures CycleTook(ringReady, |old(ring.sent)| - |old(ring.taken)|, |ring.taken| - |old(ring.taken)|)
    {
      Cycle(input);
      cmds := ConsumedSince(old(ring.taken));
      ConsumedMore(t0, old(ring.taken), ring.taken);
      ghost var e := Transmit(input.stop, input.hw);
      RunMore(motors, Up(), c0, es, cmds, e, 0);
      AddsMore(motors, Up(), c0, es, cmds, e, traffic0, old(Handled()), Handled());
    }

    // After n cycles: the events es end in this state, consume the commands
    // retired since and submit the frames sent since; they are n drains and
    // transmissions with the stop flag as it was found; of the backlog all is
    // taken or n full cycles' worth; and the ring was sent some of the packets of
    // those cycles, each whole.
    ghost predicate Looped(c0: Core, t0: seq<Byte>, sent0: seq<Byte>, traffic0: AllTraffic, es: seq<Event>,
                           inputs: seq<CycleInput>, n: nat)
      requires n <= |inputs|
      reads this, working, ring, ring.data, buses
    {
      && Valid() && Ran(c0, t0, traffic0, es) && Follows(es, inputs, n)
      && sent0 <= ring.sent
      && BacklogTaken(ringReady, |sent0| - |t0|, |ring.taken| - |t0|, n)
      && Sends(PacketsOf(inputs, n), sent0, ring.sent)
    }

    lemma LoopedAtStart(inputs: seq<CycleInput>)
      requires Valid()
      ensures Looped(State(), ring.taken, ring.sent, Handled(), [], inputs, 0)
    {
      assert ring.taken[|ring.taken|..] == [];
      SendsNone([], ring.sent);
    }

    method MainPass(ghost c0: Core, ghost t0: seq<Byte>, ghost sent0: seq<Byte>, ghost traffic0: AllTraffic,
                    ghost es: seq<Event>, inputs: seq<CycleInput>, n: nat) returns (ghost more: seq<Event>)
      requires n < |inputs|
      requires Looped(c0, t0, sent0, traffic0, es, inputs, n)
      modifies this`mask, this`commandsReady, ring, ring.data, buffer, working, frames, buses
      modifies set b | b in buses :: b.slots
      ensures Looped(c0, t0, sent0, traffic0, more, inputs, n + 1)
    {
      ghost var t1, sent1 := ring.taken, ring.sent;
      ghost var cmds := CycleMore(c0, t0, traffic0, es, inputs[n]);
      FollowsMore(es, inputs, n, cmds);
      BacklogMore(ringReady, |sent0| - |t0|, |t1| - |t0|, n, |sent1| - |t1|, |ring.taken| - |t1|);
      SendsBoth(PacketsOf(inputs, n), All(inputs[n].feed), sent0, sent1, ring.sent);
      more := es + CycleEvents(cmds, inputs[n].stop, inputs[n].hw);
    }

    // Any number of cycles of the main loop, whatever Core 0, the stop flag, the
    // notifications and the CAN controllers do: a run of drains and
    // transmissions that consumes the retired commands in order and submits
    // exactly its frames.
    method MainLoop(inputs: seq<CycleInput>) returns (ghost es: seq<Event>)
      requires Valid()
      modifies this`mask, this`commandsReady, ring, ring.data, buffer, working, frames, buses
      modifies set b | b in buses :: b.slots
      ensures Looped(old(State()), old(ring.taken), old(ring.sent), old(Handled()), es, inputs, |inputs|)
    {
      ghost var c0, t0, sent0, traffic0 := State(), ring.taken, ring.sent, Handled();
      es := [];
      LoopedAtStart(inputs);
      for i := 0 to |inputs|
        invariant Looped(c0, t0, sent0, traffic0, es, inputs, i)
      {
        es := MainPass(c0, t0, sent0, traffic0, es, inputs, i);
      }
    }

    // A legal backlog of at most 682 commands is gone within three cycles,
    // whatever value g_commands_ready had and whether or not the controllers or
    // the stop flag let anything out.  With a quiet producer the ring is empty.
    method ThreeCycles(inputs: seq<CycleInput>)
      requires Valid() && ringReady && |inputs| == 3
      requires |ring.sent| - |ring.taken| <= CMD_SIZE * 682
      modifies this`mask, this`commandsReady, ring, ring.data, buffer, working, frames, buses
      modifies set b | b in buses :: b.slots
      ensures Valid() && |old(ring.sent)| <= |ring.taken|
      ensures AllQuiet(inputs, 3) ==> ring.Contents() == []
    {
      ghost var sent0 := ring.sent;
      var _ := MainLoop(inputs);
      if AllQuiet(inputs, 3) { SilentSends(PacketsOf(inputs, 3), sent0, ring.sent); }
    }
  }

  // The defaults set by core1_init
  method SetDefaults(working: array<Cmd>, buffer: array<Cmd>)
    requires working.Length == NUM_MOTORS && buffer.Length == NUM_MOTORS && buffer != working
    modifies working, buffer
    ensures forall i: nat | i < NUM_MOTORS :: working[i] == DefaultCmd(i, old(working[i])) == buffer[i]
    ensures DefaultsSet(working[..], old(working[..]))
  {
    for i := 0 to NUM_MOTORS
      invariant forall j | 0 <= j < i :: working[j] == DefaultCmd(j, old(working[j]))
      invariant forall j | i <= j < NUM_MOTORS :: working[j] == old(working[j])
    {
      working[i] := working[i].(
        motorId := i as Byte, mode := MODE_MIT_CONTROL, position := ZERO_F, velocity := ZERO_F,
        kp := ZERO_F, kd := TWO_F, torque := ZERO_F);
    }
    for i := 0 to NUM_MOTORS
      invariant forall j | 0 <= j < i :: buffer[j] == working[j]
      invariant forall j | 0 <= j < NUM_MOTORS :: working[j] == DefaultCmd(j, old(working[j]))
    {
      buffer[i] := working[i];
    }
    AllDefaultsRest(working[..], old(working[..]));
  }

  // CAN_Init: eight buses, whichever of them came up
  ghost predicate Started(bus: Bus, started: bool)
    reads bus
  {
    bus.Valid() && bus.initialized == started && bus.submitted == bus.accepted == [] && bus.bufIndex == 0
  }

  method StartBuses(started: seq<bool>, blank: Element) returns (buses: seq<Bus>)
    requires |started| == NUM_BUSES
    ensures |buses| == NUM_BUSES
    ensures forall b | 0 <= b < NUM_BUSES :: Started(buses[b], started[b]) && fresh(buses[b]) && fresh(buses[b].slots)
    ensures forall a, b | 0 <= a < b < NUM_BUSES :: buses[a] != buses[b] && buses[a].slots != buses[b].slots
  {
    buses := [];
    for i := 0 to NUM_BUSES
      invariant |buses| == i
      invariant forall b | 0 <= b < i :: Started(buses[b], started[b]) && fresh(buses[b]) && fresh(buses[b].slots)
      invariant forall a, b | 0 <= a < b < i :: buses[a] != buses[b] && buses[a].slots != buses[b].slots
    {
      var bus := new Bus(started[i], blank);
      buses := buses + [bus];
    }
  }

  // Start-up of Core 1 on a ring Core 0 has just set up: everything the cycles
  // of the main loop require, on the given arrays and buses of its own.
  method Boot(motors: seq<MM.Config>, ring: RingBuf, buffer: array<Cmd>, working: array<Cmd>,
              frames: array2<Frame>, started: seq<bool>, blank: Element) returns (core: Pipeline)
    requires MM.TableOk(motors) && |started| == NUM_BUSES
    requires buffer.Length == NUM_MOTORS && working.Length == NUM_MOTORS && buffer != working
    requires frames.Length0 == NUM_BUSES && frames.Length1 == NUM_MOTORS
    requires RingFramed(ring) && (buffer as object) != ring.data && (working as object) != ring.data
    modifies buffer, working
    ensures fresh(core) && core.Valid() && core.ringReady
    ensures core.motors == motors && core.ring == ring && core.frames == frames
    ensures core.working == working && core.buffer == buffer
    ensures forall b | b in core.buses :: fresh(b) && fresh(b.slots)
    ensures forall b | 0 <= b < NUM_BUSES :: Started(core.buses[b], started[b])
    ensures core.State() == Core(working[..], ALL_UPDATED) && !HasOneTime(core.State().table)
    ensures forall i: nat | i < NUM_MOTORS ::
              Selected(core.State(), i) && working[i] == DefaultCmd(i, old(working[i])) == buffer[i]
    ensures core.State().mask == 0xFFFF_FFFF
    ensures forall i: nat | i < NUM_MOTORS :: ReadsRest(motors[i], MotorFrame(motors, core.State(), i))
  {
    SetDefaults(working, buffer);
    var buses := StartBuses(started, blank);
    core := new Pipeline(motors, ring, buffer, working, frames, buses);
    core.StartRing();
    DefaultFrames(motors, core.State(), old(working[..]));
  }

  lemma TakenTwice(c: Core, t0: seq<Byte>, t1: seq<Byte>, t2: seq<Byte>)
    requires t0 <= t1 <= t2 && |t0| % CMD_SIZE == 0 && |t1| % CMD_SIZE == 0
    ensures TakeAll(TakeAll(c, DecodeAll(t1[|t0|..])), DecodeAll(t2[|t1|..])) == TakeAll(c, DecodeAll(t2[|t0|..]))
  {
    ConsumedMore(t0, t1, t2);
    TakeInBatches(c, DecodeAll(t1[|t0|..]), DecodeAll(t2[|t1|..]));
  }

  // A batch of `count` commands with at least `backlog` bytes waiting
  ghost predicate Taken(ready: bool, backlog: int, count: nat) {
    if ready then AtMost(backlog, BATCH_BYTES) <= CMD_SIZE * count <= BATCH_BYTES else count == 0
  }

  lemma TakenOfMore(ready: bool, backlog: int, grown: int, count: nat)
    requires 0 <= backlog <= grown
    requires CMD_SIZE * count == if ready then AtMost(grown, BATCH_BYTES) else 0
    ensures Taken(ready, backlog, count)
  {
  }

  // Of a backlog of `backlog` bytes at the start, at least what `packets` full
  // batches hold has been taken, or all of it
  ghost predicate Progress(ready: bool, backlog: int, done: int, packets: nat) {
    && 0 <= done <= BATCH_BYTES * packets
    && (ready ==> AtMost(backlog, BATCH_BYTES * packets) <= done)
    && (packets == 0 <==> done == 0)
  }

  // The packets Core 0 puts to the ring in the first n cycles
  function PacketsOf(inputs: seq<CycleInput>, n: nat): seq<Packet>
    requires n <= |inputs|
  {
    if n == 0 then [] else PacketsOf(inputs, n - 1) + All(inputs[n - 1].feed)
  }

  // It sends no command in any of them
  predicate AllQuiet(inputs: seq<CycleInput>, n: nat)
    requires n <= |inputs|
  {
    Silent(PacketsOf(inputs, n))
  }

  // What one cycle takes of a backlog: all of it, or ten full batches
  ghost predicate CycleTook(ready: bool, backlog: int, done: int) {
    && 0 <= done <= CYCLE_BYTES
    && (ready ==> AtMost(backlog, CYCLE_BYTES) <= done)
  }

  // Of the backlog before n cycles, they take all or what n full cycles hold
  ghost predicate BacklogTaken(ready: bool, backlog: int, done: int, n: nat) {
    0 <= done && (ready ==> AtMost(backlog, CYCLE_BYTES * n) <= done)
  }

  lemma BacklogMore(ready: bool, backlog: int, done: int, n: nat, waiting: int, step: int)
    requires BacklogTaken(ready, backlog, done, n) && CycleTook(ready, waiting, step) && backlog - done <= waiting
    ensures BacklogTaken(ready, backlog, done + step, n + 1)
  {
  }

  // The events of n cycles, with the stop flag as those cycles found it
  ghost predicate Follows(es: seq<Event>, inputs: seq<CycleInput>, n: nat)
    requires n <= |inputs|
  {
    |es| == 2 * n &&
    forall k | 0 <= k < n :: es[2 * k].Drained? && es[2 * k + 1] == Transmit(inputs[k].stop, inputs[k].hw)
  }

  lemma FollowsMore(es: seq<Event>, inputs: seq<CycleInput>, n: nat, cmds: seq<Cmd>)
    requires n < |inputs| && Follows(es, inputs, n)
    ensures Follows(es + CycleEvents(cmds, inputs[n].stop, inputs[n].hw), inputs, n + 1)
  {
    var more := es + CycleEvents(cmds, inputs[n].stop, inputs[n].hw);
    forall k | 0 <= k < n + 1
      ensures more[2 * k].Drained? && more[2 * k + 1] == Transmit(inputs[k].stop, inputs[k].hw)
    {
      if k < n { assert more[2 * k] == es[2 * k] && more[2 * k + 1] == es[2 * k + 1]; }
    }
  }

  lemma LoopDone(ready: bool, backlog: int, done: int, packets: nat)
    requires Progress(ready, backlog, done, packets) && packets <= MAX_DRAIN_PER_CYCLE
    requires packets == MAX_DRAIN_PER_CYCLE || (ready ==> backlog <= done)
    ensures CycleTook(ready, backlog, done)
    ensures packets == 0 <==> done == 0
  {
  }

  lemma ProgressMore(ready: bool, backlog: int, done: int, packets: nat, waiting: int, count: nat)
    requires Progress(ready, backlog, done, packets)
    requires Taken(ready, waiting, count) && backlog - done <= waiting
    ensures Progress(ready, backlog, done + CMD_SIZE * count, if count > 0 then packets + 1 else packets)
  {
  }

  lemma ConsumedMore(t0: seq<Byte>, t1: seq<Byte>, t2: seq<Byte>)
    requires t0 <= t1 <= t2 && |t0| % CMD_SIZE == 0 && |t1| % CMD_SIZE == 0
    ensures DecodeAll(t2[|t0|..]) == DecodeAll(t1[|t0|..]) + DecodeAll(t2[|t1|..])
  {
    WholeSum(|t1|, |t0|);
    assert t2[|t0|..] == t1[|t0|..] + t2[|t1|..];
    DecodeConcat(t1[|t0|..], t2[|t1|..]);
  }
}
