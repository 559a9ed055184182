// What one cycle of Core 1 does to its command table and update mask, and
// which CAN frames it sends, as functions on values.

module Core1Spec {
  import opened Bits
  import opened ByteWords
  import opened CanFrames
  import opened CanInterface
  import opened Float32
  import opened MotorCommand
  import opened Options
  import MM = MotorMapping
  import Q = Quantiser

  const NUM_BUSES := 8
  const ALL_UPDATED: uint32 := 0xFFFF_FFFF

  type Table = t: seq<Cmd> | |t| == NUM_MOTORS
    witness seq(NUM_MOTORS, _ => Cmd(0, 0, 0, 0, ZERO_F, ZERO_F, ZERO_F, ZERO_F, ZERO_F))

  // g_motor_commands_working and g_updated_motors_mask
  datatype Core = Core(table: Table, mask: nat)

  // The safe idle state a slot is reset to; its id, bus and spare byte stay
  function Idle(c: Cmd): Cmd {
    c.(mode := MODE_MIT_CONTROL, position := ZERO_F, velocity := ZERO_F, torque := ZERO_F, kp := ZERO_F, kd := TWO_F)
  }

  // Slot i always commands motor i, and a one-time command is always marked as
  // updated.  Every operation keeps this, although nothing in the code says so.
  ghost predicate Inv(c: Core) {
    && (forall i | 0 <= i < NUM_MOTORS :: c.table[i].motorId as int == i)
    && Covered(c)
  }

  ghost predicate Covered(c: Core) {
    forall i: nat | i < NUM_MOTORS && c.table[i].OneTime() :: Bit(c.mask, i)
  }

  // ---------- taking commands ----------

  function Take(c: Core, cmd: Cmd): Core {
    var i := cmd.motorId as nat;
    if i < NUM_MOTORS then Core(c.table[i := cmd], BitOr(c.mask, Pow2(i))) else c
  }

  function TakeAll(c: Core, cmds: seq<Cmd>): Core {
    if cmds == [] then c else Take(TakeAll(c, cmds[..|cmds| - 1]), cmds[|cmds| - 1])
  }

  lemma TakeOneMore(c: Core, cmds: seq<Cmd>, k: nat)
    requires k < |cmds|
    ensures TakeAll(c, cmds[..k + 1]) == Take(TakeAll(c, cmds[..k]), cmds[k])
  {
    assert cmds[..k + 1][..k] == cmds[..k];
  }

  // However the ring splits or merges packets, only the commands taken and
  // their order matter.
  lemma {:induction false} TakeInBatches(c: Core, a: seq<Cmd>, b: seq<Cmd>)
    ensures TakeAll(c, a + b) == TakeAll(TakeAll(c, a), b)
    decreases |b|
  {
    if b == [] {
      assert a + b == a;
    } else {
      var n := |b| - 1;
      assert (a + b)[..|a| + n] == a + b[..n] && (a + b)[|a| + n] == b[n];
      TakeInBatches(c, a, b[..n]);
    }
  }

  // The last command for motor i, if there is one
  function LatestFor(cmds: seq<Cmd>, i: nat): Option<Cmd> {
    if cmds == [] then None
    else if cmds[|cmds| - 1].motorId as nat == i then Some(cmds[|cmds| - 1])
    else LatestFor(cmds[..|cmds| - 1], i)
  }

  // A command with no later one for the same motor is the latest for it
  lemma {:induction false} LatestIs(cmds: seq<Cmd>, k: nat)
    requires LastForMotor(cmds, k)
    ensures LatestFor(cmds, cmds[k].motorId as nat) == Some(cmds[k])
    decreases |cmds|
  {
    var n := |cmds| - 1;
    if k < n {
      LastInPrefix(cmds, k, n);
      LatestIs(cmds[..n], k);
    }
  }

  lemma {:induction false} LastInPrefix(cmds: seq<Cmd>, k: nat, n: nat)
    requires LastForMotor(cmds, k) && k < n < |cmds|
    ensures LastForMotor(cmds[..n], k) && cmds[..n][k] == cmds[k]
    ensures cmds[n].motorId as nat != cmds[k].motorId as nat
  {
    forall j | k < j < n ensures cmds[..n][j].motorId != cmds[..n][k].motorId { assert cmds[..n][j] == cmds[j]; }
  }

  predicate LastForMotor(cmds: seq<Cmd>, k: nat) {
    k < |cmds| && forall j | k < j < |cmds| :: cmds[j].motorId != cmds[k].motorId
  }

  predicate Addressed(cmds: seq<Cmd>, i: nat) {
    exists k :: 0 <= k < |cmds| && cmds[k].motorId as nat == i
  }

  // Each slot ends up with the last valid command for it, or as it was; the
  // mask gains exactly the valid motors among the commands.
  lemma {:induction false} TakeAllMeans(c: Core, cmds: seq<Cmd>, i: nat)
    requires i < NUM_MOTORS
    ensures TakeAll(c, cmds).table[i] ==
            match LatestFor(cmds, i) case None => c.table[i] case Some(cmd) => cmd
    ensures Bit(TakeAll(c, cmds).mask, i) <==> Bit(c.mask, i) || Addressed(cmds, i)
    ensures LatestFor(cmds, i).Some? <==> Addressed(cmds, i)
    decreases |cmds|
  {
    if cmds != [] {
      var n := |cmds| - 1;
      var before := TakeAll(c, cmds[..n]);
      TakeAllMeans(c, cmds[..n], i);
      SetBit(before.mask, cmds[n].motorId as nat, i);
      AddressedLast(cmds, i);
    }
  }

  lemma AddressedLast(cmds: seq<Cmd>, i: nat)
    requires cmds != []
    ensures Addressed(cmds, i) <==>
            Addressed(cmds[..|cmds| - 1], i) || cmds[|cmds| - 1].motorId as nat == i
  {
    var n := |cmds| - 1;
    if k :| 0 <= k < n && cmds[..n][k].motorId as nat == i { assert cmds[k].motorId as nat == i; }
    if k :| 0 <= k < |cmds| && cmds[k].motorId as nat == i { assert k < n ==> cmds[..n][k].motorId as nat == i; }
  }

  lemma TakeInv(c: Core, cmd: Cmd)
    requires Inv(c)
    ensures Inv(Take(c, cmd))
  {
    var after, j := Take(c, cmd), cmd.motorId as nat;
    if j < NUM_MOTORS {
      forall i: nat | i < NUM_MOTORS && after.table[i].OneTime() ensures Bit(after.mask, i) {
        SetBit(c.mask, j, i);
      }
    }
  }

  lemma {:induction false} TakeAllInv(c: Core, cmds: seq<Cmd>)
    requires Inv(c)
    ensures Inv(TakeAll(c, cmds))
    decreases |cmds|
  {
    if cmds != [] {
      TakeAllInv(c, cmds[..|cmds| - 1]);
      TakeInv(TakeAll(c, cmds[..|cmds| - 1]), cmds[|cmds| - 1]);
    }
  }

  // ---------- choosing motors ----------

  predicate HasOneTime(t: seq<Cmd>) {
    exists i :: 0 <= i < |t| && t[i].OneTime()
  }

  // An empty mask means every motor
  predicate Updated(mask: nat, i: nat) { mask == 0 || Bit(mask, i) }

  predicate Selected(c: Core, i: nat)
    requires i < NUM_MOTORS
  {
    Updated(c.mask, i) && !(HasOneTime(c.table) && c.table[i].mode == MODE_MIT_CONTROL)
  }

  predicate Listed(motors: seq<MM.Config>, c: Core, i: nat, bus: nat)
    requires i < NUM_MOTORS == |motors|
  {
    Selected(c, i) && motors[i].canBus == bus
  }

  function MotorFrame(motors: seq<MM.Config>, c: Core, i: nat): Frame
    requires MM.TableOk(motors) && i < NUM_MOTORS
  {
    FrameFor(motors[i], c.table[i])
  }

  // The frames for one bus from the first n motors
  function BusFrames(motors: seq<MM.Config>, c: Core, bus: nat, n: nat): (fs: seq<Frame>)
    requires MM.TableOk(motors) && n <= NUM_MOTORS
    ensures |fs| <= n
  {
    if n == 0 then []
    else if Listed(motors, c, n - 1, bus) then BusFrames(motors, c, bus, n - 1) + [MotorFrame(motors, c, n - 1)]
    else BusFrames(motors, c, bus, n - 1)
  }

  // The lists for all buses
  function BusLists(motors: seq<MM.Config>, c: Core, n: nat): (lists: seq<seq<Frame>>)
    requires MM.TableOk(motors) && n <= NUM_MOTORS
    ensures |lists| == NUM_BUSES && forall b: nat | b < NUM_BUSES :: lists[b] == BusFrames(motors, c, b, n)
  {
    seq(NUM_BUSES, b requires 0 <= b < NUM_BUSES => BusFrames(motors, c, b, n))
  }

  // Motor n adds its frame to the list of its bus if it is selected
  lemma ListsStep(motors: seq<MM.Config>, c: Core, n: nat)
    requires MM.TableOk(motors) && n < NUM_MOTORS
    ensures motors[n].canBus < NUM_BUSES
    ensures var lists, bus := BusLists(motors, c, n), motors[n].canBus;
            && |lists[bus]| <= n
            && BusLists(motors, c, n + 1) ==
               if Selected(c, n) then lists[bus := lists[bus] + [MotorFrame(motors, c, n)]] else lists
  {
    assert MM.InRange(motors[n]);
  }

  // The list one transmission submits to a bus
  function BusBatch(motors: seq<MM.Config>, c: Core, bus: nat): (fs: Batch)
    requires MM.TableOk(motors)
    ensures |fs| <= NUM_MOTORS
  {
    BusFrames(motors, c, bus, NUM_MOTORS)
  }

  // A selected motor's frame is in its bus's list, right after the frames of
  // the selected motors before it.
  lemma FrameInList(motors: seq<MM.Config>, c: Core, i: nat, n: nat)
    requires MM.TableOk(motors) && i < n <= NUM_MOTORS && Selected(c, i)
    ensures var bus := motors[i].canBus;
            var place := |BusFrames(motors, c, bus, i)|;
            place < |BusFrames(motors, c, bus, n)| && BusFrames(motors, c, bus, n)[place] == MotorFrame(motors, c, i)
  {
    var bus := motors[i].canBus;
    ListsGrow(motors, c, bus, i + 1, n);
    assert BusFrames(motors, c, bus, i + 1) == BusFrames(motors, c, bus, i) + [MotorFrame(motors, c, i)];
  }

  // Every place of a list is the place of a selected motor,
  lemma {:induction false} PlaceHasMotor(motors: seq<MM.Config>, c: Core, bus: nat, n: nat, place: nat) returns (i: nat)
    requires MM.TableOk(motors) && n <= NUM_MOTORS && place < |BusFrames(motors, c, bus, n)|
    ensures i < n && Listed(motors, c, i, bus) && |BusFrames(motors, c, bus, i)| == place
  {
    if place == |BusFrames(motors, c, bus, n - 1)| {
      i := n - 1;
    } else {
      i := PlaceHasMotor(motors, c, bus, n - 1, place);
    }
  }

  // and a later motor has a later place: no two share one, and the order is
  // that of the table.
  lemma PlacesAscend(motors: seq<MM.Config>, c: Core, bus: nat, i: nat, j: nat)
    requires MM.TableOk(motors) && i < j < NUM_MOTORS && Listed(motors, c, i, bus)
    ensures |BusFrames(motors, c, bus, i)| < |BusFrames(motors, c, bus, j)|
  {
    ListsGrow(motors, c, bus, i + 1, j);
  }

  lemma {:induction false} ListsGrow(motors: seq<MM.Config>, c: Core, bus: nat, m: nat, n: nat)
    requires MM.TableOk(motors) && m <= n <= NUM_MOTORS
    ensures BusFrames(motors, c, bus, m) <= BusFrames(motors, c, bus, n)
    decreases n
  {
    if m < n { ListsGrow(motors, c, bus, m, n - 1); }
  }

  // ---------- how many frames ----------

  function SelectedCount(c: Core, n: nat): nat
    requires n <= NUM_MOTORS
  {
    if n == 0 then 0 else SelectedCount(c, n - 1) + if Selected(c, n - 1) then 1 else 0
  }

  // Frames on the first b buses
  function FrameTotal(motors: seq<MM.Config>, c: Core, n: nat, b: nat): nat
    requires MM.TableOk(motors) && n <= NUM_MOTORS
  {
    if b == 0 then 0 else FrameTotal(motors, c, n, b - 1) + |BusFrames(motors, c, b - 1, n)|
  }

  lemma {:induction false} OneMoreMotor(motors: seq<MM.Config>, c: Core, n: nat, b: nat)
    requires MM.TableOk(motors) && 0 < n <= NUM_MOTORS
    ensures FrameTotal(motors, c, n, b) ==
            FrameTotal(motors, c, n - 1, b) + if Selected(c, n - 1) && motors[n - 1].canBus < b then 1 else 0
  {
    if b > 0 { OneMoreMotor(motors, c, n, b - 1); }
  }

  lemma {:induction false} NoMotors(motors: seq<MM.Config>, c: Core, b: nat)
    requires MM.TableOk(motors)
    ensures FrameTotal(motors, c, 0, b) == 0
  {
    if b > 0 { NoMotors(motors, c, b - 1); }
  }

  // The frames on the eight buses together are as many as the motors selected
  lemma {:induction false} CountsSum(motors: seq<MM.Config>, c: Core, n: nat)
    requires MM.TableOk(motors) && n <= NUM_MOTORS
    ensures FrameTotal(motors, c, n, NUM_BUSES) == SelectedCount(c, n)
  {
    if n == 0 {
      NoMotors(motors, c, NUM_BUSES);
    } else {
      CountsSum(motors, c, n - 1);
      OneMoreMotor(motors, c, n, NUM_BUSES);
      assert MM.InRange(motors[n - 1]);
    }
  }

  // ---------- who a frame is for, read off the wire ----------

  function FramesTo(fs: seq<Frame>, motor: nat): nat {
    if fs == [] then 0
    else FramesTo(fs[..|fs| - 1], motor) + if IdMotor(fs[|fs| - 1].canId) == motor then 1 else 0
  }

  function OneTimesTo(fs: seq<Frame>, motor: nat): nat {
    if fs == [] then 0
    else OneTimesTo(fs[..|fs| - 1], motor)
         + if IdMotor(fs[|fs| - 1].canId) == motor && CommType(fs[|fs| - 1].canId) != MOTION_CONTROL then 1 else 0
  }

  lemma CountLast(fs: seq<Frame>, f: Frame, motor: nat)
    ensures FramesTo(fs + [f], motor) == FramesTo(fs, motor) + if f.canId % 0x100 == motor then 1 else 0
    ensures OneTimesTo(fs + [f], motor) ==
            OneTimesTo(fs, motor) + if f.canId % 0x100 == motor && f.canId / 0x100_0000 != 1 then 1 else 0
  {
    assert (fs + [f])[..|fs|] == fs;
  }

  lemma {:induction false} CountConcat(a: seq<Frame>, b: seq<Frame>, motor: nat)
    ensures FramesTo(a + b, motor) == FramesTo(a, motor) + FramesTo(b, motor)
    ensures OneTimesTo(a + b, motor) == OneTimesTo(a, motor) + OneTimesTo(b, motor)
    decreases |b|
  {
    if b == [] {
      assert a + b == a;
    } else {
      assert (a + b)[..|a| + |b| - 1] == a + b[..|b| - 1];
      CountConcat(a, b[..|b| - 1], motor);
    }
  }

  lemma MotorFrameAddress(motors: seq<MM.Config>, c: Core, i: nat)
    requires MM.TableOk(motors) && i < NUM_MOTORS
    ensures IdMotor(MotorFrame(motors, c, i).canId) == motors[i].motorId
    ensures CommType(MotorFrame(motors, c, i).canId) != MOTION_CONTROL <==> c.table[i].OneTime()
  {
    FrameIsAddressed(motors[i], c.table[i]);
  }

  lemma DistinctIds(motors: seq<MM.Config>, i: nat, j: nat)
    requires MM.DistinctPairs(motors) && i < |motors| && j < |motors|
    requires motors[i].canBus == motors[j].canBus && motors[i].motorId == motors[j].motorId
    ensures i == j
  {
  }

  lemma CountOneMotor(motors: seq<MM.Config>, c: Core, i: nat, j: nat)
    requires MM.TableOk(motors) && MM.DistinctPairs(motors) && i < NUM_MOTORS && j < NUM_MOTORS
    requires Listed(motors, c, j, motors[i].canBus)
    ensures var fs, id := BusFrames(motors, c, motors[i].canBus, j), motors[i].motorId;
            var f := MotorFrame(motors, c, j);
            && FramesTo(fs + [f], id) == FramesTo(fs, id) + (if i == j then 1 else 0)
            && OneTimesTo(fs + [f], id) == OneTimesTo(fs, id) + (if i == j && c.table[j].OneTime() then 1 else 0)
  {
    CountLast(BusFrames(motors, c, motors[i].canBus, j), MotorFrame(motors, c, j), motors[i].motorId);
    MotorFrameAddress(motors, c, j);
    if motors[i].motorId == motors[j].motorId { DistinctIds(motors, i, j); }
  }

  lemma FramesToOneMore(motors: seq<MM.Config>, c: Core, i: nat, j: nat)
    requires MM.TableOk(motors) && MM.DistinctPairs(motors) && i < NUM_MOTORS && j < NUM_MOTORS
    ensures var bus, id := motors[i].canBus, motors[i].motorId;
            var before, after := BusFrames(motors, c, bus, j), BusFrames(motors, c, bus, j + 1);
            var mine := i == j && Selected(c, j);
            && FramesTo(after, id) == FramesTo(before, id) + (if mine then 1 else 0)
            && OneTimesTo(after, id) == OneTimesTo(before, id) + (if mine && c.table[j].OneTime() then 1 else 0)
  {
    if Listed(motors, c, j, motors[i].canBus) {
      CountOneMotor(motors, c, i, j);
    }
  }

  // On its bus a motor is sent exactly one frame if it is selected, none if
  // not, and a one-time frame exactly if its command is one.
  lemma {:induction false} FramesToMotor(motors: seq<MM.Config>, c: Core, i: nat, n: nat)
    requires MM.TableOk(motors) && MM.DistinctPairs(motors) && i < NUM_MOTORS && n <= NUM_MOTORS
    ensures var fs, id := BusFrames(motors, c, motors[i].canBus, n), motors[i].motorId;
            && FramesTo(fs, id) == (if i < n && Selected(c, i) then 1 else 0)
            && OneTimesTo(fs, id) == (if i < n && Selected(c, i) && c.table[i].OneTime() then 1 else 0)
    decreases n
  {
    if n <= i {
      FramesBefore(motors, c, i, n);
    } else {
      FramesToOneMore(motors, c, i, n - 1);
      FramesToMotor(motors, c, i, n - 1);
    }
  }

  lemma {:induction false} FramesBefore(motors: seq<MM.Config>, c: Core, i: nat, n: nat)
    requires MM.TableOk(motors) && MM.DistinctPairs(motors) && n <= i < NUM_MOTORS
    ensures var fs, id := BusFrames(motors, c, motors[i].canBus, n), motors[i].motorId;
            FramesTo(fs, id) == 0 && OneTimesTo(fs, id) == 0
  {
    if n > 0 {
      FramesToOneMore(motors, c, i, n - 1);
      FramesBefore(motors, c, i, n - 1);
    }
  }

  // ---------- after transmitting ----------

  predicate HasDisable(t: seq<Cmd>) {
    exists i :: 0 <= i < |t| && t[i].mode == MODE_DISABLE
  }

  function AllIdle(t: seq<Cmd>): (u: seq<Cmd>)
    ensures |u| == |t| && forall i | 0 <= i < |t| :: u[i] == Idle(t[i])
  {
    seq(|t|, i requires 0 <= i < |t| => Idle(t[i]))
  }

  // The one-time slots of the first n idle, the rest unchanged
  function OneTimesIdle(t: seq<Cmd>, n: nat): (u: seq<Cmd>)
    requires n <= |t|
    ensures |u| == |t|
    ensures forall i | 0 <= i < |t| :: u[i] == if i < n && t[i].OneTime() then Idle(t[i]) else t[i]
  {
    seq(|t|, i requires 0 <= i < |t| => if i < n && t[i].OneTime() then Idle(t[i]) else t[i])
  }

  lemma CleanupStep(t: seq<Cmd>, n: nat)
    requires n < |t|
    ensures OneTimesIdle(t, n)[n] == t[n]
    ensures OneTimesIdle(t, n + 1) ==
            if t[n].OneTime() then OneTimesIdle(t, n)[n := Idle(t[n])] else OneTimesIdle(t, n)
  {
  }

  // Slots already idle are idle again
  lemma IdleTwice(t: seq<Cmd>, n: nat)
    requires n <= |t|
    ensures AllIdle(OneTimesIdle(t, n)) == AllIdle(t)
  {
  }

  function AfterCleanup(t: Table): Table {
    if HasDisable(t) then AllIdle(t) else OneTimesIdle(t, NUM_MOTORS)
  }

  function Transmitted(c: Core): Core { Core(AfterCleanup(c.table), 0) }

  // No one-time command survives a transmission, so none is ever sent twice
  lemma TransmitInv(c: Core)
    requires Inv(c)
    ensures Inv(Transmitted(c)) && !HasOneTime(Transmitted(c).table)
  {
    NoneAfterCleanup(c.table);
  }

  lemma NoneAfterCleanup(t: Table)
    ensures !HasOneTime(AfterCleanup(t))
  {
  }

  // Every pending one-time command is selected; and then no motion frame is
  // sent except to a slot whose mode is neither one-time nor 255, if its motor is
  // marked.
  lemma PendingIsSelected(c: Core, i: nat)
    requires Inv(c) && i < NUM_MOTORS && exists j :: 0 <= j < NUM_MOTORS && c.table[j].mode <= 4
    ensures Selected(c, i) <==> c.table[i].mode <= 4 || (c.table[i].mode < 255 && Bit(c.mask, i))
  {
    assert exists j :: 0 <= j < NUM_MOTORS && c.table[j].OneTime();
    if c.mask == 0 { UnmaskedFindsNothing(c); }
  }

  // With an empty mask there is nothing for the unmasked clean-up pass to find
  lemma UnmaskedFindsNothing(c: Core)
    requires Inv(c) && c.mask == 0
    ensures !HasOneTime(c.table)
  {
    forall i: nat | i < NUM_MOTORS ensures !c.table[i].OneTime() { BitOfZero(i); }
  }

  // so a cycle that drains no command for the table after a transmission sends a
  // motion frame to all 23 motors.
  lemma NothingNewSendsAll(c: Core, i: nat)
    requires Inv(c) && c.mask == 0 && i < NUM_MOTORS
    ensures Selected(c, i) && !c.table[i].OneTime()
  {
    UnmaskedFindsNothing(c);
  }

  // A motion command that shares its cycle with a one-time command is not sent
  // in it, and keeps its slot unless a disable was among the one-time commands.
  // It is selected as long as the mask stays empty: MotionRuns says when that is.
  lemma MotionHeldBack(c: Core, i: nat)
    requires Inv(c) && i < NUM_MOTORS && c.table[i].mode == 255
    requires exists j :: 0 <= j < NUM_MOTORS && c.table[j].mode <= 4
    ensures !Selected(c, i) && Selected(Transmitted(c), i)
    ensures var was, now := c.table[i], Transmitted(c).table[i];
            if exists j :: 0 <= j < NUM_MOTORS && c.table[j].mode == 0 then Resting(now, was) else now == was
  {
    PendingIsSelected(c, i);
    TransmitInv(c);
    NothingNewSendsAll(Transmitted(c), i);
  }

  // ---------- a slot at rest ----------

  // What is left of a command once its slot is reset, byte for byte: mode 255,
  // four zero words, and 0x40000000 as damping
  predicate Resting(c: Cmd, was: Cmd) {
    c == Cmd(was.motorId, was.canBus, 255, was.reserved,
             Word(0, 0, 0, 0), Word(0, 0, 0, 0), Word(0, 0, 0, 0), Word(0, 0, 0, 0), Word(0, 0, 0, 0x40))
  }

  // From one table to the next, every slot is reset or it is as it was: all are if
  // one of them held a disable, else those that held a one-time command.
  predicate Cleared(was: seq<Cmd>, now: seq<Cmd>) {
    && |now| == |was|
    && forall i | 0 <= i < |was| ::
         if was[i].mode <= 4 || (exists j :: 0 <= j < |was| && was[j].mode == 0) then Resting(now[i], was[i])
         else now[i] == was[i]
  }

  lemma CleanupClears(t: Table)
    ensures Cleared(t, AfterCleanup(t))
  {
  }

  // A transmission resets every slot if one of them held a disable, and a slot
  // that held a one-time command in any case.
  lemma ResetByTransmission(c: Core, i: nat)
    requires i < NUM_MOTORS
    requires c.table[i].mode <= 4 || exists j :: 0 <= j < NUM_MOTORS && c.table[j].mode == 0
    ensures Resting(Transmitted(c).table[i], c.table[i])
  {
  }

  // The next motion frame then asks for no torque, no motion and no stiffness,
  // and for a damping of 2, whatever was commanded before.
  lemma RestsAfterTransmission(motors: seq<MM.Config>, c: Core, i: nat, q: Quantity)
    requires MM.TableOk(motors) && i < NUM_MOTORS
    requires c.table[i].mode <= 4 || exists j :: 0 <= j < NUM_MOTORS && c.table[j].mode == 0
    ensures ReadWithinStep(motors[i], MotorFrame(motors, Transmitted(c), i), if q.Kd? then 2.0 else 0.0, q)
  {
    ResetByTransmission(c, i);
    RestRead(motors[i], Transmitted(c).table[i], c.table[i], q);
  }

  // A motor reads a resting slot from its frame
  ghost predicate ReadsRest(cfg: MM.Config, f: Frame) {
    forall q: Quantity :: ReadWithinStep(cfg, f, if q.Kd? then 2.0 else 0.0, q)
  }

  lemma RestIsRead(cfg: MM.Config, c: Cmd, was: Cmd)
    requires cfg.limits.Ordered() && cfg.motorId < 0x100 && Resting(c, was)
    ensures ReadsRest(cfg, FrameFor(cfg, c))
  {
    forall q: Quantity ensures ReadWithinStep(cfg, FrameFor(cfg, c), if q.Kd? then 2.0 else 0.0, q) {
      RestRead(cfg, c, was, q);
    }
  }

  lemma RestRead(cfg: MM.Config, c: Cmd, was: Cmd, q: Quantity)
    requires cfg.limits.Ordered() && cfg.motorId < 0x100 && Resting(c, was)
    ensures ReadWithinStep(cfg, FrameFor(cfg, c), if q.Kd? then 2.0 else 0.0, q)
  {
    Constants();
    RestWords(c, was, q);
    NaNBytes(WordOf(c, q));
    MotionFrameValues(cfg, c, q);
  }

  lemma RestWords(c: Cmd, was: Cmd, q: Quantity)
    requires Resting(c, was)
    ensures WordOf(c, q) == if q.Kd? then Word(0, 0, 0, 0x40) else Word(0, 0, 0, 0)
  {
  }

  // Where the limits are symmetric, as all the robot's are, that frame is the
  // same for all motors but for their number and the scale of their damping.
  lemma RestFrameBytes(m: MM.Config, c: Cmd, was: Cmd)
    requires m.limits.Symmetric() && m.limits.kdMax in {5.0, 100.0} && m.direction == 1.0 && m.motorId < 0x100
    requires Resting(c, was)
    ensures FrameFor(m, c) ==
            Frame(0x17F_FF00 + m.motorId, 8, [0x7F, 0xFF, 0x7F, 0xFF, 0, 0] +
                  if m.limits.kdMax == 100.0 then [0x05, 0x1E] else [0x66, 0x66], 1)
  {
    RestLevels(m, c, was);
    RestBytes(m.motorId, if m.limits.kdMax == 100.0 then 0x51E else 0x6666);
  }

  lemma RestBytes(motor: nat, kd: nat)
    requires motor < 0x100 && kd in {0x51E, 0x6666}
    ensures MotionFrame(motor, Levels(0x7FFF, 0x7FFF, 0x7FFF, 0, kd)) ==
            Frame(0x17F_FF00 + motor, 8, [0x7F, 0xFF, 0x7F, 0xFF, 0, 0] +
                  if kd == 0x51E then [0x05, 0x1E] else [0x66, 0x66], 1)
  {
    MotionId(0x7FFF, motor);
  }

  lemma RestLevels(m: MM.Config, c: Cmd, was: Cmd)
    requires m.limits.Symmetric() && m.limits.kdMax in {5.0, 100.0} && m.direction == 1.0 && Resting(c, was)
    ensures LevelsFor(m, c) == Levels(0x7FFF, 0x7FFF, 0x7FFF, 0, if m.limits.kdMax == 100.0 then 0x51E else 0x6666)
  {
    Constants();
    LevelsOfWords(m, c);
    TurnedMeans(m, 0.0);
    Q.MiddleLevel(m.limits.tMax);
    Q.MiddleLevel(m.limits.pMax);
    Q.MiddleLevel(m.limits.vMax);
    Q.LowestLevel(0.0, m.limits.kpMax);
    DampingLevel(m.limits.kdMax);
  }

  // 2 of 5 or 2 of 100
  lemma DampingLevel(hi: real)
    requires hi in {5.0, 100.0}
    ensures Q.FloatToUint(2.0, 0.0, hi, 16) == if hi == 100.0 then 0x51E else 0x6666
  {
    Q.SixteenBits();
    assert 2.0 * 65535.0 / 5.0 == 26214.0 && 26214.0.Floor == 26214;
    assert 2.0 * 65535.0 / 100.0 == 1310.7 && 1310.7.Floor == 1310;
  }

  // ---------- start-up ----------

  function DefaultCmd(i: nat, was: Cmd): Cmd
    requires i < NUM_MOTORS
  {
    Idle(was.(motorId := i as Byte))
  }

  // Every slot commands its own motor and is at rest
  predicate DefaultsSet(now: seq<Cmd>, was: seq<Cmd>) {
    |now| == |was| && forall i | 0 <= i < |now| ::
      now[i].motorId as int == i && Resting(now[i], was[i].(motorId := now[i].motorId))
  }

  lemma {:induction false} AllDefaultsRest(now: seq<Cmd>, was: seq<Cmd>)
    requires |now| == |was| == NUM_MOTORS && forall i: nat | i < NUM_MOTORS :: now[i] == DefaultCmd(i, was[i])
    ensures DefaultsSet(now, was)
  {
    forall i: nat | i < NUM_MOTORS
      ensures now[i].motorId as int == i && Resting(now[i], was[i].(motorId := now[i].motorId))
    {
      DefaultsRest(i, was[i]);
    }
  }

  lemma DefaultsRest(i: nat, was: Cmd)
    requires i < NUM_MOTORS
    ensures Resting(DefaultCmd(i, was), was.(motorId := DefaultCmd(i, was).motorId))
    ensures DefaultCmd(i, was).motorId as nat == i
  {
  }

  // The first frames after start-up ask for nothing but damping
  lemma {:induction false} DefaultFrames(motors: seq<MM.Config>, c: Core, was: seq<Cmd>)
    requires MM.TableOk(motors) && |was| == NUM_MOTORS
    requires forall i: nat | i < NUM_MOTORS :: c.table[i] == DefaultCmd(i, was[i])
    ensures forall i: nat | i < NUM_MOTORS :: ReadsRest(motors[i], MotorFrame(motors, c, i))
  {
    forall i: nat | i < NUM_MOTORS ensures ReadsRest(motors[i], MotorFrame(motors, c, i)) {
      DefaultsRest(i, was[i]);
      RestIsRead(motors[i], c.table[i], was[i].(motorId := c.table[i].motorId));
    }
  }

  lemma {:induction false} AllOnes(k: nat, i: nat)
    requires i < k
    ensures Bit(Pow2(k) - 1, i)
    decreases k
  {
    assert (Pow2(k) - 1) / 2 == Pow2(k - 1) - 1 && (Pow2(k) - 1) % 2 == 1;
    if i > 0 { AllOnes(k - 1, i - 1); }
  }

  lemma DefaultsInv(c: Core)
    requires c.mask == ALL_UPDATED
    requires forall i | 0 <= i < NUM_MOTORS :: c.table[i].motorId as int == i && c.table[i].mode == MODE_MIT_CONTROL
    ensures Inv(c) && !HasOneTime(c.table)
    ensures forall i: nat | i < NUM_MOTORS :: Selected(c, i)
  {
    TwoToThe32();
    forall i: nat | i < NUM_MOTORS ensures Bit(c.mask, i) { AllOnes(32, i); }
  }
}
