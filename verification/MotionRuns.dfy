// What happens to a motion command between its arrival and its first frame:
// when the next transmission carries it, and over whole runs whether it is
// sent, superseded, dropped by a disable or still waiting.

module MotionRuns {
  import opened Bits
  import opened CanFrames
  import opened CanInterface
  import opened Core1Runs
  import opened Core1Spec
  import opened Delivery
  import opened MotorCommand
  import opened Options
  import MM = MotorMapping

  // Some command is for a motor of the table
  predicate AnyValid(cmds: seq<Cmd>) {
    exists k :: 0 <= k < |cmds| && cmds[k].motorId as nat < NUM_MOTORS
  }

  // ---------- which motors the transmission after a drain selects ----------

  lemma BitIsNonZero(m: nat, i: nat)
    requires Bit(m, i)
    ensures m != 0
  {
    if m == 0 { BitOfZero(i); }
  }

  lemma {:induction false} MaskAfterDrain(c: Core, cmds: seq<Cmd>)
    ensures TakeAll(c, cmds).mask == 0 <==> c.mask == 0 && !AnyValid(cmds)
    decreases |cmds|
  {
    if cmds != [] {
      var n := |cmds| - 1;
      var before, i := TakeAll(c, cmds[..n]), cmds[n].motorId as nat;
      MaskAfterDrain(c, cmds[..n]);
      ValidLast(cmds);
      if i < NUM_MOTORS {
        SetBit(before.mask, i, i);
        BitIsNonZero(BitOr(before.mask, Pow2(i)), i);
      }
    }
  }

  lemma ValidLast(cmds: seq<Cmd>)
    requires cmds != []
    ensures AnyValid(cmds) <==> AnyValid(cmds[..|cmds| - 1]) || cmds[|cmds| - 1].motorId as nat < NUM_MOTORS
  {
    var n := |cmds| - 1;
    if k :| 0 <= k < n && cmds[..n][k].motorId as nat < NUM_MOTORS { assert cmds[k].motorId as nat < NUM_MOTORS; }
    if k :| 0 <= k < |cmds| && cmds[k].motorId as nat < NUM_MOTORS { assert k < n ==> cmds[..n][k] == cmds[k]; }
  }

  // The last command of a drain for some motor is a one-time command
  predicate LeavesOneTime(cmds: seq<Cmd>) {
    exists j: nat :: j < NUM_MOTORS && LeavesOneTimeAt(cmds, j)
  }

  predicate LeavesOneTimeAt(cmds: seq<Cmd>, j: nat) {
    LatestFor(cmds, j).Some? && LatestFor(cmds, j).value.OneTime()
  }

  lemma OneTimeAfterDrain(c: Core, cmds: seq<Cmd>)
    requires !HasOneTime(c.table)
    ensures HasOneTime(TakeAll(c, cmds).table) <==> LeavesOneTime(cmds)
  {
    var t := TakeAll(c, cmds).table;
    forall j: nat | j < NUM_MOTORS ensures t[j].OneTime() <==> LeavesOneTimeAt(cmds, j) {
      TakeAllMeans(c, cmds, j);
    }
    if LeavesOneTime(cmds) {
      var j: nat :| j < NUM_MOTORS && LeavesOneTimeAt(cmds, j);
      assert t[j].OneTime();
    }
  }

  // Whatever the state before it, a drain leaves motor i selected exactly if its
  // mask bit was or is now set, or the mask is still empty; and not in MIT mode
  // beside a one-time command.
  lemma SelectedAfterDrain(c: Core, cmds: seq<Cmd>, i: nat)
    requires i < NUM_MOTORS
    ensures var d := TakeAll(c, cmds);
            Selected(d, i) <==>
            && (Bit(c.mask, i) || Addressed(cmds, i) || (c.mask == 0 && !AnyValid(cmds)))
            && !(HasOneTime(d.table) && d.table[i].mode == MODE_MIT_CONTROL)
  {
    MaskAfterDrain(c, cmds);
    TakeAllMeans(c, cmds, i);
  }

  // The cycle after a clear transmission.  A motor that the drain does not
  // address is sent its frame exactly if the drain takes no command at all for
  // a motor of the table.  One that it addresses is sent a frame unless its
  // last command is in MIT mode and a one-time command came with it.
  lemma NextCycleSends(motors: seq<MM.Config>, c: Core, cmds: seq<Cmd>, e: Event, i: nat)
    requires MM.TableOk(motors) && MM.DistinctPairs(motors) && Inv(c) && i < NUM_MOTORS && Clear(e)
    ensures var d := TakeAll(Transmitted(c), cmds);
            var sends := if !Addressed(cmds, i) then !AnyValid(cmds) else !HeldBack(cmds, i);
            && (Selected(d, i) <==> sends)
            && FramesTo(SentOn(motors, d, e, motors[i].canBus), motors[i].motorId) == if sends then 1 else 0
  {
    NextCycleSelects(c, cmds, i);
    FramesToMotor(motors, TakeAll(Transmitted(c), cmds), i, NUM_MOTORS);
  }

  // The last command of a drain for motor i is a motion command, and one for
  // some motor is a one-time command
  predicate HeldBack(cmds: seq<Cmd>, i: nat) {
    LatestFor(cmds, i).Some? && LatestFor(cmds, i).value.mode == MODE_MIT_CONTROL && LeavesOneTime(cmds)
  }

  lemma NextCycleSelects(c: Core, cmds: seq<Cmd>, i: nat)
    requires Inv(c) && i < NUM_MOTORS
    ensures Selected(TakeAll(Transmitted(c), cmds), i) <==>
            if !Addressed(cmds, i) then !AnyValid(cmds) else !HeldBack(cmds, i)
  {
    var t := Transmitted(c);
    TransmitInv(c);
    BitOfZero(i);
    SelectedAfterDrain(t, cmds, i);
    OneTimeAfterDrain(t, cmds);
    TakeAllMeans(t, cmds, i);
    if !Addressed(cmds, i) && !AnyValid(cmds) { NoneLeft(cmds); }
  }

  lemma NoneLeft(cmds: seq<Cmd>)
    requires !AnyValid(cmds)
    ensures !LeavesOneTime(cmds)
  {
    forall j: nat | j < NUM_MOTORS ensures !LeavesOneTimeAt(cmds, j) { LatestIsAddressed(cmds, j); }
  }

  lemma {:induction false} LatestIsAddressed(cmds: seq<Cmd>, j: nat)
    ensures LatestFor(cmds, j).Some? ==> Addressed(cmds, j)
    decreases |cmds|
  {
    if cmds != [] {
      LatestIsAddressed(cmds[..|cmds| - 1], j);
      AddressedLast(cmds, j);
    }
  }

  // ---------- the motion command of motor i that has had no frame yet ----------

  predicate MotionFor(cmd: Cmd, i: nat) { cmd.motorId as nat == i && !cmd.OneTime() }

  function WaitTake(w: Option<Cmd>, cmd: Cmd, i: nat): Option<Cmd> {
    if cmd.motorId as nat != i then w else if cmd.OneTime() then None else Some(cmd)
  }

  function WaitAll(w: Option<Cmd>, cmds: seq<Cmd>, i: nat): Option<Cmd> {
    if cmds == [] then w else WaitTake(WaitAll(w, cmds[..|cmds| - 1], i), cmds[|cmds| - 1], i)
  }

  function WaitAfter(c: Core, e: Event, w: Option<Cmd>, i: nat): Option<Cmd>
    requires i < NUM_MOTORS
  {
    match e
    case Drained(cmds) => WaitAll(w, cmds, i)
    case Transmit(stop, _) => if stop then w else if Selected(c, i) || HasDisable(c.table) then None else w
  }

  function WaitRun(c: Core, es: seq<Event>, w: Option<Cmd>, i: nat): Option<Cmd>
    requires i < NUM_MOTORS
    decreases |es|
  {
    if es == [] then w else WaitRun(After(c, es[0]), es[1..], WaitAfter(c, es[0], w, i), i)
  }

  function Size(w: Option<Cmd>): nat { if w.Some? then 1 else 0 }

  // A waiting command is the one in the slot
  predicate Waits(c: Core, w: Option<Cmd>, i: nat)
    requires i < NUM_MOTORS
  {
    w.Some? ==> c.table[i] == w.value && !w.value.OneTime()
  }

  lemma {:induction false} DrainKeepsWaits(c: Core, cmds: seq<Cmd>, w: Option<Cmd>, i: nat)
    requires i < NUM_MOTORS && Waits(c, w, i)
    ensures Waits(TakeAll(c, cmds), WaitAll(w, cmds, i), i)
    decreases |cmds|
  {
    if cmds != [] { DrainKeepsWaits(c, cmds[..|cmds| - 1], w, i); }
  }

  lemma AfterKeepsWaits(c: Core, e: Event, w: Option<Cmd>, i: nat)
    requires i < NUM_MOTORS && Waits(c, w, i)
    ensures Waits(After(c, e), WaitAfter(c, e, w, i), i)
  {
    match e
    case Drained(cmds) => DrainKeepsWaits(c, cmds, w, i);
    case Transmit(_, _) =>
  }

  // ---------- the ledger of motion commands ----------

  function Motions(cmds: seq<Cmd>, i: nat): nat {
    if cmds == [] then 0
    else Motions(cmds[..|cmds| - 1], i) + if MotionFor(cmds[|cmds| - 1], i) then 1 else 0
  }

  // Waiting commands replaced in their slot by a later command for the motor
  function Superseded(w: Option<Cmd>, cmds: seq<Cmd>, i: nat): nat {
    if cmds == [] then 0
    else
      var n := |cmds| - 1;
      Superseded(w, cmds[..n], i) + if cmds[n].motorId as nat == i then Size(WaitAll(w, cmds[..n], i)) else 0
  }

  lemma {:induction false} DrainBalance(w: Option<Cmd>, cmds: seq<Cmd>, i: nat)
    ensures Size(w) + Motions(cmds, i) == Superseded(w, cmds, i) + Size(WaitAll(w, cmds, i))
    decreases |cmds|
  {
    if cmds != [] { DrainBalance(w, cmds[..|cmds| - 1], i); }
  }

  function MotionsReceived(es: seq<Event>, i: nat): nat
    decreases |es|
  {
    if es == [] then 0
    else (if es[0].Drained? then Motions(es[0].cmds, i) else 0) + MotionsReceived(es[1..], i)
  }

  function MotionsSuperseded(c: Core, es: seq<Event>, w: Option<Cmd>, i: nat): nat
    requires i < NUM_MOTORS
    decreases |es|
  {
    if es == [] then 0
    else (if es[0].Drained? then Superseded(w, es[0].cmds, i) else 0)
         + MotionsSuperseded(After(c, es[0]), es[1..], WaitAfter(c, es[0], w, i), i)
  }

  // Waiting commands idled, unsent, by a transmission that found a disable
  predicate Drops(c: Core, e: Event, w: Option<Cmd>, i: nat)
    requires i < NUM_MOTORS
  {
    Clear(e) && w.Some? && !Selected(c, i) && HasDisable(c.table)
  }

  function MotionsDropped(c: Core, es: seq<Event>, w: Option<Cmd>, i: nat): nat
    requires i < NUM_MOTORS
    decreases |es|
  {
    if es == [] then 0
    else (if Drops(c, es[0], w, i) then 1 else 0)
         + MotionsDropped(After(c, es[0]), es[1..], WaitAfter(c, es[0], w, i), i)
  }

  // Motion frames to the motor, read off its bus, in transmissions that found a
  // command waiting
  function MotionsTo(fs: seq<Frame>, motor: nat): int { FramesTo(fs, motor) - OneTimesTo(fs, motor) }

  function FirstFrames(motors: seq<MM.Config>, c: Core, es: seq<Event>, w: Option<Cmd>, i: nat): int
    requires MM.TableOk(motors) && i < NUM_MOTORS
    decreases |es|
  {
    if es == [] then 0
    else (if w.Some? then MotionsTo(SentOn(motors, c, es[0], motors[i].canBus), motors[i].motorId) else 0)
         + FirstFrames(motors, After(c, es[0]), es[1..], WaitAfter(c, es[0], w, i), i)
  }

  // A clear transmission that finds a command waiting for a selected motor
  // sends the motor one frame, at its place, made from that command.
  lemma FirstFrameCarries(motors: seq<MM.Config>, c: Core, w: Option<Cmd>, i: nat)
    requires MM.TableOk(motors) && MM.DistinctPairs(motors) && i < NUM_MOTORS
    requires w.Some? && Waits(c, w, i) && Selected(c, i)
    ensures var bus := motors[i].canBus;
            var place := |BusFrames(motors, c, bus, i)|;
            && place < |BusBatch(motors, c, bus)| && BusBatch(motors, c, bus)[place] == FrameFor(motors[i], w.value)
            && FramesTo(BusBatch(motors, c, bus), motors[i].motorId) == 1
            && MotionsTo(BusBatch(motors, c, bus), motors[i].motorId) == 1
  {
    FrameInList(motors, c, i, NUM_MOTORS);
    FramesToMotor(motors, c, i, NUM_MOTORS);
  }

  lemma TransmitBalance(motors: seq<MM.Config>, c: Core, e: Event, w: Option<Cmd>, i: nat)
    requires MM.TableOk(motors) && MM.DistinctPairs(motors) && i < NUM_MOTORS && e.Transmit?
    requires w.Some? && Waits(c, w, i)
    ensures 1 == MotionsTo(SentOn(motors, c, e, motors[i].canBus), motors[i].motorId)
                 + (if Drops(c, e, w, i) then 1 else 0) + Size(WaitAfter(c, e, w, i))
  {
    if !e.stop { FramesToMotor(motors, c, i, NUM_MOTORS); }
  }

  // Over every run: each motion command received for a motor gets a first frame,
  // is superseded by a later command, is dropped by a disable, or still waits.
  lemma {:induction false} MotionLedger(motors: seq<MM.Config>, c: Core, es: seq<Event>, w: Option<Cmd>, i: nat)
    requires MM.TableOk(motors) && MM.DistinctPairs(motors) && i < NUM_MOTORS && Waits(c, w, i)
    ensures Size(w) + MotionsReceived(es, i) ==
            FirstFrames(motors, c, es, w, i) + MotionsSuperseded(c, es, w, i) + MotionsDropped(c, es, w, i)
            + Size(WaitRun(c, es, w, i))
    ensures Waits(RunCore(c, es), WaitRun(c, es, w, i), i)
    decreases |es|
  {
    if es != [] {
      AfterKeepsWaits(c, es[0], w, i);
      MotionLedger(motors, After(c, es[0]), es[1..], WaitAfter(c, es[0], w, i), i);
      match es[0]
      case Drained(cmds) => DrainBalance(w, cmds, i);
      case Transmit(_, _) => if w.Some? { TransmitBalance(motors, c, es[0], w, i); }
    }
  }

  // Of these first frames, those the controller of the motor takes, and those
  // that are lost on a bus that never started or to a refusal
  function FirstTaken(motors: seq<MM.Config>, up: Buses, c: Core, es: seq<Event>, w: Option<Cmd>, i: nat): int
    requires MM.TableOk(motors) && i < NUM_MOTORS
    decreases |es|
  {
    if es == [] then 0
    else (if w.Some? then MotionsTo(GotFor(motors, up, c, es[0], i), motors[i].motorId) else 0)
         + FirstTaken(motors, up, After(c, es[0]), es[1..], WaitAfter(c, es[0], w, i), i)
  }

  predicate FirstIsLost(motors: seq<MM.Config>, up: Buses, c: Core, e: Event, w: Option<Cmd>, i: nat)
    requires MM.TableOk(motors) && i < NUM_MOTORS
  {
    Clear(e) && w.Some? && Selected(c, i) && !Takes(motors, up, c, e.hw, i)
  }

  function FirstLost(motors: seq<MM.Config>, up: Buses, c: Core, es: seq<Event>, w: Option<Cmd>, i: nat): int
    requires MM.TableOk(motors) && i < NUM_MOTORS
    decreases |es|
  {
    if es == [] then 0
    else (if FirstIsLost(motors, up, c, es[0], w, i) then 1 else 0)
         + FirstLost(motors, up, After(c, es[0]), es[1..], WaitAfter(c, es[0], w, i), i)
  }

  lemma {:induction false} FirstFramesDelivered(
    motors: seq<MM.Config>, up: Buses, c: Core, es: seq<Event>, w: Option<Cmd>, i: nat)
    requires MM.TableOk(motors) && MM.DistinctPairs(motors) && i < NUM_MOTORS && Waits(c, w, i)
    ensures FirstFrames(motors, c, es, w, i) == FirstTaken(motors, up, c, es, w, i) + FirstLost(motors, up, c, es, w, i)
    decreases |es|
  {
    if es != [] {
      AfterKeepsWaits(c, es[0], w, i);
      FirstFramesDelivered(motors, up, After(c, es[0]), es[1..], WaitAfter(c, es[0], w, i), i);
      if Clear(es[0]) {
        FramesToMotor(motors, c, i, NUM_MOTORS);
        TakenExactly(motors, up, c, es[0], i);
      }
    }
  }

  // ---------- what the counts of the ledger count ----------

  lemma {:induction false} MotionsCounted(cmds: seq<Cmd>, i: nat)
    ensures Motions(cmds, i) == |PlacesOf(cmds, KindFor(i, false))|
    decreases |cmds|
  {
    if cmds != [] {
      MotionsCounted(cmds[..|cmds| - 1], i);
      PlacesLast(cmds, KindFor(i, false));
    }
  }

  lemma {:induction false} MotionsConcat(a: seq<Cmd>, b: seq<Cmd>, i: nat)
    ensures Motions(a + b, i) == Motions(a, i) + Motions(b, i)
    decreases |b|
  {
    if b == [] {
      assert a + b == a;
    } else {
      assert (a + b)[..|a| + |b| - 1] == a + b[..|b| - 1];
      MotionsConcat(a, b[..|b| - 1], i);
    }
  }

  lemma {:induction false} MotionsInStream(es: seq<Event>, i: nat)
    ensures MotionsReceived(es, i) == Motions(Consumed(es), i)
    decreases |es|
  {
    if es != [] {
      MotionsInStream(es[1..], i);
      MotionsConcat(if es[0].Drained? then es[0].cmds else [], Consumed(es[1..]), i);
    }
  }

  // Received are the commands of the run with a mode above 4 for the motor.  For a
  // motor not addressed nothing is superseded; without a disable in the table or
  // the run nothing is dropped.
  lemma {:induction false} MotionCounts(c: Core, es: seq<Event>, w: Option<Cmd>, i: nat)
    requires i < NUM_MOTORS
    ensures MotionsReceived(es, i) ==
            |set n: nat | n < |Consumed(es)| && Consumed(es)[n].motorId as nat == i && Consumed(es)[n].mode > 4|
    ensures !Addressed(Consumed(es), i) ==> MotionsSuperseded(c, es, w, i) == 0
    ensures NoDisable(c.table) && NoDisable(Consumed(es)) ==> MotionsDropped(c, es, w, i) == 0
  {
    MotionsInStream(es, i);
    MotionsCounted(Consumed(es), i);
    assert PlacesOf(Consumed(es), KindFor(i, false)) ==
           set n: nat | n < |Consumed(es)| && Consumed(es)[n].motorId as nat == i && Consumed(es)[n].mode > 4;
    if !Addressed(Consumed(es), i) { NoneSuperseded(c, es, w, i); }
    if NoDisable(c.table) && NoDisable(Consumed(es)) { NoneDropped(c, es, w, i); }
  }

  predicate NoDisable(cmds: seq<Cmd>) {
    forall k | 0 <= k < |cmds| :: cmds[k].mode != 0
  }

  lemma {:induction false} NoneSupersededBy(w: Option<Cmd>, cmds: seq<Cmd>, i: nat)
    requires !Addressed(cmds, i)
    ensures Superseded(w, cmds, i) == 0
    decreases |cmds|
  {
    if cmds != [] {
      AddressedLast(cmds, i);
      NoneSupersededBy(w, cmds[..|cmds| - 1], i);
    }
  }

  lemma {:induction false} NoneSuperseded(c: Core, es: seq<Event>, w: Option<Cmd>, i: nat)
    requires i < NUM_MOTORS && !Addressed(Consumed(es), i)
    ensures MotionsSuperseded(c, es, w, i) == 0
    decreases |es|
  {
    if es != [] {
      NotAddressedInParts(es, i);
      if es[0].Drained? { NoneSupersededBy(w, es[0].cmds, i); }
      NoneSuperseded(After(c, es[0]), es[1..], WaitAfter(c, es[0], w, i), i);
    }
  }

  lemma {:induction false} StillNoDisable(c: Core, e: Event)
    requires NoDisable(c.table) && (e.Drained? ==> NoDisable(e.cmds))
    ensures NoDisable(After(c, e).table)
  {
    match e
    case Drained(cmds) => TakenWithoutDisable(c, cmds);
    case Transmit(_, _) =>
  }

  lemma {:induction false} TakenWithoutDisable(c: Core, cmds: seq<Cmd>)
    requires NoDisable(c.table) && NoDisable(cmds)
    ensures NoDisable(TakeAll(c, cmds).table)
    decreases |cmds|
  {
    if cmds != [] { TakenWithoutDisable(c, cmds[..|cmds| - 1]); }
  }

  lemma {:induction false} NoneDropped(c: Core, es: seq<Event>, w: Option<Cmd>, i: nat)
    requires i < NUM_MOTORS && NoDisable(c.table) && NoDisable(Consumed(es))
    ensures MotionsDropped(c, es, w, i) == 0
    decreases |es|
  {
    if es != [] {
      var own, rest := if es[0].Drained? then es[0].cmds else [], Consumed(es[1..]);
      assert Consumed(es) == own + rest && own == Consumed(es)[..|own|] && rest == Consumed(es)[|own|..];
      StillNoDisable(c, es[0]);
      NoneDropped(After(c, es[0]), es[1..], WaitAfter(c, es[0], w, i), i);
    }
  }

  // Of the first frames none is taken on a bus that never started, and none is
  // lost on one that did if its controller takes every request.
  lemma {:induction false} FirstByBus(
    motors: seq<MM.Config>, up: Buses, c: Core, es: seq<Event>, w: Option<Cmd>, i: nat)
    requires MM.TableOk(motors) && MM.DistinctPairs(motors) && i < NUM_MOTORS
    ensures motors[i].canBus < NUM_BUSES
    ensures !up[motors[i].canBus] ==> FirstTaken(motors, up, c, es, w, i) == 0
    ensures up[motors[i].canBus] && TakesEverything(es, motors[i].canBus) ==> FirstLost(motors, up, c, es, w, i) == 0
    decreases |es|
  {
    assert MM.InRange(motors[i]);
    if es != [] {
      FirstByBus(motors, up, After(c, es[0]), es[1..], WaitAfter(c, es[0], w, i), i);
      if Clear(es[0]) { TakenExactly(motors, up, c, es[0], i); }
    }
  }

  // ---------- a motor that is not addressed ----------

  // Cycles that drain the given batches, the stop flag clear
  function Cycles(batches: seq<seq<Cmd>>, hw: Answering): seq<Event>
    decreases |batches|
  {
    if batches == [] then [] else CycleEvents(batches[0], false, hw) + Cycles(batches[1..], hw)
  }

  // How many of them drain no command for a motor of the table
  function QuietCycles(batches: seq<seq<Cmd>>): nat
    decreases |batches|
  {
    if batches == [] then 0 else (if AnyValid(batches[0]) then 0 else 1) + QuietCycles(batches[1..])
  }

  lemma OneCycleUnaddressed(motors: seq<MM.Config>, c: Core, cmds: seq<Cmd>, hw: Answering, i: nat)
    requires MM.TableOk(motors) && MM.DistinctPairs(motors) && i < NUM_MOTORS
    requires Inv(c) && c.mask == 0 && !Addressed(cmds, i)
    ensures var cycle := CycleEvents(cmds, false, hw);
            && FramesTo(SentInRun(motors, c, cycle, motors[i].canBus), motors[i].motorId) ==
               (if AnyValid(cmds) then 0 else 1)
            && Inv(RunCore(c, cycle)) && RunCore(c, cycle).mask == 0
  {
    BitOfZero(i);
    UnmaskedFindsNothing(c);
    SelectedAfterDrain(c, cmds, i);
    OneTimeAfterDrain(c, cmds);
    if !AnyValid(cmds) { NoneLeft(cmds); }
    FramesToMotor(motors, TakeAll(c, cmds), i, NUM_MOTORS);
    OneCycle(motors, c, cmds, Transmit(false, hw), motors[i].canBus);
    TakeAllInv(c, cmds);
    TransmitInv(TakeAll(c, cmds));
  }

  // While no drain addresses motor i, it is sent exactly one frame in each cycle
  // that drains no command for any motor of the table, and none in the others.
  // So a stream of commands for other motors alone keeps it without a frame for
  // as long as it lasts.
  lemma {:induction false} FramesWhileUnaddressed(
    motors: seq<MM.Config>, c: Core, batches: seq<seq<Cmd>>, hw: Answering, i: nat)
    requires MM.TableOk(motors) && MM.DistinctPairs(motors) && i < NUM_MOTORS
    requires Inv(c) && c.mask == 0 && forall k | 0 <= k < |batches| :: !Addressed(batches[k], i)
    ensures FramesTo(SentInRun(motors, c, Cycles(batches, hw), motors[i].canBus), motors[i].motorId) ==
            QuietCycles(batches)
    decreases |batches|
  {
    if batches != [] {
      var bus, cycle := motors[i].canBus, CycleEvents(batches[0], false, hw);
      OneCycleUnaddressed(motors, c, batches[0], hw, i);
      FramesWhileUnaddressed(motors, RunCore(c, cycle), batches[1..], hw, i);
      RunSent(motors, c, cycle, Cycles(batches[1..], hw), i);
    }
  }

  lemma RunSent(motors: seq<MM.Config>, c: Core, a: seq<Event>, b: seq<Event>, i: nat)
    requires MM.TableOk(motors) && i < NUM_MOTORS
    ensures var bus, id := motors[i].canBus, motors[i].motorId;
            FramesTo(SentInRun(motors, c, a + b, bus), id) ==
            FramesTo(SentInRun(motors, c, a, bus), id) + FramesTo(SentInRun(motors, RunCore(c, a), b, bus), id)
  {
    var bus := motors[i].canBus;
    SentSplits(motors, c, a, b, bus);
    CountConcat(SentInRun(motors, c, a, bus), SentInRun(motors, RunCore(c, a), b, bus), motors[i].motorId);
  }

  // ---------- a motion command that is never sent ----------

  // A motion command for motor i arrives with an enable for motor j, and every
  // cycle after that brings one motion command for motor j.
  function StarvingRun(motion: Cmd, enable: Cmd, other: Cmd, hw: Answering, n: nat): seq<Event> {
    CycleEvents([motion, enable], false, hw) + Cycles(seq(n, _ => [other]), hw)
  }

  predicate StarvingCommands(motion: Cmd, enable: Cmd, other: Cmd) {
    && motion.motorId as nat < NUM_MOTORS && motion.mode == MODE_MIT_CONTROL
    && enable.motorId == other.motorId != motion.motorId && other.motorId as nat < NUM_MOTORS
    && enable.mode == MODE_ENABLE && other.mode == MODE_MIT_CONTROL
  }

  lemma OneOther(other: Cmd, i: nat)
    requires other.motorId as nat != i && other.motorId as nat < NUM_MOTORS
    ensures AnyValid([other]) && !Addressed([other], i)
  {
    assert [other][0].motorId as nat < NUM_MOTORS;
  }

  lemma {:induction false} NeverQuiet(other: Cmd, n: nat)
    requires other.motorId as nat < NUM_MOTORS
    ensures QuietCycles(seq(n, _ => [other])) == 0
    decreases n
  {
    if n > 0 {
      assert [other][0].motorId as nat < NUM_MOTORS;
      assert seq(n, _ => [other])[1..] == seq(n - 1, _ => [other]);
      NeverQuiet(other, n - 1);
    }
  }

  lemma TakeTwo(c: Core, a: Cmd, b: Cmd)
    ensures TakeAll(c, [a, b]) == Take(Take(c, a), b)
  {
    assert [a, b][..1] == [a] && [a][..0] == [];
    assert TakeAll(c, [a]) == Take(TakeAll(c, []), a);
  }

  // The enable of the first drain holds the motion command back.
  lemma FirstDrain(c: Core, motion: Cmd, enable: Cmd, other: Cmd)
    requires Inv(c) && c.mask == 0 && StarvingCommands(motion, enable, other)
    ensures var i, d := motion.motorId as nat, TakeAll(c, [motion, enable]);
            Inv(d) && !Selected(d, i) && d.table[i] == motion && !HasDisable(d.table)
  {
    TakeTwo(c, motion, enable);
    TakeAllInv(c, [motion, enable]);
    UnmaskedFindsNothing(c);
    TableOfTwo(c.table, motion, enable, other);
  }

  lemma TableOfTwo(t: Table, motion: Cmd, enable: Cmd, other: Cmd)
    requires !HasOneTime(t) && StarvingCommands(motion, enable, other)
    ensures var i, j := motion.motorId as nat, enable.motorId as nat;
            var u := t[i := motion][j := enable];
            u[i] == motion && HasOneTime(u) && !HasDisable(u)
  {
    var i, j := motion.motorId as nat, enable.motorId as nat;
    var u := t[i := motion][j := enable];
    assert u[j].OneTime();
    forall k | 0 <= k < NUM_MOTORS ensures u[k].mode != MODE_DISABLE { assert !t[k].OneTime(); }
  }

  // ---------- it stays in its slot all the while ----------

  lemma {:induction false} DrainKeepsSlot(c: Core, cmds: seq<Cmd>, i: nat)
    requires i < NUM_MOTORS && !HasDisable(c.table) && NoDisable(cmds)
    ensures !HasDisable(TakeAll(c, cmds).table)
    ensures !Addressed(cmds, i) ==> TakeAll(c, cmds).table[i] == c.table[i]
    decreases |cmds|
  {
    if cmds != [] {
      DrainKeepsSlot(c, cmds[..|cmds| - 1], i);
      AddressedLast(cmds, i);
    }
  }

  lemma TransmitKeepsSlot(c: Core, i: nat)
    requires i < NUM_MOTORS && !HasDisable(c.table) && !c.table[i].OneTime()
    ensures Transmitted(c).table[i] == c.table[i] && !HasDisable(Transmitted(c).table)
  {
  }

  lemma {:induction false} SlotKept(motors: seq<MM.Config>, c: Core, batches: seq<seq<Cmd>>, hw: Answering, i: nat)
    requires MM.TableOk(motors) && i < NUM_MOTORS && !HasDisable(c.table) && !c.table[i].OneTime()
    requires forall k | 0 <= k < |batches| :: NoDisable(batches[k]) && !Addressed(batches[k], i)
    ensures RunCore(c, Cycles(batches, hw)).table[i] == c.table[i]
    decreases |batches|
  {
    if batches != [] {
      var cycle := CycleEvents(batches[0], false, hw);
      DrainKeepsSlot(c, batches[0], i);
      TransmitKeepsSlot(TakeAll(c, batches[0]), i);
      OneCycle(motors, c, batches[0], Transmit(false, hw), 0);
      SlotKept(motors, RunCore(c, cycle), batches[1..], hw, i);
      RunSplits(motors, c, cycle, Cycles(batches[1..], hw), i);
    }
  }

  // Whatever its length, the run sends motor i nothing, although its command is
  // neither superseded nor dropped: it is still in its slot at the end.
  lemma MotionNeverSent(
    motors: seq<MM.Config>, c: Core, motion: Cmd, enable: Cmd, other: Cmd, hw: Answering, n: nat)
    requires MM.TableOk(motors) && MM.DistinctPairs(motors) && Inv(c) && c.mask == 0
    requires StarvingCommands(motion, enable, other)
    ensures var i, es := motion.motorId as nat, StarvingRun(motion, enable, other, hw, n);
            && FramesTo(SentInRun(motors, c, es, motors[i].canBus), motors[i].motorId) == 0
            && RunCore(c, es).table[i] == motion
  {
    var i, cycle := motion.motorId as nat, CycleEvents([motion, enable], false, hw);
    var batches := seq(n, _ => [other]);
    var d := TakeAll(c, [motion, enable]);
    FirstDrain(c, motion, enable, other);
    OneCycle(motors, c, [motion, enable], Transmit(false, hw), motors[i].canBus);
    FramesToMotor(motors, d, i, NUM_MOTORS);
    TransmitInv(d);
    TransmitKeepsSlot(d, i);
    OthersSendNothing(motors, Transmitted(d), other, hw, n, i);
    RunSent(motors, c, cycle, Cycles(batches, hw), i);
    RunSplits(motors, c, cycle, Cycles(batches, hw), i);
  }

  lemma OthersSendNothing(motors: seq<MM.Config>, c: Core, other: Cmd, hw: Answering, n: nat, i: nat)
    requires MM.TableOk(motors) && MM.DistinctPairs(motors) && Inv(c) && c.mask == 0 && i < NUM_MOTORS
    requires other.motorId as nat != i && other.motorId as nat < NUM_MOTORS && other.mode == MODE_MIT_CONTROL
    requires !HasDisable(c.table) && !c.table[i].OneTime()
    ensures var es := Cycles(seq(n, _ => [other]), hw);
            && FramesTo(SentInRun(motors, c, es, motors[i].canBus), motors[i].motorId) == 0
            && RunCore(c, es).table[i] == c.table[i]
  {
    OneOther(other, i);
    NeverQuiet(other, n);
    FramesWhileUnaddressed(motors, c, seq(n, _ => [other]), hw, i);
    SlotKept(motors, c, seq(n, _ => [other]), hw, i);
  }
}
