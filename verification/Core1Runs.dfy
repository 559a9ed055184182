// Whole runs of Core 1: any sequence of drains and transmissions, with the stop
// flag set or clear, from any state that keeps the invariant.

module Core1Runs {
  import opened Bits
  import opened CanFrames
  import opened CanInterface
  import Memory
  import opened Core1Spec
  import opened MotorCommand
  import MM = MotorMapping

  // What the controller of a bus answers to the frame at a place of its list
  type Answering = (nat, nat) -> bool

  // The commands one pass of the drain loop consumed, or one transmission with
  // the stop flag and the controllers as it found them
  datatype Event = Drained(cmds: seq<Cmd>) | Transmit(stop: bool, hw: Answering)

  // A transmission with the stop flag clear
  predicate Clear(e: Event) { e.Transmit? && !e.stop }

  function After(c: Core, e: Event): Core {
    match e
    case Drained(cmds) => TakeAll(c, cmds)
    case Transmit(stop, _) => if stop then c else Transmitted(c)
  }

  function SentOn(motors: seq<MM.Config>, c: Core, e: Event, bus: nat): seq<Frame>
    requires MM.TableOk(motors)
  {
    if Clear(e) then BusBatch(motors, c, bus) else []
  }

  function RunCore(c: Core, es: seq<Event>): Core
    decreases |es|
  {
    if es == [] then c else RunCore(After(c, es[0]), es[1..])
  }

  lemma AfterInv(c: Core, e: Event)
    requires Inv(c)
    ensures Inv(After(c, e))
  {
    match e
    case Drained(cmds) => TakeAllInv(c, cmds);
    case Transmit(_, _) => TransmitInv(c);
  }

  lemma {:induction false} RunInv(c: Core, es: seq<Event>)
    requires Inv(c)
    ensures Inv(RunCore(c, es))
    decreases |es|
  {
    if es != [] {
      AfterInv(c, es[0]);
      RunInv(After(c, es[0]), es[1..]);
    }
  }

  // ---------- the ledger of one-time commands for motor i ----------

  function Pending(c: Core, i: nat): nat
    requires i < NUM_MOTORS
  {
    if c.table[i].OneTime() then 1 else 0
  }

  predicate OneTimeFor(cmd: Cmd, i: nat) { cmd.motorId as nat == i && cmd.OneTime() }

  function OneTimes(cmds: seq<Cmd>, i: nat): nat {
    if cmds == [] then 0
    else OneTimes(cmds[..|cmds| - 1], i) + if OneTimeFor(cmds[|cmds| - 1], i) then 1 else 0
  }

  // Pending commands replaced in their slot by a later command for the motor
  function Overwritten(c: Core, cmds: seq<Cmd>, i: nat): nat
    requires i < NUM_MOTORS
  {
    if cmds == [] then 0
    else
      var n := |cmds| - 1;
      Overwritten(c, cmds[..n], i) + if cmds[n].motorId as nat == i then Pending(TakeAll(c, cmds[..n]), i) else 0
  }

  lemma {:induction false} DrainLedger(c: Core, cmds: seq<Cmd>, i: nat)
    requires i < NUM_MOTORS
    ensures Pending(c, i) + OneTimes(cmds, i) == Overwritten(c, cmds, i) + Pending(TakeAll(c, cmds), i)
    decreases |cmds|
  {
    if cmds != [] { DrainLedger(c, cmds[..|cmds| - 1], i); }
  }

  // Over a run: one-time commands received, overwritten while still pending,
  // and one-time frames addressed to the motor on its bus
  function Received(es: seq<Event>, i: nat): nat
    decreases |es|
  {
    if es == [] then 0
    else (if es[0].Drained? then OneTimes(es[0].cmds, i) else 0) + Received(es[1..], i)
  }

  function Replaced(c: Core, es: seq<Event>, i: nat): nat
    requires i < NUM_MOTORS
    decreases |es|
  {
    if es == [] then 0
    else (if es[0].Drained? then Overwritten(c, es[0].cmds, i) else 0) + Replaced(After(c, es[0]), es[1..], i)
  }

  function SentTo(motors: seq<MM.Config>, c: Core, es: seq<Event>, i: nat): nat
    requires MM.TableOk(motors) && i < NUM_MOTORS
    decreases |es|
  {
    if es == [] then 0
    else OneTimesTo(SentOn(motors, c, es[0], motors[i].canBus), motors[i].motorId)
         + SentTo(motors, After(c, es[0]), es[1..], i)
  }

  // A transmission with the stop flag clear sends the pending command of a
  // motor in exactly one frame and leaves none pending.
  lemma TransmitLedger(motors: seq<MM.Config>, c: Core, e: Event, i: nat)
    requires MM.TableOk(motors) && MM.DistinctPairs(motors) && Inv(c) && i < NUM_MOTORS && e.Transmit?
    ensures Pending(c, i) ==
            OneTimesTo(SentOn(motors, c, e, motors[i].canBus), motors[i].motorId) + Pending(After(c, e), i)
  {
    if !e.stop {
      FramesToMotor(motors, c, i, NUM_MOTORS);
      TransmitInv(c);
    }
  }

  // Every one-time command received is sent in exactly one frame, unless it is
  // still pending or a later command took its slot first.
  lemma {:induction false} OneTimeLedger(motors: seq<MM.Config>, c: Core, es: seq<Event>, i: nat)
    requires MM.TableOk(motors) && MM.DistinctPairs(motors) && Inv(c) && i < NUM_MOTORS
    ensures Pending(c, i) + Received(es, i) ==
            SentTo(motors, c, es, i) + Replaced(c, es, i) + Pending(RunCore(c, es), i)
    decreases |es|
  {
    if es != [] {
      AfterInv(c, es[0]);
      OneTimeLedger(motors, After(c, es[0]), es[1..], i);
      match es[0]
      case Drained(cmds) => DrainLedger(c, cmds, i);
      case Transmit(_, _) => TransmitLedger(motors, c, es[0], i);
    }
  }

  // ---------- the stop flag ----------

  predicate Stopped(es: seq<Event>) {
    forall k | 0 <= k < |es| :: !Clear(es[k])
  }

  function Consumed(es: seq<Event>): seq<Cmd>
    decreases |es|
  {
    if es == [] then [] else (if es[0].Drained? then es[0].cmds else []) + Consumed(es[1..])
  }

  // The answers to the n frames of a list
  function Answers(hw: Answering, bus: nat, n: nat): (a: seq<bool>)
    ensures |a| == n
  {
    seq(n, k requires 0 <= k < n => hw(bus, k))
  }

  // The frames of a transmission that the controller of a bus takes, and those
  // of a run.  `up` says which buses started.
  type Buses = up: seq<bool> | |up| == NUM_BUSES witness seq(NUM_BUSES, _ => true)

  function AcceptedOn(motors: seq<MM.Config>, up: Buses, c: Core, e: Event, bus: nat): seq<Frame>
    requires MM.TableOk(motors) && bus < NUM_BUSES
  {
    var list := BusBatch(motors, c, bus);
    if Clear(e) then TakenFrames(up[bus], list, Answers(e.hw, bus, |list|)) else []
  }

  function AcceptedInRun(motors: seq<MM.Config>, up: Buses, c: Core, es: seq<Event>, bus: nat): seq<Frame>
    requires MM.TableOk(motors) && bus < NUM_BUSES
    decreases |es|
  {
    if es == [] then []
    else AcceptedOn(motors, up, c, es[0], bus) + AcceptedInRun(motors, up, After(c, es[0]), es[1..], bus)
  }

  // All frames of a run on one bus
  function SentInRun(motors: seq<MM.Config>, c: Core, es: seq<Event>, bus: nat): seq<Frame>
    requires MM.TableOk(motors)
    decreases |es|
  {
    if es == [] then []
    else SentOn(motors, c, es[0], bus) + SentInRun(motors, After(c, es[0]), es[1..], bus)
  }

  // While the flag is set nothing is sent, draining goes on, and the table and
  // mask keep every command as if all had been drained at once.
  lemma {:induction false} StopHoldsEverything(motors: seq<MM.Config>, c: Core, es: seq<Event>, bus: nat)
    requires MM.TableOk(motors) && Stopped(es)
    ensures SentInRun(motors, c, es, bus) == []
    ensures RunCore(c, es) == TakeAll(c, Consumed(es))
    decreases |es|
  {
    if es != [] {
      StopHoldsEverything(motors, After(c, es[0]), es[1..], bus);
      if es[0].Drained? { TakeInBatches(c, es[0].cmds, Consumed(es[1..])); }
      assert es[0].Transmit? ==> Consumed(es) == Consumed(es[1..]);
    }
  }

  // The same over frames addressed to one motor
  lemma {:induction false} StopSendsNothing(motors: seq<MM.Config>, c: Core, es: seq<Event>, i: nat)
    requires MM.TableOk(motors) && i < NUM_MOTORS && Stopped(es)
    ensures SentTo(motors, c, es, i) == 0
    decreases |es|
  {
    if es != [] { StopSendsNothing(motors, After(c, es[0]), es[1..], i); }
  }

  lemma {:induction false} RunSplits(motors: seq<MM.Config>, c: Core, a: seq<Event>, b: seq<Event>, i: nat)
    requires MM.TableOk(motors) && i < NUM_MOTORS
    ensures RunCore(c, a + b) == RunCore(RunCore(c, a), b)
    ensures SentTo(motors, c, a + b, i) == SentTo(motors, c, a, i) + SentTo(motors, RunCore(c, a), b, i)
    decreases |a|
  {
    if a == [] {
      assert a + b == b;
    } else {
      assert (a + b)[1..] == a[1..] + b;
      RunSplits(motors, After(c, a[0]), a[1..], b, i);
    }
  }

  lemma {:induction false} SentSplits(motors: seq<MM.Config>, c: Core, a: seq<Event>, b: seq<Event>, bus: nat)
    requires MM.TableOk(motors)
    ensures SentInRun(motors, c, a + b, bus) == SentInRun(motors, c, a, bus) + SentInRun(motors, RunCore(c, a), b, bus)
    decreases |a|
  {
    if a == [] {
      assert a + b == b;
    } else {
      assert (a + b)[1..] == a[1..] + b;
      SentSplits(motors, After(c, a[0]), a[1..], b, bus);
      Memory.Associative(SentOn(motors, c, a[0], bus), SentInRun(motors, After(c, a[0]), a[1..], bus),
               SentInRun(motors, RunCore(c, a), b, bus));
    }
  }

  lemma {:induction false} AcceptedSplits(
    motors: seq<MM.Config>, up: Buses, c: Core, a: seq<Event>, b: seq<Event>, bus: nat)
    requires MM.TableOk(motors) && bus < NUM_BUSES
    ensures AcceptedInRun(motors, up, c, a + b, bus) ==
            AcceptedInRun(motors, up, c, a, bus) + AcceptedInRun(motors, up, RunCore(c, a), b, bus)
    decreases |a|
  {
    if a == [] {
      assert a + b == b;
    } else {
      assert (a + b)[1..] == a[1..] + b;
      AcceptedSplits(motors, up, After(c, a[0]), a[1..], b, bus);
      Memory.Associative(AcceptedOn(motors, up, c, a[0], bus), AcceptedInRun(motors, up, After(c, a[0]), a[1..], bus),
               AcceptedInRun(motors, up, RunCore(c, a), b, bus));
    }
  }

  lemma {:induction false} ConsumedSplits(a: seq<Event>, b: seq<Event>)
    ensures Consumed(a + b) == Consumed(a) + Consumed(b)
    decreases |a|
  {
    if a == [] {
      assert a + b == b;
    } else {
      assert (a + b)[1..] == a[1..] + b;
      ConsumedSplits(a[1..], b);
    }
  }

  // The two events of one cycle of the main loop
  function CycleEvents(cmds: seq<Cmd>, stop: bool, hw: Answering): (es: seq<Event>)
    ensures |es| == 2 && es[0] == Drained(cmds) && es[1] == Transmit(stop, hw)
  {
    [Drained(cmds), Transmit(stop, hw)]
  }

  lemma OneCycle(motors: seq<MM.Config>, c: Core, cmds: seq<Cmd>, e: Event, bus: nat)
    requires MM.TableOk(motors) && e.Transmit?
    ensures var es, drained := CycleEvents(cmds, e.stop, e.hw), TakeAll(c, cmds);
            && RunCore(c, es) == After(drained, e)
            && SentInRun(motors, c, es, bus) == SentOn(motors, drained, e, bus)
            && Consumed(es) == cmds
  {
    var es := CycleEvents(cmds, e.stop, e.hw);
    OneEvent(motors, After(c, es[0]), es[1], bus);
    assert es[1..] == [es[1]];
    assert SentOn(motors, c, es[0], bus) == [];
  }

  lemma OneCycleTakes(motors: seq<MM.Config>, up: Buses, c: Core, cmds: seq<Cmd>, e: Event, bus: nat)
    requires MM.TableOk(motors) && bus < NUM_BUSES && e.Transmit?
    ensures AcceptedInRun(motors, up, c, CycleEvents(cmds, e.stop, e.hw), bus) ==
            AcceptedOn(motors, up, TakeAll(c, cmds), e, bus)
  {
    var es := CycleEvents(cmds, e.stop, e.hw);
    assert es[1..] == [es[1]] && es[1..][1..] == [];
    assert AcceptedOn(motors, up, c, es[0], bus) == [];
    assert AcceptedInRun(motors, up, After(c, es[0]), es[1..], bus) == AcceptedOn(motors, up, TakeAll(c, cmds), e, bus);
  }

  // A run continued by one cycle
  lemma RunMore(motors: seq<MM.Config>, up: Buses, c: Core, es: seq<Event>, cmds: seq<Cmd>, e: Event, bus: nat)
    requires MM.TableOk(motors) && bus < NUM_BUSES && e.Transmit?
    ensures var more, drained := es + CycleEvents(cmds, e.stop, e.hw), TakeAll(RunCore(c, es), cmds);
            && RunCore(c, more) == After(drained, e)
            && SentInRun(motors, c, more, bus) ==
               SentInRun(motors, c, es, bus) + SentOn(motors, drained, e, bus)
            && AcceptedInRun(motors, up, c, more, bus) ==
               AcceptedInRun(motors, up, c, es, bus) + AcceptedOn(motors, up, drained, e, bus)
            && Consumed(more) == Consumed(es) + cmds
  {
    var cycle := CycleEvents(cmds, e.stop, e.hw);
    OneCycle(motors, RunCore(c, es), cmds, e, bus);
    OneCycleTakes(motors, up, RunCore(c, es), cmds, e, bus);
    RunSplits(motors, c, es, cycle, 0);
    SentSplits(motors, c, es, cycle, bus);
    AcceptedSplits(motors, up, c, es, cycle, bus);
    ConsumedSplits(es, cycle);
  }

  // ---------- what the counts of the ledger count ----------

  // Where in a list the elements with a property are
  function PlacesOf<T(!new)>(s: seq<T>, p: T -> bool): set<nat> { set n: nat | n < |s| && p(s[n]) }

  lemma {:induction false} PlacesLast<T(!new)>(s: seq<T>, p: T -> bool)
    requires s != []
    ensures var n := |s| - 1; |PlacesOf(s, p)| == |PlacesOf(s[..n], p)| + if p(s[n]) then 1 else 0
  {
    var n := |s| - 1;
    if p(s[n]) {
      assert PlacesOf(s, p) == PlacesOf(s[..n], p) + {n};
    } else {
      assert PlacesOf(s, p) == PlacesOf(s[..n], p);
    }
  }

  // A command for motor i that is a one-time command, or is not
  function KindFor(i: nat, oneTime: bool): Cmd -> bool {
    (cmd: Cmd) => cmd.motorId as nat == i && (cmd.mode <= 4 <==> oneTime)
  }

  lemma {:induction false} OneTimesCounted(cmds: seq<Cmd>, i: nat)
    ensures OneTimes(cmds, i) == |PlacesOf(cmds, KindFor(i, true))|
    decreases |cmds|
  {
    if cmds != [] {
      OneTimesCounted(cmds[..|cmds| - 1], i);
      PlacesLast(cmds, KindFor(i, true));
    }
  }

  lemma {:induction false} OneTimesConcat(a: seq<Cmd>, b: seq<Cmd>, i: nat)
    ensures OneTimes(a + b, i) == OneTimes(a, i) + OneTimes(b, i)
    decreases |b|
  {
    if b == [] {
      assert a + b == a;
    } else {
      assert (a + b)[..|a| + |b| - 1] == a + b[..|b| - 1];
      OneTimesConcat(a, b[..|b| - 1], i);
    }
  }

  lemma {:induction false} ReceivedInStream(es: seq<Event>, i: nat)
    ensures Received(es, i) == OneTimes(Consumed(es), i)
    decreases |es|
  {
    if es != [] {
      ReceivedInStream(es[1..], i);
      OneTimesConcat(if es[0].Drained? then es[0].cmds else [], Consumed(es[1..]), i);
    }
  }

  // Received are the commands of the run with a mode of at most 4 for the motor;
  // sent are the frames of other types than 1 to it in the lists handed to its
  // bus; and a motor not addressed has nothing overwritten.
  lemma {:induction false} LedgerCounts(motors: seq<MM.Config>, c: Core, es: seq<Event>, i: nat)
    requires MM.TableOk(motors) && i < NUM_MOTORS
    ensures Received(es, i) ==
            |set n: nat | n < |Consumed(es)| && Consumed(es)[n].motorId as nat == i && Consumed(es)[n].mode <= 4|
    ensures SentTo(motors, c, es, i) == OneTimesTo(SentInRun(motors, c, es, motors[i].canBus), motors[i].motorId)
    ensures !Addressed(Consumed(es), i) ==> Replaced(c, es, i) == 0
  {
    ReceivedInStream(es, i);
    OneTimesCounted(Consumed(es), i);
    assert PlacesOf(Consumed(es), KindFor(i, true)) ==
           set n: nat | n < |Consumed(es)| && Consumed(es)[n].motorId as nat == i && Consumed(es)[n].mode <= 4;
    SentIsHanded(motors, c, es, i);
    if !Addressed(Consumed(es), i) { NoneReplaced(c, es, i); }
  }

  lemma {:induction false} SentIsHanded(motors: seq<MM.Config>, c: Core, es: seq<Event>, i: nat)
    requires MM.TableOk(motors) && i < NUM_MOTORS
    ensures SentTo(motors, c, es, i) == OneTimesTo(SentInRun(motors, c, es, motors[i].canBus), motors[i].motorId)
    decreases |es|
  {
    if es != [] {
      var bus := motors[i].canBus;
      SentIsHanded(motors, After(c, es[0]), es[1..], i);
      CountConcat(SentOn(motors, c, es[0], bus), SentInRun(motors, After(c, es[0]), es[1..], bus), motors[i].motorId);
    }
  }

  // A stream that addresses no motor i has no part that does
  lemma NotAddressedInParts(es: seq<Event>, i: nat)
    requires es != [] && !Addressed(Consumed(es), i)
    ensures es[0].Drained? ==> !Addressed(es[0].cmds, i)
    ensures !Addressed(Consumed(es[1..]), i)
  {
    var own, rest := if es[0].Drained? then es[0].cmds else [], Consumed(es[1..]);
    assert Consumed(es) == own + rest;
    forall k | 0 <= k < |own| ensures own[k].motorId as nat != i { assert Consumed(es)[k] == own[k]; }
    forall k | 0 <= k < |rest| ensures rest[k].motorId as nat != i { assert Consumed(es)[|own| + k] == rest[k]; }
  }

  lemma {:induction false} NoneOverwritten(c: Core, cmds: seq<Cmd>, i: nat)
    requires i < NUM_MOTORS && !Addressed(cmds, i)
    ensures Overwritten(c, cmds, i) == 0
    decreases |cmds|
  {
    if cmds != [] {
      AddressedLast(cmds, i);
      NoneOverwritten(c, cmds[..|cmds| - 1], i);
    }
  }

  lemma {:induction false} NoneReplaced(c: Core, es: seq<Event>, i: nat)
    requires i < NUM_MOTORS && !Addressed(Consumed(es), i)
    ensures Replaced(c, es, i) == 0
    decreases |es|
  {
    if es != [] {
      NotAddressedInParts(es, i);
      if es[0].Drained? { NoneOverwritten(c, es[0].cmds, i); }
      NoneReplaced(After(c, es[0]), es[1..], i);
    }
  }

  // ---------- what the buses were given and what they took ----------

  datatype Traffic = Traffic(submitted: seq<Frame>, accepted: seq<Frame>)
  {
    function Plus(more: Traffic): Traffic { Traffic(submitted + more.submitted, accepted + more.accepted) }
  }

  type AllTraffic = t: seq<Traffic> | |t| == NUM_BUSES witness seq(NUM_BUSES, _ => Traffic([], []))

  function TrafficOn(motors: seq<MM.Config>, up: Buses, c: Core, e: Event, bus: nat): Traffic
    requires MM.TableOk(motors) && bus < NUM_BUSES
  {
    Traffic(SentOn(motors, c, e, bus), AcceptedOn(motors, up, c, e, bus))
  }

  function TrafficInRun(motors: seq<MM.Config>, up: Buses, c: Core, es: seq<Event>, bus: nat): Traffic
    requires MM.TableOk(motors) && bus < NUM_BUSES
  {
    Traffic(SentInRun(motors, c, es, bus), AcceptedInRun(motors, up, c, es, bus))
  }

  // What a run, or one event, adds to the traffic of each bus
  ghost predicate Adds(
    motors: seq<MM.Config>, up: Buses, c: Core, es: seq<Event>, before: AllTraffic, after: AllTraffic)
    requires MM.TableOk(motors)
  {
    forall b: nat | b < NUM_BUSES :: after[b] == before[b].Plus(TrafficInRun(motors, up, c, es, b))
  }

  ghost predicate AddsOne(
    motors: seq<MM.Config>, up: Buses, c: Core, e: Event, before: AllTraffic, after: AllTraffic)
    requires MM.TableOk(motors)
  {
    forall b: nat | b < NUM_BUSES :: after[b] == before[b].Plus(TrafficOn(motors, up, c, e, b))
  }

  lemma {:induction false} AddsMore(
    motors: seq<MM.Config>, up: Buses, c: Core, es: seq<Event>, cmds: seq<Cmd>, e: Event,
    t0: AllTraffic, t1: AllTraffic, t2: AllTraffic)
    requires MM.TableOk(motors) && e.Transmit?
    requires Adds(motors, up, c, es, t0, t1) && AddsOne(motors, up, TakeAll(RunCore(c, es), cmds), e, t1, t2)
    ensures Adds(motors, up, c, es + CycleEvents(cmds, e.stop, e.hw), t0, t2)
  {
    forall b: nat | b < NUM_BUSES
      ensures t2[b] == t0[b].Plus(TrafficInRun(motors, up, c, es + CycleEvents(cmds, e.stop, e.hw), b))
    {
      AddsMoreOn(motors, up, c, es, cmds, e, b, t0[b], t1[b], t2[b]);
    }
  }

  // A run after a run is one run
  lemma {:induction false} AddsBoth(
    motors: seq<MM.Config>, up: Buses, c: Core, a: seq<Event>, b: seq<Event>,
    t0: AllTraffic, t1: AllTraffic, t2: AllTraffic)
    requires MM.TableOk(motors) && Adds(motors, up, c, a, t0, t1) && Adds(motors, up, RunCore(c, a), b, t1, t2)
    ensures Adds(motors, up, c, a + b, t0, t2)
  {
    forall bus: nat | bus < NUM_BUSES ensures t2[bus] == t0[bus].Plus(TrafficInRun(motors, up, c, a + b, bus)) {
      var mid := RunCore(c, a);
      SentSplits(motors, c, a, b, bus);
      AcceptedSplits(motors, up, c, a, b, bus);
      Memory.Associative(t0[bus].submitted, SentInRun(motors, c, a, bus), SentInRun(motors, mid, b, bus));
      Memory.Associative(
        t0[bus].accepted, AcceptedInRun(motors, up, c, a, bus), AcceptedInRun(motors, up, mid, b, bus));
    }
  }

  lemma {:induction false} AddsMoreOn(
    motors: seq<MM.Config>, up: Buses, c: Core, es: seq<Event>, cmds: seq<Cmd>, e: Event, b: nat,
    t0: Traffic, t1: Traffic, t2: Traffic)
    requires MM.TableOk(motors) && b < NUM_BUSES && e.Transmit? && t1 == t0.Plus(TrafficInRun(motors, up, c, es, b))
    requires t2 == t1.Plus(TrafficOn(motors, up, TakeAll(RunCore(c, es), cmds), e, b))
    ensures t2 == t0.Plus(TrafficInRun(motors, up, c, es + CycleEvents(cmds, e.stop, e.hw), b))
  {
    var drained := TakeAll(RunCore(c, es), cmds);
    RunMore(motors, up, c, es, cmds, e, b);
    Memory.Associative(t0.submitted, SentInRun(motors, c, es, b), SentOn(motors, drained, e, b));
    Memory.Associative(t0.accepted, AcceptedInRun(motors, up, c, es, b), AcceptedOn(motors, up, drained, e, b));
  }

  lemma OneEvent(motors: seq<MM.Config>, c: Core, e: Event, bus: nat)
    requires MM.TableOk(motors)
    ensures RunCore(c, [e]) == After(c, e)
    ensures SentInRun(motors, c, [e], bus) == SentOn(motors, c, e, bus)
    ensures Consumed([e]) == if e.Drained? then e.cmds else []
  {
    assert [e][1..] == [];
  }

  // A command pending when the stop flag was set, and not overwritten during
  // the stop, goes out in the first transmission after the flag clears, in its
  // own place on its bus, and never again: whatever runs later, no further
  // one-time frame is sent to the motor until a new one-time command arrives.
  lemma {:induction false} PendingSurvivesStop(
    motors: seq<MM.Config>, c: Core, stopped: seq<Event>, clear: Event, later: seq<Event>, i: nat)
    requires MM.TableOk(motors) && MM.DistinctPairs(motors) && Inv(c) && i < NUM_MOTORS
    requires Clear(clear) && c.table[i].OneTime() && Stopped(stopped) && !Addressed(Consumed(stopped), i)
    requires Received(later, i) == 0
    ensures var held := RunCore(c, stopped);
            var place := |BusFrames(motors, held, motors[i].canBus, i)|;
            var batch := BusBatch(motors, held, motors[i].canBus);
            place < |batch| && batch[place] == FrameFor(motors[i], c.table[i])
    ensures SentTo(motors, c, stopped + [clear] + later, i) == 1
  {
    var held := RunCore(c, stopped);
    RunInv(c, stopped);
    StopHoldsEverything(motors, c, stopped, motors[i].canBus);
    TakeAllMeans(c, Consumed(stopped), i);
    PendingIsSelected(held, i);
    FrameInList(motors, held, i, NUM_MOTORS);
    SentOnceThenNever(motors, held, clear, later, i);
    StopSendsNothing(motors, c, stopped, i);
    RunSplits(motors, c, stopped, [clear] + later, i);
    assert stopped + [clear] + later == stopped + ([clear] + later);
  }

  lemma SentOnceThenNever(motors: seq<MM.Config>, c: Core, clear: Event, later: seq<Event>, i: nat)
    requires MM.TableOk(motors) && MM.DistinctPairs(motors) && Inv(c) && i < NUM_MOTORS
    requires Clear(clear) && c.table[i].OneTime() && Received(later, i) == 0
    ensures SentTo(motors, c, [clear] + later, i) == 1
  {
    var sent := Transmitted(c);
    TransmitInv(c);
    TransmitLedger(motors, c, clear, i);
    OneTimeLedger(motors, sent, later, i);
    assert ([clear] + later)[1..] == later;
  }
}
