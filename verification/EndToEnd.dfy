// From a sealed UDP packet to the frame a motor's CAN controller takes, on the
// objects of both cores: Core 0 handles a packet, Core 1 runs cycles on the same
// ring, and more may have been waiting before it or come after it.

module EndToEnd {
  import opened Bits
  import opened ByteWords
  import opened CanFrames
  import opened CanInterface
  import opened Core1
  import opened Core1Runs
  import opened Core1Spec
  import opened Delivery
  import Feed
  import opened Float32
  import opened MotorCommand
  import opened PacketCommands
  import opened UdpInterface
  import Memory
  import MM = MotorMapping
  import RB = RingBuffer
  import X = XgwProtocol

  const RING_SIZE := 16384

  // ---------- start-up of both cores ----------

  // What the two cores share, and what keeps them apart
  ghost predicate Connected(udp: Udp, core: Pipeline, slots: array<Cmd>)
    reads core, core.working, core.ring, core.ring.data, core.buses
  {
    && udp.ring == core.ring && core.ring.data.Length == RING_SIZE && core.Valid() && core.ringReady
    && slots.Length == NUM_MOTORS && slots != core.working && slots != core.buffer
    && (slots as object) != core.ring.data
    && forall b | b in core.buses :: (b.slots as object) != slots
  }

  // Core 0 sets up the ring, then Core 1 boots: nothing is waiting, nothing has
  // been sent, the cores are connected, and all that is not given is new.
  method PowerUp(data: array<Byte>, motors: seq<MM.Config>, buffer: array<Cmd>, working: array<Cmd>,
                 frames: array2<Frame>, started: seq<bool>, blank: Element, slots: array<Cmd>)
    returns (udp: Udp?, core: Pipeline?)
    requires data.Length == RING_SIZE && MM.TableOk(motors) && |started| == NUM_BUSES
    requires buffer.Length == NUM_MOTORS && working.Length == NUM_MOTORS && buffer != working
    requires frames.Length0 == NUM_BUSES && frames.Length1 == NUM_MOTORS
    requires (buffer as object) != data && (working as object) != data && (slots as object) != data
    requires slots.Length == NUM_MOTORS && slots != working && slots != buffer
    modifies buffer, working
    ensures udp != null && core != null && fresh(udp) && fresh(core) && fresh(core.ring)
    ensures core.motors == motors && core.ring.data == data && core.frames == frames
    ensures core.working == working && core.buffer == buffer && core.ring.mask == 16383
    ensures forall b | b in core.buses :: fresh(b) && fresh(b.slots)
    ensures Connected(udp, core, slots) && core.ring.Contents() == [] && core.ring.sent == core.ring.taken == []
    ensures forall b | 0 <= b < NUM_BUSES :: Started(core.buses[b], started[b])
    ensures core.State() == Core(working[..], ALL_UPDATED) && !HasOneTime(core.State().table)
    ensures forall i: nat | i < NUM_MOTORS :: ReadsRest(motors[i], MotorFrame(motors, core.State(), i))
    ensures forall i: nat | i < NUM_MOTORS :: working[i] == DefaultCmd(i, old(working[i])) == buffer[i]
  {
    RingSizeIsPower();
    var ret, ring := RB.Init(data);
    udp := new Udp(ring);
    core := Boot(motors, ring, buffer, working, frames, started, blank);
  }

  lemma RingSizeIsPower()
    ensures IsPow2(RING_SIZE)
  {
    Pow2Sum(7, 7);
    assert Pow2(7) == 128;
    assert Pow2(14) == RING_SIZE;
  }

  // ---------- one packet, then some cycles ----------

  // What a packet does to the ring
  method PutSets(udp: Udp, d: Item, length: nat, slots: array<Cmd>) returns (ret: int)
    requires RingFramed(udp.ring) && slots.Length == NUM_MOTORS && (slots as object) != udp.ring.data
    requires Defined(d, length)
    modifies udp, udp.ring, udp.ring.data, slots
    ensures RingFramed(udp.ring) && udp.ring.taken == old(udp.ring.taken)
    ensures udp.ring.sent == old(udp.ring.sent) + if ret == 0 then EncodeAll(SetsIn(d, length)) else []
    ensures ret == 0 <==> old(udp.Fits(SetsIn(d, length)))
  {
    ret := udp.ProcessMotorSet(d, length, slots);
  }

  method PutCmds(udp: Udp, d: Item, length: nat, slots: array<Cmd>, ghost was: seq<Cmd>) returns (ret: int)
    requires RingFramed(udp.ring) && slots.Length == NUM_MOTORS && (slots as object) != udp.ring.data
    requires Defined(d, length) && was == slots[..]
    modifies udp, udp.ring, udp.ring.data, slots
    ensures RingFramed(udp.ring) && udp.ring.taken == old(udp.ring.taken)
    ensures udp.ring.sent == old(udp.ring.sent) + if ret == 0 then EncodeAll(CmdsIn(d, length, was)) else []
    ensures ret == 0 <==> old(udp.Fits(CmdsIn(d, length, was)))
  {
    ret := udp.ProcessMotorCmd(d, length, slots);
  }

  // Core 0 handles a packet of mode changes
  method FeedSets(udp: Udp, core: Pipeline, d: Item, length: nat, slots: array<Cmd>) returns (ret: int)
    requires Connected(udp, core, slots) && Defined(d, length)
    modifies udp, core.ring, core.ring.data, slots
    ensures Connected(udp, core, slots)
    ensures core.State() == old(core.State()) && core.Handled() == old(core.Handled())
    ensures core.ring.taken == old(core.ring.taken)
    ensures core.ring.sent == old(core.ring.sent) + if ret == 0 then EncodeAll(SetsIn(d, length)) else []
    ensures ret == 0 <==> old(udp.Fits(SetsIn(d, length)))
  {
    ret := PutSets(udp, d, length, slots);
    assert core.State() == old(core.State()) && core.BusesValid();
  }

  // Core 0 handles a packet of motion commands; `was` is what the conversion
  // array held
  method FeedCmds(udp: Udp, core: Pipeline, d: Item, length: nat, slots: array<Cmd>, ghost was: seq<Cmd>)
    returns (ret: int)
    requires Connected(udp, core, slots) && Defined(d, length) && was == slots[..]
    modifies udp, core.ring, core.ring.data, slots
    ensures Connected(udp, core, slots)
    ensures core.State() == old(core.State()) && core.Handled() == old(core.Handled())
    ensures core.ring.taken == old(core.ring.taken)
    ensures core.ring.sent == old(core.ring.sent) + if ret == 0 then EncodeAll(CmdsIn(d, length, was)) else []
    ensures ret == 0 <==> old(udp.Fits(CmdsIn(d, length, was)))
  {
    ret := PutCmds(udp, d, length, slots, was);
    assert core.State() == old(core.State()) && core.BusesValid();
  }

  // Of a stream whose sent part grew by ps, at least the backlog and ps are
  // consumed: what is consumed is the backlog, then ps, then the first of what
  // was sent meanwhile.
  lemma {:induction false} CyclesConsume(t0: seq<Byte>, s0: seq<Byte>, ps: seq<Cmd>, s2: seq<Byte>, t2: seq<Byte>,
                                         packets: seq<Feed.Packet>)
    returns (later: seq<Cmd>)
    requires t0 <= s0 && t0 <= t2 <= s2 && s0 + EncodeAll(ps) <= s2
    requires |t0| % CMD_SIZE == 0 && |s0| % CMD_SIZE == 0 && |t2| % CMD_SIZE == 0
    requires |s0| + |EncodeAll(ps)| <= |t2| && Feed.Sends(packets, s0 + EncodeAll(ps), s2)
    ensures DecodeAll(t2[|t0|..]) == DecodeAll(s0[|t0|..]) + ps + later
    ensures Feed.From(packets, later)
  {
    var s1 := s0 + EncodeAll(ps);
    WholeMore(s0, ps);
    PrefixOfMore(t0, s0, EncodeAll(ps));
    LongerPrefix(s1, t2, s2);
    ConsumedThree(t0, s0, s1, t2);
    later := DecodeAll(t2[|s1|..]);
    Feed.ReadIsFrom(packets, s1, t2, s2);
    Memory.Halves(s0, EncodeAll(ps));
    DecodeEncodeAll(ps);
  }

  lemma ConsumedThree(t0: seq<Byte>, s0: seq<Byte>, s1: seq<Byte>, t2: seq<Byte>)
    requires t0 <= s0 <= s1 <= t2 && t0 <= s1
    requires |t0| % CMD_SIZE == 0 && |s0| % CMD_SIZE == 0 && |s1| % CMD_SIZE == 0
    ensures DecodeAll(t2[|t0|..]) == DecodeAll(s0[|t0|..]) + DecodeAll(s1[|s0|..]) + DecodeAll(t2[|s1|..])
  {
    ConsumedMore(t0, s0, s1);
    ConsumedMore(t0, s1, t2);
  }

  lemma PrefixOfMore(a: seq<Byte>, b: seq<Byte>, more: seq<Byte>)
    requires a <= b
    ensures a <= b + more && b <= b + more
  {
  }

  // Of two prefixes of a string the longer one extends the other
  lemma LongerPrefix(a: seq<Byte>, b: seq<Byte>, whole: seq<Byte>)
    requires a <= whole && b <= whole && |a| <= |b|
    ensures a <= b
  {
  }

  // That many cycles take the backlog and a packet of `count` commands.  Three
  // do so whatever is waiting.
  ghost predicate EnoughCycles(core: Pipeline, count: nat, cycles: nat)
    reads core.ring
  {
    cycles >= 3 || |core.ring.sent| - |core.ring.taken| + CMD_SIZE * count <= CYCLE_BYTES * cycles
  }

  // Since c0, t0 and traffic0, when s0 had been sent: the ring was sent ps, then
  // some of the packets of the cycles, each whole; the cycles consumed what was
  // waiting, then ps, then `later`, the first of what was sent after it, so
  // nothing if Core 0 was quiet; and they are the run es, whose drains and
  // transmissions gave the state, the frames submitted and the frames taken.
  ghost predicate TookAll(core: Pipeline, inputs: seq<CycleInput>, s0: seq<Byte>, ps: seq<Cmd>, later: seq<Cmd>,
                          es: seq<Event>, c0: Core, t0: seq<Byte>, traffic0: AllTraffic)
    reads core, core.working, core.ring, core.buses
  {
    && t0 <= s0 && Feed.Sends(PacketsOf(inputs, |inputs|), s0 + EncodeAll(ps), core.ring.sent)
    && core.Shape() && core.Ran(c0, t0, traffic0, es) && Follows(es, inputs, |inputs|)
    && Consumed(es) == DecodeAll(s0[|t0|..]) + ps + later
    && Feed.From(PacketsOf(inputs, |inputs|), later)
    && (AllQuiet(inputs, |inputs|) ==> later == [])
  }

  // Cycles after ps was appended to a ring whose sent part was s0
  method CyclesAfter(ghost udp: Udp, core: Pipeline, ghost slots: array<Cmd>, inputs: seq<CycleInput>,
                     ghost s0: seq<Byte>, ghost ps: seq<Cmd>)
    returns (ghost es: seq<Event>, ghost later: seq<Cmd>)
    requires Connected(udp, core, slots)
    requires core.ring.taken <= s0 && |s0| % CMD_SIZE == 0 && core.ring.sent == s0 + EncodeAll(ps)
    requires EnoughCycles(core, 0, |inputs|)
    modifies core`mask, core`commandsReady, core.ring, core.ring.data, core.buffer, core.working
    modifies core.frames, core.buses, set b | b in core.buses :: b.slots
    ensures Connected(udp, core, slots)
    ensures TookAll(core, inputs, s0, ps, later, es,
                    old(core.State()), old(core.ring.taken), old(core.Handled()))
  {
    ghost var t0, sent0 := core.ring.taken, core.ring.sent;
    RingBound(core);
    es := core.MainLoop(inputs);
    EnoughTakesAll(|sent0| - |t0|, |core.ring.taken| - |t0|, |inputs|);
    assert s0 + EncodeAll(ps) <= core.ring.sent;
    later := CyclesConsume(t0, s0, ps, core.ring.sent, core.ring.taken, PacketsOf(inputs, |inputs|));
    if AllQuiet(inputs, |inputs|) { Feed.SilentIsNotRead(PacketsOf(inputs, |inputs|), later); }
  }

  lemma EnoughTakesAll(backlog: int, done: int, cycles: nat)
    requires BacklogTaken(true, backlog, done, cycles)
    requires if cycles >= 3 then backlog < 3 * CYCLE_BYTES else backlog <= CYCLE_BYTES * cycles
    ensures backlog <= done
  {
    if cycles >= 3 { assert CYCLE_BYTES * cycles >= CYCLE_BYTES * 3; }
  }

  lemma RingBound(core: Pipeline)
    requires core.Valid() && core.ring.data.Length == RING_SIZE
    ensures |core.ring.sent| - |core.ring.taken| < 3 * CYCLE_BYTES
  {
  }

  // Core 0 handles a packet and Core 1 runs some cycles on the same ring,
  // whatever was waiting and whatever Core 0 sends meanwhile.  If the ring takes
  // the packet, its commands are consumed after what was waiting; if not, what
  // was waiting is.
  method SetThenCycles(udp: Udp, core: Pipeline, d: Item, length: nat, slots: array<Cmd>, inputs: seq<CycleInput>)
    returns (ret: int, ghost es: seq<Event>, ghost later: seq<Cmd>)
    requires Connected(udp, core, slots) && Defined(d, length) && EnoughCycles(core, |SetsIn(d, length)|, |inputs|)
    modifies udp, slots, core`mask, core`commandsReady, core.ring, core.ring.data, core.buffer, core.working
    modifies core.frames, core.buses, set b | b in core.buses :: b.slots
    ensures Connected(udp, core, slots) && (ret == 0 <==> old(udp.Fits(SetsIn(d, length))))
    ensures TookAll(core, inputs, old(core.ring.sent), if ret == 0 then SetsIn(d, length) else [], later, es,
                    old(core.State()), old(core.ring.taken), old(core.Handled()))
  {
    ghost var s0 := core.ring.sent;
    ret := FeedSets(udp, core, d, length, slots);
    es, later := CyclesAfter(udp, core, slots, inputs, s0, if ret == 0 then SetsIn(d, length) else []);
  }

  method CmdThenCycles(udp: Udp, core: Pipeline, d: Item, length: nat, slots: array<Cmd>, ghost was: seq<Cmd>,
                       inputs: seq<CycleInput>)
    returns (ret: int, ghost es: seq<Event>, ghost later: seq<Cmd>)
    requires Connected(udp, core, slots) && Defined(d, length) && was == slots[..]
    requires EnoughCycles(core, |CmdsIn(d, length, was)|, |inputs|)
    modifies udp, slots, core`mask, core`commandsReady, core.ring, core.ring.data, core.buffer, core.working
    modifies core.frames, core.buses, set b | b in core.buses :: b.slots
    ensures Connected(udp, core, slots) && (ret == 0 <==> old(udp.Fits(CmdsIn(d, length, was))))
    ensures TookAll(core, inputs, old(core.ring.sent), if ret == 0 then CmdsIn(d, length, was) else [], later, es,
                    old(core.State()), old(core.ring.taken), old(core.Handled()))
  {
    ghost var s0 := core.ring.sent;
    ret := FeedCmds(udp, core, d, length, slots, was);
    es, later := CyclesAfter(udp, core, slots, inputs, s0, if ret == 0 then CmdsIn(d, length, was) else []);
  }

  // The commands in the ring
  ghost function Waiting(core: Pipeline): seq<Cmd>
    requires core.ring.taken <= core.ring.sent
    reads core.ring
  {
    DecodeAll(core.ring.sent[|core.ring.taken|..])
  }

  // ---------- the frame for a command of the packet ----------

  // A batch holds f, for motor i, and no other frame for it
  predicate OnlyFrame(motors: seq<MM.Config>, batch: seq<Frame>, i: nat, f: Frame)
    requires i < |motors|
  {
    f in batch && IdMotor(f.canId) == motors[i].motorId && FramesTo(batch, motors[i].motorId) == 1
  }

  // What the controller of motor i takes in event m of a run
  function TakenAt(motors: seq<MM.Config>, up: Buses, c: Core, es: seq<Event>, m: nat, i: nat): seq<Frame>
    requires MM.TableOk(motors) && i < NUM_MOTORS && m < |es|
  {
    GotFor(motors, up, RunCore(c, es[..m]), es[m], i)
  }

  // Command n of a run, the last for its motor, goes into the first clear
  // transmission after its drain: that of event m
  ghost predicate GoesAt(motors: seq<MM.Config>, up: Buses, c: Core, es: seq<Event>, n: nat, m: nat, cmd: Cmd)
    requires MM.TableOk(motors) && cmd.motorId as nat < NUM_MOTORS
  {
    && FirstClearAfter(es, n, m) && Holds(RunCore(c, es[..m]), cmd)
    && var i := cmd.motorId as nat;
       var got := TakenAt(motors, up, c, es, m, i);
       if Goes(motors, up, RunCore(c, es[..m]), es[m], cmd) then OnlyFrame(motors, got, i, FrameFor(motors[i], cmd))
       else FramesTo(got, motors[i].motorId) == 0
  }

  // No later command of the packet, and none of those after it, is for the
  // motor of command k
  predicate LastFor(ps: seq<Cmd>, later: seq<Cmd>, k: nat)
    requires k < |ps|
  {
    (forall j | k < j < |ps| :: ps[j].motorId != ps[k].motorId) &&
    (forall j | 0 <= j < |later| :: later[j].motorId != ps[k].motorId)
  }

  lemma {:induction false} LastInStream(waiting: seq<Cmd>, ps: seq<Cmd>, later: seq<Cmd>, k: nat)
    requires k < |ps| && LastFor(ps, later, k)
    ensures var cs, n := waiting + ps + later, |waiting| + k; LastForMotor(cs, n) && cs[n] == ps[k]
  {
    var cs, n := waiting + ps + later, |waiting| + k;
    assert cs[n] == ps[k];
    forall j | n < j < |cs| ensures cs[j].motorId != cs[n].motorId {
      if j < |waiting| + |ps| {
        assert cs[j] == ps[j - |waiting|];
      } else {
        assert cs[j] == later[j - |waiting| - |ps|];
      }
    }
  }

  // The last cycle of a run drains nothing after its drain
  lemma {:induction false} DrainedBeforeLast(es: seq<Event>, inputs: seq<CycleInput>)
    requires inputs != [] && Follows(es, inputs, |inputs|)
    ensures es[|es| - 1] == Transmit(inputs[|inputs| - 1].stop, inputs[|inputs| - 1].hw)
    ensures Consumed(es[..|es| - 1]) == Consumed(es)
  {
    var k := |inputs| - 1;
    assert es[2 * k + 1] == Transmit(inputs[k].stop, inputs[k].hw);
    assert es == es[..|es| - 1] + [es[|es| - 1]];
    ConsumedSplits(es[..|es| - 1], [es[|es| - 1]]);
    OneEventDraws(es[|es| - 1]);
  }

  lemma OneEventDraws(e: Event)
    ensures Consumed([e]) == Drawn(e)
  {
    assert [e][1..] == [];
  }

  // If the stop flag is clear in the last of the cycles
  lemma {:induction false} PacketCommandGoes(
    motors: seq<MM.Config>, up: Buses, c: Core, es: seq<Event>, inputs: seq<CycleInput>,
    waiting: seq<Cmd>, ps: seq<Cmd>, later: seq<Cmd>, k: nat) returns (m: nat)
    requires MM.TableOk(motors) && MM.DistinctPairs(motors) && Inv(c)
    requires inputs != [] && !inputs[|inputs| - 1].stop
    requires Follows(es, inputs, |inputs|) && Consumed(es) == waiting + ps + later
    requires k < |ps| && ps[k].motorId as nat < NUM_MOTORS && LastFor(ps, later, k)
    ensures GoesAt(motors, up, c, es, |waiting| + k, m, ps[k])
  {
    LastInStream(waiting, ps, later, k);
    DrainedBeforeLast(es, inputs);
    m := FoundInSlot(c, es, |waiting| + k, |es| - 1);
    HeldIsDelivered(motors, up, RunCore(c, es[..m]), es[m], ps[k]);
    FrameIsAddressed(motors[ps[k].motorId as nat], ps[k]);
  }

  // ---------- a mode change reaches its motor ----------

  // The motor gets one frame of the batch and infers this mode from it, up to
  // the two mechanical zero modes, which look alike
  ghost predicate ToldMode(motors: seq<MM.Config>, batch: seq<Frame>, i: nat, mode: Byte)
    requires i < |motors|
  {
    exists f: Frame :: OnlyFrame(motors, batch, i, f) && mode in ModesOf(f) && TellsMode(f, motors[i].motorId, mode)
  }

  // The frame in the numbers of the protocol: type 3 enables, 4 stops and 6 sets a
  // zero, whose first byte is 1 for the two mechanical ones
  predicate TellsMode(f: Frame, motor: nat, mode: Byte) {
    && f.canId == (if mode == 1 then 0x300_0000 else if mode == 0 then 0x400_0000 else 0x600_0000) + motor
    && f.data == [if mode == 2 || mode == 4 then 1 else 0, 0, 0, 0, 0, 0, 0, 0]
  }

  // In the first clear transmission after command n is drained, the motor is
  // told the mode if its bus started and the request is taken, and gets no frame
  // otherwise.
  ghost predicate ModeGoes(motors: seq<MM.Config>, up: Buses, c: Core, es: seq<Event>, n: nat, i: nat, mode: Byte)
    requires MM.TableOk(motors) && i < NUM_MOTORS
  {
    exists m: nat :: FirstClearAfter(es, n, m) && ModeGoesAt(motors, up, c, es, m, i, mode)
  }

  ghost predicate ModeGoesAt(motors: seq<MM.Config>, up: Buses, c: Core, es: seq<Event>, m: nat, i: nat, mode: Byte)
    requires MM.TableOk(motors) && i < NUM_MOTORS && m < |es| && Clear(es[m])
  {
    var got := TakenAt(motors, up, c, es, m, i);
    if Takes(motors, up, RunCore(c, es[..m]), es[m].hw, i) then ToldMode(motors, got, i, mode)
    else FramesTo(got, motors[i].motorId) == 0
  }

  predicate AreSets(ps: seq<Cmd>, ws: seq<WireSet>) {
    |ps| == |ws| && forall j | 0 <= j < |ws| :: ps[j] == FromSet(ws[j])
  }

  lemma {:induction false} SetsAre(h: X.Header, ws: seq<WireSet>, tail: seq<Byte>)
    requires Announces(h, X.MSG_MOTOR_SET, |ws|, SET_SIZE * |ws|)
    requires X.HEADER_SIZE + SET_SIZE * |ws| + |tail| == MAX_PACKET
    ensures Defined(SetItem(h, ws, tail), SetItemLength(ws))
    ensures AreSets(SetsIn(SetItem(h, ws, tail), SetItemLength(ws)), ws)
  {
    ModeChangesDelivered(h, ws, tail, 0);
    forall j: nat | j < |ws| ensures SetsIn(SetItem(h, ws, tail), SetItemLength(ws))[j] == FromSet(ws[j]) {
      ModeChangesDelivered(h, ws, tail, j);
    }
  }

  // Mode change k is a legal one, and the last for its motor
  predicate SetCounts(ws: seq<WireSet>, later: seq<Cmd>, k: nat) {
    && k < |ws| && ws[k].motorId as nat < NUM_MOTORS && ws[k].mode <= 4
    && (forall j | k < j < |ws| :: ws[j].motorId != ws[k].motorId)
    && (forall j | 0 <= j < |later| :: later[j].motorId != ws[k].motorId)
  }

  // A mode change of a packet, consumed in a run with whatever was before and
  // after it but no later command for its motor, goes into the first clear
  // transmission after its drain.
  lemma {:induction false} ModeIsTold(
    motors: seq<MM.Config>, up: Buses, c: Core, es: seq<Event>, n: nat, m: nat, w: WireSet)
    requires MM.TableOk(motors) && w.motorId as nat < NUM_MOTORS && w.mode <= 4
    requires GoesAt(motors, up, c, es, n, m, FromSet(w))
    ensures ModeGoesAt(motors, up, c, es, m, w.motorId as nat, w.mode)
  {
    var i, s := w.motorId as nat, RunCore(c, es[..m]);
    OneTimeFrameTellsMode(motors[i].motorId, w.mode, w.mode);
    SetIsTold(motors[i], w);
    assert FrameFor(motors[i], FromSet(w)) == OneTimeFrame(motors[i].motorId, w.mode);
  }

  lemma SetIsTold(cfg: MM.Config, w: WireSet)
    requires cfg.limits.Ordered() && cfg.motorId < 0x100 && w.mode <= 4
    ensures TellsMode(FrameFor(cfg, FromSet(w)), cfg.motorId, w.mode)
  {
    FrameInNumbers(cfg, FromSet(w));
    IdParts(FrameFor(cfg, FromSet(w)).canId);
  }

  lemma IdParts(id: nat)
    ensures id == id / 0x100_0000 * 0x100_0000 + id / 0x100 % 0x1_0000 * 0x100 + id % 0x100
  {
    assert id / 0x100_0000 == id / 0x100 / 0x1_0000;
  }

  // Every mode change of a packet that counts does so, command k being command
  // n + k of the run
  ghost predicate AllModesGo(motors: seq<MM.Config>, up: Buses, c: Core, es: seq<Event>, n: nat,
                             ws: seq<WireSet>, later: seq<Cmd>)
    requires MM.TableOk(motors)
  {
    forall k: nat | SetCounts(ws, later, k) :: ModeGoes(motors, up, c, es, n + k, ws[k].motorId as nat, ws[k].mode)
  }

  lemma {:induction false} ModesGo(
    motors: seq<MM.Config>, up: Buses, c: Core, es: seq<Event>, inputs: seq<CycleInput>,
    waiting: seq<Cmd>, ps: seq<Cmd>, later: seq<Cmd>, ws: seq<WireSet>)
    requires MM.TableOk(motors) && MM.DistinctPairs(motors) && Inv(c) && AreSets(ps, ws)
    requires inputs != [] && !inputs[|inputs| - 1].stop
    requires Follows(es, inputs, |inputs|) && Consumed(es) == waiting + ps + later
    ensures AllModesGo(motors, up, c, es, |waiting|, ws, later)
  {
    forall k: nat | SetCounts(ws, later, k)
      ensures ModeGoes(motors, up, c, es, |waiting| + k, ws[k].motorId as nat, ws[k].mode)
    {
      var m := PacketCommandGoes(motors, up, c, es, inputs, waiting, ps, later, k);
      ModeIsTold(motors, up, c, es, |waiting| + k, m, ws[k]);
    }
  }

  method SetItemThenCycles(udp: Udp, core: Pipeline, h: X.Header, ws: seq<WireSet>, tail: seq<Byte>,
                           slots: array<Cmd>, inputs: seq<CycleInput>)
    returns (ret: int, ghost es: seq<Event>, ghost ps: seq<Cmd>, ghost later: seq<Cmd>)
    requires Connected(udp, core, slots) && Announces(h, X.MSG_MOTOR_SET, |ws|, SET_SIZE * |ws|)
    requires X.HEADER_SIZE + SET_SIZE * |ws| + |tail| == MAX_PACKET && EnoughCycles(core, |ws|, |inputs|)
    modifies udp, slots, core`mask, core`commandsReady, core.ring, core.ring.data, core.buffer, core.working
    modifies core.frames, core.buses, set b | b in core.buses :: b.slots
    ensures Connected(udp, core, slots) && AreSets(ps, ws) && (ret == 0 <==> old(udp.Fits(ps)))
    ensures TookAll(core, inputs, old(core.ring.sent), if ret == 0 then ps else [], later, es,
                    old(core.State()), old(core.ring.taken), old(core.Handled()))
  {
    SetsAre(h, ws, tail);
    var d := SetItem(h, ws, tail);
    ps := SetsIn(d, SetItemLength(ws));
    ret, es, later := SetThenCycles(udp, core, d, SetItemLength(ws), slots, inputs);
  }

  // Core 0 handles a sealed packet of mode changes, Core 1 runs cycles, three or
  // as many as take what is waiting.  If the ring took the packet and the stop
  // flag is clear at the end, every motor whose bus started and whose controller
  // takes the request is told the last mode sent for it, unless a command for it
  // came later still.
  method ModeChangeReachesMotor(udp: Udp, core: Pipeline, h: X.Header, ws: seq<WireSet>, tail: seq<Byte>,
                                slots: array<Cmd>, inputs: seq<CycleInput>)
    returns (ret: int, ghost es: seq<Event>, ghost ps: seq<Cmd>, ghost later: seq<Cmd>)
    requires Connected(udp, core, slots) && MM.DistinctPairs(core.motors) && inputs != []
    requires Announces(h, X.MSG_MOTOR_SET, |ws|, SET_SIZE * |ws|)
    requires X.HEADER_SIZE + SET_SIZE * |ws| + |tail| == MAX_PACKET && EnoughCycles(core, |ws|, |inputs|)
    modifies udp, slots, core`mask, core`commandsReady, core.ring, core.ring.data, core.buffer, core.working
    modifies core.frames, core.buses, set b | b in core.buses :: b.slots
    ensures Connected(udp, core, slots) && AreSets(ps, ws) && (ret == 0 <==> old(udp.Fits(ps)))
    ensures TookAll(core, inputs, old(core.ring.sent), if ret == 0 then ps else [], later, es,
                    old(core.State()), old(core.ring.taken), old(core.Handled()))
    ensures AllQuiet(inputs, |inputs|) ==> later == []
    ensures ret == 0 && !inputs[|inputs| - 1].stop ==>
              AllModesGo(core.motors, core.Up(), old(core.State()), es, |old(Waiting(core))|, ws, later)
  {
    ghost var c, waiting := core.State(), Waiting(core);
    ret, es, ps, later := SetItemThenCycles(udp, core, h, ws, tail, slots, inputs);
    if ret == 0 && !inputs[|inputs| - 1].stop {
      ModesGo(core.motors, core.Up(), c, es, inputs, waiting, ps, later, ws);
    }
  }

  // ---------- a motion command reaches its motor ----------

  function WireWord(w: WireCmd, q: Quantity): Word {
    match q
    case Torque => w.torque
    case Position => w.position
    case Velocity => w.velocity
    case Kp => w.kp
    case Kd => w.kd
  }

  // A motor reads from its motion frame each quantity of the packet's record,
  // clamped to its limits and rounded down by less than one step, unless the
  // word is a NaN
  ghost predicate Carried(cfg: MM.Config, f: Frame, w: WireCmd) {
    forall q: Quantity | !IsNaN(WireWord(w, q)) ::
      var x := FloatOf(WireWord(w, q));
      ReadWithinStep(cfg, f, if q.Kp? || q.Kd? then x else Turned(cfg, x), q)
  }

  lemma FloatsReachMotor(cfg: MM.Config, w: WireCmd, slot: Cmd)
    requires cfg.limits.Ordered() && cfg.motorId < 0x100
    ensures Carried(cfg, FrameFor(cfg, FromCmd(w, slot)), w)
    ensures forall q: Quantity | !IsNaN(WireWord(w, q)) && (q.Kp? || q.Kd? || cfg.direction == 1.0) ::
              ReadWithinStep(cfg, FrameFor(cfg, FromCmd(w, slot)), FloatOf(WireWord(w, q)), q)
  {
    var cmd := FromCmd(w, slot);
    forall q: Quantity | !IsNaN(WireWord(w, q))
      ensures ReadWithinStep(cfg, FrameFor(cfg, cmd), Asked(cfg, WireWord(w, q), q), q)
    {
      SameWord(w, slot, q);
      MotionFrameValues(cfg, cmd, q);
    }
    forall q: Quantity ensures q.Kp? || q.Kd? || cfg.direction == 1.0 ==>
                                 Asked(cfg, WireWord(w, q), q) == FloatOf(WireWord(w, q)) {
      TurnedMeans(cfg, FloatOf(WireWord(w, q)));
    }
  }

  lemma SameWord(w: WireCmd, slot: Cmd, q: Quantity)
    ensures WordOf(FromCmd(w, slot), q) == WireWord(w, q)
  {
  }

  // The motor gets one frame of the batch, a motion frame, and reads the record
  // from it
  ghost predicate GetsMotion(motors: seq<MM.Config>, batch: seq<Frame>, i: nat, w: WireCmd)
    requires i < |motors|
  {
    exists f: Frame ::
      OnlyFrame(motors, batch, i, f) && f.canId / 0x100_0000 == 1 && Carried(motors[i], f, w)
  }

  // In the first clear transmission after command n is drained, the motor gets
  // the record if no one-time command is in the table, its bus started and the
  // request is taken, and no frame otherwise.
  ghost predicate MotionGoes(motors: seq<MM.Config>, up: Buses, c: Core, es: seq<Event>, n: nat, i: nat, w: WireCmd)
    requires MM.TableOk(motors) && i < NUM_MOTORS
  {
    exists m: nat :: FirstClearAfter(es, n, m) && MotionGoesAt(motors, up, c, es, m, i, w)
  }

  ghost predicate MotionGoesAt(motors: seq<MM.Config>, up: Buses, c: Core, es: seq<Event>, m: nat, i: nat, w: WireCmd)
    requires MM.TableOk(motors) && i < NUM_MOTORS && m < |es| && Clear(es[m])
  {
    var s, got := RunCore(c, es[..m]), TakenAt(motors, up, c, es, m, i);
    if !HasOneTime(s.table) && Takes(motors, up, s, es[m].hw, i) then GetsMotion(motors, got, i, w)
    else FramesTo(got, motors[i].motorId) == 0
  }

  predicate AreCmds(ps: seq<Cmd>, ws: seq<WireCmd>, was: seq<Cmd>) {
    |ps| == |ws| <= |was| && forall j | 0 <= j < |ws| :: ps[j] == FromCmd(ws[j], was[j])
  }

  lemma {:induction false} CmdsAre(h: X.Header, ws: seq<WireCmd>, tail: seq<Byte>, was: seq<Cmd>)
    requires Announces(h, X.MSG_MOTOR_CMD, |ws|, CMD_SIZE * |ws|) && |was| == NUM_MOTORS
    requires X.HEADER_SIZE + CMD_SIZE * |ws| + |tail| == MAX_PACKET
    ensures Defined(CmdItem(h, ws, tail), CmdItemLength(ws))
    ensures AreCmds(CmdsIn(CmdItem(h, ws, tail), CmdItemLength(ws), was), ws, was)
  {
    MotionCommandsDelivered(h, ws, tail, was, 0);
    forall j: nat | j < |ws| ensures CmdsIn(CmdItem(h, ws, tail), CmdItemLength(ws), was)[j] == FromCmd(ws[j], was[j]) {
      MotionCommandsDelivered(h, ws, tail, was, j);
    }
  }

  // Command k is for a motor of the table, and the last for it
  predicate CmdCounts(ws: seq<WireCmd>, later: seq<Cmd>, k: nat) {
    && k < |ws| && ws[k].motorId as nat < NUM_MOTORS
    && (forall j | k < j < |ws| :: ws[j].motorId != ws[k].motorId)
    && (forall j | 0 <= j < |later| :: later[j].motorId != ws[k].motorId)
  }

  lemma {:induction false} MotionIsRead(
    motors: seq<MM.Config>, up: Buses, c: Core, es: seq<Event>, n: nat, m: nat, w: WireCmd, slot: Cmd)
    requires MM.TableOk(motors) && w.motorId as nat < NUM_MOTORS
    requires GoesAt(motors, up, c, es, n, m, FromCmd(w, slot))
    ensures MotionGoesAt(motors, up, c, es, m, w.motorId as nat, w)
  {
    var i := w.motorId as nat;
    FrameInNumbers(motors[i], FromCmd(w, slot));
    FloatsReachMotor(motors[i], w, slot);
  }

  ghost predicate AllMotionsGo(motors: seq<MM.Config>, up: Buses, c: Core, es: seq<Event>, n: nat,
                               ws: seq<WireCmd>, later: seq<Cmd>)
    requires MM.TableOk(motors)
  {
    forall k: nat | CmdCounts(ws, later, k) :: MotionGoes(motors, up, c, es, n + k, ws[k].motorId as nat, ws[k])
  }

  lemma {:induction false} MotionsGo(
    motors: seq<MM.Config>, up: Buses, c: Core, es: seq<Event>, inputs: seq<CycleInput>,
    waiting: seq<Cmd>, ps: seq<Cmd>, later: seq<Cmd>, ws: seq<WireCmd>, was: seq<Cmd>)
    requires MM.TableOk(motors) && MM.DistinctPairs(motors) && Inv(c) && AreCmds(ps, ws, was)
    requires inputs != [] && !inputs[|inputs| - 1].stop
    requires Follows(es, inputs, |inputs|) && Consumed(es) == waiting + ps + later
    ensures AllMotionsGo(motors, up, c, es, |waiting|, ws, later)
  {
    forall k: nat | CmdCounts(ws, later, k)
      ensures MotionGoes(motors, up, c, es, |waiting| + k, ws[k].motorId as nat, ws[k])
    {
      var m := PacketCommandGoes(motors, up, c, es, inputs, waiting, ps, later, k);
      MotionIsRead(motors, up, c, es, |waiting| + k, m, ws[k], was[k]);
    }
  }

  method CmdItemThenCycles(udp: Udp, core: Pipeline, h: X.Header, ws: seq<WireCmd>, tail: seq<Byte>,
                           slots: array<Cmd>, ghost was: seq<Cmd>, inputs: seq<CycleInput>)
    returns (ret: int, ghost es: seq<Event>, ghost ps: seq<Cmd>, ghost later: seq<Cmd>)
    requires Connected(udp, core, slots) && Announces(h, X.MSG_MOTOR_CMD, |ws|, CMD_SIZE * |ws|) && was == slots[..]
    requires X.HEADER_SIZE + CMD_SIZE * |ws| + |tail| == MAX_PACKET && EnoughCycles(core, |ws|, |inputs|)
    modifies udp, slots, core`mask, core`commandsReady, core.ring, core.ring.data, core.buffer, core.working
    modifies core.frames, core.buses, set b | b in core.buses :: b.slots
    ensures Connected(udp, core, slots) && AreCmds(ps, ws, was) && (ret == 0 <==> old(udp.Fits(ps)))
    ensures TookAll(core, inputs, old(core.ring.sent), if ret == 0 then ps else [], later, es,
                    old(core.State()), old(core.ring.taken), old(core.Handled()))
  {
    CmdsAre(h, ws, tail, was);
    var d := CmdItem(h, ws, tail);
    ps := CmdsIn(d, CmdItemLength(ws), was);
    ret, es, later := CmdThenCycles(udp, core, d, CmdItemLength(ws), slots, was, inputs);
  }

  // The same for a sealed packet of motion commands
  method MotionReachesMotor(udp: Udp, core: Pipeline, h: X.Header, ws: seq<WireCmd>, tail: seq<Byte>,
                            slots: array<Cmd>, inputs: seq<CycleInput>)
    returns (ret: int, ghost es: seq<Event>, ghost ps: seq<Cmd>, ghost later: seq<Cmd>)
    requires Connected(udp, core, slots) && MM.DistinctPairs(core.motors) && inputs != []
    requires Announces(h, X.MSG_MOTOR_CMD, |ws|, CMD_SIZE * |ws|)
    requires X.HEADER_SIZE + CMD_SIZE * |ws| + |tail| == MAX_PACKET && EnoughCycles(core, |ws|, |inputs|)
    modifies udp, slots, core`mask, core`commandsReady, core.ring, core.ring.data, core.buffer, core.working
    modifies core.frames, core.buses, set b | b in core.buses :: b.slots
    ensures Connected(udp, core, slots) && AreCmds(ps, ws, old(slots[..])) && (ret == 0 <==> old(udp.Fits(ps)))
    ensures TookAll(core, inputs, old(core.ring.sent), if ret == 0 then ps else [], later, es,
                    old(core.State()), old(core.ring.taken), old(core.Handled()))
    ensures AllQuiet(inputs, |inputs|) ==> later == []
    ensures ret == 0 && !inputs[|inputs| - 1].stop ==>
              AllMotionsGo(core.motors, core.Up(), old(core.State()), es, |old(Waiting(core))|, ws, later)
  {
    ghost var c, waiting, was := core.State(), Waiting(core), slots[..];
    ret, es, ps, later := CmdItemThenCycles(udp, core, h, ws, tail, slots, was, inputs);
    if ret == 0 && !inputs[|inputs| - 1].stop {
      MotionsGo(core.motors, core.Up(), c, es, inputs, waiting, ps, later, ws, was);
    }
  }

  // ---------- from power-up to the first modes ----------

  // Two runs in a row
  lemma {:induction false} JoinRuns(core: Pipeline, c0: Core, t0: seq<Byte>, traffic0: AllTraffic, a: seq<Event>,
                                    t1: seq<Byte>, traffic1: AllTraffic, b: seq<Event>)
    requires core.Shape() && t0 <= t1 && |t0| % CMD_SIZE == 0 && Consumed(a) == DecodeAll(t1[|t0|..])
    requires Adds(core.motors, core.Up(), c0, a, traffic0, traffic1) && core.Ran(RunCore(c0, a), t1, traffic1, b)
    ensures core.Ran(c0, t0, traffic0, a + b)
  {
    RunSplits(core.motors, c0, a, b, 0);
    ConsumedSplits(a, b);
    ConsumedMore(t0, t1, core.ring.taken);
    AddsBoth(core.motors, core.Up(), c0, a, b, traffic0, traffic1, core.Handled());
  }

  // More cycles after a run
  method GoOn(core: Pipeline, more: seq<CycleInput>, ghost c0: Core, ghost t0: seq<Byte>, ghost traffic0: AllTraffic,
              ghost es: seq<Event>)
    returns (ghost rest: seq<Event>)
    requires core.Valid() && core.Ran(c0, t0, traffic0, es)
    modifies core`mask, core`commandsReady, core.ring, core.ring.data, core.buffer, core.working
    modifies core.frames, core.buses, set b | b in core.buses :: b.slots
    ensures core.Valid() && core.Ran(c0, t0, traffic0, es + rest) && Follows(rest, more, |more|)
    ensures Feed.Sends(PacketsOf(more, |more|), old(core.ring.sent), core.ring.sent)
  {
    ghost var t1, traffic1 := core.ring.taken, core.Handled();
    rest := core.MainLoop(more);
    JoinRuns(core, c0, t0, traffic0, es, t1, traffic1, rest);
  }

  // A mode change that no packet of the cycles can overtake counts
  lemma {:induction false} ModesIfSpared(inputs: seq<CycleInput>, ws: seq<WireSet>, later: seq<Cmd>)
    requires Feed.From(PacketsOf(inputs, |inputs|), later)
    ensures forall k: nat | SetCounts(ws, [], k) && Feed.Spares(PacketsOf(inputs, |inputs|), ws[k].motorId) ::
              SetCounts(ws, later, k)
  {
    forall k: nat | SetCounts(ws, [], k) && Feed.Spares(PacketsOf(inputs, |inputs|), ws[k].motorId)
      ensures SetCounts(ws, later, k)
    {
      Feed.SparedIsNotRead(PacketsOf(inputs, |inputs|), later, ws[k].motorId);
    }
  }

  // Nothing handed over and nothing taken
  const NO_TRAFFIC: AllTraffic := seq(NUM_BUSES, _ => Traffic([], []))

  lemma {:induction false} FromNothing(
    motors: seq<MM.Config>, up: Buses, c: Core, es: seq<Event>, after: AllTraffic)
    requires MM.TableOk(motors) && Adds(motors, up, c, es, NO_TRAFFIC, after)
    ensures forall b: nat | b < NUM_BUSES :: after[b] == TrafficInRun(motors, up, c, es, b)
  {
    forall b: nat | b < NUM_BUSES ensures after[b] == TrafficInRun(motors, up, c, es, b) {
      var t := TrafficInRun(motors, up, c, es, b);
      assert [] + t.submitted == t.submitted && [] + t.accepted == t.accepted;
    }
  }

  // Since c0 and traffic0, with an empty ring: the packet ps went into the ring,
  // then some of the packets of both groups of cycles, each whole; the first
  // group consumed ps and the first of those; and both are one run.
  ghost predicate Served(core: Pipeline, inputs: seq<CycleInput>, more: seq<CycleInput>, ps: seq<Cmd>, later: seq<Cmd>,
                         es: seq<Event>, rest: seq<Event>, c0: Core, traffic0: AllTraffic)
    reads core, core.working, core.ring, core.buses
  {
    && Feed.Sends(PacketsOf(inputs, |inputs|) + PacketsOf(more, |more|), EncodeAll(ps), core.ring.sent)
    && core.Shape() && core.Ran(c0, [], traffic0, es + rest)
    && Follows(es, inputs, |inputs|) && Follows(rest, more, |more|)
    && Consumed(es) == ps + later && Feed.From(PacketsOf(inputs, |inputs|), later)
    && (AllQuiet(inputs, |inputs|) ==> later == [])
  }

  lemma {:induction false} FromEmpty(core: Pipeline, inputs: seq<CycleInput>, ps: seq<Cmd>, later: seq<Cmd>,
                                     es: seq<Event>, c0: Core, traffic0: AllTraffic)
    requires TookAll(core, inputs, [], ps, later, es, c0, [], traffic0)
    ensures Feed.Sends(PacketsOf(inputs, |inputs|), EncodeAll(ps), core.ring.sent)
    ensures Consumed(es) == ps + later
  {
    assert [] + EncodeAll(ps) == EncodeAll(ps) && DecodeAll([]) + ps == ps;
  }

  lemma {:induction false} ModesFromEmpty(motors: seq<MM.Config>, up: Buses, c: Core, es: seq<Event>,
                                          inputs: seq<CycleInput>, ws: seq<WireSet>, later: seq<Cmd>)
    requires MM.TableOk(motors) && AllModesGo(motors, up, c, es, 0, ws, later)
    requires Feed.From(PacketsOf(inputs, |inputs|), later)
    ensures forall k: nat | SetCounts(ws, [], k) && Feed.Spares(PacketsOf(inputs, |inputs|), ws[k].motorId) ::
              ModeGoes(motors, up, c, es, k, ws[k].motorId as nat, ws[k].mode)
  {
    ModesIfSpared(inputs, ws, later);
    forall k: nat | SetCounts(ws, [], k) && Feed.Spares(PacketsOf(inputs, |inputs|), ws[k].motorId)
      ensures ModeGoes(motors, up, c, es, k, ws[k].motorId as nat, ws[k].mode)
    {
      assert ModeGoes(motors, up, c, es, 0 + k, ws[k].motorId as nat, ws[k].mode);
    }
  }

  // On an empty ring a packet is taken
  method ServePacket(udp: Udp, core: Pipeline, h: X.Header, ws: seq<WireSet>, tail: seq<Byte>,
                     slots: array<Cmd>, inputs: seq<CycleInput>)
    returns (ret: int, ghost ps: seq<Cmd>, ghost es: seq<Event>, ghost later: seq<Cmd>)
    requires Connected(udp, core, slots) && MM.DistinctPairs(core.motors) && inputs != []
    requires core.ring.sent == core.ring.taken == [] && ws != []
    requires Announces(h, X.MSG_MOTOR_SET, |ws|, SET_SIZE * |ws|)
    requires X.HEADER_SIZE + SET_SIZE * |ws| + |tail| == MAX_PACKET
    modifies udp, slots, core`mask, core`commandsReady, core.ring, core.ring.data, core.buffer, core.working
    modifies core.frames, core.buses, set b | b in core.buses :: b.slots
    ensures core.Valid() && ret == 0 && AreSets(ps, ws)
    ensures Feed.Sends(PacketsOf(inputs, |inputs|), EncodeAll(ps), core.ring.sent)
    ensures core.Ran(old(core.State()), [], old(core.Handled()), es) && Follows(es, inputs, |inputs|)
    ensures Consumed(es) == ps + later && Feed.From(PacketsOf(inputs, |inputs|), later)
    ensures AllQuiet(inputs, |inputs|) ==> later == []
    ensures !inputs[|inputs| - 1].stop ==>
              forall k: nat | SetCounts(ws, [], k) && Feed.Spares(PacketsOf(inputs, |inputs|), ws[k].motorId) ::
                ModeGoes(core.motors, core.Up(), old(core.State()), es, k, ws[k].motorId as nat, ws[k].mode)
  {
    assert |Waiting(core)| == 0;
    ghost var c, traffic := core.State(), core.Handled();
    ret, es, ps, later := ModeChangeReachesMotor(udp, core, h, ws, tail, slots, inputs);
    FromEmpty(core, inputs, ps, later, es, c, traffic);
    if !inputs[|inputs| - 1].stop { ModesFromEmpty(core.motors, core.Up(), c, es, inputs, ws, later); }
  }

  // and the main loop can go on after it
  method ServeModes(udp: Udp, core: Pipeline, h: X.Header, ws: seq<WireSet>, tail: seq<Byte>,
                    slots: array<Cmd>, inputs: seq<CycleInput>, more: seq<CycleInput>)
    returns (ret: int, ghost ps: seq<Cmd>, ghost es: seq<Event>, ghost later: seq<Cmd>, ghost rest: seq<Event>)
    requires Connected(udp, core, slots) && MM.DistinctPairs(core.motors) && inputs != []
    requires core.ring.sent == core.ring.taken == [] && ws != []
    requires Announces(h, X.MSG_MOTOR_SET, |ws|, SET_SIZE * |ws|)
    requires X.HEADER_SIZE + SET_SIZE * |ws| + |tail| == MAX_PACKET
    modifies udp, slots, core`mask, core`commandsReady, core.ring, core.ring.data, core.buffer, core.working
    modifies core.frames, core.buses, set b | b in core.buses :: b.slots
    ensures core.Valid() && ret == 0 && AreSets(ps, ws)
    ensures Served(core, inputs, more, ps, later, es, rest, old(core.State()), old(core.Handled()))
    ensures !inputs[|inputs| - 1].stop ==>
              forall k: nat | SetCounts(ws, [], k) && Feed.Spares(PacketsOf(inputs, |inputs|), ws[k].motorId) ::
                ModeGoes(core.motors, core.Up(), old(core.State()), es, k, ws[k].motorId as nat, ws[k].mode)
  {
    ghost var c, traffic := core.State(), core.Handled();
    ret, ps, es, later := ServePacket(udp, core, h, ws, tail, slots, inputs);
    ghost var sent1 := core.ring.sent;
    rest := GoOn(core, more, c, [], traffic, es);
    Feed.SendsBoth(PacketsOf(inputs, |inputs|), PacketsOf(more, |more|), EncodeAll(ps), sent1, core.ring.sent);
  }

  // The cores start, a first packet of mode changes arrives, cycles run, and go
  // on running.  The ring takes the packet; the state, the frames handed to each
  // bus and the frames it took since power-up are those of one run from the
  // defaults, which consumes the packet first; and in it every motor for which
  // Core 0 sends nothing more meanwhile is told its mode if its bus started and
  // the controller takes the request.
  method FirstModes(data: array<Byte>, motors: seq<MM.Config>, buffer: array<Cmd>, working: array<Cmd>,
                    frames: array2<Frame>, started: Buses, blank: Element, slots: array<Cmd>,
                    h: X.Header, ws: seq<WireSet>, tail: seq<Byte>, inputs: seq<CycleInput>, more: seq<CycleInput>)
    returns (core: Pipeline?, ret: int, ghost c: Core, ghost ps: seq<Cmd>, ghost es: seq<Event>, ghost later: seq<Cmd>,
             ghost rest: seq<Event>)
    requires data.Length == RING_SIZE && MM.TableOk(motors) && MM.DistinctPairs(motors)
    requires buffer.Length == NUM_MOTORS && working.Length == NUM_MOTORS && buffer != working
    requires frames.Length0 == NUM_BUSES && frames.Length1 == NUM_MOTORS
    requires (buffer as object) != data && (working as object) != data && (slots as object) != data
    requires slots.Length == NUM_MOTORS && slots != working && slots != buffer
    requires Announces(h, X.MSG_MOTOR_SET, |ws|, SET_SIZE * |ws|) && ws != []
    requires X.HEADER_SIZE + SET_SIZE * |ws| + |tail| == MAX_PACKET && inputs != []
    modifies data, buffer, working, frames, slots
    ensures core != null && fresh(core) && core.Valid() && ret == 0 && AreSets(ps, ws)
    ensures core.motors == motors && core.Up() == started
    ensures c.mask == ALL_UPDATED && forall i: nat | i < NUM_MOTORS :: c.table[i] == DefaultCmd(i, old(working[i]))
    ensures Served(core, inputs, more, ps, later, es, rest, c, NO_TRAFFIC)
    ensures core.State() == RunCore(c, es + rest)
    ensures forall b: nat | b < NUM_BUSES :: core.Handled()[b] == TrafficInRun(motors, started, c, es + rest, b)
    ensures !inputs[|inputs| - 1].stop ==>
              forall k: nat | SetCounts(ws, [], k) && Feed.Spares(PacketsOf(inputs, |inputs|), ws[k].motorId) ::
                ModeGoes(motors, started, c, es, k, ws[k].motorId as nat, ws[k].mode)
  {
    var udp;
    udp, core := PowerUp(data, motors, buffer, working, frames, started, blank, slots);
    c := core.State();
    assert core.Up() == started && core.Handled() == NO_TRAFFIC;
    ret, ps, es, later, rest := ServeModes(udp, core, h, ws, tail, slots, inputs, more);
    FromNothing(motors, started, c, es + rest, core.Handled());
  }
}
