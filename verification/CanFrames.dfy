// The frame built for one motor: motion control, or enable, disable and zero.

module CanFrames {
  import opened Bits
  import opened ByteWords
  import opened CanInterface
  import opened Float32
  import opened MotorCommand
  import MM = MotorMapping
  import Q = Quantiser

  const MOTION_CONTROL := 1
  const MOTOR_ENABLE := 3
  const MOTOR_STOP := 4
  const SET_POS_ZERO := 6

  const EXTENDED: Octet := 0x01

  // (type << 24) | (level << 8) | motor
  function FrameId(commType: nat, level: nat, motor: nat): nat {
    BitOr(BitOr(commType * 0x100_0000, level * 0x100), motor)
  }

  // What a receiver reads back from an extended identifier
  function CommType(id: nat): nat { id / 0x100_0000 }
  function IdLevel(id: nat): nat { id / 0x100 % 0x1_0000 }
  function IdMotor(id: nat): nat { id % 0x100 }

  lemma {:induction false} OrIsSum(a: nat, k: nat, b: nat)
    requires b < Pow2(k)
    ensures BitOr(a * Pow2(k), b) == a * Pow2(k) + b
    decreases k
  {
    if k == 0 {
      OrZero(a);
    } else {
      var p := Pow2(k - 1);
      assert a * Pow2(k) == 2 * (a * p);
      OrIsSum(a, k - 1, b / 2);
      OrEven(a * p, b);
    }
  }

  lemma {:induction false} OrZero(a: nat)
    ensures BitOr(a, 0) == a
    decreases a
  {
    if a > 0 { OrZero(a / 2); }
  }

  lemma OrEven(x: nat, b: nat)
    ensures BitOr(2 * x, b) == b % 2 + 2 * BitOr(x, b / 2)
  {
    assert (2 * x) / 2 == x && (2 * x) % 2 == 0;
  }

  lemma SplitId(a: nat, b: nat, c: nat, id: nat)
    requires a < 32 && b < 0x1_0000 && c < 0x100 && id == a * 0x100_0000 + b * 0x100 + c
    ensures id < ID29 && CommType(id) == a && IdLevel(id) == b && IdMotor(id) == c
  {
    assert id / 0x100 == a * 0x1_0000 + b;
  }

  lemma IdFields(commType: nat, level: nat, motor: nat)
    requires commType < 32 && level < 0x1_0000 && motor < 0x100
    ensures var id := FrameId(commType, level, motor);
            && id < ID29
            && CommType(id) == commType && IdLevel(id) == level && IdMotor(id) == motor
  {
    Pow2Sum(8, 8);
    Pow2Sum(16, 8);
    assert Pow2(8) == 0x100 && Pow2(24) == 0x100_0000;
    OrIsSum(commType, 24, level * 0x100);
    OrIsSum(commType * 0x1_0000 + level, 8, motor);
    SplitId(commType, level, motor, FrameId(commType, level, motor));
  }

  lemma MotionId(level: nat, motor: nat)
    requires level < 0x1_0000 && motor < 0x100
    ensures FrameId(MOTION_CONTROL, level, motor) == 0x100_0000 + 0x100 * level + motor
  {
    IdFields(MOTION_CONTROL, level, motor);
  }

  function High(v: nat): Octet { v / 0x100 % 0x100 }
  function Low(v: nat): Octet { v % 0x100 }

  function Join(high: nat, low: nat): nat { high * 0x100 + low }

  lemma HighLow(v: nat)
    requires v < 0x1_0000
    ensures Join(High(v), Low(v)) == v
  {
  }

  // ---------- motion control ----------

  function Level(x: real, lo: real, hi: real): (u: nat)
    requires lo < hi
    ensures u < 0x1_0000
  {
    Q.ResultInRange(x, lo, hi, 16);
    Pow2Sum(8, 8);
    assert Pow2(8) == 0x100;
    Q.FloatToUint(x, lo, hi, 16)
  }

  // The five quantities of a motion command, what is asked of a motor for
  // each, and its limits
  datatype Quantity = Torque | Position | Velocity | Kp | Kd

  function WordOf(cmd: Cmd, q: Quantity): Word {
    match q
    case Torque => cmd.torque
    case Position => cmd.position
    case Velocity => cmd.velocity
    case Kp => cmd.kp
    case Kd => cmd.kd
  }

  // A value in the motor's own sense of rotation
  function Turned(cfg: MM.Config, x: real): real { x * cfg.direction }

  lemma TurnedMeans(cfg: MM.Config, x: real)
    ensures cfg.direction == 1.0 ==> Turned(cfg, x) == x
    ensures cfg.direction == -1.0 ==> Turned(cfg, x) == -x
  {
  }

  // Gains have no direction
  function Asked(cfg: MM.Config, w: Word, q: Quantity): real {
    if q.Kp? || q.Kd? then FloatOf(w) else Turned(cfg, FloatOf(w))
  }

  function Wanted(cfg: MM.Config, cmd: Cmd, q: Quantity): real { Asked(cfg, WordOf(cmd, q), q) }

  function Least(l: MM.Limits, q: Quantity): real {
    match q
    case Torque => l.tMin
    case Position => l.pMin
    case Velocity => l.vMin
    case Kp => l.kpMin
    case Kd => l.kdMin
  }

  function Greatest(l: MM.Limits, q: Quantity): real {
    match q
    case Torque => l.tMax
    case Position => l.pMax
    case Velocity => l.vMax
    case Kp => l.kpMax
    case Kd => l.kdMax
  }

  function LevelFor(cfg: MM.Config, cmd: Cmd, q: Quantity): (u: nat)
    requires cfg.limits.Ordered()
    ensures u < 0x1_0000
  {
    Level(Wanted(cfg, cmd, q), Least(cfg.limits, q), Greatest(cfg.limits, q))
  }

  // The five 16-bit levels a motion frame carries
  datatype Levels = Levels(torque: nat, position: nat, velocity: nat, kp: nat, kd: nat)
  {
    predicate Fit() {
      torque < 0x1_0000 && position < 0x1_0000 && velocity < 0x1_0000 && kp < 0x1_0000 && kd < 0x1_0000
    }

    function Of(q: Quantity): nat {
      match q
      case Torque => torque
      case Position => position
      case Velocity => velocity
      case Kp => kp
      case Kd => kd
    }
  }

  function LevelsFor(cfg: MM.Config, cmd: Cmd): (v: Levels)
    requires cfg.limits.Ordered()
    ensures v.Fit()
  {
    Levels(LevelFor(cfg, cmd, Torque), LevelFor(cfg, cmd, Position), LevelFor(cfg, cmd, Velocity),
           LevelFor(cfg, cmd, Kp), LevelFor(cfg, cmd, Kd))
  }

  function MotionData(v: Levels): Payload {
    [High(v.position), Low(v.position), High(v.velocity), Low(v.velocity),
     High(v.kp), Low(v.kp), High(v.kd), Low(v.kd)]
  }

  // The receiver's view of a motion frame
  function ReadMotion(f: Frame): Levels {
    Levels(IdLevel(f.canId), Join(f.data[0], f.data[1]), Join(f.data[2], f.data[3]),
           Join(f.data[4], f.data[5]), Join(f.data[6], f.data[7]))
  }

  // ---------- enable, disable, zero ----------

  function OneTimeType(mode: Byte): (t: nat)
    ensures t < 32
  {
    if mode == MODE_ENABLE then MOTOR_ENABLE
    else if mode == MODE_DISABLE then MOTOR_STOP
    else SET_POS_ZERO
  }

  function OneTimeData(mode: Byte): Payload {
    [if mode == MODE_MECH_ZERO || mode == MODE_ZERO_STA_MECH then 1 else 0, 0, 0, 0, 0, 0, 0, 0]
  }

  function MotionFrame(motor: nat, v: Levels): (f: Frame)
    requires motor < 0x100 && v.Fit()
  {
    IdFields(MOTION_CONTROL, v.torque, motor);
    Frame(FrameId(MOTION_CONTROL, v.torque, motor), 8, MotionData(v), EXTENDED)
  }

  function OneTimeFrame(motor: nat, mode: Byte): (f: Frame)
    requires motor < 0x100
  {
    IdFields(OneTimeType(mode), 0, motor);
    Frame(FrameId(OneTimeType(mode), 0, motor), 8, OneTimeData(mode), EXTENDED)
  }

  function FrameFor(cfg: MM.Config, cmd: Cmd): Frame
    requires cfg.limits.Ordered() && cfg.motorId < 0x100
  {
    if cmd.OneTime() then OneTimeFrame(cfg.motorId, cmd.mode)
    else MotionFrame(cfg.motorId, LevelsFor(cfg, cmd))
  }

  // Every frame is an extended 8-byte frame addressed to its motor, and its
  // type tells whether it is a one-time command.
  lemma FrameIsAddressed(cfg: MM.Config, cmd: Cmd)
    requires cfg.limits.Ordered() && cfg.motorId < 0x100
    ensures var f := FrameFor(cfg, cmd);
            && f.dlc == 8 && f.Extended() && !f.Remote()
            && f.canId < ID29 && IdMotor(f.canId) == cfg.motorId
            && (CommType(f.canId) == MOTION_CONTROL <==> !cmd.OneTime())
  {
    if cmd.OneTime() {
      IdFields(OneTimeType(cmd.mode), 0, cfg.motorId);
    } else {
      IdFields(MOTION_CONTROL, LevelsFor(cfg, cmd).torque, cfg.motorId);
    }
  }

  // The frame in the numbers of the protocol: its type, its motor, and for a
  // one-time command no level and a first byte that marks the two mechanical
  // zero modes
  lemma FrameInNumbers(cfg: MM.Config, cmd: Cmd)
    requires cfg.limits.Ordered() && cfg.motorId < 0x100
    ensures var f := FrameFor(cfg, cmd);
            && f.canId / 0x100_0000 == (if cmd.mode == 1 then 3 else if cmd.mode == 0 then 4
                                        else if cmd.mode <= 4 then 6 else 1)
            && f.canId % 0x100 == cfg.motorId && f.canId < 0x2000_0000 && f.dlc == 8 && f.flags == 1
            && (cmd.mode <= 4 ==>
                  && f.canId / 0x100 % 0x1_0000 == 0
                  && f.data == [if cmd.mode == 2 || cmd.mode == 4 then 1 else 0, 0, 0, 0, 0, 0, 0, 0])
  {
    if cmd.OneTime() {
      IdFields(OneTimeType(cmd.mode), 0, cfg.motorId);
    } else {
      IdFields(MOTION_CONTROL, LevelsFor(cfg, cmd).torque, cfg.motorId);
    }
  }

  // The levels from what the words of the command stand for: the three set
  // points turn with the motor, the gains do not
  lemma LevelsOfWords(cfg: MM.Config, cmd: Cmd)
    requires cfg.limits.Ordered()
    ensures var v, l := LevelsFor(cfg, cmd), cfg.limits;
            && v.torque == Q.FloatToUint(Turned(cfg, FloatOf(cmd.torque)), l.tMin, l.tMax, 16)
            && v.position == Q.FloatToUint(Turned(cfg, FloatOf(cmd.position)), l.pMin, l.pMax, 16)
            && v.velocity == Q.FloatToUint(Turned(cfg, FloatOf(cmd.velocity)), l.vMin, l.vMax, 16)
            && v.kp == Q.FloatToUint(FloatOf(cmd.kp), l.kpMin, l.kpMax, 16)
            && v.kd == Q.FloatToUint(FloatOf(cmd.kd), l.kdMin, l.kdMax, 16)
  {
  }

  // and where they lie in a motion frame
  lemma MotionBits(cfg: MM.Config, cmd: Cmd)
    requires cfg.limits.Ordered() && cfg.motorId < 0x100 && cmd.mode > 4
    ensures var f, v := FrameFor(cfg, cmd), LevelsFor(cfg, cmd);
            f.canId == 0x100_0000 + 0x100 * v.torque + cfg.motorId && f.dlc == 8 && f.flags == 1 && DataHolds(f.data, v)
  {
    LevelBits(cfg.motorId, LevelsFor(cfg, cmd));
  }

  // Four levels as big-endian pairs of bytes
  predicate DataHolds(data: Payload, v: Levels) {
    && 0x100 * (data[0] as int) + data[1] as int == v.position
    && 0x100 * (data[2] as int) + data[3] as int == v.velocity
    && 0x100 * (data[4] as int) + data[5] as int == v.kp
    && 0x100 * (data[6] as int) + data[7] as int == v.kd
  }

  lemma LevelBits(motor: nat, v: Levels)
    requires motor < 0x100 && v.Fit()
    ensures MotionFrame(motor, v).canId == 0x100_0000 + 0x100 * v.torque + motor
    ensures DataHolds(MotionFrame(motor, v).data, v)
  {
    MotionId(v.torque, motor);
    HighLow(v.position);
    HighLow(v.velocity);
    HighLow(v.kp);
    HighLow(v.kd);
  }

  lemma MotionFrameCarries(motor: nat, v: Levels)
    requires motor < 0x100 && v.Fit()
    ensures ReadMotion(MotionFrame(motor, v)) == v
  {
    IdFields(MOTION_CONTROL, v.torque, motor);
    HighLow(v.position);
    HighLow(v.velocity);
    HighLow(v.kp);
    HighLow(v.kd);
  }

  // The quantity a motor reads out of its motion frame is x, clamped to its
  // limits and rounded down by less than one quantisation step
  predicate ReadWithinStep(cfg: MM.Config, f: Frame, x: real, q: Quantity) {
    var lo, hi := Least(cfg.limits, q), Greatest(cfg.limits, q);
    var y := Q.UintToFloat(ReadMotion(f).Of(q), lo, hi, 16);
    Q.Clamp(x, lo, hi) - Q.StepSize(lo, hi, 16) < y <= Q.Clamp(x, lo, hi)
  }

  // So what the motor reads lies below the clamped value by less than one step,
  // and two values that fit the same frame differ by less than a step once clamped.
  lemma ReadMeans(cfg: MM.Config, f: Frame, x: real, q: Quantity)
    requires cfg.limits.Ordered() && ReadWithinStep(cfg, f, x, q)
    ensures var lo, hi := Least(cfg.limits, q), Greatest(cfg.limits, q);
            var y := Q.UintToFloat(ReadMotion(f).Of(q), lo, hi, 16);
            y <= Q.Clamp(x, lo, hi) && Q.Clamp(x, lo, hi) - y < Q.StepSize(lo, hi, 16)
    ensures forall x': real | ReadWithinStep(cfg, f, x', q) ::
              var lo, hi := Least(cfg.limits, q), Greatest(cfg.limits, q);
              Q.Clamp(x', lo, hi) - Q.Clamp(x, lo, hi) < Q.StepSize(lo, hi, 16)
  {
  }

  // For every word but a NaN, for which the cast in the source is undefined
  lemma MotionFrameValues(cfg: MM.Config, cmd: Cmd, q: Quantity)
    requires cfg.limits.Ordered() && cfg.motorId < 0x100 && !cmd.OneTime() && !IsNaN(WordOf(cmd, q))
    ensures ReadWithinStep(cfg, FrameFor(cfg, cmd), Wanted(cfg, cmd, q), q)
  {
    MotionFrameCarries(cfg.motorId, LevelsFor(cfg, cmd));
    Q.ValueRoundTrip(Wanted(cfg, cmd, q), Least(cfg.limits, q), Greatest(cfg.limits, q), 16);
  }

  // The modes a receiver can infer from a one-time frame
  function ModesOf(f: Frame): set<Byte> {
    if CommType(f.canId) == MOTOR_ENABLE then {MODE_ENABLE}
    else if CommType(f.canId) == MOTOR_STOP then {MODE_DISABLE}
    else if CommType(f.canId) == SET_POS_ZERO then
      if f.data[0] == 1 then {MODE_MECH_ZERO, MODE_ZERO_STA_MECH} else {MODE_ZERO_STA}
    else {}
  }

  // A one-time frame tells its mode, except that the two mechanical zero modes
  // look the same on the wire.
  lemma OneTimeFrameTellsMode(motor: nat, mode: Byte, m: Byte)
    requires motor < 0x100 && mode <= 4 && m <= 4
    ensures m in ModesOf(OneTimeFrame(motor, mode)) <==> OneTimeFrame(motor, m) == OneTimeFrame(motor, mode)
    ensures mode in ModesOf(OneTimeFrame(motor, mode))
  {
    IdFields(OneTimeType(mode), 0, motor);
    IdFields(OneTimeType(m), 0, motor);
    assert OneTimeFrame(motor, mode).data[0] == OneTimeData(mode)[0];
    assert OneTimeFrame(motor, m).data[0] == OneTimeData(m)[0];
  }
}
