// From a received UDP packet to motor commands in the ring: the packet task of
// Core 0.

module UdpInterface {
  import opened Bits
  import opened ByteWords
  import opened MotorCommand
  import opened RingBuffer
  import opened XgwProtocol

  const MAX_PACKET := 1500
  const SET_SIZE := 4

  // The data area of one item of the receive queue.  Beyond the received length
  // it holds whatever was there before.
  type Item = d: seq<Byte> | |d| == MAX_PACKET witness seq(MAX_PACKET, _ => 0)

  // ---------- the two kinds of payload record ----------

  datatype WireCmd = WireCmd(
    motorId: Byte, mode: Byte, pad: Half, position: Word, velocity: Word, torque: Word, kp: Word, kd: Word)

  datatype WireSet = WireSet(motorId: Byte, mode: Byte, pad: Half)

  function CmdBytes(w: WireCmd): (b: seq<Byte>)
    ensures |b| == CMD_SIZE
  {
    [w.motorId, w.mode] + HalfBytes(w.pad) + WordBytes(w.position) + WordBytes(w.velocity)
    + WordBytes(w.torque) + WordBytes(w.kp) + WordBytes(w.kd)
  }

  function SetBytes(w: WireSet): (b: seq<Byte>)
    ensures |b| == SET_SIZE
  {
    [w.motorId, w.mode] + HalfBytes(w.pad)
  }

  function ParseCmd(b: seq<Byte>): WireCmd
    requires |b| == CMD_SIZE
  {
    WireCmd(b[0], b[1], HalfAt(b, 2), WordAt(b, 4), WordAt(b, 8), WordAt(b, 12), WordAt(b, 16), WordAt(b, 20))
  }

  // The bytes of the command record at a place
  function Record(b: seq<Byte>, at: nat): (r: seq<Byte>)
    requires at + CMD_SIZE <= |b|
    ensures |r| == CMD_SIZE
  {
    b[at..at + CMD_SIZE]
  }

  function CmdRecord(b: seq<Byte>, at: nat): WireCmd
    requires at + CMD_SIZE <= |b|
  {
    ParseCmd(Record(b, at))
  }

  function SetRecord(b: seq<Byte>, at: nat): WireSet
    requires at + SET_SIZE <= |b|
  {
    WireSet(b[at], b[at + 1], HalfAt(b, at + 2))
  }

  lemma CmdRecordBytes(w: WireCmd)
    ensures ParseCmd(CmdBytes(w)) == w
  {
  }

  lemma SetRecordBytes(w: WireSet)
    ensures SetRecord(SetBytes(w), 0) == w
  {
  }

  // A motion command is always sent on in MIT mode.  The conversion leaves the
  // bus and the spare byte of the slot it fills as they were.
  function FromCmd(w: WireCmd, slot: Cmd): Cmd {
    Cmd(w.motorId, slot.canBus, MODE_MIT_CONTROL, slot.reserved, w.position, w.velocity, w.torque, w.kp, w.kd)
  }

  function FromSet(w: WireSet): Cmd {
    Cmd(w.motorId, 0, w.mode, 0, ZERO_F, ZERO_F, ZERO_F, ZERO_F, ZERO_F)
  }

  // ---------- what the checks decide ----------

  datatype Verdict = TooShort | BadMagic | BadCrc | BadType | TooMany | Accept(count: nat)
  {
    predicate Legal() { Accept? ==> count <= NUM_MOTORS }
  }

  function HeaderOf(d: Item): Header { ParseHeader(d[..HEADER_SIZE]) }

  // The checks are defined: a header that gets as far as the CRC announces no
  // length for which the size computation of the CRC wraps.  For exactly the
  // other lengths its copy leaves the buffer (XgwProtocol.CopyStaysInside).
  predicate Defined(d: Item, length: nat) {
    length >= HEADER_SIZE && HeaderOf(d).magic == MAGIC ==> PayloadLen(HeaderOf(d)) <= MAX_PAYLOAD_LEN
  }

  lemma DefinedExactly(d: Item, length: nat)
    ensures Defined(d, length) <==>
            (length >= HEADER_SIZE && HeaderOf(d).magic == MAGIC && PassesSizeTest(PayloadLen(HeaderOf(d)))
             ==> HEADER_SIZE + PayloadLen(HeaderOf(d)) <= CRC_BUFFER_SIZE)
  {
    CopyStaysInside(PayloadLen(HeaderOf(d)));
  }

  function Judge(d: Item, length: nat, msgType: Byte): (v: Verdict)
    requires Defined(d, length)
    ensures v.Legal()
  {
    if length < HEADER_SIZE then TooShort
    else if HeaderOf(d).magic != MAGIC then BadMagic
    else if !Valid(HeaderOf(d), d[HEADER_SIZE..]) then BadCrc
    else if HeaderOf(d).msgType != msgType then BadType
    else if HeaderOf(d).count as nat > NUM_MOTORS then TooMany
    else Accept(HeaderOf(d).count as nat)
  }

  // Command i of an accepted packet, converted into a given slot
  function CmdFor(d: Item, i: nat, slot: Cmd): Cmd
    requires i < NUM_MOTORS
  {
    FromCmd(CmdRecord(d, HEADER_SIZE + CMD_SIZE * i), slot)
  }

  function SetFor(d: Item, i: nat): Cmd
    requires i < NUM_MOTORS
  {
    FromSet(SetRecord(d, HEADER_SIZE + SET_SIZE * i))
  }

  function CmdsOf(d: Item, slots: seq<Cmd>, n: nat): (cs: seq<Cmd>)
    requires n <= NUM_MOTORS == |slots|
    ensures |cs| == n && forall i | 0 <= i < n :: cs[i] == CmdFor(d, i, slots[i])
  {
    seq(n, i requires 0 <= i < n => CmdFor(d, i, slots[i]))
  }

  function SetsOf(d: Item, n: nat): (cs: seq<Cmd>)
    requires n <= NUM_MOTORS
    ensures |cs| == n && forall i | 0 <= i < n :: cs[i] == SetFor(d, i)
  {
    seq(n, i requires 0 <= i < n => SetFor(d, i))
  }

  // What a packet of each kind puts into the ring if it is accepted
  function CmdsFor(v: Verdict, d: Item, slots: seq<Cmd>): (cs: seq<Cmd>)
    requires |slots| == NUM_MOTORS && v.Legal()
    ensures |cs| <= NUM_MOTORS
  {
    if v.Accept? then CmdsOf(d, slots, v.count) else []
  }

  function SetsFor(v: Verdict, d: Item): (cs: seq<Cmd>)
    requires v.Legal()
    ensures |cs| <= NUM_MOTORS
  {
    if v.Accept? then SetsOf(d, v.count) else []
  }

  function CmdsIn(d: Item, length: nat, slots: seq<Cmd>): (cs: seq<Cmd>)
    requires |slots| == NUM_MOTORS && Defined(d, length)
    ensures |cs| <= NUM_MOTORS
  {
    CmdsFor(Judge(d, length, MSG_MOTOR_CMD), d, slots)
  }

  function SetsIn(d: Item, length: nat): (cs: seq<Cmd>)
    requires Defined(d, length)
    ensures |cs| <= NUM_MOTORS
  {
    SetsFor(Judge(d, length, MSG_MOTOR_SET), d)
  }

  method ConvertOne(d: Item, i: nat, slot: Cmd) returns (c: Cmd)
    requires i < NUM_MOTORS
    ensures c == CmdFor(d, i, slot)
  {
    var w := CmdRecord(d, HEADER_SIZE + CMD_SIZE * i);
    c := slot.(motorId := w.motorId, mode := MODE_MIT_CONTROL, position := w.position,
               velocity := w.velocity, torque := w.torque, kp := w.kp, kd := w.kd);
  }

  method ConvertCmds(d: Item, n: nat, slots: array<Cmd>)
    requires n <= NUM_MOTORS == slots.Length
    modifies slots
    ensures slots[..n] == CmdsOf(d, old(slots[..]), n)
  {
    ghost var converted := CmdsOf(d, slots[..], n);
    for i := 0 to n
      invariant slots[..i] == converted[..i]
      invariant forall j | i <= j < NUM_MOTORS :: slots[j] == old(slots[j])
    {
      slots[i] := ConvertOne(d, i, slots[i]);
    }
  }

  method ConvertSets(d: Item, n: nat, slots: array<Cmd>)
    requires n <= NUM_MOTORS == slots.Length
    modifies slots
    ensures slots[..n] == SetsOf(d, n)
  {
    for i := 0 to n
      invariant forall j | 0 <= j < i :: slots[j] == SetFor(d, j)
    {
      var w := SetRecord(d, HEADER_SIZE + SET_SIZE * i);
      slots[i] := Cmd(w.motorId, 0, w.mode, 0, ZERO_F, ZERO_F, ZERO_F, ZERO_F, ZERO_F);
    }
  }

  // ---------- the object ----------

  class Udp {
    const ring: RingBuf
    var parseErrors: uint32
    var crcErrors: uint32
    var rxCount: uint32
    var rxErrors: uint32
    var fullEvents: uint32  // ring found too full
    var notifications: nat  // IPC notifications sent to Core 1

    constructor (ring: RingBuf)
      ensures this.ring == ring && parseErrors == crcErrors == rxCount == rxErrors == fullEvents == 0
      ensures notifications == 0
    {
      this.ring := ring;
      parseErrors, crcErrors, rxCount, rxErrors, fullEvents, notifications := 0, 0, 0, 0, 0, 0;
    }

    // The checks at the head of both packet functions.  NULL data is not
    // modelled: the one caller passes the address of a local.
    method Check(d: Item, length: nat, msgType: Byte) returns (verdict: Verdict)
      requires Defined(d, length)
      modifies this`parseErrors, this`crcErrors
      ensures verdict == Judge(d, length, msgType)
      ensures Refused(verdict, old(parseErrors), old(crcErrors))
      ensures verdict == BadMagic || verdict == BadType || verdict == TooMany ==>
                parseErrors == Add32(old(parseErrors), 1) && crcErrors == old(crcErrors)
      ensures verdict == BadCrc ==> crcErrors == Add32(old(crcErrors), 1) && parseErrors == old(parseErrors)
      ensures verdict == TooShort || verdict.Accept? ==> unchanged(this)
    {
      if length < HEADER_SIZE {
        return TooShort;
      }
      var header := ParseHeader(d[..HEADER_SIZE]);
      if header.magic != MAGIC {
        parseErrors := Add32(parseErrors, 1);
        return BadMagic;
      }
      var ok := Crc32Validate(header, d[HEADER_SIZE..]);
      if !ok {
        crcErrors := Add32(crcErrors, 1);
        return BadCrc;
      }
      if header.msgType != msgType {
        parseErrors := Add32(parseErrors, 1);
        return BadType;
      }
      if header.count as nat > NUM_MOTORS {
        parseErrors := Add32(parseErrors, 1);
        return TooMany;
      }
      return Accept(header.count as nat);
    }

    // Whether the ring takes these commands
    ghost predicate Fits(cmds: seq<Cmd>)
      requires ring.Valid()
      reads ring, ring.data
    {
      cmds != [] && |ring.Contents()| + CMD_SIZE * |cmds| <= ring.mask
    }

    // Whole commands only
    ghost predicate Whole()
      reads ring
    {
      |ring.sent| % CMD_SIZE == 0
    }

    // The tail of both: all the commands go to the ring in one write, or none
    method Send(cmds: seq<Cmd>) returns (ret: int)
      requires ring.Valid() && |cmds| <= NUM_MOTORS
      modifies this`rxCount, this`rxErrors, this`fullEvents, this`notifications, ring, ring.data
      ensures ring.Valid() && ring.taken == old(ring.taken)
      ensures ret == if old(Fits(cmds)) then 0 else -1
      ensures ring.sent == if ret == 0 then old(ring.sent) + EncodeAll(cmds) else old(ring.sent)
      ensures old(Whole()) ==> Whole()
      ensures ret == 0 ==> rxCount == Add32(old(rxCount), 1) && rxErrors == old(rxErrors)
                           && notifications == old(notifications) + 1
      ensures ret != 0 ==> rxErrors == Add32(old(rxErrors), 1) && rxCount == old(rxCount)
                           && notifications == old(notifications)
    {
      if Whole() { WholeSum(|ring.sent|, CMD_SIZE * |cmds|); }
      var code := Core0Send(EncodeAll(cmds));
      if code == OK {
        notifications := notifications + 1;
        rxCount := Add32(rxCount, 1);
        return 0;
      } else {
        rxErrors := Add32(rxErrors, 1);
        return -1;
      }
    }

    // gateway_ringbuf_core0_send: the free space is read only for the log
    method Core0Send(bytes: seq<Byte>) returns (code: Code)
      requires ring.Valid() && |bytes| < TWO32
      modifies this`fullEvents, ring, ring.data
      ensures ring.Valid() && ring.taken == old(ring.taken)
      ensures code == if |bytes| == 0 then INVALID_PARAM
                      else if |old(ring.Contents())| + |bytes| <= ring.mask then OK else FULL
      ensures ring.sent == if code == OK then old(ring.sent) + bytes else old(ring.sent)
    {
      var free := ring.GetFree();
      if free < |bytes| {
        fullEvents := Add32(fullEvents, 1);
      }
      var written;
      code, written := ring.Write(bytes);
    }

    // xgw_udp_process_motor_cmd.  `slots` is the uninitialised local array the
    // records are converted into.
    method ProcessMotorCmd(d: Item, length: nat, slots: array<Cmd>) returns (ret: int)
      requires ring.Valid() && slots.Length == NUM_MOTORS && (slots as object) != ring.data
      requires Defined(d, length)
      modifies this, ring, ring.data, slots
      ensures ring.Valid() && ring.taken == old(ring.taken)
      ensures old(Whole()) ==> Whole()
      ensures Delivered(CmdsIn(d, length, old(slots[..])), ret, old(ring.sent), old(notifications))
      ensures ret == 0 <==> old(Fits(CmdsIn(d, length, slots[..])))
      ensures Refused(Judge(d, length, MSG_MOTOR_CMD), old(parseErrors), old(crcErrors))
      ensures Counted(Judge(d, length, MSG_MOTOR_CMD), ret, old(rxCount), old(rxErrors))
    {
      var v := Check(d, length, MSG_MOTOR_CMD);
      ret := ConveyCmds(v, d, slots);
    }

    method ConveyCmds(v: Verdict, d: Item, slots: array<Cmd>) returns (ret: int)
      requires ring.Valid() && slots.Length == NUM_MOTORS && (slots as object) != ring.data && v.Legal()
      modifies this`rxCount, this`rxErrors, this`fullEvents, this`notifications, ring, ring.data, slots
      ensures ring.Valid() && ring.taken == old(ring.taken)
      ensures old(Whole()) ==> Whole()
      ensures Delivered(CmdsFor(v, d, old(slots[..])), ret, old(ring.sent), old(notifications))
      ensures ret == 0 <==> old(Fits(CmdsFor(v, d, slots[..])))
      ensures Counted(v, ret, old(rxCount), old(rxErrors))
      ensures ret == 0 ==> rxCount == Add32(old(rxCount), 1) && rxErrors == old(rxErrors)
      ensures ret != 0 ==> rxCount == old(rxCount)
                           && rxErrors == if v.Accept? then Add32(old(rxErrors), 1) else old(rxErrors)
    {
      if !v.Accept? {
        return -1;
      }
      ConvertCmds(d, v.count, slots);
      ret := Send(slots[..v.count]);
    }

    // The ring gained exactly these commands and Core 1 was notified, or the
    // packet was refused and the ring is as it was.
    ghost predicate Delivered(cmds: seq<Cmd>, ret: int, sent: seq<Byte>, notified: nat)
      reads this, ring
    {
      if ret == 0 then cmds != [] && ring.sent == sent + EncodeAll(cmds) && notifications == notified + 1
      else ret == -1 && ring.sent == sent && notifications == notified
    }

    ghost predicate Refused(v: Verdict, parse: uint32, crc: uint32)
      reads this
    {
      && parseErrors == (if v.BadMagic? || v.BadType? || v.TooMany? then Add32(parse, 1) else parse)
      && crcErrors == (if v.BadCrc? then Add32(crc, 1) else crc)
    }

    ghost predicate Counted(v: Verdict, ret: int, rx: uint32, errors: uint32)
      reads this
    {
      && rxCount == (if ret == 0 then Add32(rx, 1) else rx)
      && rxErrors == (if v.Accept? && ret != 0 then Add32(errors, 1) else errors)
    }

    // xgw_udp_process_motor_set
    method ProcessMotorSet(d: Item, length: nat, slots: array<Cmd>) returns (ret: int)
      requires ring.Valid() && slots.Length == NUM_MOTORS && (slots as object) != ring.data
      requires Defined(d, length)
      modifies this, ring, ring.data, slots
      ensures ring.Valid() && ring.taken == old(ring.taken)
      ensures old(Whole()) ==> Whole()
      ensures Delivered(SetsIn(d, length), ret, old(ring.sent), old(notifications))
      ensures ret == 0 <==> old(Fits(SetsIn(d, length)))
      ensures Refused(Judge(d, length, MSG_MOTOR_SET), old(parseErrors), old(crcErrors))
      ensures Counted(Judge(d, length, MSG_MOTOR_SET), ret, old(rxCount), old(rxErrors))
    {
      var v := Check(d, length, MSG_MOTOR_SET);
      ret := ConveySets(v, d, slots);
    }

    method ConveySets(v: Verdict, d: Item, slots: array<Cmd>) returns (ret: int)
      requires ring.Valid() && slots.Length == NUM_MOTORS && (slots as object) != ring.data && v.Legal()
      modifies this`rxCount, this`rxErrors, this`fullEvents, this`notifications, ring, ring.data, slots
      ensures ring.Valid() && ring.taken == old(ring.taken)
      ensures old(Whole()) ==> Whole()
      ensures Delivered(SetsFor(v, d), ret, old(ring.sent), old(notifications))
      ensures ret == 0 <==> old(Fits(SetsFor(v, d)))
      ensures Counted(v, ret, old(rxCount), old(rxErrors))
      ensures ret == 0 ==> rxCount == Add32(old(rxCount), 1) && rxErrors == old(rxErrors)
      ensures ret != 0 ==> rxCount == old(rxCount)
                           && rxErrors == if v.Accept? then Add32(old(rxErrors), 1) else old(rxErrors)
    {
      if !v.Accept? {
        return -1;
      }
      ConvertSets(d, v.count, slots);
      ret := Send(slots[..v.count]);
    }
  }
}
