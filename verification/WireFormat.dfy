// The UDP packets, the commands in the ring and the checks between them, byte by
// byte: what the structures, constants and conversions of the other modules mean
// on the wire.  All numbers are those of the protocol.

module WireFormat {
  import opened ByteWords
  import opened Crc32
  import opened MotorCommand
  import opened PacketCommands
  import opened UdpInterface
  import Memory
  import X = XgwProtocol

  // The little-endian number in four bytes
  function NumberAt(d: seq<Byte>, at: nat): nat
    requires at + 4 <= |d|
  {
    d[at] as nat + 256 * (d[at + 1] as nat) + 65536 * (d[at + 2] as nat) + 16777216 * (d[at + 3] as nat)
  }

  // Four bytes hold a bit vector, its low byte first
  predicate HoldsAt(d: seq<Byte>, at: nat, v: bv32)
    requires at + 4 <= |d|
  {
    && d[at] as bv32 == v & 0xFF && d[at + 1] as bv32 == (v >> 8) & 0xFF
    && d[at + 2] as bv32 == (v >> 16) & 0xFF && d[at + 3] as bv32 == (v >> 24) & 0xFF
  }

  // ---------- the checks ----------

  // The CRC an item must hold: that of the announced packet with bytes 24 to 27
  // zeroed if it has at most 1024 bytes, and 0 if it has more
  function CrcWanted(d: Item): bv32 {
    var size := 32 + NumberAt(d, 12);
    if size <= 1024 then Crc(d[..24] + [0, 0, 0, 0] + d[28..size]) else 0
  }

  lemma HeaderFields(d: Item)
    ensures var h := HeaderOf(d);
            && h.magic == Half(d[0], d[1]) && h.msgType == d[5] && h.count == d[6]
            && h.payloadLen == WordAt(d, 12) && h.crc32 == WordAt(d, 24)
            && X.PayloadLen(h) == NumberAt(d, 12)
  {
    X.WordOfPrefix(d, 32, 12);
    X.WordOfPrefix(d, 32, 24);
  }

  // The packets whose checks are defined
  lemma DefinedOnBytes(d: Item, length: nat)
    ensures Defined(d, length) <==> (length >= 32 && d[0] == d[1] == 0x5A ==> NumberAt(d, 12) <= 0xFFFF_FFDC)
  {
    HeaderFields(d);
  }

  lemma CrcOnBytes(d: Item)
    requires NumberAt(d, 12) <= 0xFFFF_FFDC
    ensures X.Readable(X.PayloadLen(HeaderOf(d)), d[32..])
    ensures X.PacketCrc(HeaderOf(d), d[32..], X.PayloadLen(HeaderOf(d))) == CrcWanted(d)
  {
    HeaderFields(d);
    if NumberAt(d, 12) <= 992 { CoveredOnBytes(d, 32 + NumberAt(d, 12)); }
  }

  lemma CoveredOnBytes(d: Item, size: nat)
    requires 32 <= size <= 1024
    ensures X.Covered(HeaderOf(d), d[32..][..size - 32]) == d[..24] + [0, 0, 0, 0] + d[28..size]
  {
    HeaderZeroed(d[..32]);
    assert d[28..size] == d[28..32] + d[32..][..size - 32];
    assert d[..32][..24] == d[..24] && d[..32][28..] == d[28..32];
  }

  lemma HeaderZeroed(b: seq<Byte>)
    requires |b| == 32
    ensures X.HeaderBytes(X.ParseHeader(b).(crc32 := X.ZERO)) == b[..24] + [0, 0, 0, 0] + b[28..]
  {
    X.BytesParse(b);
    X.CrcField(X.ParseHeader(b), X.ZERO);
  }

  lemma FieldHolds(d: seq<Byte>, at: nat, v: bv32)
    requires at + 4 <= |d|
    ensures Value(WordAt(d, at)) == v <==> HoldsAt(d, at, v)
  {
    ValueBytes(WordAt(d, at), v);
  }

  lemma ValidOnBytes(d: Item)
    requires NumberAt(d, 12) <= 0xFFFF_FFDC
    ensures X.Readable(X.PayloadLen(HeaderOf(d)), d[32..])
    ensures X.Valid(HeaderOf(d), d[32..]) <==> HoldsAt(d, 24, CrcWanted(d))
  {
    HeaderFields(d);
    CrcOnBytes(d);
    FieldHolds(d, 24, CrcWanted(d));
  }

  // What a packet is taken for, on its raw bytes.  A packet is accepted exactly
  // if it has a header's length, begins with 5A 5A, holds its CRC, has its type
  // in byte 5 and at most 23 records by byte 6, whose number is the count.
  lemma JudgeOnBytes(d: Item, length: nat, msgType: Byte)
    requires length >= 32 && d[0] == d[1] == 0x5A ==> NumberAt(d, 12) <= 0xFFFF_FFDC
    ensures Defined(d, length)
    ensures Judge(d, length, msgType) ==
            if length < 32 then TooShort
            else if !(d[0] == d[1] == 0x5A) then BadMagic
            else if !HoldsAt(d, 24, CrcWanted(d)) then BadCrc
            else if d[5] != msgType then BadType
            else if d[6] > 23 then TooMany
            else Accept(d[6] as nat)
  {
    DefinedOnBytes(d, length);
    HeaderFields(d);
    if length >= 32 && d[0] == d[1] == 0x5A { ValidOnBytes(d); }
    CountInRange(d[6]);
  }

  lemma CountInRange(b: Byte)
    ensures b as nat > 23 <==> b > 23
  {
  }

  // ---------- from the packet to the ring ----------

  // A motion command keeps bytes 4 to 23 of its record and its number; the bus and
  // the reserve are those of the slot, and the mode is 255.
  lemma CmdOnBytes(d: Item, i: nat, slot: Cmd)
    requires i < 23
    ensures var at := 32 + 24 * i;
            Encode(CmdFor(d, i, slot)) == [d[at], slot.canBus, 255, slot.reserved] + d[at + 4..at + 24]
  {
    RecordKept(d[32 + 24 * i..56 + 24 * i], slot);
  }

  lemma RecordKept(r: seq<Byte>, slot: Cmd)
    requires |r| == 24
    ensures Encode(FromCmd(ParseCmd(r), slot)) == [r[0], slot.canBus, 255, slot.reserved] + r[4..24]
  {
    assert r[4..24] == r[4..8] + r[8..12] + r[12..16] + r[16..20] + r[20..24];
  }

  // A mode change keeps the number and the mode of its record, and all else is 0.
  lemma SetOnBytes(d: Item, i: nat)
    requires i < 23
    ensures var at := 32 + 4 * i;
            Encode(SetFor(d, i)) == [d[at], 0, d[at + 1], 0] + seq(20, _ => 0)
  {
  }

  // Which bytes of a command are what: number, bus, mode and reserve, and then
  // the five words with the low byte first
  lemma CommandBytes(c: Cmd)
    ensures var b := Encode(c);
            && b[..4] == [c.motorId, c.canBus, c.mode, c.reserved]
            && b[4..8] == [c.position.b0, c.position.b1, c.position.b2, c.position.b3]
            && b[8..12] == [c.velocity.b0, c.velocity.b1, c.velocity.b2, c.velocity.b3]
            && b[12..16] == [c.torque.b0, c.torque.b1, c.torque.b2, c.torque.b3]
            && b[16..20] == [c.kp.b0, c.kp.b1, c.kp.b2, c.kp.b3]
            && b[20..24] == [c.kd.b0, c.kd.b1, c.kd.b2, c.kd.b3]
  {
    DecodeEncode(c);
    WordSlices(Encode(c), c.position, c.velocity, c.torque, c.kp, c.kd);
  }

  lemma WordSlices(b: seq<Byte>, position: Word, velocity: Word, torque: Word, kp: Word, kd: Word)
    requires |b| == 24 && WordAt(b, 4) == position && WordAt(b, 8) == velocity && WordAt(b, 12) == torque
    requires WordAt(b, 16) == kp && WordAt(b, 20) == kd
    ensures b[..4] == [b[0], b[1], b[2], b[3]]
    ensures b[4..8] == WordBytes(position) && b[8..12] == WordBytes(velocity) && b[12..16] == WordBytes(torque)
    ensures b[16..20] == WordBytes(kp) && b[20..24] == WordBytes(kd)
  {
  }

  // Command k of a stream is its bytes 24 k to 24 k + 23
  lemma CommandAt(cs: seq<Cmd>, k: nat)
    requires k < |cs|
    ensures |EncodeAll(cs)| == 24 * |cs| && EncodeAll(cs)[24 * k..24 * k + 24] == Encode(cs[k])
  {
    var b := EncodeAll(cs);
    DecodeEncodeAll(cs);
    DecodeAt(b, k);
    EncodeDecode(Piece(b, k));
  }

  // An accepted packet of motion commands becomes 24 bytes in the ring for each of
  // its records.
  lemma MotionPacketBytes(d: Item, length: nat, slots: seq<Cmd>, k: nat)
    requires Defined(d, length) && |slots| == 23 && Judge(d, length, 0x02).Accept?
    ensures var n, bytes := d[6] as nat, EncodeAll(CmdsIn(d, length, slots));
            && n <= 23 && |bytes| == 24 * n
            && (k < n ==> bytes[24 * k..24 * k + 24] ==
                          [d[32 + 24 * k], slots[k].canBus, 255, slots[k].reserved] + d[36 + 24 * k..56 + 24 * k])
  {
    HeaderFields(d);
    var cmds := CmdsIn(d, length, slots);
    if k < |cmds| {
      CommandAt(cmds, k);
      CmdOnBytes(d, k, slots[k]);
      assert cmds[k] == CmdFor(d, k, slots[k]);
    }
  }

  // and so does one of mode changes.
  lemma ModePacketBytes(d: Item, length: nat, k: nat)
    requires Defined(d, length) && Judge(d, length, 0x07).Accept?
    ensures var n, bytes := d[6] as nat, EncodeAll(SetsIn(d, length));
            && n <= 23 && |bytes| == 24 * n
            && (k < n ==> bytes[24 * k..24 * k + 24] == [d[32 + 4 * k], 0, d[33 + 4 * k], 0] + seq(20, _ => 0))
  {
    HeaderFields(d);
    var cmds := SetsIn(d, length);
    if k < |cmds| {
      CommandAt(cmds, k);
      SetOnBytes(d, k);
      assert cmds[k] == SetFor(d, k);
    }
  }

  // ---------- what a sender builds ----------

  // The header of a new packet: magic 5A 5A, version 2, and the type, count,
  // sequence number and length given; all else is zero
  lemma NewHeaderBytes(msgType: Byte, count: Byte, payloadLen: Word, sequence: Word)
    ensures var b := X.HeaderBytes(X.InitHeader(msgType, count, payloadLen, sequence));
            && b[..8] == [0x5A, 0x5A, 0, 0, 2, msgType, count, 0]
            && b[8..12] == [sequence.b0, sequence.b1, sequence.b2, sequence.b3]
            && b[12..16] == [payloadLen.b0, payloadLen.b1, payloadLen.b2, payloadLen.b3]
            && b[16..] == seq(16, _ => 0)
  {
  }

  // Sealing writes the CRC of the packet into bytes 24 to 27 and nothing else
  lemma SealedBytes(h: X.Header, payload: seq<Byte>)
    ensures var p, b := Packet(h, payload), X.HeaderBytes(h);
            && |p| == 32 + |payload| && p[..24] == b[..24] && p[28..] == b[28..] + payload
            && HoldsAt(p, 24, if |p| <= 1024 then Crc(p[..24] + [0, 0, 0, 0] + p[28..]) else 0)
  {
    var crc := X.PacketCrc(h, payload, |payload|);
    SealedWith(h, payload, Field(crc));
    SealedWith(h, payload, X.ZERO);
    assert payload[..|payload|] == payload;
    ValueOfField(crc);
    FieldHolds(Packet(h, payload), 24, crc);
  }

  lemma SealedWith(h: X.Header, payload: seq<Byte>, c: Word)
    ensures var p, b := X.HeaderBytes(h.(crc32 := c)) + payload, X.HeaderBytes(h);
            && p == b[..24] + WordBytes(c) + (b[28..] + payload) && WordAt(p, 24) == c
            && p[..24] == b[..24] && p[28..] == b[28..] + payload
  {
    X.CrcField(h, c);
  }

  // A record of a motion command and one of a mode change
  lemma CmdRecordBytes(w: WireCmd)
    ensures var b := CmdBytes(w);
            && b[..4] == [w.motorId, w.mode, w.pad.b0, w.pad.b1]
            && b[4..8] == [w.position.b0, w.position.b1, w.position.b2, w.position.b3]
            && b[8..12] == [w.velocity.b0, w.velocity.b1, w.velocity.b2, w.velocity.b3]
            && b[12..16] == [w.torque.b0, w.torque.b1, w.torque.b2, w.torque.b3]
            && b[16..20] == [w.kp.b0, w.kp.b1, w.kp.b2, w.kp.b3]
            && b[20..24] == [w.kd.b0, w.kd.b1, w.kd.b2, w.kd.b3]
  {
    UdpInterface.CmdRecordBytes(w);
    WordSlices(CmdBytes(w), w.position, w.velocity, w.torque, w.kp, w.kd);
  }

  lemma SetRecordBytes(w: WireSet)
    ensures SetBytes(w) == [w.motorId, w.mode, w.pad.b0, w.pad.b1]
  {
  }
}
