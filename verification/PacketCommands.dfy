// What the packet checks of Core 0 promise about the commands they let through:
// every packet a sender seals is delivered command by command, and a damaged
// one is not.

module PacketCommands {
  import opened ByteWords
  import opened Crc32
  import Memory
  import opened MotorCommand
  import opened UdpInterface
  import opened XgwProtocol

  // ---------- the sender ----------

  function CmdPayload(ws: seq<WireCmd>): (b: seq<Byte>)
    ensures |b| == CMD_SIZE * |ws|
  {
    if ws == [] then [] else CmdPayload(ws[..|ws| - 1]) + CmdBytes(ws[|ws| - 1])
  }

  function SetPayload(ws: seq<WireSet>): (b: seq<Byte>)
    ensures |b| == SET_SIZE * |ws|
  {
    if ws == [] then [] else SetPayload(ws[..|ws| - 1]) + SetBytes(ws[|ws| - 1])
  }

  // Header and payload with the CRC filled in
  function Packet(h: Header, payload: seq<Byte>): (p: seq<Byte>)
    ensures |p| == HEADER_SIZE + |payload|
  {
    HeaderBytes(Seal(h, payload)) + payload
  }

  // A header such as xgw_header_init makes for a payload of n records
  predicate Announces(h: Header, msgType: Byte, n: nat, payloadLen: nat) {
    h.magic == MAGIC && h.msgType == msgType && h.count as nat == n <= NUM_MOTORS && PayloadLen(h) == payloadLen
  }

  lemma InitAnnounces(msgType: Byte, count: Byte, payloadLen: Word, sequence: Word)
    requires count as nat <= NUM_MOTORS
    ensures Announces(InitHeader(msgType, count, payloadLen, sequence), msgType, count as nat, Number(payloadLen))
  {
  }

  lemma {:induction false} CmdRecordAt(ws: seq<WireCmd>, tail: seq<Byte>, i: nat)
    requires i < |ws|
    ensures Record(CmdPayload(ws) + tail, CMD_SIZE * i) == CmdBytes(ws[i])
    decreases |ws|
  {
    var n := |ws| - 1;
    var last := CmdBytes(ws[n]);
    var rest := CmdPayload(ws[..n]);
    Memory.Associative(rest, last, tail);
    if i < n {
      CmdRecordAt(ws[..n], last + tail, i);
    } else {
      RecordBetween(rest, last, tail);
    }
  }

  lemma RecordBetween(before: seq<Byte>, b: seq<Byte>, after: seq<Byte>)
    requires |b| == CMD_SIZE
    ensures Record(before + (b + after), |before|) == b
  {
  }

  lemma {:induction false} SetRecordAt(ws: seq<WireSet>, tail: seq<Byte>, i: nat)
    requires i < |ws|
    ensures SetRecord(SetPayload(ws) + tail, SET_SIZE * i) == ws[i]
    decreases |ws|
  {
    var n := |ws| - 1;
    var last := SetBytes(ws[n]);
    var rest := SetPayload(ws[..n]);
    assert SetPayload(ws) + tail == rest + (last + tail);
    if i < n {
      SetRecordAt(ws[..n], last + tail, i);
    } else {
      SetRecordBytes(ws[n]);
      SetRecordShift(rest, last, tail);
    }
  }

  lemma SetRecordShift(before: seq<Byte>, b: seq<Byte>, after: seq<Byte>)
    requires |b| == SET_SIZE
    ensures SetRecord(before + (b + after), |before|) == SetRecord(b, 0)
  {
  }

  // ---------- sealed packets are accepted ----------

  // The checks look no further than the announced payload
  lemma TailIsIgnored(h: Header, payload: seq<Byte>, tail: seq<Byte>)
    requires PayloadLen(h) == |payload| <= MAX_PAYLOAD_LEN
    ensures Valid(h, payload + tail) <==> Valid(h, payload)
  {
    assert (payload + tail)[..|payload|] == payload[..|payload|];
  }

  lemma ItemParts(header: seq<Byte>, payload: seq<Byte>, tail: seq<Byte>)
    requires |header| == HEADER_SIZE
    ensures var d := header + payload + tail;
            d[..HEADER_SIZE] == header && d[HEADER_SIZE..] == payload + tail && d == header + (payload + tail)
  {
  }

  // Whatever the number and sizes of its records, a sealed packet passes
  lemma SealedAccepted(h: Header, n: nat, payload: seq<Byte>, tail: seq<Byte>)
    requires Announces(h, h.msgType, n, |payload|) && HEADER_SIZE + |payload| + |tail| == MAX_PACKET
    ensures Defined(Packet(h, payload) + tail, HEADER_SIZE + |payload|)
    ensures Judge(Packet(h, payload) + tail, HEADER_SIZE + |payload|, h.msgType) == Accept(n)
  {
    var sealed := Seal(h, payload);
    ParseBytes(sealed);
    ItemParts(HeaderBytes(sealed), payload, tail);
    SealedValidates(h, payload);
    TailIsIgnored(sealed, payload, tail);
  }

  // The receive item holding a sealed packet of motion commands
  function CmdItem(h: Header, ws: seq<WireCmd>, tail: seq<Byte>): Item
    requires HEADER_SIZE + CMD_SIZE * |ws| + |tail| == MAX_PACKET
  {
    Packet(h, CmdPayload(ws)) + tail
  }

  function CmdItemLength(ws: seq<WireCmd>): nat { HEADER_SIZE + CMD_SIZE * |ws| }

  lemma CmdItemAccepted(h: Header, ws: seq<WireCmd>, tail: seq<Byte>, slots: seq<Cmd>)
    requires Announces(h, MSG_MOTOR_CMD, |ws|, CMD_SIZE * |ws|)
    requires |slots| == NUM_MOTORS && HEADER_SIZE + CMD_SIZE * |ws| + |tail| == MAX_PACKET
    ensures Defined(CmdItem(h, ws, tail), CmdItemLength(ws))
    ensures CmdsIn(CmdItem(h, ws, tail), CmdItemLength(ws), slots) == CmdsOf(CmdItem(h, ws, tail), slots, |ws|)
  {
    SealedAccepted(h, |ws|, CmdPayload(ws), tail);
    AcceptedCmds(CmdItem(h, ws, tail), CmdItemLength(ws), slots, |ws|);
  }

  // Up to 23 motion commands, sealed and sent, arrive: as many as were sent,
  // and number i is the i-th sent, forced to MIT mode.
  lemma MotionCommandsDelivered(h: Header, ws: seq<WireCmd>, tail: seq<Byte>, slots: seq<Cmd>, i: nat)
    requires Announces(h, MSG_MOTOR_CMD, |ws|, CMD_SIZE * |ws|)
    requires |slots| == NUM_MOTORS && HEADER_SIZE + CMD_SIZE * |ws| + |tail| == MAX_PACKET
    ensures Defined(CmdItem(h, ws, tail), CmdItemLength(ws))
    ensures var cs := CmdsIn(CmdItem(h, ws, tail), CmdItemLength(ws), slots);
            |cs| == |ws| && (i < |ws| ==> cs[i] == FromCmd(ws[i], slots[i]))
  {
    CmdItemAccepted(h, ws, tail, slots);
    if i < |ws| {
      CmdOfItem(h, ws, tail, slots[i], i);
    }
  }

  lemma CmdOfItem(h: Header, ws: seq<WireCmd>, tail: seq<Byte>, slot: Cmd, i: nat)
    requires i < |ws| <= NUM_MOTORS && HEADER_SIZE + CMD_SIZE * |ws| + |tail| == MAX_PACKET
    ensures CmdFor(CmdItem(h, ws, tail), i, slot) == FromCmd(ws[i], slot)
  {
    CmdArrives(HeaderBytes(Seal(h, CmdPayload(ws))), ws, tail, i);
    CmdParsed(CmdItem(h, ws, tail), i, slot, ws[i]);
  }

  lemma CmdParsed(d: Item, i: nat, slot: Cmd, w: WireCmd)
    requires i < NUM_MOTORS && Record(d, HEADER_SIZE + CMD_SIZE * i) == CmdBytes(w)
    ensures CmdFor(d, i, slot) == FromCmd(w, slot)
  {
    CmdRecordBytes(w);
  }

  lemma AcceptedCmds(d: Item, length: nat, slots: seq<Cmd>, n: nat)
    requires |slots| == NUM_MOTORS && Defined(d, length) && Judge(d, length, MSG_MOTOR_CMD) == Accept(n)
    ensures n <= NUM_MOTORS && CmdsIn(d, length, slots) == CmdsOf(d, slots, n)
  {
  }

  lemma CmdArrives(header: seq<Byte>, ws: seq<WireCmd>, tail: seq<Byte>, i: nat)
    requires |header| == HEADER_SIZE && i < |ws|
    ensures Record(header + CmdPayload(ws) + tail, HEADER_SIZE + CMD_SIZE * i) == CmdBytes(ws[i])
  {
    CmdRecordAt(ws, tail, i);
    RecordInItem(header, CmdPayload(ws), tail, CMD_SIZE * i, CmdBytes(ws[i]));
  }

  lemma RecordInItem(header: seq<Byte>, payload: seq<Byte>, tail: seq<Byte>, at: nat, r: seq<Byte>)
    requires at + CMD_SIZE <= |payload + tail| && Record(payload + tail, at) == r
    ensures Record(header + payload + tail, |header| + at) == r
  {
    Memory.Associative(header, payload, tail);
    RecordSkip(header, payload + tail, at);
  }

  lemma RecordSkip(before: seq<Byte>, b: seq<Byte>, at: nat)
    requires at + CMD_SIZE <= |b|
    ensures Record(before + b, |before| + at) == Record(b, at)
  {
  }

  // The receive item holding a sealed packet of mode changes
  function SetItem(h: Header, ws: seq<WireSet>, tail: seq<Byte>): Item
    requires HEADER_SIZE + SET_SIZE * |ws| + |tail| == MAX_PACKET
  {
    Packet(h, SetPayload(ws)) + tail
  }

  function SetItemLength(ws: seq<WireSet>): nat { HEADER_SIZE + SET_SIZE * |ws| }

  lemma SetItemAccepted(h: Header, ws: seq<WireSet>, tail: seq<Byte>)
    requires Announces(h, MSG_MOTOR_SET, |ws|, SET_SIZE * |ws|)
    requires HEADER_SIZE + SET_SIZE * |ws| + |tail| == MAX_PACKET
    ensures Defined(SetItem(h, ws, tail), SetItemLength(ws))
    ensures SetsIn(SetItem(h, ws, tail), SetItemLength(ws)) == SetsOf(SetItem(h, ws, tail), |ws|)
  {
    SealedAccepted(h, |ws|, SetPayload(ws), tail);
    AcceptedSets(SetItem(h, ws, tail), SetItemLength(ws), |ws|);
  }

  // Up to 23 mode changes arrive as those modes, with all other fields zero.
  lemma ModeChangesDelivered(h: Header, ws: seq<WireSet>, tail: seq<Byte>, i: nat)
    requires Announces(h, MSG_MOTOR_SET, |ws|, SET_SIZE * |ws|)
    requires HEADER_SIZE + SET_SIZE * |ws| + |tail| == MAX_PACKET
    ensures Defined(SetItem(h, ws, tail), SetItemLength(ws))
    ensures var cs := SetsIn(SetItem(h, ws, tail), SetItemLength(ws));
            |cs| == |ws| && (i < |ws| ==> cs[i] == FromSet(ws[i]))
  {
    SetItemAccepted(h, ws, tail);
    if i < |ws| {
      assert SetsOf(SetItem(h, ws, tail), |ws|)[i] == SetFor(SetItem(h, ws, tail), i);
      SetArrives(HeaderBytes(Seal(h, SetPayload(ws))), ws, tail, i);
    }
  }

  lemma AcceptedSets(d: Item, length: nat, n: nat)
    requires Defined(d, length) && Judge(d, length, MSG_MOTOR_SET) == Accept(n)
    ensures n <= NUM_MOTORS && SetsIn(d, length) == SetsOf(d, n)
  {
  }

  lemma SetArrives(header: seq<Byte>, ws: seq<WireSet>, tail: seq<Byte>, i: nat)
    requires |header| == HEADER_SIZE && i < |ws|
    ensures SetRecord(header + SetPayload(ws) + tail, HEADER_SIZE + SET_SIZE * i) == ws[i]
  {
    SetRecordAt(ws, tail, i);
    SetRecordInItem(header, SetPayload(ws), tail, SET_SIZE * i, ws[i]);
  }

  lemma SetRecordInItem(header: seq<Byte>, payload: seq<Byte>, tail: seq<Byte>, at: nat, w: WireSet)
    requires at + SET_SIZE <= |payload + tail| && SetRecord(payload + tail, at) == w
    ensures SetRecord(header + payload + tail, |header| + at) == w
  {
    SetRecordSkip(header, payload + tail, at);
    Memory.Associative(header, payload, tail);
  }

  lemma SetRecordSkip(before: seq<Byte>, b: seq<Byte>, at: nat)
    requires at + SET_SIZE <= |b|
    ensures SetRecord(before + b, |before| + at) == SetRecord(b, at)
  {
  }

  // ---------- damaged packets are not ----------

  lemma JudgeIsValidity(p: seq<Byte>, tail: seq<Byte>, msgType: Byte)
    requires Whole(p) && |p| + |tail| == MAX_PACKET
    ensures Defined(p + tail, |p|)
    ensures Judge(p + tail, |p|, msgType).Accept? ==> ValidPacket(p)
  {
    var d := p + tail;
    assert d[..HEADER_SIZE] == p[..HEADER_SIZE] && d[HEADER_SIZE..] == p[HEADER_SIZE..] + tail;
    TailIsIgnored(ParseHeader(p[..HEADER_SIZE]), p[HEADER_SIZE..], tail);
  }

  // A valid packet within the CRC buffer, changed within four adjacent bytes
  // outside the crc32 and payload_len fields, is never accepted as anything.
  lemma DamagedNotAccepted(p: seq<Byte>, q: seq<Byte>, at: nat, tail: seq<Byte>, msgType: Byte)
    requires Whole(p) && |p| <= CRC_BUFFER_SIZE && ValidPacket(p) && |p| + |tail| == MAX_PACKET
    requires |q| == |p| && q != p && at + 4 <= |p|
    requires q[..at] == p[..at] && q[at + 4..] == p[at + 4..]
    requires q[12..16] == p[12..16] && q[24..28] == p[24..28]
    ensures Defined(q + tail, |q|) && !Judge(q + tail, |q|, msgType).Accept?
  {
    BurstIsRejected(p, q, at);
    JudgeIsValidity(q, tail, msgType);
  }

  // ---------- how much of the commands the checks cover ----------

  // The checks look at the header and at the announced payload, but not at the
  // payload of a packet beyond the CRC buffer
  function CheckedLength(h: Header): nat {
    HEADER_SIZE + if HEADER_SIZE + PayloadLen(h) <= CRC_BUFFER_SIZE then PayloadLen(h) else 0
  }

  // Two items the checks cannot tell apart
  predicate SameChecked(d: Item, e: Item) {
    var n := CheckedLength(HeaderOf(d));
    d[..n] == e[..n]
  }

  lemma SameHeader(d: Item, e: Item)
    requires SameChecked(d, e)
    ensures HeaderOf(e) == HeaderOf(d)
  {
    PrefixParts(d, e, CheckedLength(HeaderOf(d)) - HEADER_SIZE);
  }

  lemma SameJudgement(d: Item, e: Item, length: nat, msgType: Byte)
    requires Defined(d, length) && SameChecked(d, e)
    ensures Defined(e, length) && Judge(e, length, msgType) == Judge(d, length, msgType)
  {
    SameHeader(d, e);
    PrefixParts(d, e, CheckedLength(HeaderOf(d)) - HEADER_SIZE);
    if PayloadLen(HeaderOf(d)) <= MAX_PAYLOAD_LEN {
      SameValid(HeaderOf(d), d[HEADER_SIZE..], e[HEADER_SIZE..]);
    }
  }

  lemma PrefixParts(d: seq<Byte>, e: seq<Byte>, n: nat)
    requires HEADER_SIZE + n <= |d| == |e| && d[..HEADER_SIZE + n] == e[..HEADER_SIZE + n]
    ensures d[..HEADER_SIZE] == e[..HEADER_SIZE] && d[HEADER_SIZE..][..n] == e[HEADER_SIZE..][..n]
  {
    assert d[..HEADER_SIZE] == d[..HEADER_SIZE + n][..HEADER_SIZE];
    assert e[..HEADER_SIZE] == e[..HEADER_SIZE + n][..HEADER_SIZE];
    assert d[HEADER_SIZE..][..n] == d[..HEADER_SIZE + n][HEADER_SIZE..];
    assert e[HEADER_SIZE..][..n] == e[..HEADER_SIZE + n][HEADER_SIZE..];
  }

  lemma SameValid(h: Header, p: seq<Byte>, q: seq<Byte>)
    requires Readable(PayloadLen(h), p) && Readable(PayloadLen(h), q)
    requires HEADER_SIZE + PayloadLen(h) <= CRC_BUFFER_SIZE ==> p[..PayloadLen(h)] == q[..PayloadLen(h)]
    ensures Valid(h, p) <==> Valid(h, q)
  {
  }

  // The code does not compare count with payload_len.  The commands taken from
  // an accepted packet are determined by what the checks looked at exactly when
  // that reaches to the end of the last command.
  lemma CommandsAreCovered(d: Item, length: nat, slots: seq<Cmd>)
    requires |slots| == NUM_MOTORS && Defined(d, length) && Judge(d, length, MSG_MOTOR_CMD).Accept?
    ensures (forall e: Item | SameChecked(d, e) && Defined(e, length) ::
               CmdsIn(e, length, slots) == CmdsIn(d, length, slots)) <==>
            HEADER_SIZE + CMD_SIZE * Judge(d, length, MSG_MOTOR_CMD).count <= CheckedLength(HeaderOf(d))
  {
    var count := Judge(d, length, MSG_MOTOR_CMD).count;
    if HEADER_SIZE + CMD_SIZE * count <= CheckedLength(HeaderOf(d)) {
      forall e: Item | SameChecked(d, e) && Defined(e, length)
        ensures CmdsIn(e, length, slots) == CmdsIn(d, length, slots)
      {
        CoveredAgree(d, e, length, slots, count);
      }
    } else {
      var e := UncoveredDiffer(d, length, slots, count);
    }
  }

  lemma CoveredAgree(d: Item, e: Item, length: nat, slots: seq<Cmd>, count: nat)
    requires |slots| == NUM_MOTORS && Defined(d, length) && Defined(e, length) && SameChecked(d, e)
    requires Judge(d, length, MSG_MOTOR_CMD) == Accept(count)
    requires HEADER_SIZE + CMD_SIZE * count <= CheckedLength(HeaderOf(d))
    ensures CmdsIn(e, length, slots) == CmdsIn(d, length, slots)
  {
    SameJudgement(d, e, length, MSG_MOTOR_CMD);
    AcceptedCmds(d, length, slots, count);
    AcceptedCmds(e, length, slots, count);
    SameCommands(d, e, CheckedLength(HeaderOf(d)), count, slots);
  }

  // Change the last byte of the last command
  lemma UncoveredDiffer(d: Item, length: nat, slots: seq<Cmd>, count: nat) returns (e: Item)
    requires |slots| == NUM_MOTORS && Defined(d, length)
    requires Judge(d, length, MSG_MOTOR_CMD) == Accept(count)
    requires HEADER_SIZE + CMD_SIZE * count > CheckedLength(HeaderOf(d))
    ensures SameChecked(d, e) && Defined(e, length) && CmdsIn(e, length, slots) != CmdsIn(d, length, slots)
  {
    AcceptedCmds(d, length, slots, count);
    var last := HEADER_SIZE + CMD_SIZE * count - 1;
    e := Flipped(d, last);
    Untouched(d, CheckedLength(HeaderOf(d)), last, e[last]);
    SameJudgement(d, e, length, MSG_MOTOR_CMD);
    AcceptedCmds(e, length, slots, count);
    LastByteMatters(d, e, count, slots);
  }

  // An item that differs in one byte
  function Flipped(d: Item, at: nat): (e: Item)
    requires at < MAX_PACKET
    ensures e[at] != d[at] && e == d[at := e[at]]
  {
    if d[at] == 0 then d[at := 1] else d[at := 0]
  }

  lemma Untouched(d: seq<Byte>, n: nat, at: nat, b: Byte)
    requires n <= at < |d|
    ensures d[at := b][..n] == d[..n]
  {
  }

  lemma SameCommands(d: Item, e: Item, n: nat, count: nat, slots: seq<Cmd>)
    requires |slots| == NUM_MOTORS && count <= NUM_MOTORS
    requires HEADER_SIZE + CMD_SIZE * count <= n <= MAX_PACKET && d[..n] == e[..n]
    ensures CmdsOf(e, slots, count) == CmdsOf(d, slots, count)
  {
    forall i: nat | i < count ensures CmdFor(e, i, slots[i]) == CmdFor(d, i, slots[i]) {
      RecordOfPrefix(d, n, HEADER_SIZE + CMD_SIZE * i);
      RecordOfPrefix(e, n, HEADER_SIZE + CMD_SIZE * i);
    }
  }

  lemma RecordOfPrefix(b: seq<Byte>, n: nat, at: nat)
    requires at + CMD_SIZE <= n <= |b|
    ensures Record(b[..n], at) == Record(b, at)
  {
  }

  lemma LastByteMatters(d: Item, e: Item, count: nat, slots: seq<Cmd>)
    requires |slots| == NUM_MOTORS && 0 < count <= NUM_MOTORS
    requires d[HEADER_SIZE + CMD_SIZE * count - 1] != e[HEADER_SIZE + CMD_SIZE * count - 1]
    ensures CmdsOf(e, slots, count) != CmdsOf(d, slots, count)
  {
    var i := count - 1;
    assert CmdsOf(d, slots, count)[i].kd.b3 == d[HEADER_SIZE + CMD_SIZE * count - 1];
    assert CmdsOf(e, slots, count)[i].kd.b3 == e[HEADER_SIZE + CMD_SIZE * count - 1];
  }

  // The same for mode changes, of whose records only the first two bytes are
  // used: the padding of the last one need not be covered.
  lemma ModeChangesAreCovered(d: Item, length: nat)
    requires Defined(d, length) && Judge(d, length, MSG_MOTOR_SET).Accept?
    ensures (forall e: Item | SameChecked(d, e) && Defined(e, length) :: SetsIn(e, length) == SetsIn(d, length)) <==>
            HEADER_SIZE + SET_SIZE * Judge(d, length, MSG_MOTOR_SET).count - 2 <= CheckedLength(HeaderOf(d))
  {
    var count := Judge(d, length, MSG_MOTOR_SET).count;
    if HEADER_SIZE + SET_SIZE * count - 2 <= CheckedLength(HeaderOf(d)) {
      forall e: Item | SameChecked(d, e) && Defined(e, length) ensures SetsIn(e, length) == SetsIn(d, length) {
        CoveredSetsAgree(d, e, length, count);
      }
    } else {
      var e := UncoveredSetsDiffer(d, length, count);
    }
  }

  lemma CoveredSetsAgree(d: Item, e: Item, length: nat, count: nat)
    requires Defined(d, length) && Defined(e, length) && SameChecked(d, e)
    requires Judge(d, length, MSG_MOTOR_SET) == Accept(count)
    requires HEADER_SIZE + SET_SIZE * count - 2 <= CheckedLength(HeaderOf(d))
    ensures SetsIn(e, length) == SetsIn(d, length)
  {
    SameJudgement(d, e, length, MSG_MOTOR_SET);
    AcceptedSets(d, length, count);
    AcceptedSets(e, length, count);
    SameModes(d, e, CheckedLength(HeaderOf(d)), count);
  }

  lemma SameModes(d: Item, e: Item, n: nat, count: nat)
    requires count <= NUM_MOTORS && HEADER_SIZE + SET_SIZE * count - 2 <= n <= MAX_PACKET && d[..n] == e[..n]
    ensures SetsOf(e, count) == SetsOf(d, count)
  {
    forall i: nat | i < count ensures SetFor(e, i) == SetFor(d, i) {
      var at := HEADER_SIZE + SET_SIZE * i;
      assert d[..n][at] == d[at] && d[..n][at + 1] == d[at + 1];
      assert e[..n][at] == e[at] && e[..n][at + 1] == e[at + 1];
    }
  }

  // Change the mode of the last record
  lemma UncoveredSetsDiffer(d: Item, length: nat, count: nat) returns (e: Item)
    requires Defined(d, length) && Judge(d, length, MSG_MOTOR_SET) == Accept(count)
    requires HEADER_SIZE + SET_SIZE * count - 2 > CheckedLength(HeaderOf(d))
    ensures SameChecked(d, e) && Defined(e, length) && SetsIn(e, length) != SetsIn(d, length)
  {
    AcceptedSets(d, length, count);
    var last := HEADER_SIZE + SET_SIZE * count - 3;
    e := Flipped(d, last);
    Untouched(d, CheckedLength(HeaderOf(d)), last, e[last]);
    SameJudgement(d, e, length, MSG_MOTOR_SET);
    AcceptedSets(e, length, count);
    assert SetsOf(d, count)[count - 1].mode == d[last] && SetsOf(e, count)[count - 1].mode == e[last];
  }

  // A sealed packet with an empty payload and count 23 is accepted, and its 23
  // commands are whatever the receive buffer holds after the header.
  lemma EmptyPacketAccepted(h: Header, tail: seq<Byte>, slots: seq<Cmd>)
    requires Announces(h, MSG_MOTOR_CMD, NUM_MOTORS, 0) && |slots| == NUM_MOTORS
    requires HEADER_SIZE + |tail| == MAX_PACKET
    ensures var d := Packet(h, []) + tail;
            && Defined(d, HEADER_SIZE) && Judge(d, HEADER_SIZE, MSG_MOTOR_CMD) == Accept(NUM_MOTORS)
            && CheckedLength(HeaderOf(d)) == HEADER_SIZE
            && CmdsIn(d, HEADER_SIZE, slots) == CmdsOf(d, slots, NUM_MOTORS)
  {
    var d: Item := Packet(h, []) + tail;
    SealedAccepted(h, NUM_MOTORS, [], tail);
    AcceptedCmds(d, HEADER_SIZE, slots, NUM_MOTORS);
    ParseBytes(Seal(h, []));
    ItemParts(HeaderBytes(Seal(h, [])), [], tail);
  }
}
