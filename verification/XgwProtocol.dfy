// The 32-byte packet header of the xGW UDP protocol, and the sealing and
// validation of packets with CRC-32.

module XgwProtocol {
  import B = Bits
  import opened ByteWords
  import opened Crc32
  import Memory

  const MAGIC := Half(0x5A, 0x5A)  // 0x5A5A
  const VERSION: Byte := 0x02
  const MSG_MOTOR_CMD: Byte := 0x02
  const MSG_MOTOR_SET: Byte := 0x07
  const HEADER_SIZE := 32
  const CRC_BUFFER_WORDS := 256
  const CRC_BUFFER_SIZE := 4 * CRC_BUFFER_WORDS

  const ZERO := Word(0, 0, 0, 0)

  datatype Header = Header(
    magic: Half, headerMeta: Half, version: Byte, msgType: Byte, count: Byte, reserved: Byte,
    sequence: Word, payloadLen: Word, timestampLow: Word, timestampHigh: Word, crc32: Word, reservedPad: Word)

  function PayloadLen(h: Header): nat { Number(h.payloadLen) }

  // The structure as it lies in memory
  function HeaderBytes(h: Header): (b: seq<Byte>)
    ensures |b| == HEADER_SIZE
  {
    HalfBytes(h.magic) + HalfBytes(h.headerMeta) + [h.version, h.msgType, h.count, h.reserved]
    + WordBytes(h.sequence) + WordBytes(h.payloadLen) + WordBytes(h.timestampLow) + WordBytes(h.timestampHigh)
    + WordBytes(h.crc32) + WordBytes(h.reservedPad)
  }

  function ParseHeader(b: seq<Byte>): Header
    requires |b| == HEADER_SIZE
  {
    Header(HalfAt(b, 0), HalfAt(b, 2), b[4], b[5], b[6], b[7],
           WordAt(b, 8), WordAt(b, 12), WordAt(b, 16), WordAt(b, 20), WordAt(b, 24), WordAt(b, 28))
  }

  lemma ParseBytes(h: Header)
    ensures ParseHeader(HeaderBytes(h)) == h
  {
  }

  lemma BytesParse(b: seq<Byte>)
    requires |b| == HEADER_SIZE
    ensures HeaderBytes(ParseHeader(b)) == b
  {
    assert b[0..2] == [b[0], b[1]] && b[2..4] == [b[2], b[3]] && b[4..8] == [b[4], b[5], b[6], b[7]];
    assert b == b[0..2] + b[2..4] + b[4..8] + b[8..12] + b[12..16] + b[16..20] + b[20..24] + b[24..28] + b[28..32];
  }

  // xgw_header_init
  function InitHeader(msgType: Byte, count: Byte, payloadLen: Word, sequence: Word): Header {
    Header(MAGIC, Half(0, 0), VERSION, msgType, count, 0, sequence, payloadLen, ZERO, ZERO, ZERO, ZERO)
  }

  // What the CRC is computed over: the packet with its crc32 field zeroed
  function Covered(h: Header, payload: seq<Byte>): seq<Byte> {
    HeaderBytes(h.(crc32 := ZERO)) + payload
  }

  // ---------- the size test ----------

  const MAX_PAYLOAD_LEN := 0xFFFF_FFDC  // 2^32 - 36

  // total_words <= CRC_BUFFER_SIZE_WORDS, computed in 32 bits
  predicate PassesSizeTest(n: nat) {
    B.Add32(B.Add32(HEADER_SIZE, n), 3) / 4 <= CRC_BUFFER_WORDS
  }

  lemma SmallSizes(n: nat)
    requires n <= MAX_PAYLOAD_LEN
    ensures B.Add32(HEADER_SIZE, n) == HEADER_SIZE + n
    ensures PassesSizeTest(n) <==> HEADER_SIZE + n <= CRC_BUFFER_SIZE
  {
  }

  lemma WrappingSizes(n: nat)
    requires MAX_PAYLOAD_LEN < n < B.TWO32
    ensures PassesSizeTest(n)
  {
    if n < B.TWO32 - HEADER_SIZE {
      assert B.Add32(HEADER_SIZE, n) == HEADER_SIZE + n;
      B.ModUnique(HEADER_SIZE + n + 3, B.TWO32, 1, HEADER_SIZE + n + 3 - B.TWO32);
    } else {
      B.ModUnique(HEADER_SIZE + n, B.TWO32, 1, HEADER_SIZE + n - B.TWO32);
    }
  }

  // The copy that follows the test stays inside the buffer for exactly these
  // lengths: beyond them the size wraps, the test passes, and nothing can be
  // said of the call.
  lemma CopyStaysInside(n: nat)
    requires n < B.TWO32
    ensures (PassesSizeTest(n) ==> HEADER_SIZE + n <= CRC_BUFFER_SIZE) <==> n <= MAX_PAYLOAD_LEN
  {
    if n <= MAX_PAYLOAD_LEN { SmallSizes(n); } else { WrappingSizes(n); }
  }

  // An input for which it does not: the 32-bit size is 0
  lemma WrappedSize()
    ensures PassesSizeTest(0xFFFF_FFE0) && HEADER_SIZE + 0xFFFF_FFE0 > CRC_BUFFER_SIZE
  {
  }

  // The value a packet of this size carries when sealed; packets beyond the
  // CRC buffer get 0
  function PacketCrc(h: Header, payload: seq<Byte>, n: nat): bv32
    requires n <= |payload| || HEADER_SIZE + n > CRC_BUFFER_SIZE
  {
    if HEADER_SIZE + n > CRC_BUFFER_SIZE then 0 else Crc(Covered(h, payload[..n]))
  }

  // xgw_crc32_calculate
  method Crc32Calculate(h: Header, payload: seq<Byte>, n: nat) returns (crc: bv32)
    requires n <= MAX_PAYLOAD_LEN
    requires n <= |payload| || HEADER_SIZE + n > CRC_BUFFER_SIZE
    ensures crc == PacketCrc(h, payload, n)
  {
    SmallSizes(n);
    var totalBytes := B.Add32(HEADER_SIZE, n);
    var totalWords := B.Add32(totalBytes, 3) / 4;
    if totalWords > CRC_BUFFER_WORDS {
      return 0;
    }
    crc := CrcOfCopy(h, payload, n);
  }

  // The copy with the crc32 field zeroed, and its CRC
  method CrcOfCopy(h: Header, payload: seq<Byte>, n: nat) returns (crc: bv32)
    requires n <= |payload| && HEADER_SIZE + n <= CRC_BUFFER_SIZE
    ensures crc == PacketCrc(h, payload, n)
  {
    var copy := HeaderBytes(h.(crc32 := ZERO));
    var buffer := new Byte[CRC_BUFFER_SIZE];
    Memory.CopyIn(buffer, 0, copy, 0, HEADER_SIZE);
    assert buffer[..HEADER_SIZE] == copy;
    ghost var rest := buffer[HEADER_SIZE + n..];
    Memory.CopyIn(buffer, HEADER_SIZE, payload, 0, n);
    Memory.TwoFirst(copy, payload[..n], rest);
    assert buffer[..HEADER_SIZE + n] == buffer[..][..HEADER_SIZE + n];
    crc := Crc32Core(buffer, HEADER_SIZE + n);
  }

  // The lengths for which validation is defined, on this payload pointer
  predicate Readable(n: nat, payload: seq<Byte>) {
    n <= MAX_PAYLOAD_LEN && (n <= |payload| || HEADER_SIZE + n > CRC_BUFFER_SIZE)
  }

  // xgw_crc32_validate
  predicate Valid(h: Header, payload: seq<Byte>)
    requires Readable(PayloadLen(h), payload)
  {
    PacketCrc(h, payload, PayloadLen(h)) == Value(h.crc32)
  }

  method Crc32Validate(h: Header, payload: seq<Byte>) returns (ok: bool)
    requires Readable(PayloadLen(h), payload)
    ensures ok <==> Valid(h, payload)
  {
    var calculated := Crc32Calculate(h, payload, PayloadLen(h));
    ok := calculated == Value(h.crc32);
  }

  // ---------- sealing and validation ----------

  // header->crc32 = xgw_crc32_calculate(header, payload, payload_len)
  function Seal(h: Header, payload: seq<Byte>): Header {
    h.(crc32 := Field(PacketCrc(h, payload, |payload|)))
  }

  // A sealed packet validates, whatever its fields and size
  lemma SealedValidates(h: Header, payload: seq<Byte>)
    requires PayloadLen(h) == |payload| <= MAX_PAYLOAD_LEN
    ensures Valid(Seal(h, payload), payload)
  {
    var s := Seal(h, payload);
    ValueOfField(PacketCrc(h, payload, |payload|));
    assert s.(crc32 := ZERO) == h.(crc32 := ZERO);
  }

  // A packet as received: header bytes and the payload its header announces
  predicate Whole(p: seq<Byte>) {
    |p| >= HEADER_SIZE && PayloadLen(ParseHeader(p[..HEADER_SIZE])) == |p| - HEADER_SIZE
  }

  predicate ValidPacket(p: seq<Byte>)
    requires Whole(p) && |p| <= HEADER_SIZE + MAX_PAYLOAD_LEN
  {
    Valid(ParseHeader(p[..HEADER_SIZE]), p[HEADER_SIZE..])
  }

  function Zeroed(p: seq<Byte>): seq<Byte>
    requires |p| >= HEADER_SIZE
  {
    p[..24] + [0, 0, 0, 0] + p[28..]
  }

  lemma CoveredIsZeroed(p: seq<Byte>)
    requires Whole(p)
    ensures Covered(ParseHeader(p[..HEADER_SIZE]), p[HEADER_SIZE..]) == Zeroed(p)
  {
    var b := p[..HEADER_SIZE];
    BytesParse(b);
    CrcField(ParseHeader(b), ZERO);
  }

  lemma CrcField(h: Header, c: Word)
    ensures HeaderBytes(h.(crc32 := c)) == HeaderBytes(h)[..24] + WordBytes(c) + HeaderBytes(h)[28..]
  {
  }

  // The number in the crc32 field
  function CrcFieldOf(p: seq<Byte>): bv32
    requires |p| >= HEADER_SIZE
  {
    Value(WordAt(p, 24))
  }

  // For a packet within the CRC buffer, validity says that the crc32 field is
  // the CRC of all the other bytes
  lemma ValidMeans(p: seq<Byte>)
    requires Whole(p) && |p| <= CRC_BUFFER_SIZE
    ensures ValidPacket(p) <==> Crc(Zeroed(p)) == CrcFieldOf(p)
  {
    CoveredIsZeroed(p);
    WholePayload(ParseHeader(p[..HEADER_SIZE]), p[HEADER_SIZE..]);
    CrcOfHeader(p);
  }

  lemma WholePayload(h: Header, payload: seq<Byte>)
    requires PayloadLen(h) == |payload| && HEADER_SIZE + |payload| <= CRC_BUFFER_SIZE
    ensures Valid(h, payload) <==> Crc(Covered(h, payload)) == Value(h.crc32)
  {
    assert payload[..|payload|] == payload;
  }

  lemma CrcOfHeader(p: seq<Byte>)
    requires |p| >= HEADER_SIZE
    ensures ParseHeader(p[..HEADER_SIZE]).crc32 == WordAt(p, 24)
  {
    WordOfPrefix(p, HEADER_SIZE, 24);
  }

  lemma WordOfPrefix(p: seq<Byte>, n: nat, at: nat)
    requires at + 4 <= n <= |p|
    ensures WordAt(p[..n], at) == WordAt(p, at)
  {
  }

  // A change confined to four adjacent bytes, outside the crc32 and payload_len
  // fields, is always noticed.
  lemma BurstIsRejected(p: seq<Byte>, q: seq<Byte>, at: nat)
    requires Whole(p) && |p| <= CRC_BUFFER_SIZE && ValidPacket(p)
    requires |q| == |p| && q != p && at + 4 <= |p|
    requires q[..at] == p[..at] && q[at + 4..] == p[at + 4..]
    requires q[12..16] == p[12..16] && q[24..28] == p[24..28]
    ensures Whole(q) && !ValidPacket(q)
  {
    SameLength(p, q);
    ValidMeans(p);
    ValidMeans(q);
    ZeroedDiffer(p, q, at);
    CrcDetectsFourBytes(Zeroed(p), Zeroed(q), at);
    SameField(p, q);
  }

  lemma SameField(p: seq<Byte>, q: seq<Byte>)
    requires |p| == |q| >= HEADER_SIZE
    ensures CrcFieldOf(p) == CrcFieldOf(q) <==> p[24..28] == q[24..28]
  {
    FieldOfValue(WordAt(p, 24));
    FieldOfValue(WordAt(q, 24));
    assert WordBytes(WordAt(p, 24)) == p[24..28] && WordBytes(WordAt(q, 24)) == q[24..28];
  }

  lemma SameLength(p: seq<Byte>, q: seq<Byte>)
    requires Whole(p) && |q| == |p| && q[12..16] == p[12..16]
    ensures Whole(q)
  {
    assert WordBytes(WordAt(p, 12)) == WordBytes(WordAt(q, 12));
    WordOfPrefix(p, HEADER_SIZE, 12);
    WordOfPrefix(q, HEADER_SIZE, 12);
  }

  lemma ZeroedInjective(p: seq<Byte>, q: seq<Byte>)
    requires |p| == |q| >= HEADER_SIZE && Zeroed(p) == Zeroed(q) && p[24..28] == q[24..28]
    ensures p == q
  {
    assert p == Zeroed(p)[..24] + p[24..28] + Zeroed(p)[28..];
    assert q == Zeroed(q)[..24] + q[24..28] + Zeroed(q)[28..];
  }

  lemma ZeroedDiffer(p: seq<Byte>, q: seq<Byte>, at: nat)
    requires |p| == |q| >= HEADER_SIZE && at + 4 <= |p| && p != q
    requires q[..at] == p[..at] && q[at + 4..] == p[at + 4..] && q[24..28] == p[24..28]
    ensures Zeroed(p) != Zeroed(q)
    ensures Zeroed(p)[..at] == Zeroed(q)[..at] && Zeroed(p)[at + 4..] == Zeroed(q)[at + 4..]
  {
    if Zeroed(p) == Zeroed(q) { ZeroedInjective(p, q); }
    forall i | 0 <= i < at ensures Zeroed(p)[i] == Zeroed(q)[i] {
      assert q[i] == q[..at][i] == p[..at][i] == p[i];
    }
    forall i | at + 4 <= i < |p| ensures Zeroed(p)[i] == Zeroed(q)[i] {
      assert q[i] == q[at + 4..][i - at - 4] == p[at + 4..][i - at - 4] == p[i];
    }
  }

  // So is a change of the crc32 field alone
  lemma CrcChangeIsRejected(p: seq<Byte>, q: seq<Byte>)
    requires Whole(p) && |p| <= CRC_BUFFER_SIZE && ValidPacket(p)
    requires |q| == |p| && q != p && q[..24] == p[..24] && q[28..] == p[28..]
    ensures Whole(q) && !ValidPacket(q)
  {
    Memory.SliceOfPrefix(p, 24, 12, 16);
    Memory.SliceOfPrefix(q, 24, 12, 16);
    SameLength(p, q);
    ValidMeans(p);
    ValidMeans(q);
    assert Zeroed(p) == Zeroed(q);
    OnlyFieldDiffers(p, q);
  }

  lemma OnlyFieldDiffers(p: seq<Byte>, q: seq<Byte>)
    requires |p| == |q| >= HEADER_SIZE && p != q && Zeroed(p) == Zeroed(q)
    ensures CrcFieldOf(p) != CrcFieldOf(q)
  {
    SameField(p, q);
    if p[24..28] == q[24..28] { ZeroedInjective(p, q); }
  }

  // Beyond the CRC buffer nothing is covered: such a packet validates exactly
  // when its crc32 field is zero.
  lemma OversizeIsNotCovered(p: seq<Byte>)
    requires Whole(p) && CRC_BUFFER_SIZE < |p| <= HEADER_SIZE + MAX_PAYLOAD_LEN
    ensures ValidPacket(p) <==> CrcFieldOf(p) == 0
  {
    CrcOfHeader(p);
  }
}
