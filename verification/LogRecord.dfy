// The framed records of the asynchronous log queue: an 8-byte header with a
// checksum over its first six bytes, then the syslog and UART payloads.

module LogRecord {
  import Memory

  type u8 = x: int | 0 <= x < 0x100
  type u16 = x: int | 0 <= x < 0x1_0000

  const HEADER_SIZE := 8
  const MAX_MSG_LEN := 512
  const PAYLOAD_LIMIT := MAX_MSG_LEN - 64  // lengths the push path accepts are below this

  datatype Header = Header(syslogLen: u16, uartLen: u16, level: u8, priority: u8, checksum: u16)

  datatype Record = Record(level: u8, syslog: seq<u8>, uart: seq<u8>) {
    predicate WellFormed() {
      |syslog| < PAYLOAD_LIMIT && |uart| < PAYLOAD_LIMIT && |syslog| + |uart| > 0
    }
  }

  // The structure as it lies in memory, little-endian
  function HeaderBytes(h: Header): (b: seq<u8>)
    ensures |b| == HEADER_SIZE
  {
    [h.syslogLen % 256, h.syslogLen / 256, h.uartLen % 256, h.uartLen / 256,
     h.level, h.priority, h.checksum % 256, h.checksum / 256]
  }

  function Pair(lo: u8, hi: u8): u16 { (lo as int) + 256 * (hi as int) }

  function ParseHeader(b: seq<u8>): Header
    requires |b| == HEADER_SIZE
  {
    Header(Pair(b[0], b[1]), Pair(b[2], b[3]), b[4], b[5], Pair(b[6], b[7]))
  }

  function SumTo(b: seq<u8>, n: nat): u16
    requires n <= |b|
  {
    if n == 0 then 0 else (SumTo(b, n - 1) + b[n - 1]) % 0x1_0000
  }

  function Checksum(h: Header): u16 {
    SumTo(HeaderBytes(h), HEADER_SIZE - 2)
  }

  // The sum itself: six bytes cannot overflow 16 bits
  lemma ChecksumIsSum(h: Header)
    ensures Checksum(h) == h.syslogLen % 256 + h.syslogLen / 256 + h.uartLen % 256 + h.uartLen / 256
                           + h.level + h.priority
  {
    var b := HeaderBytes(h);
    SumOfSix(b);
  }

  lemma SumOfSix(b: seq<u8>)
    requires |b| >= 6
    ensures SumTo(b, 6) as int == (b[0] as int) + b[1] as int + b[2] as int + b[3] as int + b[4] as int + b[5] as int
  {
    SumStep(b, 0);
    SumStep(b, 1);
    SumStep(b, 2);
    SumStep(b, 3);
    SumStep(b, 4);
    SumStep(b, 5);
  }

  lemma {:induction false} SumStep(b: seq<u8>, n: nat)
    requires n < |b| && n < 256
    ensures SumTo(b, n) <= 255 * n && SumTo(b, n + 1) as int == (SumTo(b, n) as int) + b[n] as int
  {
    if n > 0 { SumStep(b, n - 1); }
  }

  lemma PairSplits(lo: u8, hi: u8)
    ensures Pair(lo, hi) % 256 == lo && Pair(lo, hi) / 256 == hi
  {
  }

  // A header is the bytes it was read from
  lemma BytesParse(b: seq<u8>)
    requires |b| == HEADER_SIZE
    ensures HeaderBytes(ParseHeader(b)) == b
  {
    PairSplits(b[0], b[1]);
    PairSplits(b[2], b[3]);
    PairSplits(b[6], b[7]);
  }

  lemma SumOfParsed(b: seq<u8>)
    requires |b| == HEADER_SIZE
    ensures Checksum(ParseHeader(b)) == SumTo(b, 6) && ParseHeader(b).checksum == Pair(b[6], b[7])
  {
    BytesParse(b);
  }

  // One of the six bytes changed: so is the sum
  lemma ByteChangesSum(b: seq<u8>, k: nat, v: u8)
    requires k < 6 <= |b| && b[k] != v
    ensures SumTo(b[k := v], 6) != SumTo(b, 6)
  {
    SumOfSix(b);
    SumOfSix(b[k := v]);
  }

  method HeaderChecksum(h: Header) returns (sum: u16)
    ensures sum == Checksum(h)
  {
    var data := HeaderBytes(h);
    sum := 0;
    for i := 0 to HEADER_SIZE - 2
      invariant sum == SumTo(data, i)
    {
      sum := (sum + data[i]) % 0x1_0000;
    }
  }

  function SealedHeader(r: Record): Header
    requires r.WellFormed()
  {
    var h := Header(|r.syslog|, |r.uart|, r.level, 0, 0);
    h.(checksum := Checksum(h))
  }

  function Frame(r: Record): (b: seq<u8>)
    requires r.WellFormed()
    ensures |b| == HEADER_SIZE + |r.syslog| + |r.uart|
  {
    HeaderBytes(SealedHeader(r)) + r.syslog + r.uart
  }

  ghost predicate AllWellFormed(rs: seq<Record>) {
    forall i | 0 <= i < |rs| :: rs[i].WellFormed()
  }

  function Frames(rs: seq<Record>): seq<u8>
    requires AllWellFormed(rs)
  {
    if rs == [] then [] else Frame(rs[0]) + Frames(rs[1..])
  }

  lemma ParseHeaderBytes(h: Header)
    ensures ParseHeader(HeaderBytes(h)) == h
  {
  }

  // The checksum does not read its own field
  lemma ChecksumIgnoresItself(h: Header, c: u16)
    ensures Checksum(h.(checksum := c)) == Checksum(h)
  {
    SumAgrees(HeaderBytes(h.(checksum := c)), HeaderBytes(h), HEADER_SIZE - 2);
  }

  lemma {:induction false} SumAgrees(a: seq<u8>, b: seq<u8>, n: nat)
    requires n <= |a| == |b| && a[..n] == b[..n]
    ensures SumTo(a, n) == SumTo(b, n)
    decreases n
  {
    if n > 0 {
      assert a[..n - 1] == a[..n][..n - 1] && a[n - 1] == a[..n][n - 1];
      assert b[..n - 1] == b[..n][..n - 1] && b[n - 1] == b[..n][n - 1];
      SumAgrees(a, b, n - 1);
    }
  }

  // The header a reader finds at the tail, and the bytes after it
  function HeadOf(b: seq<u8>): Header
    requires |b| >= HEADER_SIZE
  {
    ParseHeader(b[..HEADER_SIZE])
  }

  function BodyOf(b: seq<u8>): seq<u8>
    requires |b| >= HEADER_SIZE
  {
    b[HEADER_SIZE..]
  }

  // A frame parses back to the record it was built from, checksum included
  lemma FrameParses(r: Record, rest: seq<u8>)
    requires r.WellFormed()
    ensures HeadOf(Frame(r) + rest) == SealedHeader(r)
    ensures BodyOf(Frame(r) + rest) == r.syslog + (r.uart + rest)
    ensures Checksum(SealedHeader(r)) == SealedHeader(r).checksum
  {
    var h := SealedHeader(r);
    FrameSplits(r, rest);
    Memory.Halves(HeaderBytes(h), r.syslog + (r.uart + rest));
    ParseHeaderBytes(h);
    ChecksumIgnoresItself(h.(checksum := 0), h.checksum);
  }

  // The frame in bytes
  lemma FrameInBytes(r: Record)
    requires r.WellFormed()
    ensures var s, u := |r.syslog|, |r.uart|; var sum := s % 256 + s / 256 + u % 256 + u / 256 + r.level;
            Frame(r)[..6] == [s % 256, s / 256, u % 256, u / 256, r.level, 0]
            && Frame(r)[6] == sum % 256 && Frame(r)[7] == sum / 256 && Frame(r)[8..] == r.syslog + r.uart
  {
    ChecksumIsSum(SealedHeader(r));
    ChecksumIgnoresItself(SealedHeader(r).(checksum := 0), SealedHeader(r).checksum);
    FrameSplits(r, []);
  }

  lemma FrameSplits(r: Record, rest: seq<u8>)
    requires r.WellFormed()
    ensures Frame(r) + rest == HeaderBytes(SealedHeader(r)) + (r.syslog + (r.uart + rest))
  {
    Memory.Associative(HeaderBytes(SealedHeader(r)) + r.syslog, r.uart, rest);
    Memory.Associative(HeaderBytes(SealedHeader(r)), r.syslog, r.uart + rest);
  }

  lemma {:induction false} FramesConcat(a: seq<Record>, b: seq<Record>)
    requires AllWellFormed(a) && AllWellFormed(b)
    ensures AllWellFormed(a + b) && Frames(a + b) == Frames(a) + Frames(b)
    decreases |a|
  {
    if a == [] {
      assert a + b == b;
    } else {
      assert (a + b)[1..] == a[1..] + b && (a + b)[0] == a[0];
      FramesConcat(a[1..], b);
    }
  }

  // No two different record sequences have the same bytes: the framing is
  // uniquely decodable.
  lemma {:induction false} FramesInjective(a: seq<Record>, b: seq<Record>)
    requires AllWellFormed(a) && AllWellFormed(b) && Frames(a) == Frames(b)
    ensures a == b
    decreases |a|
  {
    if a == [] || b == [] {
      assert a == b;
    } else {
      FrameParses(a[0], Frames(a[1..]));
      FrameParses(b[0], Frames(b[1..]));
      Memory.Halves(a[0].syslog, a[0].uart + Frames(a[1..]));
      Memory.Halves(b[0].syslog, b[0].uart + Frames(b[1..]));
      Memory.Halves(a[0].uart, Frames(a[1..]));
      Memory.Halves(b[0].uart, Frames(b[1..]));
      assert a[0] == b[0];
      FramesInjective(a[1..], b[1..]);
    }
  }
}
