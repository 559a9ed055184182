// motor_cmd_ipc_t, the 24-byte record that crosses the ring, and the byte
// stream it is framed in.  Float fields are carried as their 32-bit words.

module MotorCommand {
  import opened ByteWords

  const CMD_SIZE := 24
  const NUM_MOTORS := 23
  const BATCH_BYTES := CMD_SIZE * NUM_MOTORS  // the receive buffer of Core 1

  const MODE_DISABLE: Byte := 0
  const MODE_ENABLE: Byte := 1
  const MODE_MECH_ZERO: Byte := 2
  const MODE_ZERO_STA: Byte := 3
  const MODE_ZERO_STA_MECH: Byte := 4
  const MODE_MIT_CONTROL: Byte := 255

  // IEEE 754 single precision
  const ZERO_F := Word(0, 0, 0, 0)
  const TWO_F := Word(0, 0, 0, 0x40)

  datatype Cmd = Cmd(
    motorId: Byte, canBus: Byte, mode: Byte, reserved: Byte,
    position: Word, velocity: Word, torque: Word, kp: Word, kd: Word)
  {
    predicate OneTime() { mode <= 4 }
  }

  function Encode(c: Cmd): (b: seq<Byte>)
    ensures |b| == CMD_SIZE
  {
    [c.motorId, c.canBus, c.mode, c.reserved] + WordBytes(c.position) + WordBytes(c.velocity)
    + WordBytes(c.torque) + WordBytes(c.kp) + WordBytes(c.kd)
  }

  function Decode(b: seq<Byte>): Cmd
    requires |b| == CMD_SIZE
  {
    Cmd(b[0], b[1], b[2], b[3], WordAt(b, 4), WordAt(b, 8), WordAt(b, 12), WordAt(b, 16), WordAt(b, 20))
  }

  lemma DecodeEncode(c: Cmd)
    ensures Decode(Encode(c)) == c
  {
  }

  // Every 24-byte string is the encoding of the command it decodes to
  lemma EncodeDecode(b: seq<Byte>)
    requires |b| == CMD_SIZE
    ensures Encode(Decode(b)) == b
  {
    assert b[..4] == [b[0], b[1], b[2], b[3]];
    assert b == b[..4] + b[4..8] + b[8..12] + b[12..16] + b[16..20] + b[20..24];
  }

  // ---------- streams of commands ----------

  function EncodeAll(cs: seq<Cmd>): (b: seq<Byte>)
    ensures |b| == CMD_SIZE * |cs|
  {
    if cs == [] then [] else Encode(cs[0]) + EncodeAll(cs[1..])
  }

  // Whole commands in a byte string; a trailing fragment is ignored
  function DecodeAll(b: seq<Byte>): (cs: seq<Cmd>)
    ensures |cs| == |b| / CMD_SIZE
  {
    if |b| < CMD_SIZE then [] else [Decode(b[..CMD_SIZE])] + DecodeAll(b[CMD_SIZE..])
  }

  lemma {:induction false} DecodeEncodeAll(cs: seq<Cmd>)
    ensures DecodeAll(EncodeAll(cs)) == cs
  {
    if cs != [] {
      var b := EncodeAll(cs);
      assert b[..CMD_SIZE] == Encode(cs[0]) && b[CMD_SIZE..] == EncodeAll(cs[1..]);
      DecodeEncode(cs[0]);
      DecodeEncodeAll(cs[1..]);
    }
  }

  lemma {:induction false} EncodeDecodeAll(b: seq<Byte>)
    requires |b| % CMD_SIZE == 0
    ensures EncodeAll(DecodeAll(b)) == b
    decreases |b|
  {
    if |b| >= CMD_SIZE {
      EncodeDecode(b[..CMD_SIZE]);
      EncodeDecodeAll(b[CMD_SIZE..]);
      assert b == b[..CMD_SIZE] + b[CMD_SIZE..];
    }
  }

  lemma {:induction false} EncodeConcat(a: seq<Cmd>, b: seq<Cmd>)
    ensures EncodeAll(a + b) == EncodeAll(a) + EncodeAll(b)
    decreases |a|
  {
    if a == [] {
      assert a + b == b;
    } else {
      assert (a + b)[1..] == a[1..] + b;
      EncodeConcat(a[1..], b);
    }
  }

  lemma {:induction false} DecodeConcat(a: seq<Byte>, b: seq<Byte>)
    requires |a| % CMD_SIZE == 0
    ensures DecodeAll(a + b) == DecodeAll(a) + DecodeAll(b)
    decreases |a|
  {
    if a == [] {
      assert a + b == b;
    } else {
      assert (a + b)[..CMD_SIZE] == a[..CMD_SIZE];
      assert (a + b)[CMD_SIZE..] == a[CMD_SIZE..] + b;
      DecodeConcat(a[CMD_SIZE..], b);
    }
  }

  // The first n commands are the first 24 n bytes
  lemma EncodePrefix(cs: seq<Cmd>, n: nat)
    requires n <= |cs|
    ensures EncodeAll(cs)[..CMD_SIZE * n] == EncodeAll(cs[..n])
    ensures EncodeAll(cs)[CMD_SIZE * n..] == EncodeAll(cs[n..])
  {
    assert cs == cs[..n] + cs[n..];
    EncodeConcat(cs[..n], cs[n..]);
  }

  lemma WholeSum(a: int, b: int)
    requires a % CMD_SIZE == 0 && b % CMD_SIZE == 0
    ensures (a + b) % CMD_SIZE == 0 && (a - b) % CMD_SIZE == 0
  {
  }

  // Whole commands appended to whole commands
  lemma WholeMore(b: seq<Byte>, cs: seq<Cmd>)
    requires |b| % CMD_SIZE == 0
    ensures |b + EncodeAll(cs)| % CMD_SIZE == 0
  {
    WholeSum(|b|, CMD_SIZE * |cs|);
  }

  lemma WholeCount(n: nat)
    requires n % CMD_SIZE == 0
    ensures n == CMD_SIZE * (n / CMD_SIZE)
  {
  }

  // The bytes of command k of a stream
  function Piece(b: seq<Byte>, k: nat): (p: seq<Byte>)
    requires CMD_SIZE * k + CMD_SIZE <= |b|
    ensures |p| == CMD_SIZE
  {
    b[CMD_SIZE * k..CMD_SIZE * k + CMD_SIZE]
  }

  lemma PieceOfRest(b: seq<Byte>, k: nat)
    requires 0 < k && CMD_SIZE * k + CMD_SIZE <= |b|
    ensures Piece(b[CMD_SIZE..], k - 1) == Piece(b, k)
  {
  }

  lemma {:induction false} DecodeAt(b: seq<Byte>, k: nat)
    requires CMD_SIZE * k + CMD_SIZE <= |b|
    ensures k < |DecodeAll(b)| && DecodeAll(b)[k] == Decode(Piece(b, k))
    decreases k
  {
    if k == 0 {
      assert b[..CMD_SIZE] == Piece(b, 0);
    } else {
      PieceOfRest(b, k);
      DecodeAt(b[CMD_SIZE..], k - 1);
    }
  }

  // A whole number of commands read off the front of a stream are the first
  // commands written to it
  lemma ReadIsPrefix(cs: seq<Cmd>, taken: seq<Byte>)
    requires taken <= EncodeAll(cs) && |taken| % CMD_SIZE == 0
    ensures |taken| / CMD_SIZE <= |cs| && DecodeAll(taken) == cs[..|taken| / CMD_SIZE]
  {
    var n := |taken| / CMD_SIZE;
    WholeCount(|taken|);
    EncodePrefix(cs, n);
    assert taken == EncodeAll(cs)[..CMD_SIZE * n];
    DecodeEncodeAll(cs[..n]);
  }
}
