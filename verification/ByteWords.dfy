// Bytes, and the little-endian fields of packed structures.

module ByteWords {
  type Byte = bv8

  // A 16-bit or 32-bit field as its bytes lie in memory, lowest address first
  datatype Half = Half(b0: Byte, b1: Byte)

  datatype Word = Word(b0: Byte, b1: Byte, b2: Byte, b3: Byte)

  function HalfBytes(h: Half): (b: seq<Byte>)
    ensures |b| == 2
  {
    [h.b0, h.b1]
  }

  function WordBytes(w: Word): (b: seq<Byte>)
    ensures |b| == 4
  {
    [w.b0, w.b1, w.b2, w.b3]
  }

  function HalfAt(b: seq<Byte>, i: nat): Half
    requires i + 2 <= |b|
  {
    Half(b[i], b[i + 1])
  }

  function WordAt(b: seq<Byte>, i: nat): (w: Word)
    requires i + 4 <= |b|
    ensures WordBytes(w) == b[i..i + 4]
  {
    Word(b[i], b[i + 1], b[i + 2], b[i + 3])
  }

  // The unsigned number a word field stands for
  function Number(w: Word): nat
  {
    w.b0 as nat + 0x100 * (w.b1 as nat) + 0x1_0000 * (w.b2 as nat) + 0x100_0000 * (w.b3 as nat)
  }

  // The same as a bit vector, and back
  function Value(w: Word): bv32 {
    (w.b0 as bv32) | ((w.b1 as bv32) << 8) | ((w.b2 as bv32) << 16) | ((w.b3 as bv32) << 24)
  }

  function Field(v: bv32): Word {
    Word((v & 0xFF) as bv8, ((v >> 8) & 0xFF) as bv8, ((v >> 16) & 0xFF) as bv8, ((v >> 24) & 0xFF) as bv8)
  }

  // Byte j of a field holds bits 8j to 8j + 7 of its value
  lemma ValueBytes(w: Word, v: bv32)
    ensures Value(w) == v <==>
            && w.b0 as bv32 == v & 0xFF && w.b1 as bv32 == (v >> 8) & 0xFF
            && w.b2 as bv32 == (v >> 16) & 0xFF && w.b3 as bv32 == (v >> 24) & 0xFF
  {
    ValueOfField(v);
    FieldOfValue(w);
    FieldBytes(v);
    if w.b0 as bv32 == v & 0xFF { SameByte(w.b0, Field(v).b0); }
    if w.b1 as bv32 == (v >> 8) & 0xFF { SameByte(w.b1, Field(v).b1); }
    if w.b2 as bv32 == (v >> 16) & 0xFF { SameByte(w.b2, Field(v).b2); }
    if w.b3 as bv32 == (v >> 24) & 0xFF { SameByte(w.b3, Field(v).b3); }
  }

  lemma FieldBytes(v: bv32)
    ensures Field(v).b0 as bv32 == v & 0xFF && Field(v).b1 as bv32 == (v >> 8) & 0xFF
    ensures Field(v).b2 as bv32 == (v >> 16) & 0xFF && Field(v).b3 as bv32 == (v >> 24) & 0xFF
  {
    LowByte(v & 0xFF);
    LowByte((v >> 8) & 0xFF);
    LowByte((v >> 16) & 0xFF);
    LowByte((v >> 24) & 0xFF);
  }

  lemma LowByte(x: bv32)
    requires x <= 0xFF
    ensures (x as bv8) as bv32 == x
  {
  }

  lemma SameByte(a: Byte, b: Byte)
    requires a as bv32 == b as bv32
    ensures a == b
  {
  }

  lemma ValueOfField(v: bv32)
    ensures Value(Field(v)) == v
  {
  }

  lemma FieldOfValue(w: Word)
    ensures Field(Value(w)) == w
  {
  }
}
