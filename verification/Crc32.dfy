// CRC-32 of section 3.2.9 of IEEE 802.3: the table-driven loop of crc32_core,
// the bit-serial register it implements, and the polynomial remainder that the
// standard defines.

module Crc32 {
  import opened ByteWords
  import opened Crc32Table
  import opened Gf2
  import Memory

  const ONES: bv32 := 0xFFFF_FFFF

  predicate Odd(c: bv32) { c & 1 == 1 }

  function Half(c: bv32): bv32 { c >> 1 }

  function Plus(a: bv32, b: bv32): bv32 { a ^ b }

  // The n lowest bits of c, lowest first.  In the reflected register this is
  // the order of descending powers, and it is the order of transmission.
  function Low(c: bv32, n: nat): (bits: Bits)
    ensures |bits| == n
  {
    Spell(Odd, Half, c, n)
  }

  // All coefficients of the register, one for each coefficient of G
  function Coeffs(c: bv32): (bits: Bits)
    ensures |bits| == 32
  {
    Low(c, |Generator()|)
  }

  function BitsOf(b: Byte): (bits: Bits)
    ensures |bits| == 8
  {
    Low(b as bv32, 8)
  }

  function MessageBits(data: seq<Byte>): (bits: Bits)
    ensures |bits| == 8 * |data|
  {
    if data == [] then [] else BitsOf(data[0]) + MessageBits(data[1..])
  }

  // ---------- bit-serial definition ----------

  // One message bit enters the reflected register
  function BitStep(c: bv32, bit: bool): bv32 {
    if (c & 1 == 1) != bit then (c >> 1) ^ 0xEDB8_8320 else c >> 1
  }

  function SerialBits(c: bv32, bits: Bits): bv32
    decreases |bits|
  {
    if bits == [] then c else SerialBits(BitStep(c, bits[0]), bits[1..])
  }

  function SerialByte(c: bv32, b: Byte): bv32 {
    SerialBits(c, BitsOf(b))
  }

  function Serial(c: bv32, data: seq<Byte>): bv32
    decreases |data|
  {
    if data == [] then c else Serial(SerialByte(c, data[0]), data[1..])
  }

  function Crc(data: seq<Byte>): bv32 {
    Serial(ONES, data) ^ ONES
  }

  // ---------- words as coefficient strings ----------

  function Shr(c: bv32, n: nat): bv32 { Halved(Half, c, n) }

  lemma Shr4(c: bv32)
    ensures Shr(c, 4) == c >> 4
  {
    Shifts(c);
    HalvedTwice(Half, c, 2, 2);
  }

  lemma Shifts(c: bv32)
    ensures (c >> 1) >> 1 == c >> 2 && (c >> 2) >> 2 == c >> 4 && ((c >> 2) >> 1) >> 1 == c >> 4
  {
  }

  lemma Shr8(c: bv32)
    ensures Shr(c, 8) == c >> 8
  {
    HalvedTwice(Half, c, 4, 4);
    Shr4(c);
    Shr4(c >> 4);
  }

  lemma ShrAll(c: bv32)
    ensures Shr(c, 32) == 0
  {
    forall x: bv32 ensures Halved(Half, x, 8) == ShrByte(x) { Shr8(x); }
    HalvedFour(Half, ShrByte, c);
    ShiftedOut(c);
  }

  function ShrByte(c: bv32): bv32 { c >> 8 }

  lemma ShiftedOut(c: bv32)
    ensures ShrByte(ShrByte(ShrByte(ShrByte(c)))) == 0
  {
  }

  lemma HalfPlus(a: bv32, b: bv32)
    ensures Half(Plus(a, b)) == Plus(Half(a), Half(b))
  {
  }

  lemma OddPlus(a: bv32, b: bv32)
    ensures Odd(Plus(a, b)) <==> (Odd(a) != Odd(b))
  {
  }

  lemma WordHalfAdditive()
    ensures HalfAdditive(Half, Plus)
  {
    forall a, b ensures Half(Plus(a, b)) == Plus(Half(a), Half(b)) {
      HalfPlus(a, b);
    }
  }

  lemma WordOddAdditive()
    ensures OddAdditive(Odd, Plus)
  {
    forall a, b ensures Odd(Plus(a, b)) <==> (Odd(a) != Odd(b)) {
      OddPlus(a, b);
    }
  }

  lemma LowXor(a: bv32, b: bv32, n: nat)
    ensures Low(a ^ b, n) == Xor(Low(a, n), Low(b, n))
  {
    WordHalfAdditive();
    WordOddAdditive();
    SpellXor(Odd, Half, Plus, a, b, n);
  }

  lemma WordDetermined()
    ensures Determined(Odd, Half)
  {
    forall a: bv32, b: bv32 | Odd(a) == Odd(b) && Half(a) == Half(b) ensures a == b {
      Rejoin(a, b);
    }
  }

  lemma Rejoin(a: bv32, b: bv32)
    requires (a & 1 == 1) == (b & 1 == 1) && a >> 1 == b >> 1
    ensures a == b
  {
  }

  // A word is determined by its coefficients
  lemma CoeffsInjective(a: bv32, b: bv32)
    requires Coeffs(a) == Coeffs(b)
    ensures a == b
  {
    ShrAll(a);
    ShrAll(b);
    WordDetermined();
    SpellInjective(Odd, Half, a, b, 32);
  }

  lemma ShiftedCoeffs(c: bv32)
    ensures Coeffs(c >> 1) == Coeffs(c)[1..] + [false]
  {
    SpellSplit(Odd, Half, c >> 1, 31, 1);
    ShrAll(c);
    assert Shr(c, 32) == Shr(c >> 1, 31);
    SpellZero(Odd, Half, 0, 1);
  }

  // The bits of c, lowest first, are the terms of G below x^k, highest first
  predicate SpellsGenerator(c: bv32, k: nat) {
    k == 0 || ((c & 1 == 1) == HasTerm(k - 1) && SpellsGenerator(c >> 1, k - 1))
  }

  lemma TermsStep(k: nat)
    requires k > 0
    ensures Terms(k) == [HasTerm(k - 1)] + Terms(k - 1)
  {
  }

  lemma {:induction false} SpelledTerms(c: bv32, k: nat)
    requires SpellsGenerator(c, k)
    ensures Low(c, k) == Terms(k)
    decreases k
  {
    if k > 0 {
      SpelledTerms(c >> 1, k - 1);
      TermsStep(k);
    }
  }

  lemma HalfGenerator()
    ensures SpellsGenerator(0x0000_EDB8, 16)
  {
    assert SpellsGenerator(0x0000_0003, 2) && SpellsGenerator(0x0000_000E, 4);
    assert SpellsGenerator(0x0000_003B, 6) && SpellsGenerator(0x0000_00ED, 8);
    assert SpellsGenerator(0x0000_03B6, 10) && SpellsGenerator(0x0000_0EDB, 12);
    assert SpellsGenerator(0x0000_3B6E, 14) && SpellsGenerator(0x0000_EDB8, 16);
  }

  lemma GeneratorCoeffs()
    ensures Coeffs(0xEDB8_8320) == Generator()
  {
    HalfGenerator();
    assert SpellsGenerator(0x0003_B6E2, 18) && SpellsGenerator(0x000E_DB88, 20);
    assert SpellsGenerator(0x003B_6E20, 22) && SpellsGenerator(0x00ED_B883, 24);
    assert SpellsGenerator(0x03B6_E20C, 26) && SpellsGenerator(0x0EDB_8832, 28);
    assert SpellsGenerator(0x3B6E_20C8, 30) && SpellsGenerator(0xEDB8_8320, 32);
    SpelledTerms(0xEDB8_8320, 32);
  }

  lemma SplitRegister(x: bv32, low: bv32, high: bv32)
    requires low ^ high == x
    ensures Coeffs(x) == Xor(Coeffs(low), Coeffs(high))
  {
    LowXor(low, high, |Generator()|);
  }

  // ---------- the register computes the remainder ----------

  lemma BitStepIsNext(c: bv32, bit: bool)
    ensures Coeffs(BitStep(c, bit)) == Next(Coeffs(c), bit)
  {
    ShiftedCoeffs(c);
    if Odd(c) != bit {
      SplitRegister((c >> 1) ^ 0xEDB8_8320, c >> 1, 0xEDB8_8320);
      GeneratorCoeffs();
    }
  }

  lemma {:induction false} SerialBitsIsFeed(c: bv32, bits: Bits)
    ensures Coeffs(SerialBits(c, bits)) == Feed(Coeffs(c), bits)
    decreases |bits|
  {
    if bits != [] {
      BitStepIsNext(c, bits[0]);
      SerialBitsIsFeed(BitStep(c, bits[0]), bits[1..]);
    }
  }

  lemma {:induction false} SerialIsFeed(c: bv32, data: seq<Byte>)
    ensures Coeffs(Serial(c, data)) == Feed(Coeffs(c), MessageBits(data))
    decreases |data|
  {
    if data != [] {
      SerialBitsIsFeed(c, BitsOf(data[0]));
      SerialIsFeed(SerialByte(c, data[0]), data[1..]);
      FeedConcat(Coeffs(c), BitsOf(data[0]), MessageBits(data[1..]));
    }
  }

  predicate AllSet(c: bv32, n: nat) {
    n == 0 || (c & 1 == 1 && AllSet(c >> 1, n - 1))
  }

  lemma {:induction false} AllSetLow(c: bv32, n: nat)
    requires AllSet(c, n)
    ensures Low(c, n) == Ones(n)
    decreases n
  {
    if n > 0 {
      AllSetLow(c >> 1, n - 1);
      assert Ones(n) == [true] + Ones(n - 1);
    }
  }

  lemma OnesCoeffs()
    ensures Coeffs(ONES) == Ones(32)
  {
    assert AllSet(0x0000_0003, 2) && AllSet(0x0000_000F, 4);
    assert AllSet(0x0000_003F, 6) && AllSet(0x0000_00FF, 8);
    assert AllSet(0x0000_03FF, 10) && AllSet(0x0000_0FFF, 12);
    assert AllSet(0x0000_3FFF, 14) && AllSet(0x0000_FFFF, 16);
    assert AllSet(0x0003_FFFF, 18) && AllSet(0x000F_FFFF, 20);
    assert AllSet(0x003F_FFFF, 22) && AllSet(0x00FF_FFFF, 24);
    assert AllSet(0x03FF_FFFF, 26) && AllSet(0x0FFF_FFFF, 28);
    assert AllSet(0x3FFF_FFFF, 30) && AllSet(0xFFFF_FFFF, 32);
    AllSetLow(ONES, 32);
  }

  // The frame check sequence of the standard: complement the first 32 bits of
  // the message, multiply by x^32, divide by G, complement the remainder.
  lemma CrcIsPolynomialRemainder(data: seq<Byte>)
    ensures Coeffs(Crc(data)) ==
            Xor(Remainder(AddFront(MessageBits(data) + Zeros(32), Ones(32))), Ones(32))
  {
    OnesCoeffs();
    SerialIsFeed(ONES, data);
    FeedIsRemainder(Ones(32), MessageBits(data));
    LowXor(Serial(ONES, data), ONES, 32);
  }

  // ---------- the table-driven loop ----------

  lemma StepIsNext()
    ensures forall c :: Coeffs(Step(c)) == Next(Coeffs(c), false)
  {
    forall c: bv32 ensures Coeffs(Step(c)) == Next(Coeffs(c), false) {
      BitStepIsNext(c, false);
    }
  }

  lemma Step8IsFeed(c: bv32)
    ensures Coeffs(Step8(c)) == Feed(Coeffs(c), Zeros(8))
  {
    StepIsNext();
    EightSteps(Step, Coeffs, c);
  }

  // A register whose low byte is clear is only shifted
  lemma HighFeed(h: bv32)
    requires h & 0xFF == 0
    ensures Feed(Coeffs(h), Zeros(8)) == Coeffs(h >> 8)
  {
    LowByteClear(h);
    SpellSplit(Odd, Half, h, 8, 24);
    FeedZerosShifts(Coeffs(h), 8);
    ShiftedByte(h);
  }

  lemma ShiftedByte(h: bv32)
    ensures Coeffs(h >> 8) == Low(Shr(h, 8), 24) + Zeros(8)
  {
    Shr8(h);
    SpellSplit(Odd, Half, h >> 8, 24, 8);
    ShrAll(h);
    HalvedTwice(Half, h, 8, 24);
    SpellZero(Odd, Half, 0, 8);
  }

  lemma LowNibbleClear(h: bv32)
    requires h & 0xF == 0
    ensures Low(h, 4) == Zeros(4)
  {
    assert Low(h, 4) == [h & 1 == 1] + Low(h >> 1, 3);
    assert Low(h >> 1, 3) == [(h >> 1) & 1 == 1] + Low(h >> 2, 2);
  }

  lemma LowByteClear(h: bv32)
    requires h & 0xFF == 0
    ensures Low(h, 8) == Zeros(8)
  {
    LowNibbleClear(h);
    LowNibbleClear(h >> 4);
    Shr4(h);
    SpellSplit(Odd, Half, h, 4, 4);
  }

  // What a table word has to be: the register after eight zero bits, started
  // from the table index
  lemma EntryFeeds(i: bv8)
    ensures Coeffs(Entry(i)) == Feed(Coeffs(i as bv32), Zeros(8))
  {
    TableIsEightSteps(i);
    Step8IsFeed(i as bv32);
  }

  // Then one lookup and one shift advance a whole register
  lemma FoldByte(x: bv32, low: bv32, high: bv32, y: bv32, e: bv32, t: bv32)
    requires low ^ high == x && e ^ t == y
    requires Coeffs(e) == Feed(Coeffs(low), Zeros(8)) && Coeffs(t) == Feed(Coeffs(high), Zeros(8))
    ensures Coeffs(y) == Feed(Coeffs(x), Zeros(8))
  {
    SplitRegister(x, low, high);
    FeedZerosLinear(Coeffs(low), Coeffs(high), 8);
    SplitRegister(y, e, t);
  }

  // One message byte is eight steps after it was added to the register
  lemma ByteFeeds(c: bv32, b: Byte, x: bv32)
    requires x == c ^ (b as bv32)
    ensures Coeffs(SerialByte(c, b)) == Feed(Coeffs(x), Zeros(8))
  {
    SerialBitsIsFeed(c, BitsOf(b));
    WindowFoldsIn(Coeffs(c), BitsOf(b));
    SplitRegister(x, c, b as bv32);
    ByteCoeffs(b);
  }

  lemma ByteCoeffs(b: Byte)
    ensures Coeffs(b as bv32) == BitsOf(b) + Zeros(24)
  {
    SpellSplit(Odd, Half, b as bv32, 8, 24);
    Shr8(b as bv32);
    SpellZero(Odd, Half, 0, 24);
  }

  lemma TableFeeds(x: bv32, low: bv32, high: bv32, y: bv32, e: bv32, t: bv32)
    requires low ^ high == x && high & 0xFF == 0 && t == high >> 8 && y == e ^ t
    requires Coeffs(e) == Feed(Coeffs(low), Zeros(8))
    ensures Coeffs(y) == Feed(Coeffs(x), Zeros(8))
  {
    HighFeed(high);
    FoldByte(x, low, high, y, e, t);
  }

  // The register after adding byte b, cut into the table index and the rest,
  // and the rest as the shift leaves it
  predicate Cut(c: bv32, b: Byte, low: bv32, high: bv32, t: bv32) {
    low ^ high == c ^ (b as bv32) && high & 0xFF == 0 && t == high >> 8
  }

  lemma CutExists(c: bv32, b: Byte)
    ensures Cut(c, b, (c ^ (b as bv32)) & 0xFF, (c ^ (b as bv32)) & 0xFFFF_FF00, c >> 8)
  {
  }

  lemma TableByte(c: bv32, b: Byte, low: bv32, high: bv32, e: bv32, t: bv32)
    requires Cut(c, b, low, high, t)
    requires Coeffs(e) == Feed(Coeffs(low), Zeros(8))
    ensures e ^ t == SerialByte(c, b)
  {
    TableFeeds(c ^ (b as bv32), low, high, e ^ t, e, t);
    ByteFeeds(c, b, c ^ (b as bv32));
    CoeffsInjective(e ^ t, SerialByte(c, b));
  }

  lemma TableStep(c: bv32, b: Byte, e: bv32)
    requires Coeffs(e) == Feed(Coeffs((c ^ (b as bv32)) & 0xFF), Zeros(8))
    ensures e ^ (c >> 8) == SerialByte(c, b)
  {
    CutExists(c, b);
    TableByte(c, b, (c ^ (b as bv32)) & 0xFF, (c ^ (b as bv32)) & 0xFFFF_FF00, e, c >> 8);
  }

  method TableWord(i: bv8) returns (e: bv32)
    ensures Coeffs(e) == Feed(Coeffs(i as bv32), Zeros(8))
  {
    e := Entry(i);
    EntryFeeds(i);
  }

  // The loop body of crc32_core
  method Update(crc: bv32, b: Byte) returns (next: bv32)
    ensures next == SerialByte(crc, b)
  {
    var e := TableWord(((crc ^ (b as bv32)) & 0xFF) as bv8);
    IndexFits(crc ^ (b as bv32));
    TableStep(crc, b, e);
    next := e ^ (crc >> 8);
  }

  lemma IndexFits(x: bv32)
    ensures ((x & 0xFF) as bv8) as bv32 == x & 0xFF
  {
  }

  // The CRCs of no bytes and of the one byte 0x31
  lemma {:induction false} KnownCrcs(data: seq<Byte>)
    ensures data == [] ==> Crc(data) == 0
    ensures data == [0x31] ==> Crc(data) == 0x83DC_EFB7
  {
    if data == [0x31] {
      KnownEntry(data[0], 0xCE, 0x83DC_EFB7);
      OneByteCrc(data, 0xCE, 0x83DC_EFB7);
    }
  }

  lemma OneByteCrc(data: seq<Byte>, index: bv8, crc: bv32)
    requires |data| == 1 && index as bv32 == (ONES ^ (data[0] as bv32)) & 0xFF
    requires crc == (Entry(index) ^ (ONES >> 8)) ^ ONES
    ensures Crc(data) == crc
  {
    OneByteSerial(ONES, data, index, Entry(index));
  }

  lemma OneByteSerial(c: bv32, data: seq<Byte>, index: bv8, e: bv32)
    requires |data| == 1 && index as bv32 == (c ^ (data[0] as bv32)) & 0xFF && e == Entry(index)
    ensures Serial(c, data) == e ^ (c >> 8)
  {
    EntryFeeds(index);
    TableStep(c, data[0], e);
    assert data[1..] == [];
  }

  lemma KnownEntry(b: Byte, index: bv8, crc: bv32)
    requires b == 0x31 && index == 0xCE && crc == 0x83DC_EFB7
    ensures index as bv32 == (ONES ^ (b as bv32)) & 0xFF && crc == (Entry(index) ^ (ONES >> 8)) ^ ONES
  {
  }

  method Crc32Core(ptr: array<Byte>, len: nat) returns (crc: bv32)
    requires len <= ptr.Length
    ensures crc == Crc(ptr[..len])
  {
    crc := 0xFFFF_FFFF;
    for i := 0 to len
      invariant Serial(crc, ptr[i..len]) == Serial(ONES, ptr[..len])
    {
      assert ptr[i..len][1..] == ptr[i + 1..len];
      crc := Update(crc, ptr[i]);
    }
    crc := crc ^ 0xFFFF_FFFF;
  }

  // ---------- error detection on bytes ----------

  lemma {:induction false} MessageConcat(a: seq<Byte>, b: seq<Byte>)
    ensures MessageBits(a + b) == MessageBits(a) + MessageBits(b)
    decreases |a|
  {
    if a == [] {
      assert a + b == b;
    } else {
      assert (a + b)[1..] == a[1..] + b;
      MessageConcat(a[1..], b);
    }
  }

  lemma ByteShifted(b: Byte)
    ensures (b as bv32) >> 8 == 0
  {
  }

  lemma BitsOfInjective(a: Byte, b: Byte)
    requires BitsOf(a) == BitsOf(b)
    ensures a == b
  {
    Shr8(a as bv32);
    Shr8(b as bv32);
    ByteShifted(a);
    ByteShifted(b);
    WordDetermined();
    SpellInjective(Odd, Half, a as bv32, b as bv32, 8);
    SameByte(a, b);
  }

  lemma {:induction false} MessageInjective(a: seq<Byte>, b: seq<Byte>)
    requires |a| == |b| && MessageBits(a) == MessageBits(b)
    ensures a == b
    decreases |a|
  {
    if a != [] {
      assert MessageBits(a)[..8] == BitsOf(a[0]) && MessageBits(b)[..8] == BitsOf(b[0]);
      assert MessageBits(a)[8..] == MessageBits(a[1..]) && MessageBits(b)[8..] == MessageBits(b[1..]);
      BitsOfInjective(a[0], b[0]);
      MessageInjective(a[1..], b[1..]);
    }
  }

  lemma ComplementInjective(a: bv32, b: bv32)
    requires a ^ ONES == b ^ ONES
    ensures a == b
  {
  }

  // Two different messages of one length that agree outside some 32 consecutive
  // bits, at any bit position, have different CRCs.
  lemma CrcDetectsBurst(a: seq<Byte>, b: seq<Byte>, at: nat)
    requires |a| == |b| && a != b && at + 32 <= 8 * |a|
    requires MessageBits(a)[..at] == MessageBits(b)[..at]
    requires MessageBits(a)[at + 32..] == MessageBits(b)[at + 32..]
    ensures Crc(a) != Crc(b)
  {
    if Crc(a) == Crc(b) {
      ComplementInjective(Serial(ONES, a), Serial(ONES, b));
      SerialIsFeed(ONES, a);
      SerialIsFeed(ONES, b);
      if MessageBits(a) == MessageBits(b) { MessageInjective(a, b); }
      BurstDetected(Coeffs(ONES), MessageBits(a), MessageBits(b), at);
      assert false;
    }
  }

  lemma {:induction false} MessageCut(a: seq<Byte>, k: nat)
    requires k <= |a|
    ensures MessageBits(a)[..8 * k] == MessageBits(a[..k])
    ensures MessageBits(a)[8 * k..] == MessageBits(a[k..])
  {
    assert a[..k] + a[k..] == a;
    MessageParts(a[..k], a[k..]);
  }

  lemma {:induction false} MessageParts(a: seq<Byte>, b: seq<Byte>)
    ensures MessageBits(a + b)[..8 * |a|] == MessageBits(a)
    ensures MessageBits(a + b)[8 * |a|..] == MessageBits(b)
  {
    MessageConcat(a, b);
    Memory.Halves(MessageBits(a), MessageBits(b));
  }

  // In particular when they differ only inside four adjacent bytes
  lemma CrcDetectsFourBytes(a: seq<Byte>, b: seq<Byte>, at: nat)
    requires |a| == |b| && a != b && at + 4 <= |a|
    requires a[..at] == b[..at] && a[at + 4..] == b[at + 4..]
    ensures Crc(a) != Crc(b)
  {
    MessageCut(a, at);
    MessageCut(b, at);
    MessageCut(a, at + 4);
    MessageCut(b, at + 4);
    CrcDetectsBurst(a, b, 8 * at);
  }
}
