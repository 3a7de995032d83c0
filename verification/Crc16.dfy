/**
 CRC-16/XMODEM twice: bit by bit over the message and two zero bytes, and byte by byte from a table.
 Registers are integers below 2^16, as in the source.
 */
module Crc16 {
  import opened Positional
  import opened BitXor
  import opened LinearRegister

  type Word = x: nat | x < 0x1_0000

  const POLY: Word := 0x1021

  function Add(a: Word, b: Word): Word {
    XorInWord(a, b);
    Xor(a, b)
  }

  lemma Powers()
    ensures Pow(2, 1) == 2 && Pow(2, 8) == 256 && Pow(2, 15) == 0x8000 && Pow(2, 16) == 0x1_0000
  {
    assert Pow(2, 4) == 16;
    PowAdd(2, 4, 4);
    PowAdd(2, 7, 8);
    PowAdd(2, 8, 8);
    assert Pow(2, 7) == 128;
  }

  lemma XorInWord(a: Word, b: Word)
    ensures Xor(a, b) < 0x1_0000
  {
    Powers();
    XorSplit(a, b, 0, 0, a, b, 16);
  }

  function Tap(reg: Word): Word {
    if reg >= 0x8000 then POLY else 0
  }

  function Rest(reg: Word): Word {
    (reg % 0x8000) * 2
  }

  function Advance(reg: Word): Word {
    Add(Rest(reg), Tap(reg))
  }

  /** The register that takes one bit at a time. */
  const BIT: Register<Word> := Register(Add, 0, Advance)

  lemma AddIsXor()
    ensures IsXor(Add, 0)
  {
    forall a: Word, b: Word, c: Word, d: Word | Use(a, b, c, d)
      ensures Add(Add(a, b), Add(c, d)) == Add(Add(a, c), Add(b, d))
    {
      XorInterchange(a, b, c, d);
    }
    forall a: Word ensures Add(a, 0) == a {
      XorCommutes(a, 0);
    }
    forall a: Word, b: Word ensures Add(a, b) == 0 <==> a == b {
      XorZeroIff(a, b);
    }
  }

  lemma RestLinear(a: Word, b: Word)
    ensures Rest(Add(a, b)) == Add(Rest(a), Rest(b))
  {
    Powers();
    XorDivMod(a, b, 15);
    var u, v := a % 0x8000, b % 0x8000;
    XorSplit(u * 2, v * 2, u, v, 0, 0, 1);
  }

  lemma TapLinear(a: Word, b: Word)
    ensures Tap(Add(a, b)) == Add(Tap(a), Tap(b))
  {
    Powers();
    BitOfXor(a, b, 15);
    TopBit(a, 15);
    TopBit(b, 15);
    TopBit(Add(a, b), 15);
    XorZeroIff(POLY, POLY);
    XorCommutes(POLY, 0);
  }

  lemma AdvanceLinear(a: Word, b: Word)
    ensures Advance(Add(a, b)) == Add(Advance(a), Advance(b))
  {
    RestLinear(a, b);
    TapLinear(a, b);
    XorInterchange(Rest(a), Rest(b), Tap(a), Tap(b));
  }

  lemma BitLinear()
    ensures IsLinear(BIT)
  {
    AddIsXor();
    forall a: Word, b: Word ensures Advance(Add(a, b)) == Add(Advance(a), Advance(b)) {
      AdvanceLinear(a, b);
    }
  }

  lemma BitInjective()
    ensures IsInjective(BIT)
  {
    forall a: Word | Advance(a) == 0 ensures a == 0 {
      XorZeroIff(Rest(a), Tap(a));
    }
  }

  // ----- the byte register -----

  /** Eight zero bits go by. */
  function Shift8(reg: Word): Word {
    Run(BIT, reg, Zeros<Word>(BIT, 8))
  }

  const BYTE: Register<Word> := Register(Add, 0, Shift8)

  lemma Shift8Linear(a: Word, b: Word)
    ensures Shift8(Add(a, b)) == Add(Shift8(a), Shift8(b))
  {
    BitLinear();
    ZeroRunLinear<Word>(BIT, a, b, 8);
  }

  lemma ByteLinear()
    ensures IsLinear(BYTE)
  {
    AddIsXor();
    forall a: Word, b: Word ensures Shift8(Add(a, b)) == Add(Shift8(a), Shift8(b)) {
      Shift8Linear(a, b);
    }
  }

  lemma ByteInjective()
    ensures IsInjective(BYTE)
  {
    BitLinear();
    BitInjective();
    forall a: Word | Shift8(a) == 0 ensures a == 0 {
      RunZeros<Word>(BIT, a, 8);
    }
  }

  lemma SmallAdvance(x: Word, bit: Word)
    requires x < 0x8000 && bit < 2
    ensures Advance(x) == 2 * x && Add(2 * x, bit) == 2 * x + bit
  {
    XorCommutes(2 * x, 0);
    Powers();
    XorDisjoint(x, bit, 1);
  }

  /** Up to sixteen bits are held side by side. */
  lemma {:induction false} RunBits(bits: seq<Word>)
    requires |bits| <= 16 && Below(bits, 2)
    ensures Run(BIT, 0, bits) == Value(bits, 2)
  {
    if bits == [] {
    } else {
      var n := |bits| - 1;
      var x := Value(bits[..n], 2);
      assert x < 0x8000 by {
        ValueBound(bits[..n], 2);
        PowMonotone(2, n, 15);
        Powers();
      }
      RunBits(bits[..n]);
      SmallAdvance(x, bits[n]);
    }
  }

  /** The bits of a group of `w` bits. */
  function Bits(d: nat, w: nat): (bits: seq<nat>)
    ensures |bits| == w && Below(bits, 2)
  {
    Digits(d, w, 2)
  }

  /** Eight bits fed in one by one are a byte fed in at once. */
  lemma ByteStep(reg: Word, b: Byte)
    ensures Run(BIT, reg, Bits(b, 8)) == Add(Shift8(reg), b)
  {
    var bits: seq<Word> := Bits(b, 8);
    assert Run(BIT, 0, bits) == b by {
      RunBits(bits);
      Powers();
      ValueOfDigits(b, 8, 2);
    }
    assert b == Add(Run(BIT, reg, bits), Shift8(reg)) by {
      BitLinear();
      ZeroComparison<Word>(BIT, reg, bits);
    }
    AddCancels(Run(BIT, reg, bits), Shift8(reg), b);
  }

  lemma AddCancels(x: Word, y: Word, z: Word)
    requires z == Add(x, y)
    ensures x == Add(y, z)
  {
    XorCommutes(x, y);
    XorAssociates(y, y, x);
    XorZeroIff(y, y);
  }

  // ----- the bitwise loop -----

  /** All bits of groups of `w` bits. */
  function Flatten(ds: seq<nat>, w: nat): (bits: seq<nat>)
    ensures |bits| == |ds| * w && Below(bits, 2)
  {
    if ds == [] then []
    else
      MulDistributes(|ds| - 1, 1, w);
      Flatten(ds[..|ds| - 1], w) + Bits(ds[|ds| - 1], w)
  }

  lemma {:induction false} FlattenRuns(reg: Word, bytes: seq<Byte>)
    ensures Run(BIT, reg, Flatten(bytes, 8)) == Run(BYTE, reg, bytes)
  {
    if bytes == [] {
    } else {
      var n := |bytes| - 1;
      FlattenRuns(reg, bytes[..n]);
      RunConcat<Word>(BIT, reg, Flatten(bytes[..n], 8), Bits(bytes[n], 8));
      ByteStep(Run(BYTE, reg, bytes[..n]), bytes[n]);
    }
  }

  /** One round of the bit loop. */
  function BitRound(reg: Word, bit: nat): (r: Word)
    requires bit < 2
  {
    var x := 2 * reg + bit;
    if x > 0xffff then Add(x % 0x1_0000, POLY) else x
  }

  lemma BitRoundAdvances(reg: Word, bit: Word)
    requires bit < 2
    ensures BitRound(reg, bit) == Add(Advance(reg), bit)
  {
    var rest := Rest(reg);
    assert rest == 2 * (reg % 0x8000);
    assert Add(rest, bit) == rest + bit by {
      SmallAdvance(reg % 0x8000, bit);
    }
    if reg >= 0x8000 {
      assert (2 * reg + bit) % 0x1_0000 == rest + bit;
      AddSwaps(rest, bit, POLY);
    } else {
      XorCommutes(rest, 0);
    }
  }

  lemma AddSwaps(a: Word, b: Word, c: Word)
    ensures Add(Add(a, b), c) == Add(Add(a, c), b)
  {
    XorAssociates(a, b, c);
    XorCommutes(b, c);
    XorAssociates(a, c, b);
  }

  /** The inner loop: the bits of a byte from the highest to the lowest. */
  method FeedByte(entry: Word, byte: Byte) returns (reg: Word)
    ensures reg == Add(Shift8(entry), byte)
  {
    reg := entry;
    var mask: nat := 128;
    SevenBits();
    ghost var n := 0;
    ghost var bits: seq<Word> := Bits(byte, 8);
    while mask > 0
      invariant n <= 8 && mask == Mask(n)
      invariant reg == Run(BIT, entry, bits[..n])
    {
      MaskedBit(byte, n, mask);
      var bit := (byte / mask) % 2;
      RoundRuns(entry, bits, n, reg, bit);
      reg := BitRound(reg, bit);
      mask := mask / 2;
      n := n + 1;
    }
    LastMask(n);
    assert bits[..8] == bits;
    ByteStep(entry, byte);
  }

  lemma RoundRuns(entry: Word, bits: seq<Word>, n: nat, reg: Word, bit: Word)
    requires n < |bits| && bit < 2 && bits[n] == bit && reg == Run(BIT, entry, bits[..n])
    ensures BitRound(reg, bit) == Run(BIT, entry, bits[..n + 1])
  {
    assert bits[..n + 1][..n] == bits[..n];
    BitRoundAdvances(reg, bit);
  }

  /** The mask after `n` rounds. */
  ghost function Mask(n: nat): nat
    requires n <= 8
  {
    if n == 8 then 0 else Pow(2, 7 - n)
  }

  lemma LastMask(n: nat)
    requires n <= 8 && Mask(n) == 0
    ensures n == 8
  {
    if n < 8 {
      PowPositive(2, 7 - n);
    }
  }

  /** The bitwise CRC: over the message and two zero bytes. */
  method CalcCrcTon(message: seq<Byte>) returns (crc: seq<Byte>)
    ensures crc == BigEndian(Run(BYTE, 0, message + [0, 0]))
  {
    var reg: Word := 0;
    var padded := message + [0, 0];
    for k := 0 to |padded|
      invariant reg == Run(BYTE, 0, padded[..k])
    {
      RunByte(padded, k);
      reg := FeedByte(reg, padded[k]);
    }
    assert padded[..|padded|] == padded;
    crc := BigEndian(reg);
  }

  lemma RunByte(bytes: seq<Byte>, k: nat)
    requires k < |bytes|
    ensures Run(BYTE, 0, bytes[..k + 1]) == Add(Shift8(Run(BYTE, 0, bytes[..k])), bytes[k])
  {
    assert bytes[..k + 1][..k] == bytes[..k];
  }

  lemma SevenBits()
    ensures Pow(2, 7) == 128
  {
  }

  lemma MaskedBit(b: Byte, n: nat, mask: nat)
    requires n < 8 && mask == Mask(n)
    ensures mask > 0 && Bits(b, 8)[n] == (b / mask) % 2
    ensures mask / 2 == Mask(n + 1)
  {
    DigitAt(b, 8, 2, n);
  }

  function BigEndian(reg: Word): seq<Byte> {
    [reg / 256, reg % 256]
  }

  // ----- the table -----

  const ROW0: seq<Word> := [0x0000, 0x1021, 0x2042, 0x3063, 0x4084, 0x50a5, 0x60c6, 0x70e7]
  const ROW1: seq<Word> := [0x8108, 0x9129, 0xa14a, 0xb16b, 0xc18c, 0xd1ad, 0xe1ce, 0xf1ef]
  const ROW2: seq<Word> := [0x1231, 0x0210, 0x3273, 0x2252, 0x52b5, 0x4294, 0x72f7, 0x62d6]
  const ROW3: seq<Word> := [0x9339, 0x8318, 0xb37b, 0xa35a, 0xd3bd, 0xc39c, 0xf3ff, 0xe3de]
  const ROW4: seq<Word> := [0x2462, 0x3443, 0x0420, 0x1401, 0x64e6, 0x74c7, 0x44a4, 0x5485]
  const ROW5: seq<Word> := [0xa56a, 0xb54b, 0x8528, 0x9509, 0xe5ee, 0xf5cf, 0xc5ac, 0xd58d]
  const ROW6: seq<Word> := [0x3653, 0x2672, 0x1611, 0x0630, 0x76d7, 0x66f6, 0x5695, 0x46b4]
  const ROW7: seq<Word> := [0xb75b, 0xa77a, 0x9719, 0x8738, 0xf7df, 0xe7fe, 0xd79d, 0xc7bc]
  const ROW8: seq<Word> := [0x48c4, 0x58e5, 0x6886, 0x78a7, 0x0840, 0x1861, 0x2802, 0x3823]
  const ROW9: seq<Word> := [0xc9cc, 0xd9ed, 0xe98e, 0xf9af, 0x8948, 0x9969, 0xa90a, 0xb92b]
  const ROW10: seq<Word> := [0x5af5, 0x4ad4, 0x7ab7, 0x6a96, 0x1a71, 0x0a50, 0x3a33, 0x2a12]
  const ROW11: seq<Word> := [0xdbfd, 0xcbdc, 0xfbbf, 0xeb9e, 0x9b79, 0x8b58, 0xbb3b, 0xab1a]
  const ROW12: seq<Word> := [0x6ca6, 0x7c87, 0x4ce4, 0x5cc5, 0x2c22, 0x3c03, 0x0c60, 0x1c41]
  const ROW13: seq<Word> := [0xedae, 0xfd8f, 0xcdec, 0xddcd, 0xad2a, 0xbd0b, 0x8d68, 0x9d49]
  const ROW14: seq<Word> := [0x7e97, 0x6eb6, 0x5ed5, 0x4ef4, 0x3e13, 0x2e32, 0x1e51, 0x0e70]
  const ROW15: seq<Word> := [0xff9f, 0xefbe, 0xdfdd, 0xcffc, 0xbf1b, 0xaf3a, 0x9f59, 0x8f78]
  const ROW16: seq<Word> := [0x9188, 0x81a9, 0xb1ca, 0xa1eb, 0xd10c, 0xc12d, 0xf14e, 0xe16f]
  const ROW17: seq<Word> := [0x1080, 0x00a1, 0x30c2, 0x20e3, 0x5004, 0x4025, 0x7046, 0x6067]
  const ROW18: seq<Word> := [0x83b9, 0x9398, 0xa3fb, 0xb3da, 0xc33d, 0xd31c, 0xe37f, 0xf35e]
  const ROW19: seq<Word> := [0x02b1, 0x1290, 0x22f3, 0x32d2, 0x4235, 0x5214, 0x6277, 0x7256]
  const ROW20: seq<Word> := [0xb5ea, 0xa5cb, 0x95a8, 0x8589, 0xf56e, 0xe54f, 0xd52c, 0xc50d]
  const ROW21: seq<Word> := [0x34e2, 0x24c3, 0x14a0, 0x0481, 0x7466, 0x6447, 0x5424, 0x4405]
  const ROW22: seq<Word> := [0xa7db, 0xb7fa, 0x8799, 0x97b8, 0xe75f, 0xf77e, 0xc71d, 0xd73c]
  const ROW23: seq<Word> := [0x26d3, 0x36f2, 0x0691, 0x16b0, 0x6657, 0x7676, 0x4615, 0x5634]
  const ROW24: seq<Word> := [0xd94c, 0xc96d, 0xf90e, 0xe92f, 0x99c8, 0x89e9, 0xb98a, 0xa9ab]
  const ROW25: seq<Word> := [0x5844, 0x4865, 0x7806, 0x6827, 0x18c0, 0x08e1, 0x3882, 0x28a3]
  const ROW26: seq<Word> := [0xcb7d, 0xdb5c, 0xeb3f, 0xfb1e, 0x8bf9, 0x9bd8, 0xabbb, 0xbb9a]
  const ROW27: seq<Word> := [0x4a75, 0x5a54, 0x6a37, 0x7a16, 0x0af1, 0x1ad0, 0x2ab3, 0x3a92]
  const ROW28: seq<Word> := [0xfd2e, 0xed0f, 0xdd6c, 0xcd4d, 0xbdaa, 0xad8b, 0x9de8, 0x8dc9]
  const ROW29: seq<Word> := [0x7c26, 0x6c07, 0x5c64, 0x4c45, 0x3ca2, 0x2c83, 0x1ce0, 0x0cc1]
  const ROW30: seq<Word> := [0xef1f, 0xff3e, 0xcf5d, 0xdf7c, 0xaf9b, 0xbfba, 0x8fd9, 0x9ff8]
  const ROW31: seq<Word> := [0x6e17, 0x7e36, 0x4e55, 0x5e74, 0x2e93, 0x3eb2, 0x0ed1, 0x1ef0]

  /** The table, in the rows of eight of the source. */
  const TABLE: seq<seq<Word>> := [
    ROW0, ROW1, ROW2, ROW3, ROW4, ROW5, ROW6, ROW7,
    ROW8, ROW9, ROW10, ROW11, ROW12, ROW13, ROW14, ROW15,
    ROW16, ROW17, ROW18, ROW19, ROW20, ROW21, ROW22, ROW23,
    ROW24, ROW25, ROW26, ROW27, ROW28, ROW29, ROW30, ROW31
  ]

  /** Exclusive or with the polynomial changes bits 0, 5 and 12. */
  function Flip(x: Word): int {
    x + (if x % 2 < 1 then 1 else -1) + (if x % 64 < 32 then 32 else -32) + (if x % 8192 < 4096 then 4096 else -4096)
  }

  /** `even` and `odd` are the two entries that follow from entry `x`, in plain arithmetic:
      `even` is `x` advanced, and `odd` is `even` with the polynomial added. */
  ghost predicate Pair(x: Word, even: Word, odd: Word) {
    && odd == Flip(even)
    && (if x < 0x8000 then even == 2 * x else odd == 2 * (x - 0x8000))
  }

  /** A row follows from half of an earlier row. */
  ghost predicate Follows(row: seq<Word>, half: seq<Word>, at: nat) {
    && |row| == 8 && |half| == 8 && at <= 4
    && Pair(half[at], row[0], row[1]) && Pair(half[at + 1], row[2], row[3])
    && Pair(half[at + 2], row[4], row[5]) && Pair(half[at + 3], row[6], row[7])
  }

  ghost predicate RowFollows(rows: seq<seq<Word>>, k: nat)
    requires k < |rows|
  {
    Follows(rows[k], rows[k / 2], 4 * (k % 2))
  }

  lemma Row0() ensures RowFollows(TABLE, 0) {}
  lemma Row1() ensures RowFollows(TABLE, 1) {}
  lemma Row2() ensures RowFollows(TABLE, 2) {}
  lemma Row3() ensures RowFollows(TABLE, 3) {}
  lemma Row4() ensures RowFollows(TABLE, 4) {}
  lemma Row5() ensures RowFollows(TABLE, 5) {}
  lemma Row6() ensures RowFollows(TABLE, 6) {}
  lemma Row7() ensures RowFollows(TABLE, 7) {}
  lemma Row8() ensures RowFollows(TABLE, 8) {}
  lemma Row9() ensures RowFollows(TABLE, 9) {}
  lemma Row10() ensures RowFollows(TABLE, 10) {}
  lemma Row11() ensures RowFollows(TABLE, 11) {}
  lemma Row12() ensures RowFollows(TABLE, 12) {}
  lemma Row13() ensures RowFollows(TABLE, 13) {}
  lemma Row14() ensures RowFollows(TABLE, 14) {}
  lemma Row15() ensures RowFollows(TABLE, 15) {}
  lemma Row16() ensures RowFollows(TABLE, 16) {}
  lemma Row17() ensures RowFollows(TABLE, 17) {}
  lemma Row18() ensures RowFollows(TABLE, 18) {}
  lemma Row19() ensures RowFollows(TABLE, 19) {}
  lemma Row20() ensures RowFollows(TABLE, 20) {}
  lemma Row21() ensures RowFollows(TABLE, 21) {}
  lemma Row22() ensures RowFollows(TABLE, 22) {}
  lemma Row23() ensures RowFollows(TABLE, 23) {}
  lemma Row24() ensures RowFollows(TABLE, 24) {}
  lemma Row25() ensures RowFollows(TABLE, 25) {}
  lemma Row26() ensures RowFollows(TABLE, 26) {}
  lemma Row27() ensures RowFollows(TABLE, 27) {}
  lemma Row28() ensures RowFollows(TABLE, 28) {}
  lemma Row29() ensures RowFollows(TABLE, 29) {}
  lemma Row30() ensures RowFollows(TABLE, 30) {}
  lemma Row31() ensures RowFollows(TABLE, 31) {}

  // ----- the table is right -----

  lemma PolyParts()
    ensures Xor(Xor(1, 32), 4096) == POLY
    ensures Pow(2, 0) == 1 && Pow(2, 5) == 32 && Pow(2, 12) == 4096
  {
    assert Pow(2, 5) == 32;
    assert Pow(2, 7) == 128;
    PowAdd(2, 5, 7);
    Toggle(1, 5);
    Toggle(33, 12);
  }

  lemma ToggleOne(x: nat, y: int)
    requires y == x + (if x % 2 < 1 then 1 else -1)
    ensures y % 64 < 32 <==> x % 64 < 32
    ensures y / 64 == x / 64
  {
    DivModUnique(y, 64, x / 64, x % 64 + (if x % 2 < 1 then 1 else -1));
  }

  lemma ToggleFive(x: nat, y: nat, z: int)
    requires y / 64 == x / 64 && z == y + (if y % 64 < 32 then 32 else -32)
    ensures z % 8192 < 4096 <==> x % 8192 < 4096
  {
    DivModUnique(z, 64, y / 64, y % 64 + (if y % 64 < 32 then 32 else -32));
    assert z / 64 == x / 64;
    InUpperHalf(x);
    InUpperHalf(z);
  }

  lemma InUpperHalf(x: nat)
    ensures x % 8192 < 4096 <==> (x / 64) % 128 < 64
  {
    DivOfMod(x, 64, 128);
  }

  lemma FlipInSteps(x: Word, y: nat, z: int)
    requires y == x + (if x % 2 < 1 then 1 else -1)
    requires z == y + (if y % 64 < 32 then 32 else -32)
    ensures Flip(x) == z + (if z % 8192 < 4096 then 4096 else -4096)
  {
    ToggleOne(x, y);
    ToggleFive(x, y, z);
  }

  lemma FlipIsXor(x: Word)
    ensures Flip(x) == Xor(x, POLY)
  {
    PolyParts();
    var y := Xor(x, 1);
    var z := Xor(y, 32);
    assert Xor(x, POLY) == Xor(z, 4096) by {
      XorAssociates(x, 1, 32);
      XorAssociates(x, Xor(1, 32), 4096);
    }
    assert y == x + (if x % 2 < 1 then 1 else -1) by {
      Toggle(x, 0);
    }
    assert z == y + (if y % 64 < 32 then 32 else -32) by {
      Toggle(y, 5);
    }
    FlipInSteps(x, y, z);
    Toggle(z, 12);
  }

  lemma PairAdvances(x: Word, even: Word, odd: Word)
    requires Pair(x, even, odd)
    ensures even == Advance(x) && odd == Add(even, POLY)
  {
    FlipIsXor(even);
    if x < 0x8000 {
      SmallAdvance(x, 0);
    } else {
      UpperAdvance(x, even, odd);
    }
  }

  lemma UpperAdvance(x: Word, even: Word, odd: Word)
    requires x >= 0x8000 && odd == 2 * (x - 0x8000) && odd == Add(even, POLY)
    ensures even == Advance(x)
  {
    UpperParts(x);
    AddCancels(even, POLY, odd);
    AddCommutes(POLY, odd);
  }

  lemma UpperParts(x: Word)
    requires x >= 0x8000
    ensures Rest(x) == 2 * (x - 0x8000) && Tap(x) == POLY
  {
  }

  lemma AddCommutes(x: Word, y: Word)
    ensures Add(x, y) == Add(y, x)
  {
    XorCommutes(x, y);
  }

  /** A shift by a byte and a shift by a bit commute. */
  lemma ShiftsCommute(x: Word)
    ensures Shift8(Advance(x)) == Advance(Shift8(x))
  {
    var z := Zeros<Word>(BIT, 8);
    var one: seq<Word> := [0];
    OneBit(x);
    OneBit(Shift8(x));
    RunConcat<Word>(BIT, x, one, z);
    RunConcat<Word>(BIT, x, z, one);
    assert one + z == z + one;
  }

  lemma OneBit(x: Word)
    ensures Run(BIT, x, [0]) == Advance(x)
  {
    var one: seq<Word> := [0];
    assert one[..0] == [];
    assert Run(BIT, x, one[..0]) == x;
    XorCommutes(Advance(x), 0);
  }

  lemma Shift8Small(l: Word)
    requires l < 256
    ensures Shift8(l) == l * 256
  {
    var bits: seq<Word> := Bits(l, 8);
    var z := Zeros<Word>(BIT, 8);
    Powers();
    ValueOfDigits(l, 8, 2);
    RunBits(bits);
    RunConcat<Word>(BIT, 0, bits, z);
    RunBits(bits + z);
    ValueConcat(bits, z, 2);
    ZerosValue(8);
  }

  lemma {:induction false} ZerosValue(n: nat)
    ensures Value(Zeros<Word>(BIT, n), 2) == 0
  {
    if n == 0 {
    } else {
      assert Zeros<Word>(BIT, n)[..n - 1] == Zeros<Word>(BIT, n - 1);
      ZerosValue(n - 1);
    }
  }

  lemma Shift8Of256()
    ensures Shift8(256) == POLY
  {
    ShiftsCommute(128);
    SmallAdvance(128, 0);
    Shift8Small(128);
    TopAdvances();
  }

  lemma TopAdvances()
    ensures Advance(0x8000) == POLY
  {
    XorCommutes(0, POLY);
  }

  ghost predicate GoodTable(rows: seq<seq<Word>>) {
    && |rows| == 32 && |rows[0]| == 8
    && (forall k :: 0 <= k < 32 ==> RowFollows(rows, k))
    && rows[0][0] == 0 && rows[0][1] == POLY
  }

  /** A table whose rows follow from one another holds, for each byte, that byte shifted out of the register. */
  lemma {:induction false} TableEntry(rows: seq<seq<Word>>, i: Byte)
    requires GoodTable(rows)
    ensures |rows[i / 8]| == 8 && rows[i / 8][i % 8] == Shift8(i * 256)
  {
    RowSize(rows, i / 8);
    if i == 0 {
      Shift8Small(0);
    } else if i == 1 {
      Shift8Of256();
    } else {
      TableEntry(rows, i / 2);
      EntryPair(rows, i / 2);
      EntryIndex(i);
      var k, j := i / 8, 2 * (i / 2 % 4);
      NextEntries(i / 2, rows[k][j], rows[k][j + 1]);
    }
  }

  lemma RowSize(rows: seq<seq<Word>>, k: nat)
    requires GoodTable(rows) && k < 32
    ensures |rows[k]| == 8
  {
    assert RowFollows(rows, k);
  }

  lemma EntryIndex(i: nat)
    ensures i / 8 == i / 2 / 4
    ensures i % 8 == 2 * (i / 2 % 4) + i % 2
    ensures i == 2 * (i / 2) + i % 2
  {
  }

  lemma EntryPair(rows: seq<seq<Word>>, h: nat)
    requires GoodTable(rows) && h < 128
    ensures |rows[h / 8]| == 8 && |rows[h / 4]| == 8
    ensures Pair(rows[h / 8][h % 8], rows[h / 4][2 * (h % 4)], rows[h / 4][2 * (h % 4) + 1])
  {
    var k := h / 4;
    assert RowFollows(rows, k);
    assert k / 2 == h / 8 && h % 8 == 4 * (k % 2) + h % 4;
  }

  lemma NextEntries(h: nat, even: Word, odd: Word)
    requires h < 128 && Pair(Shift8(h * 256), even, odd)
    ensures even == Shift8(2 * h * 256) && odd == Shift8((2 * h + 1) * 256)
  {
    var x := h * 256;
    PairAdvances(Shift8(x), even, odd);
    ShiftsCommute(x);
    SmallAdvance(x, 0);
    Shift8Linear(2 * x, 256);
    Shift8Of256();
    assert Pow(2, 9) == 512;
    XorDisjoint(h, 256, 9);
  }

  // ----- both loops compute the same -----

  lemma TableGood()
    ensures GoodTable(TABLE)
  {
    forall k | 0 <= k < 32 ensures RowFollows(TABLE, k) {
      TableRow(k);
    }
  }

  lemma TableRow(k: nat)
    requires k < 32
    ensures RowFollows(TABLE, k)
  {
    match k
    case 0 => Row0();
    case 1 => Row1();
    case 2 => Row2();
    case 3 => Row3();
    case 4 => Row4();
    case 5 => Row5();
    case 6 => Row6();
    case 7 => Row7();
    case 8 => Row8();
    case 9 => Row9();
    case 10 => Row10();
    case 11 => Row11();
    case 12 => Row12();
    case 13 => Row13();
    case 14 => Row14();
    case 15 => Row15();
    case 16 => Row16();
    case 17 => Row17();
    case 18 => Row18();
    case 19 => Row19();
    case 20 => Row20();
    case 21 => Row21();
    case 22 => Row22();
    case 23 => Row23();
    case 24 => Row24();
    case 25 => Row25();
    case 26 => Row26();
    case 27 => Row27();
    case 28 => Row28();
    case 29 => Row29();
    case 30 => Row30();
    case _ => Row31();
  }

  function TableStep(crc: Word, byte: Byte): (r: Word) {
    TableIndex(crc, byte);
    var i := Xor(crc / 256, byte);
    Add((crc * 256) % 0x1_0000, TABLE[i / 8][i % 8])
  }

  lemma TableIndex(crc: Word, byte: Byte)
    ensures Xor(crc / 256, byte) < 256
    ensures |TABLE[Xor(crc / 256, byte) / 8]| == 8
  {
    Powers();
    XorSplit(crc / 256, byte, 0, 0, crc / 256, byte, 8);
    TableGood();
    RowSize(TABLE, Xor(crc / 256, byte) / 8);
  }

  /** A byte added at the top is shifted out together with the high byte; the low byte moves up. */
  lemma ShiftSplit(crc: Word, byte: Byte, i: nat)
    requires i == Xor(crc / 256, byte) < 256
    ensures Shift8(Add(crc, byte * 256)) == Add((crc % 256) * 256, Shift8(i * 256))
  {
    var h, l := crc / 256, crc % 256;
    assert Add(crc, byte * 256) == Add(i * 256, l) by {
      Powers();
      XorSplit(crc, byte * 256, h, byte, l, 0, 8);
      XorCommutes(l, 0);
      XorDisjoint(i, l, 8);
    }
    Shift8Linear(i * 256, l);
    Shift8Small(l);
    XorCommutes(Shift8(i * 256), l * 256);
  }

  lemma TableStepShifts(crc: Word, byte: Byte)
    ensures TableStep(crc, byte) == Shift8(Add(crc, byte * 256))
  {
    TableIndex(crc, byte);
    var i := Xor(crc / 256, byte);
    ShiftSplit(crc, byte, i);
    TableHolds(i);
    LowByteUp(crc);
  }

  lemma TableHolds(i: Byte)
    ensures |TABLE[i / 8]| == 8 && TABLE[i / 8][i % 8] == Shift8(i * 256)
  {
    TableGood();
    TableEntry(TABLE, i);
  }

  lemma LowByteUp(crc: nat)
    ensures (crc * 256) % 0x1_0000 == (crc % 256) * 256
  {
    MulScale(crc, 256, 256);
  }

  /** The table-driven CRC. */
  function TableCrc(data: seq<Byte>): Word {
    if data == [] then 0 else TableStep(TableCrc(data[..|data| - 1]), data[|data| - 1])
  }

  method Crc16XModem(data: seq<Byte>) returns (crc: Word)
    ensures crc == TableCrc(data)
  {
    crc := 0;
    for k := 0 to |data|
      invariant crc == TableCrc(data[..k])
    {
      assert data[..k + 1][..k] == data[..k];
      crc := TableStep(crc, data[k]);
    }
    assert data[..|data|] == data;
  }

  lemma RunTwoZeros(reg: Word, data: seq<Byte>)
    ensures Run(BYTE, reg, data + [0, 0]) == Shift8(Shift8(Run(BYTE, reg, data)))
  {
    var one: seq<Word> := data + [0];
    var two: seq<Word> := data + [0, 0];
    assert two[..|two| - 1] == one && one[..|one| - 1] == data;
    XorCommutes(Shift8(Run(BYTE, reg, data)), 0);
    XorCommutes(Shift8(Run(BYTE, reg, one)), 0);
  }

  /** For every message, the table-driven CRC is the bitwise CRC of the message and two zero bytes. */
  lemma {:induction false} TableIsBitwise(data: seq<Byte>)
    ensures TableCrc(data) == Run(BYTE, 0, data + [0, 0])
  {
    RunTwoZeros(0, data);
    if data == [] {
      Shift8Small(0);
    } else {
      var pre, b := data[..|data| - 1], data[|data| - 1];
      TableIsBitwise(pre);
      RunTwoZeros(0, pre);
      StepsAgree(Run(BYTE, 0, pre), b);
    }
  }

  lemma StepsAgree(reg: Word, b: Byte)
    ensures TableStep(Shift8(Shift8(reg)), b) == Shift8(Shift8(Add(Shift8(reg), b)))
  {
    TableStepShifts(Shift8(Shift8(reg)), b);
    Shift8Linear(Shift8(reg), b);
    Shift8Small(b);
  }
}
