/**
 The 16-bit words of the table CRC (tools/tblCRCTool/cfe_ts_crc.c): the shift register with
 the reflected polynomial 0xA001, the lookup table, and one step of the code's loop on its
 signed 16-bit state. Each operation has a name here, so that the proofs about whole
 messages can work with the laws of these operations instead of with single bits.
 */
module CrcWords {

  // ---- Words under exclusive or ----

  function Xor(x: bv16, y: bv16): bv16 {
    x ^ y
  }

  lemma XorAssoc(x: bv16, y: bv16, z: bv16)
    ensures Xor(Xor(x, y), z) == Xor(x, Xor(y, z))
  {
  }

  lemma XorComm(x: bv16, y: bv16)
    ensures Xor(x, y) == Xor(y, x)
  {
  }

  lemma XorZero(x: bv16)
    ensures Xor(x, 0) == x
  {
  }

  lemma XorSelf(x: bv16)
    ensures Xor(x, x) == 0
  {
  }

  lemma XorCancel(x: bv16, y: bv16)
    ensures Xor(x, Xor(x, y)) == y
  {
  }

  lemma XorSame(x: bv16, y: bv16)
    ensures Xor(x, y) == 0 <==> x == y
  {
    hide Xor;
    if x == y {
      XorSelf(x);
    }
    if Xor(x, y) == 0 {
      XorCancel(x, y);
      XorZero(x);
    }
  }

  lemma XorSwap(c: bv16, d: bv16, u: bv16, v: bv16)
    ensures Xor(Xor(c, u), Xor(d, v)) == Xor(Xor(c, d), Xor(u, v))
  {
    hide Xor;
    XorAssoc(c, u, Xor(d, v));
    XorAssoc(u, d, v);
    XorComm(u, d);
    XorAssoc(d, u, v);
    XorAssoc(c, d, Xor(u, v));
  }

  // ---- The shift register ----

  /** One shift of the reflected CRC register. */
  function Shift(x: bv16): bv16 {
    if x & 1 == 1 then (x >> 1) ^ 0xA001 else x >> 1
  }

  lemma OddOddBits(x: bv16, y: bv16)
    requires x & 1 == 1 && y & 1 == 1
    ensures (x ^ y) & 1 == 0 && ((x >> 1) ^ 0xA001) ^ ((y >> 1) ^ 0xA001) == (x ^ y) >> 1
  {
  }

  lemma OddEvenBits(x: bv16, y: bv16)
    requires x & 1 == 1 && y & 1 == 0
    ensures (x ^ y) & 1 == 1 && ((x >> 1) ^ 0xA001) ^ (y >> 1) == ((x ^ y) >> 1) ^ 0xA001
  {
  }

  lemma EvenEvenBits(x: bv16, y: bv16)
    requires x & 1 == 0 && y & 1 == 0
    ensures (x ^ y) & 1 == 0 && (x >> 1) ^ (y >> 1) == (x ^ y) >> 1
  {
  }

  lemma OddOdd(x: bv16, y: bv16)
    requires x & 1 == 1 && y & 1 == 1
    ensures Shift(x) ^ Shift(y) == Shift(x ^ y)
  {
    OddOddBits(x, y);
  }

  lemma OddEven(x: bv16, y: bv16)
    requires x & 1 == 1 && y & 1 == 0
    ensures Shift(x) ^ Shift(y) == Shift(x ^ y)
  {
    OddEvenBits(x, y);
  }

  lemma EvenEven(x: bv16, y: bv16)
    requires x & 1 == 0 && y & 1 == 0
    ensures Shift(x) ^ Shift(y) == Shift(x ^ y)
  {
    EvenEvenBits(x, y);
  }

  lemma Parity(x: bv16)
    ensures x & 1 == 0 || x & 1 == 1
  {
  }

  lemma Commute(x: bv16, y: bv16)
    ensures x ^ y == y ^ x
  {
  }

  lemma ShiftXorBits(x: bv16, y: bv16)
    ensures Shift(x) ^ Shift(y) == Shift(x ^ y)
  {
    hide Shift;
    Parity(x);
    Parity(y);
    if x & 1 == 1 && y & 1 == 1 {
      OddOdd(x, y);
    } else if x & 1 == 1 {
      OddEven(x, y);
    } else if y & 1 == 1 {
      OddEven(y, x);
      Commute(x, y);
      Commute(Shift(x), Shift(y));
    } else {
      EvenEven(x, y);
    }
  }

  /** Shifting is linear. */
  lemma ShiftXor(x: bv16, y: bv16)
    ensures Xor(Shift(x), Shift(y)) == Shift(Xor(x, y))
  {
    hide Shift;
    ShiftXorBits(x, y);
  }

  lemma ShiftZero(x: bv16)
    ensures Shift(x) == 0 <==> x == 0
  {
  }

  // ---- Absorbing single bits ----

  function BitValue(bit: bool): bv16 {
    if bit then 1 else 0
  }

  predicate IsOdd(x: bv16) {
    x & 1 == 1
  }

  function Half(x: bv16): bv16 {
    x >> 1
  }

  lemma BitXor(a: bool, b: bool)
    ensures Xor(BitValue(a), BitValue(b)) == BitValue(a != b)
  {
  }

  lemma WithoutLowBit(y: bv16)
    ensures Shift(Xor(y, BitValue(IsOdd(y)))) == Half(y)
  {
    if IsOdd(y) {
      ClearedOdd(y);
    } else {
      XorZero(y);
    }
  }

  lemma ClearedOdd(y: bv16)
    requires y & 1 == 1
    ensures (y ^ 1) & 1 == 0 && (y ^ 1) >> 1 == y >> 1
  {
  }

  /** Absorbing a word and shifting is absorbing its lowest bit, shifting, and absorbing the rest. */
  lemma PushBit(c: bv16, y: bv16)
    ensures Shift(Xor(c, y)) == Xor(Shift(Xor(c, BitValue(IsOdd(y)))), Half(y))
  {
    hide Xor, Shift, BitValue, IsOdd, Half;
    var b := BitValue(IsOdd(y));
    WithoutLowBit(y);
    ShiftXor(Xor(c, b), Xor(y, b));
    XorSwap(c, y, b, b);
    XorSame(b, b);
    XorZero(Xor(c, y));
  }

  lemma FirstErrorBit()
    ensures Shift(Xor(0, BitValue(true))) == 0xA001
  {
  }

  lemma StaysLargeBits(x: bv16, m: bv16)
    requires x >= m
    ensures x & 1 == 0 ==> x >> 1 >= m >> 1
    ensures x & 1 == 1 ==> (x >> 1) ^ 0xA001 >= m >> 1
  {
  }

  lemma FlippedStaysLargeBits(x: bv16, m: bv16)
    requires x >= m
    ensures (x ^ 1) & 1 == 0 ==> (x ^ 1) >> 1 >= m >> 1
    ensures (x ^ 1) & 1 == 1 ==> ((x ^ 1) >> 1) ^ 0xA001 >= m >> 1
  {
  }

  lemma ShiftStaysLarge(x: bv16, m: bv16)
    requires x >= m
    ensures Shift(x) >= Half(m)
  {
    StaysLargeBits(x, m);
  }

  lemma FlippedStaysLarge(x: bv16, m: bv16)
    requires x >= m
    ensures Shift(Xor(x, BitValue(true))) >= Half(m)
  {
    FlippedStaysLargeBits(x, m);
  }

  predicate AtLeast(x: bv16, m: bv16) {
    x >= m
  }

  /** A register value of at least `m` becomes at least half of `m`, whatever bit is absorbed. */
  lemma StaysLarge(x: bv16, m: bv16, bit: bool)
    requires AtLeast(x, m)
    ensures AtLeast(Shift(Xor(x, BitValue(bit))), Half(m))
  {
    hide Shift, Xor, Half;
    if bit {
      FlippedStaysLarge(x, m);
    } else {
      XorZero(x);
      ShiftStaysLarge(x, m);
    }
  }

  // ---- Parity ----

  /** Whether an odd number of the lowest `k` bits is set. */
  predicate OddLow(x: bv16, k: nat)
    decreases k
  {
    k > 0 && IsOdd(x) != OddLow(Half(x), k - 1)
  }

  predicate OddBits(x: bv16) {
    OddLow(x, 16)
  }

  lemma OddXor(x: bv16, y: bv16)
    ensures IsOdd(Xor(x, y)) == (IsOdd(x) != IsOdd(y))
  {
  }

  lemma HalfXor(x: bv16, y: bv16)
    ensures Half(Xor(x, y)) == Xor(Half(x), Half(y))
  {
  }

  /** Parity is linear. */
  lemma {:induction false} ParityXor(x: bv16, y: bv16, k: nat)
    ensures OddLow(Xor(x, y), k) == (OddLow(x, k) != OddLow(y, k))
    decreases k
  {
    hide IsOdd, Half, Xor;
    if k > 0 {
      OddXor(x, y);
      HalfXor(x, y);
      ParityXor(Half(x), Half(y), k - 1);
    }
  }

  /** A word halved `k` times. */
  function Halved(x: bv16, k: nat): bv16
    decreases k
  {
    if k == 0 then x else Halved(Half(x), k - 1)
  }

  lemma {:induction false} HighBitsClear(x: bv16, k: nat)
    requires Halved(x, k) == 0
    ensures OddLow(x, k + 1) == OddLow(x, k)
    decreases k
  {
    hide Half;
    if k == 0 {
      assert !IsOdd(0);
    } else {
      HighBitsClear(Half(x), k - 1);
    }
  }

  lemma SixteenHalvings(x: bv16)
    ensures Half(Half(Half(Half(Half(Half(Half(Half(Half(Half(Half(Half(Half(Half(Half(Half(x)))))))))))))))) == 0
  {
  }

  lemma HalfHasFifteenBits(x: bv16)
    ensures OddLow(Half(x), 16) == OddLow(Half(x), 15)
  {
    hide Half, OddLow;
    SixteenHalvings(x);
    var y := Half(Half(Half(Half(x))));
    assert Halved(Half(x), 15) == Halved(y, 12);
    var z := Half(Half(Half(Half(y))));
    assert Halved(y, 12) == Halved(z, 8);
    assert Halved(z, 8) == Halved(Half(Half(Half(Half(z)))), 4);
    HighBitsClear(Half(x), 15);
  }

  /** The polynomial has three bits. */
  lemma PolynomialIsOdd()
    ensures OddBits(0xA001) && OddBits(1) && !OddBits(0)
  {
    assert OddLow(0xA001, 16) == (true != OddLow(0x5000, 15));
    assert OddLow(0x5000, 15) == OddLow(0x0500, 11);
    assert OddLow(0x0500, 11) == OddLow(0x0050, 7);
    assert OddLow(0x0050, 7) == OddLow(0x0005, 3);
  }

  lemma ShiftIsXor(x: bv16)
    ensures Shift(x) == if IsOdd(x) then Xor(Half(x), 0xA001) else Half(x)
  {
  }

  /** So a shift keeps the parity: the bit that drops out is made up for by the polynomial. */
  lemma ShiftKeepsParity(x: bv16)
    ensures OddBits(Shift(x)) == OddBits(x)
  {
    ShiftIsXor(x);
    PolynomialIsOdd();
    hide Shift, Half, IsOdd, Xor;
    HalfHasFifteenBits(x);
    assert OddLow(x, 16) == (IsOdd(x) != OddLow(Half(x), 15));
    ParityXor(Half(x), 0xA001, 16);
  }

  /** Absorbing a bit changes the parity exactly if the bit is set. */
  lemma StepParity(x: bv16, bit: bool)
    ensures OddBits(Shift(Xor(x, BitValue(bit)))) == (OddBits(x) != bit)
  {
    hide Shift, Xor, OddLow;
    ShiftKeepsParity(Xor(x, BitValue(bit)));
    PolynomialIsOdd();
    ParityXor(x, BitValue(bit), 16);
  }

  // ---- The table ----

  function CrcTable(i: bv8): bv16 {
    match i >> 4
    case 0 => (
      match i & 15
      case 0 => 0x0000 case 1 => 0xC0C1 case 2 => 0xC181 case 3 => 0x0140
      case 4 => 0xC301 case 5 => 0x03C0 case 6 => 0x0280 case 7 => 0xC241
      case 8 => 0xC601 case 9 => 0x06C0 case 10 => 0x0780 case 11 => 0xC741
      case 12 => 0x0500 case 13 => 0xC5C1 case 14 => 0xC481 case _ => 0x0440)
    case 1 => (
      match i & 15
      case 0 => 0xCC01 case 1 => 0x0CC0 case 2 => 0x0D80 case 3 => 0xCD41
      case 4 => 0x0F00 case 5 => 0xCFC1 case 6 => 0xCE81 case 7 => 0x0E40
      case 8 => 0x0A00 case 9 => 0xCAC1 case 10 => 0xCB81 case 11 => 0x0B40
      case 12 => 0xC901 case 13 => 0x09C0 case 14 => 0x0880 case _ => 0xC841)
    case 2 => (
      match i & 15
      case 0 => 0xD801 case 1 => 0x18C0 case 2 => 0x1980 case 3 => 0xD941
      case 4 => 0x1B00 case 5 => 0xDBC1 case 6 => 0xDA81 case 7 => 0x1A40
      case 8 => 0x1E00 case 9 => 0xDEC1 case 10 => 0xDF81 case 11 => 0x1F40
      case 12 => 0xDD01 case 13 => 0x1DC0 case 14 => 0x1C80 case _ => 0xDC41)
    case 3 => (
      match i & 15
      case 0 => 0x1400 case 1 => 0xD4C1 case 2 => 0xD581 case 3 => 0x1540
      case 4 => 0xD701 case 5 => 0x17C0 case 6 => 0x1680 case 7 => 0xD641
      case 8 => 0xD201 case 9 => 0x12C0 case 10 => 0x1380 case 11 => 0xD341
      case 12 => 0x1100 case 13 => 0xD1C1 case 14 => 0xD081 case _ => 0x1040)
    case 4 => (
      match i & 15
      case 0 => 0xF001 case 1 => 0x30C0 case 2 => 0x3180 case 3 => 0xF141
      case 4 => 0x3300 case 5 => 0xF3C1 case 6 => 0xF281 case 7 => 0x3240
      case 8 => 0x3600 case 9 => 0xF6C1 case 10 => 0xF781 case 11 => 0x3740
      case 12 => 0xF501 case 13 => 0x35C0 case 14 => 0x3480 case _ => 0xF441)
    case 5 => (
      match i & 15
      case 0 => 0x3C00 case 1 => 0xFCC1 case 2 => 0xFD81 case 3 => 0x3D40
      case 4 => 0xFF01 case 5 => 0x3FC0 case 6 => 0x3E80 case 7 => 0xFE41
      case 8 => 0xFA01 case 9 => 0x3AC0 case 10 => 0x3B80 case 11 => 0xFB41
      case 12 => 0x3900 case 13 => 0xF9C1 case 14 => 0xF881 case _ => 0x3840)
    case 6 => (
      match i & 15
      case 0 => 0x2800 case 1 => 0xE8C1 case 2 => 0xE981 case 3 => 0x2940
      case 4 => 0xEB01 case 5 => 0x2BC0 case 6 => 0x2A80 case 7 => 0xEA41
      case 8 => 0xEE01 case 9 => 0x2EC0 case 10 => 0x2F80 case 11 => 0xEF41
      case 12 => 0x2D00 case 13 => 0xEDC1 case 14 => 0xEC81 case _ => 0x2C40)
    case 7 => (
      match i & 15
      case 0 => 0xE401 case 1 => 0x24C0 case 2 => 0x2580 case 3 => 0xE541
      case 4 => 0x2700 case 5 => 0xE7C1 case 6 => 0xE681 case 7 => 0x2640
      case 8 => 0x2200 case 9 => 0xE2C1 case 10 => 0xE381 case 11 => 0x2340
      case 12 => 0xE101 case 13 => 0x21C0 case 14 => 0x2080 case _ => 0xE041)
    case 8 => (
      match i & 15
      case 0 => 0xA001 case 1 => 0x60C0 case 2 => 0x6180 case 3 => 0xA141
      case 4 => 0x6300 case 5 => 0xA3C1 case 6 => 0xA281 case 7 => 0x6240
      case 8 => 0x6600 case 9 => 0xA6C1 case 10 => 0xA781 case 11 => 0x6740
      case 12 => 0xA501 case 13 => 0x65C0 case 14 => 0x6480 case _ => 0xA441)
    case 9 => (
      match i & 15
      case 0 => 0x6C00 case 1 => 0xACC1 case 2 => 0xAD81 case 3 => 0x6D40
      case 4 => 0xAF01 case 5 => 0x6FC0 case 6 => 0x6E80 case 7 => 0xAE41
      case 8 => 0xAA01 case 9 => 0x6AC0 case 10 => 0x6B80 case 11 => 0xAB41
      case 12 => 0x6900 case 13 => 0xA9C1 case 14 => 0xA881 case _ => 0x6840)
    case 10 => (
      match i & 15
      case 0 => 0x7800 case 1 => 0xB8C1 case 2 => 0xB981 case 3 => 0x7940
      case 4 => 0xBB01 case 5 => 0x7BC0 case 6 => 0x7A80 case 7 => 0xBA41
      case 8 => 0xBE01 case 9 => 0x7EC0 case 10 => 0x7F80 case 11 => 0xBF41
      case 12 => 0x7D00 case 13 => 0xBDC1 case 14 => 0xBC81 case _ => 0x7C40)
    case 11 => (
      match i & 15
      case 0 => 0xB401 case 1 => 0x74C0 case 2 => 0x7580 case 3 => 0xB541
      case 4 => 0x7700 case 5 => 0xB7C1 case 6 => 0xB681 case 7 => 0x7640
      case 8 => 0x7200 case 9 => 0xB2C1 case 10 => 0xB381 case 11 => 0x7340
      case 12 => 0xB101 case 13 => 0x71C0 case 14 => 0x7080 case _ => 0xB041)
    case 12 => (
      match i & 15
      case 0 => 0x5000 case 1 => 0x90C1 case 2 => 0x9181 case 3 => 0x5140
      case 4 => 0x9301 case 5 => 0x53C0 case 6 => 0x5280 case 7 => 0x9241
      case 8 => 0x9601 case 9 => 0x56C0 case 10 => 0x5780 case 11 => 0x9741
      case 12 => 0x5500 case 13 => 0x95C1 case 14 => 0x9481 case _ => 0x5440)
    case 13 => (
      match i & 15
      case 0 => 0x9C01 case 1 => 0x5CC0 case 2 => 0x5D80 case 3 => 0x9D41
      case 4 => 0x5F00 case 5 => 0x9FC1 case 6 => 0x9E81 case 7 => 0x5E40
      case 8 => 0x5A00 case 9 => 0x9AC1 case 10 => 0x9B81 case 11 => 0x5B40
      case 12 => 0x9901 case 13 => 0x59C0 case 14 => 0x5880 case _ => 0x9841)
    case 14 => (
      match i & 15
      case 0 => 0x8801 case 1 => 0x48C0 case 2 => 0x4980 case 3 => 0x8941
      case 4 => 0x4B00 case 5 => 0x8BC1 case 6 => 0x8A81 case 7 => 0x4A40
      case 8 => 0x4E00 case 9 => 0x8EC1 case 10 => 0x8F81 case 11 => 0x4F40
      case 12 => 0x8D01 case 13 => 0x4DC0 case 14 => 0x4C80 case _ => 0x8C41)
    case _ => (
      match i & 15
      case 0 => 0x4400 case 1 => 0x84C1 case 2 => 0x8581 case 3 => 0x4540
      case 4 => 0x8701 case 5 => 0x47C0 case 6 => 0x4680 case 7 => 0x8641
      case 8 => 0x8201 case 9 => 0x42C0 case 10 => 0x4380 case 11 => 0x8341
      case 12 => 0x4100 case 13 => 0x81C1 case 14 => 0x8081 case _ => 0x4040)
  }

  function Shift8(x: bv16): bv16 {
    Shift(Shift(Shift(Shift(Shift(Shift(Shift(Shift(x))))))))
  }

  function Widen(i: bv8): bv16 {
    i as bv16
  }

  lemma TableQuarter0(i: bv8)
    requires i >> 6 == 0
    ensures CrcTable(i) == Shift8(Widen(i))
  {
  }

  lemma TableQuarter1(i: bv8)
    requires i >> 6 == 1
    ensures CrcTable(i) == Shift8(Widen(i))
  {
  }

  lemma TableQuarter2(i: bv8)
    requires i >> 6 == 2
    ensures CrcTable(i) == Shift8(Widen(i))
  {
  }

  lemma TableQuarter3(i: bv8)
    requires i >> 6 == 3
    ensures CrcTable(i) == Shift8(Widen(i))
  {
  }

  /** Entry i of the table is what eight single shifts make of i. */
  lemma TableIsEightShifts(i: bv8)
    ensures CrcTable(i) == Shift8(Widen(i))
  {
    hide CrcTable, Shift8, Widen;
    if i >> 6 == 0 {
      TableQuarter0(i);
    } else if i >> 6 == 1 {
      TableQuarter1(i);
    } else if i >> 6 == 2 {
      TableQuarter2(i);
    } else {
      TableQuarter3(i);
    }
  }

  // ---- The code's byte step on signed state ----

  /** The value of a signed 16-bit variable after promotion to 32 bits. */
  function SignExtend(c: bv16): bv32 {
    if c & 0x8000 != 0 then 0xFFFF0000 | (c as bv32) else c as bv32
  }

  /** `>> 8` on a signed 32-bit value. */
  function ArithmeticShift8(x: bv32): bv32 {
    if x & 0x80000000 != 0 then 0xFF000000 | (x >> 8) else x >> 8
  }

  /** Conversion of a 32-bit value to a 16-bit variable. */
  function LowHalf(x: bv32): bv16 {
    (x & 0xFFFF) as bv16
  }

  function TableIndex(crc: bv16, b: bv8): bv8 {
    ((SignExtend(crc) ^ (b as bv32)) & 0x00FF) as bv8
  }

  function NextState(crc: bv16, entry: bv16): bv16 {
    LowHalf((ArithmeticShift8(SignExtend(crc)) & 0x00FF) ^ (entry as bv32))
  }

  /** One byte of the code's loop. */
  function TableStep(crc: bv16, b: bv8): bv16 {
    NextState(crc, CrcTable(TableIndex(crc, b)))
  }

  // Promotion and sign bits never matter: index and new state are the unsigned ones.

  function High(x: bv16): bv16 {
    x >> 8
  }

  function HighPart(x: bv16): bv16 {
    x & 0xFF00
  }

  function Low(x: bv16): bv16 {
    x & 0xFF
  }

  lemma PromotedLow(crc: bv16, b: bv8)
    ensures (SignExtend(crc) ^ (b as bv32)) & 0xFF == ((crc ^ (b as bv16)) & 0xFF) as bv32
  {
  }

  lemma Narrow(y: bv32, x: bv16)
    requires y & 0xFF == (x & 0xFF) as bv32
    ensures Widen((y & 0xFF) as bv8) == x & 0xFF
  {
  }

  lemma IndexBits(crc: bv16, b: bv8)
    ensures Widen(TableIndex(crc, b)) == (crc ^ (b as bv16)) & 0xFF
  {
    hide SignExtend, Widen;
    PromotedLow(crc, b);
    Narrow(SignExtend(crc) ^ (b as bv32), crc ^ (b as bv16));
  }

  lemma AbsorbBits(crc: bv16, b: bv8)
    ensures Low(Xor(crc, Widen(b))) == (crc ^ (b as bv16)) & 0xFF
  {
  }

  lemma IndexIsUnsigned(crc: bv16, b: bv8)
    ensures Widen(TableIndex(crc, b)) == Low(Xor(crc, Widen(b)))
  {
    hide Widen, TableIndex, Low, Xor;
    IndexBits(crc, b);
    AbsorbBits(crc, b);
  }

  lemma PromotedHigh(crc: bv16)
    ensures ArithmeticShift8(SignExtend(crc)) & 0xFF == (crc >> 8) as bv32
  {
  }

  lemma MixHalves(h: bv16, entry: bv16)
    ensures LowHalf((h as bv32) ^ (entry as bv32)) == h ^ entry
  {
  }

  lemma NextBits(crc: bv16, entry: bv16)
    ensures NextState(crc, entry) == (crc >> 8) ^ entry
  {
    PromotedHigh(crc);
    MixHalves(crc >> 8, entry);
  }

  lemma MixBits(crc: bv16, entry: bv16)
    ensures Xor(High(crc), entry) == (crc >> 8) ^ entry
  {
  }

  lemma NextIsUnsigned(crc: bv16, entry: bv16)
    ensures NextState(crc, entry) == Xor(High(crc), entry)
  {
    hide NextState, Xor, High;
    NextBits(crc, entry);
    MixBits(crc, entry);
  }

  lemma HighByteKept(crc: bv16, b: bv8)
    ensures High(Xor(crc, Widen(b))) == High(crc)
  {
  }

  lemma SplitWord(x: bv16)
    ensures x == Xor(HighPart(x), Low(x))
  {
  }

  lemma HighPartShifts(x: bv16)
    ensures Shift8(HighPart(x)) == High(x)
  {
  }

  lemma Shift8Xor(x: bv16, y: bv16)
    ensures Xor(Shift8(x), Shift8(y)) == Shift8(Xor(x, y))
  {
    hide Shift, Xor;
    var x1, y1 := Shift(x), Shift(y);
    var x2, y2 := Shift(x1), Shift(y1);
    var x3, y3 := Shift(x2), Shift(y2);
    var x4, y4 := Shift(x3), Shift(y3);
    var x5, y5 := Shift(x4), Shift(y4);
    var x6, y6 := Shift(x5), Shift(y5);
    var x7, y7 := Shift(x6), Shift(y6);
    ShiftXor(x, y);
    ShiftXor(x1, y1);
    ShiftXor(x2, y2);
    ShiftXor(x3, y3);
    ShiftXor(x4, y4);
    ShiftXor(x5, y5);
    ShiftXor(x6, y6);
    ShiftXor(x7, y7);
  }

  /** Eight shifts move the high byte down and transform the low byte. */
  lemma Shift8Splits(x: bv16)
    ensures Shift8(x) == Xor(High(x), Shift8(Low(x)))
  {
    hide Shift8, Xor, High, HighPart, Low;
    SplitWord(x);
    Shift8Xor(HighPart(x), Low(x));
    HighPartShifts(x);
  }

  /** The table-driven step on signed state absorbs the byte and shifts eight times. */
  lemma TableStepIsShift8(crc: bv16, b: bv8)
    ensures TableStep(crc, b) == Shift8(Xor(crc, Widen(b)))
  {
    hide CrcTable, Shift8, Widen, TableIndex, NextState, Xor, High, Low;
    var i := TableIndex(crc, b);
    TableIsEightShifts(i);
    IndexIsUnsigned(crc, b);
    NextIsUnsigned(crc, CrcTable(i));
    HighByteKept(crc, b);
    Shift8Splits(Xor(crc, Widen(b)));
  }

  lemma EightHalvings(b: bv8)
    ensures Half(Half(Half(Half(Half(Half(Half(Half(Widen(b))))))))) == 0
  {
  }

  // ---- Sign extension of the result ----

  lemma LowHalfOfNegative(c: bv16)
    ensures LowHalf(0xFFFF0000 | (c as bv32)) == c
  {
  }

  lemma LowHalfOfPositive(c: bv16)
    ensures LowHalf(c as bv32) == c
  {
  }

  /** A 32-bit result that is a 16-bit number with its sign: the upper half repeats bit 15. */
  predicate IsSigned16(r: bv32, c: bv16) {
    r & 0xFFFF == c as bv32 && r >> 16 == if c >= 0x8000 then 0xFFFF else 0
  }

  lemma SignIsExtended(c: bv16)
    ensures IsSigned16(SignExtend(c), c)
  {
    if c & 0x8000 != 0 {
      NegativeExtended(c);
    } else {
      PositiveExtended(c);
    }
  }

  lemma NegativeExtended(c: bv16)
    requires c & 0x8000 != 0
    ensures c >= 0x8000 && (0xFFFF0000 | (c as bv32)) & 0xFFFF == c as bv32 && (0xFFFF0000 | (c as bv32)) >> 16 == 0xFFFF
  {
  }

  lemma PositiveExtended(c: bv16)
    requires c & 0x8000 == 0
    ensures c < 0x8000 && (c as bv32) & 0xFFFF == c as bv32 && (c as bv32) >> 16 == 0
  {
  }

  lemma SignExtensionKeepsState(c: bv16)
    ensures LowHalf(SignExtend(c)) == c
  {
    if c & 0x8000 != 0 {
      LowHalfOfNegative(c);
    } else {
      LowHalfOfPositive(c);
    }
  }

  lemma ZeroExtends()
    ensures SignExtend(0) == 0 && LowHalf(0) == 0
  {
  }

  // ---- Two laws of the byte step ----

  /** `lo` and `hi` are the low and high byte of a word. */
  predicate IsSplit(x: bv16, lo: bv8, hi: bv8) {
    Low(x) == Widen(lo) && High(x) == Widen(hi)
  }

  lemma ShiftInjective(x: bv16, y: bv16)
    ensures Shift(x) == Shift(y) ==> x == y
  {
    hide Shift, Xor;
    ShiftXor(x, y);
    XorSame(Shift(x), Shift(y));
    XorSame(x, y);
    ShiftZero(Xor(x, y));
  }

  lemma Shift8Injective(x: bv16, y: bv16)
    ensures Shift8(x) == Shift8(y) ==> x == y
  {
    hide Shift;
    var x1, y1 := Shift(x), Shift(y);
    var x2, y2 := Shift(x1), Shift(y1);
    var x3, y3 := Shift(x2), Shift(y2);
    var x4, y4 := Shift(x3), Shift(y3);
    var x5, y5 := Shift(x4), Shift(y4);
    var x6, y6 := Shift(x5), Shift(y5);
    var x7, y7 := Shift(x6), Shift(y6);
    ShiftInjective(x, y);
    ShiftInjective(x1, y1);
    ShiftInjective(x2, y2);
    ShiftInjective(x3, y3);
    ShiftInjective(x4, y4);
    ShiftInjective(x5, y5);
    ShiftInjective(x6, y6);
    ShiftInjective(x7, y7);
  }

  lemma WidenInjective(a: bv8, b: bv8)
    ensures Widen(a) == Widen(b) ==> a == b
  {
  }

  lemma StepFromZeroInjective(a: bv8, b: bv8)
    ensures TableStep(0, a) == TableStep(0, b) ==> a == b
  {
    hide TableStep, Shift8, Xor, Widen;
    TableStepIsShift8(0, a);
    TableStepIsShift8(0, b);
    Shift8Injective(Xor(0, Widen(a)), Xor(0, Widen(b)));
    XorComm(0, Widen(a));
    XorComm(0, Widen(b));
    XorZero(Widen(a));
    XorZero(Widen(b));
    WidenInjective(a, b);
  }

  lemma Shift8Zero()
    ensures Shift8(0) == 0
  {
  }

  lemma XorLow(x: bv16)
    ensures Xor(x, Low(x)) == HighPart(x)
  {
  }

  /** Absorbing the register's own two bytes empties it. */
  lemma StepsCancel(x: bv16, lo: bv8, hi: bv8)
    requires IsSplit(x, lo, hi)
    ensures TableStep(TableStep(x, lo), hi) == 0
  {
    hide TableStep, Shift8, Xor, Widen, Low, High, HighPart;
    TableStepIsShift8(x, lo);
    XorLow(x);
    HighPartShifts(x);
    TableStepIsShift8(High(x), hi);
    XorSame(High(x), High(x));
    Shift8Zero();
  }
}
