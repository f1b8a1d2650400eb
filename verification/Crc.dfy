/**
 The CRC of whole messages and the table tool's main loop (tools/tblCRCTool/cfe_ts_crc.c),
 proved equal to the bit-at-a-time CRC, and the errors that this CRC detects.
 */
module Crc {
  import opened CrcWords

  // ---- The reference: one bit at a time ----

  function BitStep(c: bv16, bit: bool): bv16 {
    Shift(Xor(c, BitValue(bit)))
  }

  /** The CRC of a sequence of bits from start value `c`. */
  function CrcOfBits(c: bv16, bits: seq<bool>): bv16
    decreases bits
  {
    if bits == [] then c else CrcOfBits(BitStep(c, bits[0]), bits[1..])
  }

  /** The lowest `k` bits of a word, least significant first. */
  function LowBits(y: bv16, k: nat): (s: seq<bool>)
    ensures |s| == k
    decreases k
  {
    if k == 0 then [] else [IsOdd(y)] + LowBits(Half(y), k - 1)
  }

  function BitsOf(b: bv8): (s: seq<bool>)
    ensures |s| == 8
  {
    LowBits(Widen(b), 8)
  }

  /** The bits of a message, in the order in which they enter the register. */
  function Bits(data: seq<bv8>): (s: seq<bool>)
    ensures |s| == 8 * |data|
    decreases data
  {
    if data == [] then [] else BitsOf(data[0]) + Bits(data[1..])
  }

  /** The reference CRC of a message. */
  function CrcOf(c: bv16, data: seq<bv8>): bv16 {
    CrcOfBits(c, Bits(data))
  }

  lemma {:induction false} CrcOfBitsConcat(c: bv16, a: seq<bool>, b: seq<bool>)
    ensures CrcOfBits(c, a + b) == CrcOfBits(CrcOfBits(c, a), b)
    decreases a
  {
    hide BitStep;
    if a == [] {
      assert a + b == b;
    } else {
      assert (a + b)[0] == a[0] && (a + b)[1..] == a[1..] + b;
      CrcOfBitsConcat(BitStep(c, a[0]), a[1..], b);
    }
  }

  lemma {:induction false} BitsConcat(a: seq<bv8>, b: seq<bv8>)
    ensures Bits(a + b) == Bits(a) + Bits(b)
    decreases a
  {
    hide BitsOf;
    if a == [] {
      assert a + b == b;
    } else {
      assert (a + b)[0] == a[0] && (a + b)[1..] == a[1..] + b;
      BitsConcat(a[1..], b);
    }
  }

  /** The CRC of a concatenation is the CRC of the second part, started with the CRC of the first. */
  lemma CrcComposes(c: bv16, a: seq<bv8>, b: seq<bv8>)
    ensures CrcOf(c, a + b) == CrcOf(CrcOf(c, a), b)
  {
    hide Bits, CrcOfBits;
    BitsConcat(a, b);
    CrcOfBitsConcat(c, Bits(a), Bits(b));
  }

  lemma CrcOfNothing(c: bv16)
    ensures CrcOf(c, []) == c
  {
  }

  // ---- The byte step equals eight bit steps ----

  function Shifts(x: bv16, k: nat): bv16
    decreases k
  {
    if k == 0 then x else Shifts(Shift(x), k - 1)
  }

  /** Absorbing a word at once and shifting k times is absorbing its k lowest bits one at a time. */
  lemma {:induction false} ShiftsAbsorbBits(c: bv16, y: bv16, k: nat)
    ensures Shifts(Xor(c, y), k) == Xor(CrcOfBits(c, LowBits(y, k)), Halved(y, k))
    decreases k
  {
    hide Shift, Xor, BitValue, IsOdd, Half;
    if k > 0 {
      PushBit(c, y);
      ShiftsAbsorbBits(BitStep(c, IsOdd(y)), Half(y), k - 1);
      assert LowBits(y, k)[0] == IsOdd(y) && LowBits(y, k)[1..] == LowBits(Half(y), k - 1);
    }
  }

  lemma EightShifts(x: bv16)
    ensures Shifts(x, 8) == Shift8(x)
  {
    hide Shift;
    assert Shifts(x, 8) == Shifts(Shift(Shift(Shift(Shift(x)))), 4);
  }

  lemma EightDropped(b: bv8)
    ensures Halved(Widen(b), 8) == 0
  {
    hide Half, Widen;
    EightHalvings(b);
    assert Halved(Widen(b), 8) == Halved(Half(Half(Half(Half(Widen(b))))), 4);
  }

  /** One step of the code's loop is eight steps of the bit-at-a-time CRC. */
  lemma TableStepIsBitwise(crc: bv16, b: bv8)
    ensures TableStep(crc, b) == CrcOfBits(crc, BitsOf(b))
  {
    hide TableStep, Shift8, Shifts, LowBits, CrcOfBits, Halved, Xor, Widen;
    TableStepIsShift8(crc, b);
    EightShifts(Xor(crc, Widen(b)));
    ShiftsAbsorbBits(crc, Widen(b), 8);
    EightDropped(b);
    XorZero(CrcOfBits(crc, BitsOf(b)));
  }

  // ---- The routine ----

  const CFE_ES_CRC_16: nat := 2

  lemma CrcSnoc(c: bv16, data: seq<bv8>, i: nat)
    requires i < |data|
    ensures CrcOf(c, data[..i + 1]) == CrcOfBits(CrcOf(c, data[..i]), BitsOf(data[i]))
  {
    hide CrcOfBits, BitsOf;
    assert data[..i + 1] == data[..i] + [data[i]];
    CrcComposes(c, data[..i], [data[i]]);
    assert [data[i]][1..] == [];
    assert BitsOf(data[i]) + [] == BitsOf(data[i]);
  }

  /** The table-driven routine computes the bit-at-a-time CRC; other CRC types return zero. */
  method CalculateCRC(data: seq<bv8>, inputCRC: bv32, typeCRC: nat) returns (r: bv32)
    ensures typeCRC == CFE_ES_CRC_16 ==> r == SignExtend(CrcOf(LowHalf(inputCRC), data))
    ensures typeCRC == 2 ==> IsSigned16(r, CrcOf(LowHalf(inputCRC), data))
    ensures typeCRC != 2 ==> r == 0
  {
    hide TableStep, CrcOf, CrcOfBits, BitsOf, LowHalf, SignExtend, IsSigned16;
    var crc: bv16 := 0;
    if typeCRC == CFE_ES_CRC_16 {
      crc := LowHalf(inputCRC);
      CrcOfNothing(crc);
      assert data[..0] == [];
      var i := 0;
      while i < |data|
        invariant 0 <= i <= |data|
        invariant crc == CrcOf(LowHalf(inputCRC), data[..i])
      {
        CrcSnoc(LowHalf(inputCRC), data, i);
        TableStepIsBitwise(crc, data[i]);
        crc := TableStep(crc, data[i]);
        i := i + 1;
      }
      assert data[..|data|] == data;
    } else {
      ZeroExtends();
    }
    SignIsExtended(crc);
    r := SignExtend(crc);
  }

  // ---- The tool ----

  const HEADER_SIZE: nat := 116
  const CHUNK: nat := 100

  /** What follows the header of a table file. */
  function Payload(file: seq<bv8>): seq<bv8> {
    if |file| <= HEADER_SIZE then [] else file[HEADER_SIZE..]
  }

  /** What is read at an offset continues what was read before. */
  lemma NextChunk(file: seq<bv8>, done: nat, n: nat, buffer: seq<bv8>)
    requires done + n <= |Payload(file)|
    requires buffer == if n == 0 then [] else file[HEADER_SIZE + done..HEADER_SIZE + done + n]
    ensures Payload(file)[..done] + buffer == Payload(file)[..done + n]
  {
    if n > 0 {
      assert buffer == Payload(file)[done..done + n];
    }
  }

  /** The tool's main loop: the CRC of everything after the header, read in pieces of 100 bytes. */
  method TableCrc(file: seq<bv8>) returns (fileSize: nat, fileCRC: bv32)
    ensures fileSize == |Payload(file)|
    ensures fileCRC == SignExtend(CrcOf(0, Payload(file)))
    ensures IsSigned16(fileCRC, CrcOf(0, Payload(file)))
  {
    hide CrcOf, LowHalf, SignExtend, IsSigned16;
    SignIsExtended(CrcOf(0, Payload(file)));
    ghost var all := Payload(file);
    var offset := HEADER_SIZE;
    fileSize, fileCRC := 0, 0;
    CrcOfNothing(0);
    ZeroExtends();
    assert all[..0] == [];
    var done := false;
    while !done
      invariant fileSize <= |all| && offset == HEADER_SIZE + fileSize
      invariant fileCRC == SignExtend(CrcOf(0, all[..fileSize]))
      invariant done ==> fileSize == |all|
      decreases !done, |all| - fileSize
    {
      var readSize := if offset >= |file| then 0 else if |file| - offset < CHUNK then |file| - offset else CHUNK;
      var buffer := if readSize == 0 then [] else file[offset..offset + readSize];
      NextChunk(file, fileSize, readSize, buffer);
      SignExtensionKeepsState(CrcOf(0, all[..fileSize]));
      CrcComposes(0, all[..fileSize], buffer);
      fileCRC := CalculateCRC(buffer, fileCRC, CFE_ES_CRC_16);
      fileSize, offset := fileSize + readSize, offset + readSize;
      if readSize != CHUNK {
        done := true;
      }
    }
    assert all[..fileSize] == all;
  }

  // ---- The check value ----

  lemma CheckSteps()
    ensures TableStep(0x0000, 0x31) == 0xD4C1
    ensures TableStep(0xD4C1, 0x32) == 0x4594
    ensures TableStep(0x4594, 0x33) == 0xBA04
    ensures TableStep(0xBA04, 0x34) == 0x14BA
    ensures TableStep(0x14BA, 0x35) == 0xA455
    ensures TableStep(0xA455, 0x36) == 0x29E4
    ensures TableStep(0x29E4, 0x37) == 0x9D68
    ensures TableStep(0x9D68, 0x38) == 0x3C9D
    ensures TableStep(0x3C9D, 0x39) == 0xBB3D
  {
  }

  /** The catalogued check value of this CRC: that of the nine ASCII digits 1 to 9. */
  lemma CheckValue()
    ensures CrcOf(0, [0x31, 0x32, 0x33, 0x34, 0x35, 0x36, 0x37, 0x38, 0x39]) == 0xBB3D
  {
    var data: seq<bv8> := [0x31, 0x32, 0x33, 0x34, 0x35, 0x36, 0x37, 0x38, 0x39];
    CheckSteps();
    hide TableStep, CrcOf, CrcOfBits, BitsOf;
    CrcOfNothing(0);
    assert data[..0] == [];
    CrcSnoc(0, data, 0);
    TableStepIsBitwise(0x0000, 0x31);
    CrcSnoc(0, data, 1);
    TableStepIsBitwise(0xD4C1, 0x32);
    CrcSnoc(0, data, 2);
    TableStepIsBitwise(0x4594, 0x33);
    CrcSnoc(0, data, 3);
    TableStepIsBitwise(0xBA04, 0x34);
    CrcSnoc(0, data, 4);
    TableStepIsBitwise(0x14BA, 0x35);
    CrcSnoc(0, data, 5);
    TableStepIsBitwise(0xA455, 0x36);
    CrcSnoc(0, data, 6);
    TableStepIsBitwise(0x29E4, 0x37);
    CrcSnoc(0, data, 7);
    TableStepIsBitwise(0x9D68, 0x38);
    CrcSnoc(0, data, 8);
    TableStepIsBitwise(0x3C9D, 0x39);
    assert data[..9] == data;
  }

  /** So the routine returns 0xFFFFBB3D for them: the result is negative as a 16-bit number. */
  method CheckMessage() returns (r: bv32)
    ensures r == 0xFFFFBB3D
  {
    r := CalculateCRC([0x31, 0x32, 0x33, 0x34, 0x35, 0x36, 0x37, 0x38, 0x39], 0, 2);
    CheckValue();
    ZeroLow();
    SignedCheckValue(r);
    hide CrcOf, LowHalf, SignExtend;
  }

  lemma ZeroLow()
    ensures LowHalf(0) == 0
  {
  }

  lemma SignedCheckValue(r: bv32)
    ensures IsSigned16(r, 0xBB3D) ==> r == 0xFFFFBB3D
  {
  }

  // ---- What the CRC detects ----

  lemma BitStepXor(c: bv16, d: bv16, a: bool, b: bool)
    ensures Xor(BitStep(c, a), BitStep(d, b)) == BitStep(Xor(c, d), a != b)
  {
    hide Shift, BitValue, Xor;
    ShiftXor(Xor(c, BitValue(a)), Xor(d, BitValue(b)));
    XorSwap(c, d, BitValue(a), BitValue(b));
    BitXor(a, b);
  }

  /** Where two bit sequences differ. */
  function Differences(u: seq<bool>, v: seq<bool>): (d: seq<bool>)
    requires |u| == |v|
    ensures |d| == |u| && forall i | 0 <= i < |u| :: d[i] == (u[i] != v[i])
  {
    seq(|u|, i requires 0 <= i < |u| => u[i] != v[i])
  }

  /** The CRC is linear: two CRCs differ by the CRC of the difference. */
  lemma {:induction false} CrcIsLinear(c: bv16, d: bv16, u: seq<bool>, v: seq<bool>)
    requires |u| == |v|
    ensures Xor(CrcOfBits(c, u), CrcOfBits(d, v)) == CrcOfBits(Xor(c, d), Differences(u, v))
    decreases u
  {
    hide BitStep, Xor, Differences;
    if u != [] {
      BitStepXor(c, d, u[0], v[0]);
      CrcIsLinear(BitStep(c, u[0]), BitStep(d, v[0]), u[1..], v[1..]);
      assert Differences(u, v)[1..] == Differences(u[1..], v[1..]);
    }
  }

  lemma ZeroBitStep(x: bv16)
    ensures BitStep(x, false) == 0 <==> x == 0
  {
    hide Shift, Xor;
    XorZero(x);
    ShiftZero(x);
  }

  predicate AllFalse(e: seq<bool>) {
    forall i | 0 <= i < |e| :: !e[i]
  }

  /** Correct bits after an error cannot hide it, and correct bits alone do not raise one. */
  lemma {:induction false} QuietBits(x: bv16, e: seq<bool>)
    requires AllFalse(e)
    ensures CrcOfBits(x, e) == 0 <==> x == 0
    decreases e
  {
    hide BitStep;
    if e != [] {
      ZeroBitStep(x);
      QuietBits(BitStep(x, e[0]), e[1..]);
    }
  }

  /** 0x8000 halved k times. */
  function Threshold(k: nat): bv16
    decreases k
  {
    if k == 0 then 0x8000 else Half(Threshold(k - 1))
  }

  lemma ThresholdValues()
    ensures Threshold(4) == 0x0800 && Threshold(8) == 0x0080 && Threshold(12) == 0x0008 && Threshold(15) == 1
  {
    assert Threshold(4) == 0x0800;
    assert Threshold(8) == 0x0080;
    assert Threshold(12) == 0x0008;
  }

  lemma HalfOfZero(x: bv16)
    ensures Half(x) > 0 ==> x > 0
  {
  }

  lemma {:induction false} ThresholdPositive(k: nat)
    requires k <= 15
    ensures Threshold(k) > 0
    decreases 15 - k
  {
    hide Half;
    if k == 15 {
      ThresholdValues();
    } else {
      ThresholdPositive(k + 1);
      HalfOfZero(Threshold(k));
    }
  }

  lemma {:induction false} ErrorsStayLarge(x: bv16, e: seq<bool>, k: nat)
    requires AtLeast(x, Threshold(k))
    ensures AtLeast(CrcOfBits(x, e), Threshold(k + |e|))
    decreases e
  {
    hide Half, Shift, Xor, BitValue, AtLeast;
    if e != [] {
      StaysLarge(x, Threshold(k), e[0]);
      ErrorsStayLarge(BitStep(x, e[0]), e[1..], k + 1);
    }
  }

  lemma FirstError(burst: seq<bool>)
    requires 0 < |burst| && burst[0]
    ensures CrcOfBits(0, burst) == CrcOfBits(0xA001, burst[1..])
  {
    hide Shift, Xor;
    FirstErrorBit();
  }

  lemma ThresholdStart()
    ensures AtLeast(0xA001, Threshold(0))
  {
  }

  lemma AboveZero(x: bv16, m: bv16)
    requires AtLeast(x, m) && m > 0
    ensures x != 0
  {
  }

  /** An error pattern: correct bits, then at most 16 bits of which the first is wrong, then correct bits. */
  lemma BurstIsNonzero(quiet: seq<bool>, burst: seq<bool>, rest: seq<bool>)
    requires AllFalse(quiet) && AllFalse(rest) && 0 < |burst| <= 16 && burst[0]
    ensures CrcOfBits(0, quiet + burst + rest) != 0
  {
    hide CrcOfBits, Threshold, AtLeast;
    CrcOfBitsConcat(0, quiet + burst, rest);
    CrcOfBitsConcat(0, quiet, burst);
    QuietBits(0, quiet);
    FirstError(burst);
    ThresholdStart();
    ErrorsStayLarge(0xA001, burst[1..], 0);
    ThresholdPositive(|burst| - 1);
    AboveZero(CrcOfBits(0, burst), Threshold(|burst| - 1));
    QuietBits(CrcOfBits(0, burst), rest);
  }

  /** The first error of a pattern. */
  lemma FirstTrue(e: seq<bool>) returns (i: nat)
    requires !AllFalse(e)
    ensures i < |e| && e[i] && AllFalse(e[..i])
  {
    i := 0;
    while !e[i]
      invariant i < |e| && AllFalse(e[..i])
      invariant exists j | i <= j < |e| :: e[j]
      decreases |e| - i
    {
      i := i + 1;
    }
  }

  /** A pattern with errors only within 16 consecutive bits, and at least one there. */
  lemma WindowIsNonzero(e: seq<bool>, from: nat)
    requires !AllFalse(e) && forall i | 0 <= i < |e| && e[i] :: from <= i < from + 16
    ensures CrcOfBits(0, e) != 0
  {
    hide CrcOfBits;
    var i := FirstTrue(e);
    var j := if from + 16 <= |e| then from + 16 else |e|;
    assert from <= i < j;
    assert e == e[..i] + e[i..j] + e[j..];
    BurstIsNonzero(e[..i], e[i..j], e[j..]);
  }

  /**
   Every burst error is detected: two different bit sequences of equal length that agree
   outside some 16 consecutive bits never have the same CRC from the same start value.
   */
  lemma BurstsAreDetected(c: bv16, u: seq<bool>, v: seq<bool>, from: nat)
    requires |u| == |v| && u != v
    requires forall i | 0 <= i < |u| && !(from <= i < from + 16) :: u[i] == v[i]
    ensures CrcOfBits(c, u) != CrcOfBits(c, v)
  {
    hide CrcOfBits, Xor, Differences;
    var e := Differences(u, v);
    var k :| 0 <= k < |u| && u[k] != v[k];
    assert e[k];
    WindowIsNonzero(e, from);
    CrcIsLinear(c, c, u, v);
    XorSame(c, c);
    XorSame(CrcOfBits(c, u), CrcOfBits(c, v));
  }

  /** The number of set bits. */
  function Ones(e: seq<bool>): nat
    decreases e
  {
    if e == [] then 0 else (if e[0] then 1 else 0) + Ones(e[1..])
  }

  /** The parity of the register follows the number of bits that were set in what it absorbed. */
  lemma {:induction false} ParityFollowsBits(c: bv16, e: seq<bool>)
    ensures OddBits(CrcOfBits(c, e)) == (OddBits(c) != (Ones(e) % 2 == 1))
    decreases e
  {
    hide OddBits, Shift, Xor, BitValue;
    if e != [] {
      StepParity(c, e[0]);
      ParityFollowsBits(BitStep(c, e[0]), e[1..]);
    }
  }

  /** Every error with an odd number of wrong bits is detected, wherever they are. */
  lemma OddErrorsAreDetected(c: bv16, u: seq<bool>, v: seq<bool>)
    requires |u| == |v| && Ones(Differences(u, v)) % 2 == 1
    ensures CrcOfBits(c, u) != CrcOfBits(c, v)
  {
    hide CrcOfBits, Xor, Differences, OddBits, Ones;
    CrcIsLinear(c, c, u, v);
    XorSame(c, c);
    ParityFollowsBits(0, Differences(u, v));
    PolynomialIsOdd();
    XorSame(CrcOfBits(c, u), CrcOfBits(c, v));
  }

  /** The same for whole messages. */
  lemma OddByteErrorsAreDetected(c: bv16, x: seq<bv8>, y: seq<bv8>)
    requires |x| == |y| && Ones(Differences(Bits(x), Bits(y))) % 2 == 1
    ensures CrcOf(c, x) != CrcOf(c, y)
  {
    hide CrcOfBits, Differences, Ones, Bits;
    OddErrorsAreDetected(c, Bits(x), Bits(y));
  }

  /** The bits of two different bytes differ. */
  lemma BitsOfInjective(a: bv8, b: bv8)
    requires BitsOf(a) == BitsOf(b)
    ensures a == b
  {
    hide Shifts, Shift8, TableStep, CrcOfBits, BitsOf, CrcTable;
    TableStepIsBitwise(0, a);
    TableStepIsBitwise(0, b);
    StepFromZeroInjective(a, b);
  }

  lemma {:induction false} BitsInjective(u: seq<bv8>, v: seq<bv8>)
    requires |u| == |v| && Bits(u) == Bits(v)
    ensures u == v
    decreases u
  {
    hide BitsOf;
    if u != [] {
      var a, b := BitsOf(u[0]), BitsOf(v[0]);
      assert Bits(u)[..8] == a && Bits(v)[..8] == b;
      assert Bits(u)[8..] == Bits(u[1..]) && Bits(v)[8..] == Bits(v[1..]);
      BitsOfInjective(u[0], v[0]);
      BitsInjective(u[1..], v[1..]);
    }
  }

  /** Two messages that differ only within two adjacent bytes never have the same CRC. */
  lemma AdjacentBytesAreDetected(c: bv16, prefix: seq<bv8>, x: seq<bv8>, y: seq<bv8>, suffix: seq<bv8>)
    requires |x| == |y| == 2 && x != y
    ensures CrcOf(c, prefix + x + suffix) != CrcOf(c, prefix + y + suffix)
  {
    hide CrcOfBits, Bits;
    BitsConcat(prefix + x, suffix);
    BitsConcat(prefix, x);
    BitsConcat(prefix + y, suffix);
    BitsConcat(prefix, y);
    if Bits(x) == Bits(y) {
      BitsInjective(x, y);
    }
    var u, v := Bits(prefix) + Bits(x) + Bits(suffix), Bits(prefix) + Bits(y) + Bits(suffix);
    var n := |Bits(prefix)|;
    assert u[n..n + 16] == Bits(x) && v[n..n + 16] == Bits(y);
    BurstsAreDetected(c, u, v, n);
  }

  // ---- Appending the CRC ----

  /** A message followed by its own CRC, low byte first, has CRC zero. */
  lemma AppendedCrcCancels(c: bv16, data: seq<bv8>, lo: bv8, hi: bv8)
    requires IsSplit(CrcOf(c, data), lo, hi)
    ensures CrcOf(c, data + [lo, hi]) == 0
  {
    hide CrcOf, TableStep, IsSplit, BitsOf;
    var x := CrcOf(c, data);
    CrcComposes(c, data, [lo, hi]);
    CrcSnoc(x, [lo, hi], 0);
    CrcSnoc(x, [lo, hi], 1);
    CrcOfNothing(x);
    assert [lo, hi][..0] == [] && [lo, hi][..2] == [lo, hi];
    TableStepIsBitwise(x, lo);
    TableStepIsBitwise(TableStep(x, lo), hi);
    StepsCancel(x, lo, hi);
  }
}
