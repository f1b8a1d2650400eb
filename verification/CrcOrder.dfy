/**
 The order of the CRC's shift register (tools/tblCRCTool/cfe_ts_crc.c): the register returns to
 a power of its polynomial variable after 32767 shifts and not before. This decides exactly
 which errors of two bits the CRC detects.
 */
module CrcOrder {
  import opened CrcWords
  import opened Crc

  // ---- Repeated shifts ----

  lemma {:induction false} ShiftsAdd(x: bv16, m: nat, n: nat)
    ensures Shifts(x, m + n) == Shifts(Shifts(x, m), n)
    decreases m
  {
    hide Shift;
    if m > 0 {
      ShiftsAdd(Shift(x), m - 1, n);
    }
  }

  lemma {:induction false} ShiftsXor(x: bv16, y: bv16, n: nat)
    ensures Shifts(Xor(x, y), n) == Xor(Shifts(x, n), Shifts(y, n))
    decreases n
  {
    hide Shift, Xor;
    if n > 0 {
      ShiftXor(x, y);
      ShiftsXor(Shift(x), Shift(y), n - 1);
    }
  }

  lemma {:induction false} ShiftsInjective(x: bv16, y: bv16, n: nat)
    requires Shifts(x, n) == Shifts(y, n)
    ensures x == y
    decreases n
  {
    hide Shift;
    if n > 0 {
      ShiftsInjective(Shift(x), Shift(y), n - 1);
      ShiftInjective(x, y);
    }
  }

  lemma {:induction false} ShiftsOfZero(n: nat)
    ensures Shifts(0, n) == 0
    decreases n
  {
    hide Shift;
    ShiftZero(0);
    if n > 0 {
      ShiftsOfZero(n - 1);
    }
  }

  lemma ShiftCommutes(x: bv16, n: nat)
    ensures Shifts(Shift(x), n) == Shift(Shifts(x, n))
  {
    hide Shift, Shifts;
    OneShift(x);
    OneShift(Shifts(x, n));
    ShiftsAdd(x, 1, n);
    ShiftsAdd(x, n, 1);
  }

  lemma OneShift(x: bv16)
    ensures Shifts(x, 1) == Shift(x)
  {
    hide Shift;
    assert Shifts(Shift(x), 0) == Shift(x);
  }

  // ---- Powers and products ----

  /** The register that stands for the polynomial 1; a shift multiplies by the variable. */
  const UNIT: bv16 := 0x8000

  /** The power of the variable with exponent `n`. */
  function Power(n: nat): bv16 {
    Shifts(UNIT, n)
  }

  function Pick(a: bv16, mask: bv16, b: bv16): bv16 {
    if a & mask != 0 then b else 0
  }

  /** The part of a product that four bits of `a` contribute, of which `mask` is the highest. */
  function Digit(a: bv16, mask: bv16, b: bv16): bv16 {
    Xor(Xor(Pick(a, mask, b), Pick(a, mask >> 1, Shift(b))),
        Xor(Pick(a, mask >> 2, Shift(Shift(b))), Pick(a, mask >> 3, Shift(Shift(Shift(b))))))
  }

  function Shift4(b: bv16): bv16 {
    Shift(Shift(Shift(Shift(b))))
  }

  /** The product of two polynomials modulo that of the CRC. */
  function Times(a: bv16, b: bv16): bv16 {
    Xor(Xor(Digit(a, 0x8000, b), Digit(a, 0x0800, Shift4(b))),
        Xor(Digit(a, 0x0080, Shift4(Shift4(b))), Digit(a, 0x0008, Shift4(Shift4(Shift4(b))))))
  }

  lemma UnitShifts()
    ensures Shift4(0x8000) == 0x0800 && Shift4(0x0800) == 0x0080 && Shift4(0x0080) == 0x0008
  {
  }

  lemma UnitDigits(a: bv16)
    ensures Digit(a, 0x8000, 0x8000) == a & 0xF000 && Digit(a, 0x0800, 0x0800) == a & 0x0F00
    ensures Digit(a, 0x0080, 0x0080) == a & 0x00F0 && Digit(a, 0x0008, 0x0008) == a & 0x000F
  {
  }

  lemma FourMasks(a: bv16)
    ensures ((a & 0xF000) ^ (a & 0x0F00)) ^ ((a & 0x00F0) ^ (a & 0x000F)) == a
  {
  }

  lemma TimesUnit(a: bv16)
    ensures Times(a, UNIT) == a
  {
    UnitShifts();
    UnitDigits(a);
    FourMasks(a);
    hide Digit, Shift4;
  }

  lemma PickShifts(a: bv16, mask: bv16, b: bv16, n: nat)
    ensures Shifts(Pick(a, mask, b), n) == Pick(a, mask, Shifts(b, n))
  {
    hide Shifts;
    ShiftsOfZero(n);
  }

  lemma DigitShifts(a: bv16, mask: bv16, b: bv16, n: nat)
    ensures Shifts(Digit(a, mask, b), n) == Digit(a, mask, Shifts(b, n))
  {
    var b1, b2, b3 := Shift(b), Shift(Shift(b)), Shift(Shift(Shift(b)));
    var m1, m2, m3 := mask >> 1, mask >> 2, mask >> 3;
    ShiftCommutes(b, n);
    ShiftCommutes(b1, n);
    ShiftCommutes(b2, n);
    PickShifts(a, mask, b, n);
    PickShifts(a, m1, b1, n);
    PickShifts(a, m2, b2, n);
    PickShifts(a, m3, b3, n);
    ShiftsXor(Pick(a, mask, b), Pick(a, m1, b1), n);
    ShiftsXor(Pick(a, m2, b2), Pick(a, m3, b3), n);
    ShiftsXor(Xor(Pick(a, mask, b), Pick(a, m1, b1)), Xor(Pick(a, m2, b2), Pick(a, m3, b3)), n);
    hide Shift, Shifts, Xor, Pick;
  }

  lemma Shift4Commutes(b: bv16, n: nat)
    ensures Shifts(Shift4(b), n) == Shift4(Shifts(b, n))
  {
    hide Shift, Shifts;
    ShiftCommutes(b, n);
    ShiftCommutes(Shift(b), n);
    ShiftCommutes(Shift(Shift(b)), n);
    ShiftCommutes(Shift(Shift(Shift(b))), n);
  }

  lemma TimesShifts(a: bv16, b: bv16, n: nat)
    ensures Shifts(Times(a, b), n) == Times(a, Shifts(b, n))
  {
    hide Digit, Shift4, Shifts, Xor;
    var b1, b2, b3 := Shift4(b), Shift4(Shift4(b)), Shift4(Shift4(Shift4(b)));
    Shift4Commutes(b, n);
    Shift4Commutes(b1, n);
    Shift4Commutes(b2, n);
    DigitShifts(a, 0x8000, b, n);
    DigitShifts(a, 0x0800, b1, n);
    DigitShifts(a, 0x0080, b2, n);
    DigitShifts(a, 0x0008, b3, n);
    var d0, d1, d2, d3 := Digit(a, 0x8000, b), Digit(a, 0x0800, b1), Digit(a, 0x0080, b2), Digit(a, 0x0008, b3);
    ShiftsXor(d0, d1, n);
    ShiftsXor(d2, d3, n);
    ShiftsXor(Xor(d0, d1), Xor(d2, d3), n);
  }

  /** Exponents add up. */
  lemma PowerTimes(m: nat, n: nat)
    ensures Power(m + n) == Times(Power(m), Power(n))
  {
    hide Times, Shifts;
    ShiftsAdd(UNIT, m, n);
    TimesUnit(Power(m));
    TimesShifts(Power(m), UNIT, n);
  }

  // ---- Some powers ----

  /** A product from its four digits. */
  lemma Product(a: bv16, b: bv16, b1: bv16, b2: bv16, b3: bv16, d0: bv16, d1: bv16, d2: bv16, d3: bv16)
    requires Shift4(b) == b1 && Shift4(b1) == b2 && Shift4(b2) == b3
    requires Digit(a, 0x8000, b) == d0 && Digit(a, 0x0800, b1) == d1 && Digit(a, 0x0080, b2) == d2 && Digit(a, 0x0008, b3) == d3
    ensures Times(a, b) == Xor(Xor(d0, d1), Xor(d2, d3))
  {
    hide Shift4, Digit, Xor;
  }

  lemma Squares0()
    ensures Times(0x0080, 0x0080) == 0xA001
    ensures Times(0xA001, 0xA001) == 0xE801
    ensures Times(0xE801, 0xE801) == 0xC881
  {
    hide Times;
    Product(0x0080, 0x0080, 0x0008, 0xA001, 0xC601, 0x0000, 0x0000, 0xA001, 0x0000);
    Product(0xA001, 0xA001, 0xC601, 0xC061, 0xC007, 0x7800, 0x0000, 0x0000, 0x9001);
    Product(0xE801, 0xE801, 0xC281, 0xC029, 0x6002, 0xF601, 0xC281, 0x0000, 0xFC01);
  }

  lemma Squares1()
    ensures Times(0xC881, 0xC881) == 0x6080
    ensures Times(0x6080, 0x6080) == 0x8801
    ensures Times(0x8801, 0x8801) == 0xE081
  {
    hide Times;
    Product(0xC881, 0xC881, 0xC089, 0x6008, 0xA601, 0x0CC0, 0xC089, 0x6008, 0xCCC1);
    Product(0x6080, 0x6080, 0x0608, 0xA061, 0xC607, 0x2860, 0x0000, 0xA061, 0x0000);
    Product(0x8801, 0x8801, 0xC481, 0xC049, 0x6004, 0x8801, 0xC481, 0x0000, 0xAC01);
  }

  lemma Squares2()
    ensures Times(0xE081, 0xE081) == 0x6800
    ensures Times(0x6800, 0x6800) == 0x2880
    ensures Times(0x2880, 0x2880) == 0xA881
  {
    hide Times;
    Product(0xE081, 0xE081, 0xC209, 0x6020, 0x0602, 0xF8E1, 0x0000, 0x6020, 0xF0C1);
    Product(0x6800, 0x6800, 0x0680, 0x0068, 0xA007, 0x2E00, 0x0680, 0x0000, 0x0000);
    Product(0x2880, 0x2880, 0x0288, 0xA029, 0x6602, 0x0A20, 0x0288, 0xA029, 0x0000);
  }

  lemma Squares3()
    ensures Times(0xA881, 0xA881) == 0x4880
    ensures Times(0x4880, 0x4880) == 0x8081
    ensures Times(0x8081, 0x8081) == 0x4000
  {
    hide Times;
    Product(0xA881, 0xA881, 0xC689, 0x6068, 0xA607, 0x72A0, 0xC689, 0x6068, 0x9CC1);
    Product(0x4880, 0x4880, 0x0488, 0xA049, 0x6604, 0x2440, 0x0488, 0xA049, 0x0000);
    Product(0x8081, 0x8081, 0xC409, 0x6040, 0x0604, 0x8081, 0x0000, 0x6040, 0xA0C1);
  }

  lemma Products4681()
    ensures Times(0xA881, 0xE081) == 0x7A48
    ensures Times(0x7A48, 0xC881) == 0x51DE
    ensures Times(0x51DE, 0x0080) == 0x58D1
    ensures Times(0x58D1, 0x4000) == 0x8C69
  {
    hide Times;
    Product(0xA881, 0xE081, 0xC209, 0x6020, 0x0602, 0x28A0, 0xC209, 0x6020, 0xF0C1);
    Product(0x7A48, 0xC881, 0xC089, 0x6008, 0xA601, 0xC771, 0x00AA, 0x3004, 0xA601);
    Product(0x51DE, 0x0080, 0x0008, 0xA001, 0xC601, 0x0050, 0x0001, 0x9C01, 0xC481);
    Product(0x58D1, 0x4000, 0x0400, 0x0040, 0x0004, 0x2800, 0x0400, 0x0068, 0xA001);
  }

  lemma Products1057()
    ensures Times(0x6800, 0xE801) == 0xDC81
    ensures Times(0xDC81, 0x4000) == 0xCE41
  {
    hide Times;
    Product(0x6800, 0xE801, 0xC281, 0xC029, 0x6002, 0x1E00, 0xC281, 0x0000, 0x0000);
    Product(0xDC81, 0x4000, 0x0400, 0x0040, 0x0004, 0x6800, 0x0600, 0x0040, 0xA001);
  }

  lemma Products217()
    ensures Times(0x6080, 0xC881) == 0x6668
    ensures Times(0x6668, 0xA001) == 0xEAAF
    ensures Times(0xEAAF, 0x0080) == 0x7CAA
    ensures Times(0x7CAA, 0x4000) == 0x3E55
  {
    hide Times;
    Product(0x6080, 0xC881, 0xC089, 0x6008, 0xA601, 0x0660, 0x0000, 0x6008, 0x0000);
    Product(0x6668, 0xA001, 0xC601, 0xC061, 0xC007, 0x2800, 0x0280, 0x0028, 0xC007);
    Product(0xEAAF, 0x0080, 0x0008, 0xA001, 0xC601, 0x00E0, 0x000A, 0x7800, 0x0440);
    Product(0x7CAA, 0x4000, 0x0400, 0x0040, 0x0004, 0x3800, 0x0600, 0x0050, 0x0005);
  }

  lemma SmallPowers()
    ensures Power(1) == 0x4000 && Power(8) == 0x0080
  {
    OneShift(UNIT);
    EightShifts(UNIT);
    hide Shifts;
  }

  /** Exponents that are powers of two, by squaring. */
  lemma TwoPowers()
    ensures Power(16) == 0xA001
    ensures Power(32) == 0xE801
    ensures Power(64) == 0xC881
    ensures Power(128) == 0x6080
    ensures Power(256) == 0x8801
    ensures Power(512) == 0xE081
    ensures Power(1024) == 0x6800
    ensures Power(2048) == 0x2880
    ensures Power(4096) == 0xA881
    ensures Power(8192) == 0x4880
    ensures Power(16384) == 0x8081
    ensures Power(32768) == 0x4000
  {
    hide *;
    SmallPowers();
    Squares0();
    Squares1();
    Squares2();
    Squares3();
    PowerTimes(8, 8);
    PowerTimes(16, 16);
    PowerTimes(32, 32);
    PowerTimes(64, 64);
    PowerTimes(128, 128);
    PowerTimes(256, 256);
    PowerTimes(512, 512);
    PowerTimes(1024, 1024);
    PowerTimes(2048, 2048);
    PowerTimes(4096, 4096);
    PowerTimes(8192, 8192);
    PowerTimes(16384, 16384);
  }

  lemma Power4681()
    ensures Power(4681) == 0x8C69
  {
    hide *;
    SmallPowers();
    TwoPowers();
    Products4681();
    PowerTimes(4096, 512);
    PowerTimes(4608, 64);
    PowerTimes(4672, 8);
    PowerTimes(4680, 1);
  }

  lemma Power1057()
    ensures Power(1057) == 0xCE41
  {
    hide *;
    SmallPowers();
    TwoPowers();
    Products1057();
    PowerTimes(1024, 32);
    PowerTimes(1056, 1);
  }

  lemma Power217()
    ensures Power(217) == 0x3E55
  {
    hide *;
    SmallPowers();
    TwoPowers();
    Products217();
    PowerTimes(128, 64);
    PowerTimes(192, 16);
    PowerTimes(208, 8);
    PowerTimes(216, 1);
  }

  // ---- The order ----

  const ORDER: nat := 32767

  /** `n` shifts bring the unit back. */
  predicate Returns(n: nat) {
    Power(n) == UNIT
  }

  lemma OrderReturns()
    ensures Returns(ORDER)
  {
    TwoPowers();
    SmallPowers();
    hide Shifts;
    ShiftsAdd(UNIT, 1, ORDER);
    ShiftsAdd(UNIT, ORDER, 1);
    ShiftsInjective(Power(ORDER), UNIT, 1);
  }

  lemma ProperDivisorsDoNot()
    ensures !Returns(4681) && !Returns(1057) && !Returns(217)
  {
    Power4681();
    Power1057();
    Power217();
    hide Power;
  }

  lemma ReturnsSum(m: nat, n: nat)
    requires Returns(m)
    ensures Returns(m + n) <==> Returns(n)
  {
    hide Shifts;
    ShiftsAdd(UNIT, m, n);
  }

  lemma {:induction false} ReturnsMultiple(n: nat, k: nat)
    requires Returns(n)
    ensures Returns(k * n)
    decreases k
  {
    if k == 0 {
      NoShifts();
    } else {
      hide Power;
      ReturnsMultiple(n, k - 1);
      ReturnsSum(n, (k - 1) * n);
      assert k * n == n + (k - 1) * n;
    }
  }

  lemma NoShifts()
    ensures Returns(0)
  {
  }

  /** The least positive number of shifts that brings the unit back. */
  ghost predicate IsOrder(o: nat) {
    0 < o && Returns(o) && forall j: nat | 0 < j < o :: !Returns(j)
  }

  lemma LeastReturn(n: nat) returns (o: nat)
    requires 0 < n && Returns(n)
    ensures IsOrder(o) && o <= n
  {
    hide Returns;
    o := 1;
    while !Returns(o)
      invariant 0 < o <= n && forall j: nat | 0 < j < o :: !Returns(j)
      decreases n - o
    {
      o := o + 1;
    }
  }

  /** It divides every other one. */
  lemma OrderDivides(o: nat, n: nat) returns (h: nat)
    requires IsOrder(o) && Returns(n)
    ensures n == h * o
  {
    hide Returns;
    h := n / o;
    var r := n - h * o;
    assert r == n % o;
    ReturnsMultiple(o, h);
    ReturnsSum(h * o, r);
  }

  // ---- A little number theory ----

  predicate Divides(p: nat, x: int) {
    0 < p && x % p == 0
  }

  lemma Products(p: int, k: int)
    requires 0 < p
    ensures k >= 1 ==> p * k >= p
    ensures k <= -1 ==> p * k <= -p
    ensures p * 0 == 0
  {
    if k >= 1 {
      assert p * (k - 1) >= 0;
    } else if k <= -1 {
      assert p * (-1 - k) >= 0;
    }
  }

  lemma Multiple(p: nat, x: int, k: int)
    requires 0 < p && x == p * k
    ensures Divides(p, x)
  {
    var q, r := x / p, x % p;
    assert p * (k - q) == r;
    Products(p, k - q);
  }

  lemma Quotient(p: nat, x: int) returns (k: int)
    requires Divides(p, x)
    ensures x == p * k
  {
    k := x / p;
  }

  ghost predicate Prime(p: nat) {
    2 <= p && forall r: nat | 2 <= r < p :: !Divides(r, p)
  }

  /** It is enough to look at candidates up to the square root. */
  lemma PrimeBySmallCandidates(p: nat, limit: nat)
    requires 2 <= p < (limit + 1) * (limit + 1) && forall r: nat | 2 <= r <= limit && r < p :: !Divides(r, p)
    ensures Prime(p)
  {
    hide Divides;
    forall r: nat | 2 <= r < p
      ensures !Divides(r, p)
    {
      if Divides(r, p) {
        var c := Cofactor(r, p);
        if limit < r {
          if limit < c {
            AtLeastSquare(limit + 1, r, c);
          }
          Multiple(c, p, r);
        }
      }
    }
  }

  lemma Cofactor(r: nat, p: nat) returns (c: nat)
    requires 2 <= r < p && Divides(r, p)
    ensures p == r * c && p == c * r && 2 <= c < p
  {
    var k := Quotient(r, p);
    Products(r, k);
    Products(r - 1, k);
    assert p == (r - 1) * k + k;
    c := k;
  }

  lemma AtLeastSquare(m: nat, r: nat, c: nat)
    requires m <= r && m <= c
    ensures m * m <= r * c
  {
    assert m * m <= m * c <= r * c;
  }

  lemma SmallPrimes()
    ensures Prime(7) && Prime(31) && Prime(151)
  {
    assert !Divides(2, 7);
    PrimeBySmallCandidates(7, 2);
    assert !Divides(2, 31) && !Divides(3, 31) && !Divides(4, 31) && !Divides(5, 31);
    PrimeBySmallCandidates(31, 5);
    Candidates151();
    hide Divides;
    PrimeBySmallCandidates(151, 12);
  }

  lemma Candidates151()
    ensures forall r: nat | 2 <= r <= 12 :: !Divides(r, 151)
  {
    assert !Divides(2, 151) && !Divides(3, 151) && !Divides(4, 151) && !Divides(5, 151);
    assert !Divides(6, 151) && !Divides(7, 151) && !Divides(8, 151) && !Divides(9, 151);
    assert !Divides(10, 151) && !Divides(11, 151) && !Divides(12, 151);
  }

  /** A prime that divides x * r, for some r below it, divides x: Euclid's descent. */
  lemma {:induction false} Descend(p: nat, x: int, r: nat)
    requires Prime(p) && 0 < r < p && Divides(p, x * r)
    ensures Divides(p, x)
    decreases r
  {
    hide Divides;
    if r == 1 {
      assert x * r == x;
    } else {
      var q, t := DivideBy(p, r);
      var k := Quotient(p, x * r);
      assert x * t == x * p - q * (x * r) by { assert x * p == x * (q * r + t) == q * (x * r) + x * t; }
      assert x * p - q * (p * k) == p * (x - q * k);
      Multiple(p, x * t, x - q * k);
      Descend(p, x, t);
    }
  }

  lemma DivideBy(p: nat, r: nat) returns (q: nat, t: nat)
    requires Prime(p) && 2 <= r < p
    ensures p == q * r + t && 0 < t < r
  {
    q, t := p / r, p % r;
    assert !Divides(r, p);
  }

  lemma Euclid(p: nat, x: int, y: nat)
    requires Prime(p) && Divides(p, x * y) && !Divides(p, y)
    ensures Divides(p, x)
  {
    var q, r := y / p, y % p;
    assert y == p * q + r && 0 < r < p;
    hide Divides;
    var k := Quotient(p, x * y);
    assert x * r == p * (k - x * q) by { assert x * y == p * (x * q) + x * r; }
    Multiple(p, x * r, k - x * q);
    Descend(p, x, r);
  }

  // ---- Together ----

  /** If the order had a cofactor with a prime factor p, then ORDER / p shifts would bring the unit back. */
  lemma NoCommonFactor(o: nat, h: nat, p: nat, rest: nat)
    requires IsOrder(o) && h * o == ORDER && p * rest == ORDER && 0 < p && !Returns(rest)
    ensures !Divides(p, h)
  {
    hide Returns;
    if Divides(p, h) {
      var k := Quotient(p, h);
      assert p * (k * o) == p * rest by { assert p * (k * o) == (p * k) * o; }
      assert k * o == rest;
      Products(p, k);
      ReturnsMultiple(o, k);
    }
  }

  /** The register has order 32767. */
  lemma OrderIs32767(o: nat)
    requires IsOrder(o)
    ensures o == ORDER
  {
    hide Returns, Divides;
    OrderReturns();
    ProperDivisorsDoNot();
    SmallPrimes();
    var h := OrderDivides(o, ORDER);
    NoCommonFactor(o, h, 7, 4681);
    NoCommonFactor(o, h, 31, 1057);
    NoCommonFactor(o, h, 151, 217);
    var a := TakeOut(7, o, h, 4681);
    var b := TakeOut(31, a, h, 151);
    var c := TakeOut(151, b, h, 1);
    CofactorIsOne(c, h);
    assert h * o == o;
  }

  lemma TakeOut(p: nat, x: int, h: nat, rest: nat) returns (y: int)
    requires Prime(p) && x * h == p * rest && !Divides(p, h)
    ensures x == p * y && y * h == rest
  {
    hide Divides;
    Multiple(p, x * h, rest);
    Euclid(p, x, h);
    y := Quotient(p, x);
    assert p * (y * h) == p * rest by { assert (p * y) * h == p * (y * h); }
  }

  lemma CofactorIsOne(c: int, h: nat)
    requires c * h == 1
    ensures h == 1
  {
    if h >= 1 {
      Products(h, c);
    }
  }

  /** Exactly the multiples of 32767 shifts bring the register back. */
  lemma ReturnsExactly(n: nat)
    ensures Returns(n) <==> Divides(ORDER, n)
  {
    hide Returns;
    OrderReturns();
    if Returns(n) {
      var o := LeastReturn(ORDER);
      OrderIs32767(o);
      var h := OrderDivides(o, n);
      Multiple(ORDER, n, h);
    }
    if Divides(ORDER, n) {
      var k := Quotient(ORDER, n);
      assert k >= 0;
      ReturnsMultiple(ORDER, k);
    }
  }

  // ---- Errors of two bits ----

  function Quiet(n: nat): (e: seq<bool>)
    ensures |e| == n && AllFalse(e)
  {
    seq(n, _ => false)
  }

  lemma {:induction false} QuietShifts(x: bv16, n: nat)
    ensures CrcOfBits(x, Quiet(n)) == Shifts(x, n)
    decreases n
  {
    hide Shift, Xor;
    if n > 0 {
      assert Quiet(n)[1..] == Quiet(n - 1);
      XorZero(x);
      QuietShifts(Shift(x), n - 1);
    }
  }

  lemma LowestBit()
    ensures Power(15) == 1
  {
    EightShifts(UNIT);
    ShiftsAdd(UNIT, 8, 7);
    SevenMore();
    hide Shifts;
  }

  lemma SevenMore()
    ensures Shifts(0x0080, 7) == 1
  {
    ShiftsAdd(0x0080, 4, 3);
    assert Shifts(0x0080, 4) == Shifts(Shift4(0x0080), 0);
    assert Shifts(0x0008, 3) == 1;
  }

  /** The register holds 1 again exactly after a multiple of 32767 shifts. */
  lemma BitReturns(d: nat)
    ensures Shifts(1, d) == 1 <==> Divides(ORDER, d)
  {
    LowestBit();
    ReturnsExactly(d);
    hide Shifts, Divides;
    ShiftsAdd(UNIT, 15, d);
    ShiftsAdd(UNIT, d, 15);
    if Shifts(1, d) == 1 {
      ShiftsInjective(Power(d), UNIT, 15);
    }
  }

  /** The pattern of two wrong bits at distance `d`, with correct bits around. */
  function TwoErrors(before: nat, d: nat, after: nat): seq<bool>
    requires 0 < d
  {
    Quiet(before) + ([true] + Quiet(d - 1)) + ([true] + Quiet(after))
  }

  lemma FirstOfTwo(d: nat)
    requires 0 < d
    ensures CrcOfBits(0, [true] + Quiet(d - 1)) == Shifts(1, d)
  {
    hide Shift, Xor;
    FirstError([true] + Quiet(d - 1));
    assert ([true] + Quiet(d - 1))[1..] == Quiet(d - 1);
    QuietShifts(0xA001, d - 1);
    ShiftOfOne();
  }

  lemma ShiftOfOne()
    ensures Shift(1) == 0xA001
  {
  }

  lemma SecondOfTwo(x: bv16, after: nat)
    ensures CrcOfBits(x, [true] + Quiet(after)) == 0 <==> x == 1
  {
    hide Shift, Xor;
    var e := [true] + Quiet(after);
    assert e[1..] == Quiet(after);
    QuietBits(BitStep(x, true), Quiet(after));
    ShiftZero(Xor(x, BitValue(true)));
    XorSame(x, 1);
  }

  lemma TwoErrorsCancel(before: nat, d: nat, after: nat)
    requires 0 < d
    ensures CrcOfBits(0, TwoErrors(before, d, after)) == 0 <==> Divides(ORDER, d)
  {
    hide CrcOfBits, Divides;
    CrcOfBitsConcat(0, Quiet(before) + ([true] + Quiet(d - 1)), [true] + Quiet(after));
    CrcOfBitsConcat(0, Quiet(before), [true] + Quiet(d - 1));
    QuietBits(0, Quiet(before));
    FirstOfTwo(d);
    SecondOfTwo(Shifts(1, d), after);
    BitReturns(d);
  }

  /**
   An error of exactly two bits is detected if and only if their distance is not a multiple of
   32767; so every one within a message of up to 4095 bytes is.
   */
  lemma TwoBitErrorsAreDetected(c: bv16, u: seq<bool>, v: seq<bool>, i: nat, j: nat)
    requires |u| == |v| && i < j < |u| && u[i] != v[i] && u[j] != v[j]
    requires forall k | 0 <= k < |u| && k != i && k != j :: u[k] == v[k]
    ensures CrcOfBits(c, u) != CrcOfBits(c, v) <==> !Divides(ORDER, j - i)
  {
    hide CrcOfBits, Xor, Differences, Divides;
    var e := Differences(u, v);
    assert e == TwoErrors(i, j - i, |u| - j - 1);
    TwoErrorsCancel(i, j - i, |u| - j - 1);
    CrcIsLinear(c, c, u, v);
    XorSame(c, c);
    XorSame(CrcOfBits(c, u), CrcOfBits(c, v));
  }

  lemma {:induction false} NoOnes(e: seq<bool>)
    requires Ones(e) == 0
    ensures AllFalse(e)
    decreases e
  {
    if e != [] {
      NoOnes(e[1..]);
      assert forall i | 0 < i < |e| :: e[i] == e[1..][i - 1];
    }
  }

  lemma {:induction false} OneOne(e: seq<bool>) returns (i: nat)
    requires Ones(e) == 1
    ensures i < |e| && forall k | 0 <= k < |e| :: e[k] <==> k == i
    decreases e
  {
    if e[0] {
      i := 0;
      NoOnes(e[1..]);
      assert forall k | 0 < k < |e| :: e[k] == e[1..][k - 1];
    } else {
      var m := OneOne(e[1..]);
      i := m + 1;
      assert forall k | 0 < k < |e| :: e[k] == e[1..][k - 1];
    }
  }

  lemma {:induction false} TwoOnes(e: seq<bool>) returns (i: nat, j: nat)
    requires Ones(e) == 2
    ensures i < j < |e| && forall k | 0 <= k < |e| :: e[k] <==> k == i || k == j
    decreases e
  {
    assert forall k | 0 < k < |e| :: e[k] == e[1..][k - 1];
    if e[0] {
      var m := OneOne(e[1..]);
      i, j := 0, m + 1;
    } else {
      var m, n := TwoOnes(e[1..]);
      i, j := m + 1, n + 1;
    }
  }

  /** Any one, two or three wrong bits are detected in messages of up to 4095 bytes. */
  lemma UpToThreeErrorsAreDetected(c: bv16, x: seq<bv8>, y: seq<bv8>)
    requires |x| == |y| <= 4095 && 1 <= Ones(Differences(Bits(x), Bits(y))) <= 3
    ensures CrcOf(c, x) != CrcOf(c, y)
  {
    hide CrcOfBits, Bits, Ones, Differences;
    var u, v := Bits(x), Bits(y);
    if Ones(Differences(u, v)) == 2 {
      var i, j := TwoOnes(Differences(u, v));
      ShortDistance(j - i);
      TwoBitErrorsAreDetected(c, u, v, i, j);
    } else {
      OddErrorsAreDetected(c, u, v);
    }
  }

  lemma ShortDistance(d: nat)
    requires 0 < d < ORDER
    ensures !Divides(ORDER, d)
  {
  }
}
