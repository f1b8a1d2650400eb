/**
 EEPROM writes of the platform support package (psp/fsw/shared/cfe_psp_eeprom.c): byte writes
 that read and write back a half-word, half-word writes that read and write back a word, and
 aligned word writes, in the little-endian and the big-endian variant.
 */
module Eeprom {
  import opened Basics

  datatype Code = Success | AddressMisaligned

  // ---- Bytes of words ----

  function Byte0(w: bv32): bv8 { (w & 0xFF) as bv8 }
  function Byte1(w: bv32): bv8 { ((w >> 8) & 0xFF) as bv8 }
  function Byte2(w: bv32): bv8 { ((w >> 16) & 0xFF) as bv8 }
  function Byte3(w: bv32): bv8 { ((w >> 24) & 0xFF) as bv8 }

  function Low8(h: bv16): bv8 { (h & 0xFF) as bv8 }
  function High8(h: bv16): bv8 { ((h >> 8) & 0xFF) as bv8 }

  /** The word with these bytes, least significant first. */
  function MakeWord(b0: bv8, b1: bv8, b2: bv8, b3: bv8): bv32 {
    (b0 as bv32) | ((b1 as bv32) << 8) | ((b2 as bv32) << 16) | ((b3 as bv32) << 24)
  }

  function MakeHalf(b0: bv8, b1: bv8): bv16 {
    (b0 as bv16) | ((b1 as bv16) << 8)
  }

  lemma WordBytes(b0: bv8, b1: bv8, b2: bv8, b3: bv8)
    ensures Byte0(MakeWord(b0, b1, b2, b3)) == b0 && Byte1(MakeWord(b0, b1, b2, b3)) == b1
    ensures Byte2(MakeWord(b0, b1, b2, b3)) == b2 && Byte3(MakeWord(b0, b1, b2, b3)) == b3
  {
  }

  lemma HalfBytes(b0: bv8, b1: bv8)
    ensures Low8(MakeHalf(b0, b1)) == b0 && High8(MakeHalf(b0, b1)) == b1
  {
  }

  // ---- The masks and shifts of the code ----

  function WithHigh16(w: bv32, t: bv16): bv32 { (w & 0x0000FFFF) | ((t as bv32) << 16) }
  function WithLow16(w: bv32, t: bv16): bv32 { (w & 0xFFFF0000) | (t as bv32) }
  function WithHigh8(h: bv16, b: bv8): bv16 { (h & 0x00FF) | ((b as bv16) << 8) }
  function WithLow8(h: bv16, b: bv8): bv16 { (b as bv16) | (h & 0xFF00) }

  lemma High16Bytes(w: bv32, t: bv16)
    ensures Byte0(WithHigh16(w, t)) == Byte0(w) && Byte1(WithHigh16(w, t)) == Byte1(w)
    ensures Byte2(WithHigh16(w, t)) == Low8(t) && Byte3(WithHigh16(w, t)) == High8(t)
  {
  }

  lemma Low16Bytes(w: bv32, t: bv16)
    ensures Byte0(WithLow16(w, t)) == Low8(t) && Byte1(WithLow16(w, t)) == High8(t)
    ensures Byte2(WithLow16(w, t)) == Byte2(w) && Byte3(WithLow16(w, t)) == Byte3(w)
  {
  }

  lemma High8Bytes(h: bv16, b: bv8)
    ensures Low8(WithHigh8(h, b)) == Low8(h) && High8(WithHigh8(h, b)) == b
  {
  }

  lemma Low8Bytes(h: bv16, b: bv8)
    ensures Low8(WithLow8(h, b)) == b && High8(WithLow8(h, b)) == High8(h)
  {
  }

  // ---- Memory as bytes ----

  /** The bytes of a word in the order in which they lie in memory. */
  function InMemory32(w: bv32, little: bool): (s: seq<bv8>)
    ensures |s| == 4
  {
    if little then [Byte0(w), Byte1(w), Byte2(w), Byte3(w)] else [Byte3(w), Byte2(w), Byte1(w), Byte0(w)]
  }

  function InMemory16(h: bv16, little: bool): (s: seq<bv8>)
    ensures |s| == 2
  {
    if little then [Low8(h), High8(h)] else [High8(h), Low8(h)]
  }

  function Load32(m: seq<bv8>, a: nat, little: bool): bv32
    requires a + 4 <= |m|
  {
    if little then MakeWord(m[a], m[a + 1], m[a + 2], m[a + 3]) else MakeWord(m[a + 3], m[a + 2], m[a + 1], m[a])
  }

  function Load16(m: seq<bv8>, a: nat, little: bool): bv16
    requires a + 2 <= |m|
  {
    if little then MakeHalf(m[a], m[a + 1]) else MakeHalf(m[a + 1], m[a])
  }

  lemma LoadedBytes32(m: seq<bv8>, a: nat, little: bool)
    requires a + 4 <= |m|
    ensures InMemory32(Load32(m, a, little), little) == m[a..a + 4]
  {
    hide MakeWord, Byte0, Byte1, Byte2, Byte3;
    if little {
      WordBytes(m[a], m[a + 1], m[a + 2], m[a + 3]);
    } else {
      WordBytes(m[a + 3], m[a + 2], m[a + 1], m[a]);
    }
  }

  lemma LoadedBytes16(m: seq<bv8>, a: nat, little: bool)
    requires a + 2 <= |m|
    ensures InMemory16(Load16(m, a, little), little) == m[a..a + 2]
  {
    hide MakeHalf, Low8, High8;
    if little {
      HalfBytes(m[a], m[a + 1]);
    } else {
      HalfBytes(m[a + 1], m[a]);
    }
  }

  /** Merging a half-word into a loaded word changes its two bytes and keeps the other two. */
  lemma MergedBytes32(w: bv32, t: bv16, second: bool, little: bool)
    ensures var merged := if second == little then WithHigh16(w, t) else WithLow16(w, t);
      InMemory32(merged, little)
        == if second then InMemory32(w, little)[..2] + InMemory16(t, little)
           else InMemory16(t, little) + InMemory32(w, little)[2..]
  {
    hide WithHigh16, WithLow16, Byte0, Byte1, Byte2, Byte3, Low8, High8;
    if second == little {
      High16Bytes(w, t);
    } else {
      Low16Bytes(w, t);
    }
  }

  lemma MergedBytes16(h: bv16, b: bv8, second: bool, little: bool)
    ensures var merged := if second == little then WithHigh8(h, b) else WithLow8(h, b);
      InMemory16(merged, little)
        == if second then [InMemory16(h, little)[0], b] else [b, InMemory16(h, little)[1]]
  {
    hide WithHigh8, WithLow8, Low8, High8;
    if second == little {
      High8Bytes(h, b);
    } else {
      Low8Bytes(h, b);
    }
  }

  lemma EvenAddress(address: nat)
    requires address % 2 == 0
    ensures address % 4 == 0 || address % 4 == 2
  {
  }

  lemma SecondHalf(address: nat)
    requires address % 4 == 2
    ensures address >= 2 && (address - 2) % 4 == 0
  {
  }

  lemma AlignedFits(address: nat, length: nat)
    requires address % 4 == 0 && address < length && length % 4 == 0
    ensures address + 4 <= length
  {
  }

  /** The word that holds an even address starts there or two bytes before, and lies in memory. */
  lemma Alignment(address: nat, length: nat) returns (aligned: nat)
    requires address % 2 == 0 && address < length && length % 4 == 0
    ensures address % 4 == 0 || address % 4 == 2
    ensures aligned % 4 == 0 && aligned + 4 <= length && aligned == if address % 4 == 2 then address - 2 else address
  {
    EvenAddress(address);
    aligned := address;
    if address % 4 == 2 {
      SecondHalf(address);
      aligned := address - 2;
    }
    AlignedFits(aligned, length);
  }

  lemma Doubled(length: nat, k: nat)
    requires length == 2 * k
    ensures length % 2 == 0
  {
  }

  lemma Quadruple(length: nat) returns (k: nat)
    requires length % 4 == 0
    ensures length == 2 * k
  {
    k := 2 * (length / 4);
  }

  lemma EvenLength(length: nat)
    requires length % 4 == 0
    ensures length % 2 == 0
  {
    var k := Quadruple(length);
    Doubled(length, k);
  }

  lemma OddAddress(address: nat)
    requires address % 2 == 1
    ensures address >= 1 && (address - 1) % 2 == 0
  {
  }

  lemma HalfFits(address: nat, length: nat)
    requires address % 2 == 0 && address < length && length % 2 == 0
    ensures address + 2 <= length
  {
  }

  /** The half-word that holds an address starts there or one byte before, and lies in memory. */
  lemma HalfAlignment(address: nat, length: nat) returns (aligned: nat)
    requires address < length && length % 4 == 0
    ensures aligned % 2 == 0 && aligned + 2 <= length && aligned == if address % 2 == 1 then address - 1 else address
  {
    EvenLength(length);
    aligned := address;
    if address % 2 == 1 {
      OddAddress(address);
      aligned := address - 1;
    }
    HalfFits(aligned, length);
  }

  class Memory {
    var bytes: array<bv8>
    const little: bool

    ghost predicate Valid()
      reads this
    {
      bytes.Length % 4 == 0 && bytes.Length <= UINT32_RANGE
    }

    constructor (contents: seq<bv8>, little: bool)
      requires |contents| % 4 == 0 && |contents| <= UINT32_RANGE
      ensures Valid() && this.little == little && fresh(bytes) && bytes[..] == contents
    {
      bytes := new bv8[|contents|](i requires 0 <= i < |contents| => contents[i]);
      this.little := little;
      new;
      assert bytes[..] == contents;
    }

    /** An aligned address gets the word's four bytes; a misaligned one changes nothing. */
    method Write32(address: nat, value: bv32) returns (code: Code)
      requires Valid() && address < bytes.Length
      modifies bytes
      ensures code == if address % 4 == 0 then Success else AddressMisaligned
      ensures bytes[..] == if address % 4 == 0 then Overwrite(old(bytes[..]), address, InMemory32(value, little))
                           else old(bytes[..])
    {
      hide Byte0, Byte1, Byte2, Byte3;
      if address % 4 != 0 {
        return AddressMisaligned;
      }
      var s := InMemory32(value, little);
      bytes[address], bytes[address + 1], bytes[address + 2], bytes[address + 3] := s[0], s[1], s[2], s[3];
      return Success;
    }

    /** Through a word-sized read-modify-write, exactly the two addressed bytes change. */
    method Write16(address: nat, value: bv16) returns (code: Code)
      requires Valid() && address < bytes.Length
      modifies bytes
      ensures code == if address % 2 == 0 then Success else AddressMisaligned
      ensures bytes[..] == if address % 2 == 0 then Overwrite(old(bytes[..]), address, InMemory16(value, little))
                           else old(bytes[..])
    {
      hide InMemory32, InMemory16, Load32, WithHigh16, WithLow16, Overwrite;
      if address % 2 != 0 {
        return AddressMisaligned;
      }
      ghost var aligned := Alignment(address, bytes.Length);
      ghost var m := bytes[..];
      var alignedAddress := address;
      var write32;
      if little {
        if address % 4 >= 2 {
          alignedAddress := address - 2;
          write32 := WithHigh16(Load32(bytes[..], alignedAddress, little), value);
        } else {
          write32 := WithLow16(Load32(bytes[..], alignedAddress, little), value);
        }
      } else {
        if address % 4 >= 2 {
          alignedAddress := address - 2;
          write32 := WithLow16(Load32(bytes[..], alignedAddress, little), value);
        } else {
          write32 := WithHigh16(Load32(bytes[..], alignedAddress, little), value);
        }
      }
      MergeWord(m, alignedAddress, value, address % 4 >= 2, little);
      code := Write32(alignedAddress, write32);
    }

    /** Through nested read-modify-writes, exactly the addressed byte changes. */
    method Write8(address: nat, value: bv8) returns (code: Code)
      requires Valid() && address < bytes.Length
      modifies bytes
      ensures code == Success
      ensures bytes[..] == old(bytes[..])[address := value]
    {
      hide InMemory16, Load16, WithHigh8, WithLow8, Overwrite;
      ghost var m := bytes[..];
      ghost var aligned := HalfAlignment(address, bytes.Length);
      var alignedAddress := address;
      var write16;
      if little {
        if address % 2 == 1 {
          alignedAddress := address - 1;
          write16 := WithHigh8(Load16(bytes[..], alignedAddress, little), value);
        } else {
          write16 := WithLow8(Load16(bytes[..], alignedAddress, little), value);
        }
      } else {
        if address % 2 == 1 {
          alignedAddress := address - 1;
          write16 := WithLow8(Load16(bytes[..], alignedAddress, little), value);
        } else {
          write16 := WithHigh8(Load16(bytes[..], alignedAddress, little), value);
        }
      }
      MergeHalf(m, alignedAddress, value, address % 2 == 1, little);
      code := Write16(alignedAddress, write16);
    }
  }

  lemma StoreAt(m: seq<bv8>, a: nat, s: seq<bv8>, i: nat)
    requires a + |s| <= |m| && i < |m|
    ensures Overwrite(m, a, s)[i] == if a <= i < a + |s| then s[i - a] else m[i]
  {
  }

  /** Storing a word that keeps one half of what is there stores the other half. */
  lemma StoredWithin(m: seq<bv8>, a: nat, t: seq<bv8>, second: bool)
    requires |t| == 2 && a + 4 <= |m|
    ensures Overwrite(m, a, if second then m[a..a + 4][..2] + t else t + m[a..a + 4][2..])
         == Overwrite(m, if second then a + 2 else a, t)
  {
    hide Overwrite;
    var w := if second then m[a..a + 4][..2] + t else t + m[a..a + 4][2..];
    var p := if second then a + 2 else a;
    var x, y := Overwrite(m, a, w), Overwrite(m, p, t);
    forall i | 0 <= i < |m|
      ensures x[i] == y[i]
    {
      StoreAt(m, a, w, i);
      StoreAt(m, p, t, i);
    }
  }

  lemma MergeWord(m: seq<bv8>, a: nat, t: bv16, second: bool, little: bool)
    requires a + 4 <= |m|
    ensures var w := Load32(m, a, little);
      var merged := if second == little then WithHigh16(w, t) else WithLow16(w, t);
      Overwrite(m, a, InMemory32(merged, little)) == Overwrite(m, if second then a + 2 else a, InMemory16(t, little))
  {
    hide InMemory32, InMemory16, Load32, WithHigh16, WithLow16, Overwrite;
    LoadedBytes32(m, a, little);
    StoredWithin(m, a, InMemory16(t, little), second);
    MergedBytes32(Load32(m, a, little), t, second, little);
  }

  lemma MergeHalf(m: seq<bv8>, a: nat, b: bv8, second: bool, little: bool)
    requires a + 2 <= |m|
    ensures var h := Load16(m, a, little);
      var merged := if second == little then WithHigh8(h, b) else WithLow8(h, b);
      Overwrite(m, a, InMemory16(merged, little)) == m[(if second then a + 1 else a) := b]
  {
    hide InMemory16, Load16, WithHigh8, WithLow8;
    LoadedBytes16(m, a, little);
    MergedBytes16(Load16(m, a, little), b, second, little);
  }

  lemma FourBytesStored(m: seq<bv8>, a: nat, s: seq<bv8>)
    requires |s| == 4 && a + 4 <= |m|
    ensures Overwrite(m, a, s) == m[a := s[0]][a + 1 := s[1]][a + 2 := s[2]][a + 3 := s[3]]
  {
    hide Overwrite;
    var x, y := Overwrite(m, a, s), m[a := s[0]][a + 1 := s[1]][a + 2 := s[2]][a + 3 := s[3]];
    forall i | 0 <= i < |m|
      ensures x[i] == y[i]
    {
      StoreAt(m, a, s, i);
    }
  }

  lemma TwoHalvesStored(m: seq<bv8>, a: nat, s: seq<bv8>, t: seq<bv8>)
    requires |s| == 2 && |t| == 2 && a + 4 <= |m|
    ensures Overwrite(m, a, s + t) == Overwrite(Overwrite(m, a, s), a + 2, t)
  {
    hide Overwrite;
    var u := Overwrite(m, a, s);
    var x, y := Overwrite(m, a, s + t), Overwrite(u, a + 2, t);
    forall i | 0 <= i < |m|
      ensures x[i] == y[i]
    {
      StoreAt(m, a, s + t, i);
      StoreAt(m, a, s, i);
      StoreAt(u, a + 2, t, i);
    }
  }

  /** The bytes of a word are those of its two halves. */
  lemma HalvesOfWord(w: bv32, little: bool)
    ensures var lowHalf, highHalf := MakeHalf(Byte0(w), Byte1(w)), MakeHalf(Byte2(w), Byte3(w));
      var first, second := if little then lowHalf else highHalf, if little then highHalf else lowHalf;
      InMemory32(w, little) == InMemory16(first, little) + InMemory16(second, little)
  {
    hide MakeHalf, Low8, High8, Byte0, Byte1, Byte2, Byte3;
    HalfBytes(Byte0(w), Byte1(w));
    HalfBytes(Byte2(w), Byte3(w));
  }

  /** Four byte writes, or two half-word writes, store what one word write stores. */
  lemma WritesCompose(m: seq<bv8>, a: nat, w: bv32, little: bool)
    requires a + 4 <= |m|
    ensures var s := InMemory32(w, little);
      && Overwrite(m, a, s) == m[a := s[0]][a + 1 := s[1]][a + 2 := s[2]][a + 3 := s[3]]
      && var lowHalf, highHalf := MakeHalf(Byte0(w), Byte1(w)), MakeHalf(Byte2(w), Byte3(w));
         var first, second := if little then lowHalf else highHalf, if little then highHalf else lowHalf;
         Overwrite(m, a, s) == Overwrite(Overwrite(m, a, InMemory16(first, little)), a + 2, InMemory16(second, little))
  {
    hide *;
    FourBytesStored(m, a, InMemory32(w, little));
    HalvesOfWord(w, little);
    var lowHalf, highHalf := MakeHalf(Byte0(w), Byte1(w)), MakeHalf(Byte2(w), Byte3(w));
    var first, second := if little then lowHalf else highHalf, if little then highHalf else lowHalf;
    TwoHalvesStored(m, a, InMemory16(first, little), InMemory16(second, little));
  }

  /** The byte orders: least significant byte first, or most significant byte first. */
  lemma ByteOrders()
    ensures InMemory32(0x11223344, true) == [0x44, 0x33, 0x22, 0x11] && InMemory32(0x11223344, false) == [0x11, 0x22, 0x33, 0x44]
    ensures InMemory16(0x1122, true) == [0x22, 0x11] && InMemory16(0x1122, false) == [0x11, 0x22]
  {
  }

  /** A word that was written is read back. */
  lemma LoadAfterStore(m: seq<bv8>, a: nat, w: bv32, little: bool)
    requires a + 4 <= |m|
    ensures Load32(Overwrite(m, a, InMemory32(w, little)), a, little) == w
  {
    hide MakeWord, Byte0, Byte1, Byte2, Byte3;
    RebuildWord(w);
  }

  lemma RebuildWord(w: bv32)
    ensures MakeWord(Byte0(w), Byte1(w), Byte2(w), Byte3(w)) == w
  {
  }
}
