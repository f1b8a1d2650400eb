/**
 Object IDs and bit masks of the OSAL stubs (osal/src/ut-stubs/utstub-helpers.c): an ID is an
 index with the object type in its upper half, and one bit of a byte marks an index as live.
 */
module ObjectIds {
  const OBJTYPE_NONE: nat := 0
  const OBJTYPE_QUEUE: nat := 2
  const OBJTYPE_MAX: nat := 13
  const MAX_VALID_PER_TYPE: nat := 16
  const MAX_IDS: nat := 128

  // ---- IDs ----

  /** Puts an index into the ID range of its type. */
  function ObjIdFixup(val: bv32, objType: bv32): (id: bv32) {
    val | ((0x4000 | objType) << 16)
  }

  function IndexOf(id: bv32): (i: nat) {
    (id & 0xFFFF) as nat
  }

  function TypeOf(id: bv32): (t: nat) {
    ((id >> 16) ^ 0x4000) as nat
  }

  lemma NextIndex(x: bv7)
    requires x < 127
    ensures (x + 1) as nat == x as nat + 1 && ((x + 1) as nat) as bv7 == x + 1
  {
  }

  lemma {:induction false} IndexValue(n: nat)
    requires n < 128
    ensures (n as bv7) as nat == n
  {
    if n > 0 {
      IndexValue(n - 1);
      NextIndex((n - 1) as bv7);
    }
  }

  lemma TypeValue(t: nat)
    requires t < 16
    ensures (t as bv4) as nat == t
  {
  }

  lemma FixupIndex(x: bv7, y: bv4)
    ensures ObjIdFixup(x as bv32, y as bv32) & 0xFFFF == x as bv32
  {
  }

  lemma FixupType(x: bv7, y: bv4)
    ensures (ObjIdFixup(x as bv32, y as bv32) >> 16) ^ 0x4000 == y as bv32
  {
  }

  lemma FixupParts(x: bv7, y: bv4)
    ensures IndexOf(ObjIdFixup(x as bv32, y as bv32)) == x as nat
    ensures TypeOf(ObjIdFixup(x as bv32, y as bv32)) == y as nat
  {
    hide ObjIdFixup;
    FixupIndex(x, y);
    FixupType(x, y);
  }

  /** The ID of the object with this number and type. */
  function MakeId(n: nat, t: nat): (id: bv32)
    requires n < 128 && t < 16
  {
    ObjIdFixup(n as bv7 as bv32, t as bv4 as bv32)
  }

  /** The upper half of an ID is 0x4000 plus the type, the lower half is the index. */
  lemma FixupValue(x: bv7, y: bv4)
    ensures ObjIdFixup(x as bv32, y as bv32) == 0x40000000 + (y as bv32) * 0x10000 + x as bv32
  {
  }

  lemma IdValue(n: nat, t: nat)
    requires n < 128 && t < 16
    ensures MakeId(n, t) == 0x40000000 + (t as bv4 as bv32) * 0x10000 + n as bv7 as bv32
  {
    hide ObjIdFixup;
    FixupValue(n as bv7, t as bv4);
  }

  /** What the deletion reads from an ID. */
  lemma IdExamples()
    ensures IndexOf(0x40020001) == 1 && TypeOf(0x40020001) == 2 && IndexOf(0x400C007F) == 127 && TypeOf(0x400C007F) == 12
    ensures TypeOf(0x00020001) == 0x4002
  {
  }

  /** Type and index of every issued ID can be recovered from it, so IDs of different objects differ. */
  lemma IdParts(n: nat, t: nat)
    requires n < 128 && t < 16
    ensures IndexOf(MakeId(n, t)) == n && TypeOf(MakeId(n, t)) == t
  {
    hide ObjIdFixup, IndexOf, TypeOf;
    IndexValue(n);
    TypeValue(t);
    FixupParts(n as bv7, t as bv4);
  }

  // ---- Bits of one byte ----

  /** `1 << j` for a bit number of a byte. */
  function Mask(j: nat): (m: bv8)
    requires j < 8
  {
    match j
    case 0 => 1 case 1 => 2 case 2 => 4 case 3 => 8
    case 4 => 16 case 5 => 32 case 6 => 64 case _ => 128
  }

  predicate TestBit(x: bv8, j: nat)
    requires j < 8
  {
    x & Mask(j) != 0
  }

  lemma ByteBits(x: bv8, j: nat, k: nat)
    requires j < 8 && k < 8
    ensures TestBit(x | Mask(j), k) <==> j == k || TestBit(x, k)
    ensures TestBit(x & !Mask(j), k) <==> j != k && TestBit(x, k)
  {
  }
}
