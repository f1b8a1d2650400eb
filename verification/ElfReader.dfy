/**
 Reading an ELF object file (tools/elf2cfetbl/elf2cfetbl.c): the header checks, section
 headers and symbols of both classes and both data encodings, on hosts of either byte order,
 and the search for the table object among the symbol names.
 */
module ElfReader {
  import opened Basics
  import opened ElfFields

  // ---- Structures (ELF_Structures.h), fields in the order in which the code swaps them ----

  datatype Struct = Ehdr(is32: bool) | Shdr(is32: bool) | Sym(is32: bool)

  const EHDR32: seq<Field> := [Field(16, 2), Field(18, 2), Field(20, 4), Field(24, 4), Field(28, 4), Field(32, 4),
    Field(36, 4), Field(40, 2), Field(42, 2), Field(44, 2), Field(46, 2), Field(48, 2), Field(50, 2)]
  const EHDR64: seq<Field> := [Field(16, 2), Field(18, 2), Field(20, 4), Field(24, 8), Field(32, 8), Field(40, 8),
    Field(48, 4), Field(52, 2), Field(54, 2), Field(56, 2), Field(58, 2), Field(60, 2), Field(62, 2)]
  const SHDR32: seq<Field> := [Field(0, 4), Field(4, 4), Field(8, 4), Field(12, 4), Field(16, 4), Field(20, 4),
    Field(32, 4), Field(36, 4), Field(24, 4), Field(28, 4)]
  const SHDR64: seq<Field> := [Field(0, 4), Field(4, 4), Field(8, 8), Field(16, 8), Field(24, 8), Field(32, 8),
    Field(48, 8), Field(56, 8), Field(40, 4), Field(44, 4)]
  const SYM32: seq<Field> := [Field(0, 4), Field(4, 4), Field(8, 4), Field(14, 2)]
  const SYM64: seq<Field> := [Field(0, 4), Field(8, 8), Field(16, 8), Field(6, 2)]

  function Layout(st: Struct): seq<Field> {
    match st
    case Ehdr(is32) => if is32 then EHDR32 else EHDR64
    case Shdr(is32) => if is32 then SHDR32 else SHDR64
    case Sym(is32) => if is32 then SYM32 else SYM64
  }

  function SizeOf(st: Struct): nat {
    match st
    case Ehdr(is32) => if is32 then 52 else 64
    case Shdr(is32) => if is32 then 40 else 64
    case Sym(is32) => if is32 then 16 else 24
  }

  // Positions in the layouts.
  const E_TYPE: nat := 0
  const E_MACHINE: nat := 1
  const E_VERSION: nat := 2
  const E_SHOFF: nat := 5
  const E_SHENTSIZE: nat := 10
  const E_SHNUM: nat := 11
  const E_SHSTRNDX: nat := 12
  const SH_NAME: nat := 0
  const SH_TYPE: nat := 1
  const SH_ADDR: nat := 3
  const SH_OFFSET: nat := 4
  const SH_SIZE: nat := 5
  const SH_ENTSIZE: nat := 7
  const SH_LINK: nat := 8
  const ST_NAME: nat := 0
  const ST_VALUE: nat := 1
  const ST_SIZE: nat := 2
  const ST_SHNDX: nat := 3

  lemma Ehdr32WellLaid()
    ensures WellLaid(EHDR32, 52) && |EHDR32| == 13
  {
  }

  lemma Ehdr64WellLaid()
    ensures WellLaid(EHDR64, 64) && |EHDR64| == 13
  {
  }

  lemma EhdrWellLaid(is32: bool)
    ensures WellLaid(Layout(Ehdr(is32)), SizeOf(Ehdr(is32))) && |Layout(Ehdr(is32))| == 13
  {
    hide WellLaid;
    Ehdr32WellLaid();
    Ehdr64WellLaid();
  }

  lemma ShdrWellLaid(is32: bool)
    ensures WellLaid(Layout(Shdr(is32)), SizeOf(Shdr(is32))) && |Layout(Shdr(is32))| == 10
  {
  }

  lemma SymWellLaid(is32: bool)
    ensures WellLaid(Layout(Sym(is32)), SizeOf(Sym(is32))) && |Layout(Sym(is32))| == 4
  {
  }

  function FieldCount(st: Struct): nat {
    match st case Ehdr(_) => 13 case Shdr(_) => 10 case Sym(_) => 4
  }

  lemma LayoutsAreWellLaid(st: Struct)
    ensures WellLaid(Layout(st), SizeOf(st)) && |Layout(st)| == FieldCount(st)
  {
    hide WellLaid;
    match st
    case Ehdr(is32) => EhdrWellLaid(is32);
    case Shdr(is32) => ShdrWellLaid(is32);
    case Sym(is32) => SymWellLaid(is32);
  }

  lemma LayoutFits(st: Struct)
    ensures Fits(Layout(st), SizeOf(st)) && |Layout(st)| == FieldCount(st)
  {
    LayoutsAreWellLaid(st);
  }

  // ---- What the host sees of a structure ----

  /** The memory image of a structure after the code read its bytes and swapped them if required. */
  function HostImage(raw: seq<Byte>, st: Struct, swap: bool): (image: seq<Byte>)
    requires |raw| == SizeOf(st)
    ensures |image| == |raw|
  {
    LayoutsAreWellLaid(st);
    if swap then SwapAll(raw, Layout(st)) else raw
  }

  /** A field of an image in a byte order; the code's accessor functions read in the host's order. */
  function FieldOf(image: seq<Byte>, st: Struct, j: nat, little: bool): (v: nat)
    requires |image| == SizeOf(st) && j < FieldCount(st)
  {
    LayoutsAreWellLaid(st);
    Decode(Slice(image, Layout(st)[j]), little)
  }

  /**
   For both classes, both data encodings and both host byte orders, the host reads from the
   conditionally swapped image the value that the encoding prescribes for the file's bytes.
   */
  lemma HostReadsGabiValue(raw: seq<Byte>, st: Struct, j: nat, fileLittle: bool, hostLittle: bool)
    requires |raw| == SizeOf(st) && j < FieldCount(st)
    ensures FieldOf(HostImage(raw, st, fileLittle != hostLittle), st, j, hostLittle) == FieldOf(raw, st, j, fileLittle)
  {
    hide SwapAll, Decode, Layout, SizeOf, Slice;
    LayoutsAreWellLaid(st);
    if fileLittle != hostLittle {
      SwapAllField(raw, Layout(st), j);
      DecodeReversed(Slice(raw, Layout(st)[j]), hostLittle);
    }
  }

  /** Swapping is an involution, and bytes outside the multi-byte fields keep their place. */
  lemma HostImageProperties(raw: seq<Byte>, st: Struct)
    requires |raw| == SizeOf(st)
    ensures HostImage(HostImage(raw, st, true), st, true) == raw
    ensures forall i: nat | i < |raw| && (forall j | 0 <= j < |Layout(st)| :: !Inside(Layout(st)[j], i)) ::
              HostImage(raw, st, true)[i] == raw[i]
  {
    hide SwapAll, Layout, SizeOf;
    LayoutsAreWellLaid(st);
    SwapAllInvolutive(raw, Layout(st));
    forall i: nat | i < |raw| && (forall j | 0 <= j < |Layout(st)| :: !Inside(Layout(st)[j], i))
      ensures HostImage(raw, st, true)[i] == raw[i]
    {
      SwapAllOutside(raw, Layout(st), i);
    }
  }

  // ---- The swap routines ----

  method SwapElfHeader(b: array<Byte>, is32: bool)
    requires b.Length == SizeOf(Ehdr(is32))
    modifies b
    ensures b[..] == HostImage(old(b[..]), Ehdr(is32), true)
  {
    hide SwapAll, Swapped, Fits;
    ghost var was, fs := b[..], Layout(Ehdr(is32));
    LayoutFits(Ehdr(is32));
    NoneSwapped(was, fs);
    if is32 {
      SwapUInt16(b, 16, was, fs, 0);
      SwapUInt16(b, 18, was, fs, 1);
      SwapUInt32(b, 20, was, fs, 2);
      SwapUInt32(b, 24, was, fs, 3);
      SwapUInt32(b, 28, was, fs, 4);
      SwapUInt32(b, 32, was, fs, 5);
      SwapUInt32(b, 36, was, fs, 6);
      SwapUInt16(b, 40, was, fs, 7);
      SwapUInt16(b, 42, was, fs, 8);
      SwapUInt16(b, 44, was, fs, 9);
      SwapUInt16(b, 46, was, fs, 10);
      SwapUInt16(b, 48, was, fs, 11);
      SwapUInt16(b, 50, was, fs, 12);
    } else {
      SwapUInt16(b, 16, was, fs, 0);
      SwapUInt16(b, 18, was, fs, 1);
      SwapUInt32(b, 20, was, fs, 2);
      SwapUInt64(b, 24, was, fs, 3);
      SwapUInt64(b, 32, was, fs, 4);
      SwapUInt64(b, 40, was, fs, 5);
      SwapUInt32(b, 48, was, fs, 6);
      SwapUInt16(b, 52, was, fs, 7);
      SwapUInt16(b, 54, was, fs, 8);
      SwapUInt16(b, 56, was, fs, 9);
      SwapUInt16(b, 58, was, fs, 10);
      SwapUInt16(b, 60, was, fs, 11);
      SwapUInt16(b, 62, was, fs, 12);
    }
    EachSwapped(b[..], was, fs);
  }

  method SwapSectionHeader(b: array<Byte>, is32: bool)
    requires b.Length == SizeOf(Shdr(is32))
    modifies b
    ensures b[..] == HostImage(old(b[..]), Shdr(is32), true)
  {
    hide SwapAll, Swapped, Fits;
    ghost var was, fs := b[..], Layout(Shdr(is32));
    LayoutFits(Shdr(is32));
    NoneSwapped(was, fs);
    if is32 {
      SwapUInt32(b, 0, was, fs, 0);
      SwapUInt32(b, 4, was, fs, 1);
      SwapUInt32(b, 8, was, fs, 2);
      SwapUInt32(b, 12, was, fs, 3);
      SwapUInt32(b, 16, was, fs, 4);
      SwapUInt32(b, 20, was, fs, 5);
      SwapUInt32(b, 32, was, fs, 6);
      SwapUInt32(b, 36, was, fs, 7);
      SwapUInt32(b, 24, was, fs, 8);
      SwapUInt32(b, 28, was, fs, 9);
    } else {
      SwapUInt32(b, 0, was, fs, 0);
      SwapUInt32(b, 4, was, fs, 1);
      SwapUInt64(b, 8, was, fs, 2);
      SwapUInt64(b, 16, was, fs, 3);
      SwapUInt64(b, 24, was, fs, 4);
      SwapUInt64(b, 32, was, fs, 5);
      SwapUInt64(b, 48, was, fs, 6);
      SwapUInt64(b, 56, was, fs, 7);
      SwapUInt32(b, 40, was, fs, 8);
      SwapUInt32(b, 44, was, fs, 9);
    }
    EachSwapped(b[..], was, fs);
  }

  method SwapSymbol(b: array<Byte>, is32: bool)
    requires b.Length == SizeOf(Sym(is32))
    modifies b
    ensures b[..] == HostImage(old(b[..]), Sym(is32), true)
  {
    hide SwapAll, Swapped, Fits;
    ghost var was, fs := b[..], Layout(Sym(is32));
    LayoutFits(Sym(is32));
    NoneSwapped(was, fs);
    if is32 {
      SwapUInt32(b, 0, was, fs, 0);
      SwapUInt32(b, 4, was, fs, 1);
      SwapUInt32(b, 8, was, fs, 2);
      SwapUInt16(b, 14, was, fs, 3);
    } else {
      SwapUInt32(b, 0, was, fs, 0);
      SwapUInt64(b, 8, was, fs, 1);
      SwapUInt64(b, 16, was, fs, 2);
      SwapUInt16(b, 6, was, fs, 3);
    }
    EachSwapped(b[..], was, fs);
  }

  /** Reads one structure at a file offset; `None` if the file is too short. */
  method ReadStruct(file: seq<Byte>, off: nat, st: Struct, swap: bool) returns (r: Option<seq<Byte>>)
    ensures r.None? <==> off + SizeOf(st) > |file|
    ensures r.Some? ==> r.value == HostImage(file[off..off + SizeOf(st)], st, swap)
  {
    hide SwapAll, Layout, HostImage;
    if off + SizeOf(st) > |file| {
      return None;
    }
    var raw := file[off..off + SizeOf(st)];
    ImageWithoutSwap(raw, st);
    var b := new Byte[SizeOf(st)](i requires 0 <= i < |raw| => raw[i]);
    assert b[..] == raw;
    if swap {
      match st {
        case Ehdr(is32) => SwapElfHeader(b, is32);
        case Shdr(is32) => SwapSectionHeader(b, is32);
        case Sym(is32) => SwapSymbol(b, is32);
      }
    }
    r := Some(b[..]);
  }

  lemma ImageWithoutSwap(raw: seq<Byte>, st: Struct)
    requires |raw| == SizeOf(st)
    ensures HostImage(raw, st, false) == raw
  {
  }

  // ---- The header ----

  const EI_NIDENT: nat := 16

  /** A field of the structure at `off`, as the file's own data encoding gives it. */
  function GabiField(file: seq<Byte>, off: nat, st: Struct, j: nat, fileLittle: bool): (v: nat)
    requires off + SizeOf(st) <= |file| && j < FieldCount(st)
  {
    FieldOf(file[off..off + SizeOf(st)], st, j, fileLittle)
  }

  /** The image is what this host reads as the values of the structure at `off`. */
  ghost predicate Represents(image: seq<Byte>, hostLittle: bool, st: Struct, file: seq<Byte>, off: nat, fileLittle: bool) {
    && |image| == SizeOf(st)
    && off + SizeOf(st) <= |file|
    && forall j: nat | j < FieldCount(st) :: FieldOf(image, st, j, hostLittle) == GabiField(file, off, st, j, fileLittle)
  }

  lemma HostImageRepresents(file: seq<Byte>, off: nat, st: Struct, fileLittle: bool, hostLittle: bool)
    requires off + SizeOf(st) <= |file|
    ensures Represents(HostImage(file[off..off + SizeOf(st)], st, fileLittle != hostLittle), hostLittle, st, file, off, fileLittle)
  {
    hide FieldOf, HostImage, SizeOf, FieldCount;
    var raw := file[off..off + SizeOf(st)];
    var image := HostImage(raw, st, fileLittle != hostLittle);
    forall j: nat | j < FieldCount(st)
      ensures FieldOf(image, st, j, hostLittle) == GabiField(file, off, st, j, fileLittle)
    {
      HostReadsGabiValue(raw, st, j, fileLittle, hostLittle);
    }
  }

  predicate IdentOk(file: seq<Byte>) {
    && |file| >= EI_NIDENT
    && file[0] == 0x7F && file[1] == 0x45 && file[2] == 0x4C && file[3] == 0x46
    && (file[4] == 1 || file[4] == 2)
    && (file[5] == 1 || file[5] == 2)
    && file[6] == 1
  }

  /** The files that the header checks let through. */
  predicate Accepted(file: seq<Byte>, knownMachine: nat -> bool) {
    && IdentOk(file)
    && var st := Ehdr(file[4] == 1);
    && SizeOf(st) <= |file|
    && var little := file[5] == 1;
    && GabiField(file, 0, st, E_TYPE, little) <= 4
    && knownMachine(GabiField(file, 0, st, E_MACHINE, little))
    && GabiField(file, 0, st, E_VERSION, little) == 1
  }

  const INT32_MAX: int := 0x7FFF_FFFF
  const INT64_RANGE: nat := 0x8000_0000_0000_0000
  const UINT64_RANGE: nat := 0x1_0000_0000_0000_0000

  /** Conversion to an unsigned 64-bit integer. */
  function UInt64(x: int): (r: nat)
    ensures r < UINT64_RANGE
    ensures 0 <= x < UINT64_RANGE ==> r == x
  {
    x % UINT64_RANGE
  }

  // ---- Names ----

  const NAME_MAX: nat := 60

  /** A byte as fgetc returns it: 0xFF past the end of the file. */
  function ByteAt(file: seq<Byte>, off: nat): Byte {
    if off < |file| then file[off] else 0xFF
  }

  /** The characters at an offset up to a zero byte, at most `limit` of them. */
  function NameFrom(file: seq<Byte>, off: nat, limit: nat): (name: seq<Byte>)
    ensures |name| <= limit && 0 !in name
    decreases limit
  {
    if limit == 0 then []
    else
      var c := ByteAt(file, off);
      if c == 0 then [] else [c] + NameFrom(file, off + 1, limit - 1)
  }

  lemma {:induction false} NameGrows(file: seq<Byte>, off: nat, i: nat, limit: nat)
    requires |NameFrom(file, off, i)| == i < limit
    ensures ByteAt(file, off + i) == 0 ==> NameFrom(file, off, limit) == NameFrom(file, off, i)
    ensures ByteAt(file, off + i) != 0 ==> NameFrom(file, off, i + 1) == NameFrom(file, off, i) + [ByteAt(file, off + i)]
    decreases i
  {
    if i > 0 {
      NameGrows(file, off + 1, i - 1, limit - 1);
    }
  }

  /** Reads a name character by character. */
  method ReadName(file: seq<Byte>, off: nat, limit: nat) returns (name: seq<Byte>)
    ensures name == NameFrom(file, off, limit)
  {
    name := [];
    var i := 0;
    while i < limit && ByteAt(file, off + i) != 0
      invariant 0 <= i <= limit && |name| == i && name == NameFrom(file, off, i)
    {
      NameGrows(file, off, i, limit);
      name := name + [ByteAt(file, off + i)];
      i := i + 1;
    }
    if i < limit {
      NameGrows(file, off, i, limit);
    }
  }

  // ---- The symbol table ----

  /** What the code records about the symbol table section. */
  datatype Symtab = Symtab(dataOffset: int, entrySize: nat, numSymbols: nat)

  /** What it computes from the section's offset, size and entry size (which must not be zero). */
  function SymtabFrom(shOffset: nat, shSize: nat, shEntsize: nat, is32: bool): (t: Symtab)
    requires 0 < shEntsize
  {
    Symtab(Int32(shOffset + SizeOf(Sym(is32))), shEntsize, UInt64(shSize / shEntsize - 1))
  }

  function SymbolOffset(t: Symtab, index: nat): (off: nat) {
    UInt64(t.dataOffset + index * t.entrySize)
  }

  ghost predicate Readable(t: Symtab, index: nat, is32: bool, fileSize: nat) {
    SymbolOffset(t, index) <= INT32_MAX && SymbolOffset(t, index) + SizeOf(Sym(is32)) <= fileSize
  }

  /**
   For a regular symbol table of n entries whose end fits in a signed 32-bit offset, the loop
   makes n - 1 reads, and read i is of the table's entry i + 1, inside the section.
   */
  lemma LoopVisitsSymbolsOneToLast(shOffset: nat, n: nat, is32: bool)
    requires 0 < n && shOffset + n * SizeOf(Sym(is32)) <= INT32_MAX
    ensures var size := SizeOf(Sym(is32));
      var t := SymtabFrom(shOffset, n * size, size, is32);
      && t.numSymbols == n - 1
      && forall i: nat | i < t.numSymbols ::
           && SymbolOffset(t, i) == shOffset + (i + 1) * size
           && SymbolOffset(t, i) + size <= shOffset + n * size
  {
    var size := SizeOf(Sym(is32));
    Quotient(n, size);
    Monotone(1, n, size);
    var t := SymtabFrom(shOffset, n * size, size, is32);
    forall i: nat | i < n - 1
      ensures SymbolOffset(t, i) == shOffset + (i + 1) * size
      ensures SymbolOffset(t, i) + size <= shOffset + n * size
    {
      Monotone(i + 2, n, size);
      assert (i + 2) * size == size + i * size + size && (i + 1) * size == size + i * size;
    }
  }

  lemma Quotient(n: nat, size: nat)
    requires size == 16 || size == 24
    ensures n * size / size == n
  {
    if size == 16 {
      assert n * 16 / 16 == n;
    } else {
      assert n * 24 / 24 == n;
    }
  }

  lemma Monotone(a: nat, b: nat, size: nat)
    requires a <= b
    ensures a * size <= b * size
  {
  }

  // ---- Sections and symbols, as the file's own encoding gives them ----

  /** An accepted file with its class and data encoding. */
  datatype Elf = Elf(file: seq<Byte>, is32: bool, little: bool) {
    predicate Holds(off: nat, st: Struct) {
      off + SizeOf(st) <= |file|
    }

    function Get(off: nat, st: Struct, j: nat): nat
      requires Holds(off, st) && j < FieldCount(st)
    {
      GabiField(file, off, st, j, little)
    }
  }

  ghost predicate HasHeader(e: Elf) {
    e.Holds(0, Ehdr(e.is32))
  }

  ghost function HeaderField(e: Elf, j: nat): nat
    requires HasHeader(e) && j < 13
  {
    e.Get(0, Ehdr(e.is32), j)
  }

  /** Where the code looks for section header `index`: in 64-bit arithmetic with wrap-around. */
  ghost function SectionOffset(e: Elf, index: nat): nat
    requires HasHeader(e)
  {
    UInt64(HeaderField(e, E_SHOFF) + index * HeaderField(e, E_SHENTSIZE))
  }

  /** The offset is not negative as a signed number, and the header lies in the file. */
  ghost predicate HasSection(e: Elf, index: nat) {
    && HasHeader(e)
    && SectionOffset(e, index) < INT64_RANGE
    && e.Holds(SectionOffset(e, index), Shdr(e.is32))
  }

  ghost function SectionField(e: Elf, index: nat, j: nat): nat
    requires HasSection(e, index) && j < 10
  {
    e.Get(SectionOffset(e, index), Shdr(e.is32), j)
  }

  /**
   A section header; `named` tells whether its name was looked up. The converter uses neither
   the address nor the link.
   */
  datatype Section = Section(named: bool, name: seq<Byte>, kind: nat, addr: nat, offset: nat, size: nat, entsize: nat, link: nat)

  const SHT_SYMTAB: nat := 2
  const SHT_STRTAB: nat := 3
  const SECTION_NAME_MAX: nat := 127

  /** Section `index`, where section names start at `names` in the file (zero: not known). */
  ghost function SectionOf(e: Elf, names: nat, index: nat): (s: Section)
    requires HasSection(e, index)
  {
    var shName := SectionField(e, index, SH_NAME);
    var named := names != 0 && shName != 0;
    var at := SeekOrStay(names + shName, INT64_RANGE, SectionOffset(e, index) + SizeOf(Shdr(e.is32)));
    Section(named, if named then NameFrom(e.file, at, SECTION_NAME_MAX) else [], SectionField(e, index, SH_TYPE),
      SectionField(e, index, SH_ADDR), SectionField(e, index, SH_OFFSET), SectionField(e, index, SH_SIZE),
      SectionField(e, index, SH_ENTSIZE), SectionField(e, index, SH_LINK))
  }

  /** The file position after a seek to an offset kept in a signed integer: a negative one fails and changes nothing. */
  function SeekOrStay(offset: nat, half: nat, here: nat): nat
    requires 0 < half
  {
    if offset % (2 * half) < half then offset % (2 * half) else here
  }

  /** What the code records about the symbol table and the string table of symbol names. */
  datatype Tables = Tables(symtab: Symtab, strings: nat)

  /** A later section of the same kind replaces an earlier one. */
  function Record(t: Tables, s: Section, isShstr: bool, is32: bool): Tables
    requires s.named && s.kind == SHT_SYMTAB ==> 0 < s.entsize
  {
    if s.named && s.kind == SHT_SYMTAB then t.(symtab := SymtabFrom(s.offset, s.size, s.entsize, is32))
    else if s.named && s.kind == SHT_STRTAB && !isShstr then t.(strings := s.offset)
    else t
  }

  const NO_TABLES: Tables := Tables(Symtab(0, 0, 0), 0)

  /** No symbol table section has entries of size zero, by which the code divides. */
  predicate Divisible(sections: seq<Section>) {
    forall i | 0 <= i < |sections| :: sections[i].named && sections[i].kind == SHT_SYMTAB ==> 0 < sections[i].entsize
  }

  function TablesOf(sections: seq<Section>, shstrndx: nat, is32: bool): Tables
    requires Divisible(sections)
    decreases sections
  {
    if sections == [] then NO_TABLES
    else
      var m := |sections| - 1;
      Record(TablesOf(sections[..m], shstrndx, is32), sections[m], m == shstrndx, is32)
  }

  /** What is recorded stems from the last named symbol table section. */
  lemma {:induction false} LastSymtabIsRecorded(sections: seq<Section>, shstrndx: nat, is32: bool, k: nat)
    requires Divisible(sections) && k < |sections|
    requires sections[k].named && sections[k].kind == SHT_SYMTAB
    requires forall i | k < i < |sections| :: !(sections[i].named && sections[i].kind == SHT_SYMTAB)
    ensures TablesOf(sections, shstrndx, is32).symtab
         == SymtabFrom(sections[k].offset, sections[k].size, sections[k].entsize, is32)
    decreases sections
  {
    hide SymtabFrom;
    if k < |sections| - 1 {
      LastSymtabIsRecorded(sections[..|sections| - 1], shstrndx, is32, k);
    }
  }

  const TBL_DEF_SYMBOL_NAME: seq<Byte> :=
    [0x43, 0x46, 0x45, 0x5F, 0x54, 0x42, 0x4C, 0x5F, 0x46, 0x69, 0x6C, 0x65, 0x44, 0x65, 0x66]

  /** The name of the table definition, or that name after one more character. */
  predicate IsDefName(name: seq<Byte>) {
    name == TBL_DEF_SYMBOL_NAME || (name != [] && name[1..] == TBL_DEF_SYMBOL_NAME)
  }

  /** `d` is the last symbol with such a name, or -1 if there is none. */
  predicate IsDefIndex(symbols: seq<Symbol>, d: int) {
    && -1 <= d < |symbols|
    && (0 <= d ==> IsDefName(symbols[d].name))
    && forall i | 0 <= i < |symbols| && d < i :: !IsDefName(symbols[i].name)
  }

  /** A symbol as the accessor functions show it. */
  datatype Symbol = Symbol(name: seq<Byte>, value: nat, size: nat, shndx: nat)

  ghost function SymbolAt(e: Elf, t: Tables, index: nat): (s: Symbol)
    requires Readable(t.symtab, index, e.is32, |e.file|)
  {
    var off, st := SymbolOffset(t.symtab, index), Sym(e.is32);
    var at := SeekOrStay(t.strings + e.Get(off, st, ST_NAME), INT32_RANGE, off + SizeOf(st));
    Symbol(NameFrom(e.file, at, NAME_MAX), e.Get(off, st, ST_VALUE), e.Get(off, st, ST_SIZE), e.Get(off, st, ST_SHNDX))
  }

  /** The sequence of all sections of the file. */
  ghost predicate IsSections(e: Elf, names: nat, sections: seq<Section>) {
    && HasHeader(e) && |sections| == HeaderField(e, E_SHNUM)
    && forall i: nat | i < |sections| :: HasSection(e, i) && sections[i] == SectionOf(e, names, i)
  }

  /** The sequence of all symbols that the loop visits. */
  ghost predicate IsSymbols(e: Elf, t: Tables, symbols: seq<Symbol>) {
    && |symbols| == t.symtab.numSymbols
    && forall i: nat | i < |symbols| :: Readable(t.symtab, i, e.is32, |e.file|) && symbols[i] == SymbolAt(e, t, i)
  }

  // ---- The reader ----

  class Reader {
    const file: seq<Byte>
    const hostLittle: bool
    var is32: bool
    var targetLittle: bool
    var byteSwapRequired: bool
    var header: seq<Byte>
    var sectionNames: nat
    var tables: Tables
    var tblDefSymbol: int

    constructor (file: seq<Byte>, hostLittle: bool)
      ensures this.file == file && this.hostLittle == hostLittle && !byteSwapRequired
      ensures sectionNames == 0 && tables == NO_TABLES && tblDefSymbol == -1
    {
      this.file, this.hostLittle := file, hostLittle;
      is32, targetLittle, byteSwapRequired := true, true, false;
      header, sectionNames, tables, tblDefSymbol := [], 0, NO_TABLES, -1;
    }

    ghost function View(): Elf
      reads this
    {
      Elf(file, is32, targetLittle)
    }

    /** What holds once the header was read: class, encoding and the host's image of the header. */
    ghost predicate HeaderRead()
      reads this
    {
      && IdentOk(file)
      && is32 == (file[4] == 1)
      && targetLittle == (file[5] == 1)
      && byteSwapRequired == (targetLittle != hostLittle)
      && SizeOf(Ehdr(is32)) <= |file|
      && Represents(header, hostLittle, Ehdr(is32), file, 0, targetLittle)
    }

    /** Succeeds exactly on the accepted files, and then every header field has its encoded value. */
    method GetElfHeader(knownMachine: nat -> bool) returns (ok: bool)
      requires !byteSwapRequired
      modifies this`is32, this`targetLittle, this`byteSwapRequired, this`header
      ensures ok <==> Accepted(file, knownMachine)
      ensures ok ==> HeaderRead() && HasHeader(View())
    {
      hide FieldOf, HostImage, SizeOf;
      if |file| < EI_NIDENT {
        return false;
      }
      if file[0] != 0x7F || file[1] != 0x45 || file[2] != 0x4C || file[3] != 0x46 {
        return false;
      }
      if file[4] == 1 {
        is32 := true;
      } else if file[4] == 2 {
        is32 := false;
      } else {
        return false;
      }
      if file[5] == 1 {
        targetLittle := true;
        if !hostLittle {
          byteSwapRequired := true;
        }
      } else if file[5] == 2 {
        targetLittle := false;
        if hostLittle {
          byteSwapRequired := true;
        }
      } else {
        return false;
      }
      if file[6] != 1 {
        return false;
      }
      var st := Ehdr(is32);
      var r := ReadStruct(file, 0, st, byteSwapRequired);
      if r.None? {
        return false;
      }
      header := r.value;
      HostImageRepresents(file, 0, st, targetLittle, hostLittle);
      if FieldOf(header, st, E_TYPE, hostLittle) > 4 {
        return false;
      }
      if !knownMachine(FieldOf(header, st, E_MACHINE, hostLittle)) {
        return false;
      }
      return FieldOf(header, st, E_VERSION, hostLittle) == 1;
    }

    /** Reads a section header, and for a section whose name is looked up the name, and records the tables. */
    method GetSectionHeader(index: nat) returns (r: Option<Section>)
      requires HeaderRead()
      requires HasSection(View(), index) ==>
        var s := SectionOf(View(), sectionNames, index); s.named && s.kind == SHT_SYMTAB ==> 0 < s.entsize
      modifies this`tables
      ensures r.Some? <==> HasSection(View(), index)
      ensures r.Some? ==> r.value == SectionOf(View(), sectionNames, index)
      ensures r.Some? ==> tables == Record(old(tables), r.value, index == HeaderField(View(), E_SHSTRNDX), is32)
    {
      hide FieldOf, GabiField, HostImage, SizeOf, SymtabFrom, SeekOrStay, NameFrom, UInt64;
      var seekOffset := FieldOf(header, Ehdr(is32), E_SHOFF, hostLittle);
      var shentsize := FieldOf(header, Ehdr(is32), E_SHENTSIZE, hostLittle);
      if index > 0 {
        seekOffset := seekOffset + index * shentsize;
      }
      seekOffset := UInt64(seekOffset);
      assert seekOffset == SectionOffset(View(), index);
      if seekOffset >= INT64_RANGE {
        return None;
      }
      var st := Shdr(is32);
      var image := ReadStruct(file, seekOffset, st, byteSwapRequired);
      if image.None? {
        return None;
      }
      HostImageRepresents(file, seekOffset, st, targetLittle, hostLittle);
      var shName := FieldOf(image.value, st, SH_NAME, hostLittle);
      var named, name := false, [];
      if sectionNames != 0 && shName != 0 {
        named := true;
        name := ReadName(file, SeekOrStay(sectionNames + shName, INT64_RANGE, seekOffset + SizeOf(st)), SECTION_NAME_MAX);
      }
      var s := Section(named, name, FieldOf(image.value, st, SH_TYPE, hostLittle), FieldOf(image.value, st, SH_ADDR, hostLittle),
        FieldOf(image.value, st, SH_OFFSET, hostLittle), FieldOf(image.value, st, SH_SIZE, hostLittle),
        FieldOf(image.value, st, SH_ENTSIZE, hostLittle), FieldOf(image.value, st, SH_LINK, hostLittle));
      assert s == SectionOf(View(), sectionNames, index);
      if named && s.kind == SHT_SYMTAB {
        tables := tables.(symtab := SymtabFrom(s.offset, s.size, s.entsize, is32));
      } else if named && s.kind == SHT_STRTAB {
        if index != FieldOf(header, Ehdr(is32), E_SHSTRNDX, hostLittle) {
          tables := tables.(strings := s.offset);
        }
      }
      r := Some(s);
    }

    /** Reads the symbol that the loop calls number `index`, and its name, and notes the table definition. */
    method GetSymbol(index: nat) returns (r: Option<Symbol>)
      requires HeaderRead()
      modifies this`tblDefSymbol
      ensures r.Some? <==> Readable(tables.symtab, index, is32, |file|)
      ensures r.Some? ==> r.value == SymbolAt(View(), tables, index)
      ensures r.Some? ==> tblDefSymbol == if IsDefName(r.value.name) then index else old(tblDefSymbol)
    {
      hide FieldOf, GabiField, HostImage, SizeOf, SeekOrStay, NameFrom;
      var calculated := SymbolOffset(tables.symtab, index);
      var seekOffset := Int32(calculated);
      if UInt64(seekOffset) != calculated || seekOffset < 0 {
        return None;
      }
      var st := Sym(is32);
      var image := ReadStruct(file, seekOffset, st, byteSwapRequired);
      if image.None? {
        return None;
      }
      HostImageRepresents(file, seekOffset, st, targetLittle, hostLittle);
      var at := SeekOrStay(tables.strings + FieldOf(image.value, st, ST_NAME, hostLittle), INT32_RANGE, seekOffset + SizeOf(st));
      var name := ReadName(file, at, NAME_MAX);
      if name == TBL_DEF_SYMBOL_NAME || (name != [] && name[1..] == TBL_DEF_SYMBOL_NAME) {
        tblDefSymbol := index;
      }
      r := Some(Symbol(name, FieldOf(image.value, st, ST_VALUE, hostLittle), FieldOf(image.value, st, ST_SIZE, hostLittle),
        FieldOf(image.value, st, ST_SHNDX, hostLittle)));
    }

    /** The loop of the main program over all section headers. */
    method ReadSections() returns (r: Option<seq<Section>>)
      requires HeaderRead() && tables == NO_TABLES
      requires forall i: nat | i < HeaderField(View(), E_SHNUM) && HasSection(View(), i) ::
        var s := SectionOf(View(), sectionNames, i); s.named && s.kind == SHT_SYMTAB ==> 0 < s.entsize
      modifies this`tables
      ensures r.Some? <==> forall i: nat | i < HeaderField(View(), E_SHNUM) :: HasSection(View(), i)
      ensures r.Some? ==> IsSections(View(), sectionNames, r.value)
      ensures r.Some? ==> Divisible(r.value) && tables == TablesOf(r.value, HeaderField(View(), E_SHSTRNDX), is32)
    {
      hide Represents, IdentOk, HeaderField, HasSection, SectionOf, FieldOf, Record;
      var sections: seq<Section> := [];
      var shnum := HeaderWord(E_SHNUM);
      var i := 0;
      while i < shnum
        invariant 0 <= i <= shnum && |sections| == i
        invariant forall k: nat | k < i :: HasSection(View(), k) && sections[k] == SectionOf(View(), sectionNames, k)
        invariant Divisible(sections)
        invariant tables == TablesOf(sections, HeaderField(View(), E_SHSTRNDX), is32)
      {
        var s := GetSectionHeader(i);
        if s.None? {
          return None;
        }
        assert (sections + [s.value])[..i] == sections;
        sections := sections + [s.value];
        i := i + 1;
      }
      r := Some(sections);
    }

    /** An accessor function applied to the ELF header. */
    method HeaderWord(j: nat) returns (v: nat)
      requires HeaderRead() && j < 13
      ensures HasHeader(View()) && v == HeaderField(View(), j)
    {
      hide FieldOf, GabiField, SizeOf;
      v := FieldOf(header, Ehdr(is32), j, hostLittle);
    }

    /** The loop of the main program over all symbols: all of them, or failure at the first that cannot be read. */
    method ReadSymbols() returns (r: Option<seq<Symbol>>)
      requires HeaderRead() && tblDefSymbol == -1
      modifies this`tblDefSymbol
      ensures r.Some? <==> forall i: nat | i < tables.symtab.numSymbols :: Readable(tables.symtab, i, is32, |file|)
      ensures r.Some? ==> IsSymbols(View(), tables, r.value) && IsDefIndex(r.value, tblDefSymbol)
    {
      hide Represents, IdentOk, SymbolAt, Readable, IsDefName;
      var symbols: seq<Symbol> := [];
      var i := 0;
      while i < tables.symtab.numSymbols
        invariant 0 <= i <= tables.symtab.numSymbols && |symbols| == i
        invariant forall k: nat | k < i ::
          Readable(tables.symtab, k, is32, |file|) && symbols[k] == SymbolAt(View(), tables, k)
        invariant IsDefIndex(symbols, tblDefSymbol)
      {
        var s := GetSymbol(i);
        if s.None? {
          return None;
        }
        symbols := symbols + [s.value];
        i := i + 1;
      }
      r := Some(symbols);
    }
  }

  // ---- The object search ----

  /** The code's name test: the symbol starts with the object name and is at most one character longer. */
  predicate NameAccepted(symbol: seq<Byte>, wanted: seq<Byte>) {
    wanted <= symbol && (|symbol| - |wanted| == 0 || |symbol| - |wanted| == 1)
  }

  /** The test that its comments describe: an extra character must be unprintable. */
  predicate NameIntended(symbol: seq<Byte>, wanted: seq<Byte>) {
    wanted <= symbol && (|symbol| == |wanted| || (|symbol| == |wanted| + 1 && !IsPrint(symbol[|wanted|])))
  }

  predicate IsPrint(c: Byte) {
    0x20 <= c <= 0x7E
  }

  /** The wanted name with one printable character added. */
  predicate PrintableExtra(symbol: seq<Byte>, wanted: seq<Byte>) {
    wanted <= symbol && |symbol| == |wanted| + 1 && IsPrint(symbol[|wanted|])
  }

  /**
   The code looks at the terminating zero instead of the extra character, so it also accepts
   a name with one printable character too many; it agrees with the described test exactly
   on all other names.
   */
  lemma NameTestAgreesUnlessPrintable(symbol: seq<Byte>, wanted: seq<Byte>)
    ensures NameAccepted(symbol, wanted) == NameIntended(symbol, wanted)
       <==> !PrintableExtra(symbol, wanted)
  {
  }

  lemma PrintableExtraIsAccepted()
    ensures NameAccepted([0x41, 0x42], [0x41]) && !NameIntended([0x41, 0x42], [0x41])
  {
  }

  /** `i` is the lowest index that passes a test, or the end if none does. */
  ghost predicate IsLowest(names: seq<seq<Byte>>, test: seq<Byte> -> bool, i: nat) {
    && i <= |names|
    && (i < |names| ==> test(names[i]))
    && forall k: nat | k < i :: !test(names[k])
  }

  /**
   The search finds what the described test would find if and only if no symbol before that
   one is the wanted name with one printable character added.
   */
  lemma SearchAgreesUnlessPrintable(names: seq<seq<Byte>>, wanted: seq<Byte>, found: nat, intended: nat)
    requires IsLowest(names, n => NameAccepted(n, wanted), found)
    requires IsLowest(names, n => NameIntended(n, wanted), intended)
    ensures found == intended <==> forall k: nat | k < intended :: !PrintableExtra(names[k], wanted)
  {
    hide NameAccepted, NameIntended, PrintableExtra;
    forall k: nat | k < |names|
      ensures NameAccepted(names[k], wanted) == (NameIntended(names[k], wanted) || PrintableExtra(names[k], wanted))
    {
      AcceptedIsIntendedOrExtra(names[k], wanted);
    }
  }

  lemma AcceptedIsIntendedOrExtra(symbol: seq<Byte>, wanted: seq<Byte>)
    ensures NameAccepted(symbol, wanted) == (NameIntended(symbol, wanted) || PrintableExtra(symbol, wanted))
  {
  }

  /** The search returns the lowest accepted index, and the number of symbols only if none is accepted. */
  method FindObject(names: seq<seq<Byte>>, wanted: seq<Byte>) returns (i: nat)
    ensures IsLowest(names, n => NameAccepted(n, wanted), i)
  {
    i := 0;
    while i < |names|
      invariant 0 <= i <= |names|
      invariant forall k: nat | k < i :: !NameAccepted(names[k], wanted)
    {
      if wanted <= names[i] {
        if |names[i]| - |wanted| == 1 {
          break;
        } else if |names[i]| - |wanted| == 0 {
          break;
        }
      }
      i := i + 1;
    }
  }
}
