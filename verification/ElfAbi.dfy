/**
 Where the converter (tools/elf2cfetbl/elf2cfetbl.c) departs from the "Sections" and "Symbol
 Table" sections of chapter 4 of the System V ABI: which string table holds the names of the
 symbols, and where in the file the bytes of a symbol's object lie. For both, the exact
 conditions under which the code reads what the ABI prescribes.
 */
module ElfAbi {
  import opened Basics
  import opened ElfFields
  import opened ElfReader
  import opened TableFile
  import opened TableDefinition
  import opened TableConverter

  // ---- The names of symbols ----

  /** What the code takes for the string table of symbol names: any named one but that of the section names. */
  predicate IsStrings(s: Section, i: nat, shstrndx: nat) {
    s.named && s.kind == SHT_STRTAB && i != shstrndx
  }

  /** `k` is the last such section. */
  ghost predicate IsLastStrings(sections: seq<Section>, shstrndx: nat, k: nat) {
    && k < |sections| && IsStrings(sections[k], k, shstrndx)
    && forall i | k < i < |sections| :: !IsStrings(sections[i], i, shstrndx)
  }

  lemma {:induction false} LastStringsAreRecorded(sections: seq<Section>, shstrndx: nat, is32: bool, k: nat)
    requires Divisible(sections) && IsLastStrings(sections, shstrndx, k)
    ensures TablesOf(sections, shstrndx, is32).strings == sections[k].offset
    decreases sections
  {
    hide SymtabFrom;
    if k < |sections| - 1 {
      var m := |sections| - 1;
      assert !IsStrings(sections[m], m, shstrndx);
      assert IsLastStrings(sections[..m], shstrndx, k);
      LastStringsAreRecorded(sections[..m], shstrndx, is32, k);
    }
  }

  lemma {:induction false} NoStringsRecorded(sections: seq<Section>, shstrndx: nat, is32: bool)
    requires Divisible(sections) && forall i | 0 <= i < |sections| :: !IsStrings(sections[i], i, shstrndx)
    ensures TablesOf(sections, shstrndx, is32).strings == 0
    decreases sections
  {
    hide SymtabFrom;
    if sections != [] {
      var m := |sections| - 1;
      assert !IsStrings(sections[m], m, shstrndx);
      NoStringsRecorded(sections[..m], shstrndx, is32);
    }
  }

  /** The ABI's string table for symbol table section `y`: the section that its sh_link names. */
  predicate HasLink(sections: seq<Section>, y: nat) {
    y < |sections| && sections[y].link < |sections|
  }

  function LinkedStrings(sections: seq<Section>, y: nat): nat
    requires HasLink(sections, y)
  {
    sections[sections[y].link].offset
  }

  /**
   The code uses the string table that the symbol table links to if and only if that one starts
   where the last named string table starts that is not the one of the section names.
   */
  lemma StringsAreLinkedOnes(sections: seq<Section>, shstrndx: nat, is32: bool, y: nat, k: nat)
    requires Divisible(sections) && HasLink(sections, y) && IsLastStrings(sections, shstrndx, k)
    ensures TablesOf(sections, shstrndx, is32).strings == LinkedStrings(sections, y)
       <==> sections[sections[y].link].offset == sections[k].offset
    ensures sections[y].link == k ==> TablesOf(sections, shstrndx, is32).strings == LinkedStrings(sections, y)
  {
    hide TablesOf;
    LastStringsAreRecorded(sections, shstrndx, is32, k);
  }

  /** A zero-terminated string in the file. */
  ghost predicate IsTextAt(file: seq<Byte>, at: nat, name: seq<Byte>) {
    && at + |name| < |file|
    && file[at..at + |name|] == name && file[at + |name|] == 0 && 0 !in name
  }

  lemma {:induction false} NameIsText(file: seq<Byte>, at: nat, limit: nat, name: seq<Byte>)
    requires IsTextAt(file, at, name) && |name| < limit
    ensures NameFrom(file, at, limit) == name
    decreases name
  {
    if name != [] {
      assert file[at] == name[0] && name[0] in name;
      assert file[at + 1..at + 1 + (|name| - 1)] == name[1..];
      NameIsText(file, at + 1, limit - 1, name[1..]);
    }
  }

  /**
   If the code uses the linked string table, the name that it reads for a symbol is the one
   that the ABI gives it, provided that it has fewer than 60 characters and starts below 2^31.
   */
  lemma NameIsAbiName(e: Elf, t: Tables, index: nat, sections: seq<Section>, y: nat, name: seq<Byte>)
    requires Readable(t.symtab, index, e.is32, |e.file|) && HasLink(sections, y)
    requires t.strings == LinkedStrings(sections, y)
    requires var at := t.strings + e.Get(SymbolOffset(t.symtab, index), Sym(e.is32), ST_NAME);
      at < INT32_RANGE && IsTextAt(e.file, at, name) && |name| < NAME_MAX
    ensures SymbolAt(e, t, index).name == name
  {
    hide NameFrom, IsTextAt, SizeOf, GabiField;
    var at := t.strings + e.Get(SymbolOffset(t.symtab, index), Sym(e.is32), ST_NAME);
    NameIsText(e.file, at, NAME_MAX, name);
    SeekStays(at, SymbolOffset(t.symtab, index) + SizeOf(Sym(e.is32)));
  }

  lemma SeekStays(at: nat, here: nat)
    requires at < INT32_RANGE
    ensures SeekOrStay(at, INT32_RANGE, here) == at
  {
  }

  /** An offset that is negative as a 32-bit number leaves the file where it is. */
  lemma SeekFails(at: nat, here: nat)
    requires 0x8000_0000 <= at < 0x1_0000_0000
    ensures SeekOrStay(at, INT32_RANGE, here) == here
  {
  }

  lemma WideSeekFails(at: nat, here: nat)
    requires 0x8000_0000_0000_0000 <= at < 0x1_0000_0000_0000_0000
    ensures SeekOrStay(at, INT64_RANGE, here) == here
  {
  }

  lemma {:induction false} NoSymtabRecorded(sections: seq<Section>, shstrndx: nat, is32: bool)
    requires Divisible(sections) && forall i | 0 <= i < |sections| :: !(sections[i].named && sections[i].kind == 2)
    ensures TablesOf(sections, shstrndx, is32).symtab.numSymbols == 0
    decreases sections
  {
    if sections != [] {
      NoSymtabRecorded(sections[..|sections| - 1], shstrndx, is32);
    }
  }

  /** Nothing is loaded from a file without a named symbol table section. */
  lemma LoadedHasSymtab(e: Elf, sections: seq<Section>, symbols: seq<Symbol>)
    requires Loaded(e, sections, symbols)
    ensures exists i | 0 <= i < |sections| :: sections[i].named && sections[i].kind == 2
  {
    hide HasHeader, HeaderField, HasSection, IsSections, TablesOf, Readable, SymbolAt;
    if forall i | 0 <= i < |sections| :: !(sections[i].named && sections[i].kind == 2) {
      NoSymtabRecorded(sections, HeaderField(e, E_SHSTRNDX), e.is32);
    }
  }

  /** The conversions between integers, by examples at their limits. */
  lemma Conversions()
    ensures Int32(0x7FFF_FFFF) == 0x7FFF_FFFF && Int32(0x8000_0000) == -0x8000_0000 && Int32(0xFFFF_FFFF) == -1
    ensures Int32(0x1_0000_0005) == 5
    ensures UInt64(-1) == 0xFFFF_FFFF_FFFF_FFFF && UInt64(0x1_0000_0000_0000_0005) == 5 && UInt64(7) == 7
  {
  }

  /** Of a longer name the code keeps the first 60 characters. */
  lemma {:induction false} NameIsCut(file: seq<Byte>, at: nat, limit: nat, name: seq<Byte>)
    requires IsTextAt(file, at, name) && limit <= |name|
    ensures NameFrom(file, at, limit) == name[..limit]
    decreases limit
  {
    if limit > 0 {
      assert file[at] == name[0] && name[0] in name;
      assert file[at + 1..at + 1 + (|name| - 1)] == name[1..];
      NameIsCut(file, at + 1, limit - 1, name[1..]);
      assert name[..limit] == [name[0]] + name[1..][..limit - 1];
    }
  }

  lemma LongNamesAreCut(e: Elf, t: Tables, index: nat, name: seq<Byte>)
    requires Readable(t.symtab, index, e.is32, |e.file|)
    requires var at := t.strings + e.Get(SymbolOffset(t.symtab, index), Sym(e.is32), ST_NAME);
      at < INT32_RANGE && IsTextAt(e.file, at, name) && 60 <= |name|
    ensures SymbolAt(e, t, index).name == name[..60]
  {
    hide NameFrom, IsTextAt, SizeOf, GabiField;
    var at := t.strings + e.Get(SymbolOffset(t.symtab, index), Sym(e.is32), ST_NAME);
    NameIsCut(e.file, at, 60, name);
    SeekStays(at, SymbolOffset(t.symtab, index) + SizeOf(Sym(e.is32)));
  }

  const SYMBOLS: Section := Section(true, [], SHT_SYMTAB, 0, 0x100, 0x30, 0x18, 1)
  const LINKED: Section := Section(true, [], SHT_STRTAB, 0, 0x200, 0x20, 0, 0)
  const OTHER_STRINGS: Section := Section(true, [], SHT_STRTAB, 0, 0x300, 0x20, 0, 0)

  /** A symbol table that links to the first of two string tables: the code uses the second. */
  lemma OtherStringsCanBeUsed()
    ensures var sections := [SYMBOLS, LINKED, OTHER_STRINGS];
      && Divisible(sections) && HasLink(sections, 0)
      && LinkedStrings(sections, 0) == 0x200 && TablesOf(sections, 3, false).strings == 0x300
  {
    var sections := [SYMBOLS, LINKED, OTHER_STRINGS];
    assert IsLastStrings(sections, 3, 2);
    LastStringsAreRecorded(sections, 3, false, 2);
  }

  // ---- The bytes of objects ----

  const ET_REL: nat := 1

  /**
   Where the ABI puts the bytes of a symbol's object: in a relocatable file st_value is an offset
   in the section, in the other types of files an address, as is the section's sh_addr.
   */
  function DesignatedOffset(eType: nat, s: Symbol, sections: seq<Section>): nat
    requires s.shndx < |sections|
  {
    var sec := sections[s.shndx];
    UInt64(if eType == ET_REL then sec.offset + s.value else sec.offset + s.value - sec.addr)
  }

  lemma SameRemainder(x: int, a: nat)
    requires a < UINT64_RANGE && UInt64(x) == UInt64(x - a)
    ensures a == 0
  {
    var p, q := x / UINT64_RANGE, (x - a) / UINT64_RANGE;
    assert x == p * UINT64_RANGE + UInt64(x) && x - a == q * UINT64_RANGE + UInt64(x - a);
    assert a == (p - q) * UINT64_RANGE;
  }

  /**
   The code reads an object where the ABI puts it if and only if the file is relocatable or the
   object's section has address zero.
   */
  lemma ObjectIsWhereDesignated(eType: nat, s: Symbol, sections: seq<Section>)
    requires s.shndx < |sections| && sections[s.shndx].addr < UINT64_RANGE
    ensures ObjectOffset(s, sections) == DesignatedOffset(eType, s, sections)
       <==> eType == ET_REL || sections[s.shndx].addr == 0
  {
    hide UInt64;
    var sec := sections[s.shndx];
    var x := sec.offset + s.value;
    if eType != ET_REL {
      if UInt64(x) == UInt64(x - sec.addr) {
        SameRemainder(x, sec.addr);
      }
    }
  }

  lemma EightBytes()
    ensures Power(8) == UINT64_RANGE
  {
    assert Power(4) == 0x1_0000_0000;
  }

  lemma {:induction false} PowerGrows(j: nat, k: nat)
    requires j <= k
    ensures Power(j) <= Power(k)
    decreases k
  {
    if j < k {
      PowerGrows(j, k - 1);
    }
  }

  /** Fields have at most eight bytes. */
  lemma FieldIsSmall(image: seq<Byte>, st: Struct, j: nat, little: bool)
    requires |image| == SizeOf(st) && j < FieldCount(st)
    ensures FieldOf(image, st, j, little) < UINT64_RANGE
  {
    FieldHasFewBytes(st, j);
    LayoutsAreWellLaid(st);
    hide Layout, Value, Reverse, Power, WellLaid;
    LayoutFits(st);
    var s := Slice(image, Layout(st)[j]);
    ValueBound(s);
    ValueBound(Reverse(s));
    PowerGrows(|s|, 8);
    EightBytes();
  }

  lemma FieldHasFewBytes(st: Struct, j: nat)
    requires j < FieldCount(st)
    ensures j < |Layout(st)| && Layout(st)[j].size <= 8
  {
  }

  /** The addresses of the sections that the program loads are 64-bit numbers. */
  lemma LoadedAddressesAreSmall(e: Elf, sections: seq<Section>, symbols: seq<Symbol>, i: nat)
    requires Loaded(e, sections, symbols) && i < |sections|
    ensures sections[i].addr < UINT64_RANGE
  {
    hide FieldOf, SizeOf, SectionOffset, TablesOf, IsSymbols, NameFrom, SeekOrStay, HeaderField;
    var st, off := Shdr(e.is32), SectionOffset(e, i);
    assert HasSection(e, i) && sections[i] == SectionOf(e, SectionNamesAt(e), i);
    FieldIsSmall(e.file[off..off + SizeOf(st)], st, SH_ADDR, e.little);
  }

  // ---- Together ----

  /**
   For a file that converts, with an object outside .bss: the payload is taken from the place
   that the ABI designates if and only if the file is relocatable or the object's section has
   address zero, and then it consists of the bytes there.
   */
  lemma PayloadIsDesignated(e: Elf, fmt: Format, sections: seq<Section>, symbols: seq<Symbol>, d: nat, k: nat)
    requires Converts(e, fmt, sections, symbols, d, k) && !InBss(symbols[k], sections)
    ensures HasHeader(e)
    ensures var eType, s := HeaderField(e, E_TYPE), symbols[k];
      var n := PayloadSize(s, sections, DefOf(e.file, e.little, symbols[d], sections, fmt).objectSize);
      && (ObjectOffset(s, sections) == DesignatedOffset(eType, s, sections) <==> eType == ET_REL || sections[s.shndx].addr == 0)
      && (eType == ET_REL || sections[s.shndx].addr == 0 ==>
            PayloadOf(e.file, s, sections, DefOf(e.file, e.little, symbols[d], sections, fmt).objectSize)
              == Chunk(e.file, false, DesignatedOffset(eType, s, sections), n))
  {
    hide HasDef, DefOf, NameAccepted, IsDefIndex, Chunk, PayloadSize, ObjectOffset, DesignatedOffset, Seekable, IsSections, IsSymbols,
      TablesOf, HasSection, HeaderField;
    LoadedAddressesAreSmall(e, sections, symbols, symbols[k].shndx);
    ObjectIsWhereDesignated(HeaderField(e, E_TYPE), symbols[k], sections);
  }
}
