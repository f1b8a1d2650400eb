/**
 Whole ELF files, described by what they contain: a file that presents given sections and
 symbols, encoded as chapter 4 of the System V ABI prescribes, is loaded by the converter with
 exactly those sections and symbols, and is converted if it holds a table definition and the
 object named there.
 */
module ElfFile {
  import opened Basics
  import opened ElfFields
  import opened ElfReader
  import opened ElfEncode
  import opened ElfAbi
  import opened TableFile
  import opened TableDefinition
  import opened TableConverter

  // ---- Descriptions of files ----

  datatype SectionSpec = SectionSpec(h: SectionHeader, name: seq<Byte>)
  datatype SymbolSpec = SymbolSpec(h: SymbolEntry, name: seq<Byte>)

  /**
   A file: its header, its sections, which of them are the symbol table and the string table of
   symbol names, and its symbols without the first one, which the ABI leaves unused.
   */
  datatype FileSpec = FileSpec(is32: bool, little: bool, header: ElfHeader, sections: seq<SectionSpec>, symtab: nat, strtab: nat,
                               symbols: seq<SymbolSpec>) {
    function Offset(i: nat): nat {
      header.shoff + i * header.shentsize
    }

    function SymbolSize(): nat {
      if is32 then 16 else 24
    }

    predicate Consistent() {
      && header.shnum == |sections| && header.shstrndx < |sections|
      && symtab < |sections| && strtab < |sections| && symbols != []
    }
  }

  /** The sections are where the header says, with their names in the section that it names. */
  ghost predicate PresentsSections(file: seq<Byte>, f: FileSpec)
    requires f.Consistent()
  {
    var names := f.sections[f.header.shstrndx].h.offset;
    && 0 < names
    && forall i | 0 <= i < |f.sections| ::
         && EncodedAt(file, f.Offset(i), SectionMembers(f.is32, f.sections[i].h), f.little)
         && (if f.sections[i].h.name == 0 then f.sections[i].name == []
             else IsTextAt(file, names + f.sections[i].h.name, f.sections[i].name) && |f.sections[i].name| < 127)
  }

  predicate NamedSymtab(s: SectionSpec) {
    s.h.name != 0 && s.h.kind == 2
  }

  predicate NamedStrtab(s: SectionSpec) {
    s.h.name != 0 && s.h.kind == 3
  }

  /** There is one symbol table, it has entries of the regular size, and all offsets are below 2^31. */
  ghost predicate PresentsTables(f: FileSpec)
    requires f.Consistent()
  {
    var y := f.sections[f.symtab].h;
    && NamedSymtab(f.sections[f.symtab]) && (forall i | 0 <= i < |f.sections| && i != f.symtab :: !NamedSymtab(f.sections[i]))
    && y.entsize == f.SymbolSize() && y.size == (|f.symbols| + 1) * f.SymbolSize() && y.offset + y.size <= 0x7FFF_FFFF
    && NamedStrtab(f.sections[f.strtab]) && f.strtab != f.header.shstrndx
    && forall i | f.strtab < i < |f.sections| && i != f.header.shstrndx :: !NamedStrtab(f.sections[i])
  }

  ghost predicate PresentsSymbols(file: seq<Byte>, f: FileSpec)
    requires f.Consistent()
  {
    forall i | 0 <= i < |f.symbols| ::
      var at := f.sections[f.strtab].h.offset + f.symbols[i].h.name;
      && EncodedAt(file, f.sections[f.symtab].h.offset + (i + 1) * f.SymbolSize(), SymbolMembers(f.is32, f.symbols[i].h), f.little)
      && at < 0x8000_0000 && IsTextAt(file, at, f.symbols[i].name) && |f.symbols[i].name| < 60
  }

  ghost predicate Presents(file: seq<Byte>, f: FileSpec) {
    && |file| < 0x8000_0000_0000_0000
    && StartsWith(file, f.is32, f.little, f.header)
    && f.Consistent() && PresentsSections(file, f) && PresentsTables(f) && PresentsSymbols(file, f)
  }

  function ElfIn(file: seq<Byte>, f: FileSpec): Elf {
    Elf(file, f.is32, f.little)
  }

  /** What the program should hold of such a file. */
  function SectionIn(s: SectionSpec): Section {
    Section(s.h.name != 0, s.name, s.h.kind, s.h.addr, s.h.offset, s.h.size, s.h.entsize, s.h.link)
  }

  function SectionsIn(f: FileSpec): (r: seq<Section>)
    ensures |r| == |f.sections| && forall i | 0 <= i < |r| :: r[i] == SectionIn(f.sections[i])
  {
    seq(|f.sections|, i requires 0 <= i < |f.sections| => SectionIn(f.sections[i]))
  }

  function SymbolIn(s: SymbolSpec): Symbol {
    Symbol(s.name, s.h.value, s.h.size, s.h.shndx)
  }

  function SymbolsIn(f: FileSpec): (r: seq<Symbol>)
    ensures |r| == |f.symbols| && forall i | 0 <= i < |r| :: r[i] == SymbolIn(f.symbols[i])
  {
    seq(|f.symbols|, i requires 0 <= i < |f.symbols| => SymbolIn(f.symbols[i]))
  }

  // ---- Loading ----

  lemma EncodedFits(file: seq<Byte>, off: nat, is32: bool, h: SectionHeader, little: bool)
    requires EncodedAt(file, off, SectionMembers(is32, h), little)
    ensures off + SizeOf(Shdr(is32)) <= |file|
  {
    hide EncodeAll, Small;
    SectionOffsets(is32, h);
  }

  lemma SectionIsThere(file: seq<Byte>, f: FileSpec, i: nat)
    requires Presents(file, f) && i < |f.sections|
    ensures var e := ElfIn(file, f); HasSection(e, i) && SectionOffset(e, i) == f.Offset(i)
  {
    hide EncodedAt, GabiField, SizeOf, UInt64, IsTextAt, PresentsTables, PresentsSymbols, StartsWith;
    HeaderRoundTrip(file, f.is32, f.little, f.header);
    EncodedFits(file, f.Offset(i), f.is32, f.sections[i].h, f.little);
  }

  lemma NamesAreThere(file: seq<Byte>, f: FileSpec)
    requires Presents(file, f)
    ensures var e := ElfIn(file, f);
      && HasHeader(e) && HeaderField(e, E_SHSTRNDX) == f.header.shstrndx && HeaderField(e, E_SHNUM) == |f.sections|
      && HasSection(e, f.header.shstrndx) && SectionNamesAt(e) == f.sections[f.header.shstrndx].h.offset
  {
    hide EncodedAt, SectionOffset, HeaderField, SectionField, HasSection, IsTextAt, PresentsTables, PresentsSymbols, StartsWith;
    var e, k := ElfIn(file, f), f.header.shstrndx;
    HeaderRoundTrip(file, f.is32, f.little, f.header);
    SectionIsThere(file, f, k);
    SectionRoundTrip(e, 0, k, f.sections[k].h);
    NamelessSection(e, k, true);
  }

  lemma SeekIsPlain(at: nat, here: nat)
    requires at < INT64_RANGE
    ensures SeekOrStay(at, INT64_RANGE, here) == at
  {
  }

  /** Each section is read as it was described. */
  lemma SectionIsRead(file: seq<Byte>, f: FileSpec, i: nat)
    requires Presents(file, f) && i < |f.sections|
    ensures var e := ElfIn(file, f);
      && HasHeader(e) && HasSection(e, HeaderField(e, E_SHSTRNDX)) && HasSection(e, i)
      && SectionOf(e, SectionNamesAt(e), i) == SectionIn(f.sections[i])
  {
    hide EncodedAt, SectionOffset, HeaderField, HasSection, PresentsTables, PresentsSymbols, StartsWith, SizeOf, NameFrom, SeekOrStay,
      SectionField, HasHeader, SectionNamesAt, IsTextAt, GabiField;
    var e, names, s := ElfIn(file, f), f.sections[f.header.shstrndx].h.offset, f.sections[i];
    NamesAreThere(file, f);
    SectionIsThere(file, f, i);
    SectionRoundTrip(e, names, i, s.h);
    if s.h.name != 0 {
      TextIsInside(file, names + s.h.name, s.name);
      SeekIsPlain(names + s.h.name, SectionOffset(e, i) + SizeOf(Shdr(e.is32)));
      NameIsText(file, names + s.h.name, SECTION_NAME_MAX, s.name);
    }
  }

  lemma TextIsInside(file: seq<Byte>, at: nat, name: seq<Byte>)
    requires IsTextAt(file, at, name)
    ensures at < |file|
  {
  }

  /** The tables that the program records are the described ones. */
  lemma TablesAreRecorded(f: FileSpec)
    requires f.Consistent() && PresentsTables(f)
    ensures var sections := SectionsIn(f);
      && Divisible(sections)
      && var t := TablesOf(sections, f.header.shstrndx, f.is32);
      && t.strings == f.sections[f.strtab].h.offset
      && t.symtab.numSymbols == |f.symbols|
      && forall i: nat | i < |f.symbols| ::
           && SymbolOffset(t.symtab, i) == f.sections[f.symtab].h.offset + (i + 1) * f.SymbolSize()
           && SymbolOffset(t.symtab, i) + f.SymbolSize() <= 0x7FFF_FFFF
  {
    hide TablesOf, SymbolOffset, SymtabFrom;
    var sections, y := SectionsIn(f), f.sections[f.symtab].h;
    assert Divisible(sections);
    LastSymtabIsRecorded(sections, f.header.shstrndx, f.is32, f.symtab);
    assert IsLastStrings(sections, f.header.shstrndx, f.strtab);
    LastStringsAreRecorded(sections, f.header.shstrndx, f.is32, f.strtab);
    LoopVisitsSymbolsOneToLast(y.offset, |f.symbols| + 1, f.is32);
  }

  /** Each symbol is read as it was described. */
  lemma SymbolIsRead(file: seq<Byte>, f: FileSpec, i: nat)
    requires Presents(file, f) && i < |f.symbols|
    ensures var e := ElfIn(file, f);
      && Divisible(SectionsIn(f))
      && var t := TablesOf(SectionsIn(f), f.header.shstrndx, f.is32);
      && Readable(t.symtab, i, f.is32, |file|) && SymbolAt(e, t, i) == SymbolIn(f.symbols[i])
  {
    hide EncodedAt, PresentsSections, PresentsTables, StartsWith, NameFrom, SeekOrStay, TablesOf, SymbolOffset, GabiField, IsTextAt;
    TablesAreRecorded(f);
    var e, s := ElfIn(file, f), f.symbols[i];
    var t := TablesOf(SectionsIn(f), f.header.shstrndx, f.is32);
    var off := SymbolOffset(t.symtab, i);
    SymbolFits(file, off, f.is32, s.h, f.little);
    SymbolRoundTrip(e, t, i, s.h);
    NameIsText(file, t.strings + s.h.name, NAME_MAX, s.name);
    SeekStays(t.strings + s.h.name, off + SizeOf(Sym(e.is32)));
  }

  lemma SymbolFits(file: seq<Byte>, off: nat, is32: bool, h: SymbolEntry, little: bool)
    requires EncodedAt(file, off, SymbolMembers(is32, h), little)
    ensures off + SizeOf(Sym(is32)) <= |file| && SizeOf(Sym(is32)) == if is32 then 16 else 24
  {
    hide EncodeAll, Small;
    SymbolOffsets(is32, h);
  }

  /** A file that presents sections and symbols is loaded with exactly those. */
  lemma PresentedFileLoads(file: seq<Byte>, f: FileSpec)
    requires Presents(file, f)
    ensures Loaded(ElfIn(file, f), SectionsIn(f), SymbolsIn(f))
  {
    hide Presents, HasHeader, HeaderField, HasSection, SectionOf, SectionNamesAt, TablesOf, Readable, SymbolAt, Divisible, SymbolOffset;
    var e, sections, symbols := ElfIn(file, f), SectionsIn(f), SymbolsIn(f);
    SomeSections(file, f);
    NamesAreThere(file, f);
    TablesAreRecorded(f);
    forall i: nat | i < |sections|
      ensures HasSection(e, i) && sections[i] == SectionOf(e, SectionNamesAt(e), i)
    {
      SectionIsRead(file, f, i);
    }
    var t := TablesOf(sections, f.header.shstrndx, f.is32);
    forall i: nat | i < |symbols|
      ensures Readable(t.symtab, i, e.is32, |e.file|) && symbols[i] == SymbolAt(e, t, i)
    {
      SymbolIsRead(file, f, i);
    }
  }

  lemma SomeSections(file: seq<Byte>, f: FileSpec)
    requires Presents(file, f)
    ensures f.Consistent() && PresentsTables(f) && f.sections != [] && f.symbols != []
  {
    hide PresentsSections, PresentsTables, PresentsSymbols, StartsWith;
  }

  // ---- The table definition ----

  /** A text in a field of `n` bytes, filled up with zeros. */
  function Padded(text: seq<Byte>, n: nat): (s: seq<Byte>)
    requires |text| <= n
    ensures |s| == n
  {
    text + Zeros(n - |text|)
  }

  predicate TextsSuit(def: FileDef, target: seq<Byte>, fmt: Format) {
    && IsText(def.objectName, 64) && IsText(def.tableName, fmt.nameLen) && IsText(def.description, fmt.descLen) && |target| <= 20
  }

  /** The members of the definition in order: object name, table name, description, target file name. */
  function DefTexts(def: FileDef, target: seq<Byte>, fmt: Format): (s: seq<Byte>)
    requires TextsSuit(def, target, fmt)
    ensures |s| == 84 + fmt.nameLen + fmt.descLen + fmt.descLen % 4
  {
    Padded(def.objectName, 64) + Padded(def.tableName, fmt.nameLen) + Padded(def.description, fmt.descLen + fmt.descLen % 4)
      + Padded(target, 20)
  }

  /** Then, at a multiple of four, the object size. */
  function EncodeDef(def: FileDef, target: seq<Byte>, fmt: Format, little: bool): (s: seq<Byte>)
    requires TextsSuit(def, target, fmt)
  {
    var texts := DefTexts(def, target, fmt);
    texts + Zeros((4 - |texts| % 4) % 4) + Put(def.objectSize, 4, little)
  }

  lemma TextOfPaddedText(text: seq<Byte>, n: nat)
    requires IsText(text, n)
    ensures TextOf(Padded(text, n)) == text
  {
    hide TextOf;
    TextOfPadded(text, Zeros(n - |text|));
  }

  lemma FourTexts(a: seq<Byte>, b: seq<Byte>, c: seq<Byte>, d: seq<Byte>, rest: seq<Byte>)
    ensures var s := a + b + c + d + rest;
      && s[0..|a|] == a && s[|a|..|a| + |b|] == b && s[|a| + |b|..|a| + |b| + |c|] == c
      && s[|a| + |b| + |c| + |d|..] == rest
  {
  }

  lemma SizeIsAligned(n: nat)
    ensures Pad(n, true) == (4 - n % 4) % 4
  {
  }

  /** An encoded definition is read with the texts and the size that were encoded. */
  lemma DefRoundTrip(def: FileDef, target: seq<Byte>, fmt: Format, little: bool)
    requires TextsSuit(def, target, fmt)
    ensures var raw := EncodeDef(def, target, fmt, little);
      |raw| == DefSize(fmt) && DefIn(raw, little, fmt) == def
  {
    hide TextOf, Decode, Put, Zeros, Value;
    var raw, texts := EncodeDef(def, target, fmt, little), DefTexts(def, target, fmt);
    var o, t, d := Padded(def.objectName, 64), Padded(def.tableName, fmt.nameLen), Padded(def.description, fmt.descLen + fmt.descLen % 4);
    var tail := Zeros((4 - |texts| % 4) % 4) + Put(def.objectSize, 4, little);
    SizeIsAligned(|texts|);
    hide Pad;
    assert raw == o + t + d + Padded(target, 20) + tail;
    FourTexts(o, t, d, Padded(target, 20), tail);
    hide Padded, DefTexts;
    TextOfPaddedText(def.objectName, 64);
    TextOfPaddedText(def.tableName, fmt.nameLen);
    TextOfPaddedText(def.description, fmt.descLen + fmt.descLen % 4);
    var f := ObjectSizeField(fmt);
    assert f.off + 4 == |raw|;
    assert Slice(raw, f) == Put(def.objectSize, 4, little);
    FourBytes();
    PutIsRead(def.objectSize, 4, little);
  }

  // ---- Converting ----

  predicate IsBss(name: seq<Byte>) {
    name == [0x2E, 0x62, 0x73, 0x73]
  }

  /** The bytes of the names that the program looks for. */
  lemma NamesLookedFor()
    ensures |BSS| == 4 && forall i | 0 <= i < 4 :: BSS[i] as int == ".bss"[i] as int
    ensures |TBL_DEF_SYMBOL_NAME| == 15 && forall i | 0 <= i < 15 :: TBL_DEF_SYMBOL_NAME[i] as int == "CFE_TBL_FileDef"[i] as int
  {
  }

  /** Where the bytes of a symbol's object are in the file. */
  function Place(f: FileSpec, i: nat): nat
    requires i < |f.symbols| && f.symbols[i].h.shndx < |f.sections|
  {
    f.sections[f.symbols[i].h.shndx].h.offset + f.symbols[i].h.value
  }

  /** Symbol `d`, the last one with the name of a table definition, stands for this definition in the file. */
  ghost predicate Defines(file: seq<Byte>, f: FileSpec, fmt: Format, d: nat, def: FileDef, target: seq<Byte>) {
    && IsDefIndex(SymbolsIn(f), d) && TextsSuit(def, target, fmt)
    && f.symbols[d].h.shndx < |f.sections|
    && var raw := EncodeDef(def, target, fmt, f.little);
    && (f.symbols[d].h.size == 0 || f.symbols[d].h.size == |raw|)
    && Place(f, d) < 0x1_0000_0000 && Place(f, d) + |raw| <= |file| && file[Place(f, d)..Place(f, d) + |raw|] == raw
  }

  /** Symbol `k` is the first one that passes for the wanted name, and its object can be reached. */
  ghost predicate Holds(f: FileSpec, wanted: seq<Byte>, k: nat) {
    && IsObject(SymbolsIn(f), wanted, k)
    && f.symbols[k].h.shndx < |f.sections|
    && (IsBss(f.sections[f.symbols[k].h.shndx].name) || Place(f, k) < 0x1_0000_0000)
  }

  lemma DefinitionIsThere(file: seq<Byte>, f: FileSpec, fmt: Format, d: nat, def: FileDef, target: seq<Byte>)
    requires Defines(file, f, fmt, d, def, target)
    ensures d < |f.symbols|
    ensures HasDef(file, SymbolsIn(f)[d], SectionsIn(f), fmt) && DefOf(file, f.little, SymbolsIn(f)[d], SectionsIn(f), fmt) == def
    ensures ObjectOffset(SymbolsIn(f)[d], SectionsIn(f)) == Place(f, d)
  {
    hide EncodeDef, DefIn, IsDefName, TextsSuit;
    DefRoundTrip(def, target, fmt, f.little);
  }

  /** A file that presents a table definition and the object named there converts, by exactly these. */
  lemma PresentedFileConverts(file: seq<Byte>, f: FileSpec, fmt: Format, d: nat, k: nat, def: FileDef, target: seq<Byte>)
    requires Presents(file, f) && Defines(file, f, fmt, d, def, target) && Holds(f, def.objectName, k)
    ensures Converts(ElfIn(file, f), fmt, SectionsIn(f), SymbolsIn(f), d, k)
  {
    hide Presents, IsObject, IsDefIndex, HasDef, DefOf, Loaded, EncodeDef, TextsSuit;
    PresentedFileLoads(file, f);
    DefinitionIsThere(file, f, fmt, d, def, target);
    KIsInside(f, def.objectName, k);
  }

  lemma KIsInside(f: FileSpec, wanted: seq<Byte>, k: nat)
    requires Holds(f, wanted, k)
    ensures k < |f.symbols| && k < |SymbolsIn(f)| && Seekable(SymbolsIn(f)[k], SectionsIn(f))
  {
    hide NameAccepted;
  }

  /** How many bytes the payload has: in .bss the symbol's size, else the smaller of the two sizes, or the defined one if that is 0. */
  function SizeIn(f: FileSpec, k: nat, def: FileDef): nat
    requires k < |f.symbols| && f.symbols[k].h.shndx < |f.sections|
  {
    var size := f.symbols[k].h.size;
    if IsBss(f.sections[f.symbols[k].h.shndx].name) then size
    else if size == 0 || def.objectSize < size then def.objectSize
    else size
  }

  function PayloadIn(file: seq<Byte>, f: FileSpec, k: nat, def: FileDef): seq<Byte>
    requires k < |f.symbols| && f.symbols[k].h.shndx < |f.sections|
    requires IsBss(f.sections[f.symbols[k].h.shndx].name) || Place(f, k) + SizeIn(f, k, def) <= |file|
  {
    if IsBss(f.sections[f.symbols[k].h.shndx].name) then Zeros(SizeIn(f, k, def))
    else file[Place(f, k)..Place(f, k) + SizeIn(f, k, def)]
  }

  lemma PayloadIsDescribed(file: seq<Byte>, f: FileSpec, k: nat, def: FileDef)
    requires k < |f.symbols| && f.symbols[k].h.shndx < |f.sections|
    requires IsBss(f.sections[f.symbols[k].h.shndx].name) || (Place(f, k) < 0x1_0000_0000 && Place(f, k) + SizeIn(f, k, def) <= |file|)
    ensures var s, sections := SymbolsIn(f)[k], SectionsIn(f);
      && PayloadSize(s, sections, def.objectSize) == SizeIn(f, k, def)
      && PayloadOf(file, s, sections, def.objectSize) == PayloadIn(file, f, k, def)
  {
    hide Chunk, PayloadOf, Zeros;
    var s, sections := SymbolsIn(f)[k], SectionsIn(f);
    if InBss(s, sections) {
      BssPayloadIsZero(file, s, sections, def.objectSize);
    } else {
      PayloadIsSlice(file, s, sections, def.objectSize);
    }
  }

  lemma PresentedEntriesHaveSizes(file: seq<Byte>, f: FileSpec)
    requires Presents(file, f)
    ensures EntriesHaveSizes(ElfIn(file, f))
  {
    hide HasHeader, HeaderField, HasSection, SectionOf, SectionNamesAt, TablesOf, PresentsSections, PresentsSymbols, StartsWith;
    NamesAreThere(file, f);
    forall i: nat | i < |f.sections|
      ensures HasSection(ElfIn(file, f), i) && SectionOf(ElfIn(file, f), SectionNamesAt(ElfIn(file, f)), i) == SectionIn(f.sections[i])
    {
      SectionIsRead(file, f, i);
    }
  }

  lemma PresentedInBounds(file: seq<Byte>, f: FileSpec, fmt: Format, opt: Options, d: nat, k: nat, def: FileDef, target: seq<Byte>)
    requires Presents(file, f) && Defines(file, f, fmt, d, def, target) && Holds(f, def.objectName, k) && TextsFit(fmt, opt, def)
    ensures InBounds(ElfIn(file, f), fmt, opt)
  {
    hide Presents, IsObject, IsDefIndex, HasDef, DefOf, Loaded, EncodeDef, TextsSuit, TextsFit;
    var e := ElfIn(file, f);
    PresentedFileLoads(file, f);
    DefinitionIsThere(file, f, fmt, d, def, target);
    forall sections: seq<Section>, symbols: seq<Symbol>, c: nat | Loaded(e, sections, symbols) && IsDefIndex(symbols, c)
      ensures c < |symbols| && FollowsReferences(e, fmt, opt, sections, symbols, c)
    {
      LoadedUnique(e, sections, symbols, SectionsIn(f), SymbolsIn(f));
      DefUnique(symbols, c, d);
      forall j: nat | IsObject(symbols, def.objectName, j)
        ensures j < |symbols| && symbols[j].shndx < |sections|
      {
        ObjectUnique(symbols, def.objectName, j, k);
        KIsInside(f, def.objectName, k);
      }
    }
  }

  /** A header that the program accepts. */
  predicate Acceptable(f: FileSpec, knownMachine: nat -> bool) {
    f.header.etype <= 4 && knownMachine(f.header.machine) && f.header.version == 1
  }

  /** The file presents everything that is needed, with all bytes of the object in it. */
  ghost predicate Complete(file: seq<Byte>, f: FileSpec, fmt: Format, d: nat, k: nat, def: FileDef, target: seq<Byte>) {
    && Presents(file, f) && Defines(file, f, fmt, d, def, target) && Holds(f, def.objectName, k)
    && HasContent(file, f, k, def)
  }

  predicate HasContent(file: seq<Byte>, f: FileSpec, k: nat, def: FileDef) {
    && k < |f.symbols| && f.symbols[k].h.shndx < |f.sections|
    && (IsBss(f.sections[f.symbols[k].h.shndx].name) || Place(f, k) + SizeIn(f, k, def) <= |file|)
  }

  function Content(file: seq<Byte>, f: FileSpec, k: nat, def: FileDef): seq<Byte> {
    if HasContent(file, f, k, def) then PayloadIn(file, f, k, def) else []
  }

  /** What a table file says about a definition and a payload under given options. */
  predicate Says(p: Parsed, fmt: Format, opt: Options, def: FileDef, payload: seq<Byte>) {
    && p.Parsed? && p.payload == payload
    && |p.fileWords| == 8 && p.fileWords[0] == 0x63464531 && p.fileWords[1] == 8 && p.fileWords[2] == FileHeaderLength(fmt)
    && p.fileWords[3] == (if opt.spacecraft.Some? then opt.spacecraft.value else 0)
    && p.fileWords[4] == (if opt.processor.Some? then opt.processor.value else 0)
    && p.fileWords[5] == (if opt.application.Some? then opt.application.value else 0)
    && p.fileWords[6] == (if opt.timeTag.Some? then opt.timeTag.value else 0) && p.fileWords[7] == 0
    && p.description == (if opt.description.Some? then opt.description.value else def.description)
    && |p.tableWords| == 3 && p.tableWords[0] == 0 && p.tableWords[1] == 0 && p.tableWords[2] == |payload| % 0x1_0000_0000
    && p.tableName == (if opt.tableName.Some? then opt.tableName.value else def.tableName)
  }

  /**
   The whole converter on a described file, in plain terms. For every file that presents sections
   and symbols of either class and encoding, of which one is a table definition and one the
   object that it names, and on hosts of either byte order: the table file that is written holds
   the eight words of the file header, the description, the size, the table name, and the bytes of
   the object.
   */
  method ConvertPresented(file: seq<Byte>, hostLittle: bool, knownMachine: nat -> bool, fmt: Format, opt: Options,
                          ghost f: FileSpec, ghost d: nat, ghost k: nat, ghost def: FileDef, ghost target: seq<Byte>)
    returns (out: seq<Byte>)
    requires Complete(file, f, fmt, d, k, def, target) && Acceptable(f, knownMachine)
    requires FileHeaderLength(fmt) < UINT32_RANGE && TextsFit(fmt, opt, def)
    ensures Says(Parse(out, fmt), fmt, opt, def, Content(file, f, k, def))
  {
    hide Presents, IsObject, IsDefIndex, HasDef, DefOf, Loaded, EncodeDef, TextsSuit, TextsFit, FileHeaderLength, Parse, InBounds,
      EntriesHaveSizes, IdentOk, PayloadSize, PayloadIn, Seekable, Accepted, Wrote;
    ghost var e := ElfIn(file, f);
    PresentedIsAccepted(file, f, knownMachine);
    PresentedEntriesHaveSizes(file, f);
    PresentedInBounds(file, f, fmt, opt, d, k, def, target);
    PresentedFileConverts(file, f, fmt, d, k, def, target);
    var ok; ghost var sections; ghost var symbols; ghost var d0; ghost var k0;
    ok, out, sections, symbols, d0, k0 := Convert(file, hostLittle, knownMachine, fmt, opt);
    PresentedFileLoads(file, f);
    LoadedUnique(e, sections, symbols, SectionsIn(f), SymbolsIn(f));
    DefUnique(symbols, d0, d);
    DefinitionIsThere(file, f, fmt, d, def, target);
    ObjectUnique(symbols, def.objectName, k0, k);
    KIsInside(f, def.objectName, k);
    SizeFieldIsPayloadLength(file, def, fmt, opt, sections, symbols[k], out);
    PayloadIsDescribed(file, f, k, def);
  }

  lemma PresentedIsAccepted(file: seq<Byte>, f: FileSpec, knownMachine: nat -> bool)
    requires Presents(file, f) && f.header.etype <= 4 && knownMachine(f.header.machine) && f.header.version == 1
    ensures Accepted(file, knownMachine) && IdentOk(file) && ElfOf(file) == ElfIn(file, f)
  {
    hide PresentsSections, PresentsTables, PresentsSymbols, StartsWith, GabiField;
    EncodedHeaderIsAccepted(file, f.is32, f.little, f.header, knownMachine);
  }

  /** A table definition has the name itself, or the name after any one character. */
  lemma DefinitionNames(name: seq<Byte>)
    ensures IsDefName(name) <==> name == TBL_DEF_SYMBOL_NAME || (|name| == 16 && name[1..] == TBL_DEF_SYMBOL_NAME)
  {
  }

  // ---- What a file needs to be converted ----

  /** What every file that converts has, in plain terms, for the formats with a 32-byte description and a name of 38 or 40 bytes. */
  lemma ConvertsOnlyIf(e: Elf, nameLen: nat, sections: seq<Section>, symbols: seq<Symbol>, d: nat, k: nat)
    requires (nameLen == 38 || nameLen == 40) && Converts(e, Format(32, nameLen, true), sections, symbols, d, k)
    ensures sections != [] && d < |symbols| && k < |symbols|
    ensures symbols[d].name == TBL_DEF_SYMBOL_NAME || (|symbols[d].name| == 16 && symbols[d].name[1..] == TBL_DEF_SYMBOL_NAME)
    ensures forall i | d < i < |symbols| :: symbols[i].name != TBL_DEF_SYMBOL_NAME
    ensures symbols[d].size == 0 || symbols[d].size == 160
    ensures symbols[d].shndx < |sections| && symbols[k].shndx < |sections|
    ensures var off := (sections[symbols[d].shndx].offset + symbols[d].value) % 0x1_0000_0000_0000_0000;
      off < 0x1_0000_0000 && off + 160 <= |e.file|
    ensures IsBss(sections[symbols[k].shndx].name)
      || (sections[symbols[k].shndx].offset + symbols[k].value) % 0x1_0000_0000_0000_0000 < 0x1_0000_0000
    ensures forall i | 0 <= i < |symbols| :: |symbols[i].name| <= 60
  {
    hide IsSections, TablesOf, HasHeader, HeaderField, HasSection, DefOf, NameAccepted, NameFrom, Readable, SymbolOffset, GabiField;
    DefaultDefSize();
    assert symbols[d].name != [] ==> |symbols[d].name[1..]| == |symbols[d].name| - 1;
  }
}
