/**
 The conversion of an ELF object into a table file (tools/elf2cfetbl/elf2cfetbl.c): locating
 the user's object, writing the file, and the end-to-end statement that joins the converter
 to the CRC tool.
 */
module TableConverter {
  import opened Basics
  import opened ElfReader
  import opened TableFile
  import opened TableDefinition
  import Crc
  import CrcWords

  // ---- What the converter works on ----

  /** The command-line options that reach the headers. */
  datatype Options = Options(spacecraft: Option<Word>, processor: Option<Word>, application: Option<Word>,
                             timeTag: Option<Word>, description: Option<seq<Byte>>, tableName: Option<seq<Byte>>)

  function OrElse<T>(o: Option<T>, default: T): T {
    if o.Some? then o.value else default
  }

  const BSS: seq<Byte> := [0x2E, 0x62, 0x73, 0x73]

  function Names(symbols: seq<Symbol>): (names: seq<seq<Byte>>)
    ensures |names| == |symbols| && forall i | 0 <= i < |symbols| :: names[i] == symbols[i].name
  {
    seq(|symbols|, i requires 0 <= i < |symbols| => symbols[i].name)
  }

  /** Index `k` is the lowest one whose name passes the name test. */
  predicate IsObject(symbols: seq<Symbol>, wanted: seq<Byte>, k: nat) {
    && k < |symbols|
    && NameAccepted(symbols[k].name, wanted)
    && forall i | 0 <= i < k :: !NameAccepted(symbols[i].name, wanted)
  }

  predicate InBss(s: Symbol, sections: seq<Section>)
    requires s.shndx < |sections|
  {
    sections[s.shndx].name == BSS
  }

  /** The number of payload bytes of an object. */
  function PayloadSize(s: Symbol, sections: seq<Section>, objectSize: nat): (n: nat)
    requires s.shndx < |sections|
    ensures n == s.size || n == objectSize
    ensures InBss(s, sections) ==> n == s.size
    ensures !InBss(s, sections) ==> n <= objectSize && (if s.size == 0 then n == objectSize else n <= s.size)
  {
    if InBss(s, sections) then s.size
    else if s.size == 0 || objectSize < s.size then objectSize
    else s.size
  }

  /** Bytes as the output loops produce them. */
  function Chunk(file: seq<Byte>, zeros: bool, off: nat, n: nat): (p: seq<Byte>)
    ensures |p| == n && forall i: nat | i < n :: p[i] == if zeros then 0 else ByteAt(file, off + i)
  {
    seq(n, i requires 0 <= i => if zeros then 0 else ByteAt(file, off + i))
  }

  /** The payload of an object: zero bytes for .bss, else the bytes of the file from its offset. */
  function PayloadOf(file: seq<Byte>, s: Symbol, sections: seq<Section>, objectSize: nat): (p: seq<Byte>)
    requires s.shndx < |sections|
    ensures |p| == PayloadSize(s, sections, objectSize)
  {
    Chunk(file, InBss(s, sections), ObjectOffset(s, sections), PayloadSize(s, sections, objectSize))
  }

  /** In a long enough file the payload outside .bss is a slice of the file. */
  lemma PayloadIsSlice(file: seq<Byte>, s: Symbol, sections: seq<Section>, objectSize: nat)
    requires s.shndx < |sections| && !InBss(s, sections)
    requires ObjectOffset(s, sections) + PayloadSize(s, sections, objectSize) <= |file|
    ensures PayloadOf(file, s, sections, objectSize)
         == file[ObjectOffset(s, sections)..ObjectOffset(s, sections) + PayloadSize(s, sections, objectSize)]
  {
    hide ObjectOffset, PayloadSize;
    var off, n := ObjectOffset(s, sections), PayloadSize(s, sections, objectSize);
    var p, q := PayloadOf(file, s, sections, objectSize), file[off..off + n];
    forall i: nat | i < n
      ensures p[i] == q[i]
    {
      assert p[i] == ByteAt(file, off + i);
    }
  }

  /** Bytes past the end of the file read as 0xFF. */
  lemma PayloadPastTheEnd(file: seq<Byte>, s: Symbol, sections: seq<Section>, objectSize: nat, i: nat)
    requires s.shndx < |sections| && !InBss(s, sections) && i < PayloadSize(s, sections, objectSize)
    requires |file| <= ObjectOffset(s, sections) + i
    ensures PayloadOf(file, s, sections, objectSize)[i] == 0xFF
  {
    hide ObjectOffset, PayloadSize;
  }

  /** In .bss the payload is as many zero bytes as the symbol says. */
  lemma BssPayloadIsZero(file: seq<Byte>, s: Symbol, sections: seq<Section>, objectSize: nat)
    requires s.shndx < |sections| && InBss(s, sections)
    ensures PayloadOf(file, s, sections, objectSize) == Zeros(s.size)
  {
  }

  /** Whether the offset can be sought: it must fit in 32 bits. */
  predicate Seekable(s: Symbol, sections: seq<Section>)
    requires s.shndx < |sections|
  {
    InBss(s, sections) || ObjectOffset(s, sections) < UINT32_RANGE
  }

  // ---- What the file says ----

  const CONTENT_TYPE: Word := 0x63464531
  const TBL_IMG: Word := 8

  /** The size of the file header structure, whose last member is the description. */
  function FileHeaderLength(fmt: Format): nat {
    32 + fmt.descLen + Pad(fmt.descLen, true)
  }

  function FileWords(fmt: Format, opt: Options): (ws: seq<Word>)
    requires FileHeaderLength(fmt) < UINT32_RANGE
    ensures |ws| == 8
  {
    [CONTENT_TYPE, TBL_IMG, FileHeaderLength(fmt), OrElse(opt.spacecraft, 0), OrElse(opt.processor, 0),
     OrElse(opt.application, 0), OrElse(opt.timeTag, 0), 0]
  }

  function ImageOf(fmt: Format, opt: Options, def: FileDef, payload: seq<Byte>): (im: Image)
    requires FileHeaderLength(fmt) < UINT32_RANGE
  {
    Image(FileWords(fmt, opt), OrElse(opt.description, def.description),
          [0, 0, |payload| % UINT32_RANGE], OrElse(opt.tableName, def.tableName), payload)
  }

  predicate IsText(s: seq<Byte>, capacity: nat) {
    |s| < capacity && 0 !in s
  }

  /** The texts are terminated strings that fit in their fields. */
  predicate TextsFit(fmt: Format, opt: Options, def: FileDef) {
    && IsText(OrElse(opt.description, def.description), fmt.descLen)
    && IsText(OrElse(opt.tableName, def.tableName), fmt.nameLen)
  }

  // ---- The converter ----

  class Converter {
    const source: seq<Byte>
    const fileLittle: bool
    const hostLittle: bool
    const sections: seq<Section>
    var def: FileDef
    var symbols: seq<Symbol>
    var userObject: int
    var allZeros: bool
    var position: nat

    constructor (source: seq<Byte>, fileLittle: bool, hostLittle: bool, sections: seq<Section>, symbols: seq<Symbol>)
      ensures this.source == source && this.fileLittle == fileLittle && this.hostLittle == hostLittle
      ensures this.sections == sections && this.symbols == symbols && !allZeros
    {
      this.source, this.fileLittle, this.hostLittle, this.sections := source, fileLittle, hostLittle, sections;
      this.symbols, userObject, allZeros, position := symbols, -1, false, 0;
      def := FileDef([], 0, [], []);
    }

    /** Reads the definition that symbol `d` stands for. */
    method ReadDefinition(d: nat, fmt: Format) returns (ok: bool)
      requires d < |symbols| && (DefSizeOk(symbols[d], fmt) ==> symbols[d].shndx < |sections|)
      modifies this`def
      ensures ok <==> HasDef(source, symbols[d], sections, fmt)
      ensures ok ==> def == DefOf(source, fileLittle, symbols[d], sections, fmt)
    {
      hide HasDef, DefOf;
      var r := GetTblDefInfo(source, symbols[d], sections, fmt, fileLittle, hostLittle);
      ok := r.Some?;
      if ok {
        def := r.value;
      }
    }

    /**
     Finds the object by name, settles its size and positions the source file. The size is
     changed in the symbol itself; no other symbol changes.
     */
    method LocateAndReadUserObject() returns (ok: bool)
      requires !allZeros
      requires forall k: nat | IsObject(symbols, def.objectName, k) :: symbols[k].shndx < |sections|
      modifies this`symbols, this`userObject, this`allZeros, this`position
      ensures (forall k: nat :: !IsObject(old(symbols), def.objectName, k)) ==> !ok && symbols == old(symbols)
      ensures forall k: nat | IsObject(old(symbols), def.objectName, k) ::
        var s := old(symbols)[k];
        && userObject == k
        && (ok <==> Seekable(s, sections))
        && allZeros == InBss(s, sections)
        && symbols == old(symbols)[k := s.(size := PayloadSize(s, sections, def.objectSize))]
        && (ok && !allZeros ==> position == ObjectOffset(s, sections))
    {
      hide NameAccepted;
      var i := FindObject(Names(symbols), def.objectName);
      if i == |symbols| {
        return false;
      }
      assert IsObject(symbols, def.objectName, i);
      userObject := i;
      var s := symbols[i];
      if sections[s.shndx].name == BSS {
        allZeros := true;
        assert IsObject(old(symbols), def.objectName, i);
        return true;
      }
      var calculated := UInt64(sections[s.shndx].offset + s.value);
      position := calculated % UINT32_RANGE;
      ok := position == calculated;
      if s.size != 0 {
        if s.size != def.objectSize {
          if def.objectSize < s.size {
            symbols := symbols[i := s.(size := def.objectSize)];
          }
        }
      } else {
        symbols := symbols[i := s.(size := def.objectSize)];
      }
    }

    /** The payload that the current state stands for. */
    ghost function Selected(): (p: seq<Byte>)
      reads this
      requires 0 <= userObject < |symbols|
    {
      Chunk(source, allZeros, position, symbols[userObject].size)
    }

    /** Writes the headers and the payload; fails when the size does not fit in the size field. */
    method OutputDataToTargetFile(fmt: Format, opt: Options) returns (ok: bool, out: seq<Byte>)
      requires 0 <= userObject < |symbols|
      requires FileHeaderLength(fmt) < UINT32_RANGE && TextsFit(fmt, opt, def)
      ensures ok <==> symbols[userObject].size < UINT32_RANGE
      ensures Fitting(ImageOf(fmt, opt, def, Selected()), fmt)
      ensures out == Encode(ImageOf(fmt, opt, def, Selected()), fmt)
    {
      hide HeaderFor, Chunk, ImageOf, Encode, TextsFit;
      var size := symbols[userObject].size;
      ok := size % UINT32_RANGE == size;
      out := WriteHeaders(fmt, opt, def, size, hostLittle);
      var payload := WritePayload(size);
      HeadersOf(fmt, opt, def, size, payload);
      out := out + payload;
    }

    /** The two output loops: zeros, or the bytes of the source file from its current position. */
    method WritePayload(size: nat) returns (out: seq<Byte>)
      ensures out == Chunk(source, allZeros, position, size)
    {
      hide Chunk;
      out := [];
      var i := 0;
      if allZeros {
        while i < size
          invariant 0 <= i <= size && out == Chunk(source, true, position, i)
        {
          out := out + [0];
          i := i + 1;
        }
      } else {
        while i < size
          invariant 0 <= i <= size && out == Chunk(source, false, position, i)
        {
          out := out + [ByteAt(source, position + i)];
          i := i + 1;
        }
      }
    }
  }

  /** The headers for a payload of `size` bytes. */
  ghost function HeaderFor(fmt: Format, opt: Options, def: FileDef, size: nat): (h: seq<Byte>)
    requires FileHeaderLength(fmt) < UINT32_RANGE && TextsFit(fmt, opt, def)
  {
    Words(FileWords(fmt, opt)) + TextField(OrElse(opt.description, def.description), fmt.descLen, fmt.align)
      + Words([0, 0, size % UINT32_RANGE]) + TextField(OrElse(opt.tableName, def.tableName), fmt.nameLen, fmt.align)
  }

  lemma HeadersOf(fmt: Format, opt: Options, def: FileDef, size: nat, payload: seq<Byte>)
    requires FileHeaderLength(fmt) < UINT32_RANGE && TextsFit(fmt, opt, def) && |payload| == size
    ensures Fitting(ImageOf(fmt, opt, def, payload), fmt)
    ensures Encode(ImageOf(fmt, opt, def, payload), fmt) == HeaderFor(fmt, opt, def, size) + payload
  {
    hide Words, TextField, OrElse, FileWords, FileHeaderLength;
  }

  /** The header words in host order are swapped on a little-endian host; both hosts write the same bytes. */
  method WriteHeaders(fmt: Format, opt: Options, def: FileDef, size: nat, hostLittle: bool) returns (out: seq<Byte>)
    requires FileHeaderLength(fmt) < UINT32_RANGE && TextsFit(fmt, opt, def)
    ensures out == HeaderFor(fmt, opt, def, size)
  {
    hide Words, TextField, OrElse, FileWords;
    out := WriteFileWords(fmt, opt, hostLittle);
    out := PutText(out, OrElse(opt.description, def.description), fmt.descLen, fmt.align);
    ghost var base, ts: seq<Word> := out, [0, 0, size % UINT32_RANGE];
    NoWords(ts);
    out := PutWord(out, 0, hostLittle, base, ts, 0);
    out := PutWord(out, 0, hostLittle, base, ts, 1);
    out := PutWord(out, size % UINT32_RANGE, hostLittle, base, ts, 2);
    assert ts[..3] == ts;
    out := PutText(out, OrElse(opt.tableName, def.tableName), fmt.nameLen, fmt.align);
  }

  method WriteFileWords(fmt: Format, opt: Options, hostLittle: bool) returns (out: seq<Byte>)
    requires FileHeaderLength(fmt) < UINT32_RANGE
    ensures out == Words(FileWords(fmt, opt))
  {
    hide Words, OrElse, FileHeaderLength;
    ghost var ws := FileWords(fmt, opt);
    NoWords(ws);
    out := [];
    out := PutWord(out, CONTENT_TYPE, hostLittle, [], ws, 0);
    out := PutWord(out, TBL_IMG, hostLittle, [], ws, 1);
    out := PutWord(out, FileHeaderLength(fmt), hostLittle, [], ws, 2);
    out := PutWord(out, OrElse(opt.spacecraft, 0), hostLittle, [], ws, 3);
    out := PutWord(out, OrElse(opt.processor, 0), hostLittle, [], ws, 4);
    out := PutWord(out, OrElse(opt.application, 0), hostLittle, [], ws, 5);
    out := PutWord(out, OrElse(opt.timeTag, 0), hostLittle, [], ws, 6);
    out := PutWord(out, 0, hostLittle, [], ws, 7);
    assert ws[..8] == ws;
  }

  lemma NoWords(ws: seq<Word>)
    ensures Words(ws[..0]) == []
  {
  }

  // ---- From the source file to the table file ----

  ghost function SectionNamesAt(e: Elf): nat
    requires HasHeader(e) && HasSection(e, HeaderField(e, E_SHSTRNDX))
  {
    SectionField(e, HeaderField(e, E_SHSTRNDX), SH_OFFSET)
  }

  /** These are the sections and symbols that the program holds after reading the file. */
  ghost predicate Loaded(e: Elf, sections: seq<Section>, symbols: seq<Symbol>) {
    && HasHeader(e)
    && var shstrndx := HeaderField(e, E_SHSTRNDX);
    && HasSection(e, shstrndx)
    && sections != [] && symbols != []
    && IsSections(e, SectionNamesAt(e), sections)
    && Divisible(sections)
    && IsSymbols(e, TablesOf(sections, shstrndx, e.is32), symbols)
  }

  lemma SectionsUnique(e: Elf, names: nat, s: seq<Section>, t: seq<Section>)
    requires IsSections(e, names, s) && IsSections(e, names, t)
    ensures s == t
  {
    hide HasHeader, HeaderField, HasSection, SectionOf;
  }

  lemma SymbolsUnique(e: Elf, tables: Tables, s: seq<Symbol>, t: seq<Symbol>)
    requires IsSymbols(e, tables, s) && IsSymbols(e, tables, t)
    ensures s == t
  {
    hide Readable, SymbolAt;
  }

  /** The file can be converted: symbol `d` is a good table definition, and symbol `k` the object that it names. */
  ghost predicate Converts(e: Elf, fmt: Format, sections: seq<Section>, symbols: seq<Symbol>, d: nat, k: nat) {
    && Loaded(e, sections, symbols)
    && IsDefIndex(symbols, d)
    && HasDef(e.file, symbols[d], sections, fmt)
    && IsObject(symbols, DefOf(e.file, e.little, symbols[d], sections, fmt).objectName, k)
    && symbols[k].shndx < |sections|
    && Seekable(symbols[k], sections)
  }

  /** No named symbol table section claims entries of size zero. */
  ghost predicate EntriesHaveSizes(e: Elf) {
    HasHeader(e) && HasSection(e, HeaderField(e, E_SHSTRNDX)) ==>
      forall i: nat | i < HeaderField(e, E_SHNUM) && HasSection(e, i) ::
        var s := SectionOf(e, SectionNamesAt(e), i); s.named && s.kind == SHT_SYMTAB ==> 0 < s.entsize
  }

  /**
   What the program takes for granted about the loaded file: the section indices that it
   follows refer to sections, and the texts that it copies end within their fields.
   */
  ghost predicate FollowsReferences(e: Elf, fmt: Format, opt: Options, sections: seq<Section>, symbols: seq<Symbol>, d: nat)
    requires d < |symbols|
  {
    && (DefSizeOk(symbols[d], fmt) ==> symbols[d].shndx < |sections|)
    && (HasDef(e.file, symbols[d], sections, fmt) ==>
          var def := DefOf(e.file, e.little, symbols[d], sections, fmt);
          && TextsFit(fmt, opt, def)
          && forall k: nat | IsObject(symbols, def.objectName, k) :: symbols[k].shndx < |sections|)
  }

  ghost predicate InBounds(e: Elf, fmt: Format, opt: Options) {
    forall sections: seq<Section>, symbols: seq<Symbol>, d: nat | Loaded(e, sections, symbols) && IsDefIndex(symbols, d) ::
      FollowsReferences(e, fmt, opt, sections, symbols, d)
  }

  ghost function ElfOf(file: seq<Byte>): Elf
    requires IdentOk(file)
  {
    Elf(file, file[4] == 1, file[5] == 1)
  }

  ghost predicate Unloadable(e: Elf) {
    forall sections: seq<Section>, symbols: seq<Symbol> :: !Loaded(e, sections, symbols)
  }

  /** The first section header read is not looked up by name, so nothing is recorded from it. */
  lemma NamelessSection(e: Elf, index: nat, isShstr: bool)
    requires HasSection(e, index)
    ensures var s := SectionOf(e, 0, index);
      && !s.named && s.offset == SectionField(e, index, SH_OFFSET)
      && Record(NO_TABLES, s, isShstr, e.is32) == NO_TABLES
  {
    hide HasSection, SectionField, SectionOffset, NameFrom, SeekOrStay, SizeOf;
  }

  /**
   The reading half of the main program: header, section headers, symbols. It succeeds exactly
   when the file has sections and symbols to load, and then has loaded them.
   */
  method Load(reader: Reader, knownMachine: nat -> bool)
    returns (ok: bool, sections: seq<Section>, symbols: seq<Symbol>)
    requires !reader.byteSwapRequired && reader.sectionNames == 0 && reader.tables == NO_TABLES && reader.tblDefSymbol == -1
    requires Accepted(reader.file, knownMachine) ==> EntriesHaveSizes(ElfOf(reader.file))
    modifies reader
    ensures ok ==> Accepted(reader.file, knownMachine) && Loaded(ElfOf(reader.file), sections, symbols)
    ensures ok ==> IsDefIndex(symbols, reader.tblDefSymbol) && reader.targetLittle == ElfOf(reader.file).little
    ensures !ok && Accepted(reader.file, knownMachine) ==> Unloadable(ElfOf(reader.file))
  {
    hide SectionOf, SectionField, SectionOffset, HeaderField, TablesOf, Readable, SymbolAt, Record, Represents, GabiField, SizeOf,
      IsDefIndex;
    ok, sections, symbols := false, [], [];
    var accepted := reader.GetElfHeader(knownMachine);
    if !accepted {
      return;
    }
    ghost var e := ElfOf(reader.file);
    assert reader.View() == e;
    var shstrndx := reader.HeaderWord(E_SHSTRNDX);
    if HasSection(e, shstrndx) {
      NamelessSection(e, shstrndx, true);
    }
    var shstr := reader.GetSectionHeader(shstrndx);
    if shstr.None? {
      return;
    }
    reader.sectionNames := shstr.value.offset;
    var shnum := reader.HeaderWord(E_SHNUM);
    if shnum == 0 {
      return;
    }
    var ss := reader.ReadSections();
    if ss.None? {
      return;
    }
    forall sections: seq<Section>, symbols: seq<Symbol> | Loaded(e, sections, symbols)
      ensures sections == ss.value
    {
      SectionsUnique(e, SectionNamesAt(e), sections, ss.value);
    }
    if reader.tables.symtab.numSymbols == 0 {
      return;
    }
    var ys := reader.ReadSymbols();
    if ys.None? {
      return;
    }
    ok, sections, symbols := true, ss.value, ys.value;
  }

  /** Loaded sections and symbols are determined by the file. */
  lemma LoadedUnique(e: Elf, s: seq<Section>, y: seq<Symbol>, t: seq<Section>, z: seq<Symbol>)
    requires Loaded(e, s, y) && Loaded(e, t, z)
    ensures s == t && y == z
  {
    hide HasSection, HeaderField, HasHeader, TablesOf, Divisible;
    SectionsUnique(e, SectionNamesAt(e), s, t);
    SymbolsUnique(e, TablesOf(s, HeaderField(e, E_SHSTRNDX), e.is32), y, z);
  }

  lemma DefUnique(symbols: seq<Symbol>, c: nat, d: int)
    requires IsDefIndex(symbols, c) && IsDefIndex(symbols, d)
    ensures c == d
  {
    hide IsDefName;
  }

  /** The file holds a convertible object. */
  ghost predicate Convertible(file: seq<Byte>, knownMachine: nat -> bool, fmt: Format) {
    && Accepted(file, knownMachine)
    && exists sections: seq<Section>, symbols: seq<Symbol>, d: nat, k: nat :: Converts(ElfOf(file), fmt, sections, symbols, d, k)
  }

  /**
   The whole converter. It writes a table file exactly if the source file is accepted, can be
   loaded, and holds a good table definition whose object is found and can be reached; the
   output is then that object's payload behind headers that describe it. The ghost results
   name the sections, the symbols, the definition and the object, which the file determines.
   */
  method Convert(file: seq<Byte>, hostLittle: bool, knownMachine: nat -> bool, fmt: Format, opt: Options)
    returns (ok: bool, out: seq<Byte>, ghost sections: seq<Section>, ghost symbols: seq<Symbol>, ghost d: nat, ghost k: nat)
    requires FileHeaderLength(fmt) < UINT32_RANGE
    requires Accepted(file, knownMachine) ==> EntriesHaveSizes(ElfOf(file)) && InBounds(ElfOf(file), fmt, opt)
    ensures ok <==> Convertible(file, knownMachine, fmt)
    ensures ok ==> Converts(ElfOf(file), fmt, sections, symbols, d, k)
    ensures ok ==>
      Wrote(file, DefOf(file, ElfOf(file).little, symbols[d], sections, fmt), fmt, opt, sections, symbols[k], out)
  {
    hide Loaded, NameAccepted, EntriesHaveSizes, TextsFit, FileHeaderLength, IdentOk, GabiField, SizeOf, InBss, ObjectOffset, Chunk,
      ImageOf, Encode, Fitting, PayloadSize, HasDef, DefOf, IsDefIndex;
    out, sections, symbols, d, k := [], [], [], 0, 0;
    var reader := new Reader(file, hostLittle);
    var ss, ys;
    ok, ss, ys := Load(reader, knownMachine);
    if !ok {
      return;
    }
    sections, symbols := ss, ys;
    ghost var e := ElfOf(file);
    OnlyOneWay(e, fmt, ss, ys, reader.tblDefSymbol);
    if reader.tblDefSymbol == -1 {
      ok := false;
      return;
    }
    DefInside(ys, reader.tblDefSymbol);
    var defSymbol: nat := reader.tblDefSymbol;
    d := defSymbol;
    assert FollowsReferences(e, fmt, opt, ss, ys, d);
    var converter := new Converter(file, reader.targetLittle, hostLittle, ss, ys);
    ok := converter.ReadDefinition(defSymbol, fmt);
    if !ok {
      return;
    }
    ok := converter.LocateAndReadUserObject();
    if !ok {
      return;
    }
    k :| IsObject(ys, converter.def.objectName, k);
    assert symbols[k].shndx < |sections|;
    var written;
    written, out := converter.OutputDataToTargetFile(fmt, opt);
    SelectedIsPayload(file, ys[k], ss, converter.def.objectSize, converter.position);
    assert Converts(e, fmt, ss, ys, d, k);
  }

  lemma DefInside(symbols: seq<Symbol>, d: int)
    requires IsDefIndex(symbols, d)
    ensures -1 <= d < |symbols|
  {
  }

  lemma ObjectUnique(symbols: seq<Symbol>, wanted: seq<Byte>, j: nat, k: nat)
    requires IsObject(symbols, wanted, j) && IsObject(symbols, wanted, k)
    ensures j == k
  {
    hide NameAccepted;
  }

  /** The length in the file header: eight words and the description, at a multiple of four. */
  lemma HeaderLengths()
    ensures FileHeaderLength(Format(32, 38, true)) == 64 && FileHeaderLength(Format(32, 40, true)) == 64
    ensures FileHeaderLength(Format(30, 40, true)) == 64
  {
    hide Pad;
    PadOf(32, 8, 0);
    PadOf(30, 7, 2);
  }

  /** There is at most one way to convert a file, from what the program loads and notes. */
  lemma OnlyOneWay(e: Elf, fmt: Format, ss: seq<Section>, ys: seq<Symbol>, noted: int)
    requires Loaded(e, ss, ys) && IsDefIndex(ys, noted)
    ensures forall sections: seq<Section>, symbols: seq<Symbol>, d: nat, k: nat | Converts(e, fmt, sections, symbols, d, k) ::
      sections == ss && symbols == ys && d == noted
  {
    hide Loaded, IsObject, HasDef, DefOf, IsDefIndex, Seekable;
    forall sections: seq<Section>, symbols: seq<Symbol>, d: nat, k: nat | Converts(e, fmt, sections, symbols, d, k)
      ensures sections == ss && symbols == ys && d == noted
    {
      LoadedUnique(e, sections, symbols, ss, ys);
      DefUnique(ys, d, noted);
    }
  }

  lemma SelectedIsPayload(file: seq<Byte>, s: Symbol, sections: seq<Section>, objectSize: nat, position: nat)
    requires s.shndx < |sections| && (!InBss(s, sections) ==> position == ObjectOffset(s, sections))
    ensures Chunk(file, InBss(s, sections), position, PayloadSize(s, sections, objectSize))
         == PayloadOf(file, s, sections, objectSize)
  {
    hide InBss, ObjectOffset, PayloadSize, Chunk;
  }

  /** The output is the table file for this object's payload. */
  ghost predicate Wrote(file: seq<Byte>, def: FileDef, fmt: Format, opt: Options, sections: seq<Section>, s: Symbol, out: seq<Byte>) {
    && s.shndx < |sections| && FileHeaderLength(fmt) < UINT32_RANGE
    && var im := ImageOf(fmt, opt, def, PayloadOf(file, s, sections, def.objectSize));
    && Fitting(im, fmt)
    && out == Encode(im, fmt)
  }

  /** A reader of the output finds the number of payload bytes in the size field whenever it can be stored there. */
  lemma SizeFieldIsPayloadLength(file: seq<Byte>, def: FileDef, fmt: Format, opt: Options, sections: seq<Section>, s: Symbol,
                                 out: seq<Byte>)
    requires Wrote(file, def, fmt, opt, sections, s, out)
    ensures var p := Parse(out, fmt);
      && p.Parsed?
      && p.payload == PayloadOf(file, s, sections, def.objectSize)
      && |p.fileWords| == 8 && p.fileWords[0] == 0x63464531 && p.fileWords[1] == 8
      && p.fileWords[2] == FileHeaderLength(fmt)
      && p.fileWords[3] == (if opt.spacecraft.Some? then opt.spacecraft.value else 0)
      && p.fileWords[4] == (if opt.processor.Some? then opt.processor.value else 0)
      && p.fileWords[5] == (if opt.application.Some? then opt.application.value else 0)
      && p.fileWords[6] == (if opt.timeTag.Some? then opt.timeTag.value else 0) && p.fileWords[7] == 0
      && |p.tableWords| == 3 && p.tableWords[0] == 0 && p.tableWords[1] == 0
      && p.tableWords[2] == PayloadSize(s, sections, def.objectSize) % 0x1_0000_0000
      && (p.tableWords[2] == |p.payload| <==> PayloadSize(s, sections, def.objectSize) < 0x1_0000_0000)
      && p.description == (if opt.description.Some? then opt.description.value else def.description)
      && p.tableName == (if opt.tableName.Some? then opt.tableName.value else def.tableName)
  {
    hide Parse, Encode, PayloadSize, Fitting, FileHeaderLength;
    ParseEncode(ImageOf(fmt, opt, def, PayloadOf(file, s, sections, def.objectSize)), fmt);
  }

  /**
   End to end over the two tools: on a table file converted with headers of 116 bytes, the CRC
   tool reports the size and the bit-at-a-time CRC of the bytes that the ELF file's own
   encoding designates as the object, for hosts of either byte order.
   */
  method ConvertThenCheck(file: seq<Byte>, hostLittle: bool, knownMachine: nat -> bool, fmt: Format, opt: Options)
    returns (ok: bool, size: nat, crc: bv32, ghost sections: seq<Section>, ghost symbols: seq<Symbol>, ghost d: nat, ghost k: nat)
    requires HeaderSize(fmt) == Crc.HEADER_SIZE
    requires Accepted(file, knownMachine) ==> EntriesHaveSizes(ElfOf(file)) && InBounds(ElfOf(file), fmt, opt)
    ensures ok <==> Convertible(file, knownMachine, fmt)
    ensures ok ==> Converts(ElfOf(file), fmt, sections, symbols, d, k)
    ensures ok ==>
      var def := DefOf(file, ElfOf(file).little, symbols[d], sections, fmt);
      && size == PayloadSize(symbols[k], sections, def.objectSize)
      && crc == CrcWords.SignExtend(Crc.CrcOf(0, PayloadOf(file, symbols[k], sections, def.objectSize)))
      && CrcWords.IsSigned16(crc, Crc.CrcOf(0, PayloadOf(file, symbols[k], sections, def.objectSize)))
  {
    hide Loaded, NameAccepted, EntriesHaveSizes, InBounds, IdentOk, PayloadOf, Encode, ImageOf, Fitting, PayloadSize,
      HasDef, DefOf, Seekable, GabiField, SizeOf, HeaderSize, Crc.CrcOf, CrcWords.SignExtend, CrcWords.IsSigned16, Crc.Payload;
    size, crc := 0, 0;
    HeaderLengthFits(fmt);
    var out;
    ok, out, sections, symbols, d, k := Convert(file, hostLittle, knownMachine, fmt, opt);
    if ok {
      ghost var def := DefOf(file, ElfOf(file).little, symbols[d], sections, fmt);
      ghost var payload := PayloadOf(file, symbols[k], sections, def.objectSize);
      PayloadIsKept(fmt, opt, def, payload);
      ToolSeesEveryPayload(ImageOf(fmt, opt, def, payload), fmt);
      size, crc := Crc.TableCrc(out);
    }
  }

  lemma HeaderLengthFits(fmt: Format)
    requires HeaderSize(fmt) == Crc.HEADER_SIZE
    ensures FileHeaderLength(fmt) < UINT32_RANGE
  {
  }

  lemma PayloadIsKept(fmt: Format, opt: Options, def: FileDef, payload: seq<Byte>)
    requires FileHeaderLength(fmt) < UINT32_RANGE
    ensures ImageOf(fmt, opt, def, payload).payload == payload
  {
  }
}
