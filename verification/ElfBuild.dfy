/**
 An object file for every table: the file that a compiler would produce for one table object and
 its definition, in either class and encoding, put together from the structures of `ElfEncode`.
 Each such file presents what it was built from, so that the converter, applied to it, writes
 the table's bytes behind the headers that the definition asks for.
 */
module ElfBuild {
  import opened Basics
  import opened ElfEncode
  import opened ElfAbi
  import opened ElfReader
  import opened TableFile
  import opened TableDefinition
  import opened TableConverter
  import opened ElfFile

  // ---- Parts of a file ----

  predicate At(file: seq<Byte>, off: nat, part: seq<Byte>) {
    off + |part| <= |file| && file[off..off + |part|] == part
  }

  lemma AtBytes(file: seq<Byte>, off: nat, part: seq<Byte>)
    ensures At(file, off, part) <==> off + |part| <= |file| && forall i | 0 <= i < |part| :: file[off + i] == part[i]
  {
    if off + |part| <= |file| && forall i | 0 <= i < |part| :: file[off + i] == part[i] {
      assert file[off..off + |part|] == part;
    } else if At(file, off, part) {
      forall i | 0 <= i < |part|
        ensures file[off + i] == part[i]
      {
        assert file[off..off + |part|][i] == part[i];
      }
    }
  }

  lemma AtInside(file: seq<Byte>, off: nat, part: seq<Byte>, i: nat, inner: seq<Byte>)
    requires At(file, off, part) && At(part, i, inner)
    ensures At(file, off + i, inner)
  {
    AtBytes(file, off, part);
    AtBytes(part, i, inner);
    hide At;
    forall j | 0 <= j < |inner|
      ensures file[(off + i) + j] == inner[j]
    {
      assert part[i + j] == inner[j];
      assert file[off + (i + j)] == part[i + j];
    }
    AtBytes(file, off + i, inner);
  }

  lemma AtEnd(a: seq<Byte>, b: seq<Byte>, c: seq<Byte>)
    ensures At(a + b + c, |a|, b)
  {
  }

  /** Blocks one after the other. */
  function Rows(rows: seq<seq<Byte>>): (s: seq<Byte>) {
    if rows == [] then [] else Rows(rows[..|rows| - 1]) + rows[|rows| - 1]
  }

  lemma {:induction false} RowAt(rows: seq<seq<Byte>>, w: nat, i: nat)
    requires forall k | 0 <= k < |rows| :: |rows[k]| == w
    ensures |Rows(rows)| == |rows| * w
    ensures i < |rows| ==> At(Rows(rows), i * w, rows[i])
    decreases rows
  {
    hide At;
    if rows != [] {
      var m := |rows| - 1;
      RowAt(rows[..m], w, i);
      OneMore(m, w);
      if i < m {
        assert rows[..m][i] == rows[i];
        AtEnd([], Rows(rows[..m]), rows[m]);
        assert [] + Rows(rows[..m]) + rows[m] == Rows(rows);
        AtInside(Rows(rows), 0, Rows(rows[..m]), i * w, rows[i]);
      } else if i == m {
        AtEnd(Rows(rows[..m]), rows[m], []);
        assert Rows(rows[..m]) + rows[m] + [] == Rows(rows);
      }
    }
  }

  lemma OneMore(m: nat, w: nat)
    ensures (m + 1) * w == m * w + w
  {
  }

  // ---- The file of a table ----

  const DATA_NAME: seq<Byte> := [0x2E, 0x64, 0x61, 0x74, 0x61]
  const SYMTAB_NAME: seq<Byte> := [0x2E, 0x73, 0x79, 0x6D, 0x74, 0x61, 0x62]
  const STRTAB_NAME: seq<Byte> := [0x2E, 0x73, 0x74, 0x72, 0x74, 0x61, 0x62]
  const SHSTRTAB_NAME: seq<Byte> := [0x2E, 0x73, 0x68, 0x73, 0x74, 0x72, 0x74, 0x61, 0x62]

  /** The names of the sections, each ended by a zero, after a zero of their own. */
  const SECTION_NAMES: seq<Byte> := [0] + DATA_NAME + [0] + SYMTAB_NAME + [0] + STRTAB_NAME + [0] + SHSTRTAB_NAME + [0]

  /** A table in the source of an application: its object and its definition, compiled for a machine. */
  datatype Source = Source(is32: bool, little: bool, machine: nat, fmt: Format, def: FileDef, target: seq<Byte>, payload: seq<Byte>) {
    function HeaderSize(): nat { if is32 then 52 else 64 }

    function SectionSize(): nat { if is32 then 40 else 64 }

    function SymbolSize(): nat { if is32 then 16 else 24 }

    /** The names of the symbols, likewise: that of the object, then that of its definition. */
    function Strings(): (s: seq<Byte>)
      ensures |s| == |def.objectName| + 18
    {
      [0] + def.objectName + [0] + TBL_DEF_SYMBOL_NAME + [0]
    }

    function SymtabAt(): nat { HeaderSize() + 5 * SectionSize() }

    function StringsAt(): nat { SymtabAt() + 3 * SymbolSize() }

    function NamesAt(): nat { StringsAt() + |Strings()| }

    function DataAt(): nat { NamesAt() + 33 }

    predicate Suits() {
      TextsSuit(def, target, fmt) && |def.objectName| < 60 && def.objectSize == |payload|
    }

    function Definition(): seq<Byte>
      requires Suits()
    {
      EncodeDef(def, target, fmt, little)
    }

    /** The file has a machine number of two bytes and is shorter than 2^31 bytes. */
    predicate Valid() {
      Suits() && machine < 0x1_0000 && DataAt() + |Definition()| + |payload| < 0x8000_0000
    }

    function Header(): ElfHeader {
      ElfHeader(1, machine, 1, 0, 0, HeaderSize(), 0, HeaderSize(), 0, 0, SectionSize(), 5, 4)
    }

    /** No section, then the data, the symbol table, its strings, and the names of the sections. */
    function Sections(): (s: seq<SectionSpec>)
      requires Suits()
      ensures |s| == 5
    {
      [SectionSpec(SectionHeader(0, 0, 0, 0, 0, 0, 0, 0, 0, 0), []),
       SectionSpec(SectionHeader(1, 1, 3, 0, DataAt(), |Definition()| + |payload|, 0, 0, 4, 0), DATA_NAME),
       SectionSpec(SectionHeader(7, 2, 0, 0, SymtabAt(), 3 * SymbolSize(), 3, 1, 4, SymbolSize()), SYMTAB_NAME),
       SectionSpec(SectionHeader(15, 3, 0, 0, StringsAt(), |Strings()|, 0, 0, 1, 0), STRTAB_NAME),
       SectionSpec(SectionHeader(23, 3, 0, 0, NamesAt(), 33, 0, 0, 1, 0), SHSTRTAB_NAME)]
    }

    /** The object after the definition, both global and in section 1. */
    function Symbols(): (s: seq<SymbolSpec>)
      requires Suits()
      ensures |s| == 2
    {
      [SymbolSpec(SymbolEntry(1, |Definition()|, |payload|, 17, 0, 1), def.objectName),
       SymbolSpec(SymbolEntry(|def.objectName| + 2, 0, |Definition()|, 17, 0, 1), TBL_DEF_SYMBOL_NAME)]
    }

    function Spec(): FileSpec
      requires Suits()
    {
      FileSpec(is32, little, Header(), Sections(), 2, 3, Symbols())
    }

    function Head(): seq<Byte> {
      Ident(is32, little, Zeros(9)) + EncodeAll(HeaderMembers(is32, Header()), little)
    }

    function SectionRows(): (rows: seq<seq<Byte>>)
      requires Suits()
      ensures |rows| == 5
    {
      seq(5, i requires 0 <= i < 5 => EncodeAll(SectionMembers(is32, Sections()[i].h), little))
    }

    /** The unused first symbol, then the others. */
    function SymbolRows(): (rows: seq<seq<Byte>>)
      requires Suits()
      ensures |rows| == 3
    {
      [Zeros(SymbolSize()), EncodeAll(SymbolMembers(is32, Symbols()[0].h), little), EncodeAll(SymbolMembers(is32, Symbols()[1].h), little)]
    }

    function File(): seq<Byte>
      requires Suits()
    {
      Head() + Rows(SectionRows()) + Rows(SymbolRows()) + Strings() + SECTION_NAMES + (Definition() + payload)
    }
  }

  // ---- Where its parts are ----

  lemma HeadSize(s: Source)
    ensures |s.Head()| == s.HeaderSize()
  {
    hide OffsetOf, Ident;
    HeaderOffsets(s.is32, s.Header());
    IdentSize(s.is32, s.little);
  }

  lemma SectionRowSize(s: Source, i: nat)
    requires s.Suits() && i < 5
    ensures |s.SectionRows()[i]| == s.SectionSize()
  {
    hide OffsetOf, Source.Sections, Source.Suits;
    SectionOffsets(s.is32, s.Sections()[i].h);
  }

  lemma EncodedSymbolSize(is32: bool, h: SymbolEntry, little: bool)
    ensures |EncodeAll(SymbolMembers(is32, h), little)| == if is32 then 16 else 24
  {
    SymbolOffsets(is32, h);
  }

  lemma SymbolRowSize(s: Source, i: nat)
    requires s.Suits() && i < 3
    ensures |s.SymbolRows()[i]| == s.SymbolSize()
  {
    hide OffsetOf, Source.Symbols, Source.Suits, SymbolMembers, EncodeAll;
    EncodedSymbolSize(s.is32, s.Symbols()[0].h, s.little);
    EncodedSymbolSize(s.is32, s.Symbols()[1].h, s.little);
  }

  lemma SectionRowAt(s: Source, i: nat)
    requires s.Suits() && i < 5
    ensures |Rows(s.SectionRows())| == 5 * s.SectionSize()
    ensures At(Rows(s.SectionRows()), i * s.SectionSize(), s.SectionRows()[i])
  {
    hide Rows, Source.SectionRows, Source.Suits, At, Source.SectionSize;
    forall k | 0 <= k < 5
      ensures |s.SectionRows()[k]| == s.SectionSize()
    {
      SectionRowSize(s, k);
    }
    RowAt(s.SectionRows(), s.SectionSize(), i);
  }

  lemma SymbolRowAt(s: Source, i: nat)
    requires s.Suits() && i < 3
    ensures |Rows(s.SymbolRows())| == 3 * s.SymbolSize()
    ensures At(Rows(s.SymbolRows()), i * s.SymbolSize(), s.SymbolRows()[i])
  {
    hide Rows, Source.SymbolRows, Source.Suits, At, Source.SymbolSize;
    forall k | 0 <= k < 3
      ensures |s.SymbolRows()[k]| == s.SymbolSize()
    {
      SymbolRowSize(s, k);
    }
    RowAt(s.SymbolRows(), s.SymbolSize(), i);
  }

  lemma IdentSize(is32: bool, little: bool)
    ensures |Ident(is32, little, Zeros(9))| == 16 && Ident(is32, little, Zeros(9))[..7] == Ident(is32, little, [])
  {
  }

  lemma SixParts(a: seq<Byte>, b: seq<Byte>, c: seq<Byte>, d: seq<Byte>, e: seq<Byte>, f: seq<Byte>)
    ensures var s := a + b + c + d + e + f;
      && At(s, 0, a) && At(s, |a|, b) && At(s, |a| + |b|, c) && At(s, |a| + |b| + |c|, d)
      && At(s, |a| + |b| + |c| + |d|, e) && At(s, |a| + |b| + |c| + |d| + |e|, f)
  {
    hide At;
    AtStart(a, b);
    AtStart(a + b, c);
    AtStart(a + b + c, d);
    AtStart(a + b + c + d, e);
    AtStart(a + b + c + d + e, f);
  }

  /** A part stays where it is when more is appended, and what is appended comes last. */
  lemma AtStart(s: seq<Byte>, more: seq<Byte>)
    ensures At(s + more, |s|, more) && At(s + more, 0, s)
    ensures forall off: nat, part | At(s, off, part) :: At(s + more, off, part)
  {
    forall off: nat, part | At(s, off, part)
      ensures At(s + more, off, part)
    {
      assert (s + more)[off..off + |part|] == s[off..off + |part|];
    }
  }

  lemma Parts(s: Source)
    requires s.Suits()
    ensures var file := s.File();
      && |file| == s.DataAt() + |s.Definition()| + |s.payload|
      && At(file, 0, s.Head()) && At(file, s.HeaderSize(), Rows(s.SectionRows())) && At(file, s.SymtabAt(), Rows(s.SymbolRows()))
      && At(file, s.StringsAt(), s.Strings()) && At(file, s.NamesAt(), SECTION_NAMES)
      && At(file, s.DataAt(), s.Definition() + s.payload)
  {
    hide Rows, At, Source.Head, Source.SectionRows, Source.SymbolRows, Source.Definition, Source.Strings;
    HeadSize(s);
    SectionRowAt(s, 0);
    SymbolRowAt(s, 0);
    SixParts(s.Head(), Rows(s.SectionRows()), Rows(s.SymbolRows()), s.Strings(), SECTION_NAMES, s.Definition() + s.payload);
  }

  // ---- What it presents ----

  lemma Widths()
    ensures Power(1) == 0x100 && Power(2) == 0x1_0000 && Power(4) == 0x1_0000_0000 && Power(8) > 0x1_0000_0000
  {
    FourBytes();
    assert Power(6) == 65536 * Power(4);
    assert Power(8) == 65536 * Power(6);
  }

  lemma HeaderIsThere(s: Source)
    requires s.Valid()
    ensures StartsWith(s.File(), s.is32, s.little, s.Header())
  {
    hide Rows, OffsetOf, EncodeAll, Power, Source.File, Ident, Source.Definition;
    var ms, id := HeaderMembers(s.is32, s.Header()), Ident(s.is32, s.little, Zeros(9));
    Widths();
    Parts(s);
    IdentSize(s.is32, s.little);
    HeaderOffsets(s.is32, s.Header());
    var bytes := EncodeAll(ms, s.little);
    assert At(s.Head(), 16, bytes) && At(s.Head(), 0, id);
    AtInside(s.File(), 0, s.Head(), 16, bytes);
    AtInside(s.File(), 0, s.Head(), 0, id);
    assert s.File()[..7] == s.File()[0..16][..7];
  }

  lemma SectionIsEncoded(s: Source, i: nat)
    requires s.Valid() && i < 5
    ensures EncodedAt(s.File(), s.Spec().Offset(i), SectionMembers(s.is32, s.Sections()[i].h), s.little)
  {
    hide Rows, OffsetOf, EncodeAll, Source.File, Source.Definition, Source.Strings, Source.Sections, At, Small, Source.Suits;
    Parts(s);
    SectionRowAt(s, i);
    SectionRowSize(s, i);
    AtInside(s.File(), s.HeaderSize(), Rows(s.SectionRows()), i * s.SectionSize(), s.SectionRows()[i]);
    SectionsAreSmall(s, i);
    AtIsEncoded(s.File(), s.Spec().Offset(i), SectionMembers(s.is32, s.Sections()[i].h), s.little);
  }

  lemma AtIsEncoded(file: seq<Byte>, off: nat, ms: seq<Member>, little: bool)
    requires At(file, off, EncodeAll(ms, little)) && Small(ms)
    ensures EncodedAt(file, off, ms, little)
  {
  }

  lemma SectionsAreSmall(s: Source, i: nat)
    requires s.Valid() && i < 5
    ensures Small(SectionMembers(s.is32, s.Sections()[i].h))
  {
    hide Power, Source.Definition, Source.Suits;
    Widths();
  }

  lemma SymbolIsEncoded(s: Source, i: nat)
    requires s.Valid() && i < 2
    ensures EncodedAt(s.File(), s.SymtabAt() + (i + 1) * s.SymbolSize(), SymbolMembers(s.is32, s.Symbols()[i].h), s.little)
  {
    hide Rows, OffsetOf, EncodeAll, Source.File, Source.Definition, Source.Strings, Source.Symbols, At, Small, Source.Suits, SymbolMembers;
    Parts(s);
    SymbolRowAt(s, i + 1);
    SymbolRowSize(s, i + 1);
    AtInside(s.File(), s.SymtabAt(), Rows(s.SymbolRows()), (i + 1) * s.SymbolSize(), s.SymbolRows()[i + 1]);
    SymbolsAreSmall(s, i);
    AtIsEncoded(s.File(), s.SymtabAt() + (i + 1) * s.SymbolSize(), SymbolMembers(s.is32, s.Symbols()[i].h), s.little);
  }

  lemma SymbolsAreSmall(s: Source, i: nat)
    requires s.Valid() && i < 2
    ensures Small(SymbolMembers(s.is32, s.Symbols()[i].h))
  {
    hide Power, Source.Definition;
    Widths();
  }

  lemma TextAt(file: seq<Byte>, off: nat, part: seq<Byte>, i: nat, name: seq<Byte>)
    requires At(file, off, part) && At(part, i, name + [0]) && 0 !in name
    ensures IsTextAt(file, off + i, name)
  {
    AtInside(file, off, part, i, name + [0]);
    AtBytes(file, off + i, name + [0]);
    AtBytes(file, off + i, name);
    hide At;
    assert (name + [0])[|name|] == 0;
    assert forall j | 0 <= j < |name| :: (name + [0])[j] == name[j];
  }

  lemma NamesOfSections()
    ensures |SECTION_NAMES| == 33
    ensures At(SECTION_NAMES, 1, DATA_NAME + [0]) && At(SECTION_NAMES, 7, SYMTAB_NAME + [0])
    ensures At(SECTION_NAMES, 15, STRTAB_NAME + [0]) && At(SECTION_NAMES, 23, SHSTRTAB_NAME + [0])
    ensures 0 !in DATA_NAME && 0 !in SYMTAB_NAME && 0 !in STRTAB_NAME && 0 !in SHSTRTAB_NAME
  {
    AtBytes(SECTION_NAMES, 1, DATA_NAME + [0]);
    AtBytes(SECTION_NAMES, 7, SYMTAB_NAME + [0]);
    AtBytes(SECTION_NAMES, 15, STRTAB_NAME + [0]);
    AtBytes(SECTION_NAMES, 23, SHSTRTAB_NAME + [0]);
    hide At;
  }

  lemma NameOfSection(s: Source, i: nat)
    requires s.Suits() && 0 < i < 5
    ensures At(SECTION_NAMES, s.Sections()[i].h.name, s.Sections()[i].name + [0]) && 0 !in s.Sections()[i].name
  {
    hide At, Source.Definition, Source.Suits;
    NamesOfSections();
  }

  lemma SectionNameIsThere(s: Source, i: nat)
    requires s.Valid() && 0 < i < 5
    ensures IsTextAt(s.File(), s.NamesAt() + s.Sections()[i].h.name, s.Sections()[i].name)
  {
    hide IsTextAt, At, Source.File, Source.Definition, Source.Strings, Source.Suits, Source.Sections,
      Rows, Source.Head, Source.SectionRows, Source.SymbolRows;
    Parts(s);
    NameOfSection(s, i);
    TextAt(s.File(), s.NamesAt(), SECTION_NAMES, s.Sections()[i].h.name, s.Sections()[i].name);
  }

  lemma NamesOfSymbols(s: Source)
    ensures At(s.Strings(), 1, s.def.objectName + [0])
    ensures At(s.Strings(), |s.def.objectName| + 2, TBL_DEF_SYMBOL_NAME + [0])
  {
    AtBytes(s.Strings(), 1, s.def.objectName + [0]);
    AtBytes(s.Strings(), |s.def.objectName| + 2, TBL_DEF_SYMBOL_NAME + [0]);
  }

  lemma NameOfSymbol(s: Source, i: nat)
    requires s.Suits() && i < 2
    ensures At(s.Strings(), s.Symbols()[i].h.name, s.Symbols()[i].name + [0]) && 0 !in s.Symbols()[i].name
  {
    hide At, Source.Definition, Source.Strings;
    NamesOfSymbols(s);
  }

  lemma SymbolNameIsThere(s: Source, i: nat)
    requires s.Valid() && i < 2
    ensures IsTextAt(s.File(), s.StringsAt() + s.Symbols()[i].h.name, s.Symbols()[i].name)
  {
    hide IsTextAt, At, Source.File, Source.Definition, Source.Strings, Source.Suits, Source.Symbols,
      Rows, Source.Head, Source.SectionRows, Source.SymbolRows;
    Parts(s);
    NameOfSymbol(s, i);
    TextAt(s.File(), s.StringsAt(), s.Strings(), s.Symbols()[i].h.name, s.Symbols()[i].name);
  }

  lemma BuiltSections(s: Source)
    requires s.Valid()
    ensures PresentsSections(s.File(), s.Spec())
  {
    hide IsTextAt, EncodedAt, Source.File, Source.Definition, Source.Strings, SectionMembers, FileSpec.Offset, Source.Suits;
    forall i: nat | i < 5
      ensures EncodedAt(s.File(), s.Spec().Offset(i), SectionMembers(s.is32, s.Sections()[i].h), s.little)
      ensures i > 0 ==> IsTextAt(s.File(), s.NamesAt() + s.Sections()[i].h.name, s.Sections()[i].name)
    {
      SectionIsEncoded(s, i);
      if i > 0 {
        SectionNameIsThere(s, i);
      }
    }
  }

  lemma BuiltTables(s: Source)
    requires s.Valid()
    ensures s.Spec().Consistent() && PresentsTables(s.Spec())
  {
    hide Source.Definition, Source.Strings, Source.Suits;
  }

  lemma BuiltSymbols(s: Source)
    requires s.Valid()
    ensures PresentsSymbols(s.File(), s.Spec())
  {
    hide IsTextAt, EncodedAt, Source.File, Source.Definition, Source.Strings, SymbolMembers;
    forall i: nat | i < 2
      ensures EncodedAt(s.File(), s.SymtabAt() + (i + 1) * s.SymbolSize(), SymbolMembers(s.is32, s.Symbols()[i].h), s.little)
      ensures IsTextAt(s.File(), s.StringsAt() + s.Symbols()[i].h.name, s.Symbols()[i].name)
    {
      SymbolIsEncoded(s, i);
      SymbolNameIsThere(s, i);
    }
  }

  lemma BuiltFileIsPresented(s: Source)
    requires s.Valid()
    ensures Presents(s.File(), s.Spec())
  {
    hide PresentsSections, PresentsSymbols, PresentsTables, At, Source.File, Source.Definition, Source.Strings, StartsWith, Rows,
      Source.Head, Source.SectionRows, Source.SymbolRows;
    Parts(s);
    HeaderIsThere(s);
    BuiltSections(s);
    BuiltTables(s);
    BuiltSymbols(s);
  }

  lemma DataIsThere(s: Source)
    requires s.Valid()
    ensures At(s.File(), s.DataAt(), s.Definition()) && At(s.File(), s.DataAt() + |s.Definition()|, s.payload)
  {
    hide At, Source.File, Source.Definition, Source.Strings, Source.Suits, Rows, Source.Head, Source.SectionRows, Source.SymbolRows;
    Parts(s);
    AtEnd([], s.Definition(), s.payload);
    AtEnd(s.Definition(), s.payload, []);
    assert [] + s.Definition() + s.payload == s.Definition() + s.payload == s.Definition() + s.payload + [];
    AtInside(s.File(), s.DataAt(), s.Definition() + s.payload, 0, s.Definition());
    AtInside(s.File(), s.DataAt(), s.Definition() + s.payload, |s.Definition()|, s.payload);
  }

  /** The built file holds the definition and the object, and the object's bytes are those of the table. */
  lemma BuiltFileIsComplete(s: Source)
    requires s.Valid()
    ensures Complete(s.File(), s.Spec(), s.fmt, 1, 0, s.def, s.target)
    ensures Content(s.File(), s.Spec(), 0, s.def) == s.payload
  {
    hide Presents, Source.File, EncodeDef, Source.Strings, TextsSuit;
    BuiltFileIsPresented(s);
    DataIsThere(s);
  }

  /**
   From the source of a table to its table file: whatever the class, the encoding, the host and
   the bytes, the converter writes exactly the table's bytes, with the texts of its definition.
   */
  method BuildThenConvert(s: Source, hostLittle: bool, knownMachine: nat -> bool, opt: Options) returns (out: seq<Byte>)
    requires s.Valid() && knownMachine(s.machine)
    requires FileHeaderLength(s.fmt) < UINT32_RANGE && TextsFit(s.fmt, opt, s.def)
    ensures Says(Parse(out, s.fmt), s.fmt, opt, s.def, s.payload)
  {
    hide Complete, Source.File, Says, Source.Definition, TextsFit;
    BuiltFileIsComplete(s);
    out := ConvertPresented(s.File(), hostLittle, knownMachine, s.fmt, opt, s.Spec(), 1, 0, s.def, s.target);
  }
}
