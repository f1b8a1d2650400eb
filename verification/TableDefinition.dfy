/**
 The table definition object that tools/elf2cfetbl/elf2cfetbl.c looks for in the ELF file, a
 CFE_TBL_FileDef_t (cfe/fsw/cfe-core/src/inc/cfe_tbl_filedef.h): where its fields lie, and how
 the program checks, reads and byte-swaps it.
 */
module TableDefinition {
  import opened Basics
  import opened ElfFields
  import opened ElfReader
  import opened TableFile

  /** The definition of the table: which object, its size, and the texts for the headers. */
  datatype FileDef = FileDef(objectName: seq<Byte>, objectSize: Word, description: seq<Byte>, tableName: seq<Byte>)

  // ---- The layout ----

  const OBJECT_NAME_SIZE: nat := 64
  const TARGET_NAME_SIZE: nat := 20

  const OBJECT_NAME: Field := Field(0, OBJECT_NAME_SIZE)

  function TableNameField(fmt: Format): Field {
    Field(OBJECT_NAME_SIZE, fmt.nameLen)
  }

  /** The description field has room for as many more bytes as its capacity exceeds a multiple of four. */
  function DescriptionField(fmt: Format): Field {
    Field(OBJECT_NAME_SIZE + fmt.nameLen, fmt.descLen + fmt.descLen % 4)
  }

  /** The size of the object comes last, after the target file name, at a multiple of four. */
  function ObjectSizeField(fmt: Format): (f: Field)
    ensures f.size == 4
  {
    var end := DescriptionField(fmt).off + DescriptionField(fmt).size + TARGET_NAME_SIZE;
    Field(end + Pad(end, true), 4)
  }

  function DefSize(fmt: Format): (n: nat)
    ensures OBJECT_NAME_SIZE <= n
    ensures TableNameField(fmt).off + TableNameField(fmt).size <= ObjectSizeField(fmt).off
    ensures DescriptionField(fmt).off + DescriptionField(fmt).size <= ObjectSizeField(fmt).off
    ensures OBJECT_NAME_SIZE <= ObjectSizeField(fmt).off && n == ObjectSizeField(fmt).off + 4
  {
    ObjectSizeField(fmt).off + 4
  }

  /** With either capacity of the table name, the structure has 160 bytes and ends with the size. */
  lemma DefaultDefSize()
    ensures DefSize(Format(32, 40, true)) == DefSize(Format(32, 38, true)) == 160
  {
    assert ObjectSizeField(Format(32, 40, true)) == Field(156, 4);
    assert ObjectSizeField(Format(32, 38, true)) == Field(156, 4);
  }

  // ---- What the file says ----

  lemma {:induction false} ValueBound(s: seq<Byte>)
    ensures Value(s) < Power(|s|)
    decreases s
  {
    if s != [] {
      ValueBound(s[1..]);
    }
  }

  /** A word of the structure in the byte order of the file. */
  function WordIn(raw: seq<Byte>, f: Field, little: bool): (w: Word)
    requires f.off + f.size <= |raw| && f.size == 4
  {
    hide Value, Power, Reverse;
    ValueBound(Slice(raw, f));
    ValueBound(Reverse(Slice(raw, f)));
    FourBytes();
    Decode(Slice(raw, f), little)
  }

  /**
   The definition that the bytes of the structure encode; texts end at their first zero byte.
   An object name without one counts as 64 characters: no symbol name is that long, so that
   nothing matches it, whatever follows it in memory.
   */
  function DefIn(raw: seq<Byte>, little: bool, fmt: Format): (def: FileDef)
    requires |raw| == DefSize(fmt)
  {
    FileDef(TextOf(Slice(raw, OBJECT_NAME)), WordIn(raw, ObjectSizeField(fmt), little),
            TextOf(Slice(raw, DescriptionField(fmt))), TextOf(Slice(raw, TableNameField(fmt))))
  }

  /** Where the bytes of a symbol's object start in the file. */
  function ObjectOffset(s: Symbol, sections: seq<Section>): nat
    requires s.shndx < |sections|
  {
    UInt64(sections[s.shndx].offset + s.value)
  }

  predicate DefSizeOk(s: Symbol, fmt: Format) {
    s.size == 0 || s.size == DefSize(fmt)
  }

  /** The definition passes the program's checks: its size, a 32-bit offset, and enough bytes in the file. */
  predicate HasDef(file: seq<Byte>, s: Symbol, sections: seq<Section>, fmt: Format) {
    && DefSizeOk(s, fmt)
    && s.shndx < |sections|
    && ObjectOffset(s, sections) < UINT32_RANGE
    && ObjectOffset(s, sections) + DefSize(fmt) <= |file|
  }

  function DefOf(file: seq<Byte>, little: bool, s: Symbol, sections: seq<Section>, fmt: Format): (def: FileDef)
    requires HasDef(file, s, sections, fmt)
  {
    var off := ObjectOffset(s, sections);
    DefIn(file[off..off + DefSize(fmt)], little, fmt)
  }

  // ---- Reading it ----

  /** One field is swapped, every other byte keeps its place. */
  lemma OneFieldSwapped(raw: seq<Byte>, b: seq<Byte>, f: Field)
    requires f.off + f.size <= |raw| && Swapped(b, raw, [f], 1)
    ensures |b| == |raw|
    ensures Slice(b, f) == Reverse(Slice(raw, f))
    ensures forall g: Field | g.off + g.size <= f.off :: Slice(b, g) == Slice(raw, g)
  {
    hide SwapAll, Reverse;
    var fs := [f];
    assert fs[..1] == fs;
    SwapAllField(raw, fs, 0);
    forall i: nat | i < f.off
      ensures b[i] == raw[i]
    {
      SwapAllOutside(raw, fs, i);
    }
  }

  /** What the host sees in the image after the conditional swap is what the file encodes. */
  lemma HostSeesDef(raw: seq<Byte>, b: seq<Byte>, fmt: Format, fileLittle: bool, hostLittle: bool)
    requires |raw| == DefSize(fmt)
    requires if fileLittle != hostLittle then Swapped(b, raw, [ObjectSizeField(fmt)], 1) else b == raw
    ensures |b| == |raw| && DefIn(b, hostLittle, fmt) == DefIn(raw, fileLittle, fmt)
  {
    hide Swapped, TextOf, Decode, Slice, ObjectSizeField;
    if fileLittle != hostLittle {
      var f := ObjectSizeField(fmt);
      OneFieldSwapped(raw, b, f);
      DecodeReversed(Slice(raw, f), hostLittle);
      assert Slice(b, OBJECT_NAME) == Slice(raw, OBJECT_NAME);
      assert Slice(b, TableNameField(fmt)) == Slice(raw, TableNameField(fmt));
      assert Slice(b, DescriptionField(fmt)) == Slice(raw, DescriptionField(fmt));
    }
  }

  /** Checks and reads the definition: it succeeds exactly if there is one, and reads what the file encodes. */
  method GetTblDefInfo(file: seq<Byte>, s: Symbol, sections: seq<Section>, fmt: Format, fileLittle: bool, hostLittle: bool)
    returns (r: Option<FileDef>)
    requires DefSizeOk(s, fmt) ==> s.shndx < |sections|
    ensures r.Some? <==> HasDef(file, s, sections, fmt)
    ensures r.Some? ==> r.value == DefOf(file, fileLittle, s, sections, fmt)
  {
    hide DefIn, ObjectSizeField, Swapped, SwapAll;
    if s.size != DefSize(fmt) && s.size != 0 {
      return None;
    }
    var calculated := UInt64(sections[s.shndx].offset + s.value);
    var seekOffset := calculated % UINT32_RANGE;
    var ok := seekOffset == calculated;
    if seekOffset + DefSize(fmt) > |file| || !ok {
      return None;
    }
    var raw := file[seekOffset..seekOffset + DefSize(fmt)];
    var b := new Byte[DefSize(fmt)](i requires 0 <= i < |raw| => raw[i]);
    assert b[..] == raw;
    if fileLittle != hostLittle {
      ghost var fs := [ObjectSizeField(fmt)];
      NoneSwapped(raw, fs);
      SwapUInt32(b, ObjectSizeField(fmt).off, raw, fs, 0);
    }
    HostSeesDef(raw, b[..], fmt, fileLittle, hostLittle);
    r := Some(DefIn(b[..], hostLittle, fmt));
  }
}
